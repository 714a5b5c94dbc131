/**
 The page allocator: pages carved from the front, and a free list threaded through the released slots.
 */
module BatchAllocator {
  import opened SlotModel

  /** A page: the objects before `used` have been handed out, and `links` is its memory seen as pointers. */
  class BatchInfo {
    var next: BatchInfo?
    var used: nat
    const end: nat
    const links: array<Ptr<BatchInfo>>

    /** `allocateBatch`: memory for `objectsPerPage` allocations, though the end mark admits as many objects only. */
    constructor (objectPerAllocation: nat, objectsPerPage: nat)
      ensures next == null && used == 0 && end == objectsPerPage
      ensures links.Length == objectPerAllocation * objectsPerPage && fresh(links)
    {
      next, used, end := null, 0, objectsPerPage;
      links := new Ptr<BatchInfo>[objectPerAllocation * objectsPerPage](_ => Null);
    }
  }

  class BatchAllocator {
    const objectPerAllocation: nat
    const objectsPerPage: nat
    var batches: BatchInfo
    var currentBatch: BatchInfo?
    var freeHead: Ptr<BatchInfo>

    ghost var chain: seq<BatchInfo>        // the pages, newest first; the last one is the dummy page
    ghost var free: seq<Ptr<BatchInfo>>    // the free list
    ghost var live: set<Ptr<BatchInfo>>    // the slots in the hands of callers
    ghost var peak: nat                    // the most slots that were ever live at once
    ghost var used: seq<nat>               // the offsets up to which the pages of the chain are carved
    ghost var perPage: nat                 // slots to a page

    ghost predicate Parameters()
      reads this`perPage
    {
      && objectPerAllocation > 0 && objectsPerPage >= 16
      && perPage > 0 && objectsPerPage == objectPerAllocation * perPage
    }

    /** The pages are linked in order and end in the empty dummy page. */
    ghost predicate ValidChain()
      reads this`chain, this`used, this`batches, chain
    {
      && chain != [] && |used| == |chain| && batches == chain[0]
      && (forall i, j :: 0 <= i < j < |chain| ==> chain[i] != chain[j] && chain[i].links != chain[j].links)
      && (forall i :: 0 <= i < |chain| - 1 ==> chain[i].next == chain[i + 1])
      && (forall i :: 0 <= i < |chain| - 1 ==> chain[i].end == objectsPerPage)
      && chain[|chain| - 1].next == null && chain[|chain| - 1].end == 0
      && (forall i :: 0 <= i < |chain| ==> chain[i].used == used[i] <= chain[i].end <= chain[i].links.Length)
    }

    /** The free list is threaded through its own slots. */
    ghost predicate ValidLinks()
      reads this`free, this`freeHead, set p | p in free && p.Slot? :: p.page.links
    {
      && freeHead == (if free == [] then Null else free[0])
      && (forall i :: 0 <= i < |free| ==> free[i].Slot? && free[i].offset < free[i].page.links.Length)
      && (forall i :: 0 <= i < |free| - 1 ==> free[i].page.links[free[i].offset] == free[i + 1])
      && (free != [] ==> free[|free| - 1].page.links[free[|free| - 1].offset] == Null)
    }

    ghost predicate Valid()
      reads this, chain, set p | p in free && p.Slot? :: p.page.links
    {
      && Parameters() && ValidChain() && ValidLinks() && currentBatch == batches
      && SlotsOk(objectPerAllocation, chain, used, live, free)
      && PagesOk(objectPerAllocation, perPage, used)
      && |live| + |free| == peak == CarvedCount(objectPerAllocation, perPage, used)
    }

    /**
     The source asserts the second precondition. The state is valid if `used_` can meet `end_`, for which the
     allocations must fill a page: see `CarvingStaysInside`.
     */
    constructor (objectPerAllocation: nat, objectsPerPage: nat)
      requires objectPerAllocation > 0
      requires objectsPerPage >= 16
      ensures objectsPerPage % objectPerAllocation == 0 ==> Valid()
      ensures fresh(chain)
      ensures live == {} && free == [] && peak == 0 && |chain| == 1
      ensures this.objectPerAllocation == objectPerAllocation && this.objectsPerPage == objectsPerPage
    {
      this.objectPerAllocation, this.objectsPerPage := objectPerAllocation, objectsPerPage;
      freeHead := Null;
      var dummy := new BatchInfo(objectPerAllocation, 0);
      batches := dummy;
      currentBatch := dummy;
      chain, used, free, live, peak := [dummy], [0], [], {}, 0;
      perPage := objectsPerPage / objectPerAllocation;
    }

    /**
     A slot that no caller holds. A page is added only when every slot ever carved is live, so the
     number of slots carved stays the high-water mark of the live ones.
     */
    method Allocate() returns (slot: Ptr<BatchInfo>)
      requires Valid()
      modifies this, currentBatch
      ensures Valid() && fresh(set b | b in chain && b !in old(chain))
      ensures slot !in old(live) && live == old(live) + {slot}
      ensures peak == if |live| > old(peak) then |live| else old(peak)
      ensures old(free) != [] ==> slot == old(free)[0] && free == old(free)[1..] && chain == old(chain)
      ensures old(free) == [] ==> free == []
    {
      hide SlotsOk, PagesOk, CarvedCount;
      if freeHead != Null {
        slot := PopFree();
        return;
      }
      if currentBatch.used == currentBatch.end {
        AdvanceBatch();
      } else {
        FrontHasRoom(objectPerAllocation, perPage, used);
      }
      slot := Carve();
    }

    /** Nothing is free, and the current page has room for a slot: none of it, or all but that, may be carved. */
    ghost predicate HasRoom()
      reads this, chain
    {
      && Parameters() && ValidChain() && currentBatch == batches && freeHead == Null && free == []
      && SlotsOk(objectPerAllocation, chain, used, live, []) && |live| == peak
      && RoomInFront(objectPerAllocation, perPage, used)
      && peak == CarvedCount(objectPerAllocation, perPage, used)
    }

    /** The front page is full, so all pages are: the search runs off the chain, and a new page is added. */
    method AdvanceBatch()
      requires Valid() && freeHead == Null && currentBatch.used == currentBatch.end
      modifies this`currentBatch, this`batches, this`chain, this`used
      ensures HasRoom() && fresh(chain[0]) && chain[1..] == old(chain)
    {
      hide SlotsOk, PagesOk, CarvedCount, RoomInFront;
      OthersAreFull(objectPerAllocation, perPage, used);
      ghost var i := 1;
      currentBatch := currentBatch.next;
      while currentBatch != null && currentBatch.used == currentBatch.end
        invariant 1 <= i <= |chain|
        invariant currentBatch == if i < |chain| then chain[i] else null
        modifies this`currentBatch
        decreases |chain| - i
      {
        currentBatch := currentBatch.next;
        i := i + 1;
      }
      assert i == |chain|;
      if currentBatch == null {
        InsertBatch();
      }
    }

    /** A new page, in front of full ones. */
    method InsertBatch()
      requires Parameters() && ValidChain() && ValidLinks() && freeHead == Null && chain[0].used == chain[0].end
      requires SlotsOk(objectPerAllocation, chain, used, live, free) && PagesOk(objectPerAllocation, perPage, used)
      requires |live| + |free| == peak == CarvedCount(objectPerAllocation, perPage, used)
      modifies this`currentBatch, this`batches, this`chain, this`used
      ensures HasRoom() && fresh(chain[0]) && chain[1..] == old(chain)
    {
      hide SlotsOk, PagesOk, CarvedCount, RoomInFront;
      var page := new BatchInfo(objectPerAllocation, objectsPerPage);
      AddPage(objectPerAllocation, chain, used, live, page);
      AddPageRoom(objectPerAllocation, perPage, used);
      RoomForObjects(objectPerAllocation, objectsPerPage);
      currentBatch := page;
      currentBatch.next := batches;
      batches := currentBatch;
      chain, used := [page] + chain, [0] + used;
    }

    method Carve() returns (slot: Ptr<BatchInfo>)
      requires HasRoom()
      modifies currentBatch`used, this`used, this`live, this`peak
      ensures Valid() && free == [] && slot !in old(live) && live == old(live) + {slot} && peak == old(peak) + 1
    {
      hide SlotsOk, PagesOk, CarvedCount, RoomInFront;
      RoomForOne(objectPerAllocation, perPage, used);
      CarveNext(objectPerAllocation, chain, used, live);
      slot := Slot(currentBatch, currentBatch.used);
      currentBatch.used := currentBatch.used + objectPerAllocation;
      used := used[0 := used[0] + objectPerAllocation];
      live := live + {slot};
      peak := peak + 1;
    }

    /** The first slot of the free list is handed out again. */
    method PopFree() returns (slot: Ptr<BatchInfo>)
      requires Valid() && freeHead != Null
      modifies this`freeHead, this`free, this`live
      ensures Valid()
      ensures slot == old(free)[0] && free == old(free)[1..] && live == old(live) + {slot} && slot !in old(live)
    {
      hide SlotsOk, PagesOk, CarvedCount;
      TakeFree(objectPerAllocation, chain, used, live, free);
      slot := freeHead;
      freeHead := slot.page.links[slot.offset];
      free := free[1..];
      live := live + {slot};
    }

    /** The slot becomes the head of the free list. */
    method Release(slot: Ptr<BatchInfo>)
      requires Valid() && slot in live
      modifies this`freeHead, this`free, this`live, if slot.Slot? then {slot.page.links} else {}
      ensures Valid()
      ensures live == old(live) - {slot} && free == [slot] + old(free)
    {
      hide SlotsOk, PagesOk, CarvedCount;
      PutFree(objectPerAllocation, chain, used, live, free, slot);
      LiveInMemory(slot);
      PushLink(slot);
      live := live - {slot};
    }

    /** The list head is written into the memory of a slot that is not in the list, and the slot becomes the head. */
    method PushLink(slot: Ptr<BatchInfo>)
      requires ValidLinks() && slot.Slot? && slot.offset < slot.page.links.Length && slot !in free
      requires forall i :: 0 <= i < |free| && free[i].page.links == slot.page.links ==> free[i].page == slot.page
      modifies this`freeHead, this`free, slot.page.links
      ensures ValidLinks() && free == [slot] + old(free)
    {
      ghost var rest := free;
      slot.page.links[slot.offset] := freeHead;
      assert forall i :: 0 <= i < |rest| ==>
        rest[i].page.links[rest[i].offset] == old(rest[i].page.links[rest[i].offset]);
      freeHead := slot;
      free := [slot] + free;
    }

    /** A live slot lies in the memory of its page, as a whole, and is not free. */
    lemma LiveInMemory(slot: Ptr<BatchInfo>)
      requires Valid() && slot in live
      ensures slot.Slot? && slot.page in chain && slot.offset + objectPerAllocation <= slot.page.used
      ensures slot.page.used <= slot.page.end <= slot.page.links.Length
      ensures slot !in free
    {
      assert slot !in free;
      hide SlotsOk, PagesOk, CarvedCount;
      var i := PageOf(objectPerAllocation, chain, used, live, free, slot);
      UsedIsMultiple(objectPerAllocation, perPage, used, i);
      SlotInside(objectPerAllocation, chain, used, live, free, slot, i);
    }

    /** In every state: two live slots do not overlap. */
    lemma Safety(p: Ptr<BatchInfo>, q: Ptr<BatchInfo>)
      requires Valid() && p in live && q in live && p != q
      ensures p.Slot? && q.Slot? && (p.page == q.page ==>
                p.offset + objectPerAllocation <= q.offset || q.offset + objectPerAllocation <= p.offset)
    {
      LiveInMemory(p);
      LiveInMemory(q);
      hide SlotsOk, PagesOk, CarvedCount;
      if p.page == q.page {
        SlotsDisjoint(objectPerAllocation, chain, used, live, free, p, q);
      }
    }

    /**
     In every state: no more slots were ever carved than were live at once, and no page was added that these
     slots do not need; besides the dummy page there is none until a slot is.
     */
    lemma Economy()
      requires Valid()
      ensures |live| + |free| == peak
      ensures (|chain| - 2) * perPage < peak <= (|chain| - 1) * perPage || (|chain| == 1 && peak == 0)
    {
      PagesAreMinimal(objectPerAllocation, perPage, used);
    }

    /** The end test of `Allocate` has carved the front page as its recurrence says, after `peak` slots. */
    lemma CarvedByEndTest()
      requires Valid()
      ensures chain[0].used == OffsetAfter(objectPerAllocation, objectsPerPage, peak)
    {
      OffsetOfFront(objectPerAllocation, perPage, used);
    }
  }
}
