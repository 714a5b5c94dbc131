/**
 Which slots of which pages are live and which are free: the bookkeeping behind the page allocator.

 `pages` are the pages, newest first, and `used` their high-water offsets, in objects.
 */
module SlotModel {

  /** A pointer to an object of a page. */
  datatype Ptr<P> = Null | Slot(page: P, offset: nat)

  /** `p` begins a slot in the used part of a page. */
  ghost predicate Carved<P>(step: nat, pages: seq<P>, used: seq<nat>, p: Ptr<P>)
    requires |used| == |pages| && step > 0
  {
    p.Slot? && exists i :: 0 <= i < |pages| && pages[i] == p.page && p.offset < used[i] && p.offset % step == 0
  }

  ghost predicate Distinct<T>(s: seq<T>) {
    forall i, j :: 0 <= i < j < |s| ==> s[i] != s[j]
  }

  /** Every carved slot is live or free, and never both; the free list repeats none. */
  ghost predicate SlotsOk<P>(step: nat, pages: seq<P>, used: seq<nat>, live: set<Ptr<P>>, free: seq<Ptr<P>>) {
    && step > 0 && |used| == |pages| && Distinct(pages)
    && Distinct(free) && (forall i :: 0 <= i < |free| ==> free[i] !in live)
    && (forall p :: p in live ==> Carved(step, pages, used, p))
    && (forall p :: p in free ==> Carved(step, pages, used, p))
    && (forall i, k :: 0 <= i < |pages| && 0 <= k < used[i] && k % step == 0 ==>
          Slot(pages[i], k) in live || Slot(pages[i], k) in free)
  }

  lemma TakeFree<P>(step: nat, pages: seq<P>, used: seq<nat>, live: set<Ptr<P>>, free: seq<Ptr<P>>)
    requires SlotsOk(step, pages, used, live, free) && free != []
    ensures free[0] !in live && SlotsOk(step, pages, used, live + {free[0]}, free[1..])
  {
    assert free == [free[0]] + free[1..];
  }

  lemma PutFree<P>(step: nat, pages: seq<P>, used: seq<nat>, live: set<Ptr<P>>, free: seq<Ptr<P>>, slot: Ptr<P>)
    requires SlotsOk(step, pages, used, live, free) && slot in live
    ensures slot !in free && SlotsOk(step, pages, used, live - {slot}, [slot] + free)
    ensures slot.Slot? && slot.page in pages && forall p :: p in free ==> p.Slot? && p.page in pages
  {
    assert Carved(step, pages, used, slot);
  }

  lemma CarveNext<P>(step: nat, pages: seq<P>, used: seq<nat>, live: set<Ptr<P>>)
    requires SlotsOk(step, pages, used, live, []) && pages != [] && used[0] % step == 0
    ensures var slot := Slot(pages[0], used[0]);
            slot !in live && SlotsOk(step, pages, used[0 := used[0] + step], live + {slot}, [])
  {
    var slot, used' := Slot(pages[0], used[0]), used[0 := used[0] + step];
    assert !Carved(step, pages, used, slot);
    forall p | p in live ensures Carved(step, pages, used', p) {
      var i :| 0 <= i < |pages| && pages[i] == p.page && p.offset < used[i] && p.offset % step == 0;
      assert p.offset < used'[i];
    }
    forall i, k | 0 <= i < |pages| && 0 <= k < used'[i] && k % step == 0
      ensures Slot(pages[i], k) in live + {slot}
    {
      if i == 0 && k >= used[0] {
        NoMultipleBetween(step, used[0], k);
      }
    }
  }

  lemma NoMultipleBetween(step: nat, a: nat, b: nat)
    requires step > 0 && a % step == 0 && b % step == 0 && a <= b < a + step
    ensures a == b
  {
    var m, n := a / step, b / step;
    assert a == m * step && b == n * step;
    assert (n - m) * step == n * step - m * step;
    NoSmallMultiple(n - m, step, b - a);
  }

  lemma AddPage<P>(step: nat, pages: seq<P>, used: seq<nat>, live: set<Ptr<P>>, page: P)
    requires SlotsOk(step, pages, used, live, []) && page !in pages
    ensures SlotsOk(step, [page] + pages, [0] + used, live, [])
  {
    forall p | p in live ensures Carved(step, [page] + pages, [0] + used, p) {
      var i :| 0 <= i < |pages| && pages[i] == p.page && p.offset < used[i] && p.offset % step == 0;
      assert ([page] + pages)[i + 1] == p.page && p.offset < ([0] + used)[i + 1];
    }
  }

  lemma PageOf<P>(step: nat, pages: seq<P>, used: seq<nat>, live: set<Ptr<P>>, free: seq<Ptr<P>>, p: Ptr<P>)
    returns (i: nat)
    requires SlotsOk(step, pages, used, live, free) && p in live
    ensures p.Slot? && i < |pages| == |used| && pages[i] == p.page
  {
    assert Carved(step, pages, used, p);
    i :| 0 <= i < |pages| && pages[i] == p.page && p.offset < used[i] && p.offset % step == 0;
  }

  /** A live slot lies in the used part of its page as a whole. */
  lemma SlotInside<P>(
    step: nat, pages: seq<P>, used: seq<nat>, live: set<Ptr<P>>, free: seq<Ptr<P>>, p: Ptr<P>, i: nat)
    requires SlotsOk(step, pages, used, live, free) && p in live
    requires i < |pages| && pages[i] == p.page && used[i] % step == 0
    ensures p.offset + step <= used[i]
  {
    assert Carved(step, pages, used, p);
    if p.offset + step > used[i] {
      NoMultipleBetween(step, p.offset, used[i]);
    }
  }

  /** Two live slots never share an object. */
  lemma SlotsDisjoint<P>(
    step: nat, pages: seq<P>, used: seq<nat>, live: set<Ptr<P>>, free: seq<Ptr<P>>, p: Ptr<P>, q: Ptr<P>)
    requires SlotsOk(step, pages, used, live, free)
    requires p in live && q in live && p != q && p.page == q.page
    ensures p.offset + step <= q.offset || q.offset + step <= p.offset
  {
    assert Carved(step, pages, used, p) && Carved(step, pages, used, q);
    if q.offset <= p.offset < q.offset + step {
      NoMultipleBetween(step, q.offset, p.offset);
    } else if p.offset <= q.offset < p.offset + step {
      NoMultipleBetween(step, p.offset, q.offset);
    }
  }

  // ----- counting -----

  /** All pages but the front one are full; the last, the dummy page, has no room at all. */
  ghost predicate PagesOk(step: nat, perPage: nat, used: seq<nat>) {
    && step > 0 && used != [] && used[|used| - 1] == 0
    && used[0] % step == 0 && (|used| > 1 ==> 0 < used[0] <= step * perPage)
    && forall i :: 1 <= i < |used| - 1 ==> used[i] == step * perPage
  }

  lemma UsedIsMultiple(step: nat, perPage: nat, used: seq<nat>, i: nat)
    requires PagesOk(step, perPage, used) && i < |used|
    ensures used[i] % step == 0
  {
    MultipleMod(step, perPage);
    assert perPage * step == step * perPage;
  }

  /** The slots carved from pages of `perPage` slots each. */
  ghost function CarvedCount(step: nat, perPage: nat, used: seq<nat>): nat
    requires step > 0 && used != []
  {
    (if |used| == 1 then 0 else (|used| - 2) * perPage) + used[0] / step
  }

  /** As `PagesOk`, and the front page, which may be new, has room for another slot. */
  ghost predicate RoomInFront(step: nat, perPage: nat, used: seq<nat>) {
    && step > 0 && |used| > 1 && used[|used| - 1] == 0
    && used[0] % step == 0 && used[0] < step * perPage
    && forall i :: 1 <= i < |used| - 1 ==> used[i] == step * perPage
  }

  lemma FrontHasRoom(step: nat, perPage: nat, used: seq<nat>)
    requires PagesOk(step, perPage, used) && used[0] < if |used| > 1 then step * perPage else 0
    ensures RoomInFront(step, perPage, used)
  {
  }

  lemma OthersAreFull(step: nat, perPage: nat, used: seq<nat>)
    requires PagesOk(step, perPage, used)
    ensures forall i :: 1 <= i < |used| ==> used[i] == if i + 1 < |used| then step * perPage else 0
  {
  }

  /** A new page in front of full ones. */
  lemma AddPageRoom(step: nat, perPage: nat, used: seq<nat>)
    requires PagesOk(step, perPage, used) && perPage > 0
    requires |used| > 1 ==> used[0] == step * perPage
    ensures RoomInFront(step, perPage, [0] + used)
    ensures CarvedCount(step, perPage, [0] + used) == CarvedCount(step, perPage, used)
  {
    if |used| > 1 {
      QuotientBounds(step, perPage, used[0]);
      assert (|used| - 1) * perPage == (|used| - 2) * perPage + perPage;
    }
    assert step * perPage > 0;
  }

  lemma RoomForOne(step: nat, perPage: nat, used: seq<nat>)
    requires RoomInFront(step, perPage, used)
    ensures |used| > 1 && used[0] % step == 0 && used[0] + step <= step * perPage
    ensures PagesOk(step, perPage, used[0 := used[0] + step])
    ensures CarvedCount(step, perPage, used[0 := used[0] + step]) == CarvedCount(step, perPage, used) + 1
  {
    UsedRoom(step, perPage, used[0]);
  }

  /** The memory of a page holds more objects than its end mark admits. */
  lemma RoomForObjects(step: nat, objects: nat)
    requires step > 0
    ensures objects <= step * objects
  {
  }

  lemma UsedRoom(step: nat, perPage: nat, n: nat)
    requires step > 0 && n % step == 0 && n < step * perPage
    ensures n + step <= step * perPage && (n + step) % step == 0 && (n + step) / step == n / step + 1
  {
    var q := n / step;
    assert n == q * step && n + step == (q + 1) * step;
    MultipleMod(step, q + 1);
    var d := (n + step) / step;
    assert n + step == d * step;
    assert (d - (q + 1)) * step == d * step - (q + 1) * step;
    NoSmallMultiple(d - (q + 1), step, 0);
    MultipleMod(step, perPage);
    assert perPage * step == step * perPage;
    if n + step > step * perPage {
      NoMultipleBetween(step, n, step * perPage);
    }
  }

  /** No page more than the carved slots fill. */
  lemma PagesAreMinimal(step: nat, perPage: nat, used: seq<nat>)
    requires PagesOk(step, perPage, used) && perPage > 0
    ensures var pages, count := |used| - 1, CarvedCount(step, perPage, used);
            (pages - 1) * perPage < count <= pages * perPage || pages == 0 == count
  {
    if |used| > 1 {
      QuotientBounds(step, perPage, used[0]);
      assert (|used| - 1) * perPage == (|used| - 2) * perPage + perPage;
    }
  }

  lemma QuotientBounds(step: nat, perPage: nat, n: nat)
    requires step > 0 && n % step == 0 && 0 < n <= step * perPage
    ensures 0 < n / step <= perPage
    ensures n == step * perPage <==> n / step == perPage
  {
    var q := n / step;
    assert n == q * step;
    assert q > perPage ==> q * step >= (perPage + 1) * step;
  }

  // ----- the end test of a page -----

  /**
   The offset after `n` slots have been carved by the source's test: a page is left when its offset
   is equal to its end, so an offset that steps over the end goes on.
   */
  function OffsetAfter(step: nat, end: nat, n: nat): nat {
    if n == 0 then 0
    else
      var before := OffsetAfter(step, end, n - 1);
      (if before == end then 0 else before) + step
  }

  /** With whole slots in a page: `k` slots into the page behind `q` full ones. */
  lemma {:induction false} OffsetInPage(step: nat, perPage: nat, q: nat, k: nat)
    requires step > 0 && 0 < k <= perPage
    ensures OffsetAfter(step, step * perPage, q * perPage + k) == k * step
    decreases q, k
  {
    OffsetStep(step, step * perPage, q * perPage + k);
    hide OffsetAfter;
    if k > 1 {
      OffsetInPage(step, perPage, q, k - 1);
      EarlierSlot(step, perPage, k);
    } else if q > 0 {
      OffsetInPage(step, perPage, q - 1, perPage);
      EarlierPage(perPage, q);
    }
  }

  lemma OffsetStep(step: nat, end: nat, n: nat)
    ensures n > 0 ==>
              OffsetAfter(step, end, n)
              == (if OffsetAfter(step, end, n - 1) == end then 0 else OffsetAfter(step, end, n - 1)) + step
    ensures OffsetAfter(step, end, 0) == 0
  {
  }

  lemma EarlierSlot(step: nat, perPage: nat, k: nat)
    requires step > 0 && 1 < k <= perPage
    ensures (k - 1) * step + step == k * step && (k - 1) * step != step * perPage
  {
    assert (perPage - (k - 1)) * step == perPage * step - (k - 1) * step;
  }

  lemma EarlierPage(perPage: nat, q: nat)
    requires q > 0
    ensures (q - 1) * perPage + perPage == q * perPage
  {
  }

  /** The front page of an allocator is carved up to just this offset. */
  lemma OffsetOfFront(step: nat, perPage: nat, used: seq<nat>)
    requires PagesOk(step, perPage, used) && perPage > 0
    ensures used[0] == OffsetAfter(step, step * perPage, CarvedCount(step, perPage, used))
  {
    OffsetStep(step, step * perPage, 0);
    hide OffsetAfter;
    if |used| > 1 {
      var k := used[0] / step;
      QuotientBounds(step, perPage, used[0]);
      assert CarvedCount(step, perPage, used) == (|used| - 2) * perPage + k;
      assert used[0] == k * step;
      hide CarvedCount, PagesOk;
      OffsetInPage(step, perPage, |used| - 2, k);
    }
  }

  lemma {:induction false} OffsetStaysMultiple(step: nat, end: nat, n: nat)
    requires step > 0 && end > 0 && end % step == 0
    ensures OffsetAfter(step, end, n) <= end && OffsetAfter(step, end, n) % step == 0
  {
    if n > 0 {
      OffsetStaysMultiple(step, end, n - 1);
      var before := OffsetAfter(step, end, n - 1);
      NextMultiple(step, end, if before == end then 0 else before);
    }
  }

  lemma NextMultiple(step: nat, end: nat, n: nat)
    requires step > 0 && end % step == 0 && n % step == 0 && n < end
    ensures n + step <= end && (n + step) % step == 0
  {
    assert n + step == (n / step + 1) * step;
    MultipleMod(step, n / step + 1);
    if end < n + step {
      NoMultipleBetween(step, n, end);
    }
  }

  lemma MultipleMod(step: nat, q: nat)
    requires step > 0
    ensures q * step % step == 0
  {
    var n := q * step;
    var d, rest := n / step, n % step;
    assert n == step * d + rest;
    assert (q - d) * step == q * step - d * step;
    NoSmallMultiple(q - d, step, rest);
  }

  lemma NoSmallMultiple(k: int, step: int, n: int)
    requires step > 0 && k * step == n && -step < n < step
    ensures k == 0
  {
    var excess := if k > 0 then k - 1 else if k < 0 then -k - 1 else 0;
    assert excess * step >= 0;
  }

  lemma {:induction false} OffsetRunsOn(step: nat, end: nat, n: nat)
    requires step > 0 && end > 0 && end % step != 0
    ensures OffsetAfter(step, end, n) == n * step
  {
    if n > 0 {
      OffsetRunsOn(step, end, n - 1);
      if (n - 1) * step == end {
        MultipleMod(step, n - 1);
      }
    }
  }

  /** Carving stays inside the pages over every run exactly when the slot size divides the page size. */
  lemma CarvingStaysInside(step: nat, end: nat)
    requires step > 0 && end > 0
    ensures (forall n :: OffsetAfter(step, end, n) <= end) <==> end % step == 0
  {
    if end % step == 0 {
      forall n: nat ensures OffsetAfter(step, end, n) <= end {
        OffsetStaysMultiple(step, end, n);
      }
    } else {
      OffsetRunsOn(step, end, end + 1);
      RunsPast(step, end);
    }
  }

  lemma RunsPast(step: nat, end: nat)
    requires step > 0
    ensures (end + 1) * step > end
  {
    assert end * step >= end;
  }

  /** The same of the page's memory, which has room for `end` allocations: beyond it too carving runs on. */
  lemma CarvingStaysInMemory(step: nat, end: nat)
    requires step > 0 && end > 0
    ensures (forall n :: OffsetAfter(step, end, n) <= step * end) <==> end % step == 0
  {
    if end % step == 0 {
      RoomForObjects(step, end);
      forall n: nat ensures OffsetAfter(step, end, n) <= step * end {
        OffsetStaysMultiple(step, end, n);
      }
    } else {
      OffsetRunsOn(step, end, end + 1);
      assert (end + 1) * step == step * end + step;
    }
  }

  /**
   Eight objects to a slot and the default of 255 to a page: the 32nd slot ends behind the end mark, and the
   256th behind the memory.
   */
  lemma DefaultPageOfEights()
    ensures OffsetAfter(8, 255, 32) == 256 && OffsetAfter(8, 255, 256) > 8 * 255
  {
    OffsetRunsOn(8, 255, 32);
    OffsetRunsOn(8, 255, 256);
  }
}
