/**
 U+0000 in texts of the standard: the reader cuts strings and names there, and when that makes no difference.
 */
module JsonNul {
  import opened CText
  import opened JsonValue
  import opened JsonNumber
  import opened JsonString
  import opened JsonSyntax
  import opened JsonGrammar
  import opened JsonRfc

  // ----- what a text means by the standard -----

  /** The value of a text with whole strings and names; of members with the same name the last one counts. */
  function StandardMeaning(scan: Scan, s: Syntax): Option<Value>
    requires ValidSyntax(s)
    decreases s, 1
  {
    match s
    case StringText(units) =>
      (match RfcMeaning(units)
       case Some(text) => Some(StringVal(text))
       case None => None)
    case ArrayText(items) =>
      (match StandardItems(scan, items)
       case Some(values) => Some(ArrayVal(values))
       case None => None)
    case ObjectText(members) =>
      (match StandardMembers(scan, members, [])
       case Some(values) => Some(ObjectVal(values))
       case None => None)
    case _ => Meaning(scan, s)
  }

  function StandardItems(scan: Scan, items: seq<Syntax>): Option<seq<Value>>
    requires ValidItems(items)
    decreases items, 0
  {
    if items == [] then Some([]) else Cons(StandardMeaning(scan, items[0]), StandardItems(scan, items[1..]))
  }

  function StandardMembers(scan: Scan, members: seq<MemberText>, stored: seq<Member>): Option<seq<Member>>
    requires ValidMembers(members)
    decreases members, 0
  {
    if members == [] then Some(stored)
    else
      var name, value := RfcMeaning(members[0].name), StandardMeaning(scan, members[0].value);
      if name.Some? && value.Some? then StandardMembers(scan, members[1..], Put(stored, name.value, value.value))
      else None
  }

  /** No string and no name in the value holds a NUL. */
  predicate NulFree(v: Value)
    decreases v, 1
  {
    match v
    case StringVal(s) => '\0' !in s
    case ArrayVal(items) => NulFreeItems(items)
    case ObjectVal(members) => NulFreeMembers(members)
    case _ => true
  }

  predicate NulFreeItems(items: seq<Value>)
    decreases items, 0
  {
    forall i :: 0 <= i < |items| ==> NulFree(items[i])
  }

  predicate NulFreeMembers(members: seq<Member>)
    decreases members, 0
  {
    forall i :: 0 <= i < |members| ==> '\0' !in members[i].name && NulFree(members[i].value)
  }

  // ----- strings -----

  lemma CutOnlyAtNul(s: string)
    ensures CStr(s) == s <==> '\0' !in s
  {
  }

  /** A string of the standard is stored as it is exactly if it holds no NUL. */
  lemma StringKept(scan: Scan, units: seq<Unit>)
    requires IsRfcString(units)
    ensures RfcMeaning(units).Some? && Meaning(scan, StringText(units)).Some?
    ensures Meaning(scan, StringText(units)) == StandardMeaning(scan, StringText(units))
            <==> '\0' !in RfcMeaning(units).value
  {
    PairedMeaning(units);
    CutOnlyAtNul(RfcMeaning(units).value);
    hide RfcMeaning, UnitsMeaning, CStr;
  }

  predicate IsNulEscape(u: Unit) {
    u == Hex("0000")
  }

  lemma NulCode(u: Unit)
    requires u.Hex? && ValidUnit(u)
    ensures HexUnitValue(u) == 0 <==> IsNulEscape(u)
  {
    if HexUnitValue(u) == 0 {
      assert u.digits[0] == '0' && u.digits[1] == '0' && u.digits[2] == '0' && u.digits[3] == '0';
    }
  }

  lemma NulByte(cp: nat)
    ensures '\0' in Utf8(cp) <==> cp == 0
  {
    assert cp == 0 ==> Utf8(cp)[0] == '\0';
  }

  /** The strings of the standard that hold a NUL are those with the escape 0000. */
  lemma {:induction false} NulIsEscaped(units: seq<Unit>)
    requires ValidUnits(units) && (forall i :: 0 <= i < |units| ==> IsRfcUnit(units[i])) && RfcMeaning(units).Some?
    ensures '\0' in RfcMeaning(units).value <==> exists i :: 0 <= i < |units| && IsNulEscape(units[i])
    decreases |units|
  {
    hide HexUnitValue, Utf8;
    if units != [] {
      var u := units[0];
      if HighAt(units, 0) && LowAt(units, 1) {
        NulByte(Combine(HexUnitValue(u), HexUnitValue(units[1])));
        NulCode(u);
        NulCode(units[1]);
        NulIsEscaped(units[2..]);
        assert forall i :: 2 <= i < |units| ==> units[i] == units[2..][i - 2];
      } else {
        if u.Hex? {
          NulCode(u);
          NulByte(HexUnitValue(u));
        }
        NulIsEscaped(units[1..]);
        assert forall i :: 1 <= i < |units| ==> units[i] == units[1..][i - 1];
      }
    }
  }

  // ----- a string with a NUL inside -----

  function AroundNul(a: char, b: char): seq<Unit> {
    [Raw(a), Hex("0000"), Raw(b)]
  }

  lemma AroundNulText(a: char, b: char)
    ensures QuotedUnits(AroundNul(a, b)) == ['"', a, '\\', 'u', '0', '0', '0', '0', b, '"']
  {
    var units := AroundNul(a, b);
    assert units[1..] == [Hex("0000"), Raw(b)] && units[1..][1..] == [Raw(b)] && [Raw(b)][1..] == [];
    assert UnitsText([Raw(b)]) == [b];
    assert UnitsText(units[1..]) == ['\\', 'u', '0', '0', '0', '0', b];
  }

  lemma AroundNulMeans(a: char, b: char)
    requires ValidUnit(Raw(a)) && ValidUnit(Raw(b))
    ensures ValidUnits(AroundNul(a, b)) && RfcMeaning(AroundNul(a, b)) == Some([a, '\0', b])
  {
    var units := AroundNul(a, b);
    assert units[1..] == [Hex("0000"), Raw(b)] && units[1..][1..] == [Raw(b)] && [Raw(b)][1..] == [];
    var nul := Hex("0000");
    NulCode(nul);
    assert Utf8(0) == "\0";
    hide HexUnitValue, Utf8;
    assert RfcMeaning([Raw(b)]) == Some([b] + "") && [b] + "" == [b];
    assert RfcMeaning([nul, Raw(b)]) == Some("\0" + [b]);
    assert [a] + ("\0" + [b]) == [a, '\0', b];
  }

  /** A string of the standard with three characters, of which the reader keeps one. */
  lemma NulInside(scan: Scan, a: char, b: char)
    requires IsRfcUnit(Raw(a)) && IsRfcUnit(Raw(b))
    ensures IsRfcString(AroundNul(a, b))
    ensures StandardMeaning(scan, StringText(AroundNul(a, b))) == Some(StringVal([a, '\0', b]))
    ensures Meaning(scan, StringText(AroundNul(a, b))) == Some(StringVal([a]))
  {
    AroundNulMeans(a, b);
    PairedMeaning(AroundNul(a, b));
    hide RfcMeaning, Paired, UnitsMeaning;
    CutAt(a, b);
  }

  lemma CutAt(a: char, b: char)
    requires a != '\0'
    ensures CStr([a, '\0', b]) == [a]
  {
    assert [a, '\0', b][0] == a && [a, '\0', b][1] == '\0';
  }

  // ----- members -----

  predicate NamesFree(members: seq<Member>) {
    forall i :: 0 <= i < |members| ==> '\0' !in members[i].name
  }

  /** The same names, and the same values but where the standard's hold a NUL. */
  predicate Agree(read: seq<Member>, standard: seq<Member>) {
    && |read| == |standard|
    && forall i :: 0 <= i < |read| ==>
         read[i].name == standard[i].name && (NulFree(standard[i].value) ==> read[i].value == standard[i].value)
  }

  lemma BoundIs(members: seq<Member>, key: string, i: nat)
    requires i <= |members| && forall j :: 0 <= j < i ==> Less(members[j].name, key)
    requires i < |members| ==> !Less(members[i].name, key)
    ensures LowerBound(members, key) == i
  {
    hide LowerBound, Less;
  }

  lemma SameBound(a: seq<Member>, b: seq<Member>, key: string)
    requires |a| == |b| && forall i :: 0 <= i < |a| ==> a[i].name == b[i].name
    ensures LowerBound(a, key) == LowerBound(b, key)
  {
    hide LowerBound, Less;
    BoundIs(b, key, LowerBound(a, key));
  }

  lemma PutAgrees(read: seq<Member>, standard: seq<Member>, key: string, v: Value, w: Value)
    requires Agree(read, standard) && (NulFree(w) ==> v == w)
    ensures Agree(Put(read, key, v), Put(standard, key, w))
  {
    SameBound(read, standard, key);
    var i := LowerBound(read, key);
    PutReplaces(read, key, v);
    PutReplaces(standard, key, w);
    assert i < |read| ==> read[i].name == standard[i].name;
    hide LowerBound, NulFree, Put, Agree;
    OneAgrees(Member(key, v), Member(key, w));
    SplitAgrees(read, standard, i, Member(key, v), Member(key, w));
  }

  lemma OneAgrees(m: Member, n: Member)
    requires m.name == n.name && (NulFree(n.value) ==> m.value == n.value)
    ensures Agree([m], [n])
  {
    hide NulFree;
  }

  lemma SplitAgrees(read: seq<Member>, standard: seq<Member>, i: nat, m: Member, n: Member)
    requires Agree(read, standard) && Agree([m], [n]) && i <= |read|
    ensures Agree(read[..i] + [m] + read[i..], standard[..i] + [n] + standard[i..])
    ensures i < |read| ==> Agree(read[i := m], standard[i := n])
  {
    hide NulFree;
    assert [m][0] == m && [n][0] == n;
    AgreeConcat(read[..i], standard[..i], [m], [n]);
    AgreeConcat(read[..i] + [m], standard[..i] + [n], read[i..], standard[i..]);
  }

  lemma PutReplaces(members: seq<Member>, key: string, v: Value)
    ensures var i := LowerBound(members, key);
            Put(members, key, v) == if i < |members| && members[i].name == key then members[i := Member(key, v)]
                                    else members[..i] + [Member(key, v)] + members[i..]
  {
  }

  lemma AgreeConcat(a: seq<Member>, b: seq<Member>, c: seq<Member>, d: seq<Member>)
    requires Agree(a, b) && Agree(c, d)
    ensures Agree(a + c, b + d)
  {
    hide NulFree;
  }

  /** A name once stored stays. */
  lemma {:induction false} NamesStay(scan: Scan, members: seq<MemberText>, stored: seq<Member>)
    requires ValidMembers(members) && !NamesFree(stored) && StandardMembers(scan, members, stored).Some?
    ensures !NamesFree(StandardMembers(scan, members, stored).value)
    decreases members
  {
    hide StandardMeaning, RfcMeaning, Put, NamesFree, ValidSyntax, ValidUnits;
    if members != [] {
      var name, value := RfcMeaning(members[0].name).value, StandardMeaning(scan, members[0].value).value;
      PutNames(stored, name, value);
      NamesStay(scan, members[1..], Put(stored, name, value));
    }
  }

  lemma PutNames(stored: seq<Member>, key: string, value: Value)
    ensures !NamesFree(stored) || '\0' in key ==> !NamesFree(Put(stored, key, value))
  {
    var i, r := LowerBound(stored, key), Put(stored, key, value);
    hide LowerBound;
    assert r[i].name == key;
    if k :| 0 <= k < |stored| && '\0' in stored[k].name {
      assert k < i ==> r[k].name == stored[k].name;
      assert k >= i && |r| == |stored| ==> r[k].name == stored[k].name;
      assert k >= i && |r| > |stored| ==> r[k + 1].name == stored[k].name;
    }
  }

  /** Both meanings exist together, whatever was stored before. */
  lemma {:induction false} BothDefined(scan: Scan, s: Syntax)
    requires IsRfcText(s) && ValidSyntax(s)
    ensures Meaning(scan, s).Some? <==> StandardMeaning(scan, s).Some?
    decreases s, 1
  {
    match s
    case StringText(units) => StringKept(scan, units);
    case ArrayText(items) => ItemsDefined(scan, items);
    case ObjectText(members) => MembersDefined(scan, members, [], []);
    case _ =>
  }

  lemma {:induction false} ItemsDefined(scan: Scan, items: seq<Syntax>)
    requires AreRfcItems(items) && ValidItems(items)
    ensures ItemsMeaning(scan, items).Some? <==> StandardItems(scan, items).Some?
    decreases items, 0
  {
    hide Meaning, StandardMeaning, IsRfcText, ValidSyntax;
    if items != [] {
      BothDefined(scan, items[0]);
      ItemsDefined(scan, items[1..]);
    }
  }

  lemma {:induction false} MembersDefined(scan: Scan, members: seq<MemberText>, a: seq<Member>, b: seq<Member>)
    requires AreRfcMembers(members) && ValidMembers(members)
    ensures MembersMeaning(scan, members, a).Some? <==> StandardMembers(scan, members, b).Some?
    decreases members, 0
  {
    hide Meaning, StandardMeaning, IsRfcText, ValidSyntax, IsRfcString, ValidUnits, UnitsMeaning, RfcMeaning, Put, CStr;
    if members != [] {
      NameMeans(members[0].name);
      BothDefined(scan, members[0].value);
      var name := RfcMeaning(members[0].name).value;
      var v, w := Meaning(scan, members[0].value), StandardMeaning(scan, members[0].value);
      if v.Some? {
        MembersDefined(scan, members[1..], Put(a, CStr(name), v.value), Put(b, name, w.value));
      }
    }
  }

  lemma NameMeans(units: seq<Unit>)
    requires IsRfcString(units)
    ensures RfcMeaning(units).Some? && UnitsMeaning(units) == RfcMeaning(units)
  {
    PairedMeaning(units);
  }

  // ----- texts -----

  /** Where the standard's value holds no NUL, the reader's is the same. */
  lemma {:induction false} KeptWithoutNul(scan: Scan, s: Syntax)
    requires IsRfcText(s) && ValidSyntax(s) && StandardMeaning(scan, s).Some?
    requires NulFree(StandardMeaning(scan, s).value)
    ensures Meaning(scan, s) == StandardMeaning(scan, s)
    decreases s, 1
  {
    match s
    case StringText(units) => StringKept(scan, units);
    case ArrayText(items) => ItemsKept(scan, items);
    case ObjectText(members) => MembersKept(scan, members, [], []); SameMembers(scan, members);
    case _ =>
  }

  lemma {:induction false} ItemsKept(scan: Scan, items: seq<Syntax>)
    requires AreRfcItems(items) && ValidItems(items) && StandardItems(scan, items).Some?
    requires NulFreeItems(StandardItems(scan, items).value)
    ensures ItemsMeaning(scan, items) == StandardItems(scan, items)
    decreases items, 0
  {
    hide Meaning, StandardMeaning, IsRfcText, ValidSyntax, NulFree;
    if items != [] {
      var first, rest := StandardMeaning(scan, items[0]).value, StandardItems(scan, items[1..]).value;
      NulFreeCons(first, rest);
      KeptWithoutNul(scan, items[0]);
      ItemsKept(scan, items[1..]);
    }
  }

  lemma NulFreeCons(first: Value, rest: seq<Value>)
    ensures NulFreeItems([first] + rest) <==> NulFree(first) && NulFreeItems(rest)
  {
    hide NulFree;
    var all := [first] + rest;
    assert all[0] == first && forall i :: 0 <= i < |rest| ==> all[i + 1] == rest[i];
    if NulFreeItems(all) {
      forall i | 0 <= i < |rest| ensures NulFree(rest[i]) {
        assert NulFree(all[i + 1]);
      }
    }
  }

  lemma {:induction false} MembersKept(scan: Scan, members: seq<MemberText>, read: seq<Member>, standard: seq<Member>)
    requires AreRfcMembers(members) && ValidMembers(members) && Agree(read, standard)
    requires StandardMembers(scan, members, standard).Some?
    requires NamesFree(StandardMembers(scan, members, standard).value)
    ensures MembersMeaning(scan, members, read).Some?
    ensures Agree(MembersMeaning(scan, members, read).value, StandardMembers(scan, members, standard).value)
    decreases members, 0
  {
    hide Meaning, StandardMeaning, IsRfcText, ValidSyntax, IsRfcString, ValidUnits, UnitsMeaning, RfcMeaning, Put,
      NulFree, Agree, NamesFree;
    if members != [] {
      var s := members[0].value;
      NameMeans(members[0].name);
      BothDefined(scan, s);
      var name, v, w := RfcMeaning(members[0].name).value, Meaning(scan, s).value, StandardMeaning(scan, s).value;
      PutNames(standard, name, w);
      if '\0' in name {
        NamesStay(scan, members[1..], Put(standard, name, w));
      }
      if NulFree(w) {
        KeptWithoutNul(scan, s);
      }
      PutAgrees(read, standard, name, v, w);
      MembersKept(scan, members[1..], Put(read, name, v), Put(standard, name, w));
    }
  }

  lemma SameMembers(scan: Scan, members: seq<MemberText>)
    requires ValidMembers(members)
    requires MembersMeaning(scan, members, []).Some? && StandardMembers(scan, members, []).Some?
    requires Agree(MembersMeaning(scan, members, []).value, StandardMembers(scan, members, []).value)
    requires NulFreeMembers(StandardMembers(scan, members, []).value)
    ensures MembersMeaning(scan, members, []) == StandardMembers(scan, members, [])
  {
    hide MembersMeaning, StandardMembers, NulFree, NulFreeMembers, Agree;
    SameWithoutNul(MembersMeaning(scan, members, []).value, StandardMembers(scan, members, []).value);
  }

  lemma SameWithoutNul(read: seq<Member>, standard: seq<Member>)
    requires Agree(read, standard) && NulFreeMembers(standard)
    ensures read == standard
  {
    hide NulFree;
    forall i | 0 <= i < |read| ensures read[i] == standard[i] {
      assert NulFree(standard[i].value);
    }
  }

  /** The reader's values hold no NUL. */
  lemma {:induction false} ReadingIsFree(scan: Scan, s: Syntax)
    requires ValidSyntax(s) && Meaning(scan, s).Some?
    ensures NulFree(Meaning(scan, s).value)
    decreases s, 1
  {
    match s
    case ArrayText(items) => ItemsAreFree(scan, items);
    case ObjectText(members) => MembersAreFree(scan, members, []);
    case _ =>
  }

  lemma {:induction false} ItemsAreFree(scan: Scan, items: seq<Syntax>)
    requires ValidItems(items) && ItemsMeaning(scan, items).Some?
    ensures NulFreeItems(ItemsMeaning(scan, items).value)
    decreases items, 0
  {
    hide Meaning, NulFree, ValidSyntax;
    if items != [] {
      ReadingIsFree(scan, items[0]);
      ItemsAreFree(scan, items[1..]);
      NulFreeCons(Meaning(scan, items[0]).value, ItemsMeaning(scan, items[1..]).value);
    }
  }

  lemma {:induction false} MembersAreFree(scan: Scan, members: seq<MemberText>, stored: seq<Member>)
    requires ValidMembers(members) && MembersMeaning(scan, members, stored).Some? && NulFreeMembers(stored)
    ensures NulFreeMembers(MembersMeaning(scan, members, stored).value)
    decreases members, 0
  {
    hide Meaning, NulFree, ValidSyntax, UnitsMeaning, ValidUnits, Put, NulFreeMembers;
    if members != [] {
      var name, value := UnitsMeaning(members[0].name).value, Meaning(scan, members[0].value).value;
      ReadingIsFree(scan, members[0].value);
      PutFree(stored, CStr(name), value);
      MembersAreFree(scan, members[1..], Put(stored, CStr(name), value));
    }
  }

  lemma PutFree(stored: seq<Member>, key: string, value: Value)
    requires NulFreeMembers(stored) && '\0' !in key && NulFree(value)
    ensures NulFreeMembers(Put(stored, key, value))
  {
    hide NulFree, LowerBound;
  }

  /**
   A text of the standard has a reading exactly if it has a meaning, and the reading is the meaning exactly if
   no string and no name in that holds a NUL.
   */
  lemma KeptExactly(scan: Scan, s: Syntax)
    requires IsRfcText(s) && ValidSyntax(s)
    ensures var read, standard := Meaning(scan, s), StandardMeaning(scan, s);
            (read.Some? <==> standard.Some?) && (standard.Some? ==> (read == standard <==> NulFree(standard.value)))
  {
    hide Meaning, StandardMeaning, NulFree, IsRfcText, ValidSyntax;
    BothDefined(scan, s);
    if Meaning(scan, s).Some? {
      ReadingIsFree(scan, s);
      if NulFree(StandardMeaning(scan, s).value) {
        KeptWithoutNul(scan, s);
      }
    }
  }

  // ----- names -----

  lemma PutTwice(stored: seq<Member>, key: string, v: Value, w: Value)
    ensures Put(Put(stored, key, v), key, w) == Put(stored, key, w)
  {
    LessTotal(key, key);
    var i, once := LowerBound(stored, key), Put(stored, key, v);
    hide Less, LowerBound;
    assert once[i] == Member(key, v) && forall j :: 0 <= j < i ==> once[j] == stored[j];
    BoundIs(once, key, i);
  }

  /** Of two members in a row whose names agree up to their first NUL the reader keeps the second alone. */
  lemma NamesCollapse(scan: Scan, first: MemberText, second: MemberText, stored: seq<Member>)
    requires ValidUnits(first.name) && ValidSyntax(first.value) && ValidUnits(second.name) && ValidSyntax(second.value)
    requires UnitsMeaning(first.name).Some? && UnitsMeaning(second.name).Some? && Meaning(scan, first.value).Some?
    requires CStr(UnitsMeaning(first.name).value) == CStr(UnitsMeaning(second.name).value)
    ensures ValidMembers([first, second]) && ValidMembers([second])
    ensures MembersMeaning(scan, [first, second], stored) == MembersMeaning(scan, [second], stored)
  {
    hide UnitsMeaning, ValidUnits, ValidSyntax, Meaning, CStr, Put;
    assert [first, second][1..] == [second] && [second][1..] == [] && ValidMembers([]) && ValidMembers([second]);
    var name, v := CStr(UnitsMeaning(first.name).value), Meaning(scan, first.value).value;
    MembersMeaningStep(scan, [first, second], stored);
    MembersMeaningStep(scan, [second], stored);
    MembersMeaningStep(scan, [second], Put(stored, name, v));
    hide MembersMeaning;
    if Meaning(scan, second.value).Some? {
      PutTwice(stored, name, v, Meaning(scan, second.value).value);
    }
  }

  /** And only of such: two members stay two exactly if their names differ before their first NUL. */
  lemma MembersStayApart(a: string, b: string, v: Value, w: Value)
    ensures |Put(Put([], CStr(a), v), CStr(b), w)| == 2 <==> CStr(a) != CStr(b)
  {
    OneOrTwo(CStr(a), CStr(b), v, w);
  }

  lemma OneOrTwo(a: string, b: string, v: Value, w: Value)
    ensures |Put(Put([], a, v), b, w)| == if a == b then 1 else 2
  {
    LessTotal(a, b);
    LessTotal(b, b);
    var one := [Member(a, v)];
    BoundIs([], a, 0);
    assert one[0].name == a && one[1..] == [];
    assert Put([], a, v) == one;
    if Less(a, b) {
      BoundIs(one, b, 1);
      assert Put(one, b, w) == one + [Member(b, w)];
    } else {
      BoundIs(one, b, 0);
    }
  }
}
