/**
 The value tree that the reader builds and the writers print (`Json::Value`).

 Strings are C strings, and an object is a `std::map` ordered by `strcmp`: here, the sequence of
 its members in increasing order of their names.
 */
module JsonValue {
  import opened CText

  const MAX_INT := 0x7FFF_FFFF

  newtype Int64 = x: int | -0x8000_0000_0000_0000 <= x < 0x8000_0000_0000_0000
  newtype UInt64 = x: int | 0 <= x < 0x1_0000_0000_0000_0000

  /** The bits of a `double`; no arithmetic is done on it. */
  newtype Double = x: int | 0 <= x < 0x1_0000_0000_0000_0000

  datatype Member = Member(name: string, value: Value)

  datatype Value =
    | NullVal
    | IntVal(i: Int64)
    | UIntVal(u: UInt64)
    | RealVal(d: Double)
    | StringVal(s: string)
    | BoolVal(b: bool)
    | ArrayVal(items: seq<Value>)
    | ObjectVal(members: seq<Member>)

  /** `strcmp(a, b) < 0` on strings without NUL. */
  predicate Less(a: string, b: string) {
    if b == "" then false
    else if a == "" then true
    else a[0] < b[0] || (a[0] == b[0] && Less(a[1..], b[1..]))
  }

  lemma {:induction false} LessTotal(a: string, b: string)
    ensures a == b || Less(a, b) || Less(b, a)
    ensures !(Less(a, b) && Less(b, a)) && !Less(a, a)
  {
    if a != "" {
      LessTotal(a[1..], if b == "" then "" else b[1..]);
      if b != "" && a[0] == b[0] && a[1..] == b[1..] {
        assert a == [a[0]] + a[1..] && b == [b[0]] + b[1..];
      }
    }
  }

  lemma {:induction false} LessTransitive(a: string, b: string, c: string)
    requires Less(a, b) && Less(b, c)
    ensures Less(a, c)
  {
    if a != "" && a[0] == b[0] && b[0] == c[0] {
      LessTransitive(a[1..], b[1..], c[1..]);
    }
  }

  /** A name comes before its continuations, and the first difference decides, by the unsigned bytes. */
  lemma {:induction false} LessAtDifference(a: string, c: char, s: string, d: char, t: string)
    ensures Less(a, a + [c] + s)
    ensures c != d ==> (Less(a + [c] + s, a + [d] + t) <==> c as int < d as int)
  {
    var x, y := a + [c] + s, a + [d] + t;
    if a != "" {
      LessAtDifference(a[1..], c, s, d, t);
      assert x[1..] == a[1..] + [c] + s && y[1..] == a[1..] + [d] + t;
    }
  }

  predicate Sorted(members: seq<Member>) {
    forall i, j :: 0 <= i < j < |members| ==> Less(members[i].name, members[j].name)
  }

  /** `map_->lower_bound( key )`: the first member whose name is not less than `key`. */
  function LowerBound(members: seq<Member>, key: string): (i: nat)
    ensures i <= |members|
    ensures forall j :: 0 <= j < i ==> Less(members[j].name, key)
    ensures i < |members| ==> !Less(members[i].name, key)
  {
    if members == [] || !Less(members[0].name, key) then 0 else 1 + LowerBound(members[1..], key)
  }

  function Find(members: seq<Member>, key: string): Option<Value> {
    var i := LowerBound(members, key);
    if i < |members| && members[i].name == key then Some(members[i].value) else None
  }

  /** The members after `(*this)[ key ] = value`: the value is replaced, or inserted in order. */
  function Put(members: seq<Member>, key: string, value: Value): seq<Member> {
    var i := LowerBound(members, key);
    if i < |members| && members[i].name == key then members[i := Member(key, value)]
    else members[..i] + [Member(key, value)] + members[i..]
  }

  lemma FindIsUnique(members: seq<Member>, i: nat)
    requires Sorted(members) && i < |members|
    ensures LowerBound(members, members[i].name) == i
  {
    var key := members[i].name;
    LessTotal(key, key);
  }

  lemma FindSpec(members: seq<Member>, key: string)
    requires Sorted(members)
    ensures Find(members, key).Some? <==> exists i :: 0 <= i < |members| && members[i].name == key
    ensures forall i :: 0 <= i < |members| && members[i].name == key ==> Find(members, key) == Some(members[i].value)
  {
    forall i | 0 <= i < |members| && members[i].name == key
      ensures Find(members, key) == Some(members[i].value)
    {
      FindIsUnique(members, i);
    }
  }

  lemma PutKeepsSorted(members: seq<Member>, key: string, value: Value)
    requires Sorted(members)
    ensures Sorted(Put(members, key, value))
  {
    var k := LowerBound(members, key);
    var r := Put(members, key, value);
    if k < |members| && members[k].name == key {
    } else {
      forall j | k <= j < |members| ensures Less(key, members[j].name) {
        LessTotal(members[k].name, key);
        if k < j {
          LessTransitive(key, members[k].name, members[j].name);
        }
      }
      forall i, j | 0 <= i < j < |r| ensures Less(r[i].name, r[j].name) {
        assert r[i] == if i < k then members[i] else if i == k then Member(key, value) else members[i - 1];
        assert r[j] == if j < k then members[j] else if j == k then Member(key, value) else members[j - 1];
        if i < k < j {
          assert Less(members[i].name, members[j - 1].name);
        }
      }
    }
  }

  /** Storing under one name changes what is found under that name only: the member list is a map. */
  lemma FindAfterPut(members: seq<Member>, key: string, value: Value, other: string)
    requires Sorted(members)
    ensures Find(Put(members, key, value), other) == if other == key then Some(value) else Find(members, other)
  {
    var k := LowerBound(members, key);
    var r := Put(members, key, value);
    PutKeepsSorted(members, key, value);
    FindSpec(r, other);
    FindSpec(members, other);
    assert r[k] == Member(key, value);
    if other != key {
      var shift := if k < |members| && members[k].name == key then 0 else 1;
      forall i | 0 <= i < |members| && i + shift * (if i < k then 0 else 1) != k
        ensures members[i] == r[if i < k then i else i + shift]
      {
      }
      if i :| 0 <= i < |members| && members[i].name == other {
        assert r[if i < k then i else i + shift].name == other;
      }
    }
  }

  /** A name greater than all others is stored at the end. */
  lemma PutAppends(members: seq<Member>, key: string, value: Value)
    requires forall i :: 0 <= i < |members| ==> Less(members[i].name, key)
    ensures Put(members, key, value) == members + [Member(key, value)]
    ensures Find(members, key) == None
  {
    assert LowerBound(members, key) == |members|;
  }

  /** The trees the library can hold: C strings only, object members in order and without repetition. */
  predicate WellFormed(v: Value)
    decreases v, 1
  {
    match v
    case StringVal(s) => '\0' !in s
    case ArrayVal(items) => WellFormedItems(items)
    case ObjectVal(members) => Sorted(members) && WellFormedMembers(members)
    case _ => true
  }

  predicate WellFormedItems(items: seq<Value>)
    decreases items, 0
  {
    forall i :: 0 <= i < |items| ==> WellFormed(items[i])
  }

  predicate WellFormedMembers(members: seq<Member>)
    decreases members, 0
  {
    forall i :: 0 <= i < |members| ==> '\0' !in members[i].name && WellFormed(members[i].value)
  }

  lemma PutKeepsWellFormed(members: seq<Member>, key: string, value: Value)
    requires WellFormed(ObjectVal(members)) && WellFormed(value) && '\0' !in key
    ensures WellFormed(ObjectVal(Put(members, key, value)))
  {
    PutKeepsSorted(members, key, value);
    var r := Put(members, key, value);
    forall i | 0 <= i < |r| ensures '\0' !in r[i].name && WellFormed(r[i].value) {
      if r[i] != Member(key, value) {
        assert r[i] in members;
      }
    }
  }

  /** The tag the reader gives a number: `Int` up to `maxInt`, `UInt` above, whatever the tag written. */
  function Canon(v: Value): Value
    decreases v, 1
  {
    match v
    case IntVal(i) => if i as int > MAX_INT then UIntVal(i as UInt64) else v
    case UIntVal(u) => if u as int <= MAX_INT then IntVal(u as Int64) else v
    case ArrayVal(items) => ArrayVal(CanonItems(items))
    case ObjectVal(members) => ObjectVal(CanonMembers(members))
    case _ => v
  }

  function CanonItems(items: seq<Value>): seq<Value>
    decreases items, 0
  {
    if items == [] then [] else [Canon(items[0])] + CanonItems(items[1..])
  }

  function CanonMembers(members: seq<Member>): seq<Member>
    decreases members, 0
  {
    if members == [] then []
    else [Member(members[0].name, Canon(members[0].value))] + CanonMembers(members[1..])
  }

  /** Two values that differ at most in the int/uint tag of equal numbers. */
  predicate SameUpToTag(v: Value, w: Value)
    decreases v, 1
  {
    match v
    case IntVal(i) => (w.IntVal? && w.i == i) || (w.UIntVal? && w.u as int == i as int)
    case UIntVal(u) => (w.UIntVal? && w.u == u) || (w.IntVal? && w.i as int == u as int)
    case ArrayVal(items) =>
      w.ArrayVal? && |w.items| == |items| && forall i :: 0 <= i < |items| ==> SameUpToTag(items[i], w.items[i])
    case ObjectVal(members) =>
      && w.ObjectVal? && |w.members| == |members|
      && forall i :: 0 <= i < |members| ==>
        members[i].name == w.members[i].name && SameUpToTag(members[i].value, w.members[i].value)
    case _ => v == w
  }

  lemma {:induction false} CanonIsSame(v: Value)
    ensures SameUpToTag(v, Canon(v))
    decreases v, 1
  {
    match v
    case ArrayVal(items) => CanonItemsSame(items);
    case ObjectVal(members) => CanonMembersSame(members);
    case _ =>
  }

  lemma {:induction false} CanonItemsSame(items: seq<Value>)
    ensures |CanonItems(items)| == |items|
    ensures forall i :: 0 <= i < |items| ==> SameUpToTag(items[i], CanonItems(items)[i])
    decreases items, 0
  {
    if items != [] {
      CanonIsSame(items[0]);
      CanonItemsSame(items[1..]);
    }
  }

  lemma {:induction false} CanonMembersSame(members: seq<Member>)
    ensures |CanonMembers(members)| == |members|
    ensures forall i :: 0 <= i < |members| ==>
      members[i].name == CanonMembers(members)[i].name
      && SameUpToTag(members[i].value, CanonMembers(members)[i].value)
    decreases members, 0
  {
    if members != [] {
      CanonIsSame(members[0].value);
      CanonMembersSame(members[1..]);
    }
  }
}
