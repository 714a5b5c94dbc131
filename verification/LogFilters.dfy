/**
 The logger's filter list: sixteen slots changed in place, and the matcher that reads them in order.
 */
module LogFilters {
  import opened CText

  datatype Action = NoAction | PrintAction | BreakAction

  /** The order of the enumeration. */
  function Rank(a: Action): nat {
    match a
    case NoAction => 0
    case PrintAction => 1
    case BreakAction => 2
  }

  /** Tag, lib, file and function, each a C string or a null pointer. */
  type Properties = p: seq<Option<string>> | |p| == 4 witness [None, None, None, None]

  datatype Filter = Filter(properties: Properties, action: Action)

  const FILTER_LIST_SIZE := 16
  const DEFAULT_FILTER := Filter([Some("warn"), None, None, None], PrintAction)

  // ----- names without case -----

  function LowerChar(c: char): char {
    if 'A' <= c <= 'Z' then c + 'a' - 'A' else c
  }

  function Lower(s: string): (r: string)
    ensures |r| == |s|
  {
    seq(|s|, i requires 0 <= i < |s| => LowerChar(s[i]))
  }

  /** A property as far as `strcasecmp` and the null test can tell. */
  function Folded(p: Option<string>): Option<string> {
    match p
    case Some(s) => Some(Lower(s))
    case None => None
  }

  /** `a == b || ( a && b && !strcasecmp( a, b ) )`. */
  predicate Same(a: Option<string>, b: Option<string>) {
    Folded(a) == Folded(b)
  }

  /** The properties without case: what identifies a filter. */
  function Key(p: Properties): Properties {
    [Folded(p[0]), Folded(p[1]), Folded(p[2]), Folded(p[3])]
  }

  /** The filters that a removal pattern includes: each name it gives is the filter's. */
  predicate Includes(pattern: Properties, p: Properties) {
    forall j :: 0 <= j < 4 ==> pattern[j].None? || Same(pattern[j], p[j])
  }

  // ----- deletion by swapping with the last -----

  /** The list after the deletion loop has gone on from index `i`. */
  function SwapDelete(s: seq<Filter>, drop: Filter -> bool, i: nat): (r: seq<Filter>)
    requires i <= |s|
    decreases |s| - i
  {
    if i == |s| then s
    else if drop(s[i]) then SwapDelete(s[i := s[|s| - 1]][..|s| - 1], drop, i)
    else SwapDelete(s, drop, i + 1)
  }

  /** The filters that are not dropped, in order. */
  function Kept(s: seq<Filter>, drop: Filter -> bool): seq<Filter> {
    if s == [] then []
    else if drop(s[0]) then Kept(s[1..], drop)
    else [s[0]] + Kept(s[1..], drop)
  }

  /** The loop deletes exactly the dropped filters, each of its occurrences; only the order may change. */
  lemma {:induction false} SwapDeleteKeeps(s: seq<Filter>, drop: Filter -> bool, i: nat)
    requires i <= |s|
    ensures var r := SwapDelete(s, drop, i);
            && i <= |r| <= |s| && r[..i] == s[..i]
            && multiset(r[i..]) == multiset(Kept(s[i..], drop))
    decreases |s| - i
  {
    if i < |s| {
      if drop(s[i]) {
        var t := s[i := s[|s| - 1]][..|s| - 1];
        SwapDeleteKeeps(t, drop, i);
        DropStep(s, drop, i);
      } else {
        SwapDeleteKeeps(s, drop, i + 1);
        KeepStep(s, SwapDelete(s, drop, i + 1), drop, i);
      }
    }
  }

  lemma DropStep(s: seq<Filter>, drop: Filter -> bool, i: nat)
    requires i < |s| && drop(s[i])
    ensures var t := s[i := s[|s| - 1]][..|s| - 1];
            t[..i] == s[..i] && multiset(Kept(t[i..], drop)) == multiset(Kept(s[i..], drop))
  {
    var last := s[|s| - 1];
    var t := s[i := last][..|s| - 1];
    assert t[..i] == s[..i];
    assert s[i..] == [s[i]] + s[i + 1..];
    if i == |s| - 1 {
      assert t[i..] == [] && s[i + 1..] == [];
    } else {
      var mid := s[i + 1..|s| - 1];
      assert t[i..] == [last] + mid && s[i + 1..] == mid + [last];
      KeptRotated(mid, last, drop);
    }
  }

  lemma KeepStep(s: seq<Filter>, r: seq<Filter>, drop: Filter -> bool, i: nat)
    requires i < |s| && !drop(s[i]) && i + 1 <= |r| && r[..i + 1] == s[..i + 1]
    requires multiset(r[i + 1..]) == multiset(Kept(s[i + 1..], drop))
    ensures r[..i] == s[..i] && multiset(r[i..]) == multiset(Kept(s[i..], drop))
  {
    assert r[i] == r[..i + 1][i] == s[i];
    assert r[..i] == r[..i + 1][..i] && s[..i] == s[..i + 1][..i];
    assert s[i..] == [s[i]] + s[i + 1..] && r[i..] == [s[i]] + r[i + 1..];
    KeptStep(s[i..], drop);
    hide Kept;
  }

  lemma KeptRotated(s: seq<Filter>, f: Filter, drop: Filter -> bool)
    ensures multiset(Kept([f] + s, drop)) == multiset(Kept(s + [f], drop))
  {
    KeptConcat(s, [f], drop);
    KeptConcat([f], s, drop);
  }

  lemma {:induction false} KeptConcat(a: seq<Filter>, b: seq<Filter>, drop: Filter -> bool)
    ensures Kept(a + b, drop) == Kept(a, drop) + Kept(b, drop)
  {
    hide Kept;
    KeptStep(a, drop);
    KeptStep(a + b, drop);
    if a == [] {
      assert a + b == b && [] + Kept(b, drop) == Kept(b, drop);
    } else {
      KeptConcat(a[1..], b, drop);
      assert (a + b)[1..] == a[1..] + b && (a + b)[0] == a[0];
      var head := if drop(a[0]) then [] else [a[0]];
      assert head + (Kept(a[1..], drop) + Kept(b, drop)) == head + Kept(a[1..], drop) + Kept(b, drop);
    }
  }

  lemma KeptStep(s: seq<Filter>, drop: Filter -> bool)
    ensures Kept(s, drop) == if s == [] then [] else (if drop(s[0]) then [] else [s[0]]) + Kept(s[1..], drop)
  {
  }

  lemma {:induction false} KeptMembers(s: seq<Filter>, drop: Filter -> bool, f: Filter)
    ensures f in Kept(s, drop) <==> f in s && !drop(f)
    ensures |Kept(s, drop)| <= |s|
  {
    if s != [] {
      KeptMembers(s[1..], drop, f);
    }
  }

  /** After the loop: what was not dropped, and nothing else. */
  lemma SwapDeleteMembers(s: seq<Filter>, drop: Filter -> bool, f: Filter)
    ensures var r := SwapDelete(s, drop, 0);
            (f in r <==> f in s && !drop(f)) && multiset(r) == multiset(Kept(s, drop)) && |r| == |Kept(s, drop)|
  {
    SwapDeleteKeeps(s, drop, 0);
    KeptMembers(s, drop, f);
    var r := SwapDelete(s, drop, 0);
    assert r[0..] == r && s[0..] == s;
    assert f in r <==> f in multiset(r);
    assert f in Kept(s, drop) <==> f in multiset(Kept(s, drop));
    assert |r| == |multiset(r)|;
  }

  // ----- the list as a map -----

  predicate UniqueKeys(s: seq<Filter>) {
    forall i, j :: 0 <= i < j < |s| ==> Key(s[i].properties) != Key(s[j].properties)
  }

  predicate ValidFilters(s: seq<Filter>) {
    |s| <= FILTER_LIST_SIZE && UniqueKeys(s) && forall i :: 0 <= i < |s| ==> s[i].action != NoAction
  }

  /** The map from keys to actions that the list stands for. */
  function AsMap(s: seq<Filter>): map<Properties, Action> {
    if s == [] then map[]
    else AsMap(s[..|s| - 1])[Key(s[|s| - 1].properties) := s[|s| - 1].action]
  }

  lemma {:induction false} AsMapOf(s: seq<Filter>, k: Properties)
    requires UniqueKeys(s)
    ensures k in AsMap(s) <==> exists i :: 0 <= i < |s| && Key(s[i].properties) == k
    ensures forall i :: 0 <= i < |s| && Key(s[i].properties) == k ==> k in AsMap(s) && AsMap(s)[k] == s[i].action
    ensures |AsMap(s)| == |s|
  {
    if s != [] {
      var front, last := s[..|s| - 1], s[|s| - 1];
      AsMapOf(front, k);
      AsMapOf(front, Key(last.properties));
      assert forall i :: 0 <= i < |front| ==> front[i] == s[i];
    }
  }

  /** The filters that `key` identifies. */
  function HasKey(key: Properties): Filter -> bool {
    (f: Filter) => Key(f.properties) == key
  }

  function IncludedIn(pattern: Properties): Filter -> bool {
    (f: Filter) => Includes(pattern, f.properties)
  }

  /** `NWLAddFilter`: an older filter with the same key goes first, and the new one is appended if it fits. */
  function Added(s: seq<Filter>, f: Filter): seq<Filter> {
    var r := SwapDelete(s, HasKey(Key(f.properties)), 0);
    if f.action != NoAction && |r| < FILTER_LIST_SIZE then r + [f] else r
  }

  /** The same on maps of bounded size. */
  function AddedToMap(m: map<Properties, Action>, k: Properties, a: Action): map<Properties, Action> {
    var r := m - {k};
    if a != NoAction && |r| < FILTER_LIST_SIZE then r[k := a] else r
  }

  lemma {:induction false} SwapDeleteUnique(s: seq<Filter>, drop: Filter -> bool, i: nat)
    requires i <= |s| && UniqueKeys(s)
    ensures UniqueKeys(SwapDelete(s, drop, i))
    decreases |s| - i
  {
    if i < |s| {
      if drop(s[i]) {
        var t := s[i := s[|s| - 1]][..|s| - 1];
        assert forall j :: 0 <= j < |t| ==> t[j] == if j == i then s[|s| - 1] else s[j];
        SwapDeleteUnique(t, drop, i);
      } else {
        SwapDeleteUnique(s, drop, i + 1);
      }
    }
  }

  /** On the map, the deletion loop removes the keys that are dropped and leaves the others alone. */
  lemma DeleteOnMap(s: seq<Filter>, drop: Filter -> bool, dropKey: Properties -> bool)
    requires UniqueKeys(s) && forall f :: f in s ==> drop(f) == dropKey(Key(f.properties))
    ensures var r := SwapDelete(s, drop, 0);
            UniqueKeys(r) && AsMap(r) == map k | k in AsMap(s) && !dropKey(k) :: AsMap(s)[k]
  {
    var r := SwapDelete(s, drop, 0);
    var expected := map k | k in AsMap(s) && !dropKey(k) :: AsMap(s)[k];
    SwapDeleteUnique(s, drop, 0);
    forall k ensures k in AsMap(r) <==> k in expected
             ensures k in AsMap(r) && k in expected ==> AsMap(r)[k] == expected[k]
    {
      DeleteOneKey(s, drop, dropKey, k);
    }
  }

  lemma DeleteOneKey(s: seq<Filter>, drop: Filter -> bool, dropKey: Properties -> bool, k: Properties)
    requires UniqueKeys(s) && forall f :: f in s ==> drop(f) == dropKey(Key(f.properties))
    requires UniqueKeys(SwapDelete(s, drop, 0))
    ensures var m := AsMap(SwapDelete(s, drop, 0));
            && (k in m <==> k in AsMap(s) && !dropKey(k))
            && (k in m && k in AsMap(s) ==> m[k] == AsMap(s)[k])
  {
    hide Key, SwapDelete, AsMap;
    var r := SwapDelete(s, drop, 0);
    AsMapOf(s, k);
    AsMapOf(r, k);
    if k in AsMap(r) {
      var i :| 0 <= i < |r| && Key(r[i].properties) == k;
      SwapDeleteMembers(s, drop, r[i]);
      var j :| 0 <= j < |s| && s[j] == r[i];
      assert Key(s[j].properties) == k;
    }
    if k in AsMap(s) && !dropKey(k) {
      var j :| 0 <= j < |s| && Key(s[j].properties) == k;
      SwapDeleteMembers(s, drop, s[j]);
      var i :| 0 <= i < |r| && r[i] == s[j];
      assert Key(r[i].properties) == k;
    }
  }

  /** Adding: keys stay unique, the bound is kept, and just the filter's key is set, or cleared. */
  lemma AddedOnMap(s: seq<Filter>, f: Filter)
    requires ValidFilters(s)
    ensures ValidFilters(Added(s, f))
    ensures AsMap(Added(s, f)) == AddedToMap(AsMap(s), Key(f.properties), f.action)
  {
    hide Key, SwapDelete;
    var k := Key(f.properties);
    var r := SwapDelete(s, HasKey(k), 0);
    RemovedKey(s, k);
    AsMapOf(r, k);
    if f.action != NoAction && |r| < FILTER_LIST_SIZE {
      AppendedOnMap(r, f);
    }
    hide ValidFilters, AsMap;
  }

  lemma AppendedOnMap(r: seq<Filter>, f: Filter)
    requires ValidFilters(r) && |r| < FILTER_LIST_SIZE && f.action != NoAction
    requires forall g :: g in r ==> Key(g.properties) != Key(f.properties)
    ensures ValidFilters(r + [f]) && AsMap(r + [f]) == AsMap(r)[Key(f.properties) := f.action]
  {
    hide Key;
    assert (r + [f])[..|r|] == r;
  }

  /** Removing by key takes the key out of the map. */
  lemma RemovedKey(s: seq<Filter>, k: Properties)
    requires ValidFilters(s)
    ensures var r := SwapDelete(s, HasKey(k), 0);
            ValidFilters(r) && AsMap(r) == AsMap(s) - {k} && forall f :: f in r ==> Key(f.properties) != k
  {
    hide Key, SwapDelete, AsMap;
    var r := SwapDelete(s, HasKey(k), 0);
    DeleteOnMap(s, HasKey(k), (key: Properties) => key == k);
    DeletedIsValid(s, HasKey(k));
    forall f | f in r ensures Key(f.properties) != k {
      SwapDeleteMembers(s, HasKey(k), f);
    }
  }

  lemma DeletedIsValid(s: seq<Filter>, drop: Filter -> bool)
    requires ValidFilters(s)
    ensures ValidFilters(SwapDelete(s, drop, 0))
  {
    hide Key;
    var r := SwapDelete(s, drop, 0);
    SwapDeleteUnique(s, drop, 0);
    SwapDeleteKeeps(s, drop, 0);
    forall i | 0 <= i < |r| ensures r[i].action != NoAction {
      SwapDeleteMembers(s, drop, r[i]);
    }
  }

  /** Whether the filter is appended. */
  lemma AddFits(s: seq<Filter>, f: Filter)
    requires ValidFilters(s)
    ensures |SwapDelete(s, HasKey(Key(f.properties)), 0)| < FILTER_LIST_SIZE <==>
            |s| < FILTER_LIST_SIZE || Key(f.properties) in AsMap(s)
  {
    hide Key, SwapDelete, AsMap;
    var k := Key(f.properties);
    AsMapOf(s, k);
    RemovedKey(s, k);
    AsMapOf(SwapDelete(s, HasKey(k), 0), k);
    assert |AsMap(s) - {k}| == if k in AsMap(s) then |s| - 1 else |s| by {
      MapMinusOne(AsMap(s), k);
    }
  }

  lemma MapMinusOne(m: map<Properties, Action>, k: Properties)
    ensures |m - {k}| == if k in m then |m| - 1 else |m|
  {
    if k in m {
      assert m == (m - {k})[k := m[k]];
    } else {
      assert m == m - {k};
    }
  }

  /** A full list takes no new key, but still replaces the action of one it has. */
  lemma FullListReplaces(s: seq<Filter>, f: Filter)
    requires ValidFilters(s) && |s| == FILTER_LIST_SIZE && f.action != NoAction
    ensures var k, m := Key(f.properties), AsMap(Added(s, f));
            m == if k in AsMap(s) then AsMap(s)[k := f.action] else AsMap(s)
  {
    var k := Key(f.properties);
    AddedOnMap(s, f);
    AsMapOf(s, k);
    hide Key, UniqueKeys, Added, AsMap;
  }

  lemma LowerTwice(s: string)
    ensures Lower(Lower(s)) == Lower(s)
  {
  }

  /** A pattern cannot tell properties from their key. */
  lemma IncludesKey(pattern: Properties, p: Properties)
    ensures Includes(pattern, p) <==> Includes(pattern, Key(p))
  {
    forall j | 0 <= j < 4 ensures Folded(Key(p)[j]) == Folded(p[j]) {
      if p[j].Some? {
        LowerTwice(p[j].value);
      }
    }
    assert Includes(pattern, Key(p)) ==> Includes(pattern, p) by {
      assert forall j :: 0 <= j < 4 ==> (Same(pattern[j], p[j]) <==> Same(pattern[j], Key(p)[j]));
    }
  }

  /** Removal by pattern takes exactly the included keys out of the map. */
  lemma RemovedOnMap(s: seq<Filter>, pattern: Properties)
    requires ValidFilters(s)
    ensures var r := SwapDelete(s, IncludedIn(pattern), 0);
            && ValidFilters(r)
            && AsMap(r) == (map k | k in AsMap(s) && !Includes(pattern, k) :: AsMap(s)[k])
            && |s| - |r| == |AsMap(s)| - |AsMap(r)|
  {
    hide Key, Includes;
    forall f | f in s ensures IncludedIn(pattern)(f) == Includes(pattern, Key(f.properties)) {
      IncludesKey(pattern, f.properties);
    }
    DeletedIsValid(s, IncludedIn(pattern));
    DeleteOnMap(s, IncludedIn(pattern), (key: Properties) => Includes(pattern, key));
    AsMapOf(s, pattern);
    AsMapOf(SwapDelete(s, IncludedIn(pattern), 0), pattern);
  }

  // ----- matching -----

  /** A logging statement's tag, lib, file and function. */
  type Context = Properties

  /** No property that filter and context both give differs. */
  predicate Matches(f: Filter, context: Context) {
    forall j :: 0 <= j < 4 ==> f.properties[j].None? || context[j].None? || Same(f.properties[j], context[j])
  }

  /** How many of the first `n` properties both give. */
  function Score(f: Filter, context: Context, n: nat := 4): (r: nat)
    requires n <= 4
    ensures r <= n
  {
    if n == 0 then 0
    else Score(f, context, n - 1) + if f.properties[n - 1].Some? && context[n - 1].Some? then 1 else 0
  }

  /** The action and the best score after the filters from `i` on. */
  function MatchFrom(s: seq<Filter>, context: Context, i: nat, result: Action, bestScore: nat): Action
    requires i <= |s|
    decreases |s| - i
  {
    if i == |s| then result
    else if Rank(result) < Rank(s[i].action) && Matches(s[i], context) && bestScore <= Score(s[i], context) then
      MatchFrom(s, context, i + 1, s[i].action, Score(s[i], context))
    else MatchFrom(s, context, i + 1, result, bestScore)
  }

  function MatchingAction(s: seq<Filter>, context: Context): Action {
    MatchFrom(s, context, 0, NoAction, 0)
  }

  predicate MatchesAs(s: seq<Filter>, context: Context, a: Action, i: nat) {
    i < |s| && s[i].action == a && Matches(s[i], context)
  }

  /** `i` is the first filter that matches at all. */
  predicate IsFirstMatch(s: seq<Filter>, context: Context, i: nat) {
    i < |s| && Matches(s[i], context) && forall j :: 0 <= j < i ==> !Matches(s[j], context)
  }

  /** A break, once chosen, stays. */
  lemma {:induction false} BreakStays(s: seq<Filter>, context: Context, i: nat, bestScore: nat)
    requires i <= |s|
    ensures MatchFrom(s, context, i, BreakAction, bestScore) == BreakAction
    decreases |s| - i
  {
    if i < |s| {
      BreakStays(s, context, i + 1, bestScore);
    }
  }

  /** From a chosen print on, only a matching break that scores no lower displaces it. */
  lemma {:induction false} AfterPrint(s: seq<Filter>, context: Context, i: nat, bestScore: nat)
    requires i <= |s|
    ensures MatchFrom(s, context, i, PrintAction, bestScore) ==
            if exists b :: i <= b < |s| && MatchesAs(s, context, BreakAction, b) && bestScore <= Score(s[b], context)
            then BreakAction else PrintAction
    decreases |s| - i
  {
    if i < |s| {
      if MatchesAs(s, context, BreakAction, i) && bestScore <= Score(s[i], context) {
        BreakStays(s, context, i + 1, Score(s[i], context));
      } else {
        AfterPrint(s, context, i + 1, bestScore);
      }
    }
  }

  /** Before the first match nothing is chosen; the first match is. */
  lemma {:induction false} UpToFirstMatch(s: seq<Filter>, context: Context, i: nat, first: nat)
    requires ValidFilters(s) && i <= first && IsFirstMatch(s, context, first)
    ensures MatchFrom(s, context, i, NoAction, 0)
            == MatchFrom(s, context, first + 1, s[first].action, Score(s[first], context))
    decreases first - i
  {
    hide Matches, Score, UniqueKeys;
    if i < first {
      UpToFirstMatch(s, context, i + 1, first);
    }
  }

  lemma {:induction false} NoMatch(s: seq<Filter>, context: Context, i: nat)
    requires i <= |s| && forall j :: i <= j < |s| ==> !Matches(s[j], context)
    ensures MatchFrom(s, context, i, NoAction, 0) == NoAction
    decreases |s| - i
  {
    hide Matches, Score;
    if i < |s| {
      NoMatch(s, context, i + 1);
    }
  }

  lemma {:induction false} FirstMatchExists(s: seq<Filter>, context: Context, i: nat) returns (first: nat)
    requires i < |s| && Matches(s[i], context)
    ensures first <= i && IsFirstMatch(s, context, first)
    decreases i
  {
    if j :| 0 <= j < i && Matches(s[j], context) {
      first := FirstMatchExists(s, context, j);
    } else {
      first := i;
    }
  }

  /** Some matching break scores at least `score`. */
  ghost predicate BreakReaches(s: seq<Filter>, context: Context, score: nat) {
    exists b: nat :: MatchesAs(s, context, BreakAction, b) && score <= Score(s[b], context)
  }

  /**
   The matcher, by what it decides: no action exactly when nothing matches, and a break exactly when some
   matching break scores at least as high as the first filter that matches, which may be that break itself.
   */
  lemma MatcherDecides(s: seq<Filter>, context: Context)
    requires ValidFilters(s)
    ensures MatchingAction(s, context) == NoAction <==> forall i :: 0 <= i < |s| ==> !Matches(s[i], context)
    ensures forall first: nat :: IsFirstMatch(s, context, first) ==>
              (MatchingAction(s, context) == BreakAction <==>
                BreakReaches(s, context, Score(s[first], context)))
  {
    hide Matches, Score;
    if i :| 0 <= i < |s| && Matches(s[i], context) {
      var first := FirstMatchExists(s, context, i);
      DecidedByFirst(s, context, first);
      FirstMatchIsUnique(s, context, first);
    } else {
      NoMatch(s, context, 0);
    }
  }

  lemma DecidedByFirst(s: seq<Filter>, context: Context, first: nat)
    requires ValidFilters(s) && IsFirstMatch(s, context, first)
    ensures MatchingAction(s, context) != NoAction
    ensures MatchingAction(s, context) == BreakAction <==> BreakReaches(s, context, Score(s[first], context))
  {
    hide Matches, Score;
    UpToFirstMatch(s, context, 0, first);
    var score := Score(s[first], context);
    if s[first].action == BreakAction {
      BreakStays(s, context, first + 1, score);
      assert MatchesAs(s, context, BreakAction, first);
    } else {
      AfterPrint(s, context, first + 1, score);
      assert forall b: nat :: MatchesAs(s, context, BreakAction, b) ==> first < b;
    }
  }

  lemma FirstMatchIsUnique(s: seq<Filter>, context: Context, first: nat)
    requires IsFirstMatch(s, context, first)
    ensures forall i: nat :: IsFirstMatch(s, context, i) ==> i == first
  {
  }

  /** A matching filter that no matching filter outscores. */
  ghost predicate IsBest(s: seq<Filter>, context: Context, i: nat) {
    i < |s| && Matches(s[i], context)
    && forall j :: 0 <= j < |s| && Matches(s[j], context) ==> Score(s[j], context) <= Score(s[i], context)
  }

  /** The action is that of a best match. */
  ghost predicate IsBestAction(s: seq<Filter>, context: Context, a: Action) {
    exists i: nat :: IsBest(s, context, i) && s[i].action == a
  }

  /** Some matching print scores higher than every matching break. */
  ghost predicate PrintBeatsBreaks(s: seq<Filter>, context: Context) {
    exists p: nat :: MatchesAs(s, context, PrintAction, p)
      && forall b: nat :: MatchesAs(s, context, BreakAction, b) ==> Score(s[b], context) < Score(s[p], context)
  }

  lemma {:induction false} BestExists(s: seq<Filter>, context: Context, i: nat) returns (best: nat)
    requires i < |s| && Matches(s[i], context)
    ensures IsBest(s, context, best)
    decreases 4 - Score(s[i], context)
  {
    hide Matches;
    if j :| 0 <= j < |s| && Matches(s[j], context) && Score(s[i], context) < Score(s[j], context) {
      best := BestExists(s, context, j);
    } else {
      best := i;
    }
  }

  /**
   The header promises the best match. It is missed exactly if a matching break reaches the score of the first
   match while some matching print scores higher than every matching break.
   */
  lemma BestMatchCondition(s: seq<Filter>, context: Context, first: nat)
    requires ValidFilters(s) && IsFirstMatch(s, context, first)
    ensures !IsBestAction(s, context, MatchingAction(s, context)) <==>
            BreakReaches(s, context, Score(s[first], context)) && PrintBeatsBreaks(s, context)
  {
    hide Matches, Score, MatchingAction;
    DecidedByFirst(s, context, first);
    var best := BestExists(s, context, first);
    assert MatchesAs(s, context, s[best].action, best);
    if MatchingAction(s, context) == BreakAction {
      if i: nat :| IsBest(s, context, i) && s[i].action == BreakAction {
        assert MatchesAs(s, context, BreakAction, i);
      } else {
        assert s[best].action == PrintAction;
        BreaksLose(s, context, best);
      }
    }
  }

  /** If no break is best, a best print beats them all. */
  lemma BreaksLose(s: seq<Filter>, context: Context, best: nat)
    requires IsBest(s, context, best) && s[best].action == PrintAction
    requires !IsBestAction(s, context, BreakAction)
    ensures PrintBeatsBreaks(s, context)
  {
    hide Matches, Score;
    assert MatchesAs(s, context, PrintAction, best);
    forall b: nat | MatchesAs(s, context, BreakAction, b) ensures Score(s[b], context) < Score(s[best], context) {
      assert Score(s[b], context) == Score(s[best], context) ==> IsBest(s, context, b);
    }
  }

  /** A break on the tag alone silences a print that fits the tag and the library: not the best match. */
  lemma BestMatchMayLose()
    ensures var s := [Filter([Some("warn"), None, None, None], BreakAction),
                      Filter([Some("warn"), Some("net"), None, None], PrintAction)];
            var context := [Some("warn"), Some("net"), None, None];
            ValidFilters(s) && MatchingAction(s, context) == BreakAction && !IsBestAction(s, context, BreakAction)
  {
  }

  // ----- the list in place -----

  lemma OnlyOne(s: seq<Filter>, f: Filter)
    requires s == [f] && f.action != NoAction
    ensures ValidFilters(s)
    ensures AsMap(s) == map[Key(f.properties) := f.action]
  {
    assert s[..0] == [];
  }

  lemma KeyBySame(p: Properties, q: Properties)
    ensures (forall j :: 0 <= j < 4 ==> Same(p[j], q[j])) <==> Key(p) == Key(q)
  {
    if forall j :: 0 <= j < 4 ==> Same(p[j], q[j]) {
      assert Same(p[0], q[0]) && Same(p[1], q[1]) && Same(p[2], q[2]) && Same(p[3], q[3]);
    }
    if Key(p) == Key(q) {
      assert forall j :: 0 <= j < 4 ==> Key(p)[j] == Folded(p[j]) && Key(q)[j] == Folded(q[j]);
    }
  }

  class FilterList {
    const elements: array<Filter>
    var count: nat

    ghost function View(): seq<Filter>
      requires count <= elements.Length
      reads this, elements
    {
      elements[..count]
    }

    ghost predicate Valid()
      reads this, elements
    {
      elements.Length == FILTER_LIST_SIZE && count <= FILTER_LIST_SIZE && ValidFilters(View())
    }

    /** The map the list stands for. */
    ghost function Map(): map<Properties, Action>
      requires Valid()
      reads this, elements
    {
      AsMap(View())
    }

    /** The static list: warnings are printed. */
    constructor ()
      ensures Valid() && fresh(elements)
      ensures Map() == map[Key(DEFAULT_FILTER.properties) := PrintAction]
    {
      elements := new Filter[FILTER_LIST_SIZE](_ => Filter([None, None, None, None], NoAction));
      count := 1;
      new;
      elements[0] := DEFAULT_FILTER;
      OnlyOne(View(), DEFAULT_FILTER);
    }

    /** `m` has the same key as the filter. */
    method HasSameKey(filter: Filter, m: Filter) returns (same: bool)
      ensures same == HasKey(Key(filter.properties))(m)
    {
      var j := 0;
      while j < 4
        invariant 0 <= j <= 4
        invariant forall k :: 0 <= k < j ==> Same(filter.properties[k], m.properties[k])
      {
        if !Same(filter.properties[j], m.properties[j]) {
          break;
        }
        j := j + 1;
      }
      same := j == 4;
      KeyBySame(filter.properties, m.properties);
    }

    method IsIncluded(filter: Filter, m: Filter) returns (included: bool)
      ensures included == IncludedIn(filter.properties)(m)
    {
      var j := 0;
      while j < 4
        invariant 0 <= j <= 4
        invariant forall k :: 0 <= k < j ==> filter.properties[k].None? || Same(filter.properties[k], m.properties[k])
      {
        if filter.properties[j].Some? && !Same(filter.properties[j], m.properties[j]) {
          break;
        }
        j := j + 1;
      }
      included := j == 4;
    }

    /** The last filter moves to place `i`, if it is not the last itself. */
    method DeleteAt(i: nat)
      requires i < count <= elements.Length
      modifies this`count, elements
      ensures count == old(count) - 1
      ensures View() == old(View())[i := old(View())[old(count) - 1]][..count]
    {
      count := count - 1;
      elements[i] := elements[count];
    }

    method RemoveFilter1(filter: Filter) returns (result: nat)
      requires Valid()
      modifies this`count, elements
      ensures Valid() && View() == SwapDelete(old(View()), HasKey(Key(filter.properties)), 0)
      ensures result == old(count) - count
    {
      hide ValidFilters, Key;
      ghost var all, drop := View(), HasKey(Key(filter.properties));
      result := 0;
      var i: int := 0;
      while i < count
        invariant 0 <= i <= count <= elements.Length && result == old(count) - count
        invariant SwapDelete(View(), drop, i) == SwapDelete(all, drop, 0)
        decreases count - i
      {
        var found := HasSameKey(filter, elements[i]);
        assert View()[i] == elements[i];
        if found && count > 0 {
          DeleteAt(i);
          i := i - 1;
          result := result + 1;
        }
        i := i + 1;
      }
      DeletedIsValid(all, drop);
    }

    method RemoveMatchingFilters1(filter: Filter) returns (result: nat)
      requires Valid()
      modifies this`count, elements
      ensures Valid() && View() == SwapDelete(old(View()), IncludedIn(filter.properties), 0)
      ensures result == old(count) - count
    {
      hide ValidFilters, Includes;
      ghost var all, drop := View(), IncludedIn(filter.properties);
      result := 0;
      var i: int := 0;
      while i < count
        invariant 0 <= i <= count <= elements.Length && result == old(count) - count
        invariant SwapDelete(View(), drop, i) == SwapDelete(all, drop, 0)
        decreases count - i
      {
        var found := IsIncluded(filter, elements[i]);
        assert View()[i] == elements[i];
        if found && count > 0 {
          DeleteAt(i);
          i := i - 1;
          result := result + 1;
        }
        i := i + 1;
      }
      DeletedIsValid(all, drop);
    }

    /** The filter is appended, if it acts and fits. */
    method AddFilter1(filter: Filter) returns (result: bool)
      requires count <= elements.Length == FILTER_LIST_SIZE
      modifies this`count, elements
      ensures count <= elements.Length
      ensures result == (filter.action != NoAction && old(count) < FILTER_LIST_SIZE)
      ensures View() == if result then old(View()) + [filter] else old(View())
    {
      if filter.action != NoAction {
        if count < FILTER_LIST_SIZE {
          elements[count] := filter;
          count := count + 1;
          return true;
        }
      }
      return false;
    }

    /** Just the filter's key is set, or cleared if the filter does not act or does not fit. */
    method AddFilter(properties: Properties, action: Action) returns (result: bool)
      requires Valid()
      modifies this`count, elements
      ensures Valid() && Map() == AddedToMap(old(Map()), Key(properties), action)
      ensures result == (action != NoAction && (old(count) < FILTER_LIST_SIZE || Key(properties) in old(Map())))
    {
      hide ValidFilters, Key, AsMap;
      var filter := Filter(properties, action);
      ghost var all := View();
      AddedOnMap(all, filter);
      AddFits(all, filter);
      var removed := RemoveFilter1(filter);
      result := AddFilter1(filter);
    }

    /** The action of the filter with these properties, if there is one. */
    method HasFilter(properties: Properties) returns (action: Action)
      requires Valid()
      ensures action == if Key(properties) in Map() then Map()[Key(properties)] else NoAction
    {
      hide Key;
      AsMapOf(View(), Key(properties));
      var i := 0;
      while i < count
        invariant 0 <= i <= count
        invariant forall k :: 0 <= k < i ==> Key(View()[k].properties) != Key(properties)
      {
        var found := HasSameKey(Filter(properties, NoAction), elements[i]);
        assert View()[i] == elements[i];
        if found {
          return elements[i].action;
        }
        i := i + 1;
      }
      return NoAction;
    }

    /** Exactly the included keys go, and their number is returned. */
    method RemoveMatchingFilters(properties: Properties) returns (result: nat)
      requires Valid()
      modifies this`count, elements
      ensures Valid() && Map() == map k | k in old(Map()) && !Includes(properties, k) :: old(Map())[k]
      ensures result == |old(Map())| - |Map()|
    {
      hide ValidFilters, Includes, AsMap;
      RemovedOnMap(View(), properties);
      result := RemoveMatchingFilters1(Filter(properties, NoAction));
    }

    method RemoveAllFilters()
      requires Valid()
      modifies this`count
      ensures Valid() && Map() == map[]
    {
      count := 0;
    }

    method RestoreDefaultFilters()
      requires Valid()
      modifies this`count, elements
      ensures Valid() && Map() == map[Key(DEFAULT_FILTER.properties) := PrintAction]
    {
      hide Key, ValidFilters, AsMap;
      RemoveAllFilters();
      var added := AddFilter(DEFAULT_FILTER.properties, DEFAULT_FILTER.action);
    }

    /** What `MatcherDecides` says of the list. */
    method MatchingActionForContext(context: Context) returns (result: Action)
      requires Valid()
      ensures result == MatchingAction(View(), context)
    {
      hide Matches, Score;
      ghost var all := View();
      result := NoAction;
      var bestScore := 0;
      var i := 0;
      while i < count
        invariant 0 <= i <= count
        invariant MatchFrom(all, context, i, result, bestScore) == MatchingAction(all, context)
      {
        var filter := elements[i];
        assert all[i] == filter;
        if Rank(result) < Rank(filter.action) {
          var matched, score := ScoreOf(filter, context);
          if matched && bestScore <= score {
            bestScore := score;
            result := filter.action;
          }
        }
        i := i + 1;
      }
    }

    /** The scoring of one filter, up to the first property that differs. */
    method ScoreOf(filter: Filter, context: Context) returns (matched: bool, score: nat)
      ensures matched == Matches(filter, context)
      ensures matched ==> score == Score(filter, context)
    {
      score := 0;
      var j := 0;
      while j < 4
        invariant 0 <= j <= 4 && score == Score(filter, context, j)
        invariant forall k :: 0 <= k < j ==>
          filter.properties[k].None? || context[k].None? || Same(filter.properties[k], context[k])
      {
        if filter.properties[j].Some? && context[j].Some? {
          if !Same(filter.properties[j], context[j]) {
            return false, score;
          }
          score := score + 1;
        }
        j := j + 1;
      }
      matched := true;
    }
  }
}
