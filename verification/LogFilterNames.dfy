/**
 Names of filters by their characters: which ones the list takes for the same, and that case never shows.
 */
module LogFilterNames {
  import opened CText
  import opened LogFilters

  /** The two cases of one letter from A to Z. */
  predicate AreCases(c: char, d: char) {
    || ('A' <= c <= 'Z' && 'a' <= d <= 'z' && d as int - 'a' as int == c as int - 'A' as int)
    || ('A' <= d <= 'Z' && 'a' <= c <= 'z' && c as int - 'a' as int == d as int - 'A' as int)
  }

  predicate AlikeText(a: string, b: string) {
    |a| == |b| && forall i :: 0 <= i < |a| ==> a[i] == b[i] || AreCases(a[i], b[i])
  }

  /** A name is like no missing one. */
  predicate Alike(a: Option<string>, b: Option<string>) {
    a.Some? == b.Some? && (a.Some? ==> AlikeText(a.value, b.value))
  }

  predicate AllAlike(p: Properties, q: Properties) {
    Alike(p[0], q[0]) && Alike(p[1], q[1]) && Alike(p[2], q[2]) && Alike(p[3], q[3])
  }

  lemma SameText(a: string, b: string)
    ensures Lower(a) == Lower(b) <==> AlikeText(a, b)
  {
    if Lower(a) == Lower(b) {
      forall i | 0 <= i < |a| ensures a[i] == b[i] || AreCases(a[i], b[i]) {
        assert Lower(a)[i] == Lower(b)[i];
      }
    }
  }

  /** The comparison of two names, by their characters. */
  lemma SameIsAlike(a: Option<string>, b: Option<string>)
    ensures Same(a, b) <==> Alike(a, b)
  {
    if a.Some? && b.Some? {
      SameText(a.value, b.value);
    }
  }

  lemma KeyIsAlike(p: Properties, q: Properties)
    ensures Key(p) == Key(q) <==> AllAlike(p, q)
  {
    KeyBySame(p, q);
    SameIsAlike(p[0], q[0]);
    SameIsAlike(p[1], q[1]);
    SameIsAlike(p[2], q[2]);
    SameIsAlike(p[3], q[3]);
    hide Same, Alike, Key;
    assert (forall j :: 0 <= j < 4 ==> Same(p[j], q[j]))
      <==> Same(p[0], q[0]) && Same(p[1], q[1]) && Same(p[2], q[2]) && Same(p[3], q[3]);
  }

  // ----- what the operations do, by names -----

  /** Looking up gives the action of the filter with these names, whatever their case, or none. */
  lemma FoundByName(s: seq<Filter>, p: Properties)
    requires ValidFilters(s)
    ensures Key(p) in AsMap(s) <==> exists i :: 0 <= i < |s| && AllAlike(s[i].properties, p)
    ensures forall i :: 0 <= i < |s| && AllAlike(s[i].properties, p) ==>
              Key(p) in AsMap(s) && AsMap(s)[Key(p)] == s[i].action
  {
    hide AsMap, Key, AllAlike;
    AsMapOf(s, Key(p));
    forall i | 0 <= i < |s| ensures AllAlike(s[i].properties, p) <==> Key(s[i].properties) == Key(p) {
      KeyIsAlike(s[i].properties, p);
    }
  }

  /** Adding takes out the filter with these names, whatever their case, keeps all others and adds the new one. */
  lemma AddedByName(s: seq<Filter>, f: Filter, g: Filter)
    requires ValidFilters(s)
    ensures g in Added(s, f) <==>
            || (g in s && !AllAlike(g.properties, f.properties))
            || (g == f && f.action != NoAction
                && (|s| < 16 || exists i :: 0 <= i < |s| && AllAlike(s[i].properties, f.properties)))
  {
    hide AsMap, Key, AllAlike, SwapDelete, ValidFilters;
    SwapDeleteMembers(s, HasKey(Key(f.properties)), g);
    KeyIsAlike(g.properties, f.properties);
    AddFits(s, f);
    FoundByName(s, f.properties);
  }

  /** A pattern takes out the filters whose names are those it gives, whatever their case. */
  lemma RemovedByName(s: seq<Filter>, pattern: Properties, g: Filter)
    ensures g in SwapDelete(s, IncludedIn(pattern), 0) <==>
            g in s && exists j :: 0 <= j < 4 && pattern[j].Some? && !Alike(pattern[j], g.properties[j])
  {
    hide SwapDelete, Same, Alike;
    SwapDeleteMembers(s, IncludedIn(pattern), g);
    forall j | 0 <= j < 4 ensures Same(pattern[j], g.properties[j]) <==> Alike(pattern[j], g.properties[j]) {
      SameIsAlike(pattern[j], g.properties[j]);
    }
  }

  /** A filter matches if the names that both give are alike. */
  lemma MatchesByName(f: Filter, context: Context)
    ensures Matches(f, context) <==>
            forall j :: 0 <= j < 4 && f.properties[j].Some? && context[j].Some? ==> Alike(f.properties[j], context[j])
  {
    hide Same, Alike;
    forall j | 0 <= j < 4 ensures Same(f.properties[j], context[j]) <==> Alike(f.properties[j], context[j]) {
      SameIsAlike(f.properties[j], context[j]);
    }
  }

  /** The score is the number of properties that both give. */
  lemma {:induction false} ScoreCounts(f: Filter, context: Context, n: nat)
    requires n <= 4
    ensures Score(f, context, n) == |set j | 0 <= j < n && f.properties[j].Some? && context[j].Some?|
  {
    if n > 0 {
      ScoreCounts(f, context, n - 1);
      var before := set j | 0 <= j < n - 1 && f.properties[j].Some? && context[j].Some?;
      var all := set j | 0 <= j < n && f.properties[j].Some? && context[j].Some?;
      assert all == if f.properties[n - 1].Some? && context[n - 1].Some? then before + {n - 1} else before;
    }
  }

  // ----- case never shows -----

  /** The same filters, their names in whatever case. */
  predicate AlikeLists(s: seq<Filter>, t: seq<Filter>) {
    |s| == |t|
    && forall i :: 0 <= i < |s| ==> AllAlike(s[i].properties, t[i].properties) && s[i].action == t[i].action
  }

  lemma {:induction false} SameMap(s: seq<Filter>, t: seq<Filter>)
    requires AlikeLists(s, t)
    ensures AsMap(s) == AsMap(t) && (UniqueKeys(s) <==> UniqueKeys(t)) && (ValidFilters(s) <==> ValidFilters(t))
  {
    hide Key, AllAlike;
    forall i | 0 <= i < |s| ensures Key(s[i].properties) == Key(t[i].properties) {
      KeyIsAlike(s[i].properties, t[i].properties);
    }
    SameKeysSameMap(s, t);
    hide AsMap;
  }

  lemma {:induction false} SameKeysSameMap(s: seq<Filter>, t: seq<Filter>)
    requires |s| == |t|
    requires forall i :: 0 <= i < |s| ==> Key(s[i].properties) == Key(t[i].properties) && s[i].action == t[i].action
    ensures AsMap(s) == AsMap(t)
  {
    hide Key;
    if s != [] {
      SameKeysSameMap(s[..|s| - 1], t[..|t| - 1]);
    }
  }

  /** Neither the names asked for nor those in the list need be written in the same case to be found. */
  lemma LookupIgnoresCase(s: seq<Filter>, t: seq<Filter>, p: Properties, q: Properties)
    requires AlikeLists(s, t) && AllAlike(p, q)
    ensures Key(p) == Key(q) && AsMap(s) == AsMap(t)
  {
    hide AsMap, Key, AllAlike;
    SameMap(s, t);
    KeyIsAlike(p, q);
  }

  /** Adding under names in another case, to a list with names in another case, gives the same map. */
  lemma AddingIgnoresCase(s: seq<Filter>, t: seq<Filter>, f: Filter, g: Filter)
    requires ValidFilters(s) && AlikeLists(s, t) && AllAlike(f.properties, g.properties) && f.action == g.action
    ensures ValidFilters(t) && AsMap(Added(s, f)) == AsMap(Added(t, g))
  {
    hide AsMap, Key, AllAlike, Added;
    SameMap(s, t);
    KeyIsAlike(f.properties, g.properties);
    AddedOnMap(s, f);
    AddedOnMap(t, g);
  }

  /** And so does the matching action, in a context with names in another case. */
  lemma MatchingIgnoresCase(s: seq<Filter>, t: seq<Filter>, c: Context, d: Context)
    requires AlikeLists(s, t) && AllAlike(c, d)
    ensures MatchingAction(s, c) == MatchingAction(t, d)
  {
    hide Matches, Score, AllAlike;
    forall i | 0 <= i < |s|
      ensures Matches(s[i], c) == Matches(t[i], d) && Score(s[i], c) == Score(t[i], d)
    {
      OneIgnoresCase(s[i], t[i], c, d);
    }
    MatchFromAgrees(s, t, c, d, 0, NoAction, 0);
  }

  lemma OneIgnoresCase(f: Filter, g: Filter, c: Context, d: Context)
    requires AllAlike(f.properties, g.properties) && AllAlike(c, d)
    ensures Matches(f, c) == Matches(g, d) && Score(f, c) == Score(g, d)
  {
    forall j | 0 <= j < 4
      ensures Folded(f.properties[j]) == Folded(g.properties[j]) && Folded(c[j]) == Folded(d[j])
    {
      SameIsAlike(f.properties[j], g.properties[j]);
      SameIsAlike(c[j], d[j]);
    }
    hide Alike, Lower;
    ScoreAgrees(f, g, c, d, 4);
  }

  lemma {:induction false} ScoreAgrees(f: Filter, g: Filter, c: Context, d: Context, n: nat)
    requires n <= 4
    requires forall j :: 0 <= j < 4 ==> f.properties[j].Some? == g.properties[j].Some? && c[j].Some? == d[j].Some?
    ensures Score(f, c, n) == Score(g, d, n)
  {
    if n > 0 {
      ScoreAgrees(f, g, c, d, n - 1);
    }
  }

  lemma {:induction false} MatchFromAgrees(
    s: seq<Filter>, t: seq<Filter>, c: Context, d: Context, i: nat, result: Action, bestScore: nat)
    requires i <= |s| == |t|
    requires forall k :: 0 <= k < |s| ==>
               s[k].action == t[k].action && Matches(s[k], c) == Matches(t[k], d) && Score(s[k], c) == Score(t[k], d)
    ensures MatchFrom(s, c, i, result, bestScore) == MatchFrom(t, d, i, result, bestScore)
    decreases |s| - i
  {
    hide Matches, Score;
    if i < |s| {
      if Rank(result) < Rank(s[i].action) && Matches(s[i], c) && bestScore <= Score(s[i], c) {
        MatchFromAgrees(s, t, c, d, i + 1, s[i].action, Score(s[i], c));
      } else {
        MatchFromAgrees(s, t, c, d, i + 1, result, bestScore);
      }
    }
  }

  /** The default list: warnings are found and replaced under their name in capitals. */
  lemma WarnInCapitals()
    ensures var capitals: Properties := [Some("WARN"), None, None, None];
            && Key(capitals) in AsMap([DEFAULT_FILTER]) && AsMap([DEFAULT_FILTER])[Key(capitals)] == PrintAction
            && Added([DEFAULT_FILTER], Filter(capitals, BreakAction)) == [Filter(capitals, BreakAction)]
  {
    var capitals: Properties := [Some("WARN"), None, None, None];
    var s := [DEFAULT_FILTER];
    CapitalsAlike();
    OnlyOne(s, DEFAULT_FILTER);
    KeyIsAlike(DEFAULT_FILTER.properties, capitals);
    hide Key, AllAlike, AsMap;
    assert s[0 := s[0]][..0] == [];
    assert SwapDelete(s, HasKey(Key(capitals)), 0) == SwapDelete([], HasKey(Key(capitals)), 0) == [];
  }

  lemma CapitalsAlike()
    ensures AllAlike(DEFAULT_FILTER.properties, [Some("WARN"), None, None, None])
  {
    var a, b := "warn", "WARN";
    assert a[0] == 'w' && a[1] == 'a' && a[2] == 'r' && a[3] == 'n';
    assert b[0] == 'W' && b[1] == 'A' && b[2] == 'R' && b[3] == 'N';
  }
}
