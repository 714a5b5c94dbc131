/**
 The parts of a URL.
 */
module Url {
  import opened CText
  import opened TextHelpers

  type Query = (string, string)

  /** The text behind the first `c`, if there is one. */
  function Behind(s: string, c: char): Option<string> {
    var k := IndexOf(s, c, 0);
    if k == |s| then None else Some(s[k + 1..])
  }

  function Upto(s: string, c: char): string {
    s[..IndexOf(s, c, 0)]
  }

  /** The names and values of the given texts, as far as they have exactly these two pieces. */
  function PairsOf(texts: seq<string>): seq<Query> {
    if texts == [] then []
    else
      var pieces := Pieces(texts[|texts| - 1], '=');
      PairsOf(texts[..|texts| - 1]) + if |pieces| == 2 then [(pieces[0], pieces[1])] else []
  }

  function QueriesOf(url: string): seq<Query> {
    match Behind(url, '?')
    case None => []
    case Some(text) => PairsOf(Pieces(text, '&'))
  }

  /** The value of the first query with this name. */
  function FirstValue(queries: seq<Query>, name: string): string {
    if queries == [] then ""
    else if queries[0].0 == name then queries[0].1
    else FirstValue(queries[1..], name)
  }

  /** What follows the first slash, without the query. */
  function PathOf(url: string): string {
    match Behind(url, '/')
    case None => ""
    case Some(right) => Upto(right, '?')
  }

  class Url {
    const url: string

    constructor (url: string)
      ensures this.url == url
    {
      this.url := url;
    }

    /** `find` of one character; the end stands for `npos`. */
    method FindChar(s: string, c: char) returns (index: nat)
      ensures index == IndexOf(s, c, 0)
    {
      index := 0;
      while index < |s| && s[index] != c
        invariant index <= |s| && IndexOf(s, c, index) == IndexOf(s, c, 0)
      {
        index := index + 1;
      }
    }

    method Path() returns (result: string)
      ensures result == PathOf(url)
    {
      var index := FindChar(url, '/');
      if index == |url| {
        return "";
      }
      index := index + 1;
      var right := url[index..];
      index := FindChar(right, '?');
      if index == |right| {
        return right;
      }
      result := right[..index];
    }

    method Queries() returns (result: seq<Query>)
      ensures result == QueriesOf(url)
    {
      result := [];
      var index := FindChar(url, '?');
      if index == |url| {
        return;
      }
      index := index + 1;
      var texts := SeparateString(url[index..], '&');
      for i := 0 to |texts|
        invariant result == PairsOf(texts[..i])
      {
        assert texts[..i + 1][..i] == texts[..i];
        var keyValue := SeparateString(texts[i], '=');
        if |keyValue| != 2 {
          continue;
        }
        result := result + [(keyValue[0], keyValue[1])];
      }
      assert texts[..|texts|] == texts;
    }

    method Get(parameterName: string) returns (value: string)
      ensures value == FirstValue(QueriesOf(url), parameterName)
    {
      var queries := Queries();
      for i := 0 to |queries|
        invariant FirstValue(queries[i..], parameterName) == FirstValue(queries, parameterName)
      {
        assert queries[i..][1..] == queries[i + 1..];
        if queries[i].0 == parameterName {
          return queries[i].1;
        }
      }
      value := "";
    }
  }

  // ----- building URLs -----

  /** Text that stands on either side of an equals sign. */
  predicate IsQueryText(s: string) {
    s != "" && '&' !in s && '=' !in s
  }

  predicate AreQueries(queries: seq<Query>) {
    forall q :: q in queries ==> IsQueryText(q.0) && IsQueryText(q.1)
  }

  function QueryText(q: Query): string {
    q.0 + "=" + q.1
  }

  function QueryTexts(queries: seq<Query>): (r: seq<string>)
    ensures |r| == |queries| && forall i :: 0 <= i < |r| ==> r[i] == QueryText(queries[i])
  {
    seq(|queries|, i requires 0 <= i < |queries| => QueryText(queries[i]))
  }

  lemma BehindFirst(prefix: string, c: char, s: string)
    requires c !in prefix
    ensures Behind(prefix + [c] + s, c) == Some(s)
    ensures Upto(prefix + [c] + s, c) == prefix && Upto(prefix, c) == prefix
  {
    FirstDelimiter(prefix, [c] + s, c);
    FirstDelimiter(prefix, "", c);
    assert prefix + [c] + s == prefix + ([c] + s) && prefix + "" == prefix;
  }

  /** Reading the queries undoes writing them. */
  lemma QueriesInvertJoining(prefix: string, queries: seq<Query>)
    requires '?' !in prefix && AreQueries(queries)
    ensures QueriesOf(prefix + "?" + Joined(QueryTexts(queries), "&")) == queries
  {
    var texts := QueryTexts(queries);
    BehindFirst(prefix, '?', Joined(texts, "&"));
    forall p | p in texts ensures IsPiece(p, '&') {
    }
    PiecesOfJoined(texts, '&');
    PairsOfTexts(queries);
  }

  lemma {:induction false} PairsOfTexts(queries: seq<Query>)
    requires AreQueries(queries)
    ensures PairsOf(QueryTexts(queries)) == queries
  {
    if queries != [] {
      var n := |queries| - 1;
      PairsOfTexts(queries[..n]);
      assert QueryTexts(queries)[..n] == QueryTexts(queries[..n]);
      PairOfText(queries[n]);
      assert queries == queries[..n] + [queries[n]];
    }
  }

  lemma PairOfText(q: Query)
    requires IsQueryText(q.0) && IsQueryText(q.1)
    ensures Pieces(QueryText(q), '=') == [q.0, q.1]
  {
    PiecesOfJoined([q.0, q.1], '=');
  }

  /** The path lies between the first slash and the next question mark. */
  lemma PathBetween(prefix: string, path: string, rest: string)
    requires '/' !in prefix && '?' !in path
    ensures PathOf(prefix + "/" + path) == path
    ensures PathOf(prefix + "/" + (path + "?" + rest)) == path
    ensures PathOf(prefix) == ""
  {
    BehindFirst(prefix, '/', path);
    BehindFirst(prefix, '/', path + "?" + rest);
    BehindFirst(path, '?', rest);
  }

  predicate Named(queries: seq<Query>, name: string) {
    exists i :: 0 <= i < |queries| && queries[i].0 == name
  }

  /** `get` finds the value of the first query of that name, and nothing for a name that is not there. */
  lemma {:induction false} FirstValueFound(before: seq<Query>, q: Query, after: seq<Query>)
    requires !Named(before, q.0)
    ensures FirstValue(before + [q] + after, q.0) == q.1
    ensures FirstValue(before, q.0) == ""
  {
    var all := before + [q] + after;
    if before != [] {
      assert all[1..] == before[1..] + [q] + after && all[0] == before[0];
      assert !Named(before[1..], q.0) by {
        assert forall i :: 0 <= i < |before| - 1 ==> before[1..][i] == before[i + 1];
      }
      FirstValueFound(before[1..], q, after);
    }
  }

  // ----- texts that are no pairs -----

  lemma {:induction false} PairsConcat(a: seq<string>, b: seq<string>)
    ensures PairsOf(a + b) == PairsOf(a) + PairsOf(b)
    decreases |b|
  {
    hide Pieces;
    if b == [] {
      assert a + b == a;
    } else {
      PairsConcat(a, b[..|b| - 1]);
      assert (a + b)[..|a + b| - 1] == a + b[..|b| - 1];
    }
  }

  /** A text is a query if it has two non-empty pieces between its equals signs; any other is passed over. */
  lemma OnlyPairs(before: seq<string>, parts: seq<string>, after: seq<string>)
    requires forall p :: p in parts ==> IsPiece(p, '=')
    ensures PairsOf(before + [Joined(parts, "=")] + after)
            == PairsOf(before) + (if |parts| == 2 then [(parts[0], parts[1])] else []) + PairsOf(after)
  {
    var text := Joined(parts, "=");
    PairsConcat(before + [text], after);
    PairsConcat(before, [text]);
    PiecesOfJoined(parts, '=');
    assert [text][..0] == [];
    hide Pieces, Joined, IsPiece;
    assert PairsOf([text]) == if |parts| == 2 then [(parts[0], parts[1])] else [];
  }

  /** Without a question mark there are none. */
  lemma NoQueries(url: string)
    requires '?' !in url
    ensures QueriesOf(url) == []
  {
    FirstDelimiter(url, "", '?');
    assert url + "" == url;
  }
}
