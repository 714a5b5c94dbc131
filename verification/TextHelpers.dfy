/**
 The string helpers: splitting at a delimiter and replacing every occurrence.
 */
module TextHelpers {
  import opened CText

  /** The parts with `separator` between them. */
  function Joined(parts: seq<string>, separator: string): string {
    if parts == [] then ""
    else if |parts| == 1 then parts[0]
    else parts[0] + separator + Joined(parts[1..], separator)
  }

  // ----- splitting -----

  /** Where the first `c` at or after `i` is, or the end. */
  function IndexOf(s: string, c: char, i: nat): (k: nat)
    requires i <= |s|
    ensures i <= k <= |s| && (forall j :: i <= j < k ==> s[j] != c) && (k < |s| ==> s[k] == c)
    decreases |s| - i
  {
    if i == |s| || s[i] == c then i else IndexOf(s, c, i + 1)
  }

  /** The non-empty pieces of `s` from `i` on between delimiters. */
  function PiecesFrom(s: string, delimiter: char, i: nat): seq<string>
    requires i <= |s|
    decreases |s| - i
  {
    var k := IndexOf(s, delimiter, i);
    var piece := if k > i then [s[i..k]] else [];
    if k == |s| then piece else piece + PiecesFrom(s, delimiter, k + 1)
  }

  function Pieces(s: string, delimiter: char): seq<string> {
    PiecesFrom(s, delimiter, 0)
  }

  predicate IsPiece(s: string, delimiter: char) {
    s != "" && delimiter !in s
  }

  /** What follows the first piece. */
  function AfterPiece(s: string, delimiter: char, i: nat): seq<string>
    requires i <= |s|
  {
    var k := IndexOf(s, delimiter, i);
    if k == |s| then [] else PiecesFrom(s, delimiter, k + 1)
  }

  lemma FirstPiece(s: string, delimiter: char, i: nat)
    requires i <= |s|
    ensures var piece, pieces := s[i..IndexOf(s, delimiter, i)], PiecesFrom(s, delimiter, i);
            var rest := AfterPiece(s, delimiter, i);
            && pieces == (if piece != "" then [piece] + rest else rest)
            && (piece != "" ==> IsPiece(piece, delimiter))
  {
  }

  /** `getline` on a stream at `position`; the stream stays good if it meets the delimiter. */
  method GetLine(s: string, position: nat, delimiter: char) returns (line: string, next: nat, good: bool)
    requires position <= |s|
    ensures var k := IndexOf(s, delimiter, position);
            line == s[position..k] && good == (k < |s|) && next == if good then k + 1 else k
  {
    line, next := "", position;
    while next < |s|
      invariant position <= next <= |s| && line == s[position..next]
      invariant IndexOf(s, delimiter, next) == IndexOf(s, delimiter, position)
    {
      var c := s[next];
      next := next + 1;
      if c == delimiter {
        return line, next, true;
      }
      line := line + [c];
    }
    good := false;
  }

  method SeparateString(str: string, delimiter: char) returns (result: seq<string>)
    ensures result == Pieces(str, delimiter)
  {
    hide PiecesFrom, IndexOf, IsPiece;
    result := [];
    var position, good := 0, true;
    while good
      invariant position <= |str|
      invariant if good then Pieces(str, delimiter) == result + PiecesFrom(str, delimiter, position)
                else Pieces(str, delimiter) == result
      decreases good, |str| - position
    {
      FirstPiece(str, delimiter, position);
      var line, next, more := GetLine(str, position, delimiter);
      if |line| > 0 {
        result := result + [line];
      }
      position, good := next, more;
    }
  }

  function Without(s: string, c: char): string {
    if s == "" then ""
    else if s[|s| - 1] == c then Without(s[..|s| - 1], c)
    else Without(s[..|s| - 1], c) + [s[|s| - 1]]
  }

  /** The pieces are non-empty, free of the delimiter, and together all the other characters, in order. */
  lemma {:induction false} PiecesCover(s: string, delimiter: char, i: nat)
    requires i <= |s|
    ensures var pieces := PiecesFrom(s, delimiter, i);
            && (forall p :: p in pieces ==> IsPiece(p, delimiter))
            && Without(s[..i], delimiter) + Joined(pieces, "") == Without(s, delimiter)
    decreases |s| - i
  {
    hide PiecesFrom, Without, Joined, IsPiece;
    var k := IndexOf(s, delimiter, i);
    var rest := AfterPiece(s, delimiter, i);
    FirstPiece(s, delimiter, i);
    FirstJoined(s[i..k], rest);
    JoinedNone();
    UpToPiece(s, delimiter, i);
    Associative(Without(s[..i], delimiter), s[i..k], Joined(rest, ""));
    if k < |s| {
      PiecesCover(s, delimiter, k + 1);
    }
  }

  lemma FirstJoined(piece: string, rest: seq<string>)
    ensures Joined(if piece != "" then [piece] + rest else rest, "") == piece + Joined(rest, "")
  {
    if piece != "" {
      JoinedFirst(piece, rest, "");
      JoinedNone();
      hide Joined;
      assert piece + "" == piece;
    } else {
      assert piece + Joined(rest, "") == Joined(rest, "");
    }
  }

  lemma JoinedNone()
    ensures Joined([], "") == ""
  {
  }

  lemma UpToPiece(s: string, delimiter: char, i: nat)
    requires i <= |s|
    ensures var k := IndexOf(s, delimiter, i);
            Without(s[..i], delimiter) + s[i..k]
            == if k < |s| then Without(s[..k + 1], delimiter) else Without(s, delimiter)
  {
    var k := IndexOf(s, delimiter, i);
    WithoutNone(s, delimiter, i, k);
    if k < |s| {
      assert s[..k + 1][..k] == s[..k];
    } else {
      assert s[..k] == s;
    }
  }

  lemma {:induction false} WithoutNone(s: string, c: char, i: nat, k: nat)
    requires i <= k <= |s| && forall j :: i <= j < k ==> s[j] != c
    ensures Without(s[..k], c) == Without(s[..i], c) + s[i..k]
    decreases k
  {
    if i < k {
      WithoutNone(s, c, i, k - 1);
      assert s[..k][..k - 1] == s[..k - 1];
      assert s[i..k] == s[i..k - 1] + [s[k - 1]];
    }
  }

  lemma JoinedFirst(first: string, rest: seq<string>, separator: string)
    ensures Joined([first] + rest, separator)
            == if rest == [] then first else first + separator + Joined(rest, separator)
  {
    assert ([first] + rest)[1..] == rest;
  }

  lemma {:induction false} PiecesShifted(prefix: string, s: string, delimiter: char, i: nat)
    requires i <= |s|
    ensures PiecesFrom(prefix + s, delimiter, |prefix| + i) == PiecesFrom(s, delimiter, i)
    decreases |s| - i
  {
    IndexShifted(prefix, s, delimiter, i);
    var k := IndexOf(s, delimiter, i);
    assert (prefix + s)[|prefix| + i..|prefix| + k] == s[i..k];
    if k < |s| {
      PiecesShifted(prefix, s, delimiter, k + 1);
    }
  }

  lemma {:induction false} IndexShifted(prefix: string, s: string, c: char, i: nat)
    requires i <= |s|
    ensures IndexOf(prefix + s, c, |prefix| + i) == |prefix| + IndexOf(s, c, i)
    decreases |s| - i
  {
    if i < |s| && s[i] != c {
      IndexShifted(prefix, s, c, i + 1);
    }
  }

  /**
   Splitting a string at a delimiter splits both sides alone. With the pieces of a string that has no
   delimiter, itself unless it is empty, this says what the pieces of every string are.
   */
  lemma SplitsAtDelimiter(a: string, b: string, delimiter: char)
    ensures Pieces(a + [delimiter] + b, delimiter) == Pieces(a, delimiter) + Pieces(b, delimiter)
    ensures delimiter !in a ==> Pieces(a, delimiter) == if a == "" then [] else [a]
  {
    SplitsFrom(a, b, delimiter, 0);
    if delimiter !in a {
      FirstDelimiter(a, "", delimiter);
      assert a + "" == a && a[0..|a|] == a;
    }
  }

  lemma {:induction false} SplitsFrom(a: string, b: string, delimiter: char, i: nat)
    requires i <= |a|
    ensures PiecesFrom(a + [delimiter] + b, delimiter, i) == PiecesFrom(a, delimiter, i) + Pieces(b, delimiter)
    decreases |a| - i
  {
    hide PiecesFrom, IndexOf, IsPiece;
    var s, k := a + [delimiter] + b, IndexOf(a, delimiter, i);
    SameIndex(a, s, delimiter, i);
    FirstPiece(s, delimiter, i);
    FirstPiece(a, delimiter, i);
    assert s[i..k] == a[i..k];
    if k == |a| {
      PiecesShifted(a + [delimiter], b, delimiter, 0);
    } else {
      SplitsFrom(a, b, delimiter, k + 1);
    }
  }

  lemma SameIndex(a: string, s: string, c: char, i: nat)
    requires i <= |a| < |s| && s[|a|] == c && a <= s
    ensures IndexOf(s, c, i) == IndexOf(a, c, i)
  {
    assert forall j :: 0 <= j < |a| ==> a[j] == s[j];
  }

  /** Splitting undoes joining, for non-empty parts free of the delimiter. */
  lemma {:induction false} PiecesOfJoined(parts: seq<string>, delimiter: char)
    requires forall p :: p in parts ==> IsPiece(p, delimiter)
    ensures Pieces(Joined(parts, [delimiter]), delimiter) == parts
  {
    if parts != [] {
      var first, rest := parts[0], parts[1..];
      var s := Joined(parts, [delimiter]);
      assert parts == [first] + rest && IsPiece(first, delimiter);
      JoinedFirst(first, rest, [delimiter]);
      if rest == [] {
        FirstDelimiter(first, "", delimiter);
        assert s[0..|first|] == first;
      } else {
        var tail := Joined(rest, [delimiter]);
        PiecesOfJoined(rest, delimiter);
        assert s == first + ([delimiter] + tail) == (first + [delimiter]) + tail;
        FirstDelimiter(first, [delimiter] + tail, delimiter);
        PiecesShifted(first + [delimiter], tail, delimiter, 0);
        assert s[0..|first|] == first;
      }
    }
  }

  lemma FirstDelimiter(first: string, tail: string, delimiter: char)
    requires delimiter !in first && (tail != "" ==> tail[0] == delimiter)
    ensures IndexOf(first + tail, delimiter, 0) == |first|
  {
    var s := first + tail;
    assert forall j :: 0 <= j < |first| ==> s[j] == first[j] && first[j] in first;
    assert tail != "" ==> s[|first|] == delimiter;
  }

  // ----- replacing -----

  /** `find`: the first occurrence of `t` at or after `i`. */
  function Find(s: string, t: string, i: nat): (r: Option<nat>)
    ensures r.Some? ==> i <= r.value <= r.value + |t| <= |s|
    ensures r.Some? ==> StartsAt(s, r.value, t) && forall j :: i <= j < r.value ==> !StartsAt(s, j, t)
    ensures r.None? ==> forall j :: i <= j <= |s| ==> !StartsAt(s, j, t)
    decreases |s| - i
  {
    if i + |t| > |s| then None else if StartsAt(s, i, t) then Some(i) else Find(s, t, i + 1)
  }

  /** What stands between the leftmost occurrences of `from` that do not overlap. */
  function Between(s: string, from: string): (parts: seq<string>)
    requires from != ""
    ensures parts != []
    decreases |s|
  {
    var k := Find(s, from, 0);
    if k.None? then [s] else [s[..k.value]] + Between(s[k.value + |from|..], from)
  }

  /** The parts are the string, cut where `from` stood, and each cut is at the first `from` there is. */
  lemma {:induction false} BetweenCuts(s: string, from: string)
    requires from != ""
    ensures Joined(Between(s, from), from) == s
    ensures forall i :: 0 <= i < |Between(s, from)| ==>
              Find(Joined(Between(s, from)[i..], from), from, 0)
              == if i == |Between(s, from)| - 1 then None else Some(|Between(s, from)[i]|)
    decreases |s|
  {
    var parts := Between(s, from);
    var k := Find(s, from, 0);
    assert parts[0..] == parts;
    if k.Some? {
      var rest := s[k.value + |from|..];
      BetweenCuts(rest, from);
      JoinedFirst(s[..k.value], Between(rest, from), from);
      assert s == s[..k.value] + from + rest;
      forall i | 0 < i < |parts| ensures parts[i..] == Between(rest, from)[i - 1..] {
      }
    }
  }

  /** The first replacement. */
  lemma BetweenStep(s: string, from: string, to: string)
    requires from != ""
    ensures match Find(s, from, 0)
            case Some(k) => Joined(Between(s, from), to) == s[..k] + to + Joined(Between(s[k + |from|..], from), to)
            case None => Joined(Between(s, from), to) == s
  {
    var k := Find(s, from, 0);
    assert k.None? ==> Joined([s], to) == s;
    hide Find, Joined;
    if k.Some? {
      JoinedFirst(s[..k.value], Between(s[k.value + |from|..], from), to);
    }
  }

  /**
   Every leftmost occurrence of `from` is replaced. The source demands nothing of `from`, but with an empty
   one it does not return: see `EndsIfNotEmpty`.
   */
  method ReplaceAll(str: string, from: string, to: string) returns (result: string)
    requires from != ""
    ensures result == Joined(Between(str, from), to)
  {
    hide Find, Between, Joined, StartsAt;
    result := str;
    var startPos := 0;
    ghost var done, rest := "", str;
    while true
      invariant result == done + rest && startPos == |done|
      invariant done + Joined(Between(rest, from), to) == Joined(Between(str, from), to)
      decreases |rest|
    {
      BetweenStep(rest, from, to);
      assert result[startPos..] == rest;
      FindInRest(result, from, startPos);
      var found := Find(result, from, startPos);
      if found.None? {
        break;
      }
      ghost var k := found.value - startPos;
      Replaced(done, rest, k, |from|, to, Joined(Between(rest[k + |from|..], from), to));
      result := result[..found.value] + to + result[found.value + |from|..];
      startPos := found.value + |to|;
      done, rest := done + rest[..k] + to, rest[k + |from|..];
    }
  }

  lemma Replaced(done: string, rest: string, k: nat, n: nat, to: string, tail: string)
    requires k + n <= |rest|
    ensures (done + rest)[..|done| + k] + to + (done + rest)[|done| + k + n..] == done + rest[..k] + to + rest[k + n..]
    ensures done + (rest[..k] + to + tail) == done + rest[..k] + to + tail
  {
  }

  /** Searching from `i` is searching what is left. */
  lemma FindInRest(s: string, t: string, i: nat)
    requires i <= |s|
    ensures Find(s, t, i) == match Find(s[i..], t, 0) case Some(k) => Some(i + k) case None => None
  {
    StartsInRest(s, t, i);
    hide StartsAt;
    var r := Find(s[i..], t, 0);
    var q := Find(s, t, i);
    if r.Some? {
      assert StartsAt(s, i + r.value, t);
    }
    if q.Some? {
      assert StartsAt(s[i..], q.value - i, t);
    }
  }

  lemma StartsInRest(s: string, t: string, i: nat)
    requires i <= |s|
    ensures forall j: nat :: StartsAt(s[i..], j, t) <==> StartsAt(s, i + j, t)
    ensures forall j: nat :: i <= j ==> (StartsAt(s, j, t) <==> StartsAt(s[i..], j - i, t))
    ensures forall j: nat :: StartsAt(s, j, t) ==> j <= |s|
  {
    forall j: nat ensures StartsAt(s[i..], j, t) <==> StartsAt(s, i + j, t) {
      if i + j + |t| <= |s| {
        assert s[i..][j..j + |t|] == s[i + j..i + j + |t|];
      }
    }
  }

  // ----- when the loop ends -----

  /** The string and the position after `n` rounds of the loop, as long as it goes on. */
  function Rounds(s: string, from: string, to: string, n: nat): (r: Option<(string, nat)>)
    ensures r.Some? ==> r.value.1 <= |r.value.0|
  {
    if n == 0 then Some((s, 0))
    else
      match Rounds(s, from, to, n - 1)
      case None => None
      case Some(before) =>
        var found := Find(before.0, from, before.1);
        if found.None? then None
        else Some((before.0[..found.value] + to + before.0[found.value + |from|..], found.value + |to|))
  }

  ghost predicate LoopEnds(s: string, from: string, to: string) {
    exists n: nat :: Rounds(s, from, to, n).None?
  }

  lemma {:induction false} EmptyGoesOn(s: string, to: string, n: nat)
    ensures Rounds(s, "", to, n).Some?
  {
    if n > 0 {
      EmptyGoesOn(s, to, n - 1);
      var before := Rounds(s, "", to, n - 1).value;
      assert StartsAt(before.0, before.1, "");
    }
  }

  lemma {:induction false} RoundsShrink(s: string, from: string, to: string, n: nat)
    requires from != ""
    ensures Rounds(s, from, to, n).Some? ==>
              var (t, p) := Rounds(s, from, to, n).value;
              |t| - p + n <= |s|
  {
    if n > 0 {
      RoundsShrink(s, from, to, n - 1);
    }
  }

  /** The loop ends exactly if there is something to look for, whatever the string and the replacement. */
  lemma EndsIfNotEmpty(s: string, from: string, to: string)
    ensures LoopEnds(s, from, to) <==> from != ""
  {
    if from == "" {
      forall n: nat ensures Rounds(s, from, to, n).Some? {
        EmptyGoesOn(s, to, n);
      }
    } else {
      RoundsShrink(s, from, to, |s| + 1);
      assert Rounds(s, from, to, |s| + 1).None?;
    }
  }
}
