/**
 The reader looks no further than the value: text behind it can be replaced by any other.
 */
module JsonTrailing {
  import opened CText
  import opened JsonValue
  import opened JsonNumber
  import opened JsonLexer
  import opened JsonString
  import opened JsonParser
  import opened JsonSyntax
  import opened JsonDialect
  import opened JsonAccepted
  import opened JsonRfc

  /** Up to `q` the documents are the same. */
  predicate SameUpTo(doc: string, other: string, q: nat) {
    q <= |doc| && q <= |other| && doc[..q] == other[..q]
  }

  lemma SameChar(doc: string, other: string, q: nat, i: nat)
    requires SameUpTo(doc, other, q) && i < q
    ensures doc[i] == other[i]
  {
    assert doc[..q][i] == other[..q][i];
  }

  // ----- single tokens -----

  lemma {:induction false} SameSpaces(doc: string, other: string, q: nat, p: nat)
    requires SameUpTo(doc, other, q) && p <= q && AfterSpaces(doc, p) < q
    ensures AfterSpaces(other, p) == AfterSpaces(doc, p)
    decreases q - p
  {
    SameChar(doc, other, q, p);
    if IsSpace(doc[p]) {
      SameSpaces(doc, other, q, p + 1);
    }
  }

  lemma {:induction false} SameNumber(doc: string, other: string, q: nat, p: nat)
    requires SameUpTo(doc, other, q) && p <= q && AfterNumber(doc, p) <= q
    requires AfterNumber(doc, p) == q ==> !IsNumberChar(At(other, q))
    ensures AfterNumber(other, p) == AfterNumber(doc, p)
    decreases q - p
  {
    if p < q {
      SameChar(doc, other, q, p);
      if IsNumberChar(doc[p]) {
        SameNumber(doc, other, q, p + 1);
      }
    }
  }

  lemma {:induction false} SameString(doc: string, other: string, q: nat, p: nat)
    requires SameUpTo(doc, other, q) && p <= q && AfterString(doc, p).ok && AfterString(doc, p).end <= q
    ensures AfterString(other, p) == AfterString(doc, p)
    decreases q - p
  {
    SameChar(doc, other, q, p);
    if doc[p] == '\\' {
      SameString(doc, other, q, p + 2);
    } else if doc[p] != '"' {
      SameString(doc, other, q, p + 1);
    }
  }

  lemma {:induction false} OpenString(doc: string, p: nat)
    requires p <= |doc| && !AfterString(doc, p).ok
    ensures AfterString(doc, p).end == |doc|
    decreases |doc| - p
  {
    if p + 1 < |doc| && doc[p] == '\\' {
      OpenString(doc, p + 2);
    } else if p < |doc| && doc[p] != '\\' {
      OpenString(doc, p + 1);
    }
  }

  lemma {:induction false} SameBlock(doc: string, other: string, q: nat, p: nat)
    requires SameUpTo(doc, other, q) && p <= q
    requires AfterCStyleComment(doc, p).ok && AfterCStyleComment(doc, p).end <= q
    ensures AfterCStyleComment(other, p) == AfterCStyleComment(doc, p)
    decreases q - p
  {
    BlockEnds(doc, p);
    SameChar(doc, other, q, p);
    SameChar(doc, other, q, p + 1);
    if !(doc[p] == '*' && doc[p + 1] == '/') {
      SameBlock(doc, other, q, p + 1);
    }
  }

  lemma {:induction false} BlockEnds(doc: string, p: nat)
    requires p <= |doc|
    ensures var r := AfterCStyleComment(doc, p); if r.ok then p + 2 <= r.end else r.end == |doc|
    decreases |doc| - p
  {
    if p < |doc| {
      BlockEnds(doc, p + 1);
    }
  }

  lemma {:induction false} SameLine(doc: string, other: string, q: nat, p: nat)
    requires SameUpTo(doc, other, q) && p <= q && AfterCppStyleComment(doc, p) < q
    ensures AfterCppStyleComment(other, p) == AfterCppStyleComment(doc, p)
    decreases q - p
  {
    SameChar(doc, other, q, p);
    if doc[p] != '\r' && doc[p] != '\n' {
      SameLine(doc, other, q, p + 1);
    }
  }

  lemma SameWord(doc: string, other: string, q: nat, p: nat, word: string)
    requires SameUpTo(doc, other, q) && p + |word| <= q && StartsAt(doc, p, word)
    ensures StartsAt(other, p, word)
  {
    assert doc[p..p + |word|] == doc[..q][p..p + |word|];
    assert other[p..p + |word|] == other[..q][p..p + |word|];
  }

  /** A token that what stands at `q` cannot lengthen or complete. */
  predicate IsSettled(doc: string, other: string, q: nat, t: Token)
    requires q <= |doc| && q <= |other| && t.end <= q
  {
    match t.kind
    case NumberToken => t.end < q || !IsNumberChar(At(other, q))
    case Comment => t.end < q
    case ErrorToken => t.end < q && doc[t.end] !in {'r', 'a', 'u'}
    case _ => true
  }

  lemma SameToken(doc: string, other: string, q: nat, p: nat)
    requires SameUpTo(doc, other, q) && p <= q && TokenAt(doc, p).start < q && TokenAt(doc, p).end <= q
    requires IsSettled(doc, other, q, TokenAt(doc, p))
    ensures TokenAt(other, p) == TokenAt(doc, p)
  {
    SameSpaces(doc, other, q, p);
    SameTokenHere(doc, other, q, AfterSpaces(doc, p));
    hide TokenHere;
  }

  lemma SameTokenHere(doc: string, other: string, q: nat, start: nat)
    requires SameUpTo(doc, other, q) && start < q && TokenHere(doc, start).end <= q
    requires IsSettled(doc, other, q, TokenHere(doc, start))
    ensures TokenHere(other, start) == TokenHere(doc, start)
  {
    hide AfterString, AfterNumber, AfterComment;
    SameChar(doc, other, q, start);
    match doc[start]
    case '"' => SameGradedString(doc, other, q, start + 1);
    case '/' => SameGradedComment(doc, other, q, start + 1);
    case 't' => SameGradedWord(doc, other, q, start + 1, "rue");
    case 'f' => SameGradedWord(doc, other, q, start + 1, "alse");
    case 'n' => SameGradedWord(doc, other, q, start + 1, "ull");
    case c =>
      if IsDigit(c) || c == '-' {
        SameNumber(doc, other, q, start + 1);
      }
  }

  lemma SameGradedString(doc: string, other: string, q: nat, p: nat)
    requires SameUpTo(doc, other, q) && p <= q
    requires var r := AfterString(doc, p); r.end <= q && (!r.ok ==> r.end < q)
    ensures AfterString(other, p) == AfterString(doc, p)
  {
    if AfterString(doc, p).ok {
      SameString(doc, other, q, p);
    } else {
      OpenString(doc, p);
    }
  }

  lemma SameGradedComment(doc: string, other: string, q: nat, p: nat)
    requires SameUpTo(doc, other, q) && p <= q && AfterComment(doc, p).end < q
    ensures AfterComment(other, p) == AfterComment(doc, p)
  {
    SameChar(doc, other, q, p);
    if doc[p] == '*' {
      BlockEnds(doc, p + 1);
      SameBlock(doc, other, q, p + 1);
    } else if doc[p] == '/' {
      SameLine(doc, other, q, p + 1);
    }
  }

  lemma SameGradedWord(doc: string, other: string, q: nat, p: nat, word: string)
    requires SameUpTo(doc, other, q) && p <= q && AfterWord(doc, p, word).end <= q
    requires word != "" && word[0] in {'r', 'a', 'u'}
    requires !AfterWord(doc, p, word).ok ==> p < q && doc[p] !in {'r', 'a', 'u'}
    ensures AfterWord(other, p, word) == AfterWord(doc, p, word)
  {
    if StartsAt(doc, p, word) {
      SameWord(doc, other, q, p, word);
    } else {
      SameChar(doc, other, q, p);
      if StartsAt(other, p, word) {
        StartsAtIndex(other, p, word, 0);
      }
    }
  }

  // ----- runs of tokens -----

  /** Error tokens serve as separators only: a comment, a name or a brace follows. */
  ghost predicate ErrorsFollowed(ts: seq<Lexeme>) {
    forall i: nat :: ErrorAt(ts, i) ==> i + 1 < |ts| && ts[i + 1].kind in {StringToken, Comment, ObjectEnd}
  }

  predicate ErrorAt(ts: seq<Lexeme>, i: nat) {
    i < |ts| && ts[i].kind == ErrorToken
  }

  predicate EndsWell(ts: seq<Lexeme>) {
    ts != [] && ts[|ts| - 1].kind !in {ErrorToken, Comment, EndOfStream}
  }

  lemma FollowedConcat(a: seq<Lexeme>, b: seq<Lexeme>)
    requires ErrorsFollowed(a) && ErrorsFollowed(b)
    ensures ErrorsFollowed(a + b)
  {
    forall i: nat | ErrorAt(a + b, i)
      ensures i + 1 < |a + b| && (a + b)[i + 1].kind in {StringToken, Comment, ObjectEnd}
    {
      if i < |a| {
        assert ErrorAt(a, i);
      } else {
        assert ErrorAt(b, i - |a|);
      }
    }
  }

  lemma NoErrors(ts: seq<Lexeme>)
    requires forall i :: 0 <= i < |ts| ==> ts[i].kind != ErrorToken
    ensures ErrorsFollowed(ts)
  {
  }

  lemma NextChar(doc: string, p: nat)
    requires p <= |doc| && TokenAt(doc, p).kind in {StringToken, Comment, ObjectEnd}
    ensures p < |doc| && doc[p] !in {'r', 'a', 'u'}
  {
    hide AfterString, AfterNumber, AfterComment, AfterWord;
  }

  lemma {:induction false} SameTokens(doc: string, other: string, q: nat, p: nat, ts: seq<Lexeme>)
    requires SameUpTo(doc, other, q) && p <= q && Lexes(doc, p, ts, q) && ErrorsFollowed(ts)
    requires ts == [] || EndsWell(ts)
    requires ts != [] && ts[|ts| - 1].kind == NumberToken ==> !IsNumberChar(At(other, q))
    ensures Lexes(other, p, ts, q)
    decreases |ts|
  {
    if ts != [] {
      hide TokenHere, AfterSpaces;
      var t, rest := TokenAt(doc, p), ts[1..];
      assert forall i: nat :: ErrorAt(rest, i) ==> ErrorAt(ts, i + 1);
      if rest != [] {
        TokensAdvance(doc, t.end, rest, q);
        if t.kind == ErrorToken {
          assert ErrorAt(ts, 0) && rest[0] == ts[1];
          NextChar(doc, t.end);
        }
      }
      SameToken(doc, other, q, p);
      assert doc[t.start..t.end] == other[t.start..t.end] by {
        assert doc[t.start..t.end] == doc[..q][t.start..t.end] && other[t.start..t.end] == other[..q][t.start..t.end];
      }
      SameTokens(doc, other, q, t.end, rest);
    }
  }

  // ----- texts -----

  predicate IsNumber(v: Value) {
    v.IntVal? || v.UIntVal? || v.RealVal?
  }

  /** Only a number ends in a number. */
  lemma EndsInNumber(scan: Scan, r: Raw)
    requires ValidRaw(r) && Reading(scan, r).Some?
    requires RawTokens(r) != [] && RawTokens(r)[|RawTokens(r)| - 1].kind == NumberToken
    ensures IsNumber(Reading(scan, r).value)
  {
    RawIsSolid(r);
  }

  lemma {:induction false} RawSettles(r: Raw)
    requires ValidRaw(r)
    ensures ErrorsFollowed(RawTokens(r)) && EndsWell(RawTokens(r))
    decreases r
  {
    hide ErrorsFollowed, SyntaxTokens, QuotedUnits;
    NoErrors(r.before);
    match r
    case RawScalar(before, text) =>
      ScalarSettles(text);
      FollowedConcat(before, SyntaxTokens(text));
    case RawArray(before, items) =>
      var rest := if items.None? then CLOSE_ARRAY else RawItemsTokens(items.value);
      if items.Some? {
        RawItemsSettle(items.value);
      } else {
        NoErrors(CLOSE_ARRAY);
      }
      NoErrors(OPEN_ARRAY);
      FollowedConcat(OPEN_ARRAY, rest);
      FollowedConcat(before, OPEN_ARRAY + rest);
    case RawObject(before, members) =>
      RawMembersSettle(members);
      NoErrors(OPEN_OBJECT);
      FollowedConcat(OPEN_OBJECT, RawMembersTokens(members));
      FollowedConcat(before, OPEN_OBJECT + RawMembersTokens(members));
  }

  lemma ScalarSettles(text: Syntax)
    requires IsScalar(text)
    ensures ErrorsFollowed(SyntaxTokens(text)) && EndsWell(SyntaxTokens(text))
  {
    hide QuotedUnits, IsNumberToken;
    NoErrors(SyntaxTokens(text));
  }

  lemma {:induction false} RawItemsSettle(items: RawItems)
    requires ValidRawItems(items)
    ensures ErrorsFollowed(RawItemsTokens(items)) && EndsWell(RawItemsTokens(items))
    decreases items
  {
    hide ErrorsFollowed, RawTokens, ValidRaw;
    RawSettles(items.value);
    NoErrors(items.after);
    NoErrors(CLOSE_ARRAY);
    NoErrors(COMMA);
    var mark := if items.LastItem? then CLOSE_ARRAY else COMMA + RawItemsTokens(items.rest);
    if items.MoreItems? {
      RawItemsSettle(items.rest);
      FollowedConcat(COMMA, RawItemsTokens(items.rest));
    }
    FollowedConcat(items.after, mark);
    FollowedConcat(RawTokens(items.value), items.after + mark);
  }

  lemma {:induction false} RawMembersSettle(members: RawMembers)
    requires ValidRawMembers(members)
    ensures ErrorsFollowed(RawMembersTokens(members)) && EndsWell(RawMembersTokens(members))
    ensures RawMembersTokens(members)[0].kind in {StringToken, Comment, ObjectEnd}
    decreases members
  {
    hide ErrorsFollowed, RawTokens, ValidRaw, QuotedUnits, ValidUnits;
    NoErrors(members.before);
    NoErrors(CLOSE_OBJECT);
    if members.Closed? {
      FollowedConcat(members.before, CLOSE_OBJECT);
    } else {
      var name, value, end := NameTokens(members.name), RawTokens(members.value), members.end;
      RawSettles(members.value);
      NoErrors(name);
      NoErrors(members.after);
      if end.Separator? {
        RawMembersSettle(end.rest);
        MarkSettles(end.mark, RawMembersTokens(end.rest));
      }
      MemberSettles(members.before, name, value, members.after, RawEndTokens(end));
    }
  }

  lemma MemberSettles(
    before: seq<Lexeme>, name: seq<Lexeme>, value: seq<Lexeme>, after: seq<Lexeme>, end: seq<Lexeme>)
    requires ErrorsFollowed(before) && ErrorsFollowed(name) && ErrorsFollowed(value) && ErrorsFollowed(after)
    requires ErrorsFollowed(end)
    ensures ErrorsFollowed(before + (name + (COLON + (value + (after + end)))))
  {
    hide ErrorsFollowed;
    NoErrors(COLON);
    var tail := after + end;
    FollowedConcat(after, end);
    FollowedConcat(value, tail);
    FollowedConcat(COLON, value + tail);
    FollowedConcat(name, COLON + (value + tail));
    FollowedConcat(before, name + (COLON + (value + tail)));
  }

  lemma MarkSettles(mark: Lexeme, rest: seq<Lexeme>)
    requires ErrorsFollowed(rest) && rest != [] && rest[0].kind in {StringToken, Comment, ObjectEnd}
    ensures ErrorsFollowed([mark] + rest)
  {
    var ts := [mark] + rest;
    forall i: nat | ErrorAt(ts, i) ensures i + 1 < |ts| && ts[i + 1].kind in {StringToken, Comment, ObjectEnd} {
      assert i > 0 ==> ErrorAt(rest, i - 1);
    }
  }

  // ----- any text behind the value -----

  /**
   Whatever document was accepted, and whatever text takes the place of what stands behind its value: the
   value is read again, unless it is a number that this text lengthens.
   */
  lemma TrailingTextIgnored(cfg: Config, doc: string, root: Value, rest: string)
    requires ParseDocument(cfg, doc, root).ok
    ensures var o := ParseValue(cfg, doc, 0, root);
            (IsNumber(o.value) ==> rest == "" || !IsNumberChar(rest[0])) ==>
              && ParseDocument(cfg, doc[..o.pos] + rest, root).ok
              && ParseDocument(cfg, doc[..o.pos] + rest, root).value == ParseDocument(cfg, doc, root).value
  {
    hide ParseValue, Lexes, RawTokens, ValidRaw, Reading, IsBare;
    var o := ParseValue(cfg, doc, 0, root);
    var other := doc[..o.pos] + rest;
    if IsNumber(o.value) ==> rest == "" || !IsNumberChar(rest[0]) {
      var r := ValueAccepted(cfg, doc, 0, root);
      RawSettles(r);
      if RawTokens(r)[|RawTokens(r)| - 1].kind == NumberToken {
        EndsInNumber(cfg.scan, r);
      }
      assert At(other, o.pos) == if rest == "" then '\0' else rest[0];
      SameTokens(doc, other, o.pos, 0, RawTokens(r));
      assert IsRawAt(cfg, other, 0, r, o.pos, o.value);
      AcceptsDocuments(cfg, other, root, o.value);
    }
  }
}
