/**
 Texts in the bytes of a document: the texts of their tokens with spaces between. And that the reader forms
 just these tokens.
 */
module JsonStands {
  import opened CText
  import opened JsonNumber
  import opened JsonLexer
  import opened JsonString
  import opened JsonGrammar
  import opened JsonLayout
  import opened JsonRfc

  predicate AreSpaces(doc: string, p: nat, q: nat) {
    p <= q <= |doc| && forall i :: p <= i < q ==> IsSpace(doc[i])
  }

  /** From `start` on stands the text of `l`; a number does not go on behind it. */
  predicate WordAt(doc: string, start: nat, l: Lexeme) {
    StartsAt(doc, start, l.text) && (l.kind == NumberToken ==> !IsNumberChar(At(doc, start + |l.text|)))
  }

  /** Between `p` and `q` stand the texts of `ts`, with nothing but spaces before and between them. */
  ghost predicate StandsAt(doc: string, p: nat, ts: seq<Lexeme>, q: nat)
    decreases |ts|
  {
    if ts == [] then p == q
    else
      exists start: nat :: AreSpaces(doc, p, start) && WordAt(doc, start, ts[0])
        && StandsAt(doc, start + |ts[0].text|, ts[1..], q)
  }

  // ----- one token -----

  /** A text of the standard is read as one token, wherever it stands. */
  lemma WordIsToken(doc: string, start: nat, l: Lexeme)
    requires IsRfcLexeme(l) && WordAt(doc, start, l)
    ensures Lexes(doc, start, [l], start + |l.text|)
  {
    hide Lexes, IsRfcString, IsRfcNumber, QuotedUnits, StartsAt;
    assert [l][0] == l;
    match l.kind
    case NumberToken =>
      RfcNumberIsToken(l.text);
      NumberTokenHere(doc, start, l.text);
    case StringToken =>
      var us :| IsRfcString(us) && l.text == QuotedUnits(us);
      RfcUnitsValid(us);
      StringTokenHere(doc, start, us);
    case TrueToken => WordToken(doc, start, l.text, l.kind);
    case FalseToken => WordToken(doc, start, l.text, l.kind);
    case NullToken => WordToken(doc, start, l.text, l.kind);
    case _ =>
      PunctuationToken(doc, start, l.text, l.kind);
  }

  lemma {:induction false} SpacesBefore(doc: string, p: nat)
    requires p <= |doc|
    ensures AreSpaces(doc, p, AfterSpaces(doc, p))
    decreases |doc| - p
  {
    if p < |doc| && IsSpace(doc[p]) {
      SpacesBefore(doc, p + 1);
    }
  }

  /** What the reader takes for a number ends before a character that is none of a number's. */
  lemma NumberStops(doc: string, p: nat)
    requires p <= |doc| && TokenAt(doc, p).kind == NumberToken
    ensures !IsNumberChar(At(doc, TokenAt(doc, p).end))
  {
    hide AfterSpaces, AfterString, AfterComment, AfterWord;
  }

  lemma TokenIsWord(doc: string, p: nat, l: Lexeme)
    requires p <= |doc| && TokenAt(doc, p).kind == l.kind && doc[TokenAt(doc, p).start..TokenAt(doc, p).end] == l.text
    ensures var start := TokenAt(doc, p).start;
            AreSpaces(doc, p, start) && WordAt(doc, start, l) && start + |l.text| == TokenAt(doc, p).end
  {
    SpacesBefore(doc, p);
    if l.kind == NumberToken {
      NumberStops(doc, p);
    }
    hide TokenHere, AfterSpaces;
  }

  // ----- token sequences -----

  /** Texts of the standard stand between `p` and `q` exactly if the reader's tokens are these texts. */
  lemma {:induction false} StandsIsLexes(doc: string, p: nat, ts: seq<Lexeme>, q: nat)
    requires p <= |doc| && forall i :: 0 <= i < |ts| ==> IsRfcLexeme(ts[i])
    ensures StandsAt(doc, p, ts, q) <==> Lexes(doc, p, ts, q)
    decreases |ts|
  {
    hide TokenAt, IsRfcLexeme, AreSpaces, WordAt;
    if StandsAt(doc, p, ts, q) {
      StandingLexes(doc, p, ts, q);
    }
    if ts != [] && Lexes(doc, p, ts, q) {
      TokenIsWord(doc, p, ts[0]);
      StandsIsLexes(doc, TokenAt(doc, p).end, ts[1..], q);
    }
  }

  lemma {:induction false} StandingLexes(doc: string, p: nat, ts: seq<Lexeme>, q: nat)
    requires p <= |doc| && StandsAt(doc, p, ts, q) && forall i :: 0 <= i < |ts| ==> IsRfcLexeme(ts[i])
    ensures Lexes(doc, p, ts, q)
    decreases |ts|
  {
    hide TokenAt, IsRfcLexeme, AreSpaces, WordAt;
    if ts != [] {
      var l, rest := ts[0], ts[1..];
      var start: nat :| AreSpaces(doc, p, start) && WordAt(doc, start, l)
        && StandsAt(doc, start + |l.text|, rest, q);
      FirstStands(doc, p, start, l);
      StandingLexes(doc, start + |l.text|, rest, q);
      hide Lexes, StandsAt;
      LexesConcat(doc, p, [l], start + |l.text|, rest, q);
      assert ts == [l] + rest;
    }
  }

  lemma FirstStands(doc: string, p: nat, start: nat, l: Lexeme)
    requires IsRfcLexeme(l) && AreSpaces(doc, p, start) && WordAt(doc, start, l)
    ensures start + |l.text| <= |doc| && Lexes(doc, p, [l], start + |l.text|)
  {
    hide Lexes, IsRfcLexeme;
    WordIsToken(doc, start, l);
    LexesAfterSpaces(doc, p, start, [l], start + |l.text|);
  }
}
