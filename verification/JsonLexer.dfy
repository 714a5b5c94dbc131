/**
 Where the reader's cursor goes: spaces, comments, strings, numbers and the token at a position.

 Positions index the document; `|doc|` is the end. The functions say what the cursor loops of
 `Reader` compute; the lemmas say what they read off a text that is known to stand in the document.
 */
module JsonLexer {
  import opened CText
  import opened JsonNumber

  datatype TokenType =
    | EndOfStream | ObjectBegin | ObjectEnd | ArrayBegin | ArrayEnd | StringToken | NumberToken
    | TrueToken | FalseToken | NullToken | ArraySeparator | MemberSeparator | Comment | ErrorToken

  datatype Token = Token(kind: TokenType, start: nat, end: nat)

  /** A cursor position with the success of the scan that led to it. */
  datatype Scanned = Scanned(end: nat, ok: bool)

  function AfterSpaces(doc: string, p: nat): (q: nat)
    requires p <= |doc|
    ensures p <= q <= |doc|
    ensures !IsSpace(At(doc, q))
    decreases |doc| - p
  {
    if p < |doc| && IsSpace(doc[p]) then AfterSpaces(doc, p + 1) else p
  }

  function AfterNumber(doc: string, p: nat): (q: nat)
    requires p <= |doc|
    ensures p <= q <= |doc|
    ensures !IsNumberChar(At(doc, q))
    ensures forall i :: p <= i < q ==> IsNumberChar(doc[i])
    decreases |doc| - p
  {
    if p < |doc| && IsNumberChar(doc[p]) then AfterNumber(doc, p + 1) else p
  }

  /** From just after the opening quote to just after the closing one; an escaped character is skipped. */
  function AfterString(doc: string, p: nat): (r: Scanned)
    requires p <= |doc|
    ensures p <= r.end <= |doc|
    ensures r.ok ==> p < r.end && doc[r.end - 1] == '"'
    decreases |doc| - p
  {
    if p == |doc| then Scanned(p, false)
    else if doc[p] == '\\' then (if p + 1 == |doc| then Scanned(p + 1, false) else AfterString(doc, p + 2))
    else if doc[p] == '"' then Scanned(p + 1, true)
    else AfterString(doc, p + 1)
  }

  function AfterCStyleComment(doc: string, p: nat): (r: Scanned)
    requires p <= |doc|
    ensures p <= r.end <= |doc|
    decreases |doc| - p
  {
    if p == |doc| then Scanned(p, false)
    else if doc[p] == '*' && At(doc, p + 1) == '/' then Scanned(p + 2, true)
    else AfterCStyleComment(doc, p + 1)
  }

  function AfterCppStyleComment(doc: string, p: nat): (q: nat)
    requires p <= |doc|
    ensures p <= q <= |doc|
    decreases |doc| - p
  {
    if p == |doc| then p
    else if doc[p] == '\r' || doc[p] == '\n' then p + 1
    else AfterCppStyleComment(doc, p + 1)
  }

  /** From just after the slash. */
  function AfterComment(doc: string, p: nat): (r: Scanned)
    requires p <= |doc|
    ensures p <= r.end <= |doc|
  {
    if p == |doc| then Scanned(p, false)
    else if doc[p] == '*' then AfterCStyleComment(doc, p + 1)
    else if doc[p] == '/' then Scanned(AfterCppStyleComment(doc, p + 1), true)
    else Scanned(p + 1, false)
  }

  function AfterWord(doc: string, p: nat, word: string): (r: Scanned)
    requires p <= |doc|
    ensures p <= r.end <= |doc|
  {
    if StartsAt(doc, p, word) then Scanned(p + |word|, true) else Scanned(p, false)
  }

  function Graded(kind: TokenType, start: nat, r: Scanned): Token {
    Token(if r.ok then kind else ErrorToken, start, r.end)
  }

  /** The token at `start`, where no space stands. */
  function TokenHere(doc: string, start: nat): (t: Token)
    requires start <= |doc|
    ensures t.start == start <= t.end <= |doc|
    ensures start < |doc| ==> start < t.end
    ensures start == |doc| ==> t.kind == EndOfStream
    ensures t.kind == StringToken ==> start + 2 <= t.end && doc[start] == doc[t.end - 1] == '"'
    ensures t.kind == NumberToken ==> IsNumberToken(doc[start..t.end])
  {
    if start == |doc| then Token(EndOfStream, start, start)
    else
      var next := start + 1;
      match doc[start]
      case '{' => Token(ObjectBegin, start, next)
      case '}' => Token(ObjectEnd, start, next)
      case '[' => Token(ArrayBegin, start, next)
      case ']' => Token(ArrayEnd, start, next)
      case '"' => Graded(StringToken, start, AfterString(doc, next))
      case '/' => Graded(Comment, start, AfterComment(doc, next))
      case 't' => Graded(TrueToken, start, AfterWord(doc, next, "rue"))
      case 'f' => Graded(FalseToken, start, AfterWord(doc, next, "alse"))
      case 'n' => Graded(NullToken, start, AfterWord(doc, next, "ull"))
      case ',' => Token(ArraySeparator, start, next)
      case ':' => Token(MemberSeparator, start, next)
      case '\0' => Token(EndOfStream, start, next)
      case c =>
        if IsDigit(c) || c == '-' then Token(NumberToken, start, AfterNumber(doc, next))
        else Token(ErrorToken, start, next)
  }

  /** The token `readToken` finds from `p`; its end is the new cursor. */
  function TokenAt(doc: string, p: nat): (t: Token)
    requires p <= |doc|
    ensures p <= t.start <= t.end <= |doc|
    ensures t.kind != EndOfStream ==> t.start < t.end
    ensures t.start < |doc| ==> t.start < t.end
    ensures t.kind == StringToken ==> t.start + 2 <= t.end && doc[t.start] == doc[t.end - 1] == '"'
    ensures t.kind == NumberToken ==> IsNumberToken(doc[t.start..t.end])
  {
    TokenHere(doc, AfterSpaces(doc, p))
  }

  /** `t`, or the first token after it that is not a comment. */
  function PastComments(doc: string, t: Token): (r: Token)
    requires t.start <= t.end <= |doc|
    ensures t.end <= r.end && r.start <= r.end <= |doc|
    ensures r.kind != Comment
    ensures r == t || (t.end <= r.start && r == TokenAt(doc, r.start))
    decreases |doc| - t.end
  {
    if t.kind != Comment then t
    else
      var next := TokenAt(doc, t.end);
      if next.kind == Comment then PastComments(doc, next) else next
  }

  /** The closing bracket `recoverFromError` skips to, or the end of the stream. */
  function AfterRecovery(doc: string, p: nat, until: TokenType): (q: nat)
    requires p <= |doc|
    ensures p <= q <= |doc|
    decreases |doc| - p
  {
    var t := TokenAt(doc, p);
    if t.kind == until || t.kind == EndOfStream then t.end else AfterRecovery(doc, t.end, until)
  }

  // ----- where comments and words end -----

  /** A line comment ends behind the first carriage return or line feed, or with the text. */
  lemma {:induction false} LineCommentEnds(doc: string, p: nat)
    requires p <= |doc|
    ensures var q := AfterCppStyleComment(doc, p);
            && (forall i :: p <= i < q - 1 ==> doc[i] != '\r' && doc[i] != '\n')
            && (if p < q && (doc[q - 1] == '\r' || doc[q - 1] == '\n') then true else q == |doc|)
    decreases |doc| - p
  {
    if p < |doc| && doc[p] != '\r' && doc[p] != '\n' {
      LineCommentEnds(doc, p + 1);
    }
  }

  predicate StarSlashAt(doc: string, i: nat) {
    At(doc, i) == '*' && At(doc, i + 1) == '/'
  }

  /** A block comment ends behind the first star and slash, and is open up to the end of the text if there are none. */
  lemma {:induction false} BlockCommentEnds(doc: string, p: nat)
    requires p <= |doc|
    ensures var r := AfterCStyleComment(doc, p);
            if r.ok then
              p + 2 <= r.end && StarSlashAt(doc, r.end - 2)
              && forall i: nat :: p <= i < r.end - 2 ==> !StarSlashAt(doc, i)
            else
              r.end == |doc| && forall i: nat :: p <= i ==> !StarSlashAt(doc, i)
    decreases |doc| - p
  {
    if p < |doc| && !StarSlashAt(doc, p) {
      BlockCommentEnds(doc, p + 1);
    }
  }

  /** A letter that begins no keyword, or not the rest of one, is an error of one character. */
  lemma LetterToken(doc: string, p: nat)
    requires p < |doc| && 'a' <= doc[p] <= 'z'
    ensures var t := TokenHere(doc, p);
            if StartsAt(doc, p, "true") then t == Token(TrueToken, p, p + 4)
            else if StartsAt(doc, p, "false") then t == Token(FalseToken, p, p + 5)
            else if StartsAt(doc, p, "null") then t == Token(NullToken, p, p + 4)
            else t == Token(ErrorToken, p, p + 1)
  {
    FirstAndRest(doc, p, 't', "rue");
    FirstAndRest(doc, p, 'f', "alse");
    FirstAndRest(doc, p, 'n', "ull");
    assert ['t'] + "rue" == "true" && ['f'] + "alse" == "false" && ['n'] + "ull" == "null";
  }

  /** A NUL ends the stream and is passed over; a character that begins nothing is an error of one character. */
  lemma OtherToken(doc: string, p: nat)
    requires p < |doc|
    ensures doc[p] == '\0' ==> TokenHere(doc, p) == Token(EndOfStream, p, p + 1)
    ensures doc[p] != '\0' && doc[p] !in "{}[],:\"/-0123456789tfn" ==> TokenHere(doc, p) == Token(ErrorToken, p, p + 1)
  {
    var all := "{}[],:\"/-0123456789tfn";
    assert all[0] == '{' && all[1] == '}' && all[2] == '[' && all[3] == ']' && all[4] == ',' && all[5] == ':';
    assert all[6] == '"' && all[7] == '/' && all[8] == '-' && all[19] == 't' && all[20] == 'f' && all[21] == 'n';
    assert all[9] == '0' && all[10] == '1' && all[11] == '2' && all[12] == '3' && all[13] == '4' && all[14] == '5';
    assert all[15] == '6' && all[16] == '7' && all[17] == '8' && all[18] == '9';
  }

  lemma FirstAndRest(doc: string, p: nat, c: char, rest: string)
    requires p < |doc|
    ensures StartsAt(doc, p, [c] + rest) <==> doc[p] == c && StartsAt(doc, p + 1, rest)
  {
    StartsAtConcat(doc, p, [c], rest);
    assert doc[p..p + 1] == [doc[p]];
  }

  // ----- token sequences -----

  datatype Lexeme = Lexeme(kind: TokenType, text: string)

  /** Reading tokens one after another from `p` yields exactly `lexemes` and leaves the cursor at `q`. */
  predicate Lexes(doc: string, p: nat, lexemes: seq<Lexeme>, q: nat)
    decreases |lexemes|
  {
    if lexemes == [] then p == q
    else
      && p <= |doc|
      && var t := TokenAt(doc, p);
      && t.kind == lexemes[0].kind && doc[t.start..t.end] == lexemes[0].text
      && Lexes(doc, t.end, lexemes[1..], q)
  }

  lemma {:induction false} LexesConcat(doc: string, p: nat, a: seq<Lexeme>, m: nat, b: seq<Lexeme>, q: nat)
    requires Lexes(doc, p, a, m) && Lexes(doc, m, b, q)
    ensures Lexes(doc, p, a + b, q)
    decreases |a|
  {
    hide TokenHere;
    if a == [] {
      assert a + b == b;
    } else {
      LexesConcat(doc, TokenAt(doc, p).end, a[1..], m, b, q);
      assert (a + b)[1..] == a[1..] + b;
    }
  }

  /** A token sequence splits wherever its lexemes do. */
  lemma {:induction false} LexesSplit(doc: string, p: nat, a: seq<Lexeme>, b: seq<Lexeme>, q: nat) returns (m: nat)
    requires Lexes(doc, p, a + b, q) && p <= |doc|
    ensures Lexes(doc, p, a, m) && Lexes(doc, m, b, q)
    ensures p <= m <= |doc|
    decreases |a|
  {
    if a == [] {
      assert a + b == b;
      m := p;
    } else {
      assert (a + b)[1..] == a[1..] + b;
      m := LexesSplit(doc, TokenAt(doc, p).end, a[1..], b, q);
    }
  }

  lemma LexesOne(doc: string, p: nat, kind: TokenType, text: string, q: nat)
    requires p <= |doc| && text != ""
    requires StartsAt(doc, p, text) && q == p + |text| && TokenHere(doc, p) == Token(kind, p, q)
    requires !IsSpace(doc[p])
    ensures Lexes(doc, p, [Lexeme(kind, text)], q)
  {
    assert TokenAt(doc, p) == Token(kind, p, q);
  }

  /** Spaces in front of a token do not change the sequence. */
  lemma LexesAfterSpace(doc: string, p: nat, lexemes: seq<Lexeme>, q: nat)
    requires p < |doc| && IsSpace(doc[p]) && lexemes != [] && Lexes(doc, p + 1, lexemes, q)
    ensures Lexes(doc, p, lexemes, q)
  {
    assert TokenAt(doc, p) == TokenAt(doc, p + 1);
  }

  /** The whole token sequence of a document, up to the first end of stream. */
  function Tokens(doc: string, p: nat): seq<Lexeme>
    requires p <= |doc|
    decreases |doc| - p
  {
    var t := TokenAt(doc, p);
    if t.kind == EndOfStream then [] else [Lexeme(t.kind, doc[t.start..t.end])] + Tokens(doc, t.end)
  }

  lemma {:induction false} LexesAreTokens(doc: string, p: nat, lexemes: seq<Lexeme>, q: nat)
    requires p <= |doc| && q <= |doc| && Lexes(doc, p, lexemes, q)
    requires forall i :: 0 <= i < |lexemes| ==> lexemes[i].kind != EndOfStream
    requires TokenAt(doc, q).kind == EndOfStream
    ensures Tokens(doc, p) == lexemes
    decreases |lexemes|
  {
    if lexemes != [] {
      LexesAreTokens(doc, TokenAt(doc, p).end, lexemes[1..], q);
    }
  }

  // ----- single tokens of a known text -----

  lemma PunctuationToken(doc: string, p: nat, text: string, kind: TokenType)
    requires StartsAt(doc, p, text)
    requires (text, kind) in {("{", ObjectBegin), ("}", ObjectEnd), ("[", ArrayBegin), ("]", ArrayEnd),
                              (",", ArraySeparator), (":", MemberSeparator)}
    ensures Lexes(doc, p, [Lexeme(kind, text)], p + 1)
  {
    StartsAtIndex(doc, p, text, 0);
    LexesOne(doc, p, kind, text, p + 1);
  }

  lemma WordToken(doc: string, p: nat, text: string, kind: TokenType)
    requires StartsAt(doc, p, text)
    requires (text, kind) in {("true", TrueToken), ("false", FalseToken), ("null", NullToken)}
    ensures Lexes(doc, p, [Lexeme(kind, text)], p + |text|)
  {
    StartsAtIndex(doc, p, text, 0);
    assert text == text[..1] + text[1..];
    StartsAtConcat(doc, p, text[..1], text[1..]);
    LexesOne(doc, p, kind, text, p + |text|);
  }

  lemma {:induction false} AfterNumberStops(doc: string, p: nat, q: nat)
    requires p <= q <= |doc| && !IsNumberChar(At(doc, q))
    requires forall i :: p <= i < q ==> IsNumberChar(doc[i])
    ensures AfterNumber(doc, p) == q
    decreases q - p
  {
    if p < q {
      AfterNumberStops(doc, p + 1, q);
    }
  }

  lemma NumberTokenHere(doc: string, p: nat, text: string)
    requires StartsAt(doc, p, text) && IsNumberToken(text) && !IsNumberChar(At(doc, p + |text|))
    ensures Lexes(doc, p, [Lexeme(NumberToken, text)], p + |text|)
  {
    forall i | p <= i < p + |text| ensures doc[i] == text[i - p] {
      StartsAtIndex(doc, p, text, i - p);
    }
    AfterNumberStops(doc, p + 1, p + |text|);
    LexesOne(doc, p, NumberToken, text, p + |text|);
  }
}
