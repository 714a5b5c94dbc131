/**
 Tokens of laid-out text: what both writers put between brackets, names and values.
 */
module JsonLayout {
  import opened CText
  import opened JsonValue
  import opened JsonNumber
  import opened JsonLexer
  import opened JsonString
  import opened JsonSyntax
  import opened JsonText

  /** A leaf's text is its tokens, as long as no number character follows it. */
  lemma LeafLexes(format: Format, doc: string, p: nat, v: Value)
    requires IsLeaf(v) && Printable(format, v) && StartsAt(doc, p, LeafText(format, v))
    requires !IsNumberChar(At(doc, p + |LeafText(format, v)|))
    ensures Lexes(doc, p, SyntaxTokens(SyntaxOf(format, v)), p + |LeafText(format, v)|)
  {
    hide Lexes, StartsAt, TokenHere, DecodeToken, UnitsMeaning, NumberMeaning, RealText, CStr;
    var text := LeafText(format, v);
    match v
    case NullVal => WordToken(doc, p, text, NullToken);
    case BoolVal(b) => WordToken(doc, p, text, if b then TrueToken else FalseToken);
    case IntVal(i) => IntegerLexes(doc, p, i);
    case UIntVal(u) =>
      DecimalIsNumberToken(u as nat);
      NumberTokenHere(doc, p, text);
    case RealVal(d) => NumberTokenHere(doc, p, text);
    case StringVal(s) => QuotedLexes(doc, p, s);
    case ArrayVal(_) =>
      assert text == "[" + "]";
      BracketsLex(doc, p, "[", ArrayBegin, "]", ArrayEnd);
    case ObjectVal(_) =>
      assert text == "{" + "}";
      BracketsLex(doc, p, "{", ObjectBegin, "}", ObjectEnd);
  }

  lemma IntegerLexes(doc: string, p: nat, i: Int64)
    requires StartsAt(doc, p, IntText(i as int)) && !IsNumberChar(At(doc, p + |IntText(i as int)|))
    ensures Lexes(doc, p, [Lexeme(NumberToken, IntText(i as int))], p + |IntText(i as int)|)
  {
    hide Lexes, StartsAt, TokenHere, NumberMeaning;
    IntRoundTrip(_ => None, i);
    NumberTokenHere(doc, p, IntText(i as int));
  }

  lemma QuotedLexes(doc: string, p: nat, s: string)
    requires StartsAt(doc, p, Quoted(s))
    ensures Lexes(doc, p, [Lexeme(StringToken, Quoted(s))], p + |Quoted(s)|)
  {
    hide Lexes, StartsAt, TokenHere, DecodeToken, UnitsMeaning, CStr;
    QuoteUnitsMean(CStr(s));
    StringTokenHere(doc, p, QuoteUnits(CStr(s)));
  }

  lemma BracketsLex(doc: string, p: nat, open: string, begin: TokenType, close: string, end: TokenType)
    requires (open, begin, close, end) in {("[", ArrayBegin, "]", ArrayEnd), ("{", ObjectBegin, "}", ObjectEnd)}
    requires StartsAt(doc, p, open + close)
    ensures Lexes(doc, p, [Lexeme(begin, open)] + [Lexeme(end, close)], p + 2)
  {
    hide Lexes;
    StartsAtConcat(doc, p, open, close);
    PunctuationToken(doc, p, open, begin);
    PunctuationToken(doc, p + 1, close, end);
    LexesConcat(doc, p, [Lexeme(begin, open)], p + 1, [Lexeme(end, close)], p + 2);
  }

  /** Punctuation at the head of a text, and the tokens behind it. */
  lemma PunctuationThen(doc: string, p: nat, text: string, kind: TokenType, rest: seq<Lexeme>, q: nat)
    requires StartsAt(doc, p, text) && Lexes(doc, p + 1, rest, q)
    requires (text, kind) in {("{", ObjectBegin), ("[", ArrayBegin), (",", ArraySeparator), (":", MemberSeparator)}
    ensures Lexes(doc, p, [Lexeme(kind, text)] + rest, q)
  {
    hide Lexes;
    PunctuationToken(doc, p, text, kind);
    LexesConcat(doc, p, [Lexeme(kind, text)], p + 1, rest, q);
  }

  lemma NotNumberAfter(doc: string, p: nat, text: string)
    requires text != "" && !IsNumberChar(text[0]) && StartsAt(doc, p, text)
    ensures !IsNumberChar(At(doc, p))
  {
    StartsAtIndex(doc, p, text, 0);
  }

  function ItemsTail(format: Format, items: seq<Value>): seq<Lexeme>
    requires items != []
  {
    if |items| == 1 then CLOSE_ARRAY else COMMA + ItemsTokens(SyntaxItems(format, items[1..]))
  }

  lemma ItemsTokensSplit(format: Format, items: seq<Value>)
    requires items != []
    ensures ItemsTokens(SyntaxItems(format, items))
            == SyntaxTokens(SyntaxOf(format, items[0])) + ItemsTail(format, items)
  {
    assert SyntaxItems(format, items)[1..] == SyntaxItems(format, items[1..]);
  }

  function MembersTail(format: Format, members: seq<Member>): seq<Lexeme>
    requires members != []
  {
    if |members| == 1 then CLOSE_OBJECT else COMMA + MembersTokens(SyntaxMembers(format, members[1..]))
  }

  lemma MembersTokensSplit(format: Format, members: seq<Member>)
    requires members != []
    ensures MembersTokens(SyntaxMembers(format, members))
            == NameTokens(QuoteUnits(CStr(members[0].name)))
               + (COLON + (SyntaxTokens(SyntaxOf(format, members[0].value)) + MembersTail(format, members)))
  {
    assert SyntaxMembers(format, members)[1..] == SyntaxMembers(format, members[1..]);
  }

  /** A quoted name, its colon with the spaces around it, and the tokens behind them. */
  lemma NameLexes(doc: string, p: nat, name: string, colon: string, rest: seq<Lexeme>, q: nat)
    requires colon == ":" || colon == ": " || colon == " : "
    requires StartsAt(doc, p, Quoted(name)) && StartsAt(doc, p + |Quoted(name)|, colon)
    requires rest != [] && Lexes(doc, p + |Quoted(name)| + |colon|, rest, q)
    ensures Lexes(doc, p, NameTokens(QuoteUnits(CStr(name))) + (COLON + rest), q)
  {
    hide Lexes, DecodeToken, TokenHere, UnitsMeaning, CStr, UnitsText;
    var us, m := QuoteUnits(CStr(name)), p + |Quoted(name)|;
    QuoteUnitsMean(CStr(name));
    StringTokenHere(doc, p, us);
    ColonLexes(doc, m, colon, rest, q);
    LexesConcat(doc, p, NameTokens(us), m, COLON + rest, q);
  }

  lemma ColonLexes(doc: string, p: nat, colon: string, rest: seq<Lexeme>, q: nat)
    requires colon == ":" || colon == ": " || colon == " : "
    requires StartsAt(doc, p, colon) && rest != [] && Lexes(doc, p + |colon|, rest, q)
    ensures Lexes(doc, p, COLON + rest, q)
  {
    hide Lexes;
    forall i | 0 <= i < |colon| ensures doc[p + i] == colon[i] {
      StartsAtIndex(doc, p, colon, i);
    }
    var m := if colon == " : " then p + 1 else p;
    if colon != ":" {
      assert doc[m + 1] == ' ';
      LexesAfterSpace(doc, m + 1, rest, q);
    }
    assert StartsAt(doc, m, ":") by {
      assert doc[m] == ':';
    }
    PunctuationThen(doc, m, ":", MemberSeparator, rest, q);
    if m == p + 1 {
      LexesAfterSpace(doc, p, COLON + rest, q);
    }
  }

  /** Spaces from `p` to `r` do not change the tokens. */
  lemma {:induction false} LexesAfterSpaces(doc: string, p: nat, r: nat, lexemes: seq<Lexeme>, q: nat)
    requires p <= r <= |doc| && (forall i :: p <= i < r ==> IsSpace(doc[i]))
    requires lexemes != [] && Lexes(doc, r, lexemes, q)
    ensures Lexes(doc, p, lexemes, q)
    decreases r - p
  {
    hide Lexes;
    if p < r {
      LexesAfterSpaces(doc, p + 1, r, lexemes, q);
      LexesAfterSpace(doc, p, lexemes, q);
    }
  }
}
