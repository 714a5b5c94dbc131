/**
 Printing and then reading.
 */
module JsonRoundTrip {
  import opened JsonValue
  import opened JsonLexer
  import opened JsonParser
  import opened JsonSyntax
  import opened JsonReads
  import opened JsonText
  import opened JsonFastWriter
  import opened JsonStyledWriter

  /** The document the compact writer makes of `v`. */
  function FastDocument(yaml: bool, format: Format, v: Value): string {
    FastText(yaml, format, v) + "\n"
  }

  lemma FastDocumentLexes(yaml: bool, format: Format, v: Value)
    requires Printable(format, v)
    ensures var doc := FastDocument(yaml, format, v);
            && Lexes(doc, 0, SyntaxTokens(SyntaxOf(format, v)), |doc| - 1)
            && TokenAt(doc, |doc| - 1).kind == EndOfStream
  {
    var text, doc := FastText(yaml, format, v), FastDocument(yaml, format, v);
    assert doc[..|text|] == text && doc[|text|] == '\n';
    FastLexes(yaml, format, doc, 0, v);
    assert AfterSpaces(doc, |doc|) == |doc|;
  }

  /**
   The round trip: for every well-formed tree whose doubles survive printing, and in either mode, the
   reader accepts what the compact writer wrote and yields the same tree under the reader's number tags.
   */
  lemma FastRoundTrip(cfg: Config, yaml: bool, format: Format, v: Value, root: Value)
    requires WellFormed(v) && Faithful(cfg.scan, format, v)
    requires cfg.strictRoot ==> v.ArrayVal? || v.ObjectVal?
    ensures var o := ParseDocument(cfg, FastDocument(yaml, format, v), root);
            o.ok && o.errors == [] && o.value == Canon(v) && SameUpToTag(v, o.value)
  {
    hide Lexes, Meaning, SyntaxTokens;
    FaithfulIsPrintable(cfg.scan, format, v);
    SyntaxIsValid(format, v);
    SyntaxMeans(cfg.scan, format, v);
    FastDocumentLexes(yaml, format, v);
    var doc := FastDocument(yaml, format, v);
    ReadsSyntax(cfg, doc, 0, SyntaxOf(format, v), |doc| - 1, root);
    CanonIsSame(v);
  }

  /** The document the pretty printer makes of `v`. */
  function StyledDocument(format: Format, v: Value): string {
    Styled(format, "", "", v) + "\n"
  }

  lemma StyledDocumentLexes(format: Format, v: Value)
    requires Printable(format, v)
    ensures var doc := StyledDocument(format, v);
            && Lexes(doc, 0, SyntaxTokens(SyntaxOf(format, v)), |doc| - 1)
            && TokenAt(doc, |doc| - 1).kind == EndOfStream
  {
    hide Lexes, Styled;
    var text, doc := Styled(format, "", "", v), StyledDocument(format, v);
    assert text <= doc && doc[|text|] == '\n';
    StyledLexes(format, doc, "", "", v);
    assert AfterSpaces(doc, |doc|) == |doc|;
  }

  /** Pretty printing preserves meaning: both writers give the same tokens up to the end of the stream. */
  lemma SameTokens(yaml: bool, format: Format, v: Value)
    requires Printable(format, v)
    ensures Tokens(StyledDocument(format, v), 0) == Tokens(FastDocument(yaml, format, v), 0)
                                                == SyntaxTokens(SyntaxOf(format, v))
  {
    hide Lexes, Styled, FastText, TokenAt;
    StyledDocumentLexes(format, v);
    FastDocumentLexes(yaml, format, v);
    SyntaxTokensInStream(SyntaxOf(format, v));
    var tokens := SyntaxTokens(SyntaxOf(format, v));
    var styled, fast := StyledDocument(format, v), FastDocument(yaml, format, v);
    LexesAreTokens(styled, 0, tokens, |styled| - 1);
    LexesAreTokens(fast, 0, tokens, |fast| - 1);
  }

  /** No token of a value is an end of stream. */
  lemma {:induction false} SyntaxTokensInStream(s: Syntax)
    ensures InStream(SyntaxTokens(s))
    decreases s, 1
  {
    match s
    case ArrayText(items) => if items != [] { ItemsTokensInStream(items); }
    case ObjectText(members) => if members != [] { MembersTokensInStream(members); }
    case _ =>
  }

  predicate InStream(lexemes: seq<Lexeme>) {
    forall i :: 0 <= i < |lexemes| ==> lexemes[i].kind != EndOfStream
  }

  lemma {:induction false} ItemsTokensInStream(items: seq<Syntax>)
    requires items != []
    ensures InStream(ItemsTokens(items))
    decreases items, 0
  {
    SyntaxTokensInStream(items[0]);
    if |items| > 1 {
      ItemsTokensInStream(items[1..]);
    }
  }

  lemma {:induction false} MembersTokensInStream(members: seq<MemberText>)
    requires members != []
    ensures InStream(MembersTokens(members))
    decreases members, 0
  {
    SyntaxTokensInStream(members[0].value);
    if |members| > 1 {
      MembersTokensInStream(members[1..]);
    }
  }

  /** The pretty printer round-trips as well. */
  lemma StyledRoundTrip(cfg: Config, format: Format, v: Value, root: Value)
    requires WellFormed(v) && Faithful(cfg.scan, format, v)
    requires cfg.strictRoot ==> v.ArrayVal? || v.ObjectVal?
    ensures var o := ParseDocument(cfg, StyledDocument(format, v), root);
            o.ok && o.errors == [] && o.value == Canon(v) && SameUpToTag(v, o.value)
  {
    hide Lexes, Meaning, SyntaxTokens, Styled;
    FaithfulIsPrintable(cfg.scan, format, v);
    SyntaxIsValid(format, v);
    SyntaxMeans(cfg.scan, format, v);
    StyledDocumentLexes(format, v);
    var doc := StyledDocument(format, v);
    ReadsSyntax(cfg, doc, 0, SyntaxOf(format, v), |doc| - 1, root);
    CanonIsSame(v);
  }
}
