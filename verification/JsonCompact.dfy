/**
 The compact text is that of its tokens, with nothing between them but, for YAML, a space behind each colon.
 */
module JsonCompact {
  import opened CText
  import opened JsonValue
  import opened JsonLexer
  import opened JsonString
  import opened JsonSyntax
  import opened JsonText
  import opened JsonLayout
  import opened JsonFastWriter

  /** The tokens one after another. */
  function Spelled(yaml: bool, ts: seq<Lexeme>): string {
    if ts == [] then ""
    else ts[0].text + (if yaml && ts[0].kind == MemberSeparator then " " else "") + Spelled(yaml, ts[1..])
  }

  lemma {:induction false} SpelledConcat(yaml: bool, a: seq<Lexeme>, b: seq<Lexeme>)
    ensures Spelled(yaml, a + b) == Spelled(yaml, a) + Spelled(yaml, b)
  {
    if a == [] {
      assert a + b == b;
    } else {
      SpelledConcat(yaml, a[1..], b);
      assert (a + b)[1..] == a[1..] + b && (a + b)[0] == a[0];
      var first := a[0].text + if yaml && a[0].kind == MemberSeparator then " " else "";
      Associative(first, Spelled(yaml, a[1..]), Spelled(yaml, b));
    }
  }

  lemma SpelledOne(yaml: bool, l: Lexeme)
    ensures Spelled(yaml, [l]) == if yaml && l.kind == MemberSeparator then l.text + " " else l.text
  {
    assert l.text + "" + "" == l.text && l.text + " " + "" == l.text + " ";
  }

  lemma SpelledMarks(yaml: bool)
    ensures Spelled(yaml, OPEN_ARRAY) == "[" && Spelled(yaml, CLOSE_ARRAY) == "]"
    ensures Spelled(yaml, OPEN_OBJECT) == "{" && Spelled(yaml, CLOSE_OBJECT) == "}"
    ensures Spelled(yaml, COMMA) == "," && Spelled(yaml, COLON) == if yaml then ": " else ":"
  {
    SpelledOne(yaml, OPEN_ARRAY[0]);
    SpelledOne(yaml, CLOSE_ARRAY[0]);
    SpelledOne(yaml, OPEN_OBJECT[0]);
    SpelledOne(yaml, CLOSE_OBJECT[0]);
    SpelledOne(yaml, COMMA[0]);
    SpelledOne(yaml, COLON[0]);
  }

  /** What the compact writer prints for a value. */
  lemma {:induction false} FastIsSpelled(yaml: bool, format: Format, v: Value)
    ensures FastText(yaml, format, v) == Spelled(yaml, SyntaxTokens(SyntaxOf(format, v)))
    decreases v, 1
  {
    hide Spelled, Quoted, QuotedUnits, RealText;
    SpelledMarks(yaml);
    match v
    case ArrayVal(items) =>
      if items == [] {
        SpelledConcat(yaml, OPEN_ARRAY, CLOSE_ARRAY);
      } else {
        ItemsAreSpelled(yaml, format, items);
        SpelledConcat(yaml, OPEN_ARRAY, ItemsTokens(SyntaxItems(format, items)));
      }
    case ObjectVal(members) =>
      if members == [] {
        SpelledConcat(yaml, OPEN_OBJECT, CLOSE_OBJECT);
      } else {
        MembersAreSpelled(yaml, format, members);
        SpelledConcat(yaml, OPEN_OBJECT, MembersTokens(SyntaxMembers(format, members)));
      }
    case StringVal(s) => NameIsSpelled(yaml, s);
    case _ => SpelledOne(yaml, SyntaxTokens(SyntaxOf(format, v))[0]);
  }

  lemma NameIsSpelled(yaml: bool, s: string)
    ensures Spelled(yaml, NameTokens(QuoteUnits(CStr(s)))) == Quoted(s)
  {
    SpelledOne(yaml, NameTokens(QuoteUnits(CStr(s)))[0]);
  }

  lemma {:induction false} ItemsAreSpelled(yaml: bool, format: Format, items: seq<Value>)
    requires items != []
    ensures FastItems(yaml, format, items) == Spelled(yaml, ItemsTokens(SyntaxItems(format, items)))
    decreases items, 0
  {
    hide Spelled, FastText, SyntaxTokens, SyntaxOf;
    SpelledMarks(yaml);
    FastIsSpelled(yaml, format, items[0]);
    ItemsTokensSplit(format, items);
    SpelledConcat(yaml, SyntaxTokens(SyntaxOf(format, items[0])), ItemsTail(format, items));
    if |items| > 1 {
      ItemsAreSpelled(yaml, format, items[1..]);
      SpelledConcat(yaml, COMMA, ItemsTokens(SyntaxItems(format, items[1..])));
    }
  }

  lemma {:induction false} MembersAreSpelled(yaml: bool, format: Format, members: seq<Member>)
    requires members != []
    ensures FastMembers(yaml, format, members) == Spelled(yaml, MembersTokens(SyntaxMembers(format, members)))
    decreases members, 0
  {
    hide Spelled, FastText, SyntaxTokens, SyntaxOf, Quoted, QuoteUnits, CStr, NameTokens;
    var value, tail := SyntaxTokens(SyntaxOf(format, members[0].value)), MembersTail(format, members);
    SpelledMarks(yaml);
    NameIsSpelled(yaml, members[0].name);
    FastIsSpelled(yaml, format, members[0].value);
    MembersTokensSplit(format, members);
    SpelledConcat(yaml, NameTokens(QuoteUnits(CStr(members[0].name))), COLON + (value + tail));
    SpelledConcat(yaml, COLON, value + tail);
    SpelledConcat(yaml, value, tail);
    if |members| > 1 {
      MembersAreSpelled(yaml, format, members[1..]);
      SpelledConcat(yaml, COMMA, MembersTokens(SyntaxMembers(format, members[1..])));
    }
  }

  /** The same of what both writers print in one piece. */
  lemma LeafIsSpelled(format: Format, v: Value)
    requires IsLeaf(v)
    ensures LeafText(format, v) == Spelled(false, SyntaxTokens(SyntaxOf(format, v)))
  {
    hide LeafText, FastText, Spelled, SyntaxTokens, SyntaxOf, IsLeaf;
    FastLeaf(false, format, v);
    FastIsSpelled(false, format, v);
  }
}
