/**
 The compact writer, and the tokens of what it writes.
 */
module JsonFastWriter {
  import opened CText
  import opened JsonValue
  import opened JsonNumber
  import opened JsonLexer
  import opened JsonString
  import opened JsonSyntax
  import opened JsonText
  import opened JsonLayout

  // ----- the text -----

  function FastText(yaml: bool, format: Format, v: Value): string
    decreases v, 1
  {
    match v
    case ArrayVal(items) => "[" + (if items == [] then "]" else FastItems(yaml, format, items))
    case ObjectVal(members) => "{" + (if members == [] then "}" else FastMembers(yaml, format, members))
    case _ => LeafText(format, v)
  }

  /** The items, with the closing bracket. */
  function FastItems(yaml: bool, format: Format, items: seq<Value>): string
    requires items != []
    decreases items, 0
  {
    FastText(yaml, format, items[0]) + (if |items| == 1 then "]" else "," + FastItems(yaml, format, items[1..]))
  }

  function Colon(yaml: bool): string {
    if yaml then ": " else ":"
  }

  function FastMembers(yaml: bool, format: Format, members: seq<Member>): string
    requires members != []
    decreases members, 0
  {
    Quoted(members[0].name) + (Colon(yaml) + (FastText(yaml, format, members[0].value)
      + (if |members| == 1 then "}" else "," + FastMembers(yaml, format, members[1..]))))
  }

  // ----- the writer -----

  class FastWriter {
    const format: Format
    var document: string
    var yamlCompatibilityEnabled: bool

    constructor (format: Format)
      ensures this.format == format && document == "" && !yamlCompatibilityEnabled
    {
      this.format := format;
      document, yamlCompatibilityEnabled := "", false;
    }

    method EnableYamlCompatibility()
      modifies this`yamlCompatibilityEnabled
      ensures yamlCompatibilityEnabled
    {
      yamlCompatibilityEnabled := true;
    }

    method Write(root: Value) returns (text: string)
      modifies this`document
      ensures text == document == FastText(yamlCompatibilityEnabled, format, root) + "\n"
    {
      document := "";
      WriteValue(root);
      document := document + "\n";
      text := document;
    }

    method WriteValue(value: Value)
      modifies this`document
      ensures document == old(document) + FastText(yamlCompatibilityEnabled, format, value)
      decreases value, 1
    {
      match value {
        case ArrayVal(items) => WriteItems(items);
        case ObjectVal(members) => WriteMembers(members);
        case _ =>
          var text := ScalarText(format, value);
          document := document + text;
      }
    }

    method WriteItems(items: seq<Value>)
      modifies this`document
      ensures document
           == old(document) + ("[" + (if items == [] then "]" else FastItems(yamlCompatibilityEnabled, format, items)))
      decreases items, 0
    {
      ghost var yaml := yamlCompatibilityEnabled;
      ghost var target := document + ("[" + (if items == [] then "]" else FastItems(yaml, format, items)));
      document := document + "[";
      var size := |items|;
      for index := 0 to size
        invariant document + RestOfItems(yaml, format, items, index) == target
      {
        ItemsProgress(yaml, format, items, index, document);
        if index > 0 {
          document := document + ",";
        }
        WriteValue(items[index]);
      }
      document := document + "]";
    }

    method WriteMembers(members: seq<Member>)
      modifies this`document
      ensures document
           == old(document)
              + ("{" + (if members == [] then "}" else FastMembers(yamlCompatibilityEnabled, format, members)))
      decreases members, 0
    {
      hide FastText, FastMembers, Quoted;
      ghost var yaml := yamlCompatibilityEnabled;
      ghost var target := document + ("{" + (if members == [] then "}" else FastMembers(yaml, format, members)));
      document := document + "{";
      var i := 0;
      while i < |members|
        invariant 0 <= i <= |members|
        invariant document + RestOfMembers(yaml, format, members, i) == target
      {
        MembersProgress(yaml, format, members, i, document);
        if i > 0 {
          document := document + ",";
        }
        var name := ValueToQuotedString(members[i].name);
        document := document + name;
        document := document + (if yamlCompatibilityEnabled then ": " else ":");
        WriteValue(members[i].value);
        i := i + 1;
      }
      document := document + "}";
    }
  }

  /** What remains to be written before item `index`. */
  ghost function RestOfItems(yaml: bool, format: Format, items: seq<Value>, index: nat): string
    requires index <= |items|
  {
    if index == |items| then "]" else Separator(index) + FastItems(yaml, format, items[index..])
  }

  ghost function RestOfMembers(yaml: bool, format: Format, members: seq<Member>, index: nat): string
    requires index <= |members|
  {
    if index == |members| then "}" else Separator(index) + FastMembers(yaml, format, members[index..])
  }

  function Separator(index: nat): string {
    if index > 0 then "," else ""
  }

  lemma ItemsProgress(yaml: bool, format: Format, items: seq<Value>, index: nat, d: string)
    requires index < |items|
    ensures d + RestOfItems(yaml, format, items, index)
            == d + Separator(index) + FastText(yaml, format, items[index]) + RestOfItems(yaml, format, items, index + 1)
    ensures d + Separator(index) == if index > 0 then d + "," else d
  {
    var first, tail := FastText(yaml, format, items[index]), RestOfItems(yaml, format, items, index + 1);
    assert FastItems(yaml, format, items[index..]) == first + tail by {
      assert items[index..][1..] == items[index + 1..];
    }
    hide *;
    Associative(d, Separator(index), first + tail);
    Associative(d + Separator(index), first, tail);
  }

  lemma MembersProgress(yaml: bool, format: Format, members: seq<Member>, index: nat, d: string)
    requires index < |members|
    ensures d + RestOfMembers(yaml, format, members, index)
            == d + Separator(index) + Quoted(members[index].name) + Colon(yaml)
               + FastText(yaml, format, members[index].value) + RestOfMembers(yaml, format, members, index + 1)
    ensures d + Separator(index) == if index > 0 then d + "," else d
  {
    var m, d1, tail := members[index], d + Separator(index), RestOfMembers(yaml, format, members, index + 1);
    var name, colon, value := Quoted(m.name), Colon(yaml), FastText(yaml, format, m.value);
    assert FastMembers(yaml, format, members[index..]) == name + (colon + (value + tail)) by {
      hide Quoted, FastText;
      assert members[index..][1..] == members[index + 1..];
    }
    hide *;
    Associative(d, Separator(index), name + (colon + (value + tail)));
    Associative(d1, name, colon + (value + tail));
    Associative(d1 + name, colon, value + tail);
    Associative(d1 + name + colon, value, tail);
  }

  // ----- the tokens -----

  lemma FastLeaf(yaml: bool, format: Format, v: Value)
    requires IsLeaf(v)
    ensures FastText(yaml, format, v) == LeafText(format, v)
  {
  }

  /** Where the compact text of `v` stands, its tokens are read. */
  lemma {:induction false} FastLexes(yaml: bool, format: Format, doc: string, p: nat, v: Value)
    requires Printable(format, v) && StartsAt(doc, p, FastText(yaml, format, v))
    requires !IsNumberChar(At(doc, p + |FastText(yaml, format, v)|))
    ensures Lexes(doc, p, SyntaxTokens(SyntaxOf(format, v)), p + |FastText(yaml, format, v)|)
    decreases v, 1
  {
    hide Lexes, StartsAt, Quoted, LeafText, FastItems, FastMembers;
    if IsLeaf(v) {
      FastLeaf(yaml, format, v);
      LeafLexes(format, doc, p, v);
    } else if v.ArrayVal? {
      FastArrayLexes(yaml, format, doc, p, v.items);
    } else {
      FastObjectLexes(yaml, format, doc, p, v.members);
    }
  }

  lemma {:induction false} FastArrayLexes(yaml: bool, format: Format, doc: string, p: nat, items: seq<Value>)
    requires items != [] && PrintableItems(format, items)
    requires StartsAt(doc, p, "[" + FastItems(yaml, format, items))
    ensures Lexes(doc, p, OPEN_ARRAY + ItemsTokens(SyntaxItems(format, items)),
                  p + 1 + |FastItems(yaml, format, items)|)
    decreases items, 1
  {
    hide Lexes;
    var text, tokens := FastItems(yaml, format, items), ItemsTokens(SyntaxItems(format, items));
    StartsAtConcat(doc, p, "[", text);
    FastItemsLex(yaml, format, doc, p + 1, items);
    PunctuationThen(doc, p, "[", ArrayBegin, tokens, p + 1 + |text|);
  }

  lemma {:induction false} FastObjectLexes(yaml: bool, format: Format, doc: string, p: nat, members: seq<Member>)
    requires members != [] && PrintableMembers(format, members)
    requires StartsAt(doc, p, "{" + FastMembers(yaml, format, members))
    ensures Lexes(doc, p, OPEN_OBJECT + MembersTokens(SyntaxMembers(format, members)),
                  p + 1 + |FastMembers(yaml, format, members)|)
    decreases members, 1
  {
    hide Lexes;
    var text, tokens := FastMembers(yaml, format, members), MembersTokens(SyntaxMembers(format, members));
    StartsAtConcat(doc, p, "{", text);
    FastMembersLex(yaml, format, doc, p + 1, members);
    PunctuationThen(doc, p, "{", ObjectBegin, tokens, p + 1 + |text|);
  }

  lemma {:induction false} FastItemsLex(yaml: bool, format: Format, doc: string, p: nat, items: seq<Value>)
    requires items != [] && PrintableItems(format, items) && StartsAt(doc, p, FastItems(yaml, format, items))
    ensures Lexes(doc, p, ItemsTokens(SyntaxItems(format, items)), p + |FastItems(yaml, format, items)|)
    decreases items, 0
  {
    hide Lexes, StartsAt, FastText, SyntaxOf, SyntaxTokens, IsNumberChar;
    var first, tail := FastText(yaml, format, items[0]), FastItemsTail(yaml, format, items);
    var m := p + |first|;
    StartsAtConcat(doc, p, first, tail);
    NotNumberAfter(doc, m, tail);
    FastLexes(yaml, format, doc, p, items[0]);
    FastItemsTailLexes(yaml, format, doc, m, items);
    LexesConcat(doc, p, SyntaxTokens(SyntaxOf(format, items[0])), m, ItemsTail(format, items), m + |tail|);
    ItemsTokensSplit(format, items);
  }

  /** What follows the first item: the closing bracket, or a comma and the others. */
  function FastItemsTail(yaml: bool, format: Format, items: seq<Value>): (text: string)
    requires items != []
    ensures text != "" && !IsNumberChar(text[0])
  {
    if |items| == 1 then "]" else "," + FastItems(yaml, format, items[1..])
  }

  lemma {:induction false} FastItemsTailLexes(yaml: bool, format: Format, doc: string, p: nat, items: seq<Value>)
    requires items != [] && PrintableItems(format, items) && StartsAt(doc, p, FastItemsTail(yaml, format, items))
    ensures Lexes(doc, p, ItemsTail(format, items), p + |FastItemsTail(yaml, format, items)|)
    decreases items, 0, 0
  {
    hide Lexes, StartsAt, FastItems, ItemsTokens, FastText, SyntaxOf;
    if |items| == 1 {
      PunctuationToken(doc, p, "]", ArrayEnd);
    } else {
      var rest, tokens := FastItems(yaml, format, items[1..]), ItemsTokens(SyntaxItems(format, items[1..]));
      StartsAtConcat(doc, p, ",", rest);
      FastItemsLex(yaml, format, doc, p + 1, items[1..]);
      PunctuationThen(doc, p, ",", ArraySeparator, tokens, p + 1 + |rest|);
    }
  }

  lemma {:induction false} FastMembersLex(yaml: bool, format: Format, doc: string, p: nat, members: seq<Member>)
    requires members != [] && PrintableMembers(format, members) && StartsAt(doc, p, FastMembers(yaml, format, members))
    ensures Lexes(doc, p, MembersTokens(SyntaxMembers(format, members)), p + |FastMembers(yaml, format, members)|)
    decreases members, 0
  {
    hide Lexes, StartsAt, Quoted, FastText, SyntaxOf, SyntaxTokens, IsNumberChar, CStr, QuoteUnits;
    var name, colon := Quoted(members[0].name), Colon(yaml);
    var value, tail := FastText(yaml, format, members[0].value), FastMembersTail(yaml, format, members);
    StartsAtConcat(doc, p, name, colon + (value + tail));
    var p1 := p + |name|;
    StartsAtConcat(doc, p1, colon, value + tail);
    var p2 := p1 + |colon|;
    StartsAtConcat(doc, p2, value, tail);
    var p3 := p2 + |value|;
    var q := p3 + |tail|;
    NotNumberAfter(doc, p3, tail);
    FastLexes(yaml, format, doc, p2, members[0].value);
    FastMembersTailLexes(yaml, format, doc, p3, members);
    var valueTokens := SyntaxTokens(SyntaxOf(format, members[0].value));
    LexesConcat(doc, p2, valueTokens, p3, MembersTail(format, members), q);
    NameLexes(doc, p, members[0].name, colon, valueTokens + MembersTail(format, members), q);
    MembersTokensSplit(format, members);
  }

  function FastMembersTail(yaml: bool, format: Format, members: seq<Member>): (text: string)
    requires members != []
    ensures text != "" && !IsNumberChar(text[0])
  {
    if |members| == 1 then "}" else "," + FastMembers(yaml, format, members[1..])
  }

  lemma {:induction false} FastMembersTailLexes(yaml: bool, format: Format, doc: string, p: nat, members: seq<Member>)
    requires members != [] && PrintableMembers(format, members)
    requires StartsAt(doc, p, FastMembersTail(yaml, format, members))
    ensures Lexes(doc, p, MembersTail(format, members), p + |FastMembersTail(yaml, format, members)|)
    decreases members, 0, 0
  {
    hide Lexes, StartsAt, FastMembers, MembersTokens, Quoted, FastText, SyntaxOf;
    if |members| == 1 {
      PunctuationToken(doc, p, "}", ObjectEnd);
    } else {
      var rest, tokens := FastMembers(yaml, format, members[1..]), MembersTokens(SyntaxMembers(format, members[1..]));
      StartsAtConcat(doc, p, ",", rest);
      FastMembersLex(yaml, format, doc, p + 1, members[1..]);
      PunctuationThen(doc, p, ",", ArraySeparator, tokens, p + 1 + |rest|);
    }
  }
}
