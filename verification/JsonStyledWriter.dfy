/**
 The pretty printer, its scratch list of child texts, and the tokens of what it writes.

 The trees carry no comments, so the comment hooks of the source print nothing.
 */
module JsonStyledWriter {
  import opened CText
  import opened JsonValue
  import opened JsonNumber
  import opened JsonLexer
  import opened JsonString
  import opened JsonSyntax
  import opened JsonText
  import opened JsonLayout

  const RIGHT_MARGIN := 74
  const INDENT := "   "  // indentSize_ spaces

  // ----- the layout, without any scratch list -----

  /** The document after `writeIndent`: a new line unless the text ends in a space already. */
  function OnNewLine(d: string, indent: string): string {
    if d == "" then indent
    else if d[|d| - 1] == ' ' then d
    else if d[|d| - 1] != '\n' then d + "\n" + indent
    else d + indent
  }

  /** 4 + 2 * (size - 1) + the lengths of the texts: the width of the array on one line. */
  function LineLength(format: Format, items: seq<Value>): int
    requires forall i :: 0 <= i < |items| ==> IsLeaf(items[i])
  {
    4 + (|items| - 1) * 2 + TextLengths(format, items, |items|)
  }

  function TextLengths(format: Format, items: seq<Value>, n: nat): nat
    requires n <= |items| && forall i :: 0 <= i < |items| ==> IsLeaf(items[i])
  {
    if n == 0 then 0 else TextLengths(format, items, n - 1) + |LeafText(format, items[n - 1])|
  }

  /** An array is laid out on one line when it holds only leaves and stays inside the margin. */
  predicate FitsOneLine(format: Format, items: seq<Value>) {
    && |items| * 3 < RIGHT_MARGIN
    && (forall i :: 0 <= i < |items| ==> IsLeaf(items[i]))
    && LineLength(format, items) < RIGHT_MARGIN
  }

  /** The document `d` after the pretty text of `v`, at indentation `indent`. */
  function Styled(format: Format, d: string, indent: string, v: Value): string
    decreases v, 1
  {
    if IsLeaf(v) then d + LeafText(format, v)
    else if v.ArrayVal? then
      if FitsOneLine(format, v.items) then d + "[ " + OneLine(format, v.items)
      else StyledItems(format, OnNewLine(d, indent) + "[", indent, v.items)
    else StyledMembers(format, OnNewLine(d, indent) + "{", indent, v.members)
  }

  function OneLine(format: Format, items: seq<Value>): string
    requires items != [] && forall i :: 0 <= i < |items| ==> IsLeaf(items[i])
    decreases |items|
  {
    LeafText(format, items[0]) + (if |items| == 1 then " ]" else ", " + OneLine(format, items[1..]))
  }

  /** The items, one to a line, with the closing bracket. */
  function StyledItems(format: Format, d: string, indent: string, items: seq<Value>): string
    requires items != []
    decreases items, 0
  {
    var d1 := Styled(format, OnNewLine(d, indent + INDENT), indent + INDENT, items[0]);
    if |items| == 1 then OnNewLine(d1, indent) + "]" else StyledItems(format, d1 + ",", indent, items[1..])
  }

  function StyledMembers(format: Format, d: string, indent: string, members: seq<Member>): string
    requires members != []
    decreases members, 0
  {
    var d0 := OnNewLine(d, indent + INDENT) + Quoted(members[0].name) + " : ";
    var d1 := Styled(format, d0, indent + INDENT, members[0].value);
    if |members| == 1 then OnNewLine(d1, indent) + "}" else StyledMembers(format, d1 + ",", indent, members[1..])
  }

  // ----- the writer -----

  class StyledWriter {
    const format: Format
    var document: string
    var indentString: string
    var childValues: seq<string>
    var addChildValues: bool

    constructor (format: Format)
      ensures this.format == format && document == "" && indentString == "" && !addChildValues && childValues == []
    {
      this.format := format;
      document, indentString, childValues, addChildValues := "", "", [], false;
    }

    /** Whatever is left in the scratch list by an earlier document does not show. */
    method Write(root: Value) returns (text: string)
      modifies this
      ensures text == document == Styled(format, "", "", root) + "\n"
      ensures indentString == "" && !addChildValues
    {
      document := "";
      addChildValues := false;
      indentString := "";
      WriteValue(root);
      document := document + "\n";
      text := document;
    }

    /**
     While child texts are collected, a leaf's text goes to the scratch list and nothing else changes;
     otherwise the document grows by the laid-out text and the indentation is restored.
     */
    method WriteValue(value: Value)
      requires addChildValues ==> IsLeaf(value)
      modifies this
      ensures addChildValues == old(addChildValues) && indentString == old(indentString)
      ensures old(addChildValues) ==>
                document == old(document) && childValues == old(childValues) + [LeafText(format, value)]
      ensures !old(addChildValues) ==> document == Styled(format, old(document), indentString, value)
      decreases value, 3
    {
      match value {
        case ArrayVal(items) => WriteArrayValue(items);
        case ObjectVal(members) =>
          if members == [] {
            PushValue("{}");
          } else {
            WriteMembers(members);
          }
        case _ =>
          var text := ScalarText(format, value);
          PushValue(text);
      }
    }

    method PushValue(value: string)
      modifies this`document, this`childValues
      ensures old(addChildValues) ==> document == old(document) && childValues == old(childValues) + [value]
      ensures !old(addChildValues) ==> document == old(document) + value
    {
      if addChildValues {
        childValues := childValues + [value];
      } else {
        document := document + value;
      }
    }

    method WriteIndent()
      modifies this`document
      ensures document == OnNewLine(old(document), indentString)
    {
      if document != "" {
        var last := document[|document| - 1];
        if last == ' ' {
          return;
        }
        if last != '\n' {
          document := document + "\n";
        }
      }
      document := document + indentString;
    }

    method WriteWithIndent(value: string)
      modifies this`document
      ensures document == OnNewLine(old(document), indentString) + value
    {
      WriteIndent();
      document := document + value;
    }

    method Indent()
      modifies this`indentString
      ensures indentString == old(indentString) + INDENT
    {
      indentString := indentString + INDENT;
    }

    /** The source asserts the precondition. */
    method Unindent()
      requires |indentString| >= |INDENT|
      modifies this`indentString
      ensures indentString == old(indentString)[..|old(indentString)| - |INDENT|]
    {
      indentString := indentString[..|indentString| - |INDENT|];
    }

    method WriteMembers(members: seq<Member>)
      requires !addChildValues && members != []
      modifies this
      ensures !addChildValues && indentString == old(indentString)
      ensures document
           == StyledMembers(format, OnNewLine(old(document), indentString) + "{", indentString, members)
      decreases members, 0
    {
      hide Styled, OnNewLine, Quoted;
      ghost var indent, target :=
        indentString, StyledMembers(format, OnNewLine(document, indentString) + "{", indentString, members);
      WriteWithIndent("{");
      Indent();
      var i := 0;
      while true
        invariant 0 <= i < |members| && !addChildValues && indentString == indent + INDENT
        invariant StyledMembers(format, document, indent, members[i..]) == target
        decreases |members| - i
      {
        assert members[i..][1..] == members[i + 1..];
        var name := ValueToQuotedString(members[i].name);
        WriteWithIndent(name);
        document := document + " : ";
        WriteValue(members[i].value);
        i := i + 1;
        if i == |members| {
          break;
        }
        document := document + ",";
      }
      Unindent();
      assert indentString == indent;
      WriteWithIndent("}");
    }

    method WriteArrayValue(items: seq<Value>)
      requires addChildValues ==> items == []
      modifies this
      ensures addChildValues == old(addChildValues) && indentString == old(indentString)
      ensures old(addChildValues) ==> document == old(document) && childValues == old(childValues) + ["[]"]
      ensures !old(addChildValues) ==> document == Styled(format, old(document), indentString, ArrayVal(items))
      decreases items, 2
    {
      if items == [] {
        PushValue("[]");
      } else {
        var isArrayMultiLine := IsMultilineArray(items);
        if isArrayMultiLine {
          WriteMultilineItems(items);
        } else {
          WriteOneLine(items);
        }
      }
    }

    /** The scratch list holds the text of every item. */
    ghost predicate ChildValuesOf(items: seq<Value>)
      reads this
    {
      && |childValues| == |items|
      && forall i :: 0 <= i < |items| ==> IsLeaf(items[i]) && childValues[i] == LeafText(format, items[i])
    }

    /** Decides the layout; the scratch list is left empty, or holding the text of every item. */
    method IsMultilineArray(items: seq<Value>) returns (isMultiLine: bool)
      requires !addChildValues && items != []
      modifies this
      ensures isMultiLine == !FitsOneLine(format, items)
      ensures document == old(document) && indentString == old(indentString) && !addChildValues
      ensures ChildValuesOf(items) || (isMultiLine && childValues == [])
      decreases items, 1
    {
      var size := |items|;
      isMultiLine := size * 3 >= RIGHT_MARGIN;
      childValues := [];
      var index := 0;
      while index < size && !isMultiLine
        invariant 0 <= index <= size
        invariant isMultiLine ==> size * 3 >= RIGHT_MARGIN || exists i :: 0 <= i < index && !IsLeaf(items[i])
        invariant !isMultiLine ==> size * 3 < RIGHT_MARGIN && forall i :: 0 <= i < index ==> IsLeaf(items[i])
      {
        var childValue := items[index];
        isMultiLine := (childValue.ArrayVal? && |childValue.items| > 0)
                       || (childValue.ObjectVal? && |childValue.members| > 0);
        assert isMultiLine == !IsLeaf(childValue);
        index := index + 1;
      }
      if !isMultiLine {
        addChildValues := true;
        var lineLength := CollectChildValues(items);
        addChildValues := false;
        isMultiLine := lineLength >= RIGHT_MARGIN;
      }
    }

    method CollectChildValues(items: seq<Value>) returns (lineLength: int)
      requires addChildValues && childValues == [] && forall i :: 0 <= i < |items| ==> IsLeaf(items[i])
      modifies this
      ensures document == old(document) && indentString == old(indentString) && addChildValues
      ensures ChildValuesOf(items) && lineLength == LineLength(format, items)
      decreases items, 0
    {
      hide LeafText, IsLeaf;
      lineLength := 4 + (|items| - 1) * 2;
      for index := 0 to |items|
        invariant document == old(document) && indentString == old(indentString) && addChildValues
        invariant |childValues| == index && forall i :: 0 <= i < index ==> childValues[i] == LeafText(format, items[i])
        invariant lineLength == 4 + (|items| - 1) * 2 + TextLengths(format, items, index)
      {
        WriteValue(items[index]);
        lineLength := lineLength + |childValues[index]|;
      }
    }

    method WriteOneLine(items: seq<Value>)
      requires !addChildValues && items != [] && ChildValuesOf(items)
      modifies this`document
      ensures document == old(document) + "[ " + OneLine(format, items)
    {
      hide LeafText, IsLeaf;
      assert |childValues| == |items|;  // asserted by the source
      document := document + "[ ";
      ghost var target := document + OneLine(format, items);
      for index := 0 to |items|
        invariant document + RestOfLine(format, items, index) == target
      {
        LineProgress(format, items, index, document);
        if index > 0 {
          document := document + ", ";
        }
        document := document + childValues[index];
      }
      document := document + " ]";
    }

    /** Scratch texts are used only when they were complete before the loop, and then no nested write happens. */
    method WriteMultilineItems(items: seq<Value>)
      requires !addChildValues && items != []
      requires ChildValuesOf(items) || childValues == []
      modifies this
      ensures !addChildValues && indentString == old(indentString)
      ensures document == StyledItems(format, OnNewLine(old(document), indentString) + "[", indentString, items)
      decreases items, 0
    {
      hide OnNewLine, LeafText;
      ghost var indent, target :=
        indentString, StyledItems(format, OnNewLine(document, indentString) + "[", indentString, items);
      WriteWithIndent("[");
      Indent();
      var hasChildValue := childValues != [];
      var index := 0;
      while true
        invariant 0 <= index < |items| && !addChildValues && indentString == indent + INDENT
        invariant hasChildValue ==> ChildValuesOf(items)
        invariant StyledItems(format, document, indent, items[index..]) == target
        decreases |items| - index
      {
        assert items[index..][1..] == items[index + 1..];
        if hasChildValue {
          WriteWithIndent(childValues[index]);
        } else {
          WriteIndent();
          WriteValue(items[index]);
        }
        index := index + 1;
        if index == |items| {
          break;
        }
        document := document + ",";
      }
      Unindent();
      assert indentString == indent;
      WriteWithIndent("]");
    }
  }

  /** What remains to be written of a line before item `index`. */
  ghost function RestOfLine(format: Format, items: seq<Value>, index: nat): string
    requires index <= |items| && forall i :: 0 <= i < |items| ==> IsLeaf(items[i])
  {
    if index == |items| then " ]" else CommaSpace(index) + OneLine(format, items[index..])
  }

  function CommaSpace(index: nat): string {
    if index > 0 then ", " else ""
  }

  lemma LineProgress(format: Format, items: seq<Value>, index: nat, d: string)
    requires index < |items| && forall i :: 0 <= i < |items| ==> IsLeaf(items[i])
    ensures d + RestOfLine(format, items, index)
            == d + CommaSpace(index) + LeafText(format, items[index]) + RestOfLine(format, items, index + 1)
    ensures d + CommaSpace(index) == if index > 0 then d + ", " else d
  {
    var first, tail := LeafText(format, items[index]), RestOfLine(format, items, index + 1);
    assert OneLine(format, items[index..]) == first + tail by {
      hide LeafText, IsLeaf;
      assert items[index..][1..] == items[index + 1..];
    }
    hide *;
    Associative(d, CommaSpace(index), first + tail);
    Associative(d + CommaSpace(index), first, tail);
  }

  // ----- the tokens -----

  predicate AllSpaces(s: string) {
    forall i :: 0 <= i < |s| ==> IsSpace(s[i])
  }

  /** A new line adds nothing but spaces. */
  lemma OnNewLineAddsSpaces(d: string, indent: string)
    requires AllSpaces(indent)
    ensures d <= OnNewLine(d, indent)
    ensures forall i :: |d| <= i < |OnNewLine(d, indent)| ==> IsSpace(OnNewLine(d, indent)[i])
  {
  }

  lemma {:induction false} StyledExtends(format: Format, d: string, indent: string, v: Value)
    requires AllSpaces(indent)
    ensures d <= Styled(format, d, indent, v)
    decreases v, 1
  {
    hide OnNewLine, LeafText;
    OnNewLineAddsSpaces(d, indent);
    if !IsLeaf(v) {
      if v.ObjectVal? {
        StyledMembersExtend(format, OnNewLine(d, indent) + "{", indent, v.members);
      } else if !FitsOneLine(format, v.items) {
        StyledItemsExtend(format, OnNewLine(d, indent) + "[", indent, v.items);
      }
    }
  }

  lemma {:induction false} StyledItemsExtend(format: Format, d: string, indent: string, items: seq<Value>)
    requires items != [] && AllSpaces(indent)
    ensures d <= StyledItems(format, d, indent, items)
    decreases items, 0
  {
    hide OnNewLine, Styled;
    var d0 := OnNewLine(d, indent + INDENT);
    var d1 := Styled(format, d0, indent + INDENT, items[0]);
    OnNewLineAddsSpaces(d, indent + INDENT);
    StyledExtends(format, d0, indent + INDENT, items[0]);
    OnNewLineAddsSpaces(d1, indent);
    if |items| > 1 {
      StyledItemsExtend(format, d1 + ",", indent, items[1..]);
    }
  }

  lemma {:induction false} StyledMembersExtend(format: Format, d: string, indent: string, members: seq<Member>)
    requires members != [] && AllSpaces(indent)
    ensures d <= StyledMembers(format, d, indent, members)
    decreases members, 0
  {
    hide OnNewLine, Styled, Quoted;
    var d0 := OnNewLine(d, indent + INDENT) + Quoted(members[0].name) + " : ";
    var d1 := Styled(format, d0, indent + INDENT, members[0].value);
    OnNewLineAddsSpaces(d, indent + INDENT);
    StyledExtends(format, d0, indent + INDENT, members[0].value);
    OnNewLineAddsSpaces(d1, indent);
    if |members| > 1 {
      StyledMembersExtend(format, d1 + ",", indent, members[1..]);
    }
  }

  /** What was appended to a prefix of the document stands in it. */
  lemma Appended(doc: string, d: string, text: string)
    requires d + text <= doc
    ensures StartsAt(doc, |d|, text) && d <= doc
  {
    assert doc[..|d + text|] == d + text;
  }

  /** Tokens behind a new line are the tokens before it. */
  lemma LexesOnNewLine(doc: string, d: string, indent: string, lexemes: seq<Lexeme>, q: nat)
    requires AllSpaces(indent) && OnNewLine(d, indent) <= doc
    requires lexemes != [] && Lexes(doc, |OnNewLine(d, indent)|, lexemes, q)
    ensures d <= doc && Lexes(doc, |d|, lexemes, q)
  {
    hide Lexes;
    var e := OnNewLine(d, indent);
    OnNewLineAddsSpaces(d, indent);
    hide OnNewLine;
    forall i | |d| <= i < |e| ensures IsSpace(doc[i]) {
      assert doc[i] == e[i];
    }
    LexesAfterSpaces(doc, |d|, |e|, lexemes, q);
  }

  /** A new line and an opening bracket. */
  lemma OpenLexes(
    doc: string, d: string, indent: string, open: string, kind: TokenType, rest: seq<Lexeme>, q: nat)
    requires AllSpaces(indent) && OnNewLine(d, indent) + open <= doc
    requires (open, kind) in {("{", ObjectBegin), ("[", ArrayBegin)}
    requires Lexes(doc, |OnNewLine(d, indent) + open|, rest, q)
    ensures Lexes(doc, |d|, [Lexeme(kind, open)] + rest, q)
  {
    hide Lexes, OnNewLine, StartsAt;
    var e := OnNewLine(d, indent);
    Appended(doc, e, open);
    PunctuationThen(doc, |e|, open, kind, rest, q);
    LexesOnNewLine(doc, d, indent, [Lexeme(kind, open)] + rest, q);
  }

  /** A new line and a closing bracket. */
  lemma CloseLexes(doc: string, d: string, indent: string, close: string, kind: TokenType)
    requires AllSpaces(indent) && OnNewLine(d, indent) + close <= doc
    requires (close, kind) in {("}", ObjectEnd), ("]", ArrayEnd)}
    ensures Lexes(doc, |d|, [Lexeme(kind, close)], |OnNewLine(d, indent)| + 1)
    ensures !IsNumberChar(At(doc, |d|))
  {
    hide Lexes, OnNewLine, StartsAt;
    var e := OnNewLine(d, indent);
    Appended(doc, e, close);
    PunctuationToken(doc, |e|, close, kind);
    NotNumberAfter(doc, |e|, close);
    LexesOnNewLine(doc, d, indent, [Lexeme(kind, close)], |e| + 1);
    OnNewLineAddsSpaces(d, indent);
    if |d| < |e| {
      assert IsSpace(doc[|d|]) by { assert doc[|d|] == e[|d|]; }
    }
  }

  /** In any continuation of the pretty text of `v`, that text reads as the tokens of `v`. */
  lemma {:induction false} StyledLexes(format: Format, doc: string, d: string, indent: string, v: Value)
    requires Printable(format, v) && AllSpaces(indent)
    requires Styled(format, d, indent, v) <= doc && !IsNumberChar(At(doc, |Styled(format, d, indent, v)|))
    ensures Lexes(doc, |d|, SyntaxTokens(SyntaxOf(format, v)), |Styled(format, d, indent, v)|)
    decreases v, 1
  {
    hide Lexes, StartsAt, OnNewLine;
    if IsLeaf(v) {
      Appended(doc, d, LeafText(format, v));
      LeafLexes(format, doc, |d|, v);
    } else if v.ObjectVal? {
      var d0 := OnNewLine(d, indent) + "{";
      StyledMembersExtend(format, d0, indent, v.members);
      StyledMembersLex(format, doc, d0, indent, v.members);
      OpenLexes(doc, d, indent, "{", ObjectBegin, MembersTokens(SyntaxMembers(format, v.members)),
                |StyledMembers(format, d0, indent, v.members)|);
    } else if FitsOneLine(format, v.items) {
      LineLexes(format, doc, d, v.items);
    } else {
      var d0 := OnNewLine(d, indent) + "[";
      StyledItemsExtend(format, d0, indent, v.items);
      StyledItemsLex(format, doc, d0, indent, v.items);
      OpenLexes(doc, d, indent, "[", ArrayBegin, ItemsTokens(SyntaxItems(format, v.items)),
                |StyledItems(format, d0, indent, v.items)|);
    }
  }

  lemma {:induction false} StyledItemsLex(format: Format, doc: string, d: string, indent: string, items: seq<Value>)
    requires items != [] && PrintableItems(format, items) && AllSpaces(indent)
    requires StyledItems(format, d, indent, items) <= doc
    ensures Lexes(doc, |d|, ItemsTokens(SyntaxItems(format, items)), |StyledItems(format, d, indent, items)|)
    decreases items, 0
  {
    hide Lexes, StartsAt, OnNewLine, Styled, SyntaxOf, SyntaxTokens, IsNumberChar;
    var inner := indent + INDENT;
    var d0 := OnNewLine(d, inner);
    var d1 := Styled(format, d0, inner, items[0]);
    var all := StyledItems(format, d, indent, items);
    if |items| == 1 {
      CloseLexes(doc, d1, indent, "]", ArrayEnd);
      OnNewLineAddsSpaces(d1, indent);
    } else {
      StyledItemsExtend(format, d1 + ",", indent, items[1..]);
      StyledItemsLex(format, doc, d1 + ",", indent, items[1..]);
      CommaLexes(doc, d1, ItemsTokens(SyntaxItems(format, items[1..])), |all|);
    }
    assert d1 <= doc && Lexes(doc, |d1|, ItemsTail(format, items), |all|) && !IsNumberChar(At(doc, |d1|));
    StyledLexes(format, doc, d0, inner, items[0]);
    LexesConcat(doc, |d0|, SyntaxTokens(SyntaxOf(format, items[0])), |d1|, ItemsTail(format, items), |all|);
    ItemsTokensSplit(format, items);
    StyledExtends(format, d0, inner, items[0]);
    LexesOnNewLine(doc, d, inner, ItemsTokens(SyntaxItems(format, items)), |all|);
  }

  /** A comma after `d`, and the tokens behind it. */
  lemma CommaLexes(doc: string, d: string, rest: seq<Lexeme>, q: nat)
    requires d + "," <= doc && Lexes(doc, |d| + 1, rest, q)
    ensures Lexes(doc, |d|, COMMA + rest, q) && !IsNumberChar(At(doc, |d|))
  {
    hide Lexes, StartsAt;
    Appended(doc, d, ",");
    NotNumberAfter(doc, |d|, ",");
    PunctuationThen(doc, |d|, ",", ArraySeparator, rest, q);
  }

  lemma {:induction false} StyledMembersLex(
    format: Format, doc: string, d: string, indent: string, members: seq<Member>)
    requires members != [] && PrintableMembers(format, members) && AllSpaces(indent)
    requires StyledMembers(format, d, indent, members) <= doc
    ensures Lexes(doc, |d|, MembersTokens(SyntaxMembers(format, members)), |StyledMembers(format, d, indent, members)|)
    decreases members, 0
  {
    hide Lexes, StartsAt, OnNewLine, Styled, SyntaxOf, SyntaxTokens, IsNumberChar, Quoted, QuoteUnits, CStr,
      MembersTokens, UnitsText;
    var inner, m := indent + INDENT, members[0];
    var e := OnNewLine(d, inner);
    var d0 := e + Quoted(m.name) + " : ";
    var d1 := Styled(format, d0, inner, m.value);
    var all := StyledMembers(format, d, indent, members);
    var valueTokens := SyntaxTokens(SyntaxOf(format, m.value));
    if |members| == 1 {
      CloseLexes(doc, d1, indent, "}", ObjectEnd);
      OnNewLineAddsSpaces(d1, indent);
    } else {
      StyledMembersExtend(format, d1 + ",", indent, members[1..]);
      StyledMembersLex(format, doc, d1 + ",", indent, members[1..]);
      CommaLexes(doc, d1, MembersTokens(SyntaxMembers(format, members[1..])), |all|);
    }
    assert d1 <= doc && Lexes(doc, |d1|, MembersTail(format, members), |all|) && !IsNumberChar(At(doc, |d1|));
    StyledLexes(format, doc, d0, inner, m.value);
    LexesConcat(doc, |d0|, valueTokens, |d1|, MembersTail(format, members), |all|);
    StyledExtends(format, d0, inner, m.value);
    Appended(doc, e + Quoted(m.name), " : ");
    Appended(doc, e, Quoted(m.name));
    NameLexes(doc, |e|, m.name, " : ", valueTokens + MembersTail(format, members), |all|);
    MembersTokensSplit(format, members);
    LexesOnNewLine(doc, d, inner, MembersTokens(SyntaxMembers(format, members)), |all|);
  }

  lemma LineLexes(format: Format, doc: string, d: string, items: seq<Value>)
    requires items != [] && PrintableItems(format, items) && forall i :: 0 <= i < |items| ==> IsLeaf(items[i])
    requires d + "[ " + OneLine(format, items) <= doc
    ensures Lexes(doc, |d|, OPEN_ARRAY + ItemsTokens(SyntaxItems(format, items)),
                  |d + "[ " + OneLine(format, items)|)
  {
    hide Lexes, OneLine, ItemsTokens, SyntaxItems, IsLeaf;
    var tokens, q := ItemsTokens(SyntaxItems(format, items)), |d| + 2 + |OneLine(format, items)|;
    Appended(doc, d + "[ ", OneLine(format, items));
    OneLineLexes(format, doc, |d| + 2, items);
    Appended(doc, d, "[ ");
    StartsAtIndex(doc, |d|, "[ ", 1);
    LexesAfterSpace(doc, |d| + 1, tokens, q);
    assert "[ " == "[" + " ";
    StartsAtConcat(doc, |d|, "[", " ");
    PunctuationThen(doc, |d|, "[", ArrayBegin, tokens, q);
  }

  lemma {:induction false} OneLineLexes(format: Format, doc: string, p: nat, items: seq<Value>)
    requires items != [] && PrintableItems(format, items) && forall i :: 0 <= i < |items| ==> IsLeaf(items[i])
    requires StartsAt(doc, p, OneLine(format, items))
    ensures Lexes(doc, p, ItemsTokens(SyntaxItems(format, items)), p + |OneLine(format, items)|)
    decreases |items|
  {
    hide Lexes, StartsAt, LeafText, IsLeaf, IsNumberChar, SyntaxOf, SyntaxTokens;
    var first, tail := LeafText(format, items[0]), OneLineTail(format, items);
    var m, q := p + |first|, p + |first| + |tail|;
    assert OneLine(format, items) == first + tail;
    StartsAtConcat(doc, p, first, tail);
    NotNumberAfter(doc, m, tail);
    LeafLexes(format, doc, p, items[0]);
    OneLineTailLexes(format, doc, m, items);
    LexesConcat(doc, p, SyntaxTokens(SyntaxOf(format, items[0])), m, ItemsTail(format, items), q);
    ItemsTokensSplit(format, items);
  }

  function OneLineTail(format: Format, items: seq<Value>): (text: string)
    requires items != [] && forall i :: 0 <= i < |items| ==> IsLeaf(items[i])
    ensures text != "" && !IsNumberChar(text[0])
  {
    if |items| == 1 then " ]" else ", " + OneLine(format, items[1..])
  }

  lemma {:induction false} OneLineTailLexes(format: Format, doc: string, p: nat, items: seq<Value>)
    requires items != [] && PrintableItems(format, items) && forall i :: 0 <= i < |items| ==> IsLeaf(items[i])
    requires StartsAt(doc, p, OneLineTail(format, items))
    ensures Lexes(doc, p, ItemsTail(format, items), p + |OneLineTail(format, items)|)
    decreases |items|, 0
  {
    hide Lexes, LeafText, IsLeaf, OneLine, ItemsTokens, SyntaxItems, StartsAt;
    if |items| == 1 {
      LineEndLexes(doc, p);
    } else {
      var rest := OneLine(format, items[1..]);
      var tokens, q := ItemsTokens(SyntaxItems(format, items[1..])), p + 2 + |rest|;
      StartsAtConcat(doc, p, ", ", rest);
      OneLineLexes(format, doc, p + 2, items[1..]);
      CommaSpaceLexes(doc, p, tokens, q);
    }
  }

  lemma LineEndLexes(doc: string, p: nat)
    requires StartsAt(doc, p, " ]")
    ensures Lexes(doc, p, CLOSE_ARRAY, p + 2)
  {
    hide Lexes;
    StartsAtIndex(doc, p, " ]", 0);
    assert " ]" == " " + "]";
    StartsAtConcat(doc, p, " ", "]");
    PunctuationToken(doc, p + 1, "]", ArrayEnd);
    LexesAfterSpace(doc, p, CLOSE_ARRAY, p + 2);
  }

  lemma CommaSpaceLexes(doc: string, p: nat, tokens: seq<Lexeme>, q: nat)
    requires StartsAt(doc, p, ", ") && tokens != [] && Lexes(doc, p + 2, tokens, q)
    ensures Lexes(doc, p, COMMA + tokens, q)
  {
    hide Lexes;
    StartsAtIndex(doc, p, ", ", 1);
    LexesAfterSpace(doc, p + 1, tokens, q);
    assert ", " == "," + " ";
    StartsAtConcat(doc, p, ",", " ");
    PunctuationThen(doc, p, ",", ArraySeparator, tokens, q);
  }
}
