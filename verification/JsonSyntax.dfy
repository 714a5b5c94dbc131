/**
 Texts as syntax trees, their tokens and their meaning.

 The structure of arrays and objects is that of RFC 8259; strings are lists of units, and numbers are the
 number tokens of the reader. `JsonGrammar` says which of them are strings and numbers of the standard.
 The meaning of an object is its members stored one after another in a map.
 */
module JsonSyntax {
  import opened CText
  import opened JsonValue
  import opened JsonNumber
  import opened JsonLexer
  import opened JsonString

  datatype MemberText = MemberText(name: seq<Unit>, value: Syntax)

  datatype Syntax =
    | NullText
    | TrueText
    | FalseText
    | NumberText(text: string)
    | StringText(units: seq<Unit>)
    | ArrayText(items: seq<Syntax>)
    | ObjectText(members: seq<MemberText>)

  predicate ValidSyntax(s: Syntax)
    decreases s, 1
  {
    match s
    case NumberText(text) => IsNumberToken(text)
    case StringText(units) => ValidUnits(units)
    case ArrayText(items) => ValidItems(items)
    case ObjectText(members) => ValidMembers(members)
    case _ => true
  }

  predicate ValidItems(items: seq<Syntax>)
    decreases items, 0
  {
    items == [] || (ValidSyntax(items[0]) && ValidItems(items[1..]))
  }

  predicate ValidMembers(members: seq<MemberText>)
    decreases members, 0
  {
    members == [] || (ValidUnits(members[0].name) && ValidSyntax(members[0].value) && ValidMembers(members[1..]))
  }

  // ----- tokens -----

  const COMMA := [Lexeme(ArraySeparator, ",")]
  const COLON := [Lexeme(MemberSeparator, ":")]
  const OPEN_ARRAY := [Lexeme(ArrayBegin, "[")]
  const CLOSE_ARRAY := [Lexeme(ArrayEnd, "]")]
  const OPEN_OBJECT := [Lexeme(ObjectBegin, "{")]
  const CLOSE_OBJECT := [Lexeme(ObjectEnd, "}")]

  function NameTokens(name: seq<Unit>): seq<Lexeme> {
    [Lexeme(StringToken, QuotedUnits(name))]
  }

  function SyntaxTokens(s: Syntax): (ts: seq<Lexeme>)
    ensures ts != [] && ts[0].kind !in {ArrayEnd, ObjectEnd, Comment, EndOfStream}
    decreases s, 1
  {
    match s
    case NullText => [Lexeme(NullToken, "null")]
    case TrueText => [Lexeme(TrueToken, "true")]
    case FalseText => [Lexeme(FalseToken, "false")]
    case NumberText(text) => [Lexeme(NumberToken, text)]
    case StringText(units) => NameTokens(units)
    case ArrayText(items) => OPEN_ARRAY + (if items == [] then CLOSE_ARRAY else ItemsTokens(items))
    case ObjectText(members) => OPEN_OBJECT + (if members == [] then CLOSE_OBJECT else MembersTokens(members))
  }

  /** The items, with the closing bracket. */
  function ItemsTokens(items: seq<Syntax>): (ts: seq<Lexeme>)
    requires items != []
    ensures ts != []
    decreases items, 0
  {
    SyntaxTokens(items[0]) + (if |items| == 1 then CLOSE_ARRAY else COMMA + ItemsTokens(items[1..]))
  }

  function MembersTokens(members: seq<MemberText>): (ts: seq<Lexeme>)
    requires members != []
    ensures ts != []
    decreases members, 0
  {
    NameTokens(members[0].name) + (COLON + (SyntaxTokens(members[0].value)
      + (if |members| == 1 then CLOSE_OBJECT else COMMA + MembersTokens(members[1..]))))
  }

  // ----- meaning -----

  /** The value a text denotes; there is none if a string or a number in it denotes none. */
  function Meaning(scan: Scan, s: Syntax): Option<Value>
    requires ValidSyntax(s)
    decreases s, 1
  {
    match s
    case NullText => Some(NullVal)
    case TrueText => Some(BoolVal(true))
    case FalseText => Some(BoolVal(false))
    case NumberText(text) => NumberMeaning(scan, text)
    case StringText(units) =>
      (match UnitsMeaning(units)
       case Some(text) => Some(StringVal(CStr(text)))
       case None => None)
    case ArrayText(items) =>
      (match ItemsMeaning(scan, items)
       case Some(values) => Some(ArrayVal(values))
       case None => None)
    case ObjectText(members) =>
      (match MembersMeaning(scan, members, [])
       case Some(values) => Some(ObjectVal(values))
       case None => None)
  }

  function ItemsMeaning(scan: Scan, items: seq<Syntax>): Option<seq<Value>>
    requires ValidItems(items)
    decreases items, 0
  {
    if items == [] then Some([]) else Cons(Meaning(scan, items[0]), ItemsMeaning(scan, items[1..]))
  }

  function Cons(first: Option<Value>, rest: Option<seq<Value>>): Option<seq<Value>> {
    if first.Some? && rest.Some? then Some([first.value] + rest.value) else None
  }

  /** The members stored in order over those `stored` before: of equal names, the last one counts. */
  function MembersMeaning(scan: Scan, members: seq<MemberText>, stored: seq<Member>): Option<seq<Member>>
    requires ValidMembers(members)
    decreases members, 0
  {
    if members == [] then Some(stored)
    else
      var name := UnitsMeaning(members[0].name);
      var value := Meaning(scan, members[0].value);
      if name.Some? && value.Some? then
        MembersMeaning(scan, members[1..], Put(stored, CStr(name.value), value.value))
      else None
  }

  lemma MembersMeaningStep(scan: Scan, members: seq<MemberText>, stored: seq<Member>)
    requires members != [] && ValidMembers(members)
    ensures var name, value := UnitsMeaning(members[0].name), Meaning(scan, members[0].value);
            if name.Some? && value.Some? then
              var read := Put(stored, CStr(name.value), value.value);
              && MembersMeaning(scan, members, stored) == MembersMeaning(scan, members[1..], read)
              && (|members| == 1 ==> MembersMeaning(scan, members, stored) == Some(read))
            else MembersMeaning(scan, members, stored) == None
  {
  }
}
