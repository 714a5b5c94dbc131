/**
 The texts the reader accepts, with all they may hold beside the grammar: comments, a separator of any kind
 behind a comment, and a comma before a closing brace.
 */
module JsonDialect {
  import opened CText
  import opened JsonValue
  import opened JsonNumber
  import opened JsonLexer
  import opened JsonString
  import opened JsonSyntax

  /** A value and the comments before it. */
  datatype Raw =
    | RawScalar(before: seq<Lexeme>, text: Syntax)
    | RawArray(before: seq<Lexeme>, items: Option<RawItems>)
    | RawObject(before: seq<Lexeme>, members: RawMembers)

  /** An item, the comments behind it, and the closing bracket or a comma and more. */
  datatype RawItems =
    | LastItem(value: Raw, after: seq<Lexeme>)
    | MoreItems(value: Raw, after: seq<Lexeme>, rest: RawItems)

  /** The closing brace, or a member; and the comments before it. */
  datatype RawMembers =
    | Closed(before: seq<Lexeme>)
    | RawMember(before: seq<Lexeme>, name: seq<Unit>, value: Raw, after: seq<Lexeme>, end: RawEnd)

  /** What stands behind a member and its comments: the closing brace, or a separator and more. */
  datatype RawEnd =
    | Brace
    | Separator(mark: Lexeme, rest: RawMembers)

  predicate AreComments(ts: seq<Lexeme>) {
    forall i :: 0 <= i < |ts| ==> ts[i].kind == Comment
  }

  predicate IsScalar(s: Syntax) {
    !s.ArrayText? && !s.ObjectText?
  }

  predicate ValidRaw(r: Raw)
    decreases r
  {
    && AreComments(r.before)
    && match r
       case RawScalar(_, text) => IsScalar(text) && ValidSyntax(text)
       case RawArray(_, items) => items.None? || ValidRawItems(items.value)
       case RawObject(_, members) => ValidRawMembers(members)
  }

  predicate ValidRawItems(items: RawItems)
    decreases items
  {
    ValidRaw(items.value) && AreComments(items.after) && (items.MoreItems? ==> ValidRawItems(items.rest))
  }

  /** Behind a comment any token but a brace or another comment serves as a separator. */
  predicate ValidMark(after: seq<Lexeme>, mark: Lexeme) {
    if after == [] then [mark] == COMMA else mark.kind != ObjectEnd && mark.kind != Comment
  }

  predicate ValidRawMembers(members: RawMembers)
    decreases members
  {
    && AreComments(members.before)
    && (members.RawMember? ==>
          && ValidUnits(members.name) && ValidRaw(members.value) && AreComments(members.after)
          && (members.end.Separator? ==>
                ValidMark(members.after, members.end.mark) && ValidRawMembers(members.end.rest)))
  }

  /** No comment stands before a value: only there the reader does not always skip them. */
  predicate IsBare(r: Raw)
    decreases r
  {
    && r.before == []
    && match r
       case RawScalar(_, _) => true
       case RawArray(_, items) => items.None? || AreBareItems(items.value)
       case RawObject(_, members) => AreBareMembers(members)
  }

  predicate AreBareItems(items: RawItems)
    decreases items
  {
    IsBare(items.value) && (items.MoreItems? ==> AreBareItems(items.rest))
  }

  predicate AreBareMembers(members: RawMembers)
    decreases members
  {
    members.RawMember? ==> IsBare(members.value) && (members.end.Separator? ==> AreBareMembers(members.end.rest))
  }

  // ----- tokens -----

  function RawTokens(r: Raw): seq<Lexeme>
    decreases r
  {
    match r
    case RawScalar(before, text) => before + SyntaxTokens(text)
    case RawArray(before, items) =>
      before + (OPEN_ARRAY + if items.None? then CLOSE_ARRAY else RawItemsTokens(items.value))
    case RawObject(before, members) => before + (OPEN_OBJECT + RawMembersTokens(members))
  }

  function RawItemsTokens(items: RawItems): seq<Lexeme>
    decreases items
  {
    match items
    case LastItem(value, after) => RawTokens(value) + (after + CLOSE_ARRAY)
    case MoreItems(value, after, rest) => RawTokens(value) + (after + (COMMA + RawItemsTokens(rest)))
  }

  function RawMembersTokens(members: RawMembers): seq<Lexeme>
    decreases members
  {
    match members
    case Closed(before) => before + CLOSE_OBJECT
    case RawMember(before, name, value, after, end) =>
      before + (NameTokens(name) + (COLON + (RawTokens(value) + (after + RawEndTokens(end)))))
  }

  function RawEndTokens(end: RawEnd): seq<Lexeme>
    decreases end
  {
    match end
    case Brace => CLOSE_OBJECT
    case Separator(mark, rest) => [mark] + RawMembersTokens(rest)
  }

  // ----- what the texts stand for -----

  /** The value that the reader makes of a text, if all of it has a meaning and every object is closed well. */
  function Reading(scan: Scan, r: Raw): Option<Value>
    requires ValidRaw(r)
    decreases r
  {
    match r
    case RawScalar(_, text) => Meaning(scan, text)
    case RawArray(_, items) =>
      if items.None? then Some(ArrayVal([]))
      else
        (match ItemsReading(scan, items.value)
         case Some(values) => Some(ArrayVal(values))
         case None => None)
    case RawObject(_, members) =>
      (match MembersReading(scan, members, [], "")
       case Some(values) => Some(ObjectVal(values))
       case None => None)
  }

  function ItemsReading(scan: Scan, items: RawItems): Option<seq<Value>>
    requires ValidRawItems(items)
    decreases items
  {
    var first := Reading(scan, items.value);
    Cons(first, if items.LastItem? then Some([]) else ItemsReading(scan, items.rest))
  }

  /** An object may be closed behind a separator only if the last member, called `before`, has the empty name. */
  function MembersReading(scan: Scan, members: RawMembers, stored: seq<Member>, before: string): Option<seq<Member>>
    requires ValidRawMembers(members)
    decreases members
  {
    match members
    case Closed(_) => if before == "" then Some(stored) else None
    case RawMember(_, name, value, _, end) =>
      var key, read := UnitsMeaning(name), Reading(scan, value);
      if key.Some? && read.Some? then
        var all := Put(stored, CStr(key.value), read.value);
        if end.Brace? then Some(all) else MembersReading(scan, end.rest, all, key.value)
      else None
  }
}
