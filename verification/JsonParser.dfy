/**
 What parsing a document gives: the success flag, the tree built so far, the cursor and the errors.

 These functions specify the methods of `Reader`. Their contracts hold for every document and every
 start position: the recursion ends, the cursor stays inside the document and only moves forward, and
 a value is accepted exactly when no error was recorded for it.
 */
module JsonParser {
  import opened CText
  import opened JsonValue
  import opened JsonNumber
  import opened JsonLexer
  import opened JsonString

  /** `Features`, and the `sscanf( "%lf" )` the reader decodes doubles with. */
  datatype Config = Config(allowComments: bool, strictRoot: bool, scan: Scan)

  datatype ErrorInfo = ErrorInfo(message: Message, token: Token, extra: Option<nat>)

  datatype Outcome = Outcome(ok: bool, value: Value, pos: nat, errors: seq<ErrorInfo>)

  /** The token `skipCommentTokens` stops at. */
  function FirstToken(cfg: Config, doc: string, p: nat): (t: Token)
    requires p <= |doc|
    ensures p <= t.start <= t.end <= |doc| && (t.kind != EndOfStream ==> t.start < t.end)
    ensures t.kind == StringToken ==> t.start + 2 <= t.end
    ensures t.kind == NumberToken ==> IsNumberToken(doc[t.start..t.end])
  {
    if cfg.allowComments then PastComments(doc, TokenAt(doc, p)) else TokenAt(doc, p)
  }

  function Failure(value: Value, pos: nat, message: Message, t: Token, extra: Option<nat>): Outcome {
    Outcome(false, value, pos, [ErrorInfo(message, t, extra)])
  }

  function ParseNumber(cfg: Config, doc: string, t: Token, value: Value): Outcome
    requires t.start <= t.end <= |doc| && IsNumberToken(doc[t.start..t.end])
  {
    var text := doc[t.start..t.end];
    match NumberMeaning(cfg.scan, text)
    case Some(number) => Outcome(true, number, t.end, [])
    case None => Failure(value, t.end, NotANumber(text), t, None)
  }

  function ParseString(doc: string, t: Token, value: Value): Outcome
    requires t.start + 2 <= t.end <= |doc|
  {
    match DecodeToken(doc, t.start, t.end)
    case Text(text) => Outcome(true, StringVal(CStr(text)), t.end, [])
    case BadText(message, extra) => Failure(value, t.end, message, t, Some(extra))
  }

  /** `readValue` at `p`, for a place in the tree that holds `value`. */
  function ParseValue(cfg: Config, doc: string, p: nat, value: Value): (o: Outcome)
    requires p <= |doc|
    ensures p <= o.pos <= |doc|
    ensures o.ok <==> o.errors == []
    decreases |doc| - p, 0
  {
    var t := FirstToken(cfg, doc, p);
    match t.kind
    case ObjectBegin => ParseMembers(cfg, doc, t.end, [], "")
    case ArrayBegin => ParseArray(cfg, doc, t.end)
    case NumberToken => ParseNumber(cfg, doc, t, value)
    case StringToken => ParseString(doc, t, value)
    case TrueToken => Outcome(true, BoolVal(true), t.end, [])
    case FalseToken => Outcome(true, BoolVal(false), t.end, [])
    case NullToken => Outcome(true, NullVal, t.end, [])
    case _ => Failure(value, t.end, ValueExpected, t, None)
  }

  /** `readArray`, from behind the opening bracket. */
  function ParseArray(cfg: Config, doc: string, p: nat): (o: Outcome)
    requires p <= |doc|
    ensures p <= o.pos <= |doc|
    ensures o.ok <==> o.errors == []
    decreases |doc| - p, 2
  {
    var q := AfterSpaces(doc, p);
    if At(doc, q) == ']' then Outcome(true, ArrayVal([]), TokenAt(doc, q).end, [])
    else ParseItems(cfg, doc, q, [])
  }

  /** What the punctuation around an element leads to. */
  datatype Step =
    | Close(end: nat)                     // the closing bracket, read up to `end`
    | Next(name: string, next: nat)       // another element begins at `next`
    | Broken(error: ErrorInfo, end: nat)  // an error, and the enclosing brackets skipped up to `end`

  /** The error at `t`, with the rest of the enclosing brackets skipped. */
  function BrokenAt(doc: string, message: Message, t: Token, extra: Option<nat>, until: TokenType): (s: Step)
    requires t.end <= |doc|
    ensures s.Broken? && t.end <= s.end <= |doc|
  {
    Broken(ErrorInfo(message, t, extra), AfterRecovery(doc, t.end, until))
  }

  /** After an array element: comments, then a separator or the closing bracket. */
  function AfterItem(doc: string, p: nat): (s: Step)
    requires p <= |doc|
    ensures s.Next? ==> p < s.next <= |doc|
    ensures !s.Next? ==> p <= s.end <= |doc|
  {
    var t := PastComments(doc, TokenAt(doc, p));
    if t.kind == ArrayEnd then Close(t.end)
    else if t.kind == ArraySeparator then Next("", t.end)
    else BrokenAt(doc, MissingCommaInArray, t, None, ArrayEnd)
  }

  /**
   Before a member: its name and colon, or the closing bracket. The bracket is taken as long as no
   member with a non-empty name came before.
   */
  function BeforeMember(doc: string, p: nat, name: string): (s: Step)
    requires p <= |doc|
    ensures s.Next? ==> p < s.next <= |doc|
    ensures !s.Next? ==> p <= s.end <= |doc|
  {
    var t := PastComments(doc, TokenAt(doc, p));
    if t.kind == ObjectEnd && name == "" then Close(t.end)
    else if t.kind != StringToken then BrokenAt(doc, MissingName, t, None, ObjectEnd)
    else
      match DecodeToken(doc, t.start, t.end)
      case BadText(message, extra) => BrokenAt(doc, message, t, Some(extra), ObjectEnd)
      case Text(newName) =>
        var colon := TokenAt(doc, t.end);
        if colon.kind != MemberSeparator then BrokenAt(doc, MissingColon, colon, None, ObjectEnd)
        else Next(newName, colon.end)
  }

  /** After a member: a separator or the closing bracket, or a comment and then any token at all. */
  function AfterMember(doc: string, p: nat): (s: Step)
    requires p <= |doc|
    ensures s.Next? ==> p < s.next <= |doc|
    ensures !s.Next? ==> p <= s.end <= |doc|
  {
    var comma := TokenAt(doc, p);
    if comma.kind != ObjectEnd && comma.kind != ArraySeparator && comma.kind != Comment then
      BrokenAt(doc, MissingCommaInObject, comma, None, ObjectEnd)
    else
      var t := PastComments(doc, comma);
      if t.kind == ObjectEnd then Close(t.end) else Next("", t.end)
  }

  /** The loop of `readArray`, `items` having been read before `p`. */
  function ParseItems(cfg: Config, doc: string, p: nat, items: seq<Value>): (o: Outcome)
    requires p <= |doc|
    ensures p <= o.pos <= |doc|
    ensures o.ok <==> o.errors == []
    decreases |doc| - p, 1
  {
    var item := ParseValue(cfg, doc, p, NullVal);
    var read := items + [item.value];
    if !item.ok then Outcome(false, ArrayVal(read), AfterRecovery(doc, item.pos, ArrayEnd), item.errors)
    else
      match AfterItem(doc, item.pos)
      case Close(end) => Outcome(true, ArrayVal(read), end, [])
      case Broken(error, end) => Outcome(false, ArrayVal(read), end, [error])
      case Next(_, next) => ParseItems(cfg, doc, next, read)
  }

  /** The place a member's value is read into: what an earlier member of that name left, or null. */
  function Place(members: seq<Member>, key: string): Value {
    match Find(members, key)
    case Some(value) => value
    case None => NullVal
  }

  /** The loop of `readObject`, `members` having been read before `p`, the last of them called `name`. */
  function ParseMembers(cfg: Config, doc: string, p: nat, members: seq<Member>, name: string): (o: Outcome)
    requires p <= |doc|
    ensures p <= o.pos <= |doc|
    ensures o.ok <==> o.errors == []
    decreases |doc| - p, 1
  {
    match BeforeMember(doc, p, name)
    case Close(end) => Outcome(true, ObjectVal(members), end, [])
    case Broken(error, end) => Outcome(false, ObjectVal(members), end, [error])
    case Next(newName, q) =>
      var key := CStr(newName);
      var member := ParseValue(cfg, doc, q, Place(members, key));
      var read := Put(members, key, member.value);
      if !member.ok then Outcome(false, ObjectVal(read), AfterRecovery(doc, member.pos, ObjectEnd), member.errors)
      else
        match AfterMember(doc, member.pos)
        case Close(end) => Outcome(true, ObjectVal(read), end, [])
        case Broken(error, end) => Outcome(false, ObjectVal(read), end, [error])
        case Next(_, next) => ParseMembers(cfg, doc, next, read, newName)
  }

  /** `parse`: the root value, and the root check of strict mode. Text after the root value is not looked at. */
  function ParseDocument(cfg: Config, doc: string, root: Value): (o: Outcome)
    ensures o.ok <==> o.errors == []
  {
    var o := ParseValue(cfg, doc, 0, root);
    var t := FirstToken(cfg, doc, o.pos);
    if cfg.strictRoot && !o.value.ArrayVal? && !o.value.ObjectVal? then
      Outcome(false, o.value, t.end, o.errors + [ErrorInfo(BadRoot, Token(ErrorToken, 0, |doc|), None)])
    else o.(pos := t.end)
  }

  // ----- the trees that parsing builds -----

  lemma ParseNumberWellFormed(cfg: Config, doc: string, t: Token, value: Value)
    requires t.start <= t.end <= |doc| && IsNumberToken(doc[t.start..t.end]) && WellFormed(value)
    ensures WellFormed(ParseNumber(cfg, doc, t, value).value)
  {
  }

  /** Whatever the document, every tree left behind is well formed: also after errors, and over a used root. */
  lemma {:induction false} ParseValueWellFormed(cfg: Config, doc: string, p: nat, value: Value)
    requires p <= |doc| && WellFormed(value)
    ensures WellFormed(ParseValue(cfg, doc, p, value).value)
    decreases |doc| - p, 0
  {
    var t := FirstToken(cfg, doc, p);
    match t.kind
    case ObjectBegin => ParseMembersWellFormed(cfg, doc, t.end, [], "");
    case ArrayBegin =>
      var q := AfterSpaces(doc, t.end);
      if At(doc, q) != ']' {
        ParseItemsWellFormed(cfg, doc, q, []);
      }
    case NumberToken => ParseNumberWellFormed(cfg, doc, t, value);
    case _ =>
  }

  lemma {:induction false} ParseItemsWellFormed(cfg: Config, doc: string, p: nat, items: seq<Value>)
    requires p <= |doc| && WellFormedItems(items)
    ensures WellFormed(ParseItems(cfg, doc, p, items).value)
    decreases |doc| - p, 1
  {
    ParseValueWellFormed(cfg, doc, p, NullVal);
    var item := ParseValue(cfg, doc, p, NullVal);
    if item.ok && AfterItem(doc, item.pos).Next? {
      ParseItemsWellFormed(cfg, doc, AfterItem(doc, item.pos).next, items + [item.value]);
    }
  }

  lemma PlaceWellFormed(members: seq<Member>, key: string)
    requires WellFormed(ObjectVal(members))
    ensures WellFormed(Place(members, key))
  {
    FindSpec(members, key);
  }

  lemma {:induction false} ParseMembersWellFormed(
    cfg: Config, doc: string, p: nat, members: seq<Member>, name: string)
    requires p <= |doc| && WellFormed(ObjectVal(members))
    ensures WellFormed(ParseMembers(cfg, doc, p, members, name).value)
    decreases |doc| - p, 1
  {
    var step := BeforeMember(doc, p, name);
    if step.Next? {
      var key := CStr(step.name);
      PlaceWellFormed(members, key);
      ParseValueWellFormed(cfg, doc, step.next, Place(members, key));
      var member := ParseValue(cfg, doc, step.next, Place(members, key));
      PutKeepsWellFormed(members, key, member.value);
      if member.ok && AfterMember(doc, member.pos).Next? {
        var read := Put(members, key, member.value);
        ParseMembersWellFormed(cfg, doc, AfterMember(doc, member.pos).next, read, step.name);
      }
    }
  }
}
