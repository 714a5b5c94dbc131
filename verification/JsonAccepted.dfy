/**
 The reader accepts nothing but the texts of its dialect: what it consumed without error is one of them.
 */
module JsonAccepted {
  import opened CText
  import opened JsonValue
  import opened JsonNumber
  import opened JsonLexer
  import opened JsonString
  import opened JsonParser
  import opened JsonSyntax
  import opened JsonDialect
  import opened JsonReads

  // ----- tokens -----

  function LexemeOf(doc: string, t: Token): Lexeme
    requires t.start <= t.end <= |doc|
  {
    Lexeme(t.kind, doc[t.start..t.end])
  }

  /** The text of a token of fixed spelling. */
  lemma TokenText(doc: string, p: nat)
    requires p <= |doc|
    ensures var l := LexemeOf(doc, TokenAt(doc, p));
            && (l.kind == ObjectBegin ==> [l] == OPEN_OBJECT) && (l.kind == ObjectEnd ==> [l] == CLOSE_OBJECT)
            && (l.kind == ArrayBegin ==> [l] == OPEN_ARRAY) && (l.kind == ArrayEnd ==> [l] == CLOSE_ARRAY)
            && (l.kind == ArraySeparator ==> [l] == COMMA) && (l.kind == MemberSeparator ==> [l] == COLON)
  {
    var start := AfterSpaces(doc, p);
    hide AfterSpaces, AfterString, AfterNumber, AfterComment, AfterWord;
    if start < |doc| {
      assert doc[start..start + 1] == [doc[start]];
    }
  }

  lemma WordText(doc: string, p: nat)
    requires p <= |doc|
    ensures var l := LexemeOf(doc, TokenAt(doc, p));
            && (l.kind == TrueToken ==> l.text == "true") && (l.kind == FalseToken ==> l.text == "false")
            && (l.kind == NullToken ==> l.text == "null")
  {
    var start := AfterSpaces(doc, p);
    var t := TokenHere(doc, start);
    hide AfterSpaces, AfterString, AfterNumber, AfterComment;
    if t.kind in {TrueToken, FalseToken, NullToken} {
      assert doc[start..t.end] == [doc[start]] + doc[start + 1..t.end];
    }
  }

  lemma LexesToken(doc: string, p: nat)
    requires p <= |doc|
    ensures Lexes(doc, p, [LexemeOf(doc, TokenAt(doc, p))], TokenAt(doc, p).end)
  {
    var l := LexemeOf(doc, TokenAt(doc, p));
    assert [l][1..] == [];
  }

  /** The comments at `p`, and the token behind them. */
  lemma {:induction false} CommentsAt(doc: string, p: nat) returns (comments: seq<Lexeme>, m: nat)
    requires p <= |doc|
    ensures AreComments(comments) && (comments == [] <==> TokenAt(doc, p).kind != Comment)
    ensures p <= m <= |doc| && Lexes(doc, p, comments, m) && (comments == [] ==> m == p)
    ensures PastComments(doc, TokenAt(doc, p)) == TokenAt(doc, m)
    decreases |doc| - p
  {
    hide TokenHere;
    var t := TokenAt(doc, p);
    if t.kind == Comment {
      var rest;
      LexesToken(doc, p);
      rest, m := CommentsAt(doc, t.end);
      comments := [LexemeOf(doc, t)] + rest;
      LexesConcat(doc, p, [LexemeOf(doc, t)], t.end, rest, m);
    } else {
      comments, m := [], p;
    }
  }

  /** What decodes is the text of valid units. */
  lemma StringIsUnits(doc: string, p: nat) returns (units: seq<Unit>)
    requires p <= |doc| && TokenAt(doc, p).kind == StringToken
    requires DecodeToken(doc, TokenAt(doc, p).start, TokenAt(doc, p).end).Text?
    ensures var t := TokenAt(doc, p);
            && ValidUnits(units) && [LexemeOf(doc, t)] == NameTokens(units)
            && UnitsMeaning(units) == Some(DecodeToken(doc, t.start, t.end).text)
  {
    var t := TokenAt(doc, p);
    StringExtent(doc, p);
    hide DecodeToken, TokenHere, TokenAt, UnitsMeaning, QuotedUnits, ValidUnits, AfterString;
    units := TokenUnits(doc, t.start, t.end);
  }

  lemma TokenUnits(doc: string, start: nat, end: nat) returns (units: seq<Unit>)
    requires start + 2 <= end <= |doc| && doc[start] == doc[end - 1] == '"'
    requires AfterString(doc, start + 1) == Scanned(end, true) && DecodeToken(doc, start, end).Text?
    ensures ValidUnits(units) && doc[start..end] == QuotedUnits(units)
    ensures UnitsMeaning(units) == Some(DecodeToken(doc, start, end).text)
  {
    hide Decode, UnitsMeaning, UnitsText, ValidUnits, AfterString, UnitText;
    units := DecodedAreUnits(doc, start + 1, end - 1);
    Unquote(doc, start, end);
  }

  lemma Unquote(doc: string, start: nat, end: nat)
    requires start + 2 <= end <= |doc| && doc[start] == doc[end - 1] == '"'
    ensures doc[start..end] == "\"" + doc[start + 1..end - 1] + "\""
  {
  }

  lemma StringExtent(doc: string, p: nat)
    requires p <= |doc| && TokenAt(doc, p).kind == StringToken
    ensures AfterString(doc, TokenAt(doc, p).start + 1) == Scanned(TokenAt(doc, p).end, true)
  {
    hide AfterSpaces, AfterString, AfterNumber, AfterComment;
  }

  // ----- texts -----

  /** The comments before a value. */
  lemma FirstComments(cfg: Config, doc: string, p: nat) returns (comments: seq<Lexeme>, m: nat)
    requires p <= |doc|
    ensures AreComments(comments) && (cfg.allowComments || comments == [])
    ensures p <= m <= |doc| && Lexes(doc, p, comments, m) && FirstToken(cfg, doc, p) == TokenAt(doc, m)
  {
    if cfg.allowComments {
      comments, m := CommentsAt(doc, p);
    } else {
      comments, m := [], p;
    }
  }

  /** A value of one token. */
  lemma ScalarAccepted(cfg: Config, doc: string, p: nat, m: nat, place: Value) returns (text: Syntax)
    requires p <= |doc| && m <= |doc| && FirstToken(cfg, doc, p) == TokenAt(doc, m)
    requires ParseValue(cfg, doc, p, place).ok && TokenAt(doc, m).kind !in {ArrayBegin, ObjectBegin}
    ensures IsScalar(text) && ValidSyntax(text) && SyntaxTokens(text) == [LexemeOf(doc, TokenAt(doc, m))]
    ensures var o := ParseValue(cfg, doc, p, place);
            Meaning(cfg.scan, text) == Some(o.value) && o.pos == TokenAt(doc, m).end
  {
    hide TokenAt, FirstToken, DecodeToken, UnitsMeaning, ValidUnits, ParseMembers, ParseArray, NumberMeaning;
    var t := TokenAt(doc, m);
    WordText(doc, m);
    match t.kind
    case NumberToken => text := NumberText(doc[t.start..t.end]);
    case StringToken =>
      var units := StringIsUnits(doc, m);
      text := StringText(units);
    case TrueToken => text := TrueText;
    case FalseToken => text := FalseText;
    case NullToken => text := NullText;
    case _ => assert false;
  }

  /** `r` stands between `p` and `q` and is read as `value`. */
  ghost predicate IsRawAt(cfg: Config, doc: string, p: nat, r: Raw, q: nat, value: Value) {
    && ValidRaw(r) && (cfg.allowComments || IsBare(r)) && Lexes(doc, p, RawTokens(r), q)
    && Reading(cfg.scan, r) == Some(value)
  }

  /** Whatever is accepted, from any bytes, is a text of the dialect, and the value is its reading. */
  lemma {:induction false} ValueAccepted(cfg: Config, doc: string, p: nat, place: Value) returns (r: Raw)
    requires p <= |doc| && ParseValue(cfg, doc, p, place).ok
    ensures var o := ParseValue(cfg, doc, p, place); IsRawAt(cfg, doc, p, r, o.pos, o.value)
    decreases |doc| - p, 0
  {
    hide Lexes, TokenAt, FirstToken, ParseArray, ParseMembers, ParseNumber, ParseString, SyntaxTokens, Meaning,
      RawItemsTokens, RawMembersTokens, ItemsReading, MembersReading;
    var o := ParseValue(cfg, doc, p, place);
    var before, m := FirstComments(cfg, doc, p);
    var t := TokenAt(doc, m);
    LexesToken(doc, m);
    TokenText(doc, m);
    if t.kind == ArrayBegin {
      var items := ArrayAccepted(cfg, doc, t.end);
      r := RawArray(before, items);
      var rest := if items.None? then CLOSE_ARRAY else RawItemsTokens(items.value);
      LexesConcat(doc, m, OPEN_ARRAY, t.end, rest, o.pos);
      LexesConcat(doc, p, before, m, OPEN_ARRAY + rest, o.pos);
    } else if t.kind == ObjectBegin {
      var members := MembersAccepted(cfg, doc, t.end, [], "");
      r := RawObject(before, members);
      LexesConcat(doc, m, OPEN_OBJECT, t.end, RawMembersTokens(members), o.pos);
      LexesConcat(doc, p, before, m, OPEN_OBJECT + RawMembersTokens(members), o.pos);
    } else {
      var text := ScalarAccepted(cfg, doc, p, m, place);
      r := RawScalar(before, text);
      LexesConcat(doc, p, before, m, SyntaxTokens(text), o.pos);
    }
  }

  lemma {:induction false} ArrayAccepted(cfg: Config, doc: string, p: nat) returns (items: Option<RawItems>)
    requires p <= |doc| && ParseArray(cfg, doc, p).ok
    ensures items.Some? ==> ValidRawItems(items.value) && (cfg.allowComments || AreBareItems(items.value))
    ensures var o := ParseArray(cfg, doc, p);
            && Lexes(doc, p, if items.None? then CLOSE_ARRAY else RawItemsTokens(items.value), o.pos)
            && o.value.ArrayVal?
            && (if items.None? then Some([]) else ItemsReading(cfg.scan, items.value)) == Some(o.value.items)
    decreases |doc| - p, 2
  {
    var start := AfterSpaces(doc, p);
    AfterSpacesTwice(doc, p);
    assert TokenAt(doc, start) == TokenAt(doc, p);
    BracketAhead(doc, p);
    hide TokenAt, AfterSpaces, ParseItems, RawItemsTokens, ItemsReading, AreBareItems, ValidRawItems;
    if At(doc, start) == ']' {
      LexesToken(doc, p);
      TokenText(doc, p);
      items := None;
    } else {
      var some := ItemsAccepted(cfg, doc, start, []);
      items := Some(some);
      FirstOfItems(some);
      ArrayReadingNone(ItemsReading(cfg.scan, some));
      assert Lexes(doc, p, RawItemsTokens(some), ParseArray(cfg, doc, p).pos);
    }
  }

  lemma {:induction false} ItemsAccepted(cfg: Config, doc: string, p: nat, acc: seq<Value>) returns (items: RawItems)
    requires p <= |doc| && ParseItems(cfg, doc, p, acc).ok
    ensures ValidRawItems(items) && (cfg.allowComments || AreBareItems(items))
    ensures var o := ParseItems(cfg, doc, p, acc);
            && Lexes(doc, p, RawItemsTokens(items), o.pos)
            && ArrayReading(acc, ItemsReading(cfg.scan, items)) == Some(o.value)
    decreases |doc| - p, 1
  {
    hide Lexes, TokenAt, PastComments, ParseValue, AfterRecovery, RawTokens, Reading, ValidRaw, IsBare, ArrayReading;
    var o, item := ParseItems(cfg, doc, p, acc), ParseValue(cfg, doc, p, NullVal);
    var value := ValueAccepted(cfg, doc, p, NullVal);
    var after, m := CommentsAt(doc, item.pos);
    var t := TokenAt(doc, m);
    LexesToken(doc, m);
    TokenText(doc, m);
    if t.kind == ArrayEnd {
      items := LastItem(value, after);
      LexesConcat(doc, item.pos, after, m, CLOSE_ARRAY, o.pos);
      LexesConcat(doc, p, RawTokens(value), item.pos, after + CLOSE_ARRAY, o.pos);
      OneItemReading(acc, item.value);
    } else {
      var rest := ItemsAccepted(cfg, doc, t.end, acc + [item.value]);
      items := MoreItems(value, after, rest);
      LexesConcat(doc, m, COMMA, t.end, RawItemsTokens(rest), o.pos);
      LexesConcat(doc, item.pos, after, m, COMMA + RawItemsTokens(rest), o.pos);
      LexesConcat(doc, p, RawTokens(value), item.pos, after + (COMMA + RawItemsTokens(rest)), o.pos);
      ArrayReadingCons(acc, item.value, ItemsReading(cfg.scan, rest));
    }
  }

  lemma OneItemReading(acc: seq<Value>, item: Value)
    ensures ArrayReading(acc, Cons(Some(item), Some([]))) == Some(ArrayVal(acc + [item]))
  {
    assert acc + ([item] + []) == acc + [item];
  }

  lemma {:induction false} MembersAccepted(cfg: Config, doc: string, p: nat, stored: seq<Member>, before: string)
    returns (members: RawMembers)
    requires p <= |doc| && ParseMembers(cfg, doc, p, stored, before).ok
    ensures ValidRawMembers(members) && (cfg.allowComments || AreBareMembers(members))
    ensures var o := ParseMembers(cfg, doc, p, stored, before);
            && Lexes(doc, p, RawMembersTokens(members), o.pos)
            && ObjectReading(MembersReading(cfg.scan, members, stored, before)) == Some(o.value)
    decreases |doc| - p, 1
  {
    hide Lexes, TokenAt, PastComments, ParseValue, AfterRecovery, RawTokens, Reading, ValidRaw, IsBare,
      BeforeMember, AfterMember, Put, CStr, ValidUnits, UnitsMeaning, QuotedUnits;
    var o, step := ParseMembers(cfg, doc, p, stored, before), BeforeMember(doc, p, before);
    if step.Close? {
      var comments := CloseAccepted(doc, p, before);
      members := Closed(comments);
    } else {
      var key := CStr(step.name);
      var member := ParseValue(cfg, doc, step.next, Place(stored, key));
      var comments, name := HeadAccepted(doc, p, before);
      var value := ValueAccepted(cfg, doc, step.next, Place(stored, key));
      var after, mark, next := EndAccepted(doc, member.pos);
      var end := Brace;
      if AfterMember(doc, member.pos).Next? {
        var rest := MembersAccepted(cfg, doc, next, Put(stored, key, member.value), step.name);
        end := Separator(mark, rest);
        LexesConcat(doc, member.pos, after + [mark], next, RawMembersTokens(rest), o.pos);
      }
      members := RawMember(comments, name, value, after, end);
      MemberLexes(doc, p, comments, name, step.next, RawTokens(value), member.pos, after, end, o.pos);
    }
  }

  /** The tokens of a member, put together. */
  lemma MemberLexes(doc: string, p: nat, comments: seq<Lexeme>, name: seq<Unit>, next: nat, value: seq<Lexeme>, m: nat,
                    after: seq<Lexeme>, end: RawEnd, q: nat)
    requires Lexes(doc, p, comments + (NameTokens(name) + COLON), next) && Lexes(doc, next, value, m)
    requires match end
             case Brace => Lexes(doc, m, after + CLOSE_OBJECT, q)
             case Separator(mark, rest) => Lexes(doc, m, after + [mark] + RawMembersTokens(rest), q)
    ensures Lexes(doc, p, comments + (NameTokens(name) + (COLON + (value + (after + RawEndTokens(end))))), q)
  {
    hide Lexes, QuotedUnits, RawMembersTokens;
    var tail := after + RawEndTokens(end);
    if end.Separator? {
      assert after + [end.mark] + RawMembersTokens(end.rest) == tail;
    }
    LexesConcat(doc, next, value, m, tail, q);
    LexesConcat(doc, p, comments + (NameTokens(name) + COLON), next, value + tail, q);
    assert comments + (NameTokens(name) + COLON) + (value + tail)
        == comments + (NameTokens(name) + (COLON + (value + tail)));
  }

  /** A closing brace where a member may stand. */
  lemma CloseAccepted(doc: string, p: nat, before: string) returns (comments: seq<Lexeme>)
    requires p <= |doc| && BeforeMember(doc, p, before).Close?
    ensures before == "" && AreComments(comments)
    ensures Lexes(doc, p, comments + CLOSE_OBJECT, BeforeMember(doc, p, before).end)
  {
    hide Lexes, TokenAt, PastComments;
    var m;
    comments, m := CommentsAt(doc, p);
    LexesToken(doc, m);
    TokenText(doc, m);
    LexesConcat(doc, p, comments, m, CLOSE_OBJECT, TokenAt(doc, m).end);
  }

  /** A member's name and colon, behind comments. */
  lemma HeadAccepted(doc: string, p: nat, before: string) returns (comments: seq<Lexeme>, name: seq<Unit>)
    requires p <= |doc| && BeforeMember(doc, p, before).Next?
    ensures AreComments(comments) && ValidUnits(name)
    ensures var step := BeforeMember(doc, p, before);
            Lexes(doc, p, comments + (NameTokens(name) + COLON), step.next) && UnitsMeaning(name) == Some(step.name)
  {
    hide Lexes, TokenAt, PastComments, ValidUnits, UnitsMeaning, DecodeToken, QuotedUnits;
    var m;
    comments, m := CommentsAt(doc, p);
    name := StringIsUnits(doc, m);
    var t := TokenAt(doc, m);
    LexesToken(doc, m);
    LexesToken(doc, t.end);
    TokenText(doc, t.end);
    LexesConcat(doc, m, NameTokens(name), t.end, COLON, TokenAt(doc, t.end).end);
    LexesConcat(doc, p, comments, m, NameTokens(name) + COLON, TokenAt(doc, t.end).end);
  }

  /** A brace or a comma behind a member; behind a comment any token that is no brace. */
  lemma EndAccepted(doc: string, p: nat) returns (comments: seq<Lexeme>, mark: Lexeme, next: nat)
    requires p <= |doc| && !AfterMember(doc, p).Broken?
    ensures AreComments(comments) && next <= |doc| && Lexes(doc, p, comments + [mark], next)
    ensures match AfterMember(doc, p)
            case Close(end) => [mark] == CLOSE_OBJECT && next == end
            case Next(_, behind) => ValidMark(comments, mark) && next == behind
            case Broken(_, _) => true
  {
    hide Lexes, TokenAt, PastComments;
    var m;
    comments, m := CommentsAt(doc, p);
    mark, next := LexemeOf(doc, TokenAt(doc, m)), TokenAt(doc, m).end;
    LexesToken(doc, m);
    TokenText(doc, m);
    LexesConcat(doc, p, comments, m, [mark], next);
  }

  // ----- exactly the dialect -----

  /**
   From any bytes and any position: the reader yields `value` without an error and stops at `q` exactly if a
   text of the dialect that is read as `value` stands there.
   */
  lemma AcceptsTheDialect(cfg: Config, doc: string, p: nat, place: Value, q: nat, value: Value)
    requires p <= |doc|
    ensures ParseValue(cfg, doc, p, place) == Outcome(true, value, q, []) <==>
            exists r: Raw :: IsRawAt(cfg, doc, p, r, q, value)
  {
    hide Lexes, ParseValue, ValidRaw, Reading, RawTokens, IsBare;
    var o := ParseValue(cfg, doc, p, place);
    if o.ok {
      var r := ValueAccepted(cfg, doc, p, place);
      assert IsRawAt(cfg, doc, p, r, o.pos, o.value);
    }
    if r: Raw :| IsRawAt(cfg, doc, p, r, q, value) {
      ReadsRaw(cfg, doc, p, r, q, place);
    }
  }

  /** A document is accepted, with `value`, exactly if it begins with such a text; whatever follows is not read. */
  lemma AcceptsDocuments(cfg: Config, doc: string, root: Value, value: Value)
    ensures (ParseDocument(cfg, doc, root).ok && ParseDocument(cfg, doc, root).value == value) <==>
            (cfg.strictRoot ==> value.ArrayVal? || value.ObjectVal?)
            && exists r: Raw, q: nat :: IsRawAt(cfg, doc, 0, r, q, value)
  {
    hide IsRawAt, ParseValue;
    var o := ParseValue(cfg, doc, 0, root);
    if o.ok {
      AcceptsTheDialect(cfg, doc, 0, root, o.pos, o.value);
    }
    if r: Raw, q: nat :| IsRawAt(cfg, doc, 0, r, q, value) {
      AcceptsTheDialect(cfg, doc, 0, root, q, value);
    }
  }

  // ----- separators -----

  /**
   A token other than a comma and a brace passes for the separator behind a member exactly if a comment
   stands between them: then anything does.
   */
  lemma AnySeparatorBehindComment(doc: string, p: nat)
    requires p <= |doc|
    ensures var first, t := TokenAt(doc, p), PastComments(doc, TokenAt(doc, p));
            && (AfterMember(doc, p).Close? <==> t.kind == ObjectEnd)
            && (AfterMember(doc, p).Next? <==>
                  t.kind == ArraySeparator || (first.kind == Comment && t.kind != ObjectEnd))
  {
  }
}
