/**
 The reader accepts the texts of its dialect, with their reading, wherever they stand.
 */
module JsonReads {
  import opened CText
  import opened JsonValue
  import opened JsonNumber
  import opened JsonLexer
  import opened JsonString
  import opened JsonParser
  import opened JsonSyntax
  import opened JsonDialect

  // ----- tokens -----

  lemma AfterSpacesTwice(doc: string, p: nat)
    requires p <= |doc|
    ensures AfterSpaces(doc, AfterSpaces(doc, p)) == AfterSpaces(doc, p)
  {
  }

  /** The name of a member, or a string value: its token, and what it decodes to. */
  lemma ReadsName(doc: string, p: nat, name: seq<Unit>, q: nat)
    requires p <= |doc| && ValidUnits(name) && Lexes(doc, p, NameTokens(name), q)
    ensures var t := TokenAt(doc, p);
            && t.kind == StringToken && t.end == q <= |doc|
            && match UnitsMeaning(name)
               case Some(text) => DecodeToken(doc, t.start, t.end) == Text(text)
               case None => DecodeToken(doc, t.start, t.end).BadText?
  {
    hide UnitsMeaning, ValidUnits, DecodeToken, QuotedUnits, TokenHere;
    var t := TokenAt(doc, p);
    assert StartsAt(doc, t.start, QuotedUnits(name));
    StringTokenHere(doc, t.start, name);
  }

  lemma LexesHead(doc: string, p: nat, kind: TokenType, text: string, rest: seq<Lexeme>, q: nat)
    requires p <= |doc| && Lexes(doc, p, [Lexeme(kind, text)] + rest, q)
    ensures TokenAt(doc, p).kind == kind && Lexes(doc, TokenAt(doc, p).end, rest, q)
  {
    assert ([Lexeme(kind, text)] + rest)[1..] == rest;
  }

  lemma LexesLast(doc: string, p: nat, kind: TokenType, text: string, q: nat)
    requires p <= |doc| && Lexes(doc, p, [Lexeme(kind, text)], q)
    ensures TokenAt(doc, p).kind == kind && TokenAt(doc, p).end == q
  {
    assert [Lexeme(kind, text)][1..] == [];
  }

  lemma BracketAhead(doc: string, p: nat)
    requires p <= |doc|
    ensures At(doc, AfterSpaces(doc, p)) == ']' <==> TokenAt(doc, p).kind == ArrayEnd
  {
  }

  /** Where the comments end that stand at `p`: the reader's loop over comments gets to the token there. */
  lemma {:induction false} SkipComments(doc: string, p: nat, comments: seq<Lexeme>, rest: seq<Lexeme>, q: nat)
    returns (m: nat)
    requires p <= |doc| && AreComments(comments) && Lexes(doc, p, comments + rest, q)
    requires rest != [] && rest[0].kind != Comment
    ensures p <= m <= |doc| && Lexes(doc, m, rest, q)
    ensures PastComments(doc, TokenAt(doc, p)) == TokenAt(doc, m) && TokenAt(doc, m).kind == rest[0].kind
    ensures if comments == [] then m == p else TokenAt(doc, p).kind == Comment
    decreases |comments|
  {
    hide TokenAt;
    if comments == [] {
      assert comments + rest == rest;
      m := p;
    } else {
      assert (comments + rest)[0] == comments[0] && (comments + rest)[1..] == comments[1..] + rest;
      m := SkipComments(doc, TokenAt(doc, p).end, comments[1..], rest, q);
    }
  }

  // ----- steps of the loops -----

  /** One iteration of `readArray` over an item that is read. */
  lemma ItemStep(cfg: Config, doc: string, p: nat, acc: seq<Value>, item: Value, m: nat)
    requires p <= |doc| && m <= |doc| && ParseValue(cfg, doc, p, NullVal) == Outcome(true, item, m, [])
    ensures match AfterItem(doc, m)
            case Close(end) => ParseItems(cfg, doc, p, acc) == Outcome(true, ArrayVal(acc + [item]), end, [])
            case Next(_, next) => ParseItems(cfg, doc, p, acc) == ParseItems(cfg, doc, next, acc + [item])
            case Broken(_, _) => true
  {
  }

  /** One iteration of `readObject` over a member that is read. */
  lemma MemberStep(
    cfg: Config, doc: string, p: nat, stored: seq<Member>, before: string, name: string, value: Value, m: nat)
    requires p <= |doc| && m <= |doc| && BeforeMember(doc, p, before).Next? && BeforeMember(doc, p, before).name == name
    requires ParseValue(cfg, doc, BeforeMember(doc, p, before).next, Place(stored, CStr(name)))
             == Outcome(true, value, m, [])
    ensures var read := Put(stored, CStr(name), value);
            match AfterMember(doc, m)
            case Close(end) => ParseMembers(cfg, doc, p, stored, before) == Outcome(true, ObjectVal(read), end, [])
            case Next(_, next) => ParseMembers(cfg, doc, p, stored, before) == ParseMembers(cfg, doc, next, read, name)
            case Broken(_, _) => true
  {
  }

  /** `o` is the success that the reading calls for, or a failure if there is none. */
  ghost predicate IsRead(o: Outcome, reading: Option<Value>, q: nat) {
    match reading
    case Some(value) => o == Outcome(true, value, q, [])
    case None => !o.ok
  }

  /** The array of the items read before and those of the reading. */
  function ArrayReading(acc: seq<Value>, reading: Option<seq<Value>>): Option<Value> {
    if reading.Some? then Some(ArrayVal(acc + reading.value)) else None
  }

  lemma ArrayReadingNone(reading: Option<seq<Value>>)
    ensures ArrayReading([], reading) == match reading case Some(values) => Some(ArrayVal(values)) case None => None
  {
    assert reading.Some? ==> [] + reading.value == reading.value;
  }

  lemma ArrayReadingCons(acc: seq<Value>, first: Value, rest: Option<seq<Value>>)
    ensures ArrayReading(acc + [first], rest) == ArrayReading(acc, Cons(Some(first), rest))
  {
    assert rest.Some? ==> acc + [first] + rest.value == acc + ([first] + rest.value);
  }

  function ObjectReading(reading: Option<seq<Member>>): Option<Value> {
    if reading.Some? then Some(ObjectVal(reading.value)) else None
  }

  // ----- texts -----

  /**
   In front of the tokens of a text the reader succeeds exactly when the text has a reading; it then yields
   that reading, records no error, and stops behind the last token.
   */
  lemma {:induction false} ReadsRaw(cfg: Config, doc: string, p: nat, r: Raw, q: nat, place: Value)
    requires p <= |doc| && ValidRaw(r) && (cfg.allowComments || IsBare(r)) && Lexes(doc, p, RawTokens(r), q)
    ensures IsRead(ParseValue(cfg, doc, p, place), Reading(cfg.scan, r), q)
    decreases r, 1
  {
    hide Lexes, TokenAt, SyntaxTokens, Meaning, ParseArray, ParseMembers, RawItemsTokens, RawMembersTokens,
      ItemsReading, MembersReading, PastComments;
    match r
    case RawScalar(before, text) =>
      var m := SkipComments(doc, p, before, SyntaxTokens(text), q);
      assert FirstToken(cfg, doc, p) == TokenAt(doc, m);
      ReadsScalar(cfg, doc, p, m, text, q, place);
    case RawArray(before, items) =>
      var rest := if items.None? then CLOSE_ARRAY else RawItemsTokens(items.value);
      var m := SkipComments(doc, p, before, OPEN_ARRAY + rest, q);
      LexesHead(doc, m, ArrayBegin, "[", rest, q);
      assert FirstToken(cfg, doc, p) == TokenAt(doc, m);
      ReadsRawArray(cfg, doc, TokenAt(doc, m).end, items, q);
      ArrayReadingNone(if items.None? then Some([]) else ItemsReading(cfg.scan, items.value));
    case RawObject(before, members) =>
      var m := SkipComments(doc, p, before, OPEN_OBJECT + RawMembersTokens(members), q);
      LexesHead(doc, m, ObjectBegin, "{", RawMembersTokens(members), q);
      assert FirstToken(cfg, doc, p) == TokenAt(doc, m);
      ReadsRawMembers(cfg, doc, TokenAt(doc, m).end, members, q, [], "");
  }

  lemma ReadsScalar(cfg: Config, doc: string, p: nat, m: nat, text: Syntax, q: nat, place: Value)
    requires p <= |doc| && m <= |doc| && FirstToken(cfg, doc, p) == TokenAt(doc, m)
    requires IsScalar(text) && ValidSyntax(text) && Lexes(doc, m, SyntaxTokens(text), q)
    ensures IsRead(ParseValue(cfg, doc, p, place), Meaning(cfg.scan, text), q)
  {
    hide TokenAt, FirstToken, ParseArray, ParseMembers, NumberMeaning, UnitsMeaning, DecodeToken, QuotedUnits,
      ValidUnits;
    if text.StringText? {
      ReadsName(doc, m, text.units, q);
    } else {
      assert SyntaxTokens(text)[1..] == [];
    }
  }

  lemma {:induction false} ReadsRawArray(cfg: Config, doc: string, p: nat, items: Option<RawItems>, q: nat)
    requires p <= |doc| && (items.Some? ==> ValidRawItems(items.value))
    requires cfg.allowComments || items.None? || AreBareItems(items.value)
    requires Lexes(doc, p, if items.None? then CLOSE_ARRAY else RawItemsTokens(items.value), q)
    ensures IsRead(ParseArray(cfg, doc, p),
                   ArrayReading([], if items.None? then Some([]) else ItemsReading(cfg.scan, items.value)), q)
    decreases items, 0
  {
    var start := AfterSpaces(doc, p);
    AfterSpacesTwice(doc, p);
    BracketAhead(doc, p);
    assert TokenAt(doc, start) == TokenAt(doc, p);
    hide TokenAt, RawItemsTokens, ItemsReading, AfterSpaces, ParseItems;
    if items.None? {
      LexesLast(doc, p, ArrayEnd, "]", q);
      ArrayReadingNone(Some([]));
    } else {
      FirstOfItems(items.value);
      assert Lexes(doc, start, RawItemsTokens(items.value), q);
      ReadsRawItems(cfg, doc, start, items.value, q, []);
    }
  }

  /** A text does not begin with a closing bracket. */
  lemma FirstOfItems(items: RawItems)
    requires ValidRawItems(items)
    ensures RawItemsTokens(items) != [] && RawItemsTokens(items)[0].kind != ArrayEnd
  {
    FirstOfRaw(items.value);
    hide RawTokens;
  }

  lemma FirstOfRaw(r: Raw)
    requires ValidRaw(r)
    ensures RawTokens(r) != [] && RawTokens(r)[0].kind != ArrayEnd
  {
  }

  lemma {:induction false} ReadsRawItems(cfg: Config, doc: string, p: nat, items: RawItems, q: nat, acc: seq<Value>)
    requires p <= |doc| && ValidRawItems(items) && (cfg.allowComments || AreBareItems(items))
    requires Lexes(doc, p, RawItemsTokens(items), q)
    ensures IsRead(ParseItems(cfg, doc, p, acc), ArrayReading(acc, ItemsReading(cfg.scan, items)), q)
    decreases items, 0
  {
    hide Lexes, TokenAt, PastComments, RawTokens, Reading, ParseValue, AfterRecovery, IsBare, ValidRaw;
    var mark := if items.LastItem? then CLOSE_ARRAY else COMMA + RawItemsTokens(items.rest);
    var m := LexesSplit(doc, p, RawTokens(items.value), items.after + mark, q);
    ReadsRaw(cfg, doc, p, items.value, m, NullVal);
    if Reading(cfg.scan, items.value).Some? {
      var first := Reading(cfg.scan, items.value).value;
      ItemStep(cfg, doc, p, acc, first, m);
      var n := SkipComments(doc, m, items.after, mark, q);
      if items.LastItem? {
        LexesLast(doc, n, ArrayEnd, "]", q);
        ArrayReadingCons(acc, first, Some([]));
        assert acc + [first] + [] == acc + [first];
      } else {
        LexesHead(doc, n, ArraySeparator, ",", RawItemsTokens(items.rest), q);
        ReadsRawItems(cfg, doc, TokenAt(doc, n).end, items.rest, q, acc + [first]);
        ArrayReadingCons(acc, first, ItemsReading(cfg.scan, items.rest));
      }
      hide ArrayReading, ParseItems;
    }
  }

  lemma {:induction false} ReadsRawMembers(
    cfg: Config, doc: string, p: nat, members: RawMembers, q: nat, stored: seq<Member>, before: string)
    requires p <= |doc| && ValidRawMembers(members) && (cfg.allowComments || AreBareMembers(members))
    requires Lexes(doc, p, RawMembersTokens(members), q)
    ensures IsRead(ParseMembers(cfg, doc, p, stored, before),
                   ObjectReading(MembersReading(cfg.scan, members, stored, before)), q)
    decreases members, 0
  {
    hide Lexes, TokenAt, PastComments, RawTokens, Reading, ParseValue, AfterRecovery, IsBare, ValidRaw, Put, CStr,
      BeforeMember, AfterMember, UnitsMeaning, ValidUnits;
    if members.Closed? {
      ReadsClose(doc, p, members.before, q, before);
    } else {
      var end := members.end;
      var tail := members.after + RawEndTokens(end);
      var next := ReadsHead(doc, p, members.before, members.name, RawTokens(members.value) + tail, q, before);
      if UnitsMeaning(members.name).Some? {
        var name := UnitsMeaning(members.name).value;
        var m := LexesSplit(doc, next, RawTokens(members.value), tail, q);
        ReadsRaw(cfg, doc, next, members.value, m, Place(stored, CStr(name)));
        if Reading(cfg.scan, members.value).Some? {
          var value := Reading(cfg.scan, members.value).value;
          MemberStep(cfg, doc, p, stored, before, name, value, m);
          var n := ReadsEnd(doc, m, members.after, end, q);
          if end.Separator? {
            ReadsRawMembers(cfg, doc, n, end.rest, q, Put(stored, CStr(name), value), name);
          }
        }
      }
    }
  }

  /** A closing brace where a member may stand: it closes the object only behind the empty name. */
  lemma ReadsClose(doc: string, p: nat, comments: seq<Lexeme>, q: nat, before: string)
    requires p <= |doc| && AreComments(comments) && Lexes(doc, p, comments + CLOSE_OBJECT, q)
    ensures if before == "" then BeforeMember(doc, p, before) == Close(q) else BeforeMember(doc, p, before).Broken?
  {
    hide Lexes, TokenAt, PastComments;
    var n := SkipComments(doc, p, comments, CLOSE_OBJECT, q);
    LexesLast(doc, n, ObjectEnd, "}", q);
  }

  lemma ReadsHead(
    doc: string, p: nat, comments: seq<Lexeme>, name: seq<Unit>, rest: seq<Lexeme>, q: nat, before: string)
    returns (next: nat)
    requires p <= |doc| && AreComments(comments) && ValidUnits(name)
    requires Lexes(doc, p, comments + (NameTokens(name) + (COLON + rest)), q)
    ensures match UnitsMeaning(name)
            case Some(text) =>
              BeforeMember(doc, p, before) == Next(text, next) && next <= |doc| && Lexes(doc, next, rest, q)
            case None => BeforeMember(doc, p, before).Broken?
  {
    hide Lexes, TokenAt, PastComments, DecodeToken, UnitsMeaning, ValidUnits, QuotedUnits;
    var n := SkipComments(doc, p, comments, NameTokens(name) + (COLON + rest), q);
    var m := LexesSplit(doc, n, NameTokens(name), COLON + rest, q);
    ReadsName(doc, n, name, m);
    LexesHead(doc, m, MemberSeparator, ":", rest, q);
    next := TokenAt(doc, m).end;
  }

  /** What stands behind a member: a brace, a comma, or after comments any separator. */
  lemma ReadsEnd(doc: string, p: nat, comments: seq<Lexeme>, end: RawEnd, q: nat) returns (next: nat)
    requires p <= |doc| && AreComments(comments) && (end.Separator? ==> ValidMark(comments, end.mark))
    requires Lexes(doc, p, comments + RawEndTokens(end), q)
    ensures match end
            case Brace => AfterMember(doc, p) == Close(q)
            case Separator(_, rest) =>
              AfterMember(doc, p) == Next("", next) && next <= |doc| && Lexes(doc, next, RawMembersTokens(rest), q)
  {
    hide Lexes, TokenAt, PastComments, RawMembersTokens;
    var n := SkipComments(doc, p, comments, RawEndTokens(end), q);
    next := TokenAt(doc, n).end;
    match end
    case Brace => LexesLast(doc, n, ObjectEnd, "}", q);
    case Separator(mark, rest) => LexesHead(doc, n, mark.kind, mark.text, RawMembersTokens(rest), q);
  }

  // ----- texts without anything beside the grammar -----

  function Plain(s: Syntax): (r: Raw)
    decreases s, 1
  {
    match s
    case ArrayText(items) => RawArray([], if items == [] then None else Some(PlainItems(items)))
    case ObjectText(members) => RawObject([], PlainMembers(members))
    case _ => RawScalar([], s)
  }

  function PlainItems(items: seq<Syntax>): RawItems
    requires items != []
    decreases items, 0
  {
    if |items| == 1 then LastItem(Plain(items[0]), []) else MoreItems(Plain(items[0]), [], PlainItems(items[1..]))
  }

  function PlainMembers(members: seq<MemberText>): RawMembers
    decreases members, 0
  {
    if members == [] then Closed([])
    else
      RawMember([], members[0].name, Plain(members[0].value), [],
                if |members| == 1 then Brace else Separator(COMMA[0], PlainMembers(members[1..])))
  }

  lemma {:induction false} PlainText(scan: Scan, s: Syntax)
    requires ValidSyntax(s)
    ensures ValidRaw(Plain(s)) && IsBare(Plain(s)) && RawTokens(Plain(s)) == SyntaxTokens(s)
    ensures Reading(scan, Plain(s)) == Meaning(scan, s)
    decreases s, 1
  {
    match s
    case ArrayText(items) =>
      if items != [] {
        PlainTextItems(scan, items);
      }
    case ObjectText(members) =>
      PlainTextMembers(scan, members, [], "");
    case _ =>
      assert [] + SyntaxTokens(s) == SyntaxTokens(s);
  }

  lemma {:induction false} PlainTextItems(scan: Scan, items: seq<Syntax>)
    requires items != [] && ValidItems(items)
    ensures var r := PlainItems(items);
            && ValidRawItems(r) && AreBareItems(r) && RawItemsTokens(r) == ItemsTokens(items)
            && ItemsReading(scan, r) == ItemsMeaning(scan, items)
    decreases items, 0
  {
    hide SyntaxTokens, Meaning, RawTokens, Reading, ValidRaw, ValidSyntax, IsBare;
    PlainText(scan, items[0]);
    if |items| == 1 {
      assert items[1..] == [] && [] + CLOSE_ARRAY == CLOSE_ARRAY;
    } else {
      PlainTextItems(scan, items[1..]);
      assert [] + (COMMA + ItemsTokens(items[1..])) == COMMA + ItemsTokens(items[1..]);
    }
  }

  lemma {:induction false} PlainTextMembers(scan: Scan, members: seq<MemberText>, stored: seq<Member>, before: string)
    requires ValidMembers(members) && (members == [] ==> before == "")
    ensures var r := PlainMembers(members);
            && ValidRawMembers(r) && AreBareMembers(r)
            && RawMembersTokens(r) == (if members == [] then CLOSE_OBJECT else MembersTokens(members))
            && MembersReading(scan, r, stored, before) == MembersMeaning(scan, members, stored)
    decreases members, 0
  {
    hide SyntaxTokens, Meaning, RawTokens, Reading, ValidRaw, ValidSyntax, IsBare, UnitsMeaning, ValidUnits, Put, CStr,
      QuotedUnits;
    if members == [] {
      assert [] + CLOSE_OBJECT == CLOSE_OBJECT;
    } else {
      PlainText(scan, members[0].value);
      MembersMeaningStep(scan, members, stored);
      var name, value := UnitsMeaning(members[0].name), Meaning(scan, members[0].value);
      if |members| > 1 {
        if name.Some? && value.Some? {
          PlainTextMembers(scan, members[1..], Put(stored, CStr(name.value), value.value), name.value);
        } else {
          PlainTextMembers(scan, members[1..], stored, "");
        }
      }
      PlainMembersStep(members);
      hide MembersTokens, MembersMeaning, RawMembersTokens;
    }
  }

  lemma {:induction false} PlainMembersStep(members: seq<MemberText>)
    requires members != [] && ValidMembers(members)
    requires RawTokens(Plain(members[0].value)) == SyntaxTokens(members[0].value)
    requires |members| > 1 ==> RawMembersTokens(PlainMembers(members[1..])) == MembersTokens(members[1..])
    ensures RawMembersTokens(PlainMembers(members)) == MembersTokens(members)
  {
    hide SyntaxTokens, RawTokens, Plain, QuotedUnits;
    var m := members[0];
    var end := if |members| == 1 then CLOSE_OBJECT else COMMA + MembersTokens(members[1..]);
    var tail := NameTokens(m.name) + (COLON + (SyntaxTokens(m.value) + end));
    assert [] + tail == tail && [] + end == end;
    assert [COMMA[0]] == COMMA;
  }

  /** The reader decides the texts of the grammar, in front of which nothing else stands. */
  lemma ReadsSyntax(cfg: Config, doc: string, p: nat, s: Syntax, q: nat, place: Value)
    requires p <= |doc| && ValidSyntax(s) && Lexes(doc, p, SyntaxTokens(s), q)
    ensures match Meaning(cfg.scan, s)
            case Some(value) => ParseValue(cfg, doc, p, place) == Outcome(true, value, q, [])
            case None => !ParseValue(cfg, doc, p, place).ok
  {
    PlainText(cfg.scan, s);
    ReadsRaw(cfg, doc, p, Plain(s), q, place);
  }
}
