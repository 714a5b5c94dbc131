/**
 Texts of RFC 8259 as trees and tokens: which texts of the dialect they are, and when printing yields one.
 */
module JsonRfc {
  import opened CText
  import opened JsonValue
  import opened JsonNumber
  import opened JsonLexer
  import opened JsonString
  import opened JsonSyntax
  import opened JsonGrammar
  import opened JsonText
  import opened JsonDialect

  /** A text whose numbers and strings are those of the standard. */
  ghost predicate IsRfcText(s: Syntax)
    decreases s, 1
  {
    match s
    case NumberText(text) => IsRfcNumber(text)
    case StringText(units) => IsRfcString(units)
    case ArrayText(items) => AreRfcItems(items)
    case ObjectText(members) => AreRfcMembers(members)
    case _ => true
  }

  ghost predicate AreRfcItems(items: seq<Syntax>)
    decreases items, 0
  {
    items == [] || (IsRfcText(items[0]) && AreRfcItems(items[1..]))
  }

  ghost predicate AreRfcMembers(members: seq<MemberText>)
    decreases members, 0
  {
    members == [] || (IsRfcString(members[0].name) && IsRfcText(members[0].value) && AreRfcMembers(members[1..]))
  }

  lemma {:induction false} RfcIsValid(s: Syntax)
    requires IsRfcText(s)
    ensures ValidSyntax(s)
    decreases s, 1
  {
    match s
    case NumberText(text) => RfcNumberIsToken(text);
    case ArrayText(items) => RfcItemsValid(items);
    case ObjectText(members) => RfcMembersValid(members);
    case _ =>
  }

  lemma {:induction false} RfcItemsValid(items: seq<Syntax>)
    requires AreRfcItems(items)
    ensures ValidItems(items)
    decreases items, 0
  {
    if items != [] {
      RfcIsValid(items[0]);
      RfcItemsValid(items[1..]);
    }
  }

  lemma {:induction false} RfcMembersValid(members: seq<MemberText>)
    requires AreRfcMembers(members)
    ensures ValidMembers(members)
    decreases members, 0
  {
    if members != [] {
      RfcIsValid(members[0].value);
      RfcMembersValid(members[1..]);
    }
  }

  // ----- the excess, token by token -----

  /** No comment, no error, and numbers and strings of the standard. */
  ghost predicate IsRfcLexeme(l: Lexeme) {
    match l.kind
    case NumberToken => IsRfcNumber(l.text)
    case StringToken => exists us :: IsRfcString(us) && l.text == QuotedUnits(us)
    case TrueToken => l.text == "true"
    case FalseToken => l.text == "false"
    case NullToken => l.text == "null"
    case Comment => false
    case ErrorToken => false
    case EndOfStream => false
    case _ => [l] in {OPEN_ARRAY, CLOSE_ARRAY, OPEN_OBJECT, CLOSE_OBJECT, COMMA, COLON}
  }

  predicate IsTrailingComma(a: Lexeme, b: Lexeme) {
    a.kind == ArraySeparator && b.kind == ObjectEnd
  }

  predicate CommaAt(ts: seq<Lexeme>, i: nat) {
    i + 1 < |ts| && IsTrailingComma(ts[i], ts[i + 1])
  }

  /** Tokens without anything the standard forbids: see `IntegerExcess` and `SurrogateExcess` for what that can be. */
  ghost predicate NoExcess(ts: seq<Lexeme>) {
    (forall i :: 0 <= i < |ts| ==> IsRfcLexeme(ts[i])) && (forall i: nat :: !CommaAt(ts, i))
  }

  predicate Meet(a: seq<Lexeme>, b: seq<Lexeme>) {
    a != [] && b != [] && IsTrailingComma(a[|a| - 1], b[0])
  }

  lemma NoExcessParts(a: seq<Lexeme>, b: seq<Lexeme>)
    ensures NoExcess(a + b) <==> NoExcess(a) && NoExcess(b) && !Meet(a, b)
  {
    hide IsRfcLexeme;
    var ts := a + b;
    assert forall i :: 0 <= i < |a| ==> ts[i] == a[i];
    assert forall i :: 0 <= i < |b| ==> ts[|a| + i] == b[i];
    if NoExcess(ts) {
      forall i: nat ensures !CommaAt(a, i) && !CommaAt(b, i) {
        assert !CommaAt(ts, i) && !CommaAt(ts, |a| + i);
      }
      assert Meet(a, b) ==> CommaAt(ts, |a| - 1);
    }
    if NoExcess(a) && NoExcess(b) && !Meet(a, b) {
      forall i: nat ensures !CommaAt(ts, i) {
        if i + 1 < |a| {
          assert !CommaAt(a, i);
        } else if i >= |a| {
          assert !CommaAt(b, i - |a|);
        }
      }
    }
  }

  lemma NoExcessOne(l: Lexeme)
    ensures NoExcess([l]) <==> IsRfcLexeme(l)
  {
    assert NoExcess([l]) ==> IsRfcLexeme([l][0]);
  }

  /** Tokens of a value: they do not begin with a closing brace, nor end with a comma or the end of the stream. */
  predicate IsSolid(ts: seq<Lexeme>) {
    ts != [] && ts[0].kind != ObjectEnd && ts[|ts| - 1].kind !in {ArraySeparator, EndOfStream}
  }

  // ----- texts of the standard have no excess -----

  lemma NoExcessMarks()
    ensures NoExcess(OPEN_ARRAY) && NoExcess(CLOSE_ARRAY) && NoExcess(OPEN_OBJECT) && NoExcess(CLOSE_OBJECT)
    ensures NoExcess(COMMA) && NoExcess(COLON)
  {
    NoExcessOne(OPEN_ARRAY[0]);
    NoExcessOne(CLOSE_ARRAY[0]);
    NoExcessOne(OPEN_OBJECT[0]);
    NoExcessOne(CLOSE_OBJECT[0]);
    NoExcessOne(COMMA[0]);
    NoExcessOne(COLON[0]);
  }

  lemma NameHasNoExcess(name: seq<Unit>)
    requires IsRfcString(name)
    ensures NoExcess(NameTokens(name)) && IsSolid(NameTokens(name))
  {
    NoExcessOne(NameTokens(name)[0]);
  }

  lemma {:induction false} RfcHasNoExcess(s: Syntax)
    requires IsRfcText(s)
    ensures NoExcess(SyntaxTokens(s)) && IsSolid(SyntaxTokens(s))
    decreases s, 1
  {
    hide NoExcess, IsRfcNumber, IsRfcString, QuotedUnits;
    NoExcessMarks();
    match s
    case StringText(units) => NameHasNoExcess(units);
    case ArrayText(items) =>
      var rest := if items == [] then CLOSE_ARRAY else ItemsTokens(items);
      if items != [] {
        ItemsHaveNoExcess(items);
      }
      NoExcessParts(OPEN_ARRAY, rest);
    case ObjectText(members) =>
      var rest := if members == [] then CLOSE_OBJECT else MembersTokens(members);
      if members != [] {
        MembersHaveNoExcess(members);
      }
      NoExcessParts(OPEN_OBJECT, rest);
    case _ =>
      NoExcessOne(SyntaxTokens(s)[0]);
  }

  lemma {:induction false} ItemsHaveNoExcess(items: seq<Syntax>)
    requires items != [] && AreRfcItems(items)
    ensures NoExcess(ItemsTokens(items)) && IsSolid(ItemsTokens(items))
    decreases items, 0
  {
    hide NoExcess, IsRfcText, SyntaxTokens;
    NoExcessMarks();
    RfcHasNoExcess(items[0]);
    if |items| == 1 {
      NoExcessParts(SyntaxTokens(items[0]), CLOSE_ARRAY);
    } else {
      ItemsHaveNoExcess(items[1..]);
      NoExcessParts(COMMA, ItemsTokens(items[1..]));
      NoExcessParts(SyntaxTokens(items[0]), COMMA + ItemsTokens(items[1..]));
    }
  }

  lemma {:induction false} MembersHaveNoExcess(members: seq<MemberText>)
    requires members != [] && AreRfcMembers(members)
    ensures NoExcess(MembersTokens(members)) && IsSolid(MembersTokens(members))
    decreases members, 0
  {
    hide NoExcess, IsRfcText, SyntaxTokens, IsRfcString, QuotedUnits, NameTokens;
    NoExcessMarks();
    NameHasNoExcess(members[0].name);
    RfcHasNoExcess(members[0].value);
    var end := if |members| == 1 then CLOSE_OBJECT else COMMA + MembersTokens(members[1..]);
    if |members| > 1 {
      MembersHaveNoExcess(members[1..]);
      NoExcessParts(COMMA, MembersTokens(members[1..]));
    }
    MemberHasNoExcess(NameTokens(members[0].name), SyntaxTokens(members[0].value), end);
  }

  lemma MemberHasNoExcess(name: seq<Lexeme>, value: seq<Lexeme>, end: seq<Lexeme>)
    requires NoExcess(name) && NoExcess(value) && NoExcess(end) && IsSolid(name) && IsSolid(value)
    requires end != [] && end[|end| - 1].kind !in {ArraySeparator, EndOfStream}
    ensures NoExcess(name + (COLON + (value + end))) && IsSolid(name + (COLON + (value + end)))
  {
    hide NoExcess;
    NoExcessMarks();
    NoExcessParts(value, end);
    NoExcessParts(COLON, value + end);
    NoExcessParts(name, COLON + (value + end));
  }

  // ----- texts of the dialect without excess are texts of the standard -----

  /** A text without its comments, and with commas for separators. */
  function Strip(r: Raw): Syntax
    decreases r
  {
    match r
    case RawScalar(_, text) => text
    case RawArray(_, items) => ArrayText(if items.None? then [] else StripItems(items.value))
    case RawObject(_, members) => ObjectText(StripMembers(members))
  }

  function StripItems(items: RawItems): (r: seq<Syntax>)
    ensures r != []
    decreases items
  {
    [Strip(items.value)] + if items.LastItem? then [] else StripItems(items.rest)
  }

  function StripMembers(members: RawMembers): seq<MemberText>
    decreases members
  {
    match members
    case Closed(_) => []
    case RawMember(_, name, value, _, end) =>
      [MemberText(name, Strip(value))] + if end.Brace? then [] else StripMembers(end.rest)
  }

  lemma CommentsAreExcess(comments: seq<Lexeme>)
    requires AreComments(comments)
    ensures NoExcess(comments) <==> comments == []
  {
    assert comments != [] ==> !IsRfcLexeme(comments[0]);
  }

  lemma TrailingIsExcess(mark: Lexeme, comments: seq<Lexeme>)
    requires mark.kind == ArraySeparator && AreComments(comments)
    ensures !NoExcess([mark] + (comments + CLOSE_OBJECT))
  {
    hide NoExcess;
    CommentsAreExcess(comments);
    NoExcessParts([mark], comments + CLOSE_OBJECT);
    NoExcessParts(comments, CLOSE_OBJECT);
    assert comments == [] ==> Meet([mark], comments + CLOSE_OBJECT);
  }

  lemma StringIsRfc(units: seq<Unit>)
    requires ValidUnits(units) && NoExcess(NameTokens(units))
    ensures IsRfcString(units)
  {
    var l := NameTokens(units)[0];
    assert IsRfcLexeme(l);
    var us :| IsRfcString(us) && l.text == QuotedUnits(us);
    hide IsRfcString, ValidUnits;
    assert QuotedUnits(us)[1..|l.text| - 1] == UnitsText(us) && QuotedUnits(units)[1..|l.text| - 1] == UnitsText(units);
    RfcUnitsValid(us);
    UnitsInjective(us, units);
  }

  lemma RfcUnitsValid(us: seq<Unit>)
    requires IsRfcString(us)
    ensures ValidUnits(us)
  {
  }

  lemma ScalarIsRfc(text: Syntax)
    requires IsScalar(text) && ValidSyntax(text) && NoExcess(SyntaxTokens(text))
    ensures IsRfcText(text)
  {
    hide IsRfcString, IsRfcNumber, ValidUnits, QuotedUnits;
    if text.StringText? {
      StringIsRfc(text.units);
    } else {
      assert IsRfcLexeme(SyntaxTokens(text)[0]);
    }
  }

  /** `r` is nothing but the text `s`. */
  ghost predicate IsText(scan: Scan, r: Raw, s: Syntax)
    requires ValidRaw(r)
  {
    && IsRfcText(s) && ValidSyntax(s) && RawTokens(r) == SyntaxTokens(s) && Reading(scan, r) == Meaning(scan, s)
  }

  lemma {:induction false} RawIsRfc(scan: Scan, r: Raw)
    requires ValidRaw(r) && NoExcess(RawTokens(r))
    ensures IsText(scan, r, Strip(r))
    decreases r
  {
    hide NoExcess, SyntaxTokens, ValidSyntax, Meaning;
    match r
    case RawScalar(before, text) =>
      NoExcessParts(before, SyntaxTokens(text));
      CommentsAreExcess(before);
      ScalarIsRfc(text);
      assert [] + SyntaxTokens(text) == SyntaxTokens(text);
    case RawArray(before, items) =>
      var rest := if items.None? then CLOSE_ARRAY else RawItemsTokens(items.value);
      NoExcessParts(before, OPEN_ARRAY + rest);
      NoExcessParts(OPEN_ARRAY, rest);
      CommentsAreExcess(before);
      if items.Some? {
        RawItemsAreRfc(scan, items.value);
      }
      ArrayIsText(scan, r);
    case RawObject(before, members) =>
      NoExcessParts(before, OPEN_OBJECT + RawMembersTokens(members));
      NoExcessParts(OPEN_OBJECT, RawMembersTokens(members));
      CommentsAreExcess(before);
      RawMembersAreRfc(scan, members, [], "");
      ObjectIsText(scan, r);
  }

  lemma {:induction false} ArrayIsText(scan: Scan, r: Raw)
    requires r.RawArray? && ValidRaw(r) && r.before == []
    requires r.items.Some? ==> ItemsAreText(scan, r.items.value, StripItems(r.items.value))
    ensures IsText(scan, r, Strip(r))
  {
    hide RawItemsTokens, ItemsReading, ItemsMeaning, ItemsTokens, AreRfcItems, ValidItems, StripItems;
    var rest := if r.items.None? then CLOSE_ARRAY else RawItemsTokens(r.items.value);
    assert [] + (OPEN_ARRAY + rest) == OPEN_ARRAY + rest;
    if r.items.None? {
      NothingMeans(scan);
    }
  }

  lemma NothingMeans(scan: Scan)
    ensures ValidItems([]) && AreRfcItems([]) && ItemsMeaning(scan, []) == Some([])
  {
  }

  lemma {:induction false} ObjectIsText(scan: Scan, r: Raw)
    requires r.RawObject? && ValidRaw(r) && r.before == []
    requires MembersAreText(scan, r.members, StripMembers(r.members), [], "")
    ensures IsText(scan, r, Strip(r))
  {
    hide RawMembersTokens, MembersReading, MembersMeaning, MembersTokens, AreRfcMembers, ValidMembers, StripMembers;
    assert [] + (OPEN_OBJECT + RawMembersTokens(r.members)) == OPEN_OBJECT + RawMembersTokens(r.members);
  }

  ghost predicate ItemsAreText(scan: Scan, items: RawItems, ss: seq<Syntax>)
    requires ValidRawItems(items) && ss != []
  {
    && AreRfcItems(ss) && ValidItems(ss) && RawItemsTokens(items) == ItemsTokens(ss)
    && ItemsReading(scan, items) == ItemsMeaning(scan, ss)
  }

  lemma {:induction false} RawItemsAreRfc(scan: Scan, items: RawItems)
    requires ValidRawItems(items) && NoExcess(RawItemsTokens(items))
    ensures ItemsAreText(scan, items, StripItems(items))
    decreases items
  {
    hide NoExcess, RawTokens, SyntaxTokens, Reading, Meaning, ValidRaw, ValidSyntax, IsRfcText, Strip;
    var mark := if items.LastItem? then CLOSE_ARRAY else COMMA + RawItemsTokens(items.rest);
    NoExcessParts(RawTokens(items.value), items.after + mark);
    NoExcessParts(items.after, mark);
    CommentsAreExcess(items.after);
    RawIsRfc(scan, items.value);
    if items.MoreItems? {
      NoExcessParts(COMMA, RawItemsTokens(items.rest));
      RawItemsAreRfc(scan, items.rest);
    }
    ItemIsText(scan, items);
  }

  lemma {:induction false} ItemIsText(scan: Scan, items: RawItems)
    requires ValidRawItems(items) && items.after == [] && IsText(scan, items.value, Strip(items.value))
    requires items.MoreItems? ==> ItemsAreText(scan, items.rest, StripItems(items.rest))
    ensures ItemsAreText(scan, items, StripItems(items))
  {
    hide RawTokens, SyntaxTokens, Reading, Meaning, ValidRaw, ValidSyntax, IsRfcText, Strip;
    var mark := if items.LastItem? then CLOSE_ARRAY else COMMA + RawItemsTokens(items.rest);
    var s, ss := Strip(items.value), StripItems(items);
    var rest := if items.LastItem? then [] else StripItems(items.rest);
    assert [] + mark == mark;
    assert ss == [s] + rest && ss[0] == s && ss[1..] == rest;
    NothingMeans(scan);
  }

  ghost predicate MembersAreText(
    scan: Scan, members: RawMembers, ss: seq<MemberText>, stored: seq<Member>, before: string)
    requires ValidRawMembers(members)
  {
    && AreRfcMembers(ss) && ValidMembers(ss)
    && RawMembersTokens(members) == (if ss == [] then CLOSE_OBJECT else MembersTokens(ss))
    && MembersReading(scan, members, stored, before) == MembersMeaning(scan, ss, stored)
  }

  lemma {:induction false} RawMembersAreRfc(
    scan: Scan, members: RawMembers, stored: seq<Member>, before: string)
    requires ValidRawMembers(members) && NoExcess(RawMembersTokens(members)) && (members.Closed? ==> before == "")
    ensures MembersAreText(scan, members, StripMembers(members), stored, before)
    decreases members
  {
    hide NoExcess, RawTokens, SyntaxTokens, Reading, Meaning, ValidRaw, ValidSyntax, IsRfcText, Strip, ValidUnits,
      UnitsMeaning, IsRfcString, QuotedUnits, Put, CStr;
    if members.Closed? {
      NoExcessParts(members.before, CLOSE_OBJECT);
      CommentsAreExcess(members.before);
      assert [] + CLOSE_OBJECT == CLOSE_OBJECT;
    } else {
      var end := members.end;
      MemberParts(members);
      RawIsRfc(scan, members.value);
      StringIsRfc(members.name);
      if end.Separator? {
        var name, value := UnitsMeaning(members.name), Reading(scan, members.value);
        if name.Some? && value.Some? {
          RawMembersAreRfc(scan, end.rest, Put(stored, CStr(name.value), value.value), name.value);
        } else {
          RawMembersAreRfc(scan, end.rest, stored, "");
        }
      }
      MemberIsText(scan, members, stored, before);
    }
  }

  /** Without excess a member has no comments, and a comma and another member behind it or the closing brace. */
  lemma MemberParts(members: RawMembers)
    requires members.RawMember? && ValidRawMembers(members) && NoExcess(RawMembersTokens(members))
    ensures members.before == [] && members.after == []
    ensures NoExcess(NameTokens(members.name)) && NoExcess(RawTokens(members.value))
    ensures members.end.Separator? ==>
              && members.end.mark == COMMA[0] && members.end.rest.RawMember?
              && NoExcess(RawMembersTokens(members.end.rest))
  {
    hide NoExcess, RawTokens, ValidRaw, QuotedUnits, ValidUnits;
    var end, value := members.end, RawTokens(members.value);
    var tail := members.after + RawEndTokens(end);
    NoExcessParts(members.before, NameTokens(members.name) + (COLON + (value + tail)));
    NoExcessParts(NameTokens(members.name), COLON + (value + tail));
    NoExcessParts(COLON, value + tail);
    NoExcessParts(value, tail);
    NoExcessParts(members.after, RawEndTokens(end));
    CommentsAreExcess(members.before);
    CommentsAreExcess(members.after);
    if end.Separator? {
      NoExcessParts([end.mark], RawMembersTokens(end.rest));
      TrailingIsExcess(end.mark, end.rest.before);
    }
  }

  lemma {:induction false} MemberIsText(scan: Scan, members: RawMembers, stored: seq<Member>, before: string)
    requires members.RawMember? && ValidRawMembers(members) && members.before == [] && members.after == []
    requires IsRfcString(members.name) && IsText(scan, members.value, Strip(members.value))
    requires members.end.Separator? ==> members.end.mark == COMMA[0] && members.end.rest.RawMember?
    requires members.end.Separator? ==>
      var name, value := UnitsMeaning(members.name), Reading(scan, members.value);
      if name.Some? && value.Some? then
        var all := Put(stored, CStr(name.value), value.value);
        MembersAreText(scan, members.end.rest, StripMembers(members.end.rest), all, name.value)
      else
        MembersAreText(scan, members.end.rest, StripMembers(members.end.rest), stored, "")
    ensures MembersAreText(scan, members, StripMembers(members), stored, before)
  {
    hide RawTokens, SyntaxTokens, Reading, Meaning, ValidRaw, ValidSyntax, IsRfcText, Strip, ValidUnits,
      UnitsMeaning, IsRfcString, QuotedUnits, Put, CStr;
    var end, s := members.end, Strip(members.value);
    var rest := if end.Brace? then [] else StripMembers(end.rest);
    var ss := StripMembers(members);
    assert ss == [MemberText(members.name, s)] + rest && ss[1..] == rest && ss[0] == MemberText(members.name, s);
    MemberTokens(members, ss);
    MembersMeaningStep(scan, ss, stored);
    assert end.Separator? ==> rest != [];
    assert AreRfcMembers(ss) && ValidMembers(ss);
    assert RawMembersTokens(members) == MembersTokens(ss);
    assert MembersReading(scan, members, stored, before) == MembersMeaning(scan, ss, stored);
    hide RawMembersTokens, MembersTokens, StripMembers, MembersReading, MembersMeaning, AreRfcMembers;
  }

  lemma MemberTokens(members: RawMembers, ss: seq<MemberText>)
    requires members.RawMember? && members.before == [] && members.after == []
    requires ss != [] && ss[0].name == members.name && RawTokens(members.value) == SyntaxTokens(ss[0].value)
    requires match members.end
             case Brace => |ss| == 1
             case Separator(mark, rest) =>
               mark == COMMA[0] && |ss| > 1 && RawMembersTokens(rest) == MembersTokens(ss[1..])
    ensures RawMembersTokens(members) == MembersTokens(ss)
  {
    hide RawTokens, SyntaxTokens, QuotedUnits;
    var tail := RawEndTokens(members.end);
    var all := NameTokens(members.name) + (COLON + (SyntaxTokens(ss[0].value) + tail));
    assert [] + tail == tail && [] + all == all;
    assert members.end.Separator? ==> [members.end.mark] == COMMA;
  }

  // ----- runs of tokens -----

  lemma {:induction false} TokensAdvance(doc: string, p: nat, ts: seq<Lexeme>, q: nat)
    requires p <= |doc| && Lexes(doc, p, ts, q) && ts != [] && ts[|ts| - 1].kind != EndOfStream
    ensures p < q
    decreases |ts|
  {
    hide TokenHere;
    if |ts| > 1 {
      TokensAdvance(doc, TokenAt(doc, p).end, ts[1..], q);
    }
  }

  /** One run of tokens leads from one place to another. */
  lemma {:induction false} TokensAreUnique(doc: string, p: nat, a: seq<Lexeme>, b: seq<Lexeme>, q: nat)
    requires p <= |doc| && Lexes(doc, p, a, q) && Lexes(doc, p, b, q)
    requires a != [] ==> a[|a| - 1].kind != EndOfStream
    requires b != [] ==> b[|b| - 1].kind != EndOfStream
    ensures a == b
    decreases |a|
  {
    hide TokenHere;
    if a == [] || b == [] {
      if a != [] {
        TokensAdvance(doc, p, a, q);
      }
      if b != [] {
        TokensAdvance(doc, p, b, q);
      }
    } else {
      TokensAreUnique(doc, TokenAt(doc, p).end, a[1..], b[1..], q);
      assert a == [a[0]] + a[1..] && b == [b[0]] + b[1..];
    }
  }

  /** The last token of a text. */
  lemma {:induction false} RawIsSolid(r: Raw)
    requires ValidRaw(r)
    ensures RawTokens(r) != []
    ensures RawTokens(r)[|RawTokens(r)| - 1].kind == match r
                                                     case RawScalar(_, text) => SyntaxTokens(text)[0].kind
                                                     case RawArray(_, _) => ArrayEnd
                                                     case RawObject(_, _) => ObjectEnd
    decreases r
  {
    match r
    case RawScalar(_, _) =>
    case RawArray(_, items) =>
      if items.Some? {
        RawItemsAreSolid(items.value);
      }
    case RawObject(_, members) => RawMembersAreSolid(members);
  }

  lemma {:induction false} RawItemsAreSolid(items: RawItems)
    requires ValidRawItems(items)
    ensures RawItemsTokens(items) != [] && RawItemsTokens(items)[|RawItemsTokens(items)| - 1].kind == ArrayEnd
    decreases items
  {
    hide RawTokens, ValidRaw;
    if items.MoreItems? {
      RawItemsAreSolid(items.rest);
    }
  }

  lemma {:induction false} RawMembersAreSolid(members: RawMembers)
    requires ValidRawMembers(members)
    ensures var ts := RawMembersTokens(members); ts != [] && ts[|ts| - 1].kind == ObjectEnd
    decreases members
  {
    hide RawTokens, ValidRaw;
    if members.RawMember? && members.end.Separator? {
      RawMembersAreSolid(members.end.rest);
    }
  }

  // ----- printing -----

  /** Every double in the tree is printed as a number of the standard. */
  ghost predicate PrintsNumbers(format: Format, v: Value)
    decreases v, 1
  {
    match v
    case RealVal(d) => IsRfcNumber(RealText(format, d))
    case ArrayVal(items) => ItemsPrintNumbers(format, items)
    case ObjectVal(members) => MembersPrintNumbers(format, members)
    case _ => true
  }

  ghost predicate ItemsPrintNumbers(format: Format, items: seq<Value>)
    decreases items, 0
  {
    items == [] || (PrintsNumbers(format, items[0]) && ItemsPrintNumbers(format, items[1..]))
  }

  ghost predicate MembersPrintNumbers(format: Format, members: seq<Member>)
    decreases members, 0
  {
    members == [] || (PrintsNumbers(format, members[0].value) && MembersPrintNumbers(format, members[1..]))
  }

  /** What is printed is a text of the standard exactly if the doubles are; see `FixedTextIsRfc`. */
  lemma {:induction false} PrintsTheGrammar(format: Format, v: Value)
    ensures IsRfcText(SyntaxOf(format, v)) <==> PrintsNumbers(format, v)
    decreases v, 1
  {
    hide IsRfcNumber, IsRfcString, RealText, QuoteUnits, CStr;
    match v
    case IntVal(i) => IntTextIsRfc(i as int);
    case UIntVal(u) => IntTextIsRfc(u as int);
    case StringVal(s) => QuotedIsRfc(CStr(s));
    case ArrayVal(items) => ItemsPrintGrammar(format, items);
    case ObjectVal(members) => MembersPrintGrammar(format, members);
    case _ =>
  }

  lemma {:induction false} ItemsPrintGrammar(format: Format, items: seq<Value>)
    ensures AreRfcItems(SyntaxItems(format, items)) <==> ItemsPrintNumbers(format, items)
    decreases items, 0
  {
    hide SyntaxOf, IsRfcText, PrintsNumbers;
    if items != [] {
      PrintsTheGrammar(format, items[0]);
      ItemsPrintGrammar(format, items[1..]);
      assert SyntaxItems(format, items)[1..] == SyntaxItems(format, items[1..]);
    }
  }

  lemma {:induction false} MembersPrintGrammar(format: Format, members: seq<Member>)
    ensures AreRfcMembers(SyntaxMembers(format, members)) <==> MembersPrintNumbers(format, members)
    decreases members, 0
  {
    hide SyntaxOf, IsRfcText, PrintsNumbers, IsRfcString, QuoteUnits, CStr;
    if members != [] {
      QuotedIsRfc(CStr(members[0].name));
      PrintsTheGrammar(format, members[0].value);
      MembersPrintGrammar(format, members[1..]);
      assert SyntaxMembers(format, members)[1..] == SyntaxMembers(format, members[1..]);
    }
  }
}
