/**
 What the reader reports of a text it does not accept: one error, where it is, what is read before it and how much
 is skipped behind it.
 */
module JsonErrors {
  import opened CText
  import opened JsonValue
  import opened JsonNumber
  import opened JsonLexer
  import opened JsonString
  import opened JsonParser
  import opened JsonSyntax
  import opened JsonReads

  // ----- how many -----

  /** A value that is not accepted has one error, however deep it is: the containers around only skip. */
  lemma {:induction false} OneError(cfg: Config, doc: string, p: nat, place: Value)
    requires p <= |doc|
    ensures var o := ParseValue(cfg, doc, p, place); |o.errors| == if o.ok then 0 else 1
    decreases |doc| - p, 0
  {
    hide TokenAt, FirstToken, ParseNumber, ParseString, ParseItems, ParseMembers;
    var t := FirstToken(cfg, doc, p);
    OneScalarError(cfg, doc, t, place);
    match t.kind
    case ObjectBegin => OneMemberError(cfg, doc, t.end, [], "");
    case ArrayBegin => OneItemError(cfg, doc, AfterSpaces(doc, t.end), []);
    case _ =>
  }

  lemma OneScalarError(cfg: Config, doc: string, t: Token, place: Value)
    requires t.start <= t.end <= |doc|
    ensures t.kind == NumberToken && IsNumberToken(doc[t.start..t.end]) ==>
              |ParseNumber(cfg, doc, t, place).errors| <= 1
    ensures t.start + 2 <= t.end ==> |ParseString(doc, t, place).errors| <= 1
  {
    hide NumberMeaning, DecodeToken;
  }

  lemma {:induction false} OneItemError(cfg: Config, doc: string, p: nat, items: seq<Value>)
    requires p <= |doc|
    ensures |ParseItems(cfg, doc, p, items).errors| <= 1
    decreases |doc| - p, 1
  {
    hide ParseValue, AfterItem;
    OneError(cfg, doc, p, NullVal);
    var item := ParseValue(cfg, doc, p, NullVal);
    if item.ok && AfterItem(doc, item.pos).Next? {
      OneItemError(cfg, doc, AfterItem(doc, item.pos).next, items + [item.value]);
    }
  }

  lemma {:induction false} OneMemberError(
    cfg: Config, doc: string, p: nat, members: seq<Member>, name: string)
    requires p <= |doc|
    ensures |ParseMembers(cfg, doc, p, members, name).errors| <= 1
    decreases |doc| - p, 1
  {
    hide ParseValue, AfterMember, BeforeMember, Put, CStr;
    var step := BeforeMember(doc, p, name);
    if step.Next? {
      var key := CStr(step.name);
      OneError(cfg, doc, step.next, Place(members, key));
      var member := ParseValue(cfg, doc, step.next, Place(members, key));
      if member.ok && AfterMember(doc, member.pos).Next? {
        OneMemberError(cfg, doc, AfterMember(doc, member.pos).next, Put(members, key, member.value), step.name);
      }
    }
  }

  // ----- skipping -----

  /** Skipping passes over every token up to the bracket looked for, and over that. */
  lemma {:induction false} RecoverySkips(doc: string, p: nat, ts: seq<Lexeme>, last: Lexeme, q: nat, until: TokenType)
    requires p <= |doc| && Lexes(doc, p, ts + [last], q)
    requires forall i :: 0 <= i < |ts| ==> ts[i].kind != until && ts[i].kind != EndOfStream
    requires last.kind == until || last.kind == EndOfStream
    ensures AfterRecovery(doc, p, until) == q
    decreases |ts|
  {
    hide TokenAt;
    if ts == [] {
      assert ts + [last] == [last] && [last][1..] == [];
    } else {
      assert (ts + [last])[1..] == ts[1..] + [last];
      RecoverySkips(doc, TokenAt(doc, p).end, ts[1..], last, q, until);
    }
  }

  // ----- which error -----

  /** The outcome of one error at the token `t`, with the text up to behind the next `until` skipped. */
  function Reported(doc: string, value: Value, message: Message, t: Token, until: TokenType): Outcome
    requires t.end <= |doc|
  {
    Outcome(false, value, AfterRecovery(doc, t.end, until), [ErrorInfo(message, t, None)])
  }

  /** Where a value should begin stands another token: the place keeps what it held. */
  lemma NoValue(cfg: Config, doc: string, p: nat, place: Value)
    requires p <= |doc|
    requires FirstToken(cfg, doc, p).kind in
               {ArrayEnd, ObjectEnd, ArraySeparator, MemberSeparator, EndOfStream, ErrorToken}
    ensures var t := FirstToken(cfg, doc, p);
            ParseValue(cfg, doc, p, place) == Outcome(false, place, t.end, [ErrorInfo(ValueExpected, t, None)])
  {
    hide FirstToken;
  }

  /** A number token that cannot be scanned. */
  lemma NoNumber(cfg: Config, doc: string, p: nat, place: Value, text: string, q: nat)
    requires p <= |doc| && IsNumberToken(text) && Lexes(doc, p, [Lexeme(NumberToken, text)], q)
    requires NumberMeaning(cfg.scan, text) == None
    ensures ParseValue(cfg, doc, p, place)
            == Outcome(false, place, q, [ErrorInfo(NotANumber(text), TokenAt(doc, p), None)])
  {
    LexesLast(doc, p, NumberToken, text, q);
    hide TokenAt, NumberMeaning;
  }

  /** Behind an item there is neither a comma nor the bracket. */
  lemma NoCommaInArray(cfg: Config, doc: string, p: nat, before: seq<Value>, s: Syntax, q: nat)
    requires p <= |doc| && q <= |doc| && ValidSyntax(s) && Lexes(doc, p, SyntaxTokens(s), q)
    requires Meaning(cfg.scan, s).Some?
    requires PastComments(doc, TokenAt(doc, q)).kind !in {ArrayEnd, ArraySeparator}
    ensures ParseItems(cfg, doc, p, before)
            == Reported(doc, ArrayVal(before + [Meaning(cfg.scan, s).value]), MissingCommaInArray,
                        PastComments(doc, TokenAt(doc, q)), ArrayEnd)
  {
    ReadsSyntax(cfg, doc, p, s, q, NullVal);
    hide Lexes, SyntaxTokens, Meaning, ParseValue, TokenAt, PastComments, AfterRecovery;
  }

  /** An item that fails: its error stands alone, what was read of it is kept, and the array is left. */
  lemma BadItem(cfg: Config, doc: string, p: nat, before: seq<Value>, error: ErrorInfo)
    requires p <= |doc| && ParseValue(cfg, doc, p, NullVal).errors == [error]
    ensures var item := ParseValue(cfg, doc, p, NullVal);
            ParseItems(cfg, doc, p, before)
            == Outcome(false, ArrayVal(before + [item.value]), AfterRecovery(doc, item.pos, ArrayEnd), [error])
  {
    hide ParseValue, AfterItem, AfterRecovery;
  }

  /** A member that fails: its error stands alone, what was read of it is stored, and the object is left. */
  lemma BadMember(
    cfg: Config, doc: string, p: nat, stored: seq<Member>, before: string, name: string, next: nat, error: ErrorInfo)
    requires p <= |doc| && next <= |doc| && BeforeMember(doc, p, before) == Next(name, next)
    requires ParseValue(cfg, doc, next, Place(stored, CStr(name))).errors == [error]
    ensures var member := ParseValue(cfg, doc, next, Place(stored, CStr(name)));
            ParseMembers(cfg, doc, p, stored, before)
            == Outcome(false, ObjectVal(Put(stored, CStr(name), member.value)),
                       AfterRecovery(doc, member.pos, ObjectEnd), [error])
  {
    hide ParseValue, BeforeMember, AfterMember, AfterRecovery, Put, CStr;
  }

  /** The place of a member holds what an earlier member of that name left there, or null. */
  lemma PlaceAfterPut(stored: seq<Member>, key: string, value: Value, other: string)
    requires Sorted(stored)
    ensures Place(Put(stored, key, value), other) == if other == key then value else Place(stored, other)
    ensures Place([], other) == NullVal
  {
    FindAfterPut(stored, key, value, other);
    assert LowerBound([], other) == 0;
    hide Put, Find, LowerBound;
  }

  /** Where a name should begin stands another token, or the brace behind a name that is not empty. */
  lemma NoName(cfg: Config, doc: string, p: nat, stored: seq<Member>, before: string)
    requires p <= |doc|
    requires var t := PastComments(doc, TokenAt(doc, p));
             t.kind != StringToken && (t.kind == ObjectEnd ==> before != "")
    ensures ParseMembers(cfg, doc, p, stored, before)
            == Reported(doc, ObjectVal(stored), MissingName, PastComments(doc, TokenAt(doc, p)), ObjectEnd)
  {
    hide TokenAt, PastComments, AfterRecovery;
  }

  /** Behind a name there is no colon. */
  lemma NoColon(cfg: Config, doc: string, p: nat, stored: seq<Member>, before: string, name: seq<Unit>, q: nat)
    requires p <= |doc| && q <= |doc| && ValidUnits(name) && UnitsMeaning(name).Some?
    requires Lexes(doc, p, NameTokens(name), q) && TokenAt(doc, q).kind != MemberSeparator
    ensures ParseMembers(cfg, doc, p, stored, before)
            == Reported(doc, ObjectVal(stored), MissingColon, TokenAt(doc, q), ObjectEnd)
  {
    ReadsName(doc, p, name, q);
    hide Lexes, TokenAt, DecodeToken, UnitsMeaning, ValidUnits, AfterRecovery;
  }

  /** Behind a member there is neither a comma nor the brace, nor a comment; the member has been stored. */
  lemma NoCommaInObject(
    cfg: Config, doc: string, p: nat, stored: seq<Member>, before: string, name: seq<Unit>, s: Syntax, q: nat)
    requires p <= |doc| && q <= |doc| && ValidUnits(name) && UnitsMeaning(name).Some?
    requires ValidSyntax(s) && Meaning(cfg.scan, s).Some?
    requires Lexes(doc, p, NameTokens(name) + (COLON + SyntaxTokens(s)), q)
    requires TokenAt(doc, q).kind !in {ObjectEnd, ArraySeparator, Comment}
    ensures var read := Put(stored, CStr(UnitsMeaning(name).value), Meaning(cfg.scan, s).value);
            ParseMembers(cfg, doc, p, stored, before)
            == Reported(doc, ObjectVal(read), MissingCommaInObject, TokenAt(doc, q), ObjectEnd)
  {
    var key := CStr(UnitsMeaning(name).value);
    var head := NameTokens(name) + (COLON + SyntaxTokens(s));
    assert [] + head == head;
    hide Lexes, TokenAt, SyntaxTokens, Meaning, ParseValue, UnitsMeaning, ValidUnits, AfterRecovery, BeforeMember, Put,
      CStr, NameTokens, ParseMembers, Place;
    var next := ReadsHead(doc, p, [], name, SyntaxTokens(s), q, before);
    ReadsSyntax(cfg, doc, next, s, q, Place(stored, key));
    AfterOther(doc, q);
    hide AfterMember;
    BrokenMember(cfg, doc, p, stored, before, UnitsMeaning(name).value, next, q, Meaning(cfg.scan, s).value);
  }

  lemma BrokenMember(
    cfg: Config, doc: string, p: nat, stored: seq<Member>, before: string, name: string, next: nat, q: nat,
    value: Value)
    requires p <= |doc| && next <= |doc| && q <= |doc| && BeforeMember(doc, p, before) == Next(name, next)
    requires ParseValue(cfg, doc, next, Place(stored, CStr(name))) == Outcome(true, value, q, [])
    requires AfterMember(doc, q).Broken?
    ensures var step := AfterMember(doc, q);
            ParseMembers(cfg, doc, p, stored, before)
            == Outcome(false, ObjectVal(Put(stored, CStr(name), value)), step.end, [step.error])
  {
    hide ParseValue, BeforeMember, AfterMember, Put, CStr;
  }

  lemma AfterOther(doc: string, q: nat)
    requires q <= |doc| && TokenAt(doc, q).kind !in {ObjectEnd, ArraySeparator, Comment}
    ensures var t := TokenAt(doc, q);
            AfterMember(doc, q)
            == Broken(ErrorInfo(MissingCommaInObject, t, None), AfterRecovery(doc, t.end, ObjectEnd))
  {
    hide TokenAt, AfterRecovery;
  }

  /** Strict mode: a scalar root is one more error, about the whole document. */
  lemma ScalarRoot(cfg: Config, doc: string, root: Value)
    requires cfg.strictRoot
    ensures var value, o := ParseValue(cfg, doc, 0, root), ParseDocument(cfg, doc, root);
            value.value.ArrayVal? || value.value.ObjectVal? ||
            o.errors == value.errors + [ErrorInfo(BadRoot, Token(ErrorToken, 0, |doc|), None)]
  {
    hide ParseValue, FirstToken;
  }

  // ----- strings -----

  /** The errors of an escape with hexadecimal digits, in their order. */
  lemma HexErrors(doc: string, p: nat, end: nat)
    requires p + 2 <= end <= |doc| && doc[p] == '\\' && doc[p + 1] == 'u'
    ensures end < p + 6 ==> Decode(doc, p, end) == BadText(FourDigitsExpected, p + 2)
    ensures p + 6 <= end ==>
              && (!IsHexDigit(doc[p + 2]) ==> Decode(doc, p, end) == BadText(HexDigitExpected, p + 3))
              && (IsHexDigit(doc[p + 2]) && !IsHexDigit(doc[p + 3]) ==>
                    Decode(doc, p, end) == BadText(HexDigitExpected, p + 4))
              && (IsHexDigit(doc[p + 2]) && IsHexDigit(doc[p + 3]) && !IsHexDigit(doc[p + 4]) ==>
                    Decode(doc, p, end) == BadText(HexDigitExpected, p + 5))
              && (IsHexDigit(doc[p + 2]) && IsHexDigit(doc[p + 3]) && IsHexDigit(doc[p + 4])
                  && !IsHexDigit(doc[p + 5]) ==>
                    Decode(doc, p, end) == BadText(HexDigitExpected, p + 6))
  {
    hide HexValue, IsHexDigit, Utf8, Combine;
    if p + 6 <= end {
      DigitErrors(doc, p + 2);
      assert EscapeSequence(doc, p + 2, end) == HexDigits(doc, p + 2, 4, 0);
    }
    hide HexDigits;
  }

  lemma DigitErrors(doc: string, p: nat)
    requires p + 4 <= |doc|
    ensures var r := HexDigits(doc, p, 4, 0);
            && (!IsHexDigit(doc[p]) ==> r == BadCodePoint(HexDigitExpected, p + 1))
            && (IsHexDigit(doc[p]) && !IsHexDigit(doc[p + 1]) ==> r == BadCodePoint(HexDigitExpected, p + 2))
            && (IsHexDigit(doc[p]) && IsHexDigit(doc[p + 1]) && !IsHexDigit(doc[p + 2]) ==>
                  r == BadCodePoint(HexDigitExpected, p + 3))
            && (IsHexDigit(doc[p]) && IsHexDigit(doc[p + 1]) && IsHexDigit(doc[p + 2]) && !IsHexDigit(doc[p + 3]) ==>
                  r == BadCodePoint(HexDigitExpected, p + 4))
  {
    hide HexValue, IsHexDigit;
    if IsHexDigit(doc[p]) {
      var v1 := HexValue(doc[p]);
      assert HexDigits(doc, p, 4, 0) == HexDigits(doc, p + 1, 3, v1);
      if IsHexDigit(doc[p + 1]) {
        var v2 := v1 * 16 + HexValue(doc[p + 1]);
        assert HexDigits(doc, p + 1, 3, v1) == HexDigits(doc, p + 2, 2, v2);
        if IsHexDigit(doc[p + 2]) {
          var v3 := v2 * 16 + HexValue(doc[p + 2]);
          assert HexDigits(doc, p + 2, 2, v2) == HexDigits(doc, p + 3, 1, v3);
        }
      }
    }
  }

  /** And those behind a high surrogate: too short, or no other escape. */
  lemma SecondHalfErrors(doc: string, p: nat, end: nat, high: Unit)
    requires p + 6 <= end <= |doc| && high.Hex? && ValidUnit(high) && StartsAt(doc, p, UnitText(high))
    requires IsHighSurrogate(HexUnitValue(high))
    ensures end < p + 12 ==> Decode(doc, p, end) == BadText(SixCharactersExpected, p + 6)
    ensures p + 12 <= end && doc[p + 6] != '\\' ==> Decode(doc, p, end) == BadText(SecondHalfExpected, p + 7)
    ensures p + 12 <= end && doc[p + 6] == '\\' && doc[p + 7] != 'u' ==>
              Decode(doc, p, end) == BadText(SecondHalfExpected, p + 8)
  {
    HexUnitAt(doc, p, end, high);
    hide HexUnitValue, EscapeSequence, Utf8, Combine, UnitText;
  }

  // ----- a document -----

  const DOCUMENT := "[1 2]"

  lemma Characters()
    ensures var doc := DOCUMENT;
            |doc| == 5 && doc[0] == '[' && doc[1] == '1' && doc[2] == ' ' && doc[3] == '2' && doc[4] == ']'
  {
  }

  /** `[1 2]`: the second number is reported, the first one read, and all of it skipped. */
  lemma CommaMissing(cfg: Config, root: Value)
    ensures ParseDocument(cfg, DOCUMENT, root)
            == Outcome(false, ArrayVal([IntVal(1)]), 5,
                       [ErrorInfo(MissingCommaInArray, Token(NumberToken, 3, 4), None)])
  {
    hide DOCUMENT, ParseValue, FirstToken, PastComments, AfterRecovery;
    var doc := DOCUMENT;
    Characters();
    CommaMissingIn(cfg, doc, root);
  }

  lemma CommaMissingIn(cfg: Config, doc: string, root: Value)
    requires |doc| == 5 && doc[0] == '[' && doc[1] == '1' && doc[2] == ' ' && doc[3] == '2' && doc[4] == ']'
    ensures ParseValue(cfg, doc, 0, root)
            == Outcome(false, ArrayVal([IntVal(1)]), 5,
                       [ErrorInfo(MissingCommaInArray, Token(NumberToken, 3, 4), None)])
    ensures FirstToken(cfg, doc, 5).end == 5
  {
    TokensOf(doc);
    assert doc[1..2] == "1";
    NumberTags(cfg.scan, 1);
    assert Decimal(1) == "1";
    hide TokenAt, AfterSpaces, NumberMeaning, Decimal;
    var one := NumberText("1");
    assert Lexes(doc, 1, SyntaxTokens(one), 2) by { assert SyntaxTokens(one)[1..] == []; }
    NoCommaInArray(cfg, doc, 1, [], one, 2);
    hide ParseItems;
    assert [] + [IntVal(1)] == [IntVal(1)];
  }

  lemma TokensOf(doc: string)
    requires |doc| == 5 && doc[0] == '[' && doc[1] == '1' && doc[2] == ' ' && doc[3] == '2' && doc[4] == ']'
    ensures TokenAt(doc, 0) == Token(ArrayBegin, 0, 1) && TokenAt(doc, 1) == Token(NumberToken, 1, 2)
    ensures TokenAt(doc, 2) == Token(NumberToken, 3, 4) && TokenAt(doc, 4) == Token(ArrayEnd, 4, 5)
    ensures TokenAt(doc, 5) == Token(EndOfStream, 5, 5) && AfterSpaces(doc, 1) == 1
  {
    AfterNumberStops(doc, 2, 2);
    AfterNumberStops(doc, 4, 4);
    assert AfterSpaces(doc, 2) == AfterSpaces(doc, 3) == 3;
    hide AfterNumber, AfterString, AfterComment, AfterWord;
  }
}
