/**
 A document with a colon where a comma should be: the reader accepts it, for the sake of an empty comment.
 */
module JsonColonForComma {
  import opened CText
  import opened JsonValue
  import opened JsonNumber
  import opened JsonLexer
  import opened JsonString
  import opened JsonParser
  import opened JsonSyntax
  import opened JsonDialect
  import opened JsonAccepted

  // ----- members of one character each -----

  function SmallMember(c: char, digit: char, after: seq<Lexeme>, end: RawEnd): RawMembers {
    RawMember([], [Raw(c)], RawScalar([], NumberText([digit])), after, end)
  }

  lemma CharacterAt(doc: string, p: nat, kind: TokenType)
    requires p < |doc|
    requires ([doc[p]], kind) in {("{", ObjectBegin), ("}", ObjectEnd), (":", MemberSeparator)}
    ensures Lexes(doc, p, [Lexeme(kind, [doc[p]])], p + 1)
  {
    assert doc[p..p + 1] == [doc[p]];
    PunctuationToken(doc, p, [doc[p]], kind);
  }

  lemma SmallName(c: char)
    requires c != '"' && c != '\\'
    ensures ValidUnits([Raw(c)]) && QuotedUnits([Raw(c)]) == ['"', c, '"'] && UnitsMeaning([Raw(c)]) == Some([c])
  {
    assert [Raw(c)][1..] == [];
    assert UnitsText([Raw(c)]) == [c] + "" && [c] + "" == [c];
  }

  lemma NameAt(doc: string, p: nat, c: char)
    requires p + 3 <= |doc| && doc[p] == '"' && doc[p + 1] == c && doc[p + 2] == '"' && c != '"' && c != '\\'
    ensures Lexes(doc, p, NameTokens([Raw(c)]), p + 3)
  {
    SmallName(c);
    assert doc[p..p + 3] == ['"', c, '"'];
    StringTokenHere(doc, p, [Raw(c)]);
  }

  lemma DigitAt(doc: string, p: nat)
    requires p + 1 < |doc| && IsDigit(doc[p]) && !IsNumberChar(doc[p + 1])
    ensures Lexes(doc, p, [Lexeme(NumberToken, [doc[p]])], p + 1)
  {
    assert doc[p..p + 1] == [doc[p]];
    NumberTokenHere(doc, p, [doc[p]]);
  }

  lemma MemberAt(doc: string, p: nat, c: char, after: seq<Lexeme>, end: RawEnd, q: nat)
    requires p + 5 < |doc| && doc[p] == '"' && doc[p + 1] == c && doc[p + 2] == '"' && c != '"' && c != '\\'
    requires doc[p + 3] == ':' && IsDigit(doc[p + 4]) && !IsNumberChar(doc[p + 5])
    requires Lexes(doc, p + 5, after + RawEndTokens(end), q)
    ensures Lexes(doc, p, RawMembersTokens(SmallMember(c, doc[p + 4], after, end)), q)
  {
    hide Lexes, RawEndTokens, QuotedUnits;
    NameAt(doc, p, c);
    CharacterAt(doc, p + 3, MemberSeparator);
    assert [doc[p + 3]] == ":";
    DigitAt(doc, p + 4);
    var digit, tail := [Lexeme(NumberToken, [doc[p + 4]])], after + RawEndTokens(end);
    LexesConcat(doc, p + 4, digit, p + 5, tail, q);
    LexesConcat(doc, p + 3, COLON, p + 4, digit + tail, q);
    LexesConcat(doc, p, NameTokens([Raw(c)]), p + 3, COLON + (digit + tail), q);
    var all := NameTokens([Raw(c)]) + (COLON + (digit + tail));
    assert [] + all == all && [] + digit == digit;
  }

  lemma MemberReads(scan: Scan, c: char, i: Int64, after: seq<Lexeme>, end: RawEnd, stored: seq<Member>, before: string)
    requires c != '"' && c != '\\' && c != '\0' && 0 <= i < 10 && AreComments(after)
    requires end.Separator? ==> ValidMark(after, end.mark) && ValidRawMembers(end.rest) && AreBareMembers(end.rest)
    requires forall k :: 0 <= k < |stored| ==> Less(stored[k].name, [c])
    ensures var m, all := SmallMember(c, DigitChar(i as nat), after, end), stored + [Member([c], IntVal(i))];
            && ValidRawMembers(m) && AreBareMembers(m)
            && MembersReading(scan, m, stored, before)
               == if end.Brace? then Some(all) else MembersReading(scan, end.rest, all, [c])
  {
    SmallName(c);
    IntRoundTrip(scan, i);
    assert IntText(i as int) == [DigitChar(i as nat)];
    hide UnitsMeaning, ValidUnits, NumberMeaning, IsNumberToken, Put, CStr, ValidMark, QuotedUnits;
    PutAppends(stored, [c], IntVal(i));
    assert CStr([c]) == [c];
  }

  // ----- the document -----

  const DOCUMENT := "{\"a\":1/**/:\"b\":2}"

  lemma CommentAt(doc: string, p: nat)
    requires p + 4 <= |doc| && doc[p] == '/' && doc[p + 1] == '*' && doc[p + 2] == '*' && doc[p + 3] == '/'
    ensures Lexes(doc, p, [Lexeme(Comment, "/**/")], p + 4)
  {
    assert AfterComment(doc, p + 1) == Scanned(p + 4, true);
    assert TokenAt(doc, p) == Token(Comment, p, p + 4);
    assert doc[p..p + 4] == "/**/" && [Lexeme(Comment, "/**/")][1..] == [];
  }

  const NOTHING := [Lexeme(Comment, "/**/")]
  const MARK := Lexeme(MemberSeparator, ":")

  function Second(): RawMembers {
    SmallMember('b', '2', [], Brace)
  }

  function First(): RawMembers {
    SmallMember('a', '1', NOTHING, Separator(MARK, Second()))
  }

  lemma DigitThenBrace(c: char, d: char)
    requires c == '2' && d == '}'
    ensures IsDigit(c) && !IsNumberChar(d)
  {
  }

  lemma BraceAt(doc: string, p: nat)
    requires p < |doc| && doc[p] == '}'
    ensures Lexes(doc, p, [] + RawEndTokens(Brace), p + 1)
  {
    CharacterAt(doc, p, ObjectEnd);
    hide Lexes;
    assert [doc[p]] == "}";
    assert [] + CLOSE_OBJECT == CLOSE_OBJECT;
  }

  lemma SecondAt(doc: string)
    requires |doc| == 17 && doc[11] == '"' && doc[12] == 'b' && doc[13] == '"' && doc[14] == ':'
    requires doc[15] == '2' && doc[16] == '}'
    ensures Lexes(doc, 11, RawMembersTokens(Second()), 17)
  {
    DigitThenBrace(doc[15], doc[16]);
    hide RawMembersTokens, SmallMember, Lexes, RawEndTokens, IsDigit, IsNumberChar;
    BraceAt(doc, 16);
    MemberAt(doc, 11, 'b', [], Brace, 17);
  }

  lemma FirstAt(doc: string)
    requires |doc| == 17 && doc[1] == '"' && doc[2] == 'a' && doc[3] == '"' && doc[4] == ':' && doc[5] == '1'
    requires doc[6] == '/' && doc[7] == '*' && doc[8] == '*' && doc[9] == '/' && doc[10] == ':'
    requires Lexes(doc, 11, RawMembersTokens(Second()), 17)
    ensures Lexes(doc, 1, RawMembersTokens(First()), 17)
  {
    hide RawMembersTokens, SmallMember, Lexes, Second;
    CharacterAt(doc, 10, MemberSeparator);
    assert [doc[10]] == ":";
    CommentAt(doc, 6);
    LexesConcat(doc, 10, [MARK], 11, RawMembersTokens(Second()), 17);
    LexesConcat(doc, 6, NOTHING, 10, [MARK] + RawMembersTokens(Second()), 17);
    MemberAt(doc, 1, 'a', NOTHING, Separator(MARK, Second()), 17);
  }

  lemma Reads(scan: Scan)
    ensures ValidRawMembers(First()) && AreBareMembers(First())
    ensures MembersReading(scan, First(), [], "") == Some([Member("a", IntVal(1)), Member("b", IntVal(2))])
  {
    hide SmallMember, ValidRawMembers, AreBareMembers, MembersReading;
    assert DigitChar(1) == '1' && DigitChar(2) == '2';
    MemberReads(scan, 'b', 2, [], Brace, [Member("a", IntVal(1))], "a");
    MemberReads(scan, 'a', 1, NOTHING, Separator(MARK, Second()), [], "");
    assert [] + [Member("a", IntVal(1))] == [Member("a", IntVal(1))];
    assert [Member("a", IntVal(1))] + [Member("b", IntVal(2))] == [Member("a", IntVal(1)), Member("b", IntVal(2))];
  }

  lemma Characters()
    ensures var doc := DOCUMENT;
            && |doc| == 17 && doc[0] == '{' && doc[1] == '"' && doc[2] == 'a' && doc[3] == '"' && doc[4] == ':'
            && doc[5] == '1' && doc[6] == '/' && doc[7] == '*' && doc[8] == '*' && doc[9] == '/' && doc[10] == ':'
            && doc[11] == '"' && doc[12] == 'b' && doc[13] == '"' && doc[14] == ':' && doc[15] == '2' && doc[16] == '}'
  {
  }

  lemma ObjectAt(doc: string)
    requires |doc| == 17 && doc[0] == '{' && Lexes(doc, 1, RawMembersTokens(First()), 17)
    ensures Lexes(doc, 0, RawTokens(RawObject([], First())), 17)
  {
    hide Lexes, RawMembersTokens, First;
    CharacterAt(doc, 0, ObjectBegin);
    assert [doc[0]] == "{";
    LexesConcat(doc, 0, OPEN_OBJECT, 1, RawMembersTokens(First()), 17);
    assert [] + (OPEN_OBJECT + RawMembersTokens(First())) == OPEN_OBJECT + RawMembersTokens(First());
  }

  lemma ColonForComma(cfg: Config, root: Value)
    ensures var o := ParseDocument(cfg, DOCUMENT, root);
            o.ok && o.value == ObjectVal([Member("a", IntVal(1)), Member("b", IntVal(2))])
  {
    hide Lexes, ParseDocument, RawMembersTokens, First, DOCUMENT, MembersReading, ValidRawMembers, AreBareMembers,
      RawTokens;
    var doc := DOCUMENT;
    Characters();
    SecondAt(doc);
    FirstAt(doc);
    ObjectAt(doc);
    Reads(cfg.scan);
    var value := ObjectVal([Member("a", IntVal(1)), Member("b", IntVal(2))]);
    assert IsRawAt(cfg, doc, 0, RawObject([], First()), 17, value);
    AcceptsDocuments(cfg, doc, root, value);
  }
}
