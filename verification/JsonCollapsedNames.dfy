/**
 A document of RFC 8259 with two members, of which the reader keeps one: their names agree up to a NUL.
 */
module JsonCollapsedNames {
  import opened CText
  import opened JsonValue
  import opened JsonNumber
  import opened JsonLexer
  import opened JsonString
  import opened JsonParser
  import opened JsonSyntax
  import opened JsonGrammar
  import opened JsonRfc
  import opened JsonStands
  import opened JsonNul
  import opened JsonStandard

  const DOCUMENT := "{\"a\\u0000x\":1,\"a\":2}"

  const FIRST := MemberText(AroundNul('a', 'x'), NumberText("1"))
  const SECOND := MemberText([Raw('a')], NumberText("2"))

  // ----- where its words stand -----

  lemma StandsNext(doc: string, p: nat, l: Lexeme, rest: seq<Lexeme>, q: nat)
    requires WordAt(doc, p, l) && StandsAt(doc, p + |l.text|, rest, q)
    ensures StandsAt(doc, p, [l] + rest, q)
  {
    var ts := [l] + rest;
    assert ts[0] == l && ts[1..] == rest && AreSpaces(doc, p, p);
    hide AreSpaces, WordAt;
  }

  lemma NothingStands(doc: string, p: nat)
    ensures StandsAt(doc, p, [], p)
  {
  }

  lemma MarkStands(doc: string, p: nat, l: Lexeme, rest: seq<Lexeme>, q: nat)
    requires p < |doc| && l.text == [doc[p]] && l.kind != NumberToken && StandsAt(doc, p + 1, rest, q)
    ensures StandsAt(doc, p, [l] + rest, q)
  {
    hide StandsAt;
    assert doc[p..p + 1] == [doc[p]];
    StandsNext(doc, p, l, rest, q);
  }

  lemma DigitStands(doc: string, p: nat, rest: seq<Lexeme>, q: nat)
    requires p + 1 < |doc| && (doc[p + 1] == ',' || doc[p + 1] == '}') && StandsAt(doc, p + 1, rest, q)
    ensures StandsAt(doc, p, [Lexeme(NumberToken, [doc[p]])] + rest, q)
  {
    hide StandsAt;
    assert doc[p..p + 1] == [doc[p]];
    StandsNext(doc, p, Lexeme(NumberToken, [doc[p]]), rest, q);
  }

  lemma SecondHere(doc: string, p: nat)
    requires |doc| == p + 6 && doc[p] == '"' && doc[p + 1] == 'a' && doc[p + 2] == '"' && doc[p + 3] == ':'
    requires doc[p + 4] == '2' && doc[p + 5] == '}'
    ensures StandsAt(doc, p, MembersTokens([SECOND]), p + 6)
  {
    var digit := [Lexeme(NumberToken, "2")];
    assert MembersTokens([SECOND]) == NameTokens(SECOND.name) + (COLON + (digit + CLOSE_OBJECT));
    hide StandsAt, QuotedUnits, MembersTokens;
    ColonHere(doc, p + 3);
    SmallName();
    assert doc[p..p + 3] == ['"', 'a', '"'];
    StandsNext(doc, p, NameTokens(SECOND.name)[0], COLON + (digit + CLOSE_OBJECT), p + 6);
  }

  lemma ColonHere(doc: string, p: nat)
    requires |doc| == p + 3 && doc[p] == ':' && doc[p + 1] == '2' && doc[p + 2] == '}'
    ensures StandsAt(doc, p, COLON + ([Lexeme(NumberToken, "2")] + CLOSE_OBJECT), p + 3)
  {
    NothingStands(doc, p + 3);
    hide StandsAt;
    MarkStands(doc, p + 2, CLOSE_OBJECT[0], [], p + 3);
    assert CLOSE_OBJECT + [] == CLOSE_OBJECT;
    DigitStands(doc, p + 1, CLOSE_OBJECT, p + 3);
    MarkStands(doc, p, COLON[0], [Lexeme(NumberToken, "2")] + CLOSE_OBJECT, p + 3);
  }

  lemma SmallName()
    ensures QuotedUnits([Raw('a')]) == "\"a\"" && IsRfcString([Raw('a')]) && RfcMeaning([Raw('a')]) == Some("a")
  {
    assert [Raw('a')][1..] == [];
    assert UnitsText([Raw('a')]) == "a";
  }

  lemma FirstHere(doc: string, p: nat, q: nat)
    requires p + 13 < |doc| && doc[p..p + 10] == "\"a\\u0000x\"" && doc[p + 10] == ':' && doc[p + 11] == '1'
    requires doc[p + 12] == ',' && StandsAt(doc, p + 13, MembersTokens([SECOND]), q)
    ensures StandsAt(doc, p, MembersTokens([FIRST, SECOND]), q)
  {
    hide StandsAt, QuotedUnits, AroundNul;
    var rest := MembersTokens([SECOND]);
    assert [FIRST, SECOND][1..] == [SECOND];
    var digit := [Lexeme(NumberToken, "1")];
    assert MembersTokens([FIRST, SECOND]) == NameTokens(FIRST.name) + (COLON + (digit + (COMMA + rest)));
    hide MembersTokens;
    MarkStands(doc, p + 12, COMMA[0], rest, q);
    DigitStands(doc, p + 11, COMMA + rest, q);
    MarkStands(doc, p + 10, COLON[0], digit + (COMMA + rest), q);
    AroundNulText('a', 'x');
    StandsNext(doc, p, NameTokens(FIRST.name)[0], COLON + (digit + (COMMA + rest)), q);
  }

  lemma Characters()
    ensures var doc := DOCUMENT;
            && |doc| == 20 && doc[0] == '{' && doc[1..11] == "\"a\\u0000x\"" && doc[11] == ':' && doc[12] == '1'
            && doc[13] == ',' && doc[14] == '"' && doc[15] == 'a' && doc[16] == '"' && doc[17] == ':'
            && doc[18] == '2' && doc[19] == '}'
  {
  }

  lemma Stands()
    ensures |DOCUMENT| == 20 && StandsAt(DOCUMENT, 0, SyntaxTokens(ObjectText([FIRST, SECOND])), 20)
  {
    hide StandsAt, MembersTokens, FIRST, SECOND, DOCUMENT;
    Characters();
    SecondHere(DOCUMENT, 14);
    FirstHere(DOCUMENT, 1, 20);
    MarkStands(DOCUMENT, 0, OPEN_OBJECT[0], MembersTokens([FIRST, SECOND]), 20);
  }

  // ----- what it means, and what is read -----

  lemma DigitIsRfc(scan: Scan, i: Int64)
    requires 0 <= i < 10
    ensures IsRfcText(NumberText([DigitChar(i as nat)])) && ValidSyntax(NumberText([DigitChar(i as nat)]))
    ensures Meaning(scan, NumberText([DigitChar(i as nat)])) == Some(IntVal(i))
  {
    IntRoundTrip(scan, i);
    IntTextIsRfc(i as int);
    assert IntText(i as int) == [DigitChar(i as nat)];
    hide IsRfcNumber, NumberMeaning, IsNumberToken;
    RfcIsValid(NumberText([DigitChar(i as nat)]));
  }

  lemma Means(scan: Scan)
    ensures IsNumberMember(scan, FIRST, "a\0x", IntVal(1)) && IsNumberMember(scan, SECOND, "a", IntVal(2))
    ensures CStr("a\0x") == "a" && CStr("a") == "a"
  {
    hide IsRfcText, ValidSyntax, Meaning, IsRfcString, RfcMeaning;
    assert DigitChar(1) == '1' && DigitChar(2) == '2';
    DigitIsRfc(scan, 1);
    DigitIsRfc(scan, 2);
    AroundNulMeans('a', 'x');
    NulInside(scan, 'a', 'x');
    SmallName();
    CutAt('a', 'x');
    assert ['a', '\0', 'x'] == "a\0x";
  }

  lemma TwoMembers()
    ensures Put(Put([], "a\0x", IntVal(1)), "a", IntVal(2)) == [Member("a", IntVal(2)), Member("a\0x", IntVal(1))]
    ensures Put(Put([], "a", IntVal(1)), "a", IntVal(2)) == [Member("a", IntVal(2))]
  {
    var one := [Member("a\0x", IntVal(1))];
    BoundIs([], "a\0x", 0);
    BoundIs([], "a", 0);
    PutTwice([], "a", IntVal(1), IntVal(2));
    assert Put([], "a\0x", IntVal(1)) == one;
    LessTotal("a", "a\0x");
    assert "a"[1..] == "" && "a\0x"[1..] == "\0x" && Less("", "\0x");
    assert Less("a", "a\0x") && one[0].name == "a\0x";
    BoundIs(one, "a", 0);
  }

  lemma TextMeans(scan: Scan)
    ensures var s := ObjectText([FIRST, SECOND]);
            && IsRfcText(s) && ValidSyntax(s) && Meaning(scan, s) == Some(ObjectVal([Member("a", IntVal(2))]))
            && StandardMeaning(scan, s)
               == Some(ObjectVal([Member("a", IntVal(2)), Member("a\0x", IntVal(1))]))
  {
    Means(scan);
    hide FIRST, SECOND, CStr, IsNumberMember, Put, MembersMeaning, StandardMembers, AreRfcMembers, ValidMembers;
    TwoMean(scan, FIRST, "a\0x", IntVal(1), SECOND, "a", IntVal(2));
    TwoMembers();
    ObjectMeans(scan, [FIRST, SECOND]);
  }

  lemma ObjectMeans(scan: Scan, members: seq<MemberText>)
    requires AreRfcMembers(members) && ValidMembers(members)
    ensures var s := ObjectText(members);
            && IsRfcText(s) && ValidSyntax(s)
            && (MembersMeaning(scan, members, []).Some? ==>
                  Meaning(scan, s) == Some(ObjectVal(MembersMeaning(scan, members, []).value)))
            && (StandardMembers(scan, members, []).Some? ==>
                  StandardMeaning(scan, s) == Some(ObjectVal(StandardMembers(scan, members, []).value)))
  {
  }

  /** A member with the name `a` and a number for its value. */
  ghost predicate IsNumberMember(scan: Scan, m: MemberText, a: string, v: Value) {
    && IsRfcString(m.name) && RfcMeaning(m.name) == Some(a)
    && m.value.NumberText? && IsRfcText(m.value) && ValidSyntax(m.value) && Meaning(scan, m.value) == Some(v)
  }

  lemma OneMeans(scan: Scan, m: MemberText, a: string, v: Value, stored: seq<Member>)
    requires IsNumberMember(scan, m, a, v)
    ensures AreRfcMembers([m]) && ValidMembers([m])
    ensures MembersMeaning(scan, [m], stored) == Some(Put(stored, CStr(a), v))
    ensures StandardMembers(scan, [m], stored) == Some(Put(stored, a, v))
  {
    NameMeans(m.name);
    assert [m][1..] == [];
    hide RfcMeaning, UnitsMeaning, IsRfcString, CStr, Put;
  }

  lemma TwoMean(scan: Scan, first: MemberText, a: string, v: Value, second: MemberText, b: string, w: Value)
    requires IsNumberMember(scan, first, a, v) && IsNumberMember(scan, second, b, w)
    ensures AreRfcMembers([first, second]) && ValidMembers([first, second])
    ensures MembersMeaning(scan, [first, second], []) == Some(Put(Put([], CStr(a), v), CStr(b), w))
    ensures StandardMembers(scan, [first, second], []) == Some(Put(Put([], a, v), b, w))
  {
    NameMeans(first.name);
    OneMeans(scan, second, b, w, Put([], CStr(a), v));
    OneMeans(scan, second, b, w, Put([], a, v));
    assert [first, second][1..] == [second];
    hide RfcMeaning, UnitsMeaning, IsRfcString, CStr, Put;
  }

  /** By the standard two members, by the reader one: the second under the name of both. */
  lemma NamesCollapseHere(cfg: Config, root: Value)
    ensures IsRfcDocument(cfg.scan, DOCUMENT, ObjectText([FIRST, SECOND]),
                          ObjectVal([Member("a", IntVal(2)), Member("a\0x", IntVal(1))]))
    ensures ParseDocument(cfg, DOCUMENT, root).ok
            && ParseDocument(cfg, DOCUMENT, root).value == ObjectVal([Member("a", IntVal(2))])
  {
    var s, value := ObjectText([FIRST, SECOND]), ObjectVal([Member("a", IntVal(2)), Member("a\0x", IntVal(1))]);
    hide StandsAt, SyntaxTokens, Meaning, StandardMeaning, NulFree, IsRfcText, ValidSyntax, NoExcess, HasNoExcessAt,
      FIRST, SECOND, DOCUMENT, ParseValue;
    Stands();
    TextMeans(cfg.scan);
    assert IsRfcAt(cfg.scan, DOCUMENT, 0, s, 20, value) && AreSpaces(DOCUMENT, 20, |DOCUMENT|);
    ReadsTheStandard(cfg, DOCUMENT, 0, root, s, 20);
    AcceptsDocumentsOfTheStandard(cfg, DOCUMENT, root);
  }
}
