/**
 Texts of RFC 8259 in the bytes of a document: which of them the reader accepts, as what, and what else.
 */
module JsonStandard {
  import opened CText
  import opened JsonValue
  import opened JsonNumber
  import opened JsonLexer
  import opened JsonString
  import opened JsonParser
  import opened JsonSyntax
  import opened JsonGrammar
  import opened JsonDialect
  import opened JsonReads
  import opened JsonAccepted
  import opened JsonRfc
  import opened JsonStands
  import opened JsonNul

  /** The text `s` of the standard stands in the bytes between `p` and `q`, and means `value`. */
  ghost predicate IsRfcAt(scan: Scan, doc: string, p: nat, s: Syntax, q: nat, value: Value) {
    && IsRfcText(s) && StandsAt(doc, p, SyntaxTokens(s), q)
    && (RfcIsValid(s); StandardMeaning(scan, s) == Some(value))
  }

  /** Every number in the text is stored as an integer, or scanned as a double. */
  predicate NumbersScan(scan: Scan, s: Syntax)
    requires ValidSyntax(s)
    decreases s, 1
  {
    match s
    case NumberText(text) => NumberMeaning(scan, text).Some?
    case ArrayText(items) => ItemsScan(scan, items)
    case ObjectText(members) => MembersScan(scan, members)
    case _ => true
  }

  predicate ItemsScan(scan: Scan, items: seq<Syntax>)
    requires ValidItems(items)
    decreases items, 0
  {
    items == [] || (NumbersScan(scan, items[0]) && ItemsScan(scan, items[1..]))
  }

  predicate MembersScan(scan: Scan, members: seq<MemberText>)
    requires ValidMembers(members)
    decreases members, 0
  {
    members == [] || (NumbersScan(scan, members[0].value) && MembersScan(scan, members[1..]))
  }

  /** A text of the standard has a meaning unless a number in it cannot be scanned. */
  lemma {:induction false} OnlyNumbersFail(scan: Scan, s: Syntax)
    requires IsRfcText(s) && ValidSyntax(s)
    ensures StandardMeaning(scan, s).Some? <==> NumbersScan(scan, s)
    decreases s, 1
  {
    hide NumberMeaning, RfcMeaning, IsRfcNumber, IsRfcString, ValidUnits;
    match s
    case StringText(units) => NameMeans(units);
    case ArrayText(items) => OnlyItemsFail(scan, items);
    case ObjectText(members) => OnlyMembersFail(scan, members, []);
    case _ =>
  }

  lemma {:induction false} OnlyItemsFail(scan: Scan, items: seq<Syntax>)
    requires AreRfcItems(items) && ValidItems(items)
    ensures StandardItems(scan, items).Some? <==> ItemsScan(scan, items)
    decreases items, 0
  {
    hide StandardMeaning, NumbersScan, IsRfcText, ValidSyntax;
    if items != [] {
      OnlyNumbersFail(scan, items[0]);
      OnlyItemsFail(scan, items[1..]);
    }
  }

  lemma {:induction false} OnlyMembersFail(scan: Scan, members: seq<MemberText>, stored: seq<Member>)
    requires AreRfcMembers(members) && ValidMembers(members)
    ensures StandardMembers(scan, members, stored).Some? <==> MembersScan(scan, members)
    decreases members, 0
  {
    hide StandardMeaning, NumbersScan, IsRfcText, ValidSyntax, RfcMeaning, IsRfcString, ValidUnits, Put;
    if members != [] {
      NameMeans(members[0].name);
      var name, value := RfcMeaning(members[0].name), StandardMeaning(scan, members[0].value);
      OnlyNumbersFail(scan, members[0].value);
      if value.Some? {
        OnlyMembersFail(scan, members[1..], Put(stored, name.value, value.value));
      }
    }
  }

  /** Between `p` and `q` stand words without anything the standard forbids. */
  ghost predicate HasNoExcessAt(doc: string, p: nat, q: nat) {
    exists ts: seq<Lexeme> :: StandsAt(doc, p, ts, q) && NoExcess(ts)
  }

  /** What the reader makes of a text of the standard: its meaning, where that has no NUL. */
  lemma ReadsTheStandard(cfg: Config, doc: string, p: nat, place: Value, s: Syntax, q: nat)
    requires p <= |doc| && IsRfcText(s) && ValidSyntax(s) && StandsAt(doc, p, SyntaxTokens(s), q)
    ensures var o, standard := ParseValue(cfg, doc, p, place), StandardMeaning(cfg.scan, s);
            && (o.ok <==> standard.Some?)
            && (o.ok ==> o.pos == q && (o.value == standard.value <==> NulFree(standard.value))
                         && Some(o.value) == Meaning(cfg.scan, s))
  {
    hide StandsAt, Lexes, ParseValue, SyntaxTokens, Meaning, StandardMeaning, NulFree, IsRfcText, ValidSyntax,
      IsRfcLexeme;
    RfcHasNoExcess(s);
    StandsIsLexes(doc, p, SyntaxTokens(s), q);
    ReadsSyntax(cfg, doc, p, s, q, place);
    KeptExactly(cfg.scan, s);
  }

  /** An accepted value without excess in its bytes is a text of the standard. */
  lemma NoExcessIsStandard(cfg: Config, doc: string, p: nat, place: Value) returns (s: Syntax, value: Value)
    requires p <= |doc| && ParseValue(cfg, doc, p, place).ok
    requires HasNoExcessAt(doc, p, ParseValue(cfg, doc, p, place).pos)
    ensures IsRfcAt(cfg.scan, doc, p, s, ParseValue(cfg, doc, p, place).pos, value)
  {
    hide StandsAt, Lexes, ParseValue, ValidRaw, Reading, RawTokens, IsBare, SyntaxTokens, Meaning, StandardMeaning,
      ValidSyntax, IsRfcText;
    var q := ParseValue(cfg, doc, p, place).pos;
    var ts: seq<Lexeme> :| StandsAt(doc, p, ts, q) && NoExcess(ts);
    StandsIsLexes(doc, p, ts, q);
    var r := ValueAccepted(cfg, doc, p, place);
    RawIsSolid(r);
    assert ts != [] ==> IsRfcLexeme(ts[|ts| - 1]);
    TokensAreUnique(doc, p, ts, RawTokens(r), q);
    RawIsRfc(cfg.scan, r);
    s := Strip(r);
    BothDefined(cfg.scan, s);
    value := StandardMeaning(cfg.scan, s).value;
  }

  /**
   A text of the standard stands at `p` exactly if the reader accepts the bytes there and they have no excess.
   What the reader then yields is the meaning of the text exactly if that has no NUL.
   */
  lemma AcceptsTheGrammar(cfg: Config, doc: string, p: nat, place: Value, q: nat)
    requires p <= |doc|
    ensures (exists s: Syntax, v: Value :: IsRfcAt(cfg.scan, doc, p, s, q, v)) <==>
            ParseValue(cfg, doc, p, place).ok && ParseValue(cfg, doc, p, place).pos == q && HasNoExcessAt(doc, p, q)
    ensures forall s: Syntax, v: Value :: IsRfcAt(cfg.scan, doc, p, s, q, v) ==>
              (ParseValue(cfg, doc, p, place).value == v <==> NulFree(v))
  {
    hide StandsAt, ParseValue, SyntaxTokens, StandardMeaning, NulFree, IsRfcText, ValidSyntax, NoExcess;
    var o := ParseValue(cfg, doc, p, place);
    forall s: Syntax, v: Value | IsRfcAt(cfg.scan, doc, p, s, q, v)
      ensures o.ok && o.pos == q && HasNoExcessAt(doc, p, q) && (o.value == v <==> NulFree(v))
    {
      RfcIsValid(s);
      RfcHasNoExcess(s);
      ReadsTheStandard(cfg, doc, p, place, s, q);
    }
    if o.ok && o.pos == q && HasNoExcessAt(doc, p, q) {
      var s, v := NoExcessIsStandard(cfg, doc, p, place);
      assert IsRfcAt(cfg.scan, doc, p, s, q, v);
    }
  }

  // ----- documents -----

  /** The document is the text `s` of the standard with nothing but spaces around, and means `value`. */
  ghost predicate IsRfcDocument(scan: Scan, doc: string, s: Syntax, value: Value) {
    exists q: nat :: IsRfcAt(scan, doc, 0, s, q, value) && AreSpaces(doc, q, |doc|)
  }

  predicate RootAllowed(cfg: Config, root: Value) {
    cfg.strictRoot ==> root.ArrayVal? || root.ObjectVal?
  }

  /** Behind the root value stand spaces alone, and in the value nothing that the standard forbids. */
  ghost predicate IsTidy(cfg: Config, doc: string, root: Value) {
    var q := ParseValue(cfg, doc, 0, root).pos;
    HasNoExcessAt(doc, 0, q) && AreSpaces(doc, q, |doc|)
  }

  lemma SameKind(scan: Scan, s: Syntax)
    requires IsRfcText(s) && ValidSyntax(s) && Meaning(scan, s).Some? && StandardMeaning(scan, s).Some?
    ensures Meaning(scan, s).value.ArrayVal? <==> StandardMeaning(scan, s).value.ArrayVal?
    ensures Meaning(scan, s).value.ObjectVal? <==> StandardMeaning(scan, s).value.ObjectVal?
  {
    hide UnitsMeaning, RfcMeaning, ItemsMeaning, StandardItems, MembersMeaning, StandardMembers;
  }

  /**
   A document of the standard is accepted exactly if its root is allowed, and then it is read as what it means
   exactly if that has no NUL. Of the accepted documents those without excess are documents of the standard.
   */
  lemma AcceptsDocumentsOfTheStandard(cfg: Config, doc: string, root: Value)
    ensures forall s: Syntax, v: Value :: IsRfcDocument(cfg.scan, doc, s, v) ==>
              && (ParseDocument(cfg, doc, root).ok <==> RootAllowed(cfg, v))
              && (ParseDocument(cfg, doc, root).value == v <==> NulFree(v))
    ensures (exists s: Syntax, v: Value :: IsRfcDocument(cfg.scan, doc, s, v) && RootAllowed(cfg, v)) <==>
            ParseDocument(cfg, doc, root).ok && IsTidy(cfg, doc, root)
  {
    hide StandsAt, ParseValue, SyntaxTokens, Meaning, StandardMeaning, NulFree, IsRfcText, ValidSyntax, NoExcess,
      HasNoExcessAt;
    forall s: Syntax, v: Value | IsRfcDocument(cfg.scan, doc, s, v)
      ensures ParseDocument(cfg, doc, root).ok <==> RootAllowed(cfg, v)
      ensures ParseDocument(cfg, doc, root).value == v <==> NulFree(v)
      ensures IsTidy(cfg, doc, root)
    {
      DocumentIsRead(cfg, doc, root, s, v);
    }
    if ParseDocument(cfg, doc, root).ok && IsTidy(cfg, doc, root) {
      var s, v := NoExcessIsStandard(cfg, doc, 0, root);
      assert IsRfcDocument(cfg.scan, doc, s, v);
      DocumentIsRead(cfg, doc, root, s, v);
    }
  }

  lemma DocumentIsRead(cfg: Config, doc: string, root: Value, s: Syntax, v: Value)
    requires IsRfcDocument(cfg.scan, doc, s, v)
    ensures ParseDocument(cfg, doc, root).ok <==> RootAllowed(cfg, v)
    ensures ParseDocument(cfg, doc, root).value == v <==> NulFree(v)
    ensures IsTidy(cfg, doc, root)
  {
    hide StandsAt, ParseValue, SyntaxTokens, Meaning, StandardMeaning, NulFree, IsRfcText, ValidSyntax, NoExcess,
      HasNoExcessAt;
    var q: nat :| IsRfcAt(cfg.scan, doc, 0, s, q, v) && AreSpaces(doc, q, |doc|);
    RfcIsValid(s);
    AcceptsTheGrammar(cfg, doc, 0, root, q);
    ReadsTheStandard(cfg, doc, 0, root, s, q);
    SameKind(cfg.scan, s);
  }
}
