/**
 The escapes of section 7 of RFC 8259 by their characters: what the reader makes of each, and which the writers print.
 */
module JsonEscapes {
  import opened CText
  import opened JsonString
  import opened JsonGrammar

  // ----- reading -----

  /** There are eight escapes of two characters. */
  lemma ShortEscapes(c: char)
    ensures ValidUnit(Short(c)) <==> c in "\"\\/bfnrt"
  {
    var all := "\"\\/bfnrt";
    assert all[0] == '"' && all[1] == '\\' && all[2] == '/' && all[3] == 'b' && all[4] == 'f' && all[5] == 'n'
      && all[6] == 'r' && all[7] == 't';
  }

  /** A unit in front of others adds the character `r`, by the standard and by the reader. */
  ghost predicate Adds(u: Unit, r: char, us: seq<Unit>)
    requires ValidUnits(us)
  {
    && ValidUnits([u] + us)
    && RfcMeaning([u] + us) == Before([r], RfcMeaning(us))
    && UnitsMeaning([u] + us) == Before([r], UnitsMeaning(us))
  }

  /** The table of section 7. */
  lemma EscapeTable(us: seq<Unit>)
    requires ValidUnits(us)
    ensures Adds(Short('"'), '"', us) && Adds(Short('\\'), '\\', us) && Adds(Short('/'), '/', us)
    ensures Adds(Short('b'), '\U{0008}', us) && Adds(Short('f'), '\U{000C}', us) && Adds(Short('n'), '\U{000A}', us)
    ensures Adds(Short('r'), '\U{000D}', us) && Adds(Short('t'), '\U{0009}', us)
  {
    ShortTable();
    hide ShortEscape, RfcMeaning, UnitsMeaning, ValidUnits;
    ShortAdds('"', us);
    ShortAdds('\\', us);
    ShortAdds('/', us);
    ShortAdds('b', us);
    ShortAdds('f', us);
    ShortAdds('n', us);
    ShortAdds('r', us);
    ShortAdds('t', us);
    hide Adds;
  }

  lemma ShortTable()
    ensures ShortEscape('"') == '"' && ShortEscape('\\') == '\\' && ShortEscape('/') == '/'
    ensures ShortEscape('b') == '\U{0008}' && ShortEscape('f') == '\U{000C}' && ShortEscape('n') == '\U{000A}'
    ensures ShortEscape('r') == '\U{000D}' && ShortEscape('t') == '\U{0009}'
  {
  }

  lemma ShortAdds(c: char, us: seq<Unit>)
    requires ValidUnits(us) && IsShortEscape(c)
    ensures Adds(Short(c), ShortEscape(c), us)
  {
    ValidCons(Short(c), us);
    assert ([Short(c)] + us)[1..] == us;
    hide ValidUnits, ShortEscape;
  }

  /** What is not escaped stands for itself. */
  lemma RawAdds(c: char, us: seq<Unit>)
    requires ValidUnits(us) && c != '"' && c != '\\'
    ensures Adds(Raw(c), c, us)
  {
    ValidCons(Raw(c), us);
    assert ([Raw(c)] + us)[1..] == us;
    hide ValidUnits;
  }

  /** The same in the bytes of a token, wherever it stands. */
  lemma EscapeReads(doc: string, p: nat, end: nat)
    requires p + 2 <= end <= |doc| && doc[p] == '\\'
    ensures var rest := Decode(doc, p + 2, end);
            && (doc[p + 1] == '"' ==> Decode(doc, p, end) == Prepend("\"", rest))
            && (doc[p + 1] == '\\' ==> Decode(doc, p, end) == Prepend("\\", rest))
            && (doc[p + 1] == '/' ==> Decode(doc, p, end) == Prepend("/", rest))
            && (doc[p + 1] == 'b' ==> Decode(doc, p, end) == Prepend(['\U{0008}'], rest))
            && (doc[p + 1] == 'f' ==> Decode(doc, p, end) == Prepend(['\U{000C}'], rest))
            && (doc[p + 1] == 'n' ==> Decode(doc, p, end) == Prepend(['\U{000A}'], rest))
            && (doc[p + 1] == 'r' ==> Decode(doc, p, end) == Prepend(['\U{000D}'], rest))
            && (doc[p + 1] == 't' ==> Decode(doc, p, end) == Prepend(['\U{0009}'], rest))
            && (doc[p + 1] !in "\"\\/bfnrtu" ==> Decode(doc, p, end) == BadText(BadEscape, p + 2))
  {
    hide CodePointAt, Prepend;
    ShortEscapes(doc[p + 1]);
    var all, short := "\"\\/bfnrtu", "\"\\/bfnrt";
    assert all == short + "u";
  }

  /** The token of one escaped slash. */
  lemma EscapedSlash()
    ensures DecodeToken("\"\\/\"", 0, 4) == Text("/")
  {
    var doc := "\"\\/\"";
    assert doc[1] == '\\' && doc[2] == '/' && doc[3] == '"';
    EscapeReads(doc, 1, 3);
    assert Decode(doc, 3, 3) == Text("") && "/" + "" == "/";
  }

  // ----- hexadecimal digits -----

  const LOWER_DIGITS := "0123456789abcdef"
  const UPPER_DIGITS := "0123456789ABCDEF"

  /** A digit counts as its place among the sixteen, in either case. */
  lemma HexDigitValues(i: nat)
    requires i < 16
    ensures IsHexDigit(LOWER_DIGITS[i]) && HexValue(LOWER_DIGITS[i]) == i
    ensures IsHexDigit(UPPER_DIGITS[i]) && HexValue(UPPER_DIGITS[i]) == i
  {
    var lower, upper := LOWER_DIGITS, UPPER_DIGITS;
    assert i < 10 ==> lower[i] as int == '0' as int + i && upper[i] as int == '0' as int + i;
    assert i >= 10 ==> lower[i] as int == 'a' as int + (i - 10) && upper[i] as int == 'A' as int + (i - 10);
  }

  /** And there are no other digits. */
  lemma HexDigitsAre(c: char)
    ensures IsHexDigit(c) <==> c in LOWER_DIGITS || c in UPPER_DIGITS
  {
    if IsHexDigit(c) {
      HexDigitValues(HexValue(c));
      assert c == LOWER_DIGITS[HexValue(c)] || c == UPPER_DIGITS[HexValue(c)];
    }
    forall i: nat | i < 16 ensures IsHexDigit(LOWER_DIGITS[i]) && IsHexDigit(UPPER_DIGITS[i]) {
      HexDigitValues(i);
    }
  }

  /** A literal in both cases: the escapes 00e9 and 00E9 are the two bytes of U+00E9. */
  lemma BothCases()
    ensures ValidUnits([Hex("00e9")]) && RfcMeaning([Hex("00e9")]) == Some(['\U{C3}', '\U{A9}'])
    ensures ValidUnits([Hex("00E9")]) && RfcMeaning([Hex("00E9")]) == Some(['\U{C3}', '\U{A9}'])
  {
    OneHex("00e9");
    OneHex("00E9");
  }

  lemma OneHex(digits: string)
    requires ValidUnit(Hex(digits)) && HexUnitValue(Hex(digits)) == 0xE9
    ensures ValidUnits([Hex(digits)]) && RfcMeaning([Hex(digits)]) == Some(['\U{C3}', '\U{A9}'])
  {
    assert [Hex(digits)][1..] == [];
    assert Utf8(0xE9) == ['\U{C3}', '\U{A9}'];
    hide HexUnitValue, Utf8;
    assert RfcMeaning([]) == Some("");
    assert ['\U{C3}', '\U{A9}'] + "" == ['\U{C3}', '\U{A9}'];
  }

  // ----- printing -----

  /** Quotes, backslashes and control characters are escaped, and nothing else. */
  lemma PrintedText(c: char)
    requires c != '\0'
    ensures c >= ' ' && c != '"' && c != '\\' ==> Quoted([c]) == ['"', c, '"']
    ensures c == '"' ==> Quoted([c]) == "\"\\\"\""
    ensures c == '\\' ==> Quoted([c]) == "\"\\\\\""
    ensures c == '\U{0008}' ==> Quoted([c]) == "\"\\b\""
    ensures c == '\U{000C}' ==> Quoted([c]) == "\"\\f\""
    ensures c == '\U{000A}' ==> Quoted([c]) == "\"\\n\""
    ensures c == '\U{000D}' ==> Quoted([c]) == "\"\\r\""
    ensures c == '\U{0009}' ==> Quoted([c]) == "\"\\t\""
    ensures c < ' ' && c !in ['\U{0008}', '\U{0009}', '\U{000A}', '\U{000C}', '\U{000D}'] ==>
              Quoted([c]) == "\"\\u00" + [UPPER_DIGITS[c as int / 16], UPPER_DIGITS[c as int % 16]] + "\""
  {
    OneUnit(c);
    UpperDigits(c as int / 16 % 16);
    UpperDigits(c as int % 16);
    hide Quoted, UPPER_DIGITS, UpperHexDigit;
  }

  lemma OneUnit(c: char)
    requires c != '\0'
    ensures Quoted([c]) == "\"" + UnitText(QuoteUnit(c)) + "\""
  {
    hide QuoteUnit, UnitText;
    assert [c][1..] == "" && CStr([c]) == [c];
    assert QuoteUnits([c]) == [QuoteUnit(c)] && [QuoteUnit(c)][1..] == [];
    assert UnitsText([QuoteUnit(c)]) == UnitText(QuoteUnit(c)) + "" && UnitsText([]) == "";
    assert UnitText(QuoteUnit(c)) + "" == UnitText(QuoteUnit(c));
  }

  lemma UpperDigits(i: nat)
    requires i < 16
    ensures UpperHexDigit(i) == UPPER_DIGITS[i]
  {
    var upper := UPPER_DIGITS;
    assert i < 10 ==> upper[i] as int == '0' as int + i;
    assert i >= 10 ==> upper[i] as int == 'A' as int + (i - 10);
  }
}
