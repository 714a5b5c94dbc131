/**
 String tokens: UTF-8, the escape decoder of the reader and the quoting of the writers.

 Masks and shifts of the sources are written as `%` and `/` by powers of two.
 */
module JsonString {
  import opened CText
  import opened JsonLexer

  // ----- UTF-8 -----

  const MAX_CODE_POINT := 0x10_FFFF

  predicate IsHighSurrogate(cp: nat) { 0xD800 <= cp <= 0xDBFF }

  predicate IsSurrogate(cp: nat) { 0xD800 <= cp <= 0xDFFF }

  function Byte(b: nat): char
    requires b < 256
  {
    b as char
  }

  /** `codePointToUTF8`: nothing at all is produced above the last code point. */
  function Utf8(cp: nat): string {
    if cp <= 0x7F then [Byte(cp)]
    else if cp <= 0x7FF then [Byte(0xC0 + cp / 0x40 % 0x20), Byte(0x80 + cp % 0x40)]
    else if cp <= 0xFFFF then [Byte(0xE0 + cp / 0x1000 % 0x10), Byte(0x80 + cp / 0x40 % 0x40), Byte(0x80 + cp % 0x40)]
    else if cp <= MAX_CODE_POINT then
      [Byte(0xF0 + cp / 0x4_0000 % 8), Byte(0x80 + cp / 0x1000 % 0x40), Byte(0x80 + cp / 0x40 % 0x40),
       Byte(0x80 + cp % 0x40)]
    else ""
  }

  predicate IsTail(c: char) { 0x80 <= c as int <= 0xBF }

  /** The well-formed byte sequences of section 4 of RFC 3629, with the code point each one stands for. */
  function FromUtf8(b: string): Option<nat> {
    if |b| == 1 && b[0] as int <= 0x7F then Some(b[0] as int)
    else if |b| == 2 && 0xC2 <= b[0] as int <= 0xDF && IsTail(b[1]) then
      Some((b[0] as int - 0xC0) * 0x40 + (b[1] as int - 0x80))
    else if |b| == 3 && 0xE0 <= b[0] as int <= 0xEF && IsTail(b[1]) && IsTail(b[2])
            && (b[0] as int == 0xE0 ==> 0xA0 <= b[1] as int) && (b[0] as int == 0xED ==> b[1] as int <= 0x9F) then
      Some((b[0] as int - 0xE0) * 0x1000 + (b[1] as int - 0x80) * 0x40 + (b[2] as int - 0x80))
    else if |b| == 4 && 0xF0 <= b[0] as int <= 0xF4 && IsTail(b[1]) && IsTail(b[2]) && IsTail(b[3])
            && (b[0] as int == 0xF0 ==> 0x90 <= b[1] as int) && (b[0] as int == 0xF4 ==> b[1] as int <= 0x8F) then
      Some((b[0] as int - 0xF0) * 0x4_0000 + (b[1] as int - 0x80) * 0x1000
           + (b[2] as int - 0x80) * 0x40 + (b[3] as int - 0x80))
    else None
  }

  /** A number from its quotients and remainders by 64. */
  lemma Sextets(cp: nat)
    ensures cp == cp / 0x40 * 0x40 + cp % 0x40
    ensures cp / 0x40 == cp / 0x1000 * 0x40 + cp / 0x40 % 0x40
    ensures cp / 0x1000 == cp / 0x4_0000 * 0x40 + cp / 0x1000 % 0x40
  {
  }

  /** The encoder is exactly RFC 3629 on the scalar values, and on nothing else. */
  lemma Utf8IsRfc3629(cp: nat)
    ensures FromUtf8(Utf8(cp)) == if cp <= MAX_CODE_POINT && !IsSurrogate(cp) then Some(cp) else None
    ensures Utf8(cp) == "" <==> cp > MAX_CODE_POINT
  {
    Sextets(cp);
    if 0x7FF < cp <= 0xFFFF {
      Utf8ThreeBytes(cp);
    } else if 0xFFFF < cp <= MAX_CODE_POINT {
      Utf8FourBytes(cp);
    }
  }

  lemma Utf8ThreeBytes(cp: nat)
    requires 0x7FF < cp <= 0xFFFF
    ensures FromUtf8(Utf8(cp)) == if IsSurrogate(cp) then None else Some(cp)
  {
    Sextets(cp);
    var x, y, z := cp / 0x1000, cp / 0x40 % 0x40, cp % 0x40;
    assert cp / 0x1000 % 0x10 == x;
    ThreeBytes(x, y, z);
    assert Utf8(cp) == [Byte(0xE0 + x), Byte(0x80 + y), Byte(0x80 + z)];
  }

  lemma ThreeBytes(x: nat, y: nat, z: nat)
    requires x < 0x10 && y < 0x40 && z < 0x40 && 0x7FF < x * 0x1000 + y * 0x40 + z
    ensures var cp := x * 0x1000 + y * 0x40 + z;
            FromUtf8([Byte(0xE0 + x), Byte(0x80 + y), Byte(0x80 + z)]) == if IsSurrogate(cp) then None else Some(cp)
  {
  }

  lemma Utf8FourBytes(cp: nat)
    requires 0xFFFF < cp <= MAX_CODE_POINT
    ensures FromUtf8(Utf8(cp)) == Some(cp)
  {
    Sextets(cp);
    var w, x, y, z := cp / 0x4_0000, cp / 0x1000 % 0x40, cp / 0x40 % 0x40, cp % 0x40;
    assert cp / 0x4_0000 % 8 == w;
    FourBytes(w, x, y, z);
    assert Utf8(cp) == [Byte(0xF0 + w), Byte(0x80 + x), Byte(0x80 + y), Byte(0x80 + z)];
  }

  lemma FourBytes(w: nat, x: nat, y: nat, z: nat)
    requires w < 8 && x < 0x40 && y < 0x40 && z < 0x40
    requires 0xFFFF < w * 0x4_0000 + x * 0x1000 + y * 0x40 + z <= MAX_CODE_POINT
    ensures FromUtf8([Byte(0xF0 + w), Byte(0x80 + x), Byte(0x80 + y), Byte(0x80 + z)])
            == Some(w * 0x4_0000 + x * 0x1000 + y * 0x40 + z)
  {
  }

  /** Distinct code points, surrogates included, have distinct encodings. */
  lemma Utf8Injective(a: nat, b: nat)
    requires a <= MAX_CODE_POINT && b <= MAX_CODE_POINT && Utf8(a) == Utf8(b)
    ensures a == b
  {
    if IsSurrogate(a) || IsSurrogate(b) {
      assert |Utf8(a)| == 3 == |Utf8(b)|;
      SameThreeBytes(a, b);
    } else {
      Utf8IsRfc3629(a);
      Utf8IsRfc3629(b);
      hide Utf8, FromUtf8;
    }
  }

  lemma SameThreeBytes(a: nat, b: nat)
    requires 0x7FF < a <= 0xFFFF && 0x7FF < b <= 0xFFFF && Utf8(a) == Utf8(b)
    ensures a == b
  {
    Sextets(a);
    Sextets(b);
    assert Utf8(a)[0] == Utf8(b)[0] && Utf8(a)[1] == Utf8(b)[1] && Utf8(a)[2] == Utf8(b)[2];
  }

  // ----- decoding -----

  datatype CodePoint = CodePoint(cp: nat, next: nat) | BadCodePoint(message: Message, extra: nat)

  predicate IsHexDigit(c: char) {
    IsDigit(c) || 'a' <= c <= 'f' || 'A' <= c <= 'F'
  }

  function HexValue(c: char): (v: nat)
    requires IsHexDigit(c)
    ensures v < 16
  {
    if IsDigit(c) then c as int - '0' as int
    else if 'a' <= c <= 'f' then c as int - 'a' as int + 10
    else c as int - 'A' as int + 10
  }

  /** What an error message says; `NotANumber` quotes the token's text. */
  datatype Message =
    | FourDigitsExpected | HexDigitExpected | SixCharactersExpected | SecondHalfExpected
    | EmptyEscape | BadEscape
    | ValueExpected | NotANumber(text: string)
    | MissingColon | MissingCommaInObject | MissingName | MissingCommaInArray | BadRoot

  /** What may precede `count` more digits of a four-digit number. */
  function HexLimit(count: nat): nat {
    if count == 0 then 0x1_0000 else if count == 1 then 0x1000 else if count == 2 then 0x100
    else if count == 3 then 0x10 else 1
  }

  /** The `count` hexadecimal digits at `p`, after those that made `unicode`. */
  function HexDigits(doc: string, p: nat, count: nat, unicode: nat): (r: CodePoint)
    requires p + count <= |doc| && count <= 4 && unicode < HexLimit(count)
    ensures r.CodePoint? ==> r.next == p + count && r.cp < 0x1_0000
    decreases count
  {
    if count == 0 then CodePoint(unicode, p)
    else if IsHexDigit(doc[p]) then HexDigits(doc, p + 1, count - 1, unicode * 16 + HexValue(doc[p]))
    else BadCodePoint(HexDigitExpected, p + 1)
  }

  function EscapeSequence(doc: string, p: nat, end: nat): (r: CodePoint)
    requires p <= end <= |doc|
    ensures r.CodePoint? ==> r.next == p + 4 <= end && r.cp < 0x1_0000
  {
    if end - p < 4 then BadCodePoint(FourDigitsExpected, p) else HexDigits(doc, p, 4, 0)
  }

  function Combine(high: nat, low: nat): nat {
    0x1_0000 + high % 0x400 * 0x400 + low % 0x400
  }

  /** The code point of the escape whose digits begin at `p`: one sequence, or two for a high surrogate. */
  function CodePointAt(doc: string, p: nat, end: nat): (r: CodePoint)
    requires p <= end <= |doc|
    ensures r.CodePoint? ==> p < r.next <= end
    ensures r.CodePoint? ==> r.cp <= MAX_CODE_POINT && !IsHighSurrogate(r.cp)
  {
    var first := EscapeSequence(doc, p, end);
    if first.BadCodePoint? || !IsHighSurrogate(first.cp) then first
    else
      var q := first.next;
      if end - q < 6 then BadCodePoint(SixCharactersExpected, q)
      else if doc[q] != '\\' then BadCodePoint(SecondHalfExpected, q + 1)
      else if doc[q + 1] != 'u' then BadCodePoint(SecondHalfExpected, q + 2)
      else
        var second := EscapeSequence(doc, q + 2, end);
        if second.BadCodePoint? then second else CodePoint(Combine(first.cp, second.cp), second.next)
  }

  datatype Decoded = Text(text: string) | BadText(message: Message, extra: nat)

  function Prepend(s: string, rest: Decoded): Decoded {
    if rest.Text? then Text(s + rest.text) else rest
  }

  predicate IsShortEscape(c: char) {
    c == '"' || c == '/' || c == '\\' || c == 'b' || c == 'f' || c == 'n' || c == 'r' || c == 't'
  }

  function ShortEscape(c: char): char
    requires IsShortEscape(c)
  {
    match c
    case 'b' => '\U{08}'
    case 'f' => '\U{0C}'
    case 'n' => '\n'
    case 'r' => '\r'
    case 't' => '\t'
    case _ => c
  }

  /** What `decodeString` makes of the characters from `p` to `end`. */
  function Decode(doc: string, p: nat, end: nat): Decoded
    requires p <= end <= |doc|
    decreases end - p
  {
    if p == end || doc[p] == '"' then Text("")
    else if doc[p] != '\\' then Prepend([doc[p]], Decode(doc, p + 1, end))
    else if p + 1 == end then BadText(EmptyEscape, p + 1)
    else if IsShortEscape(doc[p + 1]) then Prepend([ShortEscape(doc[p + 1])], Decode(doc, p + 2, end))
    else if doc[p + 1] == 'u' then
      match CodePointAt(doc, p + 2, end)
      case CodePoint(cp, next) => Prepend(Utf8(cp), Decode(doc, next, end))
      case BadCodePoint(message, extra) => BadText(message, extra)
    else BadText(BadEscape, p + 2)
  }

  /** The token without its quotes, decoded. */
  function DecodeToken(doc: string, start: nat, end: nat): Decoded
    requires start + 2 <= end <= |doc|
  {
    Decode(doc, start + 1, end - 1)
  }

  // ----- the units of a string, section 7 of RFC 8259 -----

  datatype Unit =
    | Raw(c: char)
    | Short(c: char)
    | Hex(digits: string)

  /** Raw characters may be anything but a quote or a backslash: the reader lets control characters pass. */
  predicate ValidUnit(u: Unit) {
    match u
    case Raw(c) => c != '"' && c != '\\'
    case Short(c) => IsShortEscape(c)
    case Hex(digits) => |digits| == 4 && forall i :: 0 <= i < 4 ==> IsHexDigit(digits[i])
  }

  predicate ValidUnits(us: seq<Unit>) {
    forall i :: 0 <= i < |us| ==> ValidUnit(us[i])
  }

  function UnitText(u: Unit): string {
    match u
    case Raw(c) => [c]
    case Short(c) => ['\\', c]
    case Hex(digits) => "\\u" + digits
  }

  function UnitsText(us: seq<Unit>): string {
    if us == [] then "" else UnitText(us[0]) + UnitsText(us[1..])
  }

  /** The string token made of `us`. */
  function QuotedUnits(us: seq<Unit>): (text: string)
    ensures |text| == |UnitsText(us)| + 2
  {
    "\"" + UnitsText(us) + "\""
  }

  function HexUnitValue(u: Unit): (v: nat)
    requires u.Hex? && ValidUnit(u)
    ensures v < 0x1_0000
  {
    HexValue(u.digits[0]) * 0x1000 + HexValue(u.digits[1]) * 0x100
    + HexValue(u.digits[2]) * 0x10 + HexValue(u.digits[3])
  }

  predicate StartsWithHex(us: seq<Unit>) {
    us != [] && us[0].Hex?
  }

  /** The text the units denote; there is none when a high surrogate is not followed by another `\u` escape. */
  function UnitsMeaning(us: seq<Unit>): Option<string>
    requires ValidUnits(us)
  {
    if us == [] then Some("")
    else
      match us[0]
      case Raw(c) => Before([c], UnitsMeaning(us[1..]))
      case Short(c) => Before([ShortEscape(c)], UnitsMeaning(us[1..]))
      case Hex(_) =>
        var v := HexUnitValue(us[0]);
        if !IsHighSurrogate(v) then Before(Utf8(v), UnitsMeaning(us[1..]))
        else if !StartsWithHex(us[1..]) then None
        else Before(Utf8(Combine(v, HexUnitValue(us[1]))), UnitsMeaning(us[2..]))
  }

  function Before(s: string, rest: Option<string>): Option<string> {
    if rest.Some? then Some(s + rest.value) else None
  }

  lemma HexUnitAt(doc: string, p: nat, end: nat, u: Unit)
    requires u.Hex? && ValidUnit(u) && StartsAt(doc, p, UnitText(u)) && p + 6 <= end <= |doc|
    ensures doc[p] == '\\' && doc[p + 1] == 'u'
    ensures EscapeSequence(doc, p + 2, end) == CodePoint(HexUnitValue(u), p + 6)
  {
    var text := UnitText(u);
    forall i | 0 <= i < 6 ensures doc[p + i] == text[i] {
      StartsAtIndex(doc, p, text, i);
    }
    assert doc[p] == text[0] && doc[p + 1] == text[1];
    assert doc[p + 2] == text[2] && doc[p + 3] == text[3] && doc[p + 4] == text[4] && doc[p + 5] == text[5];
    FourDigits(doc, p + 2, u.digits[0], u.digits[1], u.digits[2], u.digits[3]);
    hide HexDigits, HexValue;
  }

  lemma FourDigits(doc: string, p: nat, a: char, b: char, c: char, d: char)
    requires p + 4 <= |doc| && doc[p] == a && doc[p + 1] == b && doc[p + 2] == c && doc[p + 3] == d
    requires IsHexDigit(a) && IsHexDigit(b) && IsHexDigit(c) && IsHexDigit(d)
    ensures HexDigits(doc, p, 4, 0)
            == CodePoint(HexValue(a) * 0x1000 + HexValue(b) * 0x100 + HexValue(c) * 0x10 + HexValue(d), p + 4)
  {
    hide HexValue, IsHexDigit;
    var v1 := HexValue(a);
    var v2 := v1 * 16 + HexValue(b);
    var v3 := v2 * 16 + HexValue(c);
    calc {
      HexDigits(doc, p, 4, 0);
      HexDigits(doc, p + 1, 3, v1);
      HexDigits(doc, p + 2, 2, v2);
      HexDigits(doc, p + 3, 1, v3);
      CodePoint(v3 * 16 + HexValue(d), p + 4);
    }
  }

  /** The units after the first stand after it. */
  lemma UnitsStep(doc: string, p: nat, us: seq<Unit>)
    requires us != [] && StartsAt(doc, p, UnitsText(us))
    ensures var n := |UnitText(us[0])|;
            StartsAt(doc, p, UnitText(us[0])) && StartsAt(doc, p + n, UnitsText(us[1..]))
            && |UnitsText(us)| == n + |UnitsText(us[1..])|
  {
    hide StartsAt, UnitText;
    assert UnitsText(us) == UnitText(us[0]) + UnitsText(us[1..]);
    StartsAtConcat(doc, p, UnitText(us[0]), UnitsText(us[1..]));
  }

  lemma AfterUnit(doc: string, p: nat, u: Unit)
    requires ValidUnit(u) && StartsAt(doc, p, UnitText(u))
    ensures AfterString(doc, p) == AfterString(doc, p + |UnitText(u)|)
  {
    var text := UnitText(u);
    StartsAtIndex(doc, p, text, 0);
    if |text| > 1 {
      StartsAtIndex(doc, p, text, 1);
    }
    if u.Hex? {
      forall i | p + 2 <= i < p + 6 ensures doc[i] != '"' && doc[i] != '\\' {
        StartsAtIndex(doc, p, text, i - p);
        assert text[i - p] == u.digits[i - p - 2];
      }
      SkipPlain(doc, p + 2, p + 6);
    }
  }

  /** A string token holding valid units ends where its closing quote is, whatever follows. */
  lemma {:induction false} AfterStringUnits(doc: string, p: nat, us: seq<Unit>)
    requires ValidUnits(us) && StartsAt(doc, p, UnitsText(us) + "\"")
    ensures AfterString(doc, p) == Scanned(p + |UnitsText(us)| + 1, true)
    decreases |us|
  {
    StartsAtConcat(doc, p, UnitsText(us), "\"");
    if us == [] {
      StartsAtIndex(doc, p, "\"", 0);
    } else {
      UnitsStep(doc, p, us);
      AfterUnit(doc, p, us[0]);
      StartsAtConcat(doc, p + |UnitText(us[0])|, UnitsText(us[1..]), "\"");
      AfterStringUnits(doc, p + |UnitText(us[0])|, us[1..]);
    }
  }

  lemma {:induction false} SkipPlain(doc: string, p: nat, q: nat)
    requires p <= q <= |doc| && forall i :: p <= i < q ==> doc[i] != '"' && doc[i] != '\\'
    ensures AfterString(doc, p) == AfterString(doc, q)
    decreases q - p
  {
    if p < q {
      SkipPlain(doc, p + 1, q);
    }
  }

  /** Decoding the text of valid units gives their meaning, and fails exactly when they have none. */
  lemma {:induction false} DecodeUnits(doc: string, p: nat, end: nat, us: seq<Unit>)
    requires ValidUnits(us) && StartsAt(doc, p, UnitsText(us)) && end == p + |UnitsText(us)|
    ensures match UnitsMeaning(us)
            case Some(text) => Decode(doc, p, end) == Text(text)
            case None => Decode(doc, p, end).BadText?
    decreases |us|
  {
    hide CodePointAt, EscapeSequence, Utf8, Combine, HexUnitValue;
    if us != [] {
      UnitsStep(doc, p, us);
      if us[0].Hex? {
        HexStep(doc, p, end, us);
        if !IsHighSurrogate(HexUnitValue(us[0])) {
          DecodeUnits(doc, p + 6, end, us[1..]);
        } else if StartsWithHex(us[1..]) {
          DecodeUnits(doc, p + 12, end, us[2..]);
        }
      } else {
        PlainStep(doc, p, end, us[0]);
        DecodeUnits(doc, p + |UnitText(us[0])|, end, us[1..]);
      }
    }
  }

  lemma PlainStep(doc: string, p: nat, end: nat, u: Unit)
    requires !u.Hex? && ValidUnit(u) && StartsAt(doc, p, UnitText(u)) && p + |UnitText(u)| <= end <= |doc|
    ensures Decode(doc, p, end)
            == Prepend([if u.Raw? then u.c else ShortEscape(u.c)], Decode(doc, p + |UnitText(u)|, end))
  {
    var text := UnitText(u);
    StartsAtIndex(doc, p, text, 0);
    StartsAtIndex(doc, p, text, |text| - 1);
  }

  /** The escape that `us` begins with: one unit, or two for a high surrogate. */
  lemma HexStep(doc: string, p: nat, end: nat, us: seq<Unit>)
    requires us != [] && us[0].Hex? && ValidUnits(us)
    requires StartsAt(doc, p, UnitsText(us)) && end == p + |UnitsText(us)|
    ensures var v := HexUnitValue(us[0]);
            if !IsHighSurrogate(v) then Decode(doc, p, end) == Prepend(Utf8(v), Decode(doc, p + 6, end))
            else if StartsWithHex(us[1..]) then
              && StartsAt(doc, p + 12, UnitsText(us[2..])) && end == p + 12 + |UnitsText(us[2..])|
              && Decode(doc, p, end) == Prepend(Utf8(Combine(v, HexUnitValue(us[1]))), Decode(doc, p + 12, end))
            else Decode(doc, p, end).BadText?
  {
    hide EscapeSequence, HexUnitValue, Utf8, Combine, UnitsText;
    UnitsStep(doc, p, us);
    HexUnitAt(doc, p, end, us[0]);
    SecondHalf(doc, p + 6, end, us[1..]);
    assert us[1..] != [] ==> us[1..][1..] == us[2..];
  }

  /** Whether another escape follows, as the reader of a surrogate pair sees it. */
  lemma SecondHalf(doc: string, p: nat, end: nat, us: seq<Unit>)
    requires ValidUnits(us) && StartsAt(doc, p, UnitsText(us)) && end == p + |UnitsText(us)|
    ensures if StartsWithHex(us) then
              && p + 6 <= end && doc[p] == '\\' && doc[p + 1] == 'u'
              && EscapeSequence(doc, p + 2, end) == CodePoint(HexUnitValue(us[0]), p + 6)
              && StartsAt(doc, p + 6, UnitsText(us[1..])) && end == p + 6 + |UnitsText(us[1..])|
            else end - p < 6 || doc[p] != '\\' || doc[p + 1] != 'u'
  {
    hide EscapeSequence, HexUnitValue;
    if us != [] {
      UnitsStep(doc, p, us);
      if us[0].Hex? {
        HexUnitAt(doc, p, end, us[0]);
      } else {
        StartsAtIndex(doc, p, UnitText(us[0]), 0);
        StartsAtIndex(doc, p, UnitText(us[0]), |UnitText(us[0])| - 1);
      }
    }
  }

  /**
   The other direction: whatever decodes is the text of valid units with that meaning. Together with
   `DecodeUnits`, a string token is accepted exactly when it is made of valid units whose high
   surrogates are each followed by another `\\u` escape.
   */
  lemma {:induction false} DecodedAreUnits(doc: string, p: nat, end: nat) returns (us: seq<Unit>)
    requires p <= end < |doc| && AfterString(doc, p) == Scanned(end + 1, true)
    requires Decode(doc, p, end).Text?
    ensures ValidUnits(us) && UnitsText(us) == doc[p..end]
    ensures UnitsMeaning(us) == Some(Decode(doc, p, end).text)
    decreases end - p
  {
    hide CodePointAt, EscapeSequence, Utf8, HexUnitValue, Combine, ValidUnits;
    if p == end {
      NothingMeans();
      us := [];
    } else if doc[p] != '\\' {
      var rest := DecodedAreUnits(doc, p + 1, end);
      us := [Raw(doc[p])] + rest;
      ValidCons(Raw(doc[p]), rest);
      assert doc[p..end] == [doc[p]] + doc[p + 1..end];
    } else if IsShortEscape(doc[p + 1]) {
      var rest := DecodedAreUnits(doc, p + 2, end);
      us := [Short(doc[p + 1])] + rest;
      ValidCons(Short(doc[p + 1]), rest);
      assert doc[p..end] == [doc[p], doc[p + 1]] + doc[p + 2..end];
    } else {
      us := DecodedHex(doc, p, end);
    }
  }

  lemma EscapeSequenceIsHex(doc: string, p: nat, end: nat) returns (u: Unit)
    requires p + 2 <= end <= |doc| && doc[p] == '\\' && doc[p + 1] == 'u'
    requires EscapeSequence(doc, p + 2, end).CodePoint?
    ensures p + 6 <= end
    ensures u.Hex? && ValidUnit(u) && UnitText(u) == doc[p..p + 6]
    ensures HexUnitValue(u) == EscapeSequence(doc, p + 2, end).cp
    ensures AfterString(doc, p) == AfterString(doc, p + 6)
  {
    u := Hex(doc[p + 2..p + 6]);
    assert HexDigits(doc, p + 2, 4, 0).CodePoint?;
    assert IsHexDigit(doc[p + 2]) && HexDigits(doc, p + 3, 3, HexValue(doc[p + 2])).CodePoint?;
    assert IsHexDigit(doc[p + 3]) && IsHexDigit(doc[p + 4]) && IsHexDigit(doc[p + 5]);
    assert UnitText(u) == doc[p..p + 6];
    assert StartsAt(doc, p, UnitText(u));
    HexUnitAt(doc, p, end, u);
    AfterUnit(doc, p, u);
  }

  lemma {:induction false} DecodedHex(doc: string, p: nat, end: nat) returns (us: seq<Unit>)
    requires p + 2 <= end < |doc| && doc[p] == '\\' && doc[p + 1] == 'u'
    requires AfterString(doc, p) == Scanned(end + 1, true) && Decode(doc, p, end).Text?
    ensures ValidUnits(us) && UnitsText(us) == doc[p..end]
    ensures UnitsMeaning(us) == Some(Decode(doc, p, end).text)
    decreases end - p, 0
  {
    hide EscapeSequence, Utf8, Combine, HexUnitValue;
    var first := EscapeSequenceIsHex(doc, p, end);
    if !IsHighSurrogate(HexUnitValue(first)) {
      var rest := DecodedAreUnits(doc, p + 6, end);
      us := [first] + rest;
      assert doc[p..end] == doc[p..p + 6] + doc[p + 6..end];
    } else {
      var second := EscapeSequenceIsHex(doc, p + 6, end);
      var rest := DecodedAreUnits(doc, p + 12, end);
      us := PairedUnits(doc, p, end, first, second, rest);
    }
  }

  lemma PairedUnits(doc: string, p: nat, end: nat, first: Unit, second: Unit, rest: seq<Unit>) returns (us: seq<Unit>)
    requires first.Hex? && ValidUnit(first) && second.Hex? && ValidUnit(second) && ValidUnits(rest)
    requires IsHighSurrogate(HexUnitValue(first)) && UnitsMeaning(rest).Some?
    requires p + 12 <= end <= |doc| && UnitsText(rest) == doc[p + 12..end]
    requires UnitText(first) == doc[p..p + 6] && UnitText(second) == doc[p + 6..p + 12]
    ensures ValidUnits(us) && UnitsText(us) == doc[p..end]
    ensures UnitsMeaning(us)
            == Some(Utf8(Combine(HexUnitValue(first), HexUnitValue(second))) + UnitsMeaning(rest).value)
  {
    hide HexUnitValue, Utf8, Combine, UnitText;
    us := [first, second] + rest;
    assert us[1..] == [second] + rest && us[2..] == rest && us[1..][1..] == rest;
    assert UnitsText(us) == UnitText(first) + (UnitText(second) + UnitsText(rest));
    assert doc[p..end] == doc[p..p + 6] + (doc[p + 6..p + 12] + doc[p + 12..end]);
  }

  /**
   Every code point above the basic plane, written as its surrogate pair in whatever hexadecimal digits,
   means its own RFC 3629 bytes.
   */
  lemma SurrogatePair(cp: nat, high: Unit, low: Unit)
    requires 0x1_0000 <= cp <= MAX_CODE_POINT
    requires high.Hex? && ValidUnit(high) && HexUnitValue(high) == 0xD800 + (cp - 0x1_0000) / 0x400
    requires low.Hex? && ValidUnit(low) && HexUnitValue(low) == 0xDC00 + (cp - 0x1_0000) % 0x400
    ensures ValidUnits([high, low]) && UnitsMeaning([high, low]) == Some(Utf8(cp))
    ensures FromUtf8(Utf8(cp)) == Some(cp)
  {
    hide Utf8, FromUtf8, HexUnitValue;
    Utf8IsRfc3629(cp);
    CombineInverts(cp);
    var us := [high, low];
    assert us[1..] == [low] && us[2..] == [];
    assert Utf8(cp) + "" == Utf8(cp);
  }

  lemma CombineInverts(cp: nat)
    requires 0x1_0000 <= cp <= MAX_CODE_POINT
    ensures var high, low := 0xD800 + (cp - 0x1_0000) / 0x400, 0xDC00 + (cp - 0x1_0000) % 0x400;
            IsHighSurrogate(high) && Combine(high, low) == cp
  {
  }

  /** A token's last quote is never escaped, so its decoding cannot meet an escape without a character. */
  lemma {:induction false} NoEmptyEscape(doc: string, p: nat, end: nat)
    requires p <= end < |doc| && AfterString(doc, p) == Scanned(end + 1, true)
    ensures Decode(doc, p, end).BadText? ==> Decode(doc, p, end).message != EmptyEscape
    decreases end - p
  {
    hide CodePointAt;
    if p < end {
      if doc[p] != '\\' {
        NoEmptyEscape(doc, p + 1, end);
      } else if IsShortEscape(doc[p + 1]) {
        NoEmptyEscape(doc, p + 2, end);
      } else if doc[p + 1] == 'u' {
        AfterCodePoint(doc, p, end);
        if CodePointAt(doc, p + 2, end).CodePoint? {
          NoEmptyEscape(doc, CodePointAt(doc, p + 2, end).next, end);
        }
      }
    }
  }

  lemma AfterCodePoint(doc: string, p: nat, end: nat)
    requires p + 2 <= end < |doc| && doc[p] == '\\' && doc[p + 1] == 'u'
    ensures match CodePointAt(doc, p + 2, end)
            case CodePoint(_, next) => AfterString(doc, next) == AfterString(doc, p)
            case BadCodePoint(message, _) => message != EmptyEscape
  {
    hide HexDigits;
    BadHexMessage(doc, p + 2, end);
    if EscapeSequence(doc, p + 2, end).CodePoint? {
      var first := EscapeSequenceIsHex(doc, p, end);
      if end - (p + 6) >= 6 && doc[p + 6] == '\\' && doc[p + 7] == 'u' {
        BadHexMessage(doc, p + 8, end);
        if EscapeSequence(doc, p + 8, end).CodePoint? {
          var second := EscapeSequenceIsHex(doc, p + 6, end);
        }
      }
    }
  }

  lemma BadHexMessage(doc: string, p: nat, end: nat)
    requires p <= end <= |doc|
    ensures EscapeSequence(doc, p, end).BadCodePoint? ==> EscapeSequence(doc, p, end).message != EmptyEscape
  {
    if end - p >= 4 {
      BadDigit(doc, p, 4, 0);
    }
  }

  lemma {:induction false} BadDigit(doc: string, p: nat, count: nat, unicode: nat)
    requires p + count <= |doc| && count <= 4 && unicode < HexLimit(count)
    ensures var r := HexDigits(doc, p, count, unicode); r.BadCodePoint? ==> r.message == HexDigitExpected
    decreases count
  {
    if count > 0 && IsHexDigit(doc[p]) {
      BadDigit(doc, p + 1, count - 1, unicode * 16 + HexValue(doc[p]));
    }
  }

  // ----- quoting -----

  /** `isControlCharacter`, on the byte's unsigned value: bytes above 0x7F are negative chars there. */
  predicate IsControl(c: char) {
    0 < c as int <= 0x1F
  }

  predicate IsSpecial(c: char) {
    c == '"' || c == '\\' || c == '\U{08}' || c == '\U{0C}' || c == '\n' || c == '\r' || c == '\t'
  }

  function UpperHexDigit(v: nat): char
    requires v < 16
  {
    if v < 10 then '0' + v as char else 'A' + (v - 10) as char
  }

  /** The unit that stands for a character in a printed string. */
  function QuoteUnit(c: char): Unit {
    if c == '"' || c == '\\' then Short(c)
    else if c == '\U{08}' then Short('b')
    else if c == '\U{0C}' then Short('f')
    else if c == '\n' then Short('n')
    else if c == '\r' then Short('r')
    else if c == '\t' then Short('t')
    else if IsControl(c) then Hex(['0', '0', UpperHexDigit(c as nat / 16), UpperHexDigit(c as nat % 16)])
    else Raw(c)
  }

  function QuoteUnits(s: string): (us: seq<Unit>)
    ensures |us| == |s| && forall i :: 0 <= i < |s| ==> us[i] == QuoteUnit(s[i])
  {
    if s == "" then [] else [QuoteUnit(s[0])] + QuoteUnits(s[1..])
  }

  /** The quoted text of a C string. */
  function Quoted(value: string): string {
    QuotedUnits(QuoteUnits(CStr(value)))
  }

  /** What the writer prints for a string is valid, and means that string. */
  lemma {:induction false} QuoteUnitsMean(s: string)
    ensures ValidUnits(QuoteUnits(s))
    ensures UnitsMeaning(QuoteUnits(s)) == Some(s)
  {
    hide QuoteUnit, QuoteUnits, ValidUnits, UnitsMeaning;
    if s == "" {
      NothingMeans();
    } else {
      QuoteUnitsMean(s[1..]);
      QuotedFirst(s);
      QuoteUnitMeans(s[0]);
      ValidCons(QuoteUnit(s[0]), QuoteUnits(s[1..]));
      FirstQuoted(QuoteUnits(s), s[0]);
      assert s == [s[0]] + s[1..];
    }
  }

  lemma NothingMeans()
    ensures QuoteUnits("") == [] && ValidUnits([]) && UnitsMeaning([]) == Some("")
  {
  }

  lemma QuotedFirst(s: string)
    requires s != ""
    ensures QuoteUnits(s) == [QuoteUnit(s[0])] + QuoteUnits(s[1..])
    ensures QuoteUnits(s)[1..] == QuoteUnits(s[1..])
  {
  }

  lemma ValidCons(u: Unit, us: seq<Unit>)
    ensures ValidUnits([u] + us) <==> ValidUnit(u) && ValidUnits(us)
  {
    hide ValidUnit;
    assert ([u] + us)[0] == u && forall i :: 0 <= i < |us| ==> ([u] + us)[i + 1] == us[i];
    if ValidUnits([u] + us) {
      forall i | 0 <= i < |us| ensures ValidUnit(us[i]) {
        assert ValidUnit(([u] + us)[i + 1]);
      }
    }
  }

  lemma FirstQuoted(us: seq<Unit>, c: char)
    requires us != [] && ValidUnits(us) && us[0] == QuoteUnit(c)
    ensures UnitsMeaning(us) == Before([c], UnitsMeaning(us[1..]))
  {
    QuoteUnitMeans(c);
    hide Utf8, HexUnitValue, QuoteUnit;
  }

  lemma QuoteUnitMeans(c: char)
    ensures ValidUnit(QuoteUnit(c))
    ensures QuoteUnit(c).Hex? ==> HexUnitValue(QuoteUnit(c)) == c as int < 0x80 && Utf8(c as int) == [c]
    ensures QuoteUnit(c).Short? ==> ShortEscape(QuoteUnit(c).c) == c
    ensures QuoteUnit(c).Raw? ==> QuoteUnit(c).c == c
  {
    if IsControl(c) {
      assert c as int == c as int / 16 * 16 + c as int % 16;
    }
  }

  lemma {:induction false} UnitsTextConcat(a: seq<Unit>, b: seq<Unit>)
    ensures UnitsText(a + b) == UnitsText(a) + UnitsText(b)
  {
    hide UnitText;
    if a == [] {
      assert a + b == b;
    } else {
      UnitsTextConcat(a[1..], b);
      assert (a + b)[1..] == a[1..] + b;
      Associative(UnitText(a[0]), UnitsText(a[1..]), UnitsText(b));
    }
  }

  lemma {:induction false} PlainText(s: string)
    requires forall i :: 0 <= i < |s| ==> !IsSpecial(s[i]) && !IsControl(s[i])
    ensures UnitsText(QuoteUnits(s)) == s
  {
    if s != "" {
      PlainText(s[1..]);
      assert QuoteUnits(s)[1..] == QuoteUnits(s[1..]);
    }
  }

  lemma QuoteStep(text: string, p: nat)
    requires p < |text|
    ensures UnitsText(QuoteUnits(text[..p + 1])) == UnitsText(QuoteUnits(text[..p])) + UnitText(QuoteUnit(text[p]))
  {
    var u := QuoteUnit(text[p]);
    assert QuoteUnits(text[..p + 1]) == QuoteUnits(text[..p]) + [u];
    UnitsTextConcat(QuoteUnits(text[..p]), [u]);
    assert UnitsText([u]) == UnitText(u);
  }

  predicate HasControl(text: string) {
    exists i :: 0 <= i < |text| && IsControl(text[i])
  }

  method ContainsControlCharacter(str: string) returns (found: bool)
    ensures found == HasControl(CStr(str))
  {
    var p := 0;
    ghost var text := CStr(str);
    while At(str, p) != '\0'
      invariant p <= |text|
      invariant forall i :: 0 <= i < p ==> !IsControl(text[i])
      decreases |str| - p
    {
      assert p < |text| && text[p] == str[p];
      if IsControl(str[p]) {
        return true;
      }
      p := p + 1;
    }
    found := false;
  }

  /** `strpbrk( value, "\"\\\b\f\n\r\t" ) != NULL`. */
  predicate ContainsSpecial(text: string) {
    exists i :: 0 <= i < |text| && IsSpecial(text[i])
  }

  /** The switch of the escape loop. */
  method EscapeCharacter(c: char) returns (text: string)
    ensures text == UnitText(QuoteUnit(c))
  {
    match c {
      case '"' => text := "\\\"";
      case '\\' => text := "\\\\";
      case '\U{08}' => text := "\\b";
      case '\U{0C}' => text := "\\f";
      case '\n' => text := "\\n";
      case '\r' => text := "\\r";
      case '\t' => text := "\\t";
      case _ =>
        if IsControl(c) {
          text := "\\u" + ['0', '0', UpperHexDigit(c as nat / 16), UpperHexDigit(c as nat % 16)];
        } else {
          text := [c];
        }
    }
  }

  lemma NothingQuoted()
    ensures UnitsText(QuoteUnits("")) == ""
  {
  }

  method ValueToQuotedString(value: string) returns (result: string)
    ensures result == Quoted(value)
  {
    hide CStr, UnitsText, QuoteUnits, QuoteUnit;
    ghost var text := CStr(value);
    NothingQuoted();
    var control := ContainsControlCharacter(value);
    if !ContainsSpecial(CStr(value)) && !control {
      PlainText(text);
      assert Quoted(value) == "\"" + text + "\"";
      return "\"" + CStr(value) + "\"";
    }
    result := "\"";
    var p := 0;
    while At(value, p) != '\0'
      invariant p <= |text|
      invariant result == "\"" + UnitsText(QuoteUnits(text[..p]))
      decreases |value| - p
    {
      var c := value[p];
      assert p < |text| && text[p] == c;
      QuoteStep(text, p);
      var escaped := EscapeCharacter(c);
      Associative("\"", UnitsText(QuoteUnits(text[..p])), escaped);
      result := result + escaped;
      p := p + 1;
    }
    assert p == |text| && text[..p] == text;
    result := result + "\"";
  }

  /** Wherever the token made of `us` stands: reading stops exactly behind it, and it decodes to its meaning. */
  lemma StringTokenHere(doc: string, p: nat, us: seq<Unit>)
    requires ValidUnits(us) && StartsAt(doc, p, QuotedUnits(us))
    ensures TokenHere(doc, p) == Token(StringToken, p, p + |QuotedUnits(us)|)
    ensures Lexes(doc, p, [Lexeme(StringToken, QuotedUnits(us))], p + |QuotedUnits(us)|)
    ensures match UnitsMeaning(us)
            case Some(text) => DecodeToken(doc, p, p + |QuotedUnits(us)|) == Text(text)
            case None => DecodeToken(doc, p, p + |QuotedUnits(us)|).BadText?
  {
    hide Lexes, TokenHere, Decode, UnitsText, StartsAt, UnitsMeaning;
    StringTokenExtent(doc, p, us);
    DecodeUnits(doc, p + 1, p + |QuotedUnits(us)| - 1, us);
  }

  lemma StringTokenExtent(doc: string, p: nat, us: seq<Unit>)
    requires ValidUnits(us) && StartsAt(doc, p, QuotedUnits(us))
    ensures TokenHere(doc, p) == Token(StringToken, p, p + |QuotedUnits(us)|)
    ensures Lexes(doc, p, [Lexeme(StringToken, QuotedUnits(us))], p + |QuotedUnits(us)|)
    ensures StartsAt(doc, p + 1, UnitsText(us))
  {
    var body := UnitsText(us);
    StartsAtIndex(doc, p, QuotedUnits(us), 0);
    Associative("\"", body, "\"");
    StartsAtConcat(doc, p, "\"", body + "\"");
    StartsAtConcat(doc, p + 1, body, "\"");
    AfterStringUnits(doc, p + 1, us);
    LexesOne(doc, p, StringToken, QuotedUnits(us), p + |body| + 2);
  }

  /**
   The string codec: wherever the quoted text of `value` stands, and whatever follows it, reading stops
   exactly behind it, and decoding gives the C string back.
   */
  lemma StringRoundTrip(doc: string, p: nat, value: string)
    requires StartsAt(doc, p, Quoted(value))
    ensures var end := p + |Quoted(value)|;
            && TokenHere(doc, p) == Token(StringToken, p, end)
            && DecodeToken(doc, p, end) == Text(CStr(value))
  {
    hide Lexes, TokenHere, Decode, DecodeToken, UnitsText, UnitsMeaning, ValidUnits, StartsAt, QuotedUnits, CStr;
    QuoteUnitsMean(CStr(value));
    StringTokenHere(doc, p, QuoteUnits(CStr(value)));
  }
}
