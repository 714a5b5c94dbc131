/**
 The numbers and strings of RFC 8259, and where the reader's go beyond them.
 */
module JsonGrammar {
  import opened CText
  import opened JsonValue
  import opened JsonNumber
  import opened JsonString
  import opened ZeroTrimming

  // ----- numbers, section 6 -----

  /** A zero, or digits that do not begin with one. */
  predicate IsInt(s: string) {
    s != "" && AllDigits(s) && (s[0] == '0' ==> |s| == 1)
  }

  predicate IsFraction(s: string) {
    s == "" || (s[0] == '.' && |s| > 1 && AllDigits(s[1..]))
  }

  predicate IsExponent(s: string) {
    s == "" || ((s[0] == 'e' || s[0] == 'E') && IsExponentDigits(s[1..]))
  }

  /** Digits, perhaps behind a sign. */
  predicate IsExponentDigits(s: string) {
    s != "" && if s[0] == '+' || s[0] == '-' then |s| > 1 && AllDigits(s[1..]) else AllDigits(s)
  }

  ghost predicate IsMagnitude(s: string) {
    exists i, f, e :: IsInt(i) && IsFraction(f) && IsExponent(e) && s == i + f + e
  }

  /** `[ minus ] int [ frac ] [ exp ]`. */
  ghost predicate IsRfcNumber(text: string) {
    IsMagnitude(text) || (text != "" && text[0] == '-' && IsMagnitude(text[1..]))
  }

  lemma MagnitudeChars(s: string)
    requires IsMagnitude(s)
    ensures s != "" && IsDigit(s[0]) && forall i :: 0 <= i < |s| ==> IsNumberChar(s[i])
  {
    var i, f, e :| IsInt(i) && IsFraction(f) && IsExponent(e) && s == i + f + e;
    FractionChars(f);
    ExponentChars(e);
    assert forall k :: 0 <= k < |i| ==> IsNumberChar(i[k]);
    assert s[0] == i[0];
  }

  lemma FractionChars(f: string)
    requires IsFraction(f)
    ensures forall k :: 0 <= k < |f| ==> IsNumberChar(f[k])
  {
    forall k | 0 <= k < |f| ensures IsNumberChar(f[k]) {
      assert k > 0 ==> f[k] == f[1..][k - 1];
    }
  }

  lemma ExponentChars(e: string)
    requires IsExponent(e)
    ensures forall k :: 0 <= k < |e| ==> IsNumberChar(e[k])
  {
    forall k | 0 <= k < |e| ensures IsNumberChar(e[k]) {
      assert k > 0 ==> e[k] == e[1..][k - 1];
      assert k > 1 ==> e[k] == e[1..][1..][k - 2];
    }
  }

  /** The lexer takes every number of the grammar for a number token. */
  lemma RfcNumberIsToken(text: string)
    requires IsRfcNumber(text)
    ensures IsNumberToken(text)
  {
    if IsMagnitude(text) {
      MagnitudeChars(text);
    } else {
      MagnitudeChars(text[1..]);
      assert forall k :: 0 < k < |text| ==> text[k] == text[1..][k - 1];
    }
  }

  /** More digits behind a leading zero. */
  predicate HasExtraZero(text: string) {
    text != "" && |Body(text)| > 1 && Body(text)[0] == '0'
  }

  /** Of the tokens without a double mark all are numbers of the grammar but the lone sign and superfluous zeros. */
  lemma IntegerTokens(text: string)
    requires IsNumberToken(text) && !HasDoubleMark(text)
    ensures IsRfcNumber(text) <==> text != "-" && !HasExtraZero(text)
  {
    BodyIsDigits(text);
    var body := Body(text);
    if text != "-" && !HasExtraZero(text) {
      assert IsInt(body) && IsFraction("") && IsExponent("") && body == body + "" + "";
      assert IsMagnitude(body);
    }
    if IsRfcNumber(text) {
      if text[0] == '-' && IsMagnitude(body) {
        WholeMagnitude(body);
      } else {
        MagnitudeChars(text);
        WholeMagnitude(text);
      }
    }
  }

  /** Without point or exponent a magnitude is its whole part. */
  lemma WholeMagnitude(s: string)
    requires AllDigits(s) && IsMagnitude(s)
    ensures IsInt(s)
  {
    var i, f, e :| IsInt(i) && IsFraction(f) && IsExponent(e) && s == i + f + e;
    NoTail(i, f, e);
    assert s == i + (f + e);
    assert i + "" == i;
  }

  lemma NoTail(i: string, f: string, e: string)
    requires IsFraction(f) && IsExponent(e)
    ensures f + e == "" || !AllDigits(i + (f + e))
  {
    if f + e != "" {
      assert !IsDigit((i + (f + e))[|i|]);
    }
  }

  /** The integer a text without point and exponent denotes. */
  function IntegerValue(text: string): int
    requires IsNumberToken(text) && !HasDoubleMark(text)
  {
    if text[0] == '-' then 0 - Magnitude(text) else Magnitude(text)
  }

  /** The integers the reader can store: signed ones below zero, unsigned ones above. */
  predicate IsStorable(n: int) {
    -0x8000_0000_0000_0000 <= n <= MAX_UINT64
  }

  function IntegerOf(v: Value): Option<int> {
    match v
    case IntVal(i) => Some(i as int)
    case UIntVal(u) => Some(u as int)
    case _ => None
  }

  /**
   What the reader makes of a number token. Without a double mark it stores just the integer that the text
   denotes, if 64 bits hold it; all else is up to the scanning of doubles.
   */
  lemma NumberReading(scan: Scan, text: string)
    requires IsNumberToken(text)
    ensures var r := NumberMeaning(scan, text);
            if !HasDoubleMark(text) && IsStorable(IntegerValue(text)) then
              r.Some? && IntegerOf(r.value) == Some(IntegerValue(text))
            else
              (r.Some? <==> scan(text).Some?) && (r.Some? ==> r.value == RealVal(scan(text).value))
  {
  }

  /**
   The exact excess: a token is stored as an integer though the grammar has no such number exactly if it is a
   lone sign, or has a superfluous zero and a storable value.
   */
  lemma IntegerExcess(scan: Scan, text: string)
    requires IsNumberToken(text)
    ensures (NumberMeaning(scan, text).Some? && IntegerOf(NumberMeaning(scan, text).value).Some? && !IsRfcNumber(text))
            <==> !HasDoubleMark(text)
                 && (text == "-" || (HasExtraZero(text) && IsStorable(IntegerValue(text))))
  {
    NumberReading(scan, text);
    if !HasDoubleMark(text) {
      IntegerTokens(text);
      if text == "-" {
        assert Body(text) == "";
      }
    }
  }

  /** Every integer of the grammar that can be stored is accepted, with its value. */
  lemma RfcIntegerIsRead(scan: Scan, negative: bool, digits: string)
    requires IsInt(digits)
    ensures var text, value := if negative then "-" + digits else digits, DigitsValue(digits);
            && IsRfcNumber(text) && IsNumberToken(text)
            && var r := NumberMeaning(scan, text);
              if IsStorable(if negative then 0 - value else value) then
                r.Some? && IntegerOf(r.value) == Some(if negative then 0 - value else value)
              else r.Some? <==> scan(text).Some?
  {
    var text := if negative then "-" + digits else digits;
    IntegerText(negative, digits);
    RfcNumberIsToken(text);
    NumberReading(scan, text);
    hide IsRfcNumber, IsNumberToken, NumberMeaning, HasDoubleMark, IsInt, DigitsValue;
  }

  lemma IntegerText(negative: bool, digits: string)
    requires IsInt(digits)
    ensures var text := if negative then "-" + digits else digits;
            IsRfcNumber(text) && !HasDoubleMark(text) && Body(text) == digits && (text[0] == '-' <==> negative)
  {
    hide DigitsValue;
    var text := if negative then "-" + digits else digits;
    assert IsInt(digits) && IsFraction("") && IsExponent("") && digits == digits + "" + "";
    assert IsMagnitude(digits);
    assert negative ==> text[1..] == digits;
    forall i | 0 <= i < |text| ensures !IsDoubleMark(text, i) {
      assert i > 0 || !negative ==> IsDigit(text[i]);
    }
  }

  lemma {:induction false} DecimalIsInt(n: nat)
    ensures IsInt(Decimal(n)) && (n > 0 ==> Decimal(n)[0] != '0')
  {
    if n >= 10 {
      DecimalIsInt(n / 10);
      assert Decimal(n)[0] == Decimal(n / 10)[0];
    }
  }

  /** Integers are printed as numbers of the grammar. */
  lemma IntTextIsRfc(n: int)
    ensures IsRfcNumber(IntText(n))
  {
    var digits := Decimal(if n < 0 then -n else n);
    DecimalIsInt(if n < 0 then -n else n);
    assert IsInt(digits) && IsFraction("") && IsExponent("") && digits == digits + "" + "";
    assert IsMagnitude(digits);
    assert n < 0 ==> IntText(n)[1..] == digits;
  }

  /** A double in fixed notation is printed as a number of the grammar exactly if it has digits behind the point. */
  lemma FixedTextIsRfc(negative: bool, whole: string, fraction: string)
    requires IsInt(whole) && AllDigits(fraction)
    ensures IsRfcNumber(Trimmed(FixedText(negative, whole, fraction))) <==> fraction != ""
  {
    TrimFixed(negative, whole, fraction);
    var kept := KeepOneZero(fraction);
    var magnitude := whole + "." + kept;
    var text := FixedText(negative, whole, kept);
    assert negative ==> text[1..] == magnitude;
    assert !negative ==> text == magnitude && text[0] == whole[0];
    FixedMagnitude(whole, kept);
    assert negative ==> !IsMagnitude(text) by {
      if IsMagnitude(text) {
        MagnitudeChars(text);
      }
    }
    assert kept == "" <==> fraction == "" by { KeptAny(fraction); }
  }

  lemma {:induction false} KeptAny(f: string)
    ensures KeepOneZero(f) == "" <==> f == ""
  {
    if |f| >= 2 && f[|f| - 1] == '0' && f[|f| - 2] == '0' {
      KeptAny(f[..|f| - 1]);
    }
  }

  lemma FixedMagnitude(whole: string, fraction: string)
    requires IsInt(whole) && AllDigits(fraction)
    ensures IsMagnitude(whole + "." + fraction) <==> fraction != ""
  {
    var s := whole + "." + fraction;
    if fraction != "" {
      assert ("." + fraction)[1..] == fraction;
      assert IsFraction("." + fraction) && IsExponent("") && s == whole + ("." + fraction) + "";
    } else if IsMagnitude(s) {
      var i, f, e :| IsInt(i) && IsFraction(f) && IsExponent(e) && s == i + f + e;
      assert s[|s| - 1] == '.' && s[|whole|] == '.';
      LastIsDigit(i, f, e);
    }
  }

  /** The last character of a number is a digit. */
  lemma LastIsDigit(i: string, f: string, e: string)
    requires IsInt(i) && IsFraction(f) && IsExponent(e)
    ensures i + f + e != "" && IsDigit((i + f + e)[|i + f + e| - 1])
  {
    if e != "" {
      var d := e[1..];
      assert e[|e| - 1] == d[|d| - 1];
      assert |d| > 1 ==> d[|d| - 1] == d[1..][|d| - 2];
    } else if f != "" {
      assert f[|f| - 1] == f[1..][|f| - 2];
    }
  }

  /** In exponent form too it takes digits behind the point; they are printed all. */
  lemma ExponentTextIsRfc(negative: bool, whole: string, fraction: string, sign: char, exponent: string)
    requires IsInt(whole) && AllDigits(fraction)
    requires (sign == '+' || sign == '-') && AllDigits(exponent) && exponent != ""
    ensures var text := FixedText(negative, whole, fraction) + "e" + [sign] + exponent;
            Trimmed(text) == text && (IsRfcNumber(text) <==> fraction != "")
  {
    TrimKeepsExponent(FixedText(negative, whole, fraction), sign, exponent);
    hide Trimmed;
    var tail := "e" + [sign] + exponent;
    var magnitude := whole + "." + fraction + tail;
    var text := FixedText(negative, whole, fraction) + "e" + [sign] + exponent;
    assert text == (if negative then "-" + magnitude else magnitude);
    assert negative ==> text[1..] == magnitude;
    assert !negative ==> text[0] == whole[0];
    ExponentMagnitude(whole, fraction, sign, exponent);
    assert negative ==> !IsMagnitude(text) by {
      if IsMagnitude(text) {
        MagnitudeChars(text);
      }
    }
    hide IsMagnitude, FixedText;
  }

  lemma ExponentMagnitude(whole: string, fraction: string, sign: char, exponent: string)
    requires IsInt(whole) && AllDigits(fraction)
    requires (sign == '+' || sign == '-') && AllDigits(exponent) && exponent != ""
    ensures IsMagnitude(whole + "." + fraction + ("e" + [sign] + exponent)) <==> fraction != ""
  {
    var tail := "e" + [sign] + exponent;
    var s := whole + "." + fraction + tail;
    assert tail[1..] == [sign] + exponent && ([sign] + exponent)[1..] == exponent;
    assert IsExponent(tail);
    if fraction != "" {
      assert ("." + fraction)[1..] == fraction;
      assert IsFraction("." + fraction) && s == whole + ("." + fraction) + tail;
    } else if IsMagnitude(s) {
      var i, f, e :| IsInt(i) && IsFraction(f) && IsExponent(e) && s == i + f + e;
      assert s[|whole|] == '.' && s[|whole| + 1] == 'e' && forall k :: 0 <= k < |whole| ==> IsDigit(s[k]);
      NoBarePoint(i, f, e, |whole|);
    }
  }

  /** In a number a digit stands behind the first point. */
  lemma NoBarePoint(i: string, f: string, e: string, p: nat)
    requires IsInt(i) && IsFraction(f) && IsExponent(e)
    requires var s := i + f + e; p + 1 < |s| && s[p] == '.' && forall k :: 0 <= k < p ==> IsDigit(s[k])
    ensures IsDigit((i + f + e)[p + 1])
  {
    var s := i + f + e;
    assert forall k :: 0 <= k < |i| ==> s[k] == i[k];
    assert f != "" ==> s[|i|] == '.';
    if f != "" {
      assert s[|i| + 1] == f[1..][0];
    }
  }

  /** The white space of section 2, and the characters that numbers are made of. */
  lemma CharacterClasses(c: char)
    ensures IsSpace(c) <==> c in [' ', '\U{0009}', '\U{000A}', '\U{000D}']
    ensures IsNumberChar(c) <==> c in "0123456789+-.eE"
    ensures IsDigit(c) <==> c in "0123456789"
  {
    assert c in "0123456789" <==> IsDigit(c) by {
      var all := "0123456789";
      assert all[0] == '0' && all[1] == '1' && all[2] == '2' && all[3] == '3' && all[4] == '4' && all[5] == '5'
        && all[6] == '6' && all[7] == '7' && all[8] == '8' && all[9] == '9';
    }
    assert "0123456789+-.eE" == "0123456789" + "+-.eE";
    var marks := "+-.eE";
    assert marks[0] == '+' && marks[1] == '-' && marks[2] == '.' && marks[3] == 'e' && marks[4] == 'E';
  }

  // ----- strings, section 7 -----

  /** Control characters must be escaped. */
  predicate IsRfcUnit(u: Unit) {
    ValidUnit(u) && (u.Raw? ==> u.c >= ' ')
  }

  predicate IsLowSurrogate(cp: nat) { 0xDC00 <= cp <= 0xDFFF }

  predicate HighAt(us: seq<Unit>, i: int)
    requires ValidUnits(us)
  {
    0 <= i < |us| && us[i].Hex? && IsHighSurrogate(HexUnitValue(us[i]))
  }

  predicate LowAt(us: seq<Unit>, i: int)
    requires ValidUnits(us)
  {
    0 <= i < |us| && us[i].Hex? && IsLowSurrogate(HexUnitValue(us[i]))
  }

  /** Surrogates stand in pairs, a high one and then a low one. */
  ghost predicate Paired(us: seq<Unit>)
    requires ValidUnits(us)
  {
    (forall i :: HighAt(us, i) ==> LowAt(us, i + 1)) && (forall i :: LowAt(us, i) ==> HighAt(us, i - 1))
  }

  ghost predicate IsRfcString(us: seq<Unit>) {
    ValidUnits(us) && (forall i :: 0 <= i < |us| ==> IsRfcUnit(us[i])) && Paired(us)
  }

  /** The text that the units denote: a pair is one code point, and a surrogate alone is none. */
  function RfcMeaning(us: seq<Unit>): Option<string>
    requires ValidUnits(us)
  {
    if us == [] then Some("")
    else
      match us[0]
      case Raw(c) => Before([c], RfcMeaning(us[1..]))
      case Short(c) => Before([ShortEscape(c)], RfcMeaning(us[1..]))
      case Hex(_) =>
        var v := HexUnitValue(us[0]);
        if !IsSurrogate(v) then Before(Utf8(v), RfcMeaning(us[1..]))
        else if HighAt(us, 0) && LowAt(us, 1) then Before(Utf8(Combine(v, HexUnitValue(us[1]))), RfcMeaning(us[2..]))
        else None
  }

  /** The reader gives paired surrogates their meaning; of what else it accepts the standard knows no meaning. */
  lemma {:induction false} PairedMeaning(us: seq<Unit>)
    requires ValidUnits(us)
    ensures RfcMeaning(us).Some? <==> Paired(us)
    ensures Paired(us) ==> UnitsMeaning(us) == RfcMeaning(us)
    decreases |us|
  {
    hide HexUnitValue, Utf8, Combine;
    if us != [] {
      if HighAt(us, 0) && LowAt(us, 1) {
        PairedMeaning(us[2..]);
        PairedBehind(us, 2);
      } else if !HighAt(us, 0) && !LowAt(us, 0) {
        PairedMeaning(us[1..]);
        PairedBehind(us, 1);
      }
    }
  }

  /** Behind a whole character the pairing begins anew. */
  lemma PairedBehind(us: seq<Unit>, n: nat)
    requires ValidUnits(us)
    requires (n == 1 && us != [] && !HighAt(us, 0) && !LowAt(us, 0)) || (n == 2 && HighAt(us, 0) && LowAt(us, 1))
    ensures Paired(us) <==> Paired(us[n..])
  {
    hide HexUnitValue;
    var rest := us[n..];
    forall i
      ensures HighAt(rest, i) == (i >= 0 && HighAt(us, i + n)) && LowAt(rest, i) == (i >= 0 && LowAt(us, i + n))
    {
    }
    if Paired(rest) {
      forall i | HighAt(us, i) ensures LowAt(us, i + 1) {
        assert i >= n ==> HighAt(rest, i - n);
      }
      forall i | LowAt(us, i) ensures HighAt(us, i - 1) {
        assert i >= n ==> LowAt(rest, i - n);
      }
    }
    if Paired(us) {
      forall i | LowAt(rest, i) ensures HighAt(rest, i - 1) {
        assert LowAt(us, i + n);
      }
    }
  }

  /**
   The exact excess in a pair: behind a high surrogate the reader takes any escape, and reads it as the low
   surrogate with the same last ten bits; the standard has only low surrogates there.
   */
  lemma SurrogateExcess(high: Unit, second: Unit)
    requires ValidUnit(high) && ValidUnit(second) && HighAt([high], 0)
    ensures UnitsMeaning([high, second]).Some? <==> second.Hex?
    ensures Paired([high, second]) <==> LowAt([second], 0)
    ensures second.Hex? ==>
              UnitsMeaning([high, second])
              == Some(Utf8(Combine(HexUnitValue(high), 0xDC00 + HexUnitValue(second) % 0x400)))
  {
    hide HexUnitValue, Utf8;
    var us := [high, second];
    assert us[1..] == [second] && us[2..] == [];
    assert HighAt(us, 0) && LowAt(us, 1) == LowAt([second], 0);
    if second.Hex? {
      var v := HexUnitValue(second);
      assert (0xDC00 + v % 0x400) % 0x400 == v % 0x400;
      var text := Utf8(Combine(HexUnitValue(high), v));
      assert text + "" == text;
    }
  }

  /** Printed strings are strings of the grammar. */
  lemma QuotedIsRfc(s: string)
    ensures '\0' !in s ==> IsRfcString(QuoteUnits(s))
  {
    hide HexUnitValue, ValidUnit, IsRfcUnit, QuoteUnit;
    var us := QuoteUnits(s);
    forall i | 0 <= i < |us|
      ensures ValidUnit(us[i]) && (us[i].Hex? ==> HexUnitValue(us[i]) < 0x80)
      ensures s[i] != '\0' ==> IsRfcUnit(us[i])
    {
      QuotedUnitIsRfc(s[i]);
    }
  }

  lemma QuotedUnitIsRfc(c: char)
    ensures ValidUnit(QuoteUnit(c)) && (QuoteUnit(c).Hex? ==> HexUnitValue(QuoteUnit(c)) < 0x80)
    ensures c != '\0' ==> IsRfcUnit(QuoteUnit(c))
  {
    QuoteUnitMeans(c);
    hide HexUnitValue;
  }

  lemma {:induction false} UnitsInjective(a: seq<Unit>, b: seq<Unit>)
    requires ValidUnits(a) && ValidUnits(b) && UnitsText(a) == UnitsText(b)
    ensures a == b
    decreases |a|
  {
    FirstUnit(a);
    FirstUnit(b);
    if a != [] {
      var s, n := UnitsText(a), |UnitText(a[0])|;
      assert a[0] == b[0] by { SameFirst(a[0], b[0], UnitsText(a[1..]), UnitsText(b[1..])); }
      assert s[n..] == UnitsText(a[1..]) && s[n..] == UnitsText(b[1..]);
      UnitsInjective(a[1..], b[1..]);
      assert a == [a[0]] + a[1..] && b == [b[0]] + b[1..];
    }
  }

  lemma FirstUnit(us: seq<Unit>)
    ensures UnitsText(us) == "" <==> us == []
    ensures us != [] ==> UnitsText(us) == UnitText(us[0]) + UnitsText(us[1..])
  {
  }

  lemma SameFirst(u: Unit, v: Unit, a: string, b: string)
    requires ValidUnit(u) && ValidUnit(v) && UnitText(u) + a == UnitText(v) + b
    ensures u == v
  {
    var s, t := UnitText(u) + a, UnitText(v) + b;
    assert s[0] == UnitText(u)[0] && t[0] == UnitText(v)[0];
    assert !u.Raw? ==> s[1] == UnitText(u)[1];
    assert !v.Raw? ==> t[1] == UnitText(v)[1];
    if u.Hex? && v.Hex? {
      assert u.digits == s[2..6] && v.digits == t[2..6];
    }
  }
}
