/**
 Numbers: the decimal text of 64-bit integers, and the reader's choice between integer and double.
 */
module JsonNumber {
  import opened CText
  import opened JsonValue

  const MAX_UINT64 := 0xFFFF_FFFF_FFFF_FFFF
  const MIN_INT64: Int64 := -0x8000_0000_0000_0000

  // ----- two's complement conversions -----

  /** `-i` on 64 bits: the minimum is its own negation. */
  function Negate(i: Int64): Int64 {
    if i == MIN_INT64 then MIN_INT64 else -i
  }

  function ToUnsigned(i: Int64): UInt64 {
    if i < 0 then (i as int + MAX_UINT64 + 1) as UInt64 else i as UInt64
  }

  function ToSigned(u: UInt64): Int64 {
    if u > 0x7FFF_FFFF_FFFF_FFFF then (u as int - MAX_UINT64 - 1) as Int64 else u as Int64
  }

  // ----- decimal text -----

  predicate AllDigits(s: string) {
    forall i :: 0 <= i < |s| ==> IsDigit(s[i])
  }

  function DigitChar(d: nat): char
    requires d < 10
  {
    '0' + d as char
  }

  function DigitValue(c: char): nat
    requires IsDigit(c)
  {
    c as int - '0' as int
  }

  /** The number a string of decimal digits denotes; the empty string denotes 0. */
  function DigitsValue(s: string): nat
    requires AllDigits(s)
  {
    if s == "" then 0 else 10 * DigitsValue(s[..|s| - 1]) + DigitValue(s[|s| - 1])
  }

  /** The shortest decimal text of `n`. */
  function Decimal(n: nat): (s: string)
    ensures s != "" && AllDigits(s)
  {
    if n < 10 then [DigitChar(n)] else Decimal(n / 10) + [DigitChar(n % 10)]
  }

  lemma {:induction false} DecimalDenotes(n: nat)
    ensures DigitsValue(Decimal(n)) == n
  {
    var s := Decimal(n);
    if n >= 10 {
      DecimalDenotes(n / 10);
      assert s[..|s| - 1] == Decimal(n / 10);
    }
  }

  function Pow10(k: nat): nat {
    if k == 0 then 1 else 10 * Pow10(k - 1)
  }

  lemma {:induction false} DecimalLength(n: nat, k: nat)
    requires 0 < k && n < Pow10(k)
    ensures |Decimal(n)| <= k
  {
    if n >= 10 {
      DecimalLength(n / 10, k - 1);
    }
  }

  /** Every 64-bit number has at most 20 digits. */
  lemma DecimalFits(n: nat)
    requires n <= MAX_UINT64
    ensures |Decimal(n)| <= 20
  {
    assert Pow10(5) == 100_000;
    assert Pow10(10) == 10_000_000_000 by { assert Pow10(8) == 100_000_000; }
    assert Pow10(15) == 1_000_000_000_000_000 by { assert Pow10(13) == 10_000_000_000_000; }
    assert Pow10(20) == 100_000_000_000_000_000_000 by { assert Pow10(18) == 1_000_000_000_000_000_000; }
    DecimalLength(n, 20);
  }

  // ----- printing -----

  const UINT_TO_STRING_BUFFER_SIZE := 25  // 3*sizeof(LargestUInt)+1

  /**
   Writes the digits of `value` and a NUL backwards from `current`; the caller provides
   UINT_TO_STRING_BUFFER_SIZE free characters before it.
   */
  method UIntToString(value: UInt64, buffer: array<char>, current: nat) returns (start: nat)
    requires UINT_TO_STRING_BUFFER_SIZE <= current <= buffer.Length
    modifies buffer
    ensures 4 <= start < current
    ensures buffer[start..current] == Decimal(value as nat) + "\0"
    ensures buffer[..start] == old(buffer[..start]) && buffer[current..] == old(buffer[current..])
  {
    ghost var text := Decimal(value as nat);
    DecimalFits(value as nat);
    start := current - 1;
    buffer[start] := '\0';
    var rest := value;
    var first := true;
    while first || rest != 0
      invariant start <= current - 1 && buffer[current - 1] == '\0'
      invariant first ==> rest == value && start == current - 1
      invariant if first || rest != 0 then
                  start == current - 1 - |text| + |Decimal(rest as nat)|
                  && Decimal(rest as nat) + buffer[start..current - 1] == text
                else start == current - 1 - |text| && buffer[start..current - 1] == text
      invariant buffer[..start] == old(buffer[..start]) && buffer[current..] == old(buffer[current..])
      decreases if first then 1 else 0, rest
    {
      ghost var before := buffer[start..current - 1];
      first := false;
      start := start - 1;
      buffer[start] := DigitChar((rest % 10) as nat);
      assert buffer[start..current - 1] == [DigitChar((rest % 10) as nat)] + before;
      rest := rest / 10;
    }
    assert buffer[start..current] == buffer[start..current - 1] + [buffer[current - 1]];
  }

  /** The decimal text of a signed number. */
  function IntText(n: int): string {
    if n < 0 then "-" + Decimal(-n) else Decimal(n)
  }

  method ValueToStringUInt(value: UInt64) returns (s: string)
    ensures s == Decimal(value as nat)
  {
    var buffer := new char[UINT_TO_STRING_BUFFER_SIZE];
    var current := UIntToString(value, buffer, buffer.Length);
    s := CStrAt(buffer[..], current, Decimal(value as nat));
  }

  method ValueToStringInt(value: Int64) returns (s: string)
    ensures s == IntText(value as int)
  {
    var buffer := new char[UINT_TO_STRING_BUFFER_SIZE];
    var isNegative := value < 0;
    var magnitude := if isNegative then Negate(value) else value;
    var current := UIntToString(ToUnsigned(magnitude), buffer, buffer.Length);
    ghost var digits := Decimal(ToUnsigned(magnitude) as nat);
    assert buffer[current..buffer.Length] == digits + "\0";
    assert buffer[current..] == digits + "\0";
    if isNegative {
      current := current - 1;
      buffer[current] := '-';
      assert buffer[current..] == "-" + (digits + "\0");
      Associative("-", digits, "\0");
    }
    assert buffer[..][current..] == buffer[current..];
    s := CStrAt(buffer[..], current, if isNegative then "-" + digits else digits);
  }

  /** The C string at `current`, known to be `text`. */
  method CStrAt(buffer: string, current: nat, ghost text: string) returns (s: string)
    requires current <= |buffer| && buffer[current..] == text + "\0" && '\0' !in text
    ensures s == text
  {
    s := CStr(buffer[current..]);
    assert (text + "\0")[..|text|] == text;
  }

  // ----- reading -----

  predicate IsNumberChar(c: char) {
    IsDigit(c) || c == '.' || c == 'e' || c == 'E' || c == '+' || c == '-'
  }

  /** The texts `readToken` gives a number token: a digit or '-', then number characters. */
  predicate IsNumberToken(text: string) {
    text != "" && (IsDigit(text[0]) || text[0] == '-') && forall i :: 0 <= i < |text| ==> IsNumberChar(text[i])
  }

  predicate IsDoubleMark(text: string, i: nat)
    requires i < |text|
  {
    text[i] == '.' || text[i] == 'e' || text[i] == 'E' || text[i] == '+' || (text[i] == '-' && i != 0)
  }

  predicate HasDoubleMark(text: string) {
    exists i :: 0 <= i < |text| && IsDoubleMark(text, i)
  }

  type Scan = string -> Option<Double>

  function ScanDouble(scan: Scan, text: string): Option<Value> {
    match scan(text)
    case Some(d) => Some(RealVal(d))
    case None => None
  }

  /**
   What a number token means: a text with a double mark is scanned as a double; one without
   denotes an integer, which is stored exactly when 64 bits can hold it, and scanned as a double otherwise.
   */
  function NumberMeaning(scan: Scan, text: string): Option<Value>
    requires IsNumberToken(text)
  {
    if HasDoubleMark(text) then ScanDouble(scan, text)
    else
      var n := Magnitude(text);
      if text[0] == '-' then
        if n <= 0x8000_0000_0000_0000 then Some(IntVal((0 - n) as Int64)) else ScanDouble(scan, text)
      else if n <= MAX_INT then Some(IntVal(n as Int64))
      else if n <= MAX_UINT64 then Some(UIntVal(n as UInt64))
      else ScanDouble(scan, text)
  }

  function Magnitude(text: string): nat
    requires IsNumberToken(text) && !HasDoubleMark(text)
  {
    BodyIsDigits(text);
    DigitsValue(Body(text))
  }

  /** The token without its sign. */
  function Body(text: string): string
    requires text != ""
  {
    if text[0] == '-' then text[1..] else text
  }

  lemma BodyIsDigits(text: string)
    requires IsNumberToken(text) && !HasDoubleMark(text)
    ensures AllDigits(Body(text))
  {
    forall i | 0 <= i < |text| && (i != 0 || text[0] != '-') ensures IsDigit(text[i]) {
      assert IsNumberChar(text[i]) && !IsDoubleMark(text, i);
    }
  }

  lemma {:induction false} PrefixValue(s: string, k: nat)
    requires AllDigits(s) && k <= |s|
    ensures DigitsValue(s[..k]) <= DigitsValue(s)
    ensures k < |s| ==> 10 * DigitsValue(s[..k]) <= DigitsValue(s)
  {
    if k < |s| {
      PrefixValue(s[..|s| - 1], k);
      assert s[..|s| - 1][..k] == s[..k];
    } else {
      assert s[..k] == s;
    }
  }

  /** The scan for double marks that precedes integer decoding. */
  method InspectDouble(text: string) returns (isDouble: bool)
    ensures isDouble == HasDoubleMark(text)
  {
    isDouble := false;
    for inspect := 0 to |text|
      invariant isDouble == exists i :: 0 <= i < inspect && IsDoubleMark(text, i)
    {
      ghost var mark := IsDoubleMark(text, inspect);
      isDouble := isDouble
        || text[inspect] == '.' || text[inspect] == 'e' || text[inspect] == 'E' || text[inspect] == '+'
        || (text[inspect] == '-' && inspect != 0);
    }
  }

  /**
   The overflow-checked integer loop. `value` lives in 64 unsigned bits, so the multiplication and
   the addition are proved never to wrap; the character test inside the loop never fails.
   */
  method DecodeNumber(scan: Scan, text: string) returns (r: Option<Value>)
    requires IsNumberToken(text)
    ensures r == NumberMeaning(scan, text)
  {
    var isDouble := InspectDouble(text);
    if isDouble {
      return ScanDouble(scan, text);
    }
    BodyIsDigits(text);
    var current := 0;
    var isNegative := text[0] == '-';
    if isNegative {
      current := current + 1;
    }
    ghost var digits := Body(text);
    ghost var start := current;
    var maxIntegerValue: UInt64 := if isNegative then ToUnsigned(Negate(MIN_INT64)) else MAX_UINT64 as UInt64;
    var threshold := maxIntegerValue / 10;
    var value: UInt64 := 0;
    while current < |text|
      invariant start <= current <= |text|
      invariant value <= maxIntegerValue
      invariant value as nat == DigitsValue(digits[..current - start])
    {
      var c := text[current];
      current := current + 1;
      if c < '0' || c > '9' {
        assert false;
      }
      ghost var k := current - start;
      assert digits[k - 1] == c;
      assert digits[..k][..k - 1] == digits[..k - 1] && digits[..k][k - 1] == c;
      var digit := DigitValue(c) as UInt64;
      PrefixValue(digits, k);
      if value >= threshold {
        // too large for the integer type: `PrefixValue` carries the excess to the whole token
        if value > threshold || current != |text| || digit > maxIntegerValue % 10 {
          return ScanDouble(scan, text);
        }
      }
      value := value * 10 + digit;
    }
    assert digits[..current - start] == digits;
    if isNegative {
      r := Some(IntVal(Negate(ToSigned(value))));
    } else if value <= MAX_INT as UInt64 {
      r := Some(IntVal(ToSigned(value)));
    } else {
      r := Some(UIntVal(value));
    }
  }

  // ----- printing then reading -----

  /** A sign without digits is a number too. */
  lemma LoneMinus(scan: Scan)
    ensures IsNumberToken("-") && NumberMeaning(scan, "-") == Some(IntVal(0))
  {
    assert Body("-") == "";
  }

  lemma DecimalIsNumberToken(n: nat)
    ensures IsNumberToken(Decimal(n)) && !HasDoubleMark(Decimal(n)) && Decimal(n)[0] != '-'
    ensures Magnitude(Decimal(n)) == n
  {
    DecimalDenotes(n);
  }

  /** Decoding the text of a signed number gives that number, under the tag chosen by its size. */
  lemma IntRoundTrip(scan: Scan, i: Int64)
    ensures IsNumberToken(IntText(i as int))
    ensures NumberMeaning(scan, IntText(i as int)) == Some(Canon(IntVal(i)))
  {
    var text := IntText(i as int);
    if i < 0 {
      var digits := Decimal(-(i as int));
      DecimalDenotes(-(i as int));
      assert text[1..] == digits;
    } else {
      DecimalIsNumberToken(i as int);
    }
  }

  lemma UIntRoundTrip(scan: Scan, u: UInt64)
    ensures IsNumberToken(Decimal(u as nat))
    ensures NumberMeaning(scan, Decimal(u as nat)) == Some(Canon(UIntVal(u)))
  {
    DecimalIsNumberToken(u as nat);
  }

  /** Up to 2147483647 a number is read as a signed integer, above as an unsigned one, below zero as a signed one. */
  lemma NumberTags(scan: Scan, n: nat)
    requires n <= 18446744073709551615
    ensures IsNumberToken(Decimal(n)) && IsNumberToken("-" + Decimal(n))
    ensures NumberMeaning(scan, Decimal(n))
            == Some(if n <= 2147483647 then IntVal(n as Int64) else UIntVal(n as UInt64))
    ensures 0 < n <= 9223372036854775808 ==> NumberMeaning(scan, "-" + Decimal(n)) == Some(IntVal((0 - n) as Int64))
  {
    DecimalIsNumberToken(n);
    NegativeToken(n);
    if 0 < n <= 9223372036854775808 {
      IntRoundTrip(scan, (0 - n) as Int64);
      assert IntText(0 - n) == "-" + Decimal(n);
    }
    hide Decimal, IsNumberToken, HasDoubleMark, Magnitude, IntText;
  }

  lemma NegativeToken(n: nat)
    ensures IsNumberToken("-" + Decimal(n))
  {
  }
}
