/**
 The trailing zeros that `valueToString( double )` cuts off the text `sprintf( "%#.16g" )` gave.
 */
module ZeroTrimming {
  import opened CText
  import opened JsonNumber

  /** The last character at or before `i` that is not a zero, or the first of all. */
  function LastNonZero(s: string, i: nat): (k: nat)
    requires i < |s|
    ensures k <= i
    ensures forall j :: k < j <= i ==> s[j] == '0'
    ensures k > 0 ==> s[k] != '0'
  {
    if i > 0 && s[i] == '0' then LastNonZero(s, i - 1) else i
  }

  /** Only digits stand between a decimal point and `i`, which may be the point itself. */
  predicate PointBefore(s: string, i: int)
    requires i < |s|
    decreases i + 1
  {
    i >= 0 && (s[i] == '.' || (IsDigit(s[i]) && PointBefore(s, i - 1)))
  }

  /** The trimmed text: all but one of the zeros that end a fraction are dropped. */
  function Trimmed(s: string): string {
    if s == "" || s[|s| - 1] != '0' then s
    else
      var k := LastNonZero(s, |s| - 1);
      if PointBefore(s, k) && k + 2 <= |s| then s[..k + 2] else s
  }

  /** The buffer holds the C string `text`. */
  ghost predicate Holds(buffer: array<char>, text: string)
    reads buffer
  {
    |text| < buffer.Length && buffer[..|text|] == text && '\0' !in text && buffer[|text|] == '\0'
  }

  /** The two backward scans over the buffer, and the NUL that cuts it. */
  method TrimZeros(buffer: array<char>, length: nat, ghost text: string)
    requires Holds(buffer, text) && length == |text| > 0
    modifies buffer
    ensures Holds(buffer, Trimmed(text))
  {
    var ch := length - 1;
    if buffer[ch] != '0' {
      return;
    }
    while ch > 0 && buffer[ch] == '0'
      invariant 0 <= ch < length && Holds(buffer, text)
      invariant LastNonZero(text, ch) == LastNonZero(text, length - 1)
    {
      ch := ch - 1;
    }
    var lastNonZero := ch;
    while ch >= 0
      invariant -1 <= ch <= lastNonZero && Holds(buffer, text)
      invariant PointBefore(text, ch) == PointBefore(text, lastNonZero)
    {
      if IsDigit(buffer[ch]) {
        ch := ch - 1;
      } else if buffer[ch] == '.' {
        buffer[lastNonZero + 2] := '\0';
        assert buffer[..lastNonZero + 2] == text[..lastNonZero + 2];
        return;
      } else {
        return;
      }
    }
  }

  // ----- what trimming means -----

  /** The number the digits after a decimal point denote. */
  function FractionValue(f: string): real
    requires AllDigits(f)
  {
    if f == "" then 0.0 else (DigitValue(f[0]) as real + FractionValue(f[1..])) / 10.0
  }

  /** The number `sign whole . fraction` denotes. */
  function FixedValue(negative: bool, whole: string, fraction: string): real
    requires AllDigits(whole) && AllDigits(fraction)
  {
    var magnitude := DigitsValue(whole) as real + FractionValue(fraction);
    if negative then -magnitude else magnitude
  }

  function FixedText(negative: bool, whole: string, fraction: string): string {
    (if negative then "-" else "") + whole + "." + fraction
  }

  /** The fraction without the zeros at its end, but for one of them. */
  function KeepOneZero(f: string): (g: string)
    ensures g <= f
    ensures forall i :: |g| <= i < |f| ==> f[i] == '0'
    ensures |g| >= 2 && g[|g| - 1] == '0' ==> g[|g| - 2] != '0'
  {
    if |f| >= 2 && f[|f| - 1] == '0' && f[|f| - 2] == '0' then KeepOneZero(f[..|f| - 1]) else f
  }

  lemma {:induction false} ZerosAddNothing(f: string, k: nat)
    requires AllDigits(f) && k <= |f| && forall i :: k <= i < |f| ==> f[i] == '0'
    ensures FractionValue(f[..k]) == FractionValue(f)
  {
    if k == 0 {
      if f != "" {
        ZerosAddNothing(f[1..], 0);
      }
    } else {
      ZerosAddNothing(f[1..], k - 1);
      assert f[..k][1..] == f[1..][..k - 1];
    }
  }

  lemma {:induction false} PointReached(s: string, point: nat, i: nat)
    requires point <= i < |s| && s[point] == '.' && forall j :: point < j <= i ==> IsDigit(s[j])
    ensures PointBefore(s, i)
  {
    if i > point {
      PointReached(s, point, i - 1);
    }
  }

  lemma {:induction false} LastNonZeroIs(s: string, i: nat, k: nat)
    requires k <= i < |s| && s[k] != '0' && forall j :: k < j <= i ==> s[j] == '0'
    ensures LastNonZero(s, i) == k
  {
    if i > k {
      LastNonZeroIs(s, i - 1, k);
    }
  }

  /** On fixed notation only zeros at the end of the fraction go, all but one of them: the number stays. */
  lemma TrimFixed(negative: bool, whole: string, fraction: string)
    requires AllDigits(whole) && AllDigits(fraction)
    ensures Trimmed(FixedText(negative, whole, fraction)) == FixedText(negative, whole, KeepOneZero(fraction))
    ensures FixedValue(negative, whole, KeepOneZero(fraction)) == FixedValue(negative, whole, fraction)
  {
    TrimFraction((if negative then "-" else "") + whole, fraction);
    var g := KeepOneZero(fraction);
    ZerosAddNothing(fraction, |g|);
    assert g == fraction[..|g|];
  }

  lemma TrimFraction(head: string, fraction: string)
    requires AllDigits(fraction)
    ensures Trimmed(head + "." + fraction) == head + "." + KeepOneZero(fraction)
  {
    var s, n := head + "." + fraction, |KeepOneZero(fraction)|;
    if fraction != "" && fraction[|fraction| - 1] == '0' {
      LastBeforeZeros(head, fraction);
      PointReached(s, |head|, |head| + n - 1);
      assert Trimmed(s) == s[..|head| + 1 + n];
      CutFraction(head, fraction, n);
    } else {
      assert s[|s| - 1] != '0' && KeepOneZero(fraction) == fraction;
    }
  }

  lemma LastBeforeZeros(head: string, fraction: string)
    requires AllDigits(fraction) && fraction != "" && fraction[|fraction| - 1] == '0'
    ensures var s, g := head + "." + fraction, KeepOneZero(fraction);
            && g != "" && LastNonZero(s, |s| - 1) == |head| + |g| - 1
            && s[|head|] == '.' && forall j :: |head| < j < |s| ==> IsDigit(s[j])
  {
    var s, g := head + "." + fraction, KeepOneZero(fraction);
    var k := |head| + |g| - 1;
    KeptZero(fraction);
    forall j | |head| < j < |s| ensures s[j] == fraction[j - |head| - 1] {
    }
    assert k < |s| - 1 && s[k + 1] == g[|g| - 1];
    assert s[k] == if |g| == 1 then '.' else g[|g| - 2];
    LastNonZeroIs(s, |s| - 1, k);
  }

  lemma CutFraction(head: string, fraction: string, n: nat)
    requires n <= |fraction|
    ensures (head + "." + fraction)[..|head| + 1 + n] == head + "." + fraction[..n]
  {
  }

  lemma {:induction false} KeptZero(f: string)
    requires f != "" && f[|f| - 1] == '0'
    ensures var g := KeepOneZero(f); g != "" && g[|g| - 1] == '0'
  {
    if |f| >= 2 && f[|f| - 2] == '0' {
      KeptZero(f[..|f| - 1]);
    }
  }

  lemma {:induction false} NoPointBefore(s: string, i: nat, k: nat)
    requires k <= i < |s| && s[k] != '.' && !IsDigit(s[k]) && forall j :: k < j <= i ==> IsDigit(s[j])
    ensures !PointBefore(s, i)
  {
    if i > k {
      NoPointBefore(s, i - 1, k);
    }
  }

  /** A text that ends in an exponent is left as it is, even if the exponent ends in zeros. */
  lemma TrimKeepsExponent(mantissa: string, sign: char, exponent: string)
    requires sign == '+' || sign == '-'
    requires AllDigits(exponent) && exponent != ""
    ensures var s := mantissa + "e" + [sign] + exponent; Trimmed(s) == s
  {
    var s := mantissa + "e" + [sign] + exponent;
    var p := |mantissa| + 1;
    assert s[p] == sign;
    forall j | p < j < |s| ensures s[j] == exponent[j - p - 1] {
    }
    if s[|s| - 1] == '0' {
      var k := LastNonZero(s, |s| - 1);
      assert p <= k;
      NoPointBefore(s, k, p);
    }
  }

  /** Trimming twice is trimming once, whatever the text. */
  lemma TrimIdempotent(s: string)
    ensures Trimmed(Trimmed(s)) == Trimmed(s)
  {
    var t := Trimmed(s);
    if t != s {
      var k := LastNonZero(s, |s| - 1);
      if k == 0 {
        assert s[0] == '.';
      }
      assert t == s[..k + 2] && t[k + 1] == '0';
      LastNonZeroIs(t, k + 1, k);
    }
  }

  /** Literals: one zero stays behind the point, and all stay that do not follow one. */
  lemma TrimLiterals()
    ensures Trimmed("1.500") == "1.50" && Trimmed("-2.00") == "-2.0" && Trimmed("100") == "100"
    ensures Trimmed("1.5e+20") == "1.5e+20"
  {
    ZerosOfFraction();
    ZerosOfWhole();
    TrimFixed(false, "1", "500");
    TrimFixed(true, "2", "00");
    TrimKeepsExponent("1.5", '+', "20");
    hide Trimmed, KeepOneZero;
    assert FixedText(false, "1", "500") == "1.500" && FixedText(true, "2", "00") == "-2.00";
    assert FixedText(false, "1", "50") == "1.50" && FixedText(true, "2", "0") == "-2.0";
    assert "1.5" + "e" + ['+'] + "20" == "1.5e+20";
  }

  lemma ZerosOfFraction()
    ensures KeepOneZero("500") == "50" && KeepOneZero("00") == "0"
  {
    assert "500"[..2] == "50" && KeepOneZero("500") == KeepOneZero("50") == "50";
    assert "00"[..1] == "0" && KeepOneZero("00") == KeepOneZero("0") == "0";
  }

  lemma ZerosOfWhole()
    ensures Trimmed("100") == "100"
  {
    var s := "100";
    assert s[2] == '0' && s[1] == '0' && s[0] == '1';
    LastNonZeroIs(s, 2, 0);
    assert !PointBefore(s, 0);
  }
}
