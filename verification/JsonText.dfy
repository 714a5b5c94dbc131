/**
 What the writers print for a value: the texts of the leaves, and the syntax tree of the whole.
 */
module JsonText {
  import opened CText
  import opened JsonValue
  import opened JsonNumber
  import opened JsonString
  import opened JsonSyntax
  import opened ZeroTrimming

  const DOUBLE_BUFFER_SIZE := 32

  /** `sprintf( buffer, "%#.16g", value )`, whose text fits the buffer and is one word. */
  type Format = f: Double -> string | FitsBuffer(f) witness d => "0.0"

  ghost predicate FitsBuffer(f: Double -> string) {
    forall d :: |f(d)| < DOUBLE_BUFFER_SIZE && IsWord(f(d))
  }

  /** Some characters, and no NUL and no space among them. */
  predicate IsWord(text: string) {
    text != "" && forall i :: 0 <= i < |text| ==> text[i] != '\0' && !IsSpace(text[i])
  }

  function RealText(format: Format, d: Double): string {
    Trimmed(format(d))
  }

  /** A double is printed as its own formatted text without the superfluous zeros of a fraction. */
  lemma RealTextOf(format: Format, d: Double, negative: bool, whole: string, fraction: string)
    requires AllDigits(whole) && AllDigits(fraction) && format(d) == FixedText(negative, whole, fraction)
    ensures RealText(format, d) == FixedText(negative, whole, KeepOneZero(fraction))
  {
    TrimFixed(negative, whole, fraction);
  }

  lemma RealTextOfExponent(format: Format, d: Double, mantissa: string, sign: char, exponent: string)
    requires (sign == '+' || sign == '-') && AllDigits(exponent) && exponent != ""
    requires format(d) == mantissa + "e" + [sign] + exponent
    ensures RealText(format, d) == format(d)
  {
    TrimKeepsExponent(mantissa, sign, exponent);
  }

  method ValueToStringDouble(format: Format, value: Double) returns (s: string)
    ensures s == RealText(format, value)
  {
    var buffer := new char[DOUBLE_BUFFER_SIZE];
    var text := format(value);
    Print(buffer, text);
    TrimZeros(buffer, |text|, text);
    ghost var trimmed := Trimmed(text);
    assert buffer[..][0..][..|trimmed| + 1] == trimmed + "\0";
    s := CStr(buffer[..]);
    HeldText(buffer, trimmed);
  }

  /** `sprintf` into the buffer. */
  method Print(buffer: array<char>, text: string)
    requires |text| < buffer.Length && '\0' !in text
    modifies buffer
    ensures Holds(buffer, text)
  {
    for i := 0 to |text|
      invariant buffer[..i] == text[..i]
    {
      buffer[i] := text[i];
    }
    buffer[|text|] := '\0';
  }

  lemma HeldText(buffer: array<char>, text: string)
    requires Holds(buffer, text)
    ensures CStr(buffer[..]) == text
  {
    assert buffer[..][..|text|] == text && buffer[..][|text|] == '\0';
  }

  /** The values that are printed in one piece: scalars, and empty arrays and objects. */
  predicate IsLeaf(v: Value) {
    (v.ArrayVal? ==> v.items == []) && (v.ObjectVal? ==> v.members == [])
  }

  function LeafText(format: Format, v: Value): string
    requires IsLeaf(v)
  {
    match v
    case NullVal => "null"
    case IntVal(i) => IntText(i as int)
    case UIntVal(u) => Decimal(u as nat)
    case RealVal(d) => RealText(format, d)
    case StringVal(s) => Quoted(s)
    case BoolVal(b) => if b then "true" else "false"
    case ArrayVal(_) => "[]"
    case ObjectVal(_) => "{}"
  }

  /** The text of a scalar; the writers share the branches that produce it. */
  method ScalarText(format: Format, v: Value) returns (text: string)
    requires !v.ArrayVal? && !v.ObjectVal?
    ensures text == LeafText(format, v)
  {
    match v {
      case NullVal => text := "null";
      case IntVal(i) => text := ValueToStringInt(i);
      case UIntVal(u) => text := ValueToStringUInt(u);
      case RealVal(d) => text := ValueToStringDouble(format, d);
      case StringVal(s) => text := ValueToQuotedString(s);
      case BoolVal(b) => text := if b then "true" else "false";
    }
  }

  // ----- the syntax tree of a value -----

  function SyntaxOf(format: Format, v: Value): Syntax
    decreases v, 1
  {
    match v
    case NullVal => NullText
    case IntVal(i) => NumberText(IntText(i as int))
    case UIntVal(u) => NumberText(Decimal(u as nat))
    case RealVal(d) => NumberText(RealText(format, d))
    case StringVal(s) => StringText(QuoteUnits(CStr(s)))
    case BoolVal(b) => if b then TrueText else FalseText
    case ArrayVal(items) => ArrayText(SyntaxItems(format, items))
    case ObjectVal(members) => ObjectText(SyntaxMembers(format, members))
  }

  function SyntaxItems(format: Format, items: seq<Value>): (r: seq<Syntax>)
    ensures |r| == |items|
    decreases items, 0
  {
    if items == [] then [] else [SyntaxOf(format, items[0])] + SyntaxItems(format, items[1..])
  }

  function SyntaxMembers(format: Format, members: seq<Member>): (r: seq<MemberText>)
    ensures |r| == |members|
    decreases members, 0
  {
    if members == [] then []
    else
      [MemberText(QuoteUnits(CStr(members[0].name)), SyntaxOf(format, members[0].value))]
      + SyntaxMembers(format, members[1..])
  }

  /** Every double in the tree is printed as a number token; `inf` and `nan` are not. */
  predicate Printable(format: Format, v: Value)
    decreases v, 1
  {
    match v
    case RealVal(d) => IsNumberToken(RealText(format, d))
    case ArrayVal(items) => PrintableItems(format, items)
    case ObjectVal(members) => PrintableMembers(format, members)
    case _ => true
  }

  predicate PrintableItems(format: Format, items: seq<Value>)
    decreases items, 0
  {
    items == [] || (Printable(format, items[0]) && PrintableItems(format, items[1..]))
  }

  predicate PrintableMembers(format: Format, members: seq<Member>)
    decreases members, 0
  {
    members == [] || (Printable(format, members[0].value) && PrintableMembers(format, members[1..]))
  }

  lemma {:induction false} SyntaxIsValid(format: Format, v: Value)
    requires Printable(format, v)
    ensures ValidSyntax(SyntaxOf(format, v))
    decreases v, 1
  {
    match v
    case IntVal(i) => IntRoundTrip(_ => None, i);
    case UIntVal(u) => DecimalIsNumberToken(u as nat);
    case StringVal(s) => QuoteUnitsMean(CStr(s));
    case ArrayVal(items) => ItemsAreValid(format, items);
    case ObjectVal(members) => MembersAreValid(format, members);
    case _ =>
  }

  lemma {:induction false} ItemsAreValid(format: Format, items: seq<Value>)
    requires PrintableItems(format, items)
    ensures ValidItems(SyntaxItems(format, items))
    decreases items, 0
  {
    if items != [] {
      SyntaxIsValid(format, items[0]);
      ItemsAreValid(format, items[1..]);
      assert SyntaxItems(format, items)[1..] == SyntaxItems(format, items[1..]);
    }
  }

  lemma {:induction false} MembersAreValid(format: Format, members: seq<Member>)
    requires PrintableMembers(format, members)
    ensures ValidMembers(SyntaxMembers(format, members))
    decreases members, 0
  {
    if members != [] {
      QuoteUnitsMean(CStr(members[0].name));
      SyntaxIsValid(format, members[0].value);
      MembersAreValid(format, members[1..]);
      assert SyntaxMembers(format, members)[1..] == SyntaxMembers(format, members[1..]);
    }
  }

  // ----- the meaning of what is printed -----

  /** Every double in the tree is printed so that reading its text gives the same double. */
  predicate Faithful(scan: Scan, format: Format, v: Value)
    decreases v, 1
  {
    match v
    case RealVal(d) =>
      IsNumberToken(RealText(format, d)) && NumberMeaning(scan, RealText(format, d)) == Some(v)
    case ArrayVal(items) => FaithfulItems(scan, format, items)
    case ObjectVal(members) => FaithfulMembers(scan, format, members)
    case _ => true
  }

  predicate FaithfulItems(scan: Scan, format: Format, items: seq<Value>)
    decreases items, 0
  {
    items == [] || (Faithful(scan, format, items[0]) && FaithfulItems(scan, format, items[1..]))
  }

  predicate FaithfulMembers(scan: Scan, format: Format, members: seq<Member>)
    decreases members, 0
  {
    members == [] || (Faithful(scan, format, members[0].value) && FaithfulMembers(scan, format, members[1..]))
  }

  lemma {:induction false} FaithfulIsPrintable(scan: Scan, format: Format, v: Value)
    requires Faithful(scan, format, v)
    ensures Printable(format, v)
    decreases v, 1
  {
    match v
    case ArrayVal(items) => FaithfulItemsPrintable(scan, format, items);
    case ObjectVal(members) => FaithfulMembersPrintable(scan, format, members);
    case _ =>
  }

  lemma {:induction false} FaithfulItemsPrintable(scan: Scan, format: Format, items: seq<Value>)
    requires FaithfulItems(scan, format, items)
    ensures PrintableItems(format, items)
    decreases items, 0
  {
    if items != [] {
      FaithfulIsPrintable(scan, format, items[0]);
      FaithfulItemsPrintable(scan, format, items[1..]);
    }
  }

  lemma {:induction false} FaithfulMembersPrintable(scan: Scan, format: Format, members: seq<Member>)
    requires FaithfulMembers(scan, format, members)
    ensures PrintableMembers(format, members)
    decreases members, 0
  {
    if members != [] {
      FaithfulIsPrintable(scan, format, members[0].value);
      FaithfulMembersPrintable(scan, format, members[1..]);
    }
  }

  /** A printed tree means the tree it was printed from, under the reader's number tags. */
  lemma {:induction false} SyntaxMeans(scan: Scan, format: Format, v: Value)
    requires WellFormed(v) && Faithful(scan, format, v) && ValidSyntax(SyntaxOf(format, v))
    ensures Meaning(scan, SyntaxOf(format, v)) == Some(Canon(v))
    decreases v, 1
  {
    match v
    case IntVal(i) => IntRoundTrip(scan, i);
    case UIntVal(u) => UIntRoundTrip(scan, u);
    case StringVal(s) => QuoteUnitsMean(CStr(s));
    case ArrayVal(items) => ItemsMean(scan, format, items);
    case ObjectVal(members) =>
      MembersMean(scan, format, members, []);
      assert [] + CanonMembers(members) == CanonMembers(members);
    case _ =>
  }

  lemma {:induction false} ItemsMean(scan: Scan, format: Format, items: seq<Value>)
    requires WellFormedItems(items) && FaithfulItems(scan, format, items) && ValidItems(SyntaxItems(format, items))
    ensures ItemsMeaning(scan, SyntaxItems(format, items)) == Some(CanonItems(items))
    decreases items, 0
  {
    if items != [] {
      assert SyntaxItems(format, items)[1..] == SyntaxItems(format, items[1..]);
      SyntaxMeans(scan, format, items[0]);
      ItemsMean(scan, format, items[1..]);
    }
  }

  lemma CanonCons(stored: seq<Member>, members: seq<Member>)
    requires members != []
    ensures stored + [Member(members[0].name, Canon(members[0].value))] + CanonMembers(members[1..])
            == stored + CanonMembers(members)
  {
  }

  predicate Precede(stored: seq<Member>, members: seq<Member>) {
    forall i, j :: 0 <= i < |stored| && 0 <= j < |members| ==> Less(stored[i].name, members[j].name)
  }

  lemma PrecedeStep(stored: seq<Member>, members: seq<Member>, value: Value)
    requires members != [] && Sorted(members) && Precede(stored, members)
    ensures Sorted(members[1..]) && Precede(stored + [Member(members[0].name, value)], members[1..])
  {
  }

  /** Names come in increasing order, so each member is stored at the end and overwrites none. */
  lemma {:induction false} MembersMean(scan: Scan, format: Format, members: seq<Member>, stored: seq<Member>)
    requires Sorted(members) && WellFormedMembers(members)
    requires FaithfulMembers(scan, format, members) && ValidMembers(SyntaxMembers(format, members))
    requires Precede(stored, members)
    ensures MembersMeaning(scan, SyntaxMembers(format, members), stored) == Some(stored + CanonMembers(members))
    decreases members, 0, 1
  {
    if members == [] {
      assert stored + [] == stored;
    } else {
      var rest, read := members[1..], stored + [Member(members[0].name, Canon(members[0].value))];
      MembersMeanStep(scan, format, members, stored);
      PrecedeStep(stored, members, Canon(members[0].value));
      MembersMean(scan, format, rest, read);
      CanonCons(stored, members);
    }
  }

  lemma {:induction false} MembersMeanStep(scan: Scan, format: Format, members: seq<Member>, stored: seq<Member>)
    requires members != [] && WellFormedMembers(members)
    requires FaithfulMembers(scan, format, members) && ValidMembers(SyntaxMembers(format, members))
    requires Precede(stored, members)
    ensures ValidMembers(SyntaxMembers(format, members[1..]))
    ensures MembersMeaning(scan, SyntaxMembers(format, members), stored)
            == MembersMeaning(scan, SyntaxMembers(format, members[1..]),
                              stored + [Member(members[0].name, Canon(members[0].value))])
    decreases members, 0, 0
  {
    var m, syntax := members[0], SyntaxMembers(format, members);
    assert syntax[1..] == SyntaxMembers(format, members[1..]);
    SyntaxMeans(scan, format, m.value);
    QuoteUnitsMean(m.name);
    assert UnitsMeaning(syntax[0].name) == Some(m.name) && CStr(m.name) == m.name;
    PutAppends(stored, m.name, Canon(m.value));
    MembersMeaningStep(scan, syntax, stored);
  }
}
