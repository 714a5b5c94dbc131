/**
 Dates as text: day, month and, unless it is zero, year, with dots between.
 */
module DateWrapper {
  import opened CText
  import opened JsonNumber
  import opened TextHelpers

  newtype Int32 = i: int | -0x8000_0000 <= i < 0x8000_0000

  // ----- numbers -----

  predicate IsCSpace(c: char) {
    c == ' ' || '\U{09}' <= c <= '\U{0D}'
  }

  function SkipSpaces(s: string): string {
    if s != "" && IsCSpace(s[0]) then SkipSpaces(s[1..]) else s
  }

  function LeadingDigits(s: string): (d: string)
    ensures d <= s && AllDigits(d)
  {
    if s != "" && IsDigit(s[0]) then
      var d := [s[0]] + LeadingDigits(s[1..]);
      assert forall i :: 0 < i < |d| ==> d[i] == LeadingDigits(s[1..])[i - 1];
      d
    else ""
  }

  /** `stoi`: no value where it throws, for want of digits or because the number does not fit. */
  function Stoi(s: string): Option<Int32> {
    var text := SkipSpaces(s);
    var negative := text != "" && text[0] == '-';
    var digits := LeadingDigits(if negative || (text != "" && text[0] == '+') then text[1..] else text);
    var magnitude: int := DigitsValue(digits);
    var value := if negative then -magnitude else magnitude;
    if digits == "" || !(-0x8000_0000 <= value < 0x8000_0000) then None else Some(value as Int32)
  }

  /** `to_string`. */
  function ToText(value: Int32): (s: string)
    ensures s != ""
  {
    IntText(value as int)
  }

  lemma StoiOfText(value: Int32)
    ensures Stoi(ToText(value)) == Some(value) && '.' !in ToText(value)
  {
    var digits := Decimal(if value < 0 then -(value as int) else value as int);
    DecimalDenotes(if value < 0 then -(value as int) else value as int);
    var sign := if value < 0 then "-" else "";
    assert ToText(value) == sign + digits && sign + digits == "" + (sign + (digits + ""));
    hide Stoi, ToText, Decimal, DigitsValue;
    StoiReads("", sign, digits, "");
    NoDots(digits);
  }

  lemma NoDots(digits: string)
    requires AllDigits(digits)
    ensures '.' !in digits && '.' !in "-" + digits
  {
    assert forall c :: c in digits ==> IsDigit(c);
  }

  // ----- dates -----

  datatype Date = Date(day: Int32, month: Int32, year: Int32)

  /** What `stoi` makes of each part. */
  function Numbers(parts: seq<string>): seq<Option<Int32>> {
    seq(|parts|, i requires 0 <= i < |parts| => Stoi(parts[i]))
  }

  /** How many are numbers from `i` on, up to the first that is none; `i` counts those before. */
  function GoodNumbers(numbers: seq<Option<Int32>>, i: nat := 0): (n: nat)
    requires i <= |numbers|
    ensures i <= n <= |numbers|
    ensures forall j :: i <= j < n ==> numbers[j].Some?
    ensures n < |numbers| ==> numbers[n].None?
    decreases |numbers| - i
  {
    if i == |numbers| || numbers[i].None? then i else GoodNumbers(numbers, i + 1)
  }

  /** How many parts are read before one makes `stoi` throw. */
  function GoodParts(parts: seq<string>): (n: nat)
    ensures n <= |parts|
  {
    GoodNumbers(Numbers(parts))
  }

  /** Each field is that of its part, if it was reached. */
  function DateOf(old': Date, parts: seq<string>): Date {
    var numbers := Numbers(parts);
    var n := GoodNumbers(numbers);
    Date(if n > 0 then numbers[0].value else old'.day,
         if n > 1 then numbers[1].value else old'.month,
         if n > 2 then numbers[2].value else old'.year)
  }

  function DateText(date: Date): string {
    if date == Date(0, 0, 0) then ""
    else if date.year == 0 then Joined([ToText(date.day), ToText(date.month)], ".")
    else Joined([ToText(date.day), ToText(date.month), ToText(date.year)], ".")
  }

  lemma JoinedParts(a: string, b: string, c: string)
    ensures Joined([a, b], ".") == a + "." + b && Joined([a, b, c], ".") == a + "." + b + "." + c
  {
    JoinedFirst(b, [c], ".");
    JoinedFirst(a, [b], ".");
    JoinedFirst(a, [b, c], ".");
    assert [a] + [b] == [a, b] && [b] + [c] == [b, c] && [a] + [b, c] == [a, b, c];
    assert a + "." + (b + "." + c) == a + "." + b + "." + c;
  }

  class DateWrapper {
    var day: Int32
    var month: Int32
    var year: Int32

    ghost function View(): Date
      reads this
    {
      Date(day, month, year)
    }

    constructor (day: Int32 := 0, month: Int32 := 0, year: Int32 := 0)
      ensures View() == Date(day, month, year)
    {
      this.day, this.month, this.year := day, month, year;
    }

    /** Whether no part made `stoi` throw; the parts before that one have been stored. */
    method FromString(text: string) returns (ok: bool)
      modifies this
      ensures View() == DateOf(old(View()), Pieces(text, '.'))
      ensures ok == (GoodParts(Pieces(text, '.')) == |Pieces(text, '.')|)
    {
      hide Stoi, GoodNumbers, Pieces;
      var parts := SeparateString(text, '.');
      ghost var numbers := Numbers(parts);
      var counter := 0;
      while counter < |parts|
        invariant counter <= GoodNumbers(numbers)
        invariant day == if counter > 0 then numbers[0].value else old(day)
        invariant month == if counter > 1 then numbers[1].value else old(month)
        invariant year == if counter > 2 then numbers[2].value else old(year)
      {
        var value := Stoi(parts[counter]);
        assert numbers[counter] == value;
        if value.None? {
          return false;
        }
        match counter {
          case 0 => day := value.value;
          case 1 => month := value.value;
          case 2 => year := value.value;
          case _ =>
        }
        counter := counter + 1;
      }
      ok := true;
    }

    method ToString() returns (result: string)
      ensures result == DateText(View())
    {
      if day == 0 && month == 0 && year == 0 {
        return "";
      }
      hide ToText;
      result := ToText(day) + "." + ToText(month);
      if year != 0 {
        result := result + "." + ToText(year);
      }
      JoinedParts(ToText(day), ToText(month), ToText(year));
    }
  }

  /**
   The text of a date is read without throwing, and restores the date exactly if it names every field that
   differs: the fields it does not name keep what the object held before.
   */
  lemma DateRoundTrip(old': Date, date: Date)
    ensures var parts := Pieces(DateText(date), '.');
            && GoodParts(parts) == |parts|
            && (DateOf(old', parts) == date <==>
                  (date.year != 0 || old'.year == 0) && (date == Date(0, 0, 0) ==> old' == date))
  {
    StoiOfText(date.day);
    StoiOfText(date.month);
    StoiOfText(date.year);
    var parts := if date == Date(0, 0, 0) then []
                 else if date.year == 0 then [ToText(date.day), ToText(date.month)]
                 else [ToText(date.day), ToText(date.month), ToText(date.year)];
    hide Stoi, ToText;
    PiecesOfJoined(parts, '.');
  }

  /** So a new date is restored from every text. */
  lemma NewDateRoundTrip(date: Date)
    ensures DateOf(Date(0, 0, 0), Pieces(DateText(date), '.')) == date
  {
    hide DateOf, Pieces, DateText;
    DateRoundTrip(Date(0, 0, 0), date);
  }

  // ----- literals -----

  /** A number is read behind spaces and a sign, up to the first character that is no digit. */
  lemma StoiReads(spaces: string, sign: string, digits: string, rest: string)
    requires (forall c :: c in spaces ==> c in " \t\n\r\U{0B}\U{0C}") && (sign == "" || sign == "+" || sign == "-")
    requires digits != "" && AllDigits(digits) && (rest == "" || !IsDigit(rest[0]))
    ensures var value: int := if sign == "-" then 0 - DigitsValue(digits) else DigitsValue(digits);
            Stoi(spaces + (sign + (digits + rest)))
            == if -2147483648 <= value <= 2147483647 then Some(value as Int32) else None
  {
    hide Stoi, DigitsValue, LeadingDigits, SkipSpaces, AllDigits;
    var text := sign + (digits + rest);
    WordBegins(sign, digits, rest);
    AreCSpaces(spaces);
    SpacesSkipped(spaces, text);
    DigitsRead(digits, rest);
    StoiFrom(spaces + text, text, digits);
  }

  lemma AreCSpaces(spaces: string)
    requires forall c :: c in spaces ==> c in " \t\n\r\U{0B}\U{0C}"
    ensures forall c :: c in spaces ==> IsCSpace(c)
  {
    forall c | c in spaces ensures IsCSpace(c) {
      assert c in " \t\n\r\U{0B}\U{0C}";
    }
  }

  /** The text behind the sign, if there is one. */
  function BehindSign(text: string): string {
    if text != "" && (text[0] == '-' || text[0] == '+') then text[1..] else text
  }

  lemma WordBegins(sign: string, digits: string, rest: string)
    requires digits != "" && AllDigits(digits) && (sign == "" || sign == "+" || sign == "-")
    ensures var text := sign + (digits + rest);
            && text != "" && !IsCSpace(text[0]) && (text[0] == '-' <==> sign == "-")
            && BehindSign(text) == digits + rest
  {
    var text := sign + (digits + rest);
    if sign == "" {
      assert text == digits + rest && IsDigit(text[0]);
    } else {
      assert text[1..] == digits + rest;
    }
  }

  lemma StoiFrom(s: string, text: string, digits: string)
    requires SkipSpaces(s) == text && text != "" && LeadingDigits(BehindSign(text)) == digits != ""
    ensures var value: int := if text[0] == '-' then 0 - DigitsValue(digits) else DigitsValue(digits);
            Stoi(s) == if -2147483648 <= value <= 2147483647 then Some(value as Int32) else None
  {
    hide DigitsValue, LeadingDigits, SkipSpaces;
  }

  lemma {:induction false} SpacesSkipped(spaces: string, text: string)
    requires (forall c :: c in spaces ==> IsCSpace(c)) && text != "" && !IsCSpace(text[0])
    ensures SkipSpaces(spaces + text) == text
  {
    if spaces == "" {
      assert spaces + text == text;
    } else {
      SpacesSkipped(spaces[1..], text);
      assert (spaces + text)[1..] == spaces[1..] + text;
    }
  }

  lemma {:induction false} DigitsRead(digits: string, rest: string)
    requires AllDigits(digits) && (rest == "" || !IsDigit(rest[0]))
    ensures LeadingDigits(digits + rest) == digits
  {
    if digits == "" {
      assert digits + rest == rest;
    } else {
      assert AllDigits(digits[1..]);
      DigitsRead(digits[1..], rest);
      assert (digits + rest)[1..] == digits[1..] + rest;
    }
  }

  /** The day comes first, then the month, then the year. */
  lemma PartsInOrder(date: Date, old': Date)
    requires date.year != 0
    ensures DateText(date) == ToText(date.day) + "." + ToText(date.month) + "." + ToText(date.year)
    ensures DateOf(old', [ToText(date.day), ToText(date.month), ToText(date.year)]) == date
  {
    JoinedParts(ToText(date.day), ToText(date.month), ToText(date.year));
    StoiOfText(date.day);
    StoiOfText(date.month);
    StoiOfText(date.year);
    hide Stoi, ToText, Joined;
  }
}
