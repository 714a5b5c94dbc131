/**
 The layout of the pretty printer: which lines a document has, and how far each is indented.

 The writer looks at the last character of what it has written to decide about a new line. Its text turns out
 to be a plain function of the value and the depth.
 */
module JsonPretty {
  import opened CText
  import opened JsonValue
  import opened JsonNumber
  import opened JsonString
  import opened JsonText
  import opened JsonGrammar
  import opened JsonStyledWriter
  import opened JsonEscapes
  import opened TextHelpers

  // ----- the layout -----

  function Spaces(n: nat): (s: string)
    ensures |s| == n && forall i :: 0 <= i < n ==> s[i] == ' '
  {
    seq(n, _ => ' ')
  }

  /** A new line at this depth: three spaces to a level. */
  function NewLine(depth: nat): string {
    "\n" + Spaces(3 * depth)
  }

  /** The texts of leaves. */
  function Leaves(format: Format, items: seq<Value>): (texts: seq<string>)
    requires forall i :: 0 <= i < |items| ==> IsLeaf(items[i])
    ensures |texts| == |items| && forall i :: 0 <= i < |items| ==> texts[i] == LeafText(format, items[i])
  {
    seq(|items|, i requires 0 <= i < |items| => LeafText(format, items[i]))
  }

  function Line(format: Format, items: seq<Value>): string
    requires forall i :: 0 <= i < |items| ==> IsLeaf(items[i])
  {
    "[ " + Joined(Leaves(format, items), ", ") + " ]"
  }

  /** An array stands on one line if it holds leaves only and the line stays under 74 columns. */
  predicate OnOneLine(format: Format, items: seq<Value>) {
    (forall i :: 0 <= i < |items| ==> IsLeaf(items[i])) && |Line(format, items)| < 74
  }

  function Pretty(format: Format, depth: nat, v: Value): string
    decreases v, 1
  {
    if IsLeaf(v) then LeafText(format, v)
    else if v.ObjectVal? then "{" + PrettyMembers(format, depth, v.members) + NewLine(depth) + "}"
    else if OnOneLine(format, v.items) then Line(format, v.items)
    else "[" + PrettyItems(format, depth, v.items) + NewLine(depth) + "]"
  }

  /** The items of an array at this depth, each on a line of its own. */
  function PrettyItems(format: Format, depth: nat, items: seq<Value>): string
    requires items != []
    decreases items, 0
  {
    NewLine(depth + 1) + Pretty(format, depth + 1, items[0])
    + if |items| == 1 then "" else "," + PrettyItems(format, depth, items[1..])
  }

  function PrettyMember(format: Format, depth: nat, m: Member): string
    decreases m, 2
  {
    Quoted(m.name) + " : " + Pretty(format, depth, m.value)
  }

  function PrettyMembers(format: Format, depth: nat, members: seq<Member>): string
    requires members != []
    decreases members, 0
  {
    NewLine(depth + 1) + PrettyMember(format, depth + 1, members[0])
    + if |members| == 1 then "" else "," + PrettyMembers(format, depth, members[1..])
  }

  // ----- words -----

  predicate HasNoNewLine(s: string) {
    forall i :: 0 <= i < |s| ==> s[i] != '\n'
  }

  /** Text on which the writer goes on in the same line: it ends neither in a space nor in a new line. */
  predicate EndsInWord(s: string) {
    s != "" && s[|s| - 1] != ' ' && s[|s| - 1] != '\n'
  }

  lemma RealIsWord(format: Format, d: Double)
    ensures IsWord(RealText(format, d))
  {
    var text := format(d);
    assert IsWord(text);
    assert RealText(format, d) <= text && RealText(format, d) != "";
    hide RealText;
    forall i | 0 <= i < |RealText(format, d)|
      ensures RealText(format, d)[i] != '\0' && !IsSpace(RealText(format, d)[i])
    {
      assert RealText(format, d)[i] == text[i];
    }
  }

  lemma {:induction false} UnitsHaveNoNewLine(us: seq<Unit>)
    requires forall i :: 0 <= i < |us| ==> IsRfcUnit(us[i])
    ensures HasNoNewLine(UnitsText(us))
  {
    if us != [] {
      UnitsHaveNoNewLine(us[1..]);
      UnitHasNoNewLine(us[0]);
    }
  }

  lemma UnitHasNoNewLine(u: Unit)
    requires IsRfcUnit(u)
    ensures HasNoNewLine(UnitText(u))
  {
    var text := UnitText(u);
    if u.Hex? {
      forall i | 0 <= i < |text| ensures text[i] != '\n' {
        assert i >= 2 ==> text[i] == u.digits[i - 2];
      }
    }
  }

  lemma QuotedHasNoNewLine(s: string)
    ensures HasNoNewLine(Quoted(s)) && EndsInWord(Quoted(s))
  {
    QuotedIsRfc(CStr(s));
    UnitsHaveNoNewLine(QuoteUnits(CStr(s)));
    hide QuoteUnits, UnitsText, CStr;
  }

  lemma LeafHasNoNewLine(format: Format, v: Value)
    requires IsLeaf(v)
    ensures HasNoNewLine(LeafText(format, v)) && EndsInWord(LeafText(format, v))
  {
    hide RealText, Quoted, Decimal, IsWord;
    match v
    case StringVal(s) => QuotedHasNoNewLine(s);
    case RealVal(d) =>
      RealIsWord(format, d);
      WordHasNoNewLine(RealText(format, d));
    case IntVal(i) => DigitsHaveNoNewLine(Decimal(if i < 0 then -(i as int) else i as int));
    case UIntVal(u) => DigitsHaveNoNewLine(Decimal(u as nat));
    case _ =>
  }

  lemma WordHasNoNewLine(text: string)
    requires IsWord(text)
    ensures HasNoNewLine(text) && EndsInWord(text)
  {
  }

  lemma DigitsHaveNoNewLine(digits: string)
    requires AllDigits(digits) && digits != ""
    ensures HasNoNewLine(digits) && EndsInWord(digits)
  {
  }

  // ----- one line -----

  lemma {:induction false} OneLineIsJoined(format: Format, items: seq<Value>)
    requires items != [] && forall i :: 0 <= i < |items| ==> IsLeaf(items[i])
    ensures OneLine(format, items) == Joined(Leaves(format, items), ", ") + " ]"
    decreases |items|
  {
    hide LeafText, IsLeaf, Joined;
    var texts, rest := Leaves(format, items), Leaves(format, items[1..]);
    assert texts == [texts[0]] + rest;
    JoinedFirst(texts[0], rest, ", ");
    if |items| > 1 {
      OneLineIsJoined(format, items[1..]);
      Associative(texts[0] + ", ", Joined(rest, ", "), " ]");
      Associative(texts[0], ", ", OneLine(format, items[1..]));
    }
  }

  lemma {:induction false} JoinedLength(format: Format, items: seq<Value>, n: nat)
    requires n <= |items| && forall i :: 0 <= i < |items| ==> IsLeaf(items[i])
    ensures |Joined(Leaves(format, items[n..]), ", ")|
            == (if n == |items| then 0 else 2 * (|items| - n - 1))
               + TextLengths(format, items, |items|) - TextLengths(format, items, n)
    decreases |items| - n
  {
    hide LeafText, IsLeaf, Joined;
    var texts := Leaves(format, items[n..]);
    if n == |items| {
      assert Joined([], ", ") == "" by { JoinedNothing(); }
    } else {
      JoinedLength(format, items, n + 1);
      assert texts == [texts[0]] + Leaves(format, items[n + 1..]);
      JoinedFirst(texts[0], Leaves(format, items[n + 1..]), ", ");
    }
  }

  lemma JoinedNothing()
    ensures Joined([], ", ") == ""
  {
  }

  lemma {:induction false} LengthsAtLeast(format: Format, items: seq<Value>, n: nat)
    requires n <= |items| && forall i :: 0 <= i < |items| ==> IsLeaf(items[i])
    ensures TextLengths(format, items, n) >= n
  {
    hide LeafText, IsLeaf;
    if n > 0 {
      LengthsAtLeast(format, items, n - 1);
      LeafHasNoNewLine(format, items[n - 1]);
    }
  }

  /** The width the writer computes is that of the line, and its first test of the size decides nothing. */
  lemma FitsIsOnOneLine(format: Format, items: seq<Value>)
    requires items != []
    ensures FitsOneLine(format, items) <==> OnOneLine(format, items)
  {
    hide LeafText, IsLeaf, Joined;
    if forall i :: 0 <= i < |items| ==> IsLeaf(items[i]) {
      assert items[0..] == items;
      JoinedLength(format, items, 0);
      LengthsAtLeast(format, items, |items|);
      assert LineLength(format, items) == |Line(format, items)|;
    }
  }

  // ----- the written text is the layout -----

  lemma {:induction false} PrettyEnds(format: Format, depth: nat, v: Value)
    ensures EndsInWord(Pretty(format, depth, v))
  {
    hide LeafText, PrettyMembers, PrettyItems, Joined;
    if IsLeaf(v) {
      LeafHasNoNewLine(format, v);
    }
  }

  /** Behind a word, the writer begins a new line; at a deeper level it then ends in a space. */
  lemma NewLineBehind(d: string, depth: nat)
    requires EndsInWord(d)
    ensures OnNewLine(d, Spaces(3 * depth)) == d + NewLine(depth)
    ensures depth > 0 ==> OnNewLine(d, Spaces(3 * depth))[|d| + 3 * depth] == ' '
  {
  }

  /** Where nothing or a space has been written, the writer stays. */
  predicate Stays(d: string, depth: nat) {
    if d == "" then depth == 0 else d[|d| - 1] == ' '
  }

  lemma Deeper(depth: nat)
    ensures Spaces(3 * depth) + INDENT == Spaces(3 * (depth + 1))
  {
  }

  lemma {:induction false} StyledIsPretty(format: Format, d: string, depth: nat, v: Value)
    requires Stays(d, depth)
    ensures Styled(format, d, Spaces(3 * depth), v) == d + Pretty(format, depth, v)
    decreases v, 1
  {
    hide LeafText, Spaces, EndsInWord;
    var indent := Spaces(3 * depth);
    if !IsLeaf(v) {
      assert OnNewLine(d, indent) == d by { StaysHere(d, depth); }
      hide OnNewLine;
      if v.ObjectVal? {
        WordAppended(d, "{");
        MembersArePretty(format, d + "{", depth, v.members);
        Regroup(d, "{", PrettyMembers(format, depth, v.members), NewLine(depth), "}");
      } else {
        FitsIsOnOneLine(format, v.items);
        if OnOneLine(format, v.items) {
          OneLineIsJoined(format, v.items);
          Associative("[ ", Joined(Leaves(format, v.items), ", "), " ]");
          Associative(d, "[ ", OneLine(format, v.items));
        } else {
          WordAppended(d, "[");
          ItemsArePretty(format, d + "[", depth, v.items);
          Regroup(d, "[", PrettyItems(format, depth, v.items), NewLine(depth), "]");
        }
      }
    }
  }

  lemma StaysHere(d: string, depth: nat)
    requires Stays(d, depth)
    ensures OnNewLine(d, Spaces(3 * depth)) == d
  {
  }

  lemma WordAppended(d: string, s: string)
    requires EndsInWord(s)
    ensures EndsInWord(d + s)
  {
  }

  lemma Regroup(a: string, b: string, c: string, d: string, e: string)
    ensures (a + b) + c + d + e == a + (b + c + d + e)
  {
  }

  lemma {:induction false} ItemsArePretty(format: Format, d: string, depth: nat, items: seq<Value>)
    requires items != [] && EndsInWord(d)
    ensures StyledItems(format, d, Spaces(3 * depth), items)
            == d + PrettyItems(format, depth, items) + NewLine(depth) + "]"
    decreases items, 0
  {
    hide Styled, Pretty, OnNewLine, EndsInWord, Spaces, NewLine;
    var d0, item := d + NewLine(depth + 1), Pretty(format, depth + 1, items[0]);
    NewLineBehind(d, depth + 1);
    Deeper(depth);
    BehindNewLine(d, depth + 1);
    StyledIsPretty(format, d0, depth + 1, items[0]);
    PrettyEnds(format, depth + 1, items[0]);
    WordAppended(d0, item);
    NewLineBehind(d0 + item, depth);
    if |items| > 1 {
      CommaAppended(d0 + item);
      ItemsArePretty(format, d0 + item + ",", depth, items[1..]);
      RegroupList(d, NewLine(depth + 1), item, PrettyItems(format, depth, items[1..]));
    } else {
      RegroupLast(d, NewLine(depth + 1), item);
    }
  }

  lemma BehindNewLine(d: string, depth: nat)
    requires depth > 0
    ensures Stays(d + NewLine(depth), depth)
  {
  }

  lemma CommaAppended(d: string)
    ensures EndsInWord(d + ",")
  {
  }

  lemma RegroupList(d: string, line: string, item: string, rest: string)
    ensures d + line + item + "," + rest == d + (line + item + ("," + rest))
  {
  }

  lemma RegroupLast(d: string, line: string, item: string)
    ensures d + line + item == d + (line + item + "")
  {
  }

  lemma {:induction false} MembersArePretty(format: Format, d: string, depth: nat, members: seq<Member>)
    requires members != [] && EndsInWord(d)
    ensures StyledMembers(format, d, Spaces(3 * depth), members)
            == d + PrettyMembers(format, depth, members) + NewLine(depth) + "}"
    decreases members, 0
  {
    hide Styled, Pretty, OnNewLine, EndsInWord, Spaces, NewLine, Quoted;
    var m := members[0];
    var d0, value := d + NewLine(depth + 1) + Quoted(m.name) + " : ", Pretty(format, depth + 1, m.value);
    NewLineBehind(d, depth + 1);
    Deeper(depth);
    BehindColon(d + NewLine(depth + 1) + Quoted(m.name), depth + 1);
    StyledIsPretty(format, d0, depth + 1, m.value);
    PrettyEnds(format, depth + 1, m.value);
    WordAppended(d0, value);
    NewLineBehind(d0 + value, depth);
    RegroupMember(d, NewLine(depth + 1), Quoted(m.name), value);
    if |members| > 1 {
      CommaAppended(d0 + value);
      MembersArePretty(format, d0 + value + ",", depth, members[1..]);
      RegroupList(d, NewLine(depth + 1), PrettyMember(format, depth + 1, m),
                  PrettyMembers(format, depth, members[1..]));
    } else {
      RegroupLast(d, NewLine(depth + 1), PrettyMember(format, depth + 1, m));
    }
  }

  lemma BehindColon(d: string, depth: nat)
    ensures Stays(d + " : ", depth)
  {
  }

  lemma RegroupMember(d: string, line: string, name: string, value: string)
    ensures d + line + name + " : " + value == d + line + (name + " : " + value)
  {
  }

  /** What is written for a whole document. */
  lemma DocumentIsPretty(format: Format, root: Value)
    ensures Styled(format, "", "", root) == Pretty(format, 0, root)
  {
    assert Spaces(3 * 0) == "";
    hide Styled, Pretty;
    StyledIsPretty(format, "", 0, root);
    assert "" + Pretty(format, 0, root) == Pretty(format, 0, root);
  }

  // ----- where the lines are -----

  /** At `s` begins the text of a line that is indented to this depth exactly. */
  predicate BeginsLine(doc: string, s: nat, depth: nat) {
    && 3 * depth < s < |doc| && doc[s - 3 * depth - 1] == '\n'
    && (forall j :: s - 3 * depth <= j < s ==> doc[j] == ' ') && doc[s] != ' '
  }

  predicate BeginsInWord(s: string) {
    s != "" && s[0] != ' '
  }

  lemma LineBegins(doc: string, p: nat, depth: nat, text: string)
    requires StartsAt(doc, p, NewLine(depth) + text) && BeginsInWord(text)
    ensures var s := p + 3 * depth + 1; BeginsLine(doc, s, depth) && StartsAt(doc, s, text)
  {
    var all := NewLine(depth) + text;
    forall j | 0 <= j < |all| ensures doc[p + j] == all[j] {
      StartsAtIndex(doc, p, all, j);
    }
    StartsAtConcat(doc, p, NewLine(depth), text);
    forall j | p + 1 <= j < p + 3 * depth + 1 ensures doc[j] == ' ' {
      assert doc[p + (j - p)] == all[j - p];
    }
    assert doc[p + 0] == all[0] && doc[p + (3 * depth + 1)] == all[3 * depth + 1] == text[0];
  }

  lemma LeafBegins(format: Format, v: Value)
    requires IsLeaf(v)
    ensures BeginsInWord(LeafText(format, v))
  {
    hide RealText, Decimal, IsWord;
    match v
    case StringVal(s) => assert Quoted(s)[0] == '"';
    case RealVal(d) =>
      RealIsWord(format, d);
      WordBegins(RealText(format, d));
    case _ =>
  }

  lemma WordBegins(text: string)
    requires IsWord(text)
    ensures BeginsInWord(text)
  {
  }

  lemma PrettyBegins(format: Format, depth: nat, v: Value)
    ensures BeginsInWord(Pretty(format, depth, v))
    ensures !IsLeaf(v) ==> Pretty(format, depth, v)[0] == if v.ObjectVal? then '{' else '['
  {
    hide LeafText, PrettyMembers, PrettyItems, Joined;
    if IsLeaf(v) {
      LeafBegins(format, v);
    }
  }

  /** From `s` to `e` stands `text`, on a line of its own at this depth and with `behind` behind it. */
  predicate OnItsLine(doc: string, s: nat, depth: nat, text: string, behind: char) {
    BeginsLine(doc, s, depth) && StartsAt(doc, s, text) && At(doc, s + |text|) == behind
  }

  /** Somewhere behind `p` it does. */
  ghost predicate HasLine(doc: string, p: nat, depth: nat, text: string, behind: char) {
    exists s :: p < s && OnItsLine(doc, s, depth, text, behind)
  }

  /** Behind every item stands a comma, behind the last one the next line. */
  function Mark(i: nat, n: nat): char {
    if i + 1 < n then ',' else '\n'
  }

  lemma {:induction false} ItemsOnLines(format: Format, doc: string, p: nat, depth: nat, items: seq<Value>, i: nat)
    returns (s: nat)
    requires i < |items| && StartsAt(doc, p, PrettyItems(format, depth, items))
    requires At(doc, p + |PrettyItems(format, depth, items)|) == '\n'
    ensures OnItsLine(doc, s, depth + 1, Pretty(format, depth + 1, items[i]), Mark(i, |items|))
    ensures p < s
    decreases |items|
  {
    hide Pretty, StartsAt, BeginsLine, NewLine, BeginsInWord;
    var item := Pretty(format, depth + 1, items[0]);
    var tail := if |items| == 1 then "" else "," + PrettyItems(format, depth, items[1..]);
    var rest := p + |NewLine(depth + 1) + item|;
    assert PrettyItems(format, depth, items) == NewLine(depth + 1) + item + tail;
    StartsAtConcat(doc, p, NewLine(depth + 1) + item, tail);
    if i == 0 {
      PrettyBegins(format, depth + 1, items[0]);
      LineBegins(doc, p, depth + 1, item);
      s := p + 3 * (depth + 1) + 1;
      assert s + |item| == rest by { NewLineLength(depth + 1); }
      if |items| > 1 {
        StartsAtConcat(doc, rest, ",", PrettyItems(format, depth, items[1..]));
        CharacterHere(doc, rest, ',');
      }
    } else {
      StartsAtConcat(doc, rest, ",", PrettyItems(format, depth, items[1..]));
      s := ItemsOnLines(format, doc, rest + 1, depth, items[1..], i - 1);
    }
  }

  lemma NewLineLength(depth: nat)
    ensures |NewLine(depth)| == 3 * depth + 1
  {
  }

  lemma CharacterHere(doc: string, p: nat, c: char)
    requires StartsAt(doc, p, [c])
    ensures At(doc, p) == c
  {
    StartsAtIndex(doc, p, [c], 0);
  }

  /**
   Wherever an array that does not fit a line stands at some depth: it opens with a bracket, every item is on a
   line of its own, one level deeper, and the closing bracket is alone on a line at the depth of the array.
   */
  lemma ArrayLines(format: Format, doc: string, p: nat, depth: nat, items: seq<Value>)
    requires items != [] && !OnOneLine(format, items)
    requires StartsAt(doc, p, Pretty(format, depth, ArrayVal(items)))
    ensures At(doc, p) == '['
    ensures forall i: nat :: i < |items| ==>
              HasLine(doc, p, depth + 1, Pretty(format, depth + 1, items[i]), Mark(i, |items|))
    ensures var last := p + |Pretty(format, depth, ArrayVal(items))| - 1;
            BeginsLine(doc, last, depth) && At(doc, last) == ']'
  {
    hide BeginsLine, StartsAt, PrettyItems, OnOneLine, OnItsLine, NewLine;
    var rest := PrettyItems(format, depth, items);
    Enclosed(doc, p, depth, "[", rest, "]");
    hide Pretty;
    forall i: nat | i < |items|
      ensures HasLine(doc, p, depth + 1, Pretty(format, depth + 1, items[i]), Mark(i, |items|))
    {
      var s := ItemsOnLines(format, doc, p + 1, depth, items, i);
    }
  }

  /** What stands between two brackets of which the second is on its own line. */
  lemma Enclosed(doc: string, p: nat, depth: nat, open: string, rest: string, close: string)
    requires |open| == |close| == 1 && close[0] != ' '
    requires StartsAt(doc, p, open + rest + NewLine(depth) + close)
    ensures At(doc, p) == open[0] && StartsAt(doc, p + 1, rest) && At(doc, p + 1 + |rest|) == '\n'
    ensures var last := p + |open + rest + NewLine(depth) + close| - 1;
            BeginsLine(doc, last, depth) && At(doc, last) == close[0]
  {
    NewLineLength(depth);
    var all := open + rest + NewLine(depth) + close;
    assert all == open + rest + (NewLine(depth) + close);
    assert (NewLine(depth) + close)[0] == '\n';
    hide NewLine;
    StartsAtConcat(doc, p, open + rest, NewLine(depth) + close);
    StartsAtConcat(doc, p, open, rest);
    LineBegins(doc, p + 1 + |rest|, depth, close);
    StartsAtIndex(doc, p + 1 + |rest|, NewLine(depth) + close, 0);
    StartsAtIndex(doc, p, open, 0);
    StartsAtIndex(doc, p + 1 + |rest| + 3 * depth + 1, close, 0);
  }

  lemma {:induction false} MembersOnLines(
    format: Format, doc: string, p: nat, depth: nat, members: seq<Member>, i: nat) returns (s: nat)
    requires i < |members| && StartsAt(doc, p, PrettyMembers(format, depth, members))
    requires At(doc, p + |PrettyMembers(format, depth, members)|) == '\n'
    ensures OnItsLine(doc, s, depth + 1, PrettyMember(format, depth + 1, members[i]), Mark(i, |members|))
    ensures p < s
    decreases |members|
  {
    hide PrettyMember, StartsAt, BeginsLine, NewLine, BeginsInWord;
    var member := PrettyMember(format, depth + 1, members[0]);
    var tail := if |members| == 1 then "" else "," + PrettyMembers(format, depth, members[1..]);
    var rest := p + |NewLine(depth + 1) + member|;
    assert PrettyMembers(format, depth, members) == NewLine(depth + 1) + member + tail;
    StartsAtConcat(doc, p, NewLine(depth + 1) + member, tail);
    if i == 0 {
      MemberBegins(format, depth + 1, members[0]);
      LineBegins(doc, p, depth + 1, member);
      s := p + 3 * (depth + 1) + 1;
      assert s + |member| == rest by { NewLineLength(depth + 1); }
      if |members| > 1 {
        StartsAtConcat(doc, rest, ",", PrettyMembers(format, depth, members[1..]));
        CharacterHere(doc, rest, ',');
      }
    } else {
      StartsAtConcat(doc, rest, ",", PrettyMembers(format, depth, members[1..]));
      s := MembersOnLines(format, doc, rest + 1, depth, members[1..], i - 1);
    }
  }

  lemma MemberBegins(format: Format, depth: nat, m: Member)
    ensures BeginsInWord(PrettyMember(format, depth, m))
  {
    hide Pretty;
    assert PrettyMember(format, depth, m)[0] == '"';
  }

  /** The same of an object: every member is on a line of its own, its name, a colon between spaces, and its value. */
  lemma ObjectLines(format: Format, doc: string, p: nat, depth: nat, members: seq<Member>)
    requires members != [] && StartsAt(doc, p, Pretty(format, depth, ObjectVal(members)))
    ensures At(doc, p) == '{'
    ensures forall i: nat :: i < |members| ==>
              var text := Quoted(members[i].name) + " : " + Pretty(format, depth + 1, members[i].value);
              HasLine(doc, p, depth + 1, text, Mark(i, |members|))
    ensures var last := p + |Pretty(format, depth, ObjectVal(members))| - 1;
            BeginsLine(doc, last, depth) && At(doc, last) == '}'
  {
    hide BeginsLine, StartsAt, PrettyMembers, OnItsLine, NewLine;
    var rest := PrettyMembers(format, depth, members);
    Enclosed(doc, p, depth, "{", rest, "}");
    hide Pretty;
    forall i: nat | i < |members|
      ensures var text := Quoted(members[i].name) + " : " + Pretty(format, depth + 1, members[i].value);
              HasLine(doc, p, depth + 1, text, Mark(i, |members|))
    {
      var s := MembersOnLines(format, doc, p + 1, depth, members, i);
    }
  }

  // ----- one line or several -----

  lemma {:induction false} LineHasNoNewLine(format: Format, items: seq<Value>)
    requires forall i :: 0 <= i < |items| ==> IsLeaf(items[i])
    ensures HasNoNewLine(Joined(Leaves(format, items), ", "))
    decreases |items|
  {
    hide LeafText, IsLeaf, Joined;
    var texts := Leaves(format, items);
    if items == [] {
      assert texts == [];
      JoinedNothing();
    } else {
      assert texts == [texts[0]] + Leaves(format, items[1..]);
      JoinedFirst(texts[0], Leaves(format, items[1..]), ", ");
      LineHasNoNewLine(format, items[1..]);
      LeafHasNoNewLine(format, items[0]);
    }
  }

  /** A value takes one line if and only if it is a leaf, or an array of leaves on a line under 74 columns. */
  lemma OneLineCondition(format: Format, depth: nat, v: Value)
    ensures HasNoNewLine(Pretty(format, depth, v)) <==> IsLeaf(v) || (v.ArrayVal? && OnOneLine(format, v.items))
  {
    hide LeafText, PrettyItems, PrettyMembers, Joined;
    if IsLeaf(v) {
      LeafHasNoNewLine(format, v);
    } else if v.ArrayVal? && OnOneLine(format, v.items) {
      LineHasNoNewLine(format, v.items);
    } else {
      var rest := if v.ArrayVal? then PrettyItems(format, depth, v.items) else PrettyMembers(format, depth, v.members);
      assert Pretty(format, depth, v)[1 + |rest|] == '\n';
    }
  }

  /** The document of `{"a":1,"b":2}`. */
  lemma SmallDocument(format: Format)
    ensures Styled(format, "", "", ObjectVal([Member("a", IntVal(1)), Member("b", IntVal(2))]))
            == "{\n   \"a\" : 1,\n   \"b\" : 2\n}"
  {
    var a, b := Member("a", IntVal(1)), Member("b", IntVal(2));
    hide Styled, Pretty, PrettyMembers;
    DocumentIsPretty(format, ObjectVal([a, b]));
    MembersInBraces(format, [a, b]);
    SmallMembers(format, a, b);
    InBraces(PrettyMembers(format, 0, [a, b]));
  }

  lemma MembersInBraces(format: Format, members: seq<Member>)
    requires members != []
    ensures Pretty(format, 0, ObjectVal(members)) == "{" + PrettyMembers(format, 0, members) + "\n" + "}"
  {
    assert NewLine(0) == "\n";
    hide PrettyMembers;
  }

  lemma InBraces(rest: string)
    requires rest == "\n   \"a\" : 1,\n   \"b\" : 2"
    ensures "{" + rest + "\n" + "}" == "{\n   \"a\" : 1,\n   \"b\" : 2\n}"
  {
  }

  lemma SmallMembers(format: Format, a: Member, b: Member)
    requires a == Member("a", IntVal(1)) && b == Member("b", IntVal(2))
    ensures PrettyMembers(format, 0, [a, b]) == "\n   \"a\" : 1,\n   \"b\" : 2"
  {
    assert [a, b][1..] == [b];
    SmallMember(format, "a", 1);
    SmallMember(format, "b", 2);
    assert NewLine(1) == "\n   ";
    hide PrettyMember, NewLine;
    assert PrettyMembers(format, 0, [b]) == "\n   " + PrettyMember(format, 1, b) + "";
    assert PrettyMembers(format, 0, [a, b])
        == "\n   " + PrettyMember(format, 1, a) + ("," + PrettyMembers(format, 0, [b]));
    hide PrettyMembers;
    assert PrettyMember(format, 1, a) == "\"a\" : 1" && PrettyMember(format, 1, b) == "\"b\" : 2";
  }

  lemma SmallMember(format: Format, name: string, i: Int64)
    requires (name == "a" || name == "b") && 0 <= i < 10
    ensures PrettyMember(format, 1, Member(name, IntVal(i))) == "\"" + name + "\" : " + [DigitChar(i as nat)]
    ensures DigitChar(1) == '1' && DigitChar(2) == '2'
  {
    PrintedText(name[0]);
    assert name == [name[0]];
    assert IntText(i as int) == [DigitChar(i as nat)];
    hide Quoted;
  }
}
