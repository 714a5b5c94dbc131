/**
 The description of the logger's state, printed piece by piece into a buffer that may be too small.
 */
module LogAbout {
  import opened CText
  import opened LogFilters

  /** What a conversion produces is free of NUL. */
  type Formatted = s: string | '\0' !in s witness ""

  // ----- the whole text -----

  function ActionText(a: Action): string {
    match a
    case NoAction => ""
    case PrintAction => "   action       : print"
    case BreakAction => "   action       : break"
  }

  function PropertyText(heading: string, value: Option<string>): string {
    if value.Some? then heading + CStr(value.value) else ""
  }

  function FilterText(f: Filter): string {
    ActionText(f.action) + PropertyText(" tag=", f.properties[0]) + PropertyText(" lib=", f.properties[1])
    + PropertyText(" file=", f.properties[2]) + PropertyText(" function=", f.properties[3]) + "\n"
  }

  function FiltersText(s: seq<Filter>): string {
    if s == [] then "" else FiltersText(s[..|s| - 1]) + FilterText(s[|s| - 1])
  }

  function PrinterText(name: string): string {
    "   printer      : " + CStr(name) + "\n"
  }

  function PrintersText(names: seq<string>): string {
    if names == [] then "" else PrintersText(names[..|names| - 1]) + PrinterText(names[|names| - 1])
  }

  function AboutText(filters: seq<Filter>, printers: seq<string>, timeOffset: Formatted): string {
    FiltersText(filters) + PrintersText(printers) + ("   time-offset  : " + timeOffset + "\n")
  }

  // ----- what reaches the buffer -----

  function Min(a: int, b: int): int {
    if a <= b then a else b
  }

  /** How much of `text` a buffer of `size` holds beside the NUL. */
  function Shown(text: string, size: int): (k: nat)
    requires size >= 1
    ensures k <= |text| && k < size
  {
    Min(|text|, size - 1)
  }

  /** `buffer` is `was` after `text` has been printed into its first `size` characters. */
  ghost predicate Printed(buffer: string, was: string, size: int, text: string) {
    size <= |was| &&
    if size <= 0 then buffer == was
    else buffer == text[..Shown(text, size)] + "\0" + was[Shown(text, size) + 1..]
  }

  /** Between two prints: `position` and `left` are the source's `buffer` and `s`. */
  ghost predicate Printing(buffer: string, was: string, size: int, text: string, position: nat, left: int) {
    && |buffer| == |was| && size <= |was|
    && left == size - |text|
    && position == Min(|text|, if size > 0 then size else 0)
    && ((text == "" && buffer == was) || Printed(buffer, was, size, text))
  }

  /** `snprintf` with a buffer of `n` characters at `position`. */
  method Snprintf(buffer: array<char>, position: nat, n: nat, text: string) returns (length: nat)
    requires position + n <= buffer.Length
    modifies buffer
    ensures length == |text|
    ensures n == 0 ==> buffer[..] == old(buffer[..])
    ensures n > 0 ==> buffer[..] == old(buffer[..position]) + text[..Shown(text, n)] + "\0"
                                    + old(buffer[position + Shown(text, n) + 1..])
  {
    if n > 0 {
      var k := Shown(text, n);
      for i := 0 to k
        invariant forall j :: 0 <= j < i ==> buffer[position + j] == text[j]
        invariant buffer[..position] == old(buffer[..position])
        invariant buffer[position + i..] == old(buffer[position + i..])
      {
        buffer[position + i] := text[i];
      }
      buffer[position + k] := '\0';
      assert buffer[position..position + k] == text[..k];
      assert buffer[..] == buffer[..position] + buffer[position..position + k] + "\0" + buffer[position + k + 1..];
    }
    length := |text|;
  }

  /** One more piece of text. The macro's two branches are its `if`. */
  method Print(buffer: array<char>, position: nat, left: int, text: string,
               ghost was: string, ghost size: int, ghost done: string)
    returns (newPosition: nat, newLeft: int)
    requires Printing(buffer[..], was, size, done, position, left)
    modifies buffer
    ensures Printing(buffer[..], was, size, done + text, newPosition, newLeft)
  {
    var s := if left > 0 then left else 0;
    ghost var before := buffer[..];
    var length := Snprintf(buffer, position, s, text);
    if length <= left {
      newPosition := position + length;
    } else {
      newPosition := position + s;
    }
    newLeft := left - length;
    PrintStep(before, buffer[..], was, size, done, text, position, left);
  }

  lemma PrintStep(before: string, after: string, was: string, size: int, done: string, text: string,
                  position: nat, left: int)
    requires Printing(before, was, size, done, position, left)
    requires left <= 0 ==> after == before
    requires left > 0 ==> position + left <= |before|
    requires left > 0 ==>
      after == before[..position] + text[..Shown(text, left)] + "\0" + before[position + Shown(text, left) + 1..]
    ensures |after| == |before|
    ensures (done + text == "" && after == was) || Printed(after, was, size, done + text)
  {
    if left > 0 {
      var k := Shown(text, left);
      assert Shown(done + text, size) == |done| + k;
      assert before[..position] == done;
      assert (done + text)[..|done| + k] == done + text[..k];
      assert before[position + k + 1..] == was[position + k + 1..];
    } else if size > 0 && left <= 0 {
      assert Shown(done + text, size) == Shown(done, size) == size - 1;
      assert (done + text)[..size - 1] == done[..size - 1];
    }
  }

  method PrintProperty(buffer: array<char>, position: nat, left: int, heading: string, value: Option<string>,
                       ghost was: string, ghost size: int, ghost done: string)
    returns (newPosition: nat, newLeft: int)
    requires Printing(buffer[..], was, size, done, position, left)
    modifies buffer
    ensures Printing(buffer[..], was, size, done + PropertyText(heading, value), newPosition, newLeft)
  {
    hide Printing;
    newPosition, newLeft := position, left;
    if value.Some? {
      newPosition, newLeft := Print(buffer, position, left, heading + CStr(value.value), was, size, done);
    } else {
      assert done + PropertyText(heading, value) == done;
    }
  }

  /** The action, if the filter has one. */
  method PrintActionOf(buffer: array<char>, position: nat, left: int, action: Action,
                      ghost was: string, ghost size: int, ghost done: string)
    returns (newPosition: nat, newLeft: int)
    requires Printing(buffer[..], was, size, done, position, left)
    modifies buffer
    ensures Printing(buffer[..], was, size, done + ActionText(action), newPosition, newLeft)
  {
    hide Printing;
    newPosition, newLeft := position, left;
    if action == PrintAction {
      newPosition, newLeft := Print(buffer, position, left, "   action       : print", was, size, done);
    } else if action == BreakAction {
      newPosition, newLeft := Print(buffer, position, left, "   action       : break", was, size, done);
    } else {
      assert done + ActionText(action) == done;
    }
  }

  method PrintFilter(buffer: array<char>, position: nat, left: int, f: Filter,
                     ghost was: string, ghost size: int, ghost done: string)
    returns (newPosition: nat, newLeft: int)
    requires Printing(buffer[..], was, size, done, position, left)
    modifies buffer
    ensures Printing(buffer[..], was, size, done + FilterText(f), newPosition, newLeft)
  {
    hide Printing, ActionText, PropertyText;
    ghost var t0 := done + ActionText(f.action);
    ghost var t1 := t0 + PropertyText(" tag=", f.properties[0]);
    ghost var t2 := t1 + PropertyText(" lib=", f.properties[1]);
    ghost var t3 := t2 + PropertyText(" file=", f.properties[2]);
    ghost var t4 := t3 + PropertyText(" function=", f.properties[3]);
    newPosition, newLeft := PrintActionOf(buffer, position, left, f.action, was, size, done);
    newPosition, newLeft := PrintProperty(buffer, newPosition, newLeft, " tag=", f.properties[0], was, size, t0);
    newPosition, newLeft := PrintProperty(buffer, newPosition, newLeft, " lib=", f.properties[1], was, size, t1);
    newPosition, newLeft := PrintProperty(buffer, newPosition, newLeft, " file=", f.properties[2], was, size, t2);
    newPosition, newLeft := PrintProperty(buffer, newPosition, newLeft, " function=", f.properties[3], was, size, t3);
    newPosition, newLeft := Print(buffer, newPosition, newLeft, "\n", was, size, t4);
    assert t4 + "\n" == done + FilterText(f);
  }

  method PrintPrinter(buffer: array<char>, position: nat, left: int, name: string,
                      ghost was: string, ghost size: int, ghost done: string)
    returns (newPosition: nat, newLeft: int)
    requires Printing(buffer[..], was, size, done, position, left)
    modifies buffer
    ensures Printing(buffer[..], was, size, done + PrinterText(name), newPosition, newLeft)
  {
    hide Printing;
    newPosition, newLeft := Print(buffer, position, left, "   printer      : " + CStr(name) + "\n", was, size, done);
  }

  method PrintFilters(buffer: array<char>, position: nat, left: int, filters: FilterList,
                      ghost was: string, ghost size: int)
    returns (newPosition: nat, newLeft: int)
    requires filters.Valid() && Printing(buffer[..], was, size, "", position, left)
    modifies buffer
    ensures Printing(buffer[..], was, size, FiltersText(filters.View()), newPosition, newLeft)
  {
    hide Printing, FilterText, ValidFilters;
    ghost var list := filters.View();
    newPosition, newLeft := position, left;
    for i := 0 to filters.count
      invariant Printing(buffer[..], was, size, FiltersText(list[..i]), newPosition, newLeft)
    {
      assert list[..i + 1][..i] == list[..i] && list[i] == filters.elements[i];
      newPosition, newLeft :=
        PrintFilter(buffer, newPosition, newLeft, filters.elements[i], was, size, FiltersText(list[..i]));
    }
    assert list[..filters.count] == list;
  }

  method PrintPrinters(buffer: array<char>, position: nat, left: int, printers: seq<string>,
                       ghost was: string, ghost size: int, ghost done: string)
    returns (newPosition: nat, newLeft: int)
    requires Printing(buffer[..], was, size, done, position, left)
    modifies buffer
    ensures Printing(buffer[..], was, size, done + PrintersText(printers), newPosition, newLeft)
  {
    hide Printing, PrinterText;
    newPosition, newLeft := position, left;
    assert done + PrintersText(printers[..0]) == done;
    for i := 0 to |printers|
      invariant Printing(buffer[..], was, size, done + PrintersText(printers[..i]), newPosition, newLeft)
    {
      assert printers[..i + 1][..i] == printers[..i];
      Associative(done, PrintersText(printers[..i]), PrinterText(printers[i]));
      newPosition, newLeft :=
        PrintPrinter(buffer, newPosition, newLeft, printers[i], was, size, done + PrintersText(printers[..i]));
    }
    assert printers[..|printers|] == printers;
  }

  /**
   Whatever the size, the length of the whole text is returned and the buffer holds as much of it as fits,
   with a NUL behind; nothing beyond is touched, and nothing at all if the size is not positive.
   */
  method AboutString(filters: FilterList, printers: seq<string>, timeOffset: Formatted,
                     buffer: array<char>, size: int)
    returns (length: int)
    requires filters.Valid() && size <= buffer.Length
    modifies buffer
    ensures length == |AboutText(filters.View(), printers, timeOffset)|
    ensures Printed(buffer[..], old(buffer[..]), size, AboutText(filters.View(), printers, timeOffset))
  {
    hide ValidFilters, PrintersText, FiltersText;
    ghost var was := buffer[..];
    ghost var filtersText := FiltersText(filters.View());
    var position, s := PrintFilters(buffer, 0, size, filters, was, size);
    position, s := PrintPrinters(buffer, position, s, printers, was, size, filtersText);
    position, s := Print(buffer, position, s, "   time-offset  : " + timeOffset + "\n", was, size,
                         filtersText + PrintersText(printers));
    length := size - s;
    AllPrinted(buffer[..], was, size, AboutText(filters.View(), printers, timeOffset), position, s);
  }

  lemma AllPrinted(buffer: string, was: string, size: int, text: string, position: nat, left: int)
    requires Printing(buffer, was, size, text, position, left) && text != ""
    ensures Printed(buffer, was, size, text) && size - left == |text|
  {
  }

  // ----- what a reader of the buffer sees -----

  lemma {:induction false} CStrOfPrefix(text: string, rest: string)
    requires '\0' !in text
    ensures CStr(text + "\0" + rest) == text
  {
    if text == "" {
      assert text + "\0" + rest == "\0" + rest;
    } else {
      assert text + "\0" + rest == [text[0]] + (text[1..] + "\0" + rest);
      CStrOfPrefix(text[1..], rest);
    }
  }

  lemma {:induction false} FiltersTextPlain(s: seq<Filter>)
    ensures '\0' !in FiltersText(s)
  {
    if s != [] {
      FiltersTextPlain(s[..|s| - 1]);
      FilterTextPlain(s[|s| - 1]);
    }
  }

  lemma FilterTextPlain(f: Filter)
    ensures '\0' !in FilterText(f)
  {
    PropertyTextPlain(" tag=", f.properties[0]);
    PropertyTextPlain(" lib=", f.properties[1]);
    PropertyTextPlain(" file=", f.properties[2]);
    PropertyTextPlain(" function=", f.properties[3]);
    hide PropertyText;
  }

  lemma PropertyTextPlain(heading: string, value: Option<string>)
    requires '\0' !in heading
    ensures '\0' !in PropertyText(heading, value)
  {
  }

  lemma {:induction false} PrintersTextPlain(names: seq<string>)
    ensures '\0' !in PrintersText(names)
  {
    if names != [] {
      PrintersTextPlain(names[..|names| - 1]);
    }
  }

  /**
   As a C string the buffer is a prefix of the whole text, cut only where the room ends; it is the whole text
   exactly if the returned length is at most `size - 1`, the test `NWLogAbout` makes before it adds dots.
   */
  lemma BufferIsPrefix(buffer: string, was: string, size: int,
                       filters: seq<Filter>, printers: seq<string>, timeOffset: Formatted)
    requires size >= 1 && Printed(buffer, was, size, AboutText(filters, printers, timeOffset))
    ensures var text := AboutText(filters, printers, timeOffset);
            && CStr(buffer) == text[..Min(|text|, size - 1)]
            && (CStr(buffer) == text <==> |text| <= size - 1)
  {
    hide AboutText, CStr;
    var text := AboutText(filters, printers, timeOffset);
    AboutTextPlain(filters, printers, timeOffset);
    CStrOfPrefix(text[..Shown(text, size)], was[Shown(text, size) + 1..]);
  }

  lemma AboutTextPlain(filters: seq<Filter>, printers: seq<string>, timeOffset: Formatted)
    ensures '\0' !in AboutText(filters, printers, timeOffset)
  {
    FiltersTextPlain(filters);
    PrintersTextPlain(printers);
    hide FiltersText, PrintersText;
  }

  // ----- the text of some states -----

  /** A printing filter on a tag, and nothing else. */
  lemma PrintedTag(tag: string)
    requires '\0' !in tag
    ensures FilterText(Filter([Some(tag), None, None, None], PrintAction))
            == "   action       : print tag=" + tag + "\n"
  {
    NoProperty(" lib=");
    NoProperty(" file=");
    NoProperty(" function=");
    hide PropertyText, CStr;
    assert PropertyText(" tag=", Some(tag)) == " tag=" + tag by { OneProperty(" tag=", tag); }
    assert ActionText(PrintAction) == "   action       : print";
  }

  lemma NoProperty(heading: string)
    ensures PropertyText(heading, None) == ""
  {
  }

  lemma OneProperty(heading: string, name: string)
    requires '\0' !in name
    ensures PropertyText(heading, Some(name)) == heading + name
  {
  }

  /** A breaking filter with all four names. */
  lemma BrokenAt(tag: string, lib: string, file: string, function_: string)
    requires '\0' !in tag && '\0' !in lib && '\0' !in file && '\0' !in function_
    ensures FilterText(Filter([Some(tag), Some(lib), Some(file), Some(function_)], BreakAction))
            == "   action       : break" + (" tag=" + tag) + (" lib=" + lib) + (" file=" + file)
               + (" function=" + function_) + "\n"
  {
    OneProperty(" tag=", tag);
    OneProperty(" lib=", lib);
    OneProperty(" file=", file);
    OneProperty(" function=", function_);
    hide PropertyText;
    assert ActionText(BreakAction) == "   action       : break";
  }

  /** One filter and one printer. */
  lemma AboutOne(f: Filter, name: string, timeOffset: Formatted)
    requires '\0' !in name
    ensures AboutText([f], [name], timeOffset)
            == FilterText(f) + ("   printer      : " + name + "\n") + ("   time-offset  : " + timeOffset + "\n")
  {
    hide FilterText;
    assert [f][..0] == [] && [name][..0] == [];
    assert FiltersText([f]) == "" + FilterText(f) == FilterText(f);
    assert PrintersText([name]) == "" + PrinterText(name) == PrinterText(name);
  }
}
