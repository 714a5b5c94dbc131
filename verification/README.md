# Horoscopes: a verified model of its text formats and small engines

The project models, in Dafny, the parts of the Horoscopes application that compute something: the vendored
jsoncpp reader and writers, the page allocator that comes with them, the filter list of the NWLogging library,
the horoscope page parser of the server, the presenter of the activity indicator, and three string helpers.
`dafny verify dfyconfig.toml` checks everything.

## How it is laid out

Code that changes state keeps its form: `Reader`, `FastWriter`, `StyledWriter`, `BatchAllocator`, `FilterList`,
`Parser`, `Presenter`, `Url` and `DateWrapper` are classes whose methods follow the loops and branches of the
source. Each method is proved equal to a specification function, and the results are lemmas about those functions.

* `CText`: C strings and byte buffers. A `char` is a byte's unsigned value, a pointer into a buffer an index.
* `JsonValue`, `JsonNumber`, `JsonString`, `JsonLexer`: the value tree, numbers, strings and tokens.
* `JsonParser`: what the recursive descent computes, errors and recovery included; `JsonReader`: the reader itself,
  with cursor, node stack and error list.
* `JsonSyntax`: texts of arrays, objects, strings and number tokens, and their meaning. `JsonGrammar`: the numbers and
  strings of RFC 8259, defined without the reader, and the exact excess of the reader's. `JsonEscapes`: the escapes by
  their characters.
* `JsonDialect`: all that the reader accepts, with comments, odd separators and trailing commas; `JsonReads`: that it
  accepts this; `JsonAccepted`: that it accepts nothing else; `JsonColonForComma`: an example. `JsonTrailing`: text
  behind the value has no influence.
* `JsonRfc`: which of the dialect is RFC 8259. `JsonStands`: what it is for such a text to stand in the bytes of a
  document, defined without the tokenizer. `JsonNul`: what such a text means by the standard, and when the reader's
  meaning differs; `JsonCollapsedNames`: an example. `JsonStandard`: which bytes of the standard the reader accepts.
* `JsonErrors`: which error is reported of what, and how much is skipped.
* `ZeroTrimming`, `JsonText`, `JsonLayout`, `JsonFastWriter`, `JsonStyledWriter`: printing. `JsonCompact`,
  `JsonPretty`: what the two layouts look like. `JsonRoundTrip`: printing and reading.
* `SlotModel`, `BatchAllocator`: slots, pages and the free list.
* `LogFilters`, `LogFilterNames`, `LogAbout`: the filter list and the matcher, what they do by the characters of names,
  and the bounded description.
* `HoroscopesParser`, `HoroscopesText`: the page parser, and what a prediction holds.
* `IndicatorPresenter`, `TextHelpers`, `Url`, `DateWrapper`: one module each.

`sscanf`, `sprintf` on doubles, the HTML parser, the clock and the window are parameters. The node stack of the
reader holds pointers into the tree; the model keeps values on it and writes an element back when it is popped.

## Where the code differs from what it says

* The reader accepts more than RFC 8259, and this is all of it: anything behind the root value
  (`JsonAccepted.AcceptsDocuments`); comments; behind a member and a comment any token but a brace in place of a comma
  (`JsonAccepted.EndAccepted`, `JsonColonForComma.ColonForComma`); a trailing comma, before `}`, when the last name
  is empty (`JsonReads.ReadsRawMembers`); unescaped control characters; a lone `-` as 0 and superfluous leading zeros
  (`JsonGrammar.IntegerExcess`); number tokens with a point, an exponent or an inner sign in any order, if scanning
  them as a double succeeds (`JsonNumber.DecodeNumber`); lone low surrogates, and behind a high surrogate any escape,
  so that the escapes D800 and 0041 give U+10041 (`JsonGrammar.SurrogateExcess`). Of the standard it rejects only
  numbers that cannot be scanned (`JsonStandard.OnlyNumbersFail`) and, in strict mode, roots that are scalars.
* It cuts strings and names at their first NUL, so a text of the standard with the escape 0000 in a string is read as
  another value: `JsonNul.StringKept` and `JsonNul.KeptExactly` are the exact conditions, `JsonNul.NulInside` is such
  a string. Names that agree up to a NUL become one member: `JsonNul.NamesCollapse`,
  `JsonCollapsedNames.NamesCollapseHere`.
* It chooses int or uint by the 32-bit `maxInt`, so a round trip keeps numbers but not their tag.
* A double whose 16 digits fill the whole part is printed with a bare point, which RFC 8259 does not allow:
  `JsonGrammar.FixedTextIsRfc`. In exponent form too it takes digits there: `JsonGrammar.ExponentTextIsRfc`.
* The allocator tests for the end of a page by equality but advances by whole allocations. It needs the allocation
  size to divide the page size, which nothing checks; `SlotModel.CarvingStaysInside` and
  `SlotModel.CarvingStaysInMemory` are the exact conditions and `SlotModel.DefaultPageOfEights` a default that breaks
  them.
* The logger's header promises the best-matching filter; `LogFilters.BestMatchCondition` says when it is missed.
* `ReplaceAll` does not return when it is given an empty pattern; `TextHelpers.EndsIfNotEmpty`.
* The presenter keeps the display threshold and the minimum display time only under the conditions
  `IndicatorPresenter.ThresholdCondition` and `IndicatorPresenter.MinimumTimeCondition`; `ShownByStaleClosure` and
  `StoppedTwice` are runs that break them.
* `fromString` does not reset the date it reads into: from a text without a year a used date keeps its old one, and
  from the empty text everything. `DateWrapper.DateRoundTrip` is the exact condition.
* A horoscope page without a content div yields the prediction of the page before: `HoroscopesParser.NoContent`.

## Model

| member | source | states |
|---|---|---|
| `JsonStandard.AcceptsDocumentsOfTheStandard` | Horoscopes/Components/jsoncpp/include/json_reader.cpp:140-181 | over the bytes of a whole document: one that is a text of RFC 8259 with spaces around is accepted if and only if strict mode allows its root, and the root is what the text means by the standard if and only if no string or name in that holds a NUL; conversely an accepted document is such a text if nothing but spaces stands behind the value and the bytes of the value have no excess |
| `JsonStandard.AcceptsTheGrammar` | Horoscopes/Components/jsoncpp/include/json_reader.cpp:184-568 | over the bytes of a value: a text of RFC 8259 (numbers as in section 6, strings as in section 7 with surrogates in pairs) that has a meaning stands there if and only if the reader accepts the value there and its bytes have no excess: no comment, no comma before a brace, no number or string the standard does not have; the value is the meaning by the standard if and only if that holds no NUL |
| `JsonStandard.ReadsTheStandard` | Horoscopes/Components/jsoncpp/include/json_reader.cpp:184-568 | every text of the standard, found in the bytes without the tokenizer, is accepted up to its end if and only if it has a meaning |
| `JsonStandard.OnlyNumbersFail` | Horoscopes/Components/jsoncpp/include/json_reader.cpp:571-622 | a text of the standard has a meaning unless a number in it is neither an integer of 64 bits nor scanned as a double |
| `JsonStands.StandsIsLexes` | Horoscopes/Components/jsoncpp/include/json_reader.cpp:263-335 | the texts of tokens of the standard, with only spaces between and no number going on behind its end, stand in the bytes if and only if the tokenizer yields just these tokens |
| `JsonStands.WordIsToken` | Horoscopes/Components/jsoncpp/include/json_reader.cpp:263-335 | a number, string, word or mark of the standard is read as one token wherever it stands |
| `JsonNul.KeptExactly` | Horoscopes/Components/jsoncpp/include/json_reader.cpp:184-568 | a text of the standard has a reading if and only if it has a meaning, and they are equal if and only if no string and no name in the meaning holds a NUL |
| `JsonNul.StringKept` | Horoscopes/Components/jsoncpp/include/json_reader.cpp:665-673 | a string of the standard is stored as it is if and only if it holds no NUL |
| `JsonNul.NulIsEscaped` | Horoscopes/Components/jsoncpp/include/json_reader.cpp:722-750 | the strings of the standard that hold a NUL are those with the escape 0000 |
| `JsonNul.NulInside` | Horoscopes/Components/jsoncpp/include/json_reader.cpp:665-673 | with that escape between two characters only the first is stored |
| `JsonNul.NamesCollapse` | Horoscopes/Components/jsoncpp/include/json_reader.cpp:498-503 | of two members in a row whose names agree up to their first NUL the second alone is kept |
| `JsonNul.MembersStayApart` | Horoscopes/Components/jsoncpp/include/json_reader.cpp:498-503 | two members become two if and only if their names differ before their first NUL |
| `JsonCollapsedNames.NamesCollapseHere` | Horoscopes/Components/jsoncpp/include/json_reader.cpp:498-503 | a document of the standard with two members, one name with the escape 0000 behind an a and the other just an a, is read as one member |
| `JsonAccepted.AcceptsTheDialect` | Horoscopes/Components/jsoncpp/include/json_reader.cpp:184-568 | from any bytes, comments included: the reader yields the value without errors if and only if a text of its dialect that is read as this value stands there; the dialect names every excess over the grammar |
| `JsonAccepted.AcceptsDocuments` | Horoscopes/Components/jsoncpp/include/json_reader.cpp:140-181 | a document is accepted with a value if and only if it begins with such a text, whatever follows; strict mode adds that it is an array or object |
| `JsonTrailing.TrailingTextIgnored` | Horoscopes/Components/jsoncpp/include/json_reader.cpp:140-181 | whatever replaces the text behind an accepted root value, the same value is accepted again, unless the value is a number and the text begins with a character that numbers are made of |
| `JsonTrailing.SameTokens` | Horoscopes/Components/jsoncpp/include/json_reader.cpp:263-335 | a run of consumed tokens does not depend on what stands behind it |
| `JsonAccepted.ValueAccepted` | Horoscopes/Components/jsoncpp/include/json_reader.cpp:184-568 | whatever is accepted is a text of the dialect, and the value is its reading |
| `JsonAccepted.MembersAccepted` | Horoscopes/Components/jsoncpp/include/json_reader.cpp:469-525 | the member loop consumes just the members of a dialect text: names, colons, values, comments and separators |
| `JsonAccepted.ItemsAccepted` | Horoscopes/Components/jsoncpp/include/json_reader.cpp:528-568 | the array loop consumes just the items of a dialect text, with comments and commas |
| `JsonAccepted.ArrayAccepted` | Horoscopes/Components/jsoncpp/include/json_reader.cpp:528-568 | an accepted array is empty, with nothing but spaces inside, or has items |
| `JsonAccepted.ScalarAccepted` | Horoscopes/Components/jsoncpp/include/json_reader.cpp:206-220 | an accepted number, string or keyword is one token with that meaning |
| `JsonAccepted.HeadAccepted` | Horoscopes/Components/jsoncpp/include/json_reader.cpp:475-497 | comments, a name that decodes and a colon come before a member value |
| `JsonAccepted.EndAccepted` | Horoscopes/Components/jsoncpp/include/json_reader.cpp:505-520 | behind a member come comments and a brace or a separator: a comma, or behind a comment any token but a brace |
| `JsonAccepted.CloseAccepted` | Horoscopes/Components/jsoncpp/include/json_reader.cpp:478-483 | a closing brace in place of a member is accepted behind the empty name only |
| `JsonColonForComma.ColonForComma` | Horoscopes/Components/jsoncpp/include/json_reader.cpp:505-520 | an object with a colon for a comma behind an empty comment is accepted, with both members |
| `JsonAccepted.StringIsUnits` | Horoscopes/Components/jsoncpp/include/json_reader.cpp:676-720 | a string token that decodes is made of valid units that mean the decoded text |
| `JsonReads.ReadsRaw` | Horoscopes/Components/jsoncpp/include/json_reader.cpp:184-232 | in front of the tokens of a dialect text the reader yields its reading, or fails exactly if it has none |
| `JsonReads.ReadsRawMembers` | Horoscopes/Components/jsoncpp/include/json_reader.cpp:469-525 | the member loop stores the members in order; behind a separator it closes the object only if the last name is empty, and fails otherwise |
| `JsonReads.ReadsRawItems` | Horoscopes/Components/jsoncpp/include/json_reader.cpp:528-568 | the array loop reads the items in order behind those read before |
| `JsonReads.ReadsRawArray` | Horoscopes/Components/jsoncpp/include/json_reader.cpp:528-538 | the empty array is told from others by the character behind the spaces |
| `JsonReads.ReadsSyntax` | Horoscopes/Components/jsoncpp/include/json_reader.cpp:184-232 | for every text of arrays, objects, tokens and commas as in the grammar: the reader yields its meaning, or fails exactly if it has none |
| `JsonRfc.RfcHasNoExcess` | Horoscopes/Components/jsoncpp/include/json_reader.cpp:184-568 | texts of the standard have no excess tokens |
| `JsonRfc.RawIsRfc` | Horoscopes/Components/jsoncpp/include/json_reader.cpp:184-568 | a dialect text without excess tokens is a text of the standard with the same meaning |
| `JsonGrammar.RfcNumberIsToken` | Horoscopes/Components/jsoncpp/include/json_reader.cpp:441-451 | every number of section 6 is one token |
| `JsonGrammar.IntegerTokens` | Horoscopes/Components/jsoncpp/include/json_reader.cpp:441-451 | a token without point, exponent or inner sign is a number of section 6 if and only if it is no lone minus and has no superfluous leading zero |
| `JsonGrammar.RfcIntegerIsRead` | Horoscopes/Components/jsoncpp/include/json_reader.cpp:571-622 | every integer of section 6 that 64 bits hold is accepted with its value |
| `JsonGrammar.IntegerExcess` | Horoscopes/Components/jsoncpp/include/json_reader.cpp:571-622 | a token is stored as an integer without being a number of section 6 if and only if it is a lone minus, or has a superfluous zero and a value that 64 bits hold |
| `JsonGrammar.PairedMeaning` | Horoscopes/Components/jsoncpp/include/json_reader.cpp:722-750 | a string has a meaning by the standard if and only if its surrogates stand in pairs, and the reader then gives it that meaning |
| `JsonGrammar.SurrogateExcess` | Horoscopes/Components/jsoncpp/include/json_reader.cpp:722-750 | behind a high surrogate the reader takes any escape, as the low surrogate with its last ten bits; the standard has only low surrogates there |
| `JsonEscapes.EscapeTable` | Horoscopes/Components/jsoncpp/include/json_reader.cpp:694-701 | the eight short escapes stand for the characters of the table in section 7, in front of any other units, by the standard and by the reader |
| `JsonEscapes.ShortEscapes` | Horoscopes/Components/jsoncpp/include/json_reader.cpp:692-701 | there are no other short escapes |
| `JsonEscapes.EscapeReads` | Horoscopes/Components/jsoncpp/include/json_reader.cpp:687-711 | the same at any place in the bytes of a token; any other character behind a backslash but u is a bad escape |
| `JsonEscapes.EscapedSlash` | Horoscopes/Components/jsoncpp/include/json_reader.cpp:695 | the token of an escaped slash decodes to a slash |
| `JsonEscapes.HexDigitValues` | Horoscopes/Components/jsoncpp/include/json_reader.cpp:765-770 | a hexadecimal digit counts as its place among the sixteen, in either case |
| `JsonEscapes.HexDigitsAre` | Horoscopes/Components/jsoncpp/include/json_reader.cpp:765-772 | there are no other hexadecimal digits |
| `JsonEscapes.BothCases` | Horoscopes/Components/jsoncpp/include/json_reader.cpp:752-775 | the escapes 00e9 and 00E9 are the two bytes of U+00E9 |
| `JsonGrammar.CharacterClasses` | Horoscopes/Components/jsoncpp/include/json_reader.cpp:338-451 | the white space of section 2, and the characters a number token is made of |
| `JsonRfc.PrintsTheGrammar` | Horoscopes/Components/jsoncpp/include/json_writer.cpp:217-273 | what is printed is a text of the standard if and only if every double in it is printed as a number of section 6 |
| `JsonGrammar.IntTextIsRfc` | Horoscopes/Components/jsoncpp/include/json_writer.cpp:34-56 | integers are printed as numbers of section 6 |
| `JsonGrammar.FixedTextIsRfc` | Horoscopes/Components/jsoncpp/include/json_writer.cpp:74-111 | a double in fixed notation is printed as a number of section 6 if and only if it has digits behind the point |
| `JsonGrammar.ExponentTextIsRfc` | Horoscopes/Components/jsoncpp/include/json_writer.cpp:74-111 | a double in exponent form is printed whole, and as a number of section 6 if and only if it has digits behind the point |
| `JsonGrammar.QuotedIsRfc` | Horoscopes/Components/jsoncpp/include/json_writer.cpp:119-182 | strings are printed as strings of section 7 |
| `JsonEscapes.PrintedText` | Horoscopes/Components/jsoncpp/include/json_writer.cpp:119-182 | what is printed for each character: quotes, backslashes and control characters are escaped, in upper-case digits, and nothing else |
| `JsonRoundTrip.FastRoundTrip` | Horoscopes/Components/jsoncpp/include/json_writer.cpp:207-273 | round trip: for every well-formed tree whose doubles survive printing, with or without YAML mode and comments allowed, parsing the compact document succeeds without errors and yields the tree, up to the int/uint tag of equal numbers |
| `JsonRoundTrip.StyledRoundTrip` | Horoscopes/Components/jsoncpp/include/json_writer.cpp:287-491 | the same round trip through the pretty printer |
| `JsonRoundTrip.SameTokens` | Horoscopes/Components/jsoncpp/include/json_writer.cpp:301-491 | pretty printing preserves meaning: both writers produce the same token sequence up to the end of the stream, that of the tree |
| `JsonRoundTrip.FastDocumentLexes` | Horoscopes/Components/jsoncpp/include/json_writer.cpp:207-273 | the compact document reads as exactly the tokens of the tree and then the end of the stream |
| `JsonRoundTrip.StyledDocumentLexes` | Horoscopes/Components/jsoncpp/include/json_writer.cpp:287-298 | the pretty document reads as exactly the tokens of the tree and then the end of the stream |
| `JsonCompact.FastIsSpelled` | Horoscopes/Components/jsoncpp/include/json_writer.cpp:217-273 | the compact text is the texts of the tokens of the tree with nothing between them, but a space behind each colon in YAML mode |
| `JsonCompact.LeafIsSpelled` | Horoscopes/Components/jsoncpp/include/json_writer.cpp:222-239 | scalars and empty containers are printed as the texts of their tokens, in both layouts |
| `JsonPretty.DocumentIsPretty` | Horoscopes/Components/jsoncpp/include/json_writer.cpp:287-298 | the pretty document, for which the writer looks at the last character written, is a plain function of the value and the depth |
| `JsonPretty.ArrayLines` | Horoscopes/Components/jsoncpp/include/json_writer.cpp:362-412 | wherever an array that does not fit a line stands: each item stands on a line of its own behind a new line and exactly three spaces to a level, one level deeper, with a comma or the end of the line behind it, and the closing bracket alone on a line at its own depth |
| `JsonPretty.ObjectLines` | Horoscopes/Components/jsoncpp/include/json_writer.cpp:328-359 | the same of the members of an object, each its name, a colon between spaces and its value |
| `JsonPretty.OneLineCondition` | Horoscopes/Components/jsoncpp/include/json_writer.cpp:301-443 | a value takes one line if and only if it is a leaf, or an array of leaves whose line stays under 74 columns |
| `JsonPretty.FitsIsOnOneLine` | Horoscopes/Components/jsoncpp/include/json_writer.cpp:415-443 | the width computed is that of the line, and the first test of the size decides nothing |
| `JsonPretty.SmallDocument` | Horoscopes/Components/jsoncpp/include/json_writer.cpp:328-359 | the four lines of an object with two members |
| `JsonText.SyntaxMeans` | Horoscopes/Components/jsoncpp/include/json_writer.cpp:217-273 | the text written for a tree means that tree under the tags the reader gives to numbers |
| `JsonText.SyntaxIsValid` | Horoscopes/Components/jsoncpp/include/json_writer.cpp:217-273 | every printed number is one token of the reader and every printed string is made of valid units |
| `JsonText.ValueToStringDouble` | Horoscopes/Components/jsoncpp/include/json_writer.cpp:74-111 | the text of a double is the formatted text, trimmed, built in place in a buffer of 32 |
| `JsonText.RealTextOf` | Horoscopes/Components/jsoncpp/include/json_writer.cpp:74-111 | a double in fixed notation is printed as its own formatted text, without the superfluous zeros |
| `JsonText.RealTextOfExponent` | Horoscopes/Components/jsoncpp/include/json_writer.cpp:74-111 | a double in exponent form is printed as its own formatted text |
| `JsonParser.ParseValue` | Horoscopes/Components/jsoncpp/include/json_reader.cpp:184-232 | total on every byte string, by a measure on the rest: the cursor never moves back nor beyond the end, and the reader succeeds exactly when it reports no error |
| `JsonParser.ParseItems` | Horoscopes/Components/jsoncpp/include/json_reader.cpp:528-568 | the same of the array loop and its recovery |
| `JsonParser.ParseMembers` | Horoscopes/Components/jsoncpp/include/json_reader.cpp:469-525 | the same of the object loop and its recovery |
| `JsonParser.ParseDocument` | Horoscopes/Components/jsoncpp/include/json_reader.cpp:140-181 | parsing succeeds exactly when the error list is empty |
| `JsonParser.ParseValueWellFormed` | Horoscopes/Components/jsoncpp/include/json_reader.cpp:184-232 | every tree the reader builds, also after errors, is well-formed: sorted distinct keys, no NUL inside strings |
| `JsonParser.ParseMembersWellFormed` | Horoscopes/Components/jsoncpp/include/json_reader.cpp:469-525 | the member loop keeps keys sorted and distinct |
| `JsonReader.Reader.Parse` | Horoscopes/Components/jsoncpp/include/json_reader.cpp:140-181 | the whole state after parsing, from whatever state the reader was in; the node stack holds the root alone, and success means an empty error list |
| `JsonReader.Reader.ReadRoot` | Horoscopes/Components/jsoncpp/include/json_reader.cpp:150-163 | whatever was read before, the root value is read from the start of the document with an empty error list, alone on the node stack |
| `JsonReader.Reader.ReadValue` | Horoscopes/Components/jsoncpp/include/json_reader.cpp:184-232 | the top of the node stack becomes the value, everything below it stays, the errors are extended by those of this value, and the cursor advances |
| `JsonReader.Reader.ReadArray` | Horoscopes/Components/jsoncpp/include/json_reader.cpp:528-568 | the same for an array, on every return path |
| `JsonReader.Reader.ReadItem` | Horoscopes/Components/jsoncpp/include/json_reader.cpp:542-547 | pushing and popping the element leaves the array with the element appended |
| `JsonReader.Reader.ReadObject` | Horoscopes/Components/jsoncpp/include/json_reader.cpp:469-525 | the same for an object, on every return path |
| `JsonReader.Reader.ReadMember` | Horoscopes/Components/jsoncpp/include/json_reader.cpp:498-503 | the member of this key, new or old, is read in place; other members and the stack below stay |
| `JsonReader.Reader.ReadMemberName` | Horoscopes/Components/jsoncpp/include/json_reader.cpp:475-497 | the name and colon of the next member, a closing brace, or an error followed by recovery |
| `JsonReader.Reader.ReadMemberEnd` | Horoscopes/Components/jsoncpp/include/json_reader.cpp:505-520 | the separator behind a member, with the comment branch of the code |
| `JsonReader.Reader.ReadItemEnd` | Horoscopes/Components/jsoncpp/include/json_reader.cpp:549-565 | the separator behind an item |
| `JsonReader.Reader.RecoverFromError` | Horoscopes/Components/jsoncpp/include/json_reader.cpp:792-806 | recovery moves the cursor behind the closing token or to the end, and leaves the error list as it was |
| `JsonReader.Reader.AddErrorAndRecover` | Horoscopes/Components/jsoncpp/include/json_reader.cpp:809-816 | exactly one error is added |
| `JsonReader.Reader.ReadToken` | Horoscopes/Components/jsoncpp/include/json_reader.cpp:263-335 | one token, never an empty one before the end |
| `JsonReader.Reader.SkipCommentTokens` | Horoscopes/Components/jsoncpp/include/json_reader.cpp:235-250 | the first token that is no comment, if comments are allowed |
| `JsonReader.Reader.ReadComment` | Horoscopes/Components/jsoncpp/include/json_reader.cpp:367-392 | how far a comment extends, and whether it is closed |
| `JsonReader.Reader.ReadCStyleComment` | Horoscopes/Components/jsoncpp/include/json_reader.cpp:415-425 | the extent of a block comment |
| `JsonReader.Reader.ReadCppStyleComment` | Horoscopes/Components/jsoncpp/include/json_reader.cpp:428-438 | the extent of a line comment |
| `JsonReader.Reader.ReadString` | Horoscopes/Components/jsoncpp/include/json_reader.cpp:453-466 | the extent of a string token |
| `JsonReader.Reader.ReadNumber` | Horoscopes/Components/jsoncpp/include/json_reader.cpp:441-451 | the extent of a number token |
| `JsonReader.Reader.Match` | Horoscopes/Components/jsoncpp/include/json_reader.cpp:352-364 | a keyword is consumed whole or not at all |
| `JsonReader.Reader.SkipSpaces` | Horoscopes/Components/jsoncpp/include/json_reader.cpp:338-349 | the cursor stops at the first character that is no space |
| `JsonReader.Reader.DecodeStringText` | Horoscopes/Components/jsoncpp/include/json_reader.cpp:676-720 | decoding by the escape loop, or exactly one error |
| `JsonReader.Reader.DecodeUnicodeCodePoint` | Horoscopes/Components/jsoncpp/include/json_reader.cpp:722-750 | one or two escape sequences give a code point, or exactly one error |
| `JsonReader.Reader.DecodeUnicodeEscapeSequence` | Horoscopes/Components/jsoncpp/include/json_reader.cpp:752-775 | four hexadecimal digits, or exactly one error |
| `JsonReader.Reader.DecodeNumberToken` | Horoscopes/Components/jsoncpp/include/json_reader.cpp:571-622 | the number becomes the current value, or one error is added and the value stays |
| `JsonErrors.OneError` | Horoscopes/Components/jsoncpp/include/json_reader.cpp:184-568 | a value that is not accepted has exactly one error, however deep |
| `JsonErrors.RecoverySkips` | Horoscopes/Components/jsoncpp/include/json_reader.cpp:792-806 | skipping passes over every token up to the bracket looked for, and over that |
| `JsonErrors.NoValue` | Horoscopes/Components/jsoncpp/include/json_reader.cpp:221-223 | a token that begins no value is reported; the place keeps what it held |
| `JsonErrors.NoNumber` | Horoscopes/Components/jsoncpp/include/json_reader.cpp:658-659 | a number token that cannot be scanned is reported with its text; the place keeps what it held |
| `JsonErrors.NoCommaInArray` | Horoscopes/Components/jsoncpp/include/json_reader.cpp:551-561 | behind an item a token that is neither comma nor bracket is reported; the items read are kept and the array is skipped |
| `JsonErrors.BadItem` | Horoscopes/Components/jsoncpp/include/json_reader.cpp:542-547 | an item that fails leaves its one error; what was read of it is kept and the array is skipped |
| `JsonErrors.BadMember` | Horoscopes/Components/jsoncpp/include/json_reader.cpp:498-503 | a member that fails leaves its one error; what was read of it is stored and the object is skipped |
| `JsonErrors.PlaceAfterPut` | Horoscopes/Components/jsoncpp/include/json_reader.cpp:498 | the place a member is read into holds what an earlier member of that name left, or null |
| `JsonErrors.NoName` | Horoscopes/Components/jsoncpp/include/json_reader.cpp:475-525 | where a name should begin another token is reported, and a brace behind a name that is not empty |
| `JsonErrors.NoColon` | Horoscopes/Components/jsoncpp/include/json_reader.cpp:489-497 | behind a name a token that is no colon is reported |
| `JsonErrors.NoCommaInObject` | Horoscopes/Components/jsoncpp/include/json_reader.cpp:505-515 | behind a member a token that is neither comma, brace nor comment is reported; the member is stored |
| `JsonErrors.ScalarRoot` | Horoscopes/Components/jsoncpp/include/json_reader.cpp:168-180 | in strict mode a scalar root is one more error, about the whole document |
| `JsonErrors.HexErrors` | Horoscopes/Components/jsoncpp/include/json_reader.cpp:758-772 | too few digits, or the first that is no hexadecimal digit, is reported where it stands |
| `JsonErrors.SecondHalfErrors` | Horoscopes/Components/jsoncpp/include/json_reader.cpp:734-747 | behind a high surrogate: fewer than six characters, or no other escape |
| `JsonErrors.CommaMissing` | Horoscopes/Components/jsoncpp/include/json_reader.cpp:551-561 | a document of two numbers without a comma: its whole outcome |
| `JsonLexer.TokenAt` | Horoscopes/Components/jsoncpp/include/json_reader.cpp:263-335 | tokens lie inside the buffer, are never empty before the end, and string and number tokens have the shape their decoders rely on |
| `JsonLexer.AfterRecovery` | Horoscopes/Components/jsoncpp/include/json_reader.cpp:792-806 | skipping to a closing token ends, inside the buffer |
| `JsonLexer.LexesAreTokens` | Horoscopes/Components/jsoncpp/include/json_reader.cpp:263-335 | a token-by-token reading that reaches the end is the token stream of the text |
| `JsonLexer.LineCommentEnds` | Horoscopes/Components/jsoncpp/include/json_reader.cpp:428-438 | a line comment ends behind the first carriage return or line feed |
| `JsonLexer.BlockCommentEnds` | Horoscopes/Components/jsoncpp/include/json_reader.cpp:415-425 | a block comment ends behind the first star and slash, and is open if there are none |
| `JsonLexer.LetterToken` | Horoscopes/Components/jsoncpp/include/json_reader.cpp:306-317 | a letter begins one of the three keywords or is an error of one character |
| `JsonLexer.OtherToken` | Horoscopes/Components/jsoncpp/include/json_reader.cpp:324-332 | a NUL ends the stream, and a character that begins no token is an error of one character |
| `JsonString.StringRoundTrip` | Horoscopes/Components/jsoncpp/include/json_writer.cpp:119-182 | string codec: wherever the quoted text stands and whatever follows, reading stops exactly behind it, and decoding returns the C string |
| `JsonString.ValueToQuotedString` | Horoscopes/Components/jsoncpp/include/json_writer.cpp:119-182 | both the plain path and the escape loop produce the one quoted text |
| `JsonString.PlainText` | Horoscopes/Components/jsoncpp/include/json_writer.cpp:124-125 | on a text without special characters the escape loop would change nothing, so the plain path agrees with it |
| `JsonString.ContainsControlCharacter` | Horoscopes/Components/jsoncpp/include/json_writer.cpp:23-31 | true exactly if a control character stands before the first NUL |
| `JsonString.QuoteUnitsMean` | Horoscopes/Components/jsoncpp/include/json_writer.cpp:133-179 | every character, escaped or not, means itself |
| `JsonString.DecodeUnits` | Horoscopes/Components/jsoncpp/include/json_reader.cpp:676-720 | the decoder gives valid units their meaning, and fails exactly if a high surrogate is not followed by another escape |
| `JsonString.DecodedAreUnits` | Horoscopes/Components/jsoncpp/include/json_reader.cpp:676-720 | the decoder accepts nothing but valid units, and consumes the token to its end |
| `JsonString.AfterStringUnits` | Horoscopes/Components/jsoncpp/include/json_reader.cpp:453-466 | a string token ends at the quote behind its units |
| `JsonString.NoEmptyEscape` | Horoscopes/Components/jsoncpp/include/json_reader.cpp:686-687 | the empty-escape error cannot occur for a token that was read |
| `JsonString.CodePointAt` | Horoscopes/Components/jsoncpp/include/json_reader.cpp:722-750 | every code point the decoder returns is at most 0x10FFFF and no high surrogate |
| `JsonString.SurrogatePair` | Horoscopes/Components/jsoncpp/include/json_reader.cpp:722-750 | every code point from 0x10000 to 0x10FFFF, written as its surrogate pair in any hexadecimal digits, decodes to its own UTF-8 bytes |
| `JsonString.Utf8IsRfc3629` | Horoscopes/Components/jsoncpp/include/json_tool.h:18-53 | the encoder is the form of RFC 3629 on all scalar values and on nothing else; it is empty exactly above 0x10FFFF |
| `JsonString.Utf8Injective` | Horoscopes/Components/jsoncpp/include/json_tool.h:18-53 | no two code points share an encoding |
| `JsonNumber.DecodeNumber` | Horoscopes/Components/jsoncpp/include/json_reader.cpp:571-622 | the overflow test is exact: the integer path is kept exactly if 64 bits hold the value, which is then stored; the error at line 598 cannot occur |
| `JsonNumber.InspectDouble` | Horoscopes/Components/jsoncpp/include/json_reader.cpp:574-580 | the marks that make a token a double |
| `JsonNumber.UIntToString` | Horoscopes/Components/jsoncpp/include/json_tool.h:78-89 | the backward loop stays inside its buffer and leaves the decimal text with its NUL; other characters stay |
| `JsonNumber.ValueToStringInt` | Horoscopes/Components/jsoncpp/include/json_writer.cpp:34-46 | the signed text of every 64-bit integer, the minimum included; the assertion at line 44 holds |
| `JsonNumber.ValueToStringUInt` | Horoscopes/Components/jsoncpp/include/json_writer.cpp:49-56 | the decimal text of every unsigned 64-bit integer |
| `JsonNumber.DecimalDenotes` | Horoscopes/Components/jsoncpp/include/json_tool.h:78-89 | the digits denote the number |
| `JsonNumber.DecimalFits` | Horoscopes/Components/jsoncpp/include/json_tool.h:64-67 | 20 digits are enough for 64 bits |
| `JsonNumber.IntRoundTrip` | Horoscopes/Components/jsoncpp/include/json_reader.cpp:571-622 | every signed 64-bit integer survives printing and decoding |
| `JsonNumber.UIntRoundTrip` | Horoscopes/Components/jsoncpp/include/json_reader.cpp:571-622 | every unsigned 64-bit integer survives printing and decoding |
| `JsonNumber.LoneMinus` | Horoscopes/Components/jsoncpp/include/json_reader.cpp:586-616 | a sign without digits decodes to 0 |
| `JsonNumber.NumberTags` | Horoscopes/Components/jsoncpp/include/json_reader.cpp:615-620 | the tag is int up to 2147483647 and for negative numbers, uint above |
| `ZeroTrimming.TrimZeros` | Horoscopes/Components/jsoncpp/include/json_writer.cpp:82-110 | the in-place loop yields the trimmed text |
| `ZeroTrimming.TrimFixed` | Horoscopes/Components/jsoncpp/include/json_writer.cpp:82-110 | on fixed notation only zeros behind the point go, one is kept, and the number denoted is the same |
| `ZeroTrimming.TrimKeepsExponent` | Horoscopes/Components/jsoncpp/include/json_writer.cpp:82-110 | texts in exponent form are returned unchanged |
| `ZeroTrimming.TrimIdempotent` | Horoscopes/Components/jsoncpp/include/json_writer.cpp:82-110 | trimming twice is trimming once, for every text |
| `ZeroTrimming.TrimLiterals` | Horoscopes/Components/jsoncpp/include/json_writer.cpp:82-110 | four texts and what is left of them |
| `JsonValue.FindAfterPut` | Horoscopes/Components/jsoncpp/src/lib_json/json_value.cpp:1147-1168 | storing under a key changes that key alone |
| `JsonValue.PutKeepsSorted` | Horoscopes/Components/jsoncpp/src/lib_json/json_value.cpp:1147-1168 | storing keeps the keys sorted and distinct |
| `JsonValue.FindSpec` | Horoscopes/Components/jsoncpp/src/lib_json/json_value.cpp:1147-1168 | a key is found exactly if it is there, with its value |
| `JsonValue.LessTotal` | Horoscopes/Components/jsoncpp/src/lib_json/json_value.cpp:229-235 | the key order is total and strict |
| `JsonValue.LessTransitive` | Horoscopes/Components/jsoncpp/src/lib_json/json_value.cpp:229-235 | the key order is transitive |
| `JsonValue.LessAtDifference` | Horoscopes/Components/jsoncpp/src/lib_json/json_value.cpp:229-235 | a name comes before its continuations, and the first different byte decides |
| `JsonFastWriter.FastWriter.Write` | Horoscopes/Components/jsoncpp/include/json_writer.cpp:207-214 | the document is the compact text and a newline, whatever was written before |
| `JsonFastWriter.FastWriter.WriteValue` | Horoscopes/Components/jsoncpp/include/json_writer.cpp:217-273 | the compact text of the value is appended |
| `JsonFastWriter.FastLexes` | Horoscopes/Components/jsoncpp/include/json_writer.cpp:217-273 | wherever the compact text of a tree stands, its tokens are those of the tree |
| `JsonStyledWriter.StyledWriter.Write` | Horoscopes/Components/jsoncpp/include/json_writer.cpp:287-298 | the document is the pretty text and a newline; the indentation is back to empty |
| `JsonStyledWriter.StyledWriter.WriteValue` | Horoscopes/Components/jsoncpp/include/json_writer.cpp:301-359 | the layout without any scratch list; the indentation is restored; while children are collected only leaves are written and only the list changes |
| `JsonStyledWriter.StyledWriter.WriteArrayValue` | Horoscopes/Components/jsoncpp/include/json_writer.cpp:362-412 | the scratch list always holds the texts of this array, however its elements are nested; the assertion at line 401 holds |
| `JsonStyledWriter.StyledWriter.IsMultilineArray` | Horoscopes/Components/jsoncpp/include/json_writer.cpp:415-443 | whether the array fits a line; afterwards the scratch list holds all its texts, or nothing |
| `JsonStyledWriter.StyledWriter.WriteMultilineItems` | Horoscopes/Components/jsoncpp/include/json_writer.cpp:373-397 | one item to a line, from the scratch list or by nested writes that may change it |
| `JsonStyledWriter.StyledWriter.WriteOneLine` | Horoscopes/Components/jsoncpp/include/json_writer.cpp:401-409 | the items on one line, from the scratch list |
| `JsonStyledWriter.StyledWriter.WriteIndent` | Horoscopes/Components/jsoncpp/include/json_writer.cpp:456-468 | a new line and the indentation, unless the text ends in a space |
| `JsonStyledWriter.StyledLexes` | Horoscopes/Components/jsoncpp/include/json_writer.cpp:301-491 | wherever the pretty text of a tree stands, its tokens are those of the tree |
| `BatchAllocator.BatchAllocator.constructor` | Horoscopes/Components/jsoncpp/include/json_batchallocator.h:33-42 | one dummy page, nothing carved; the state is valid if allocations fill a page |
| `BatchAllocator.BatchAllocator.Allocate` | Horoscopes/Components/jsoncpp/include/json_batchallocator.h:56-80 | a slot no caller holds; the high-water mark rises only if all carved slots are live; freed slots come back last in, first out |
| `BatchAllocator.BatchAllocator.AdvanceBatch` | Horoscopes/Components/jsoncpp/include/json_batchallocator.h:64-76 | every later page is full, so the search ends in a new page |
| `BatchAllocator.BatchAllocator.Release` | Horoscopes/Components/jsoncpp/include/json_batchallocator.h:84-89 | the slot leaves the live ones and heads the free list, which stays acyclic and threaded through its own slots |
| `BatchAllocator.BatchAllocator.Safety` | Horoscopes/Components/jsoncpp/include/json_batchallocator.h:33-113 | in every reachable state two live slots do not overlap |
| `BatchAllocator.BatchAllocator.Economy` | Horoscopes/Components/jsoncpp/include/json_batchallocator.h:33-113 | in every reachable state, also with nothing live: live and free slots together are the high-water mark, and no page is superfluous |
| `BatchAllocator.BatchAllocator.LiveInMemory` | Horoscopes/Components/jsoncpp/include/json_batchallocator.h:77-79 | a live slot lies as a whole inside the carved part of its page, and is not free |
| `SlotModel.SlotsDisjoint` | Horoscopes/Components/jsoncpp/include/json_batchallocator.h:77-79 | two slots of one page do not overlap |
| `SlotModel.PagesAreMinimal` | Horoscopes/Components/jsoncpp/include/json_batchallocator.h:64-76 | fewer pages could not hold the slots carved |
| `BatchAllocator.BatchAllocator.CarvedByEndTest` | Horoscopes/Components/jsoncpp/include/json_batchallocator.h:64-79 | in every valid state the front page is carved as far as the recurrence of the end test says after that many slots |
| `SlotModel.OffsetOfFront` | Horoscopes/Components/jsoncpp/include/json_batchallocator.h:64-79 | the same of every list of pages that are full but for the front one |
| `SlotModel.CarvingStaysInside` | Horoscopes/Components/jsoncpp/include/json_batchallocator.h:64-79 | the recurrence of the end test never passes the end mark if and only if the allocation size divides the page size, which the code does not demand |
| `SlotModel.CarvingStaysInMemory` | Horoscopes/Components/jsoncpp/include/json_batchallocator.h:64-113 | the recurrence of the end test never passes the memory of a page if and only if the allocation size divides the page size |
| `SlotModel.DefaultPageOfEights` | Horoscopes/Components/jsoncpp/include/json_batchallocator.h:33-113 | with the default page of 255 objects and allocations of 8, the 32nd allocation ends behind the end mark and the 256th behind the memory |
| `LogFilters.FilterList.constructor` | pusher-ios/NWPusher-master/Mac/NWLCore.c:48 | the static list: warnings are printed |
| `LogFilters.FilterList.AddFilter` | pusher-ios/NWPusher-master/Mac/NWLCore.c:296-301 | as a map of at most 16 keys without case: just this key is set, or cleared if the filter does not act or does not fit; the result tells whether it was set |
| `LogFilters.FilterList.HasFilter` | pusher-ios/NWPusher-master/Mac/NWLCore.c:303-307 | the action of the key, or none |
| `LogFilters.FilterList.RemoveMatchingFilters` | pusher-ios/NWPusher-master/Mac/NWLCore.c:309-313 | exactly the included keys go, and their number is returned |
| `LogFilters.FilterList.RestoreDefaultFilters` | pusher-ios/NWPusher-master/Mac/NWLCore.c:323-326 | the map is the default one |
| `LogFilters.FilterList.RemoveFilter1` | pusher-ios/NWPusher-master/Mac/NWLCore.c:256-274 | the swap-delete loop by key, and the count |
| `LogFilters.FilterList.RemoveMatchingFilters1` | pusher-ios/NWPusher-master/Mac/NWLCore.c:276-294 | the swap-delete loop by inclusion, and the count |
| `LogFilters.FilterList.MatchingActionForContext` | pusher-ios/NWPusher-master/Mac/NWLCore.c:206-226 | the matching loop over the list in order |
| `LogFilters.FilterList.ScoreOf` | pusher-ios/NWPusher-master/Mac/NWLCore.c:209-219 | whether a filter matches, and how many properties both give |
| `LogFilters.SwapDeleteKeeps` | pusher-ios/NWPusher-master/Mac/NWLCore.c:256-274 | the swap-delete loop removes every dropped filter, each occurrence, and keeps all others with their multiplicity |
| `LogFilters.AddedOnMap` | pusher-ios/NWPusher-master/Mac/NWLCore.c:296-301 | adding refines the bounded map: unique keys and the bound are kept |
| `LogFilters.RemovedOnMap` | pusher-ios/NWPusher-master/Mac/NWLCore.c:276-294 | removal refines the map, and the count is the difference in size |
| `LogFilters.FullListReplaces` | pusher-ios/NWPusher-master/Mac/NWLCore.c:228-301 | a full list takes no new key, but still replaces the action of one it has |
| `LogFilters.MatcherDecides` | pusher-ios/NWPusher-master/Mac/NWLCore.c:206-226 | no action exactly if nothing matches; a break exactly if some matching break scores at least as high as the first matching filter |
| `LogFilters.BestMatchCondition` | pusher-ios/NWPusher-master/Mac/NWLCore.h:154 | the promised best match is missed if and only if a matching break reaches the score of the first match while some matching print scores higher than every matching break |
| `LogFilters.BestMatchMayLose` | pusher-ios/NWPusher-master/Mac/NWLCore.c:206-226 | two filters for which the action is not that of the best match |
| `LogFilterNames.SameIsAlike` | pusher-ios/NWPusher-master/Mac/NWLCore.c:264 | two names are taken for the same if and only if they have the same length and at each place the same character or the two cases of one letter A-Z; a missing name is like no other |
| `LogFilterNames.FoundByName` | pusher-ios/NWPusher-master/Mac/NWLCore.c:240-254 | a filter is found if and only if one with alike names is in the list, and the action is that of this one |
| `LogFilterNames.AddedByName` | pusher-ios/NWPusher-master/Mac/NWLCore.c:228-301 | adding takes out the filter with alike names, keeps all others, and adds the new one if it acts and 16 are not exceeded |
| `LogFilterNames.RemovedByName` | pusher-ios/NWPusher-master/Mac/NWLCore.c:276-294 | a pattern takes out exactly the filters that have all names it gives, in whatever case |
| `LogFilterNames.MatchesByName` | pusher-ios/NWPusher-master/Mac/NWLCore.c:214 | a filter matches if and only if the names that both give are alike |
| `LogFilterNames.ScoreCounts` | pusher-ios/NWPusher-master/Mac/NWLCore.c:212-218 | the score is the number of properties that both give |
| `LogFilterNames.LookupIgnoresCase` | pusher-ios/NWPusher-master/Mac/NWLCore.c:240-254 | names in another case, in the list or asked for, are looked up with the same result |
| `LogFilterNames.AddingIgnoresCase` | pusher-ios/NWPusher-master/Mac/NWLCore.c:296-301 | names in another case, in the list or added, give the same map |
| `LogFilterNames.MatchingIgnoresCase` | pusher-ios/NWPusher-master/Mac/NWLCore.c:206-226 | names in another case, in the list or the context, give the same action |
| `LogFilterNames.WarnInCapitals` | pusher-ios/NWPusher-master/Mac/NWLCore.c:48 | the default filter is found and replaced under its name in capitals |
| `LogAbout.AboutString` | pusher-ios/NWPusher-master/Mac/NWLCore.c:365-386 | for any filters, printers and size: the full length is returned, the buffer holds as much of the text as fits with a NUL behind, and no other character is touched, none at all if the size is not positive |
| `LogAbout.Print` | pusher-ios/NWPusher-master/Mac/NWLCore.c:358-363 | one print advances text, pointer and room together, also when the room is used up |
| `LogAbout.Snprintf` | pusher-ios/NWPusher-master/Mac/NWLCore.c:358-363 | the bounded print the macro relies on |
| `LogAbout.BufferIsPrefix` | pusher-ios/NWPusher-master/Mac/NWLCore.c:388-392 | as a C string the buffer is the prefix of length min(total, size-1), and complete exactly under the test that decides on the dots |
| `LogAbout.PrintedTag` | pusher-ios/NWPusher-master/Mac/NWLCore.c:367-379 | the line of a printing filter with a tag |
| `LogAbout.BrokenAt` | pusher-ios/NWPusher-master/Mac/NWLCore.c:367-379 | the line of a breaking filter with all four names |
| `LogAbout.AboutOne` | pusher-ios/NWPusher-master/Mac/NWLCore.c:365-386 | the text of one filter and one printer |
| `HoroscopesParser.Parser.InvokeTextFromTreeWithZodiacKey` | server/updater/horoscopesparser.js:9-45 | exactly the text of the subtree without its classed paragraphs is appended, or nothing if the sign is unknown |
| `HoroscopesParser.Parser.InvokePayloadData` | server/updater/horoscopesparser.js:47-77 | the walk over globals is the fold of one visit over the elements in document order |
| `HoroscopesParser.Parser.VisitElement` | server/updater/horoscopesparser.js:48-65 | what one element does to the globals |
| `HoroscopesParser.Parser.Parse` | server/updater/horoscopesparser.js:79-87 | the completion handler gets the two globals of the fold |
| `HoroscopesParser.FinalText` | server/updater/horoscopesparser.js:47-77 | the prediction is the text of the last content div in document order, under the sign known there |
| `HoroscopesParser.FinalKey` | server/updater/horoscopesparser.js:58-65 | the sign is the last class of the last classed body |
| `HoroscopesParser.NoContent` | server/updater/horoscopesparser.js:47-77 | a page without a content div repeats the prediction of the page before |
| `HoroscopesParser.FreshCondition` | server/updater/horoscopesparser.js:5-77 | the prediction does not depend on earlier pages if and only if there is a content div and a classed body precedes the last one, or that one has no text |
| `HoroscopesParser.MarksStay` | server/updater/horoscopesparser.js:38-43 | no mark is ever lost, although paragraphs take their class out at line 41: the walk that would do so has returned before |
| `HoroscopesParser.LastClassOf` | server/updater/horoscopesparser.js:12-17 | the class is that of the last attribute of this name |
| `HoroscopesText.TextOfChild` | server/updater/horoscopesparser.js:28-36 | for any children before and behind: a text adds itself, an element what it gives alone, a classed paragraph and any other node nothing |
| `HoroscopesText.ClassedParagraphs` | server/updater/horoscopesparser.js:11-26 | classed paragraphs are the p elements whose last class attribute is not empty |
| `HoroscopesText.TextIsOfLeaves` | server/updater/horoscopesparser.js:9-45 | the text of a subtree is that of all its text leaves outside classed paragraphs, each once and in document order |
| `HoroscopesText.PredictionOfPage` | server/updater/horoscopesparser.js:47-77 | the prediction is that of the leaves of the last content div, whatever was parsed before, or empty if no sign is known there |
| `HoroscopesText.SmallPageGives` | server/updater/horoscopesparser.js:5-77 | a page with one body, one div and one paragraph |
| `IndicatorPresenter.Presenter.StartAnimating` | Horoscopes/Components/NVActivityIndicatorView/Presenter/NVActivityIndicatorPresenter.swift:143-158 | the whole state after a start |
| `IndicatorPresenter.Presenter.RunShowClosure` | Horoscopes/Components/NVActivityIndicatorView/Presenter/NVActivityIndicatorPresenter.swift:148-157 | the whole state after the delayed show, with or without a window |
| `IndicatorPresenter.Presenter.Show` | Horoscopes/Components/NVActivityIndicatorView/Presenter/NVActivityIndicatorPresenter.swift:184-245 | the view appears and its own hide closure is scheduled, if there is a window |
| `IndicatorPresenter.Presenter.StopAnimating` | Horoscopes/Components/NVActivityIndicatorView/Presenter/NVActivityIndicatorPresenter.swift:163-165 | the whole state after a stop |
| `IndicatorPresenter.Presenter.RunHideClosure` | Horoscopes/Components/NVActivityIndicatorView/Presenter/NVActivityIndicatorPresenter.swift:242-244 | the whole state after the delayed hide |
| `IndicatorPresenter.Presenter.RequestHide` | Horoscopes/Components/NVActivityIndicatorView/Presenter/NVActivityIndicatorPresenter.swift:247-255 | what a hide request does in each state |
| `IndicatorPresenter.AlwaysInvariant` | Horoscopes/Components/NVActivityIndicatorView/Presenter/NVActivityIndicatorPresenter.swift:143-265 | in every run: one container exactly in the shown states, the group counts the waiting show closures, whoever waits to show has its closure pending or had no window, and what is shown has its hide closure pending |
| `IndicatorPresenter.StepKeepsInvariant` | Horoscopes/Components/NVActivityIndicatorView/Presenter/NVActivityIndicatorPresenter.swift:143-265 | every call and every closure, stale ones included, keeps all of this |
| `IndicatorPresenter.RemovedAtSecondRequest` | Horoscopes/Components/NVActivityIndicatorView/Presenter/NVActivityIndicatorPresenter.swift:247-265 | the view goes exactly at the second hide request since the show, not counting those that find no window |
| `IndicatorPresenter.ThresholdCondition` | Horoscopes/Components/NVActivityIndicatorView/Presenter/NVActivityIndicatorPresenter.swift:143-158 | over all continuations: no view appears before the time of the start plus its threshold, until the next start, if and only if no closure of an earlier start can run before it is over |
| `IndicatorPresenter.MinimumTimeCondition` | Horoscopes/Components/NVActivityIndicatorView/Presenter/NVActivityIndicatorPresenter.swift:242-265 | in every run from a show: its view goes before the time of the show plus the minimum time of its data if and only if two requests, from calls or closures of earlier shows, come before that time, the second with a window |
| `IndicatorPresenter.OneStopKeepsTime` | Horoscopes/Components/NVActivityIndicatorView/Presenter/NVActivityIndicatorPresenter.swift:242-265 | shown with no hide closure left over, a view stays the minimum time of its data if stopped once at most |
| `IndicatorPresenter.OnlyShowsAdd` | Horoscopes/Components/NVActivityIndicatorView/Presenter/NVActivityIndicatorPresenter.swift:184-245 | a view appears if and only if the closure of a start finds a window and the presenter still waits to show |
| `IndicatorPresenter.ShowSchedulesHide` | Horoscopes/Components/NVActivityIndicatorView/Presenter/NVActivityIndicatorPresenter.swift:242-244 | a show adds one hide closure, due at the time of the show plus the minimum time |
| `IndicatorPresenter.StartSchedulesShow` | Horoscopes/Components/NVActivityIndicatorView/Presenter/NVActivityIndicatorPresenter.swift:148 | a start adds one show closure with its data, due at the time of the start plus the threshold |
| `IndicatorPresenter.IdleCalls` | Horoscopes/Components/NVActivityIndicatorView/Presenter/NVActivityIndicatorPresenter.swift:143-165 | a start while busy and a stop while hidden change nothing |
| `IndicatorPresenter.NoWindowKeeps` | Horoscopes/Components/NVActivityIndicatorView/Presenter/NVActivityIndicatorPresenter.swift:184-265 | without a window a show or a hide request leaves the view as it is, and no closure is added |
| `IndicatorPresenter.StopCancels` | Horoscopes/Components/NVActivityIndicatorView/Presenter/NVActivityIndicatorPresenter.swift:247-265 | a stop before the view has appeared cancels it: until the next start there is none, whatever closures run |
| `IndicatorPresenter.OrdinaryRun` | Horoscopes/Components/NVActivityIndicatorView/Presenter/NVActivityIndicatorPresenter.swift:143-265 | the events of an ordinary run and when the view is there |
| `IndicatorPresenter.Quiescent` | Horoscopes/Components/NVActivityIndicatorView/Presenter/NVActivityIndicatorPresenter.swift:143-265 | when no closure is left the group is empty and no view waits for one |
| `IndicatorPresenter.StoppedTwice` | Horoscopes/Components/NVActivityIndicatorView/Presenter/NVActivityIndicatorPresenter.swift:163-165 | a run of four events in which two stops hide the view at the time it was shown |
| `IndicatorPresenter.ShownByStaleClosure` | Horoscopes/Components/NVActivityIndicatorView/Presenter/NVActivityIndicatorPresenter.swift:148-157 | a run of six events in which the closure of a stopped start shows the next view 1 ms after its start |
| `TextHelpers.SeparateString` | Horoscopes/src/base/horobase.cc:16-30 | the loop over the stream yields the non-empty pieces |
| `TextHelpers.GetLine` | Horoscopes/src/base/horobase.cc:20-24 | one line, and whether the stream stays good |
| `TextHelpers.SplitsAtDelimiter` | Horoscopes/src/base/horobase.cc:16-30 | splitting at a delimiter splits both sides alone, which with the case of no delimiter determines the pieces of every string |
| `TextHelpers.PiecesCover` | Horoscopes/src/base/horobase.cc:16-30 | the pieces are non-empty, free of the delimiter and together all other characters in order |
| `TextHelpers.PiecesOfJoined` | Horoscopes/src/base/horobase.cc:16-30 | splitting undoes joining |
| `TextHelpers.ReplaceAll` | Horoscopes/src/base/horobase.cc:74-81 | with something to look for, the in-place loop ends and joins with the replacement what stood between the occurrences |
| `TextHelpers.BetweenCuts` | Horoscopes/src/base/horobase.cc:74-81 | these parts, joined with the pattern, are the string, and each cut is at the first occurrence left: leftmost, not overlapping |
| `TextHelpers.EndsIfNotEmpty` | Horoscopes/src/base/horobase.cc:74-81 | the loop ends if and only if the pattern is not empty, for every string and replacement |
| `Url.Url.Path` | Horoscopes/src/data/url.cc:18-35 | the text between the first slash and the next question mark |
| `Url.Url.Queries` | Horoscopes/src/data/url.cc:46-63 | the pairs behind the first question mark |
| `Url.Url.Get` | Horoscopes/src/data/url.cc:37-44 | the value of the first query of that name |
| `Url.QueriesInvertJoining` | Horoscopes/src/data/url.cc:46-63 | reading undoes writing, for every list of non-empty names and values free of & and = behind any prefix without ? |
| `Url.PathBetween` | Horoscopes/src/data/url.cc:18-35 | the path is recovered from any URL built around it |
| `Url.FirstValueFound` | Horoscopes/src/data/url.cc:37-44 | the first query of a name wins; an unknown name gives the empty string |
| `Url.OnlyPairs` | Horoscopes/src/data/url.cc:52-61 | between any other texts: a text of two non-empty pieces is a query, and a text of any other number is passed over |
| `Url.NoQueries` | Horoscopes/src/data/url.cc:46-51 | without a question mark there are no queries |
| `DateWrapper.DateWrapper.FromString` | Horoscopes/src/data/datewrapper.cc:12-22 | each field gets its part, up to the first part that is no 32-bit number, where the code throws |
| `DateWrapper.DateWrapper.ToString` | Horoscopes/src/data/datewrapper.cc:24-33 | day, month and, unless zero, year with dots between; nothing for three zeros |
| `DateWrapper.DateRoundTrip` | Horoscopes/src/data/datewrapper.cc:12-33 | the text of every date is read without an exception, and restores the date if and only if the date has a year or the object read into has none and, for the empty text, the object is zero already |
| `DateWrapper.NewDateRoundTrip` | Horoscopes/src/data/datewrapper.cc:12-33 | a new object is restored from the text of every date of 32-bit day, month and year, negative ones included |
| `DateWrapper.StoiOfText` | Horoscopes/src/data/datewrapper.cc:15 | every 32-bit number is read back from its text, which has no dot |
| `DateWrapper.StoiReads` | Horoscopes/src/data/datewrapper.cc:15 | a number is read behind spaces and a sign up to the first character that is no digit, if 32 bits hold it |
| `DateWrapper.PartsInOrder` | Horoscopes/src/data/datewrapper.cc:12-33 | day, month and year stand in this order |
| `JsonReader.Reader.ReadPastComments` | Horoscopes/Components/jsoncpp/include/json_reader.cpp:240-245 | the loop over comment tokens ends at the first other token |
| `JsonReader.Reader.DecodeString` | Horoscopes/Components/jsoncpp/include/json_reader.cpp:665-673 | the decoded text, up to its first NUL, becomes the current value, or one error is added and the value stays |
| `JsonParser.ParseArray` | Horoscopes/Components/jsoncpp/include/json_reader.cpp:528-568 | an array ends inside the buffer, and is accepted exactly when it reports no error |
| `JsonParser.AfterItem` | Horoscopes/Components/jsoncpp/include/json_reader.cpp:549-565 | behind an item the cursor advances to the next item, to the end of the array, or past an error |
| `JsonParser.BeforeMember` | Horoscopes/Components/jsoncpp/include/json_reader.cpp:475-497 | before a member the cursor advances past name and colon, past the closing brace, or past an error |
| `JsonParser.AfterMember` | Horoscopes/Components/jsoncpp/include/json_reader.cpp:505-520 | behind a member the cursor advances to the next name, to the end of the object, or past an error |
| `JsonLexer.AfterString` | Horoscopes/Components/jsoncpp/include/json_reader.cpp:453-466 | a string token ends inside the buffer, behind a quote if it is closed |
| `JsonLexer.AfterNumber` | Horoscopes/Components/jsoncpp/include/json_reader.cpp:441-451 | a number token consists of number characters and no number character follows it |
| `JsonLexer.PastComments` | Horoscopes/Components/jsoncpp/include/json_reader.cpp:240-245 | the loop over comments ends with a token that is no comment, read where it stands |
| `JsonText.ScalarText` | Horoscopes/Components/jsoncpp/include/json_writer.cpp:222-239 | the text of every value that is neither array nor object |
| `JsonString.EscapeCharacter` | Horoscopes/Components/jsoncpp/include/json_writer.cpp:135-178 | the text of the one unit that stands for the character |
| `JsonString.StringTokenHere` | Horoscopes/Components/jsoncpp/include/json_reader.cpp:453-466 | a token of valid units is read to its end and decodes exactly if the units mean something |
| `JsonFastWriter.FastWriter.WriteItems` | Horoscopes/Components/jsoncpp/include/json_writer.cpp:240-252 | the items between brackets, separated by commas, are appended |
| `JsonFastWriter.FastWriter.WriteMembers` | Horoscopes/Components/jsoncpp/include/json_writer.cpp:253-271 | the members between braces, separated by commas, are appended |
| `JsonStyledWriter.StyledWriter.WriteMembers` | Horoscopes/Components/jsoncpp/include/json_writer.cpp:334-354 | one member to a line, and the indentation is restored |
| `JsonStyledWriter.StyledWriter.CollectChildValues` | Horoscopes/Components/jsoncpp/include/json_writer.cpp:430-438 | the scratch list receives the text of every item, the document stays |
| `JsonStyledWriter.StyledWriter.PushValue` | Horoscopes/Components/jsoncpp/include/json_writer.cpp:446-453 | the text goes to the scratch list or to the document, never to both |
| `BatchAllocator.BatchAllocator.InsertBatch` | Horoscopes/Components/jsoncpp/include/json_batchallocator.h:70-75 | the new page heads the list and is the current one |
| `BatchAllocator.BatchAllocator.Carve` | Horoscopes/Components/jsoncpp/include/json_batchallocator.h:77-79 | a slot never handed out before, and the state is valid again |
| `BatchAllocator.BatchAllocator.PopFree` | Horoscopes/Components/jsoncpp/include/json_batchallocator.h:58-63 | the head of the free list is handed out, its successor heads the list |
| `BatchAllocator.BatchAllocator.PushLink` | Horoscopes/Components/jsoncpp/include/json_batchallocator.h:87-88 | writing the link into the freed slot breaks no other link |
| `LogFilters.FilterList.HasSameKey` | pusher-ios/NWPusher-master/Mac/NWLCore.c:258-266 | the loop over the properties compares all of them, without case, null only with null |
| `LogFilters.FilterList.IsIncluded` | pusher-ios/NWPusher-master/Mac/NWLCore.c:278-286 | the loop over the properties compares those that the pattern gives |
| `LogFilters.AddFits` | pusher-ios/NWPusher-master/Mac/NWLCore.c:228-301 | whether an added filter finds room: always if its key was there |
| `LogFilters.BestExists` | pusher-ios/NWPusher-master/Mac/NWLCore.c:206-226 | among matching filters there is one of the highest score |
| `LogAbout.PrintFilter` | pusher-ios/NWPusher-master/Mac/NWLCore.c:367-379 | one filter, by up to six prints |
| `LogAbout.PrintFilters` | pusher-ios/NWPusher-master/Mac/NWLCore.c:367-379 | all filters, in order |
| `LogAbout.PrintPrinters` | pusher-ios/NWPusher-master/Mac/NWLCore.c:380-383 | all printers, in order |
| `HoroscopesParser.Parser.FindClass` | server/updater/horoscopesparser.js:12-17 | the last class attribute wins |
| `HoroscopesParser.Parser.InvokeChildren` | server/updater/horoscopesparser.js:28-36 | the text of the children in order, without the classed paragraphs among them |

## Left out

- `StyledStreamWriter`: the stream twin of the pretty printer repeats its layout over an output stream.
- Comments: they are read and skipped as tokens; collecting them, attaching them to values and printing them is not modelled.
- Error texts: messages are an enumeration; line and column numbers and the formatted list are not modelled.
- JsonText.ValueToStringDouble: does not model `%#.16g`; the formatted text is any word without spaces that fits the 32 characters.
- JsonRoundTrip.FastRoundTrip: demands of doubles only that scanning their printed text gives them back, since both conversions are library calls.
- JsonStandard.AcceptsTheGrammar: takes the last of several members with one name as its value, which RFC 8259 leaves open; numbers mean what the reader's scanning says.
- JsonStandard.ReadsTheStandard: works on bytes and does not ask whether they are UTF-8, as section 8.1 of RFC 8259 does.
- Null strings: `valueToQuotedString` returns nothing for a null pointer, and no string value of the model is null.
- Sizes: `int` and `size_t` lengths do not wrap, and strings are not cut at `maxInt` characters.
- Pointers on the node stack: values with write-back stand for them, so aliasing inside the tree is not captured.
- `Json::Value` internals: array storage, reference counts, comparison of values and paths are not modelled.
- BatchAllocator.BatchAllocator.Allocate: requires a valid state, which there is only if the allocation size divides the page size; what the code does beyond the end of a page is undefined and not modelled.
- Allocator memory: the destructor and running out of memory are not modelled; a slot's memory is a table of pointers.
- Printers of the logger, its clock, standard error output and breaking into the debugger: system calls.
- LogAbout.AboutString: printers have names, and the text of the time offset is a parameter.
- `strcasecmp`: letters A to Z only, as in the C locale.
- `setMessage` and all views, fonts, animations and layout constraints of the presenter.
- The HTML parser, the logger calls and the download around the horoscope page parser.
- TextHelpers.ReplaceAll: requires a pattern, because Dafny methods return.
- The other functions of `horobase.cc`: time conversion, `findInSet` and UTF-16 conversion.
- DateWrapper.DateWrapper.FromString: returns whether the code would throw; the exception itself is not modelled.
