/**
 The reader object: a cursor over a document, the stack of values being filled, and the errors.

 Every method is proved to do what the functions of `JsonLexer`, `JsonString` and `JsonParser` say.
 The stack `nodes` holds the values the source points to: a place pushed for an element is written
 back into its container when it is popped.
 */
module JsonReader {
  import opened CText
  import opened JsonValue
  import opened JsonNumber
  import opened JsonLexer
  import opened JsonString
  import opened JsonParser

  class Reader {
    const cfg: Config
    var document: string
    var current: nat
    var nodes: seq<Value>
    var errors: seq<ErrorInfo>

    constructor (cfg: Config)
      ensures this.cfg == cfg && document == "" && current == 0 && nodes == [] && errors == []
    {
      this.cfg := cfg;
      document, current, nodes, errors := "", 0, [], [];
    }

    /** The cursor is inside the document. */
    ghost predicate InDocument()
      reads this
    {
      current <= |document|
    }

    /** The value on top of the stack has become that of `o`, and cursor and errors have moved on as `o` says. */
    ghost predicate Yields(o: Outcome, successful: bool, nodes0: seq<Value>, errors0: seq<ErrorInfo>)
      requires nodes0 != []
      reads this
    {
      && successful == o.ok
      && current == o.pos
      && nodes == nodes0[..|nodes0| - 1] + [o.value]
      && errors == errors0 + o.errors
    }

    function CurrentValue(): Value
      requires nodes != []
      reads this
    {
      nodes[|nodes| - 1]
    }

    method SetCurrentValue(value: Value)
      requires nodes != []
      modifies this`nodes
      ensures nodes == old(nodes)[..|old(nodes)| - 1] + [value]
    {
      nodes := nodes[..|nodes| - 1] + [value];
    }

    /** The next character, or NUL at the end, where the cursor stays. */
    method GetNextChar() returns (c: char)
      requires InDocument()
      modifies this`current
      ensures InDocument() && c == At(document, old(current))
      ensures current == if old(current) == |document| then old(current) else old(current) + 1
    {
      if current == |document| {
        return '\0';
      }
      c := document[current];
      current := current + 1;
    }

    // ----- scanning -----

    method SkipSpaces()
      requires InDocument()
      modifies this`current
      ensures current == AfterSpaces(document, old(current))
    {
      while current != |document|
        invariant InDocument() && AfterSpaces(document, current) == AfterSpaces(document, old(current))
        decreases |document| - current
      {
        var c := document[current];
        if c == ' ' || c == '\t' || c == '\r' || c == '\n' {
          current := current + 1;
        } else {
          break;
        }
      }
    }

    method Match(pattern: string) returns (ok: bool)
      requires InDocument()
      modifies this`current
      ensures AfterWord(document, old(current), pattern) == Scanned(current, ok)
    {
      if |document| - current < |pattern| {
        return false;
      }
      var index := |pattern|;
      while index != 0
        invariant 0 <= index <= |pattern| <= |document| - current && current == old(current)
        invariant forall i :: index <= i < |pattern| ==> document[current + i] == pattern[i]
      {
        index := index - 1;
        if document[current + index] != pattern[index] {
          assert document[current..current + |pattern|][index] != pattern[index];
          return false;
        }
      }
      assert document[current..current + |pattern|] == pattern;
      current := current + |pattern|;
      ok := true;
    }

    method ReadCStyleComment() returns (ok: bool)
      requires InDocument()
      modifies this`current
      ensures AfterCStyleComment(document, old(current)) == Scanned(current, ok)
    {
      while current != |document|
        invariant InDocument()
        invariant AfterCStyleComment(document, current) == AfterCStyleComment(document, old(current))
        decreases |document| - current
      {
        var c := GetNextChar();
        if c == '*' && At(document, current) == '/' {
          var slash := GetNextChar();
          return slash == '/';
        }
      }
      var c := GetNextChar();
      ok := c == '/';
    }

    method ReadCppStyleComment()
      requires InDocument()
      modifies this`current
      ensures current == AfterCppStyleComment(document, old(current))
    {
      while current != |document|
        invariant InDocument()
        invariant AfterCppStyleComment(document, current) == AfterCppStyleComment(document, old(current))
        decreases |document| - current
      {
        var c := GetNextChar();
        if c == '\r' || c == '\n' {
          return;
        }
      }
    }

    method ReadComment() returns (ok: bool)
      requires InDocument()
      modifies this`current
      ensures AfterComment(document, old(current)) == Scanned(current, ok)
    {
      var c := GetNextChar();
      ok := false;
      if c == '*' {
        ok := ReadCStyleComment();
      } else if c == '/' {
        ReadCppStyleComment();
        ok := true;
      }
    }

    method ReadNumber()
      requires InDocument()
      modifies this`current
      ensures current == AfterNumber(document, old(current))
    {
      while current != |document|
        invariant InDocument() && AfterNumber(document, current) == AfterNumber(document, old(current))
        decreases |document| - current
      {
        if !IsNumberChar(document[current]) {
          break;
        }
        current := current + 1;
      }
    }

    method ReadString() returns (ok: bool)
      requires InDocument()
      modifies this`current
      ensures AfterString(document, old(current)) == Scanned(current, ok)
    {
      var c := '\0';
      while current != |document|
        invariant InDocument() && c != '"'
        invariant AfterString(document, current) == AfterString(document, old(current))
        decreases |document| - current
      {
        c := GetNextChar();
        if c == '\\' {
          var _ := GetNextChar();
        } else if c == '"' {
          break;
        }
      }
      ok := c == '"';
    }

    method ReadToken() returns (token: Token)
      requires InDocument()
      modifies this`current
      ensures InDocument() && token == TokenAt(document, old(current)) && current == token.end
    {
      SkipSpaces();
      var start := current;
      var c := GetNextChar();
      var ok := true;
      var kind := ErrorToken;
      match c {
        case '{' => kind := ObjectBegin;
        case '}' => kind := ObjectEnd;
        case '[' => kind := ArrayBegin;
        case ']' => kind := ArrayEnd;
        case '"' => kind := StringToken; ok := ReadString();
        case '/' => kind := Comment; ok := ReadComment();
        case 't' => kind := TrueToken; ok := Match("rue");
        case 'f' => kind := FalseToken; ok := Match("alse");
        case 'n' => kind := NullToken; ok := Match("ull");
        case ',' => kind := ArraySeparator;
        case ':' => kind := MemberSeparator;
        case '\0' => kind := EndOfStream;
        case _ =>
          if IsDigit(c) || c == '-' {
            kind := NumberToken;
            ReadNumber();
          } else {
            ok := false;
          }
      }
      if !ok {
        kind := ErrorToken;
      }
      token := Token(kind, start, current);
    }

    method SkipCommentTokens() returns (token: Token)
      requires InDocument()
      modifies this`current
      ensures InDocument() && token == FirstToken(cfg, document, old(current)) && current == token.end
    {
      token := ReadToken();
      if cfg.allowComments {
        token := ReadPastComments(token);
      }
    }

    /** The loops that read on while the token is a comment. */
    method ReadPastComments(first: Token) returns (token: Token)
      requires InDocument() && first.start <= first.end == current
      modifies this`current
      ensures InDocument() && token == PastComments(document, first) && current == token.end
    {
      token := first;
      while token.kind == Comment
        invariant InDocument() && token.start <= token.end == current
        invariant PastComments(document, token) == PastComments(document, first)
        decreases |document| - current, if token.kind == Comment then 1 else 0
      {
        token := ReadToken();
      }
    }

    // ----- errors -----

    method AddError(message: Message, token: Token, extra: Option<nat>) returns (successful: bool)
      modifies this`errors
      ensures !successful && errors == old(errors) + [ErrorInfo(message, token, extra)]
    {
      errors := errors + [ErrorInfo(message, token, extra)];
      successful := false;
    }

    /** Reading ahead records no error, so cutting the list back to its old size changes nothing. */
    method RecoverFromError(until: TokenType) returns (successful: bool)
      requires InDocument()
      modifies this`current, this`errors
      ensures !successful && errors == old(errors)
      ensures InDocument() && current == AfterRecovery(document, old(current), until)
    {
      var errorCount := |errors|;
      while true
        invariant InDocument() && errors == old(errors)
        invariant AfterRecovery(document, current, until) == AfterRecovery(document, old(current), until)
        decreases |document| - current
      {
        var skip := ReadToken();
        if skip.kind == until || skip.kind == EndOfStream {
          break;
        }
      }
      errors := errors[..errorCount];
      successful := false;
    }

    method AddErrorAndRecover(message: Message, token: Token, until: TokenType) returns (successful: bool)
      requires InDocument()
      modifies this`current, this`errors
      ensures !successful && errors == old(errors) + [ErrorInfo(message, token, None)]
      ensures InDocument() && current == AfterRecovery(document, old(current), until)
    {
      var _ := AddError(message, token, None);
      successful := RecoverFromError(until);
    }

    // ----- leaves -----

    method DecodeNumberToken(token: Token) returns (successful: bool)
      requires nodes != [] && token.start <= token.end == current && InDocument()
      requires IsNumberToken(document[token.start..token.end])
      modifies this`nodes, this`errors
      ensures Yields(ParseNumber(cfg, document, token, old(CurrentValue())), successful, old(nodes), old(errors))
    {
      var text := document[token.start..token.end];
      var number := DecodeNumber(cfg.scan, text);
      match number {
        case Some(value) =>
          SetCurrentValue(value);
          successful := true;
        case None =>
          successful := AddError(NotANumber(text), token, None);
      }
    }

    method DecodeUnicodeEscapeSequence(token: Token, p: nat, end: nat)
      returns (ok: bool, next: nat, unicode: nat)
      requires p <= end <= |document|
      modifies this`errors
      ensures match EscapeSequence(document, p, end)
              case CodePoint(cp, q) => ok && next == q && unicode == cp && errors == old(errors)
              case BadCodePoint(message, extra) =>
                !ok && errors == old(errors) + [ErrorInfo(message, token, Some(extra))]
    {
      next, unicode := p, 0;
      if end - p < 4 {
        ok := AddError(FourDigitsExpected, token, Some(p));
        return;
      }
      for index := 0 to 4
        invariant next == p + index && errors == old(errors) && unicode < HexLimit(4 - index)
        invariant HexDigits(document, next, 4 - index, unicode) == HexDigits(document, p, 4, 0)
      {
        var c := document[next];
        next := next + 1;
        if IsHexDigit(c) {
          unicode := unicode * 16 + HexValue(c);
        } else {
          ok := AddError(HexDigitExpected, token, Some(next));
          return;
        }
      }
      ok := true;
    }

    method DecodeUnicodeCodePoint(token: Token, p: nat, end: nat) returns (ok: bool, next: nat, unicode: nat)
      requires p <= end <= |document|
      modifies this`errors
      ensures match CodePointAt(document, p, end)
              case CodePoint(cp, q) => ok && next == q && unicode == cp && errors == old(errors)
              case BadCodePoint(message, extra) =>
                !ok && errors == old(errors) + [ErrorInfo(message, token, Some(extra))]
    {
      ok, next, unicode := DecodeUnicodeEscapeSequence(token, p, end);
      if !ok || !(0xD800 <= unicode <= 0xDBFF) {
        return;
      }
      if end - next < 6 {
        ok := AddError(SixCharactersExpected, token, Some(next));
        return;
      }
      var backslash := document[next];
      next := next + 1;
      if backslash != '\\' {
        ok := AddError(SecondHalfExpected, token, Some(next));
        return;
      }
      var u := document[next];
      next := next + 1;
      if u != 'u' {
        ok := AddError(SecondHalfExpected, token, Some(next));
        return;
      }
      var surrogatePair;
      ok, next, surrogatePair := DecodeUnicodeEscapeSequence(token, next, end);
      if ok {
        unicode := 0x1_0000 + unicode % 0x400 * 0x400 + surrogatePair % 0x400;
      }
    }

    method DecodeStringText(token: Token) returns (ok: bool, decoded: string)
      requires token.start + 2 <= token.end <= |document|
      modifies this`errors
      ensures match DecodeToken(document, token.start, token.end)
              case Text(text) => ok && decoded == text && errors == old(errors)
              case BadText(message, extra) =>
                !ok && errors == old(errors) + [ErrorInfo(message, token, Some(extra))]
    {
      hide CodePointAt, Utf8, EscapeSequence;
      decoded := "";
      var p := token.start + 1;
      var end := token.end - 1;
      while p != end
        invariant token.start + 1 <= p <= end && errors == old(errors)
        invariant DecodeToken(document, token.start, token.end) == Prepend(decoded, Decode(document, p, end))
        decreases end - p
      {
        ghost var before, rest := decoded, Decode(document, p, end);
        var c := document[p];
        p := p + 1;
        if c == '"' {
          return true, decoded;
        } else if c == '\\' {
          if p == end {
            ok := AddError(EmptyEscape, token, Some(p));
            return;
          }
          var escape := document[p];
          p := p + 1;
          if IsShortEscape(escape) {
            decoded := decoded + [ShortEscape(escape)];
            PrependTwice(before, [ShortEscape(escape)], Decode(document, p, end));
          } else if escape == 'u' {
            var unicode;
            ok, p, unicode := DecodeUnicodeCodePoint(token, p, end);
            if !ok {
              return;
            }
            decoded := decoded + Utf8(unicode);
            PrependTwice(before, Utf8(unicode), Decode(document, p, end));
          } else {
            ok := AddError(BadEscape, token, Some(p));
            return;
          }
        } else {
          decoded := decoded + [c];
          PrependTwice(before, [c], Decode(document, p, end));
        }
      }
      ok := true;
    }

    method DecodeString(token: Token) returns (successful: bool)
      requires nodes != [] && token.start + 2 <= token.end == current && InDocument()
      modifies this`nodes, this`errors
      ensures Yields(ParseString(document, token, old(CurrentValue())), successful, old(nodes), old(errors))
    {
      var ok, decoded := DecodeStringText(token);
      if !ok {
        return false;
      }
      SetCurrentValue(StringVal(CStr(decoded)));
      successful := true;
    }

    // ----- values -----

    method ReadValue() returns (successful: bool)
      requires InDocument() && nodes != []
      modifies this`current, this`nodes, this`errors
      ensures InDocument() && current >= old(current)
      ensures Yields(ParseValue(cfg, document, old(current), old(CurrentValue())), successful, old(nodes), old(errors))
      decreases |document| - current, 0
    {
      var token := SkipCommentTokens();
      match token.kind {
        case ObjectBegin => successful := ReadObject();
        case ArrayBegin => successful := ReadArray();
        case NumberToken => successful := DecodeNumberToken(token);
        case StringToken => successful := DecodeString(token);
        case TrueToken =>
          SetCurrentValue(BoolVal(true));
          successful := true;
        case FalseToken =>
          SetCurrentValue(BoolVal(false));
          successful := true;
        case NullToken =>
          SetCurrentValue(NullVal);
          successful := true;
        case _ =>
          successful := AddError(ValueExpected, token, None);
      }
    }

    /** Cursor and errors have moved on as `step` says. */
    ghost predicate Stepped(step: Step, errors0: seq<ErrorInfo>)
      reads this
    {
      match step
      case Close(end) => current == end && errors == errors0
      case Next(_, next) => current == next && errors == errors0
      case Broken(error, end) => current == end && errors == errors0 + [error]
    }

    method ReadArray() returns (successful: bool)
      requires InDocument() && nodes != []
      modifies this`current, this`nodes, this`errors
      ensures InDocument() && current >= old(current)
      ensures Yields(ParseArray(cfg, document, old(current)), successful, old(nodes), old(errors))
      decreases |document| - current, 2
    {
      assert errors + [] == errors;
      SetCurrentValue(ArrayVal([]));
      SkipSpaces();
      if At(document, current) == ']' {
        var _ := ReadToken();
        return true;
      }
      ghost var doc, start, below, items := document, current, nodes[..|nodes| - 1], [];
      var index := 0;
      while true
        invariant old(current) <= start <= current && InDocument() && errors == old(errors)
        invariant nodes == below + [ArrayVal(items)] && |items| == index
        invariant document == doc && ParseItems(cfg, doc, start, []) == ParseItems(cfg, doc, current, items)
        decreases |doc| - current
      {
        ghost var item := ParseValue(cfg, doc, current, NullVal);
        var ok := ReadItem(index, below, items);
        index, items := index + 1, items + [item.value];
        if !ok {
          successful := RecoverFromError(ArrayEnd);
          return;
        }
        var step := ReadItemEnd();
        if step.Close? {
          return true;
        }
        if step.Broken? {
          return false;
        }
      }
    }

    /** The end of an iteration of `readArray`. */
    method ReadItemEnd() returns (step: Step)
      requires InDocument()
      modifies this`current, this`errors
      ensures step == AfterItem(document, old(current)) && Stepped(step, old(errors))
    {
      var token := ReadToken();
      token := ReadPastComments(token);
      var badTokenType := token.kind != ArraySeparator && token.kind != ArrayEnd;
      if badTokenType {
        var _ := AddErrorAndRecover(MissingCommaInArray, token, ArrayEnd);
        step := Broken(ErrorInfo(MissingCommaInArray, token, None), current);
      } else if token.kind == ArrayEnd {
        step := Close(current);
      } else {
        step := Next("", current);
      }
    }

    /** A new element, null at first, is read in its place at the end of the current array. */
    method ReadItem(index: nat, ghost below: seq<Value>, ghost items: seq<Value>) returns (ok: bool)
      requires InDocument() && nodes == below + [ArrayVal(items)] && |items| == index
      modifies this`current, this`nodes, this`errors
      ensures InDocument() && current >= old(current)
      ensures var item := ParseValue(cfg, document, old(current), NullVal);
              && ok == item.ok && current == item.pos && errors == old(errors) + item.errors
              && nodes == below + [ArrayVal(items + [item.value])]
      decreases |document| - current, 1
    {
      SetCurrentValue(ArrayVal(CurrentValue().items + [NullVal]));
      nodes := nodes + [CurrentValue().items[index]];
      ok := ReadValue();
      var item := CurrentValue();
      nodes := nodes[..|nodes| - 1];
      assert nodes == below + [ArrayVal(items + [NullVal])];
      SetCurrentValue(ArrayVal(CurrentValue().items[index := item]));
      assert (items + [NullVal])[index := item] == items + [item];
    }

    method ReadObject() returns (successful: bool)
      requires InDocument() && nodes != []
      modifies this`current, this`nodes, this`errors
      ensures InDocument() && current >= old(current)
      ensures Yields(ParseMembers(cfg, document, old(current), [], ""), successful, old(nodes), old(errors))
      decreases |document| - current, 2
    {
      assert errors + [] == errors;
      SetCurrentValue(ObjectVal([]));
      ghost var doc, start, below, members := document, current, nodes[..|nodes| - 1], [];
      var name := "";
      while true
        invariant start == old(current) <= current && InDocument() && errors == old(errors)
        invariant nodes == below + [ObjectVal(members)]
        invariant document == doc
        invariant ParseMembers(cfg, doc, start, [], "") == ParseMembers(cfg, doc, current, members, name)
        decreases |doc| - current
      {
        var step := ReadMemberName(name);
        if !step.Next? {
          return step.Close?;
        }
        name := step.name;
        var key := CStr(name);
        ghost var member := ParseValue(cfg, doc, current, Place(members, key));
        var ok := ReadMember(key, below, members);
        members := Put(members, key, member.value);
        if !ok {
          successful := RecoverFromError(ObjectEnd);
          return;
        }
        step := ReadMemberEnd();
        if !step.Next? {
          return step.Close?;
        }
      }
    }

    /** The beginning of an iteration of `readObject`: the name and the colon, or the end of the object. */
    method ReadMemberName(name: string) returns (step: Step)
      requires InDocument()
      modifies this`current, this`errors
      ensures step == BeforeMember(document, old(current), name) && Stepped(step, old(errors))
    {
      var tokenName := ReadToken();
      tokenName := ReadPastComments(tokenName);
      if tokenName.kind == ObjectEnd && name == "" {
        return Close(current);
      }
      if tokenName.kind != StringToken {
        var _ := AddErrorAndRecover(MissingName, tokenName, ObjectEnd);
        return Broken(ErrorInfo(MissingName, tokenName, None), current);
      }
      var ok, newName := DecodeStringText(tokenName);
      if !ok {
        var _ := RecoverFromError(ObjectEnd);
        return Broken(errors[|errors| - 1], current);
      }
      var colon := ReadToken();
      if colon.kind != MemberSeparator {
        var _ := AddErrorAndRecover(MissingColon, colon, ObjectEnd);
        return Broken(ErrorInfo(MissingColon, colon, None), current);
      }
      step := Next(newName, current);
    }

    /** The end of an iteration of `readObject`. */
    method ReadMemberEnd() returns (step: Step)
      requires InDocument()
      modifies this`current, this`errors
      ensures step == AfterMember(document, old(current)) && Stepped(step, old(errors))
    {
      var comma := ReadToken();
      if comma.kind != ObjectEnd && comma.kind != ArraySeparator && comma.kind != Comment {
        var _ := AddErrorAndRecover(MissingCommaInObject, comma, ObjectEnd);
        return Broken(ErrorInfo(MissingCommaInObject, comma, None), current);
      }
      comma := ReadPastComments(comma);
      step := if comma.kind == ObjectEnd then Close(current) else Next("", current);
    }

    /** The value of the member `key` of the current object is read in its place. */
    method ReadMember(key: string, ghost below: seq<Value>, ghost members: seq<Member>) returns (ok: bool)
      requires InDocument() && nodes == below + [ObjectVal(members)]
      modifies this`current, this`nodes, this`errors
      ensures InDocument() && current >= old(current)
      ensures var member := ParseValue(cfg, document, old(current), Place(members, key));
              && ok == member.ok && current == member.pos && errors == old(errors) + member.errors
              && nodes == below + [ObjectVal(Put(members, key, member.value))]
      decreases |document| - current, 1
    {
      nodes := nodes + [Place(CurrentValue().members, key)];
      ok := ReadValue();
      var value := CurrentValue();
      nodes := nodes[..|nodes| - 1];
      assert nodes == below + [ObjectVal(members)];
      SetCurrentValue(ObjectVal(Put(CurrentValue().members, key, value)));
    }

    // ----- documents -----

    /** The root value, read by a reader that forgets what it read before. */
    method ReadRoot(doc: string, root: Value) returns (successful: bool)
      modifies this
      ensures document == doc && InDocument()
      ensures var o := ParseValue(cfg, doc, 0, root);
              successful == o.ok && current == o.pos && errors == o.errors && nodes == [o.value]
    {
      hide ParseValue;
      document, current, errors, nodes := doc, 0, [], [];
      nodes := nodes + [root];
      assert nodes[..0] == [];
      successful := ReadValue();
    }

    /**
     `parse`: whatever the document and whatever an earlier parse left behind, the result depends on the
     document and the root alone, and it is true exactly when no error was recorded.
     */
    method Parse(doc: string, root: Value) returns (value: Value, successful: bool)
      modifies this
      ensures document == doc && InDocument()
      ensures var o := ParseDocument(cfg, doc, root);
              value == o.value && successful == o.ok && current == o.pos && errors == o.errors
      ensures successful <==> errors == []
      ensures nodes == [value]
    {
      ghost var o := ParseValue(cfg, doc, 0, root);
      RootOutcome(cfg, doc, root);
      hide ParseValue, ParseDocument, FirstToken, TokenAt;
      successful := ReadRoot(doc, root);
      var token := SkipCommentTokens();
      value := CurrentValue();
      if cfg.strictRoot {
        if !value.ArrayVal? && !value.ObjectVal? {
          token := Token(ErrorToken, 0, |document|);
          successful := AddError(BadRoot, token, None);
        }
      }
    }
  }

  lemma RootOutcome(cfg: Config, doc: string, root: Value)
    ensures var o := ParseValue(cfg, doc, 0, root);
            var end := FirstToken(cfg, doc, o.pos).end;
            ParseDocument(cfg, doc, root)
            == if cfg.strictRoot && !o.value.ArrayVal? && !o.value.ObjectVal? then
                 Outcome(false, o.value, end,
                         o.errors + [ErrorInfo(BadRoot, Token(ErrorToken, 0, |doc|), None)])
               else Outcome(o.ok, o.value, end, o.errors)
  {
  }

  lemma PrependTwice(a: string, b: string, rest: Decoded)
    ensures Prepend(a + b, rest) == Prepend(a, Prepend(b, rest))
  {
    if rest.Text? {
      Associative(a, b, rest.text);
    }
  }
}
