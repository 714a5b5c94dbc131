/**
 C strings and byte buffers, as the C and C++ sources see them.

 A `char` of the sources is a Dafny `char` holding the byte's unsigned value; a buffer is a
 `string` and a pointer into it is an index.
 */
module CText {

  datatype Option<+T> = None | Some(value: T)

  /** The character a pointer at `p` reads: the one past the buffer is the NUL sentinel of `c_str()`. */
  function At(doc: string, p: nat): char {
    if p < |doc| then doc[p] else '\0'
  }

  predicate IsDigit(c: char) {
    '0' <= c <= '9'
  }

  predicate IsSpace(c: char) {
    c == ' ' || c == '\t' || c == '\r' || c == '\n'
  }

  /** What C code sees of `s`: everything before its first NUL. */
  function CStr(s: string): (r: string)
    ensures r <= s && '\0' !in r
    ensures |r| < |s| ==> s[|r|] == '\0'
    ensures '\0' !in s ==> r == s
  {
    if s == "" || s[0] == '\0' then "" else [s[0]] + CStr(s[1..])
  }

  /** `text` stands in `doc` at position `p`. */
  predicate StartsAt(doc: string, p: nat, text: string) {
    p + |text| <= |doc| && doc[p..p + |text|] == text
  }

  lemma Associative(a: string, b: string, c: string)
    ensures (a + b) + c == a + (b + c)
  {
  }

  lemma StartsAtConcat(doc: string, p: nat, a: string, b: string)
    ensures StartsAt(doc, p, a + b) <==> StartsAt(doc, p, a) && StartsAt(doc, p + |a|, b)
  {
    if p + |a| + |b| <= |doc| {
      assert doc[p..p + |a + b|] == doc[p..p + |a|] + doc[p + |a|..p + |a| + |b|];
      if StartsAt(doc, p, a + b) {
        assert a == (a + b)[..|a|] == doc[p..p + |a|];
        assert b == (a + b)[|a|..] == doc[p + |a|..p + |a| + |b|];
      }
    }
  }

  lemma StartsAtIndex(doc: string, p: nat, text: string, i: nat)
    requires StartsAt(doc, p, text) && i < |text|
    ensures doc[p + i] == text[i]
  {
    assert doc[p..p + |text|][i] == text[i];
  }
}
