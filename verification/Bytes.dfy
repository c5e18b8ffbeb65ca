// Bytes and the few ASCII facts every module needs.

module Bytes {

  type byte = b: int | 0 <= b < 256

  type bytes = seq<byte>

  const TAB: byte := 9
  const LF: byte := 10
  const FORM_FEED: byte := 12
  const CR: byte := 13
  const SPACE: byte := 32
  const DOUBLE_QUOTE: byte := 34
  const DOLLAR: byte := 36
  const PERCENT: byte := 37
  const AMPERSAND: byte := 38
  const QUOTE: byte := 39
  const STAR: byte := 42
  const PLUS: byte := 43
  const COMMA: byte := 44
  const DASH: byte := 45
  const DOT: byte := 46
  const SLASH: byte := 47
  const COLON: byte := 58
  const SEMICOLON: byte := 59
  const EQUALS: byte := 61
  const BACKSLASH: byte := 92
  const UNDERSCORE: byte := 95

  /** The byte at an index, or -1 where a checked lookup finds nothing. */
  function Get(s: bytes, i: int): int {
    if 0 <= i < |s| then s[i] else -1
  }

  predicate IsAlpha(b: int) {
    65 <= b <= 90 || 97 <= b <= 122
  }

  predicate IsDigit(b: int) {
    48 <= b <= 57
  }

  /** ASCII whitespace: tab, line feed, form feed, carriage return, space. */
  predicate IsWhitespace(b: int) {
    b == TAB || b == LF || b == FORM_FEED || b == CR || b == SPACE
  }

  predicate IsNewline(b: int) {
    b == LF || b == CR
  }

  function ToUpper(b: byte): byte {
    if 97 <= b <= 122 then b - 32 else b
  }

  function ToLower(b: byte): byte {
    if 65 <= b <= 90 then b + 32 else b
  }

  /** Whether a word equals an ASCII keyword written in capitals, in any letter case. */
  predicate EqIgnoreCase(word: bytes, keyword: string) {
    |word| == |keyword| && forall i :: 0 <= i < |word| ==> ToUpper(word[i]) == keyword[i] as int
  }

  /** Whether a text equals an ASCII text. */
  predicate EqAscii(s: bytes, text: string) {
    |s| == |text| && forall i :: 0 <= i < |s| ==> s[i] == text[i] as int
  }

  function Concat(parts: seq<bytes>): bytes {
    if parts == [] then [] else parts[0] + Concat(parts[1..])
  }

  lemma ConcatStep(parts: seq<bytes>)
    requires parts != []
    ensures Concat(parts) == parts[0] + Concat(parts[1..])
  {
  }

  lemma {:induction false} ConcatAppend(a: seq<bytes>, b: seq<bytes>)
    ensures Concat(a + b) == Concat(a) + Concat(b)
  {
    if a == [] {
      assert a + b == b;
    } else {
      hide Concat;
      ConcatStep(a);
      ConcatStep(a + b);
      ConcatAppend(a[1..], b);
      assert (a + b)[0] == a[0] && (a + b)[1..] == a[1..] + b;
      Associative(a[0], Concat(a[1..]), Concat(b));
    }
  }

  lemma Associative(a: bytes, b: bytes, c: bytes)
    ensures a + (b + c) == (a + b) + c
  {
  }
}
