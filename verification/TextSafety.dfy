// What clean text is, byte by byte, and what sanitizing makes of a text piece by
// piece; and which byte sequences are characters (src/error.rs).

module TextSafety {
  import opened Bytes
  import opened Wrappers
  import opened Utf8
  import opened Redaction
  import opened Sanitizing
  import Patterns
  import Submission

  // ---- Characters. ----

  /** A Unicode scalar value: a code point that is no surrogate. */
  predicate IsScalar(c: int) {
    0 <= c <= 0xD7FF || 0xE000 <= c <= 0x10FFFF
  }

  /** Section 3 of RFC 3629. */
  function Encode(c: int): bytes
    requires IsScalar(c)
  {
    if c <= 0x7F then [c]
    else if c <= 0x7FF then [0xC0 + c / 64, 0x80 + c % 64]
    else if c <= 0xFFFF then [0xE0 + c / 4096, 0x80 + c / 64 % 64, 0x80 + c % 64]
    else [0xF0 + c / 262144, 0x80 + c / 4096 % 64, 0x80 + c / 64 % 64, 0x80 + c % 64]
  }

  lemma EncodedIsCharacter(c: int, after: bytes)
    requires IsScalar(c)
    ensures CharLength(Encode(c) + after, 0) == |Encode(c)|
  {
    var s := Encode(c) + after;
    var e := Encode(c);
    assert forall k :: 0 <= k < |e| ==> Get(s, k) == e[k];
    if 0xFFFF < c {
      assert 0 <= c / 262144 <= 4;
      assert c / 262144 == 0 ==> c / 4096 % 64 >= 16;
      assert c / 262144 == 4 ==> c / 4096 % 64 <= 15;
    } else if 0x7FF < c {
      assert c / 4096 == 0 ==> c / 64 % 64 >= 32;
      assert c / 4096 == 13 ==> c / 64 % 64 <= 31;
    }
  }

  /** The scalar value of a character: the six low bits of each further byte, behind those of the first. */
  function ScalarAt(s: bytes, i: nat): int
    requires CharLength(s, i) > 0
  {
    var n := CharLength(s, i);
    var a: int, b: int, c: int, d: int := Get(s, i), Get(s, i + 1), Get(s, i + 2), Get(s, i + 3);
    if n == 1 then a
    else if n == 2 then (a - 0xC0) * 64 + (b - 0x80)
    else if n == 3 then (a - 0xE0) * 4096 + (b - 0x80) * 64 + (c - 0x80)
    else (a - 0xF0) * 262144 + (b - 0x80) * 4096 + (c - 0x80) * 64 + (d - 0x80)
  }

  lemma Digits(a: int, b: int, c: int, d: int)
    requires 0 <= a && 0 <= b < 64 && 0 <= c < 64 && 0 <= d < 64
    ensures var n := a * 262144 + b * 4096 + c * 64 + d;
            n / 262144 == a && n / 4096 % 64 == b && n / 64 % 64 == c && n % 64 == d
            && n / 4096 == a * 64 + b && n / 64 == a * 4096 + b * 64 + c
  {
    var n := a * 262144 + b * 4096 + c * 64 + d;
    assert n / 64 == a * 4096 + b * 64 + c;
    assert n / 4096 == a * 64 + b;
  }

  lemma TwoBytes(a: byte, b: byte)
    requires 0xC2 <= a <= 0xDF && IsTail(b)
    ensures var n := (a as int - 0xC0) * 64 + (b as int - 0x80); IsScalar(n) && Encode(n) == [a, b]
  {
    Digits(0, 0, a as int - 0xC0, b as int - 0x80);
  }

  lemma ThreeBytes(a: byte, b: byte, c: byte)
    requires 0xE0 <= a <= 0xEF && IsSecond(a, b) && IsTail(c)
    ensures var n := (a as int - 0xE0) * 4096 + (b as int - 0x80) * 64 + (c as int - 0x80);
            IsScalar(n) && Encode(n) == [a, b, c]
  {
    Digits(0, a as int - 0xE0, b as int - 0x80, c as int - 0x80);
  }

  lemma FourBytes(a: byte, b: byte, c: byte, d: byte)
    requires 0xF0 <= a <= 0xF4 && IsSecond(a, b) && IsTail(c) && IsTail(d)
    ensures var n := (a as int - 0xF0) * 262144 + (b as int - 0x80) * 4096 + (c as int - 0x80) * 64 + (d as int - 0x80);
            IsScalar(n) && Encode(n) == [a, b, c, d]
  {
    Digits(a as int - 0xF0, b as int - 0x80, c as int - 0x80, d as int - 0x80);
  }

  /** Every well-formed character is the encoding of a scalar value. */
  lemma CharacterIsEncoded(s: bytes, i: nat)
    requires CharLength(s, i) > 0
    ensures IsScalar(ScalarAt(s, i)) && s[i..i + CharLength(s, i)] == Encode(ScalarAt(s, i))
  {
    hide Encode;
    hide IsScalar;
    var n := CharLength(s, i);
    if n == 1 {
      OneByte(s[i]);
      assert s[i..i + 1] == [s[i]];
    } else if n == 2 {
      TwoBytes(s[i], s[i + 1]);
      assert s[i..i + 2] == [s[i], s[i + 1]];
    } else if n == 3 {
      ThreeBytes(s[i], s[i + 1], s[i + 2]);
      assert s[i..i + 3] == [s[i], s[i + 1], s[i + 2]];
    } else {
      FourBytes(s[i], s[i + 1], s[i + 2], s[i + 3]);
      assert s[i..i + 4] == [s[i], s[i + 1], s[i + 2], s[i + 3]];
    }
  }

  lemma OneByte(a: byte)
    requires a <= 0x7F
    ensures IsScalar(a) && Encode(a) == [a]
  {
  }

  /** The bytes of a blank and the characters of a blank are the same white space. */
  predicate IsWhiteSpace(c: int)
    requires IsScalar(c)
  {
    Patterns.IsUnicodeWhitespace(c as char)
  }

  /** The blanks of a line of the shell are the characters that are white space in Unicode. */
  lemma BlankMeans(c: int, after: bytes)
    requires IsScalar(c)
    ensures Submission.BlankLength(Encode(c) + after, 0) == if IsWhiteSpace(c) then |Encode(c)| else 0
  {
    var s := Encode(c) + after;
    var e := Encode(c);
    assert s[0] == e[0] && (1 < |e| ==> s[1] == e[1]) && (2 < |e| ==> s[2] == e[2]);
    if c <= 0x7FF {
      assert 0x80 <= c ==> (e[0] == 0xC2 <==> c < 0xC0);
    } else if c <= 0xFFFF {
      BlankOfThree(c, e, s);
    }
  }

  lemma BlankOfThree(c: int, e: bytes, s: bytes)
    requires 0x800 <= c <= 0xFFFF && IsScalar(c) && e == Encode(c) && 3 <= |s| && s[..3] == e
    ensures Submission.BlankLength(s, 0) == if IsWhiteSpace(c) then 3 else 0
  {
    hide Encode;
    var a, b, d := c / 4096, c / 64 % 64, c % 64;
    assert c == 4096 * a + 64 * b + d;
    ThreeOf(c);
    assert s[0] == e[0] && s[1] == e[1] && s[2] == e[2];
  }

  lemma ThreeOf(c: int)
    requires 0x800 <= c <= 0xFFFF && IsScalar(c)
    ensures Encode(c) == [0xE0 + c / 4096, 0x80 + c / 64 % 64, 0x80 + c % 64]
  {
  }

  predicate AreScalars(text: seq<int>) {
    forall k :: 0 <= k < |text| ==> IsScalar(text[k])
  }

  function EncodeAll(text: seq<int>): bytes
    requires AreScalars(text)
  {
    if text == [] then [] else Encode(text[0]) + EncodeAll(text[1..])
  }

  lemma {:induction false} BlankShift(a: bytes, b: bytes, i: nat)
    requires i <= |b|
    ensures Submission.BlankFrom(a + b, |a| + i) == Submission.BlankFrom(b, i)
    decreases |b| - i
  {
    hide Submission.BlankLength;
    if i < |b| {
      BlankLengthShift(a, b, i);
      var n := Submission.BlankLength(b, i);
      if n > 0 {
        BlankShift(a, b, i + n);
      }
    }
  }

  lemma BlankLengthShift(a: bytes, b: bytes, i: nat)
    requires i < |b|
    ensures Submission.BlankLength(a + b, |a| + i) == Submission.BlankLength(b, i)
  {
    GetPast(a, b, i);
    GetPast(a, b, i + 1);
    GetPast(a, b, i + 2);
  }

  /** A line is blank exactly when each of its characters is white space. */
  lemma {:induction false} BlankLineMeans(text: seq<int>)
    requires AreScalars(text)
    ensures Submission.BlankFrom(EncodeAll(text), 0) <==> forall k :: 0 <= k < |text| ==> IsWhiteSpace(text[k])
  {
    hide Submission.BlankLength;
    hide Encode;
    hide IsWhiteSpace;
    if text != [] {
      var head, rest := Encode(text[0]), EncodeAll(text[1..]);
      BlankMeans(text[0], rest);
      EncodeIsSome(text[0]);
      BlankShift(head, rest, 0);
      BlankLineMeans(text[1..]);
      assert forall k :: 0 < k < |text| ==> text[k] == text[1..][k - 1];
    }
  }

  lemma EncodeIsSome(c: int)
    requires IsScalar(c)
    ensures Encode(c) != []
  {
  }

  // ---- Clean text. ----

  /** No control character stands at `k`: nothing below the blank but tab and newline, no delete, no C1 control. */
  predicate IsCleanByte(s: bytes, k: nat)
    requires k < |s|
  {
    && (32 <= s[k] || s[k] == 9 || s[k] == 10)
    && s[k] != 127
    && !(s[k] == 194 && k + 1 < |s| && 128 <= s[k + 1] <= 159)
  }

  lemma {:induction false} CleanMeans(s: bytes, i: nat)
    requires i <= |s| && ValidFrom(s, i)
    ensures CleanFrom(s, i) <==> forall k :: i <= k < |s| ==> IsCleanByte(s, k)
    decreases |s| - i
  {
    if i < |s| {
      var n := CharLength(s, i);
      CleanMeans(s, i + n);
      CleanCharacter(s, i);
    }
  }

  lemma CleanCharacter(s: bytes, i: nat)
    requires i < |s| && CharLength(s, i) > 0
    ensures !MustEscape(s, i) <==> forall k :: i <= k < i + CharLength(s, i) ==> IsCleanByte(s, k)
  {
    var n := CharLength(s, i);
    assert s[i] == Get(s, i);
    assert forall k :: i < k < i + n ==> s[k] == Get(s, k) && 0x80 <= s[k] <= 0xBF;
    if MustEscape(s, i) {
      assert !IsCleanByte(s, i);
    }
  }

  // ---- What sanitizing makes of a text. ----

  predicate IsHexOf(b: int, n: int) {
    if n < 10 then b == 48 + n else b == 87 + n
  }

  /** A control character becomes `\u{00..}` with its code in hexadecimal. */
  lemma EscapeMeans(code: byte)
    requires code <= 0x9F
    ensures var r := Escape(code);
            |r| == 8 && r[..5] == [92, 117, 123, 48, 48] && r[7] == 125
            && IsHexOf(r[5], code / 16) && IsHexOf(r[6], code % 16)
  {
  }

  lemma SafeCharShift(a: bytes, b: bytes, i: nat)
    requires i < |b| && CharLength(b, i) > 0
    ensures CharLength(a + b, |a| + i) == CharLength(b, i) && SafeChar(a + b, |a| + i) == SafeChar(b, i)
  {
    var n := CharLength(b, i);
    GetPast(a, b, i);
    GetPast(a, b, i + 1);
    GetPast(a, b, i + 2);
    GetPast(a, b, i + 3);
    assert (a + b)[|a| + i..|a| + i + n] == b[i..i + n];
  }

  lemma {:induction false} SanitizeShift(a: bytes, b: bytes, i: nat)
    requires i <= |b| && ValidFrom(b, i) && ValidFrom(a + b, |a| + i)
    ensures SanitizeFrom(a + b, |a| + i) == SanitizeFrom(b, i)
    decreases |b| - i
  {
    hide SafeChar;
    hide CharLength;
    if i < |b| {
      SafeCharShift(a, b, i);
      SanitizeShift(a, b, i + CharLength(b, i));
    }
  }

  lemma SafeCharExtended(a: bytes, b: bytes, i: nat)
    requires i < |a| && CharLength(a, i) > 0
    ensures CharLength(a + b, i) == CharLength(a, i) && SafeChar(a + b, i) == SafeChar(a, i)
  {
    var n := CharLength(a, i);
    CharLengthExtended(a, b, i);
    assert forall k :: i <= k < i + n ==> Get(a + b, k) == Get(a, k);
    assert (a + b)[i..i + n] == a[i..i + n];
  }

  /** Sanitizing goes piece by piece. */
  lemma {:induction false} SanitizeConcat(a: bytes, b: bytes, i: nat)
    requires i <= |a| && ValidFrom(a, i) && Valid(b) && ValidFrom(a + b, i)
    ensures SanitizeFrom(a + b, i) == SanitizeFrom(a, i) + SanitizeFrom(b, 0)
    decreases |a| - i
  {
    hide SafeChar;
    hide CharLength;
    if i == |a| {
      SanitizeShift(a, b, 0);
    } else {
      SafeCharExtended(a, b, i);
      SanitizeConcat(a, b, i + CharLength(a, i));
    }
  }

  /** Clean text stays as it is. */
  lemma {:induction false} CleanStays(s: bytes, i: nat)
    requires i <= |s| && CleanFrom(s, i) && ValidFrom(s, i)
    ensures SanitizeFrom(s, i) == s[i..]
    decreases |s| - i
  {
    hide MustEscape;
    hide CharLength;
    if i < |s| {
      var n := CharLength(s, i);
      CleanStays(s, i + n);
      assert s[i..] == s[i..i + n] + s[i + n..];
    }
  }

  /** A control character other than newline and tab is escaped, whatever its encoding. */
  lemma ControlIsEscaped(c: int)
    requires (0 <= c < 32 && c != 9 && c != 10) || 127 <= c < 160
    ensures Valid(Encode(c)) && SanitizeFrom(Encode(c), 0) == Escape(c)
  {
    var s := Encode(c);
    assert s + [] == s;
    EncodedIsCharacter(c, []);
    assert ValidFrom(s, |s|);
    assert c >= 128 ==> s == [0xC2, c];
    assert SafeChar(s, 0) == Escape(c);
    assert SanitizeFrom(s, |s|) == [];
  }

  // ---- Diagnostics. ----

  /** `[truncated]` */
  const MARKER: bytes := [91, 116, 114, 117, 110, 99, 97, 116, 101, 100, 93]

  /** A small clean diagnostic without secrets is shown as it is. */
  lemma SmallDiagnosticStays(input: bytes)
    requires Valid(input) && Clean(Redacted(input)) && |input| <= 65536 && |Redacted(input)| <= 65536
    ensures Valid(Redacted(Considered(input)))
    ensures Bounded(SanitizeFrom(Redacted(Considered(input)), 0), |input| <= 65536) == Redacted(input)
  {
    ConsideredIsValid(input);
    CleanStays(Redacted(input), 0);
  }

  lemma {:induction false} BoundaryIsNear(s: bytes, i: nat, j: nat) returns (k: nat)
    requires j <= i <= |s| && ValidFrom(s, j)
    ensures i - 4 < k <= i && IsCharBoundary(s, k)
    decreases i - j
  {
    if i - j < 4 {
      k := j;
      assert j == |s| || CharLength(s, j) > 0;
    } else {
      k := BoundaryIsNear(s, i, j + CharLength(s, j));
    }
  }

  /** A diagnostic that is too large ends in the marker, behind all but at most three bytes of the room. */
  lemma LargeDiagnosticIsMarked(sanitized: bytes, whole: bool)
    requires Valid(sanitized) && (!whole || |sanitized| > 65536)
    ensures var r := Bounded(sanitized, whole);
            && |r| <= 65536 && MARKER <= r[|r| - |MARKER|..]
            && r[..|r| - |MARKER|] <= sanitized
            && (|r| < 65533 ==> r[..|r| - |MARKER|] == sanitized)
  {
    assert TRUNCATION_MARKER == MARKER;
    var r := Bounded(sanitized, whole);
    assert r[|r| - |MARKER|..] == MARKER;
    if |sanitized| > 65525 {
      var k := BoundaryIsNear(sanitized, 65525, 0);
    } else {
      assert sanitized[..|sanitized|] == sanitized;
    }
  }
}
