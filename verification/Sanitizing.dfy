// Diagnostics made safe for a terminal: redacted, without control characters,
// and of bounded size (src/error.rs).

module Sanitizing {
  import opened Bytes
  import opened Numbers
  import opened Wrappers
  import opened Utf8
  import opened Redaction

  const MAX_DIAGNOSTIC_BYTES: nat := 64 * 1024

  const TRUNCATION_MARKER: bytes := [91, 116, 114, 117, 110, 99, 97, 116, 101, 100, 93]

  /** The code of the control character at `i`, if the character there is one. */
  function ControlAt(s: bytes, i: nat): (r: Option<byte>)
    ensures r.Some? ==> r.value <= 0x9F
  {
    var a, b := Get(s, i), Get(s, i + 1);
    if 0 <= a < 0x20 || a == 0x7F then Some(a)
    else if a == 0xC2 && 0x80 <= b <= 0x9F then Some(b)
    else None
  }

  predicate MayStay(code: byte) {
    code == LF || code == TAB
  }

  predicate MustEscape(s: bytes, i: nat) {
    ControlAt(s, i).Some? && !MayStay(ControlAt(s, i).value)
  }

  function HexDigit(n: nat): (r: byte)
    requires n < 16
    ensures 48 <= r <= 102
  {
    if n < 10 then 48 + n else 97 + n - 10
  }

  /** Backslash, `u`, and four hexadecimal digits in braces. */
  function Escape(code: byte): (r: bytes)
    requires code <= 0x9F
    ensures |r| == 8 && forall k :: 0 <= k < 8 ==> 0x20 <= r[k] < 0x7F
  {
    [BACKSLASH, 117, 123, 48, 48, HexDigit(code / 16), HexDigit(code % 16), 125]
  }

  /** The text from `i` on with every control character but newline and tab escaped. */
  function SanitizeFrom(s: bytes, i: nat): bytes
    requires ValidFrom(s, i)
    decreases |s| - i
  {
    if i >= |s| then []
    else
      var n := CharLength(s, i);
      SafeChar(s, i) + SanitizeFrom(s, i + n)
  }

  /** The character at `i` as it is shown. */
  function SafeChar(s: bytes, i: nat): bytes
    requires i < |s|
  {
    if MustEscape(s, i) then Escape(ControlAt(s, i).value) else s[i..i + CharLength(s, i)]
  }

  /** Valid UTF-8 in which no character is a control character other than newline and tab. */
  predicate CleanFrom(s: bytes, i: nat)
    decreases |s| - i
  {
    i == |s| || (CharLength(s, i) > 0 && !MustEscape(s, i) && CleanFrom(s, i + CharLength(s, i)))
  }

  predicate Clean(s: bytes) {
    CleanFrom(s, 0)
  }

  lemma {:induction false} CleanShift(a: bytes, b: bytes, i: nat)
    requires i <= |b|
    ensures CleanFrom(a + b, |a| + i) == CleanFrom(b, i)
    decreases |b| - i
  {
    GetPast(a, b, i);
    GetPast(a, b, i + 1);
    GetPast(a, b, i + 2);
    GetPast(a, b, i + 3);
    if CharLength(b, i) > 0 {
      CleanShift(a, b, i + CharLength(b, i));
    }
  }

  lemma {:induction false} CleanThrough(a: bytes, b: bytes, i: nat)
    requires i <= |a| && CleanFrom(a, i)
    ensures CleanFrom(a + b, i) == Clean(b)
    decreases |a| - i
  {
    if i == |a| {
      CleanShift(a, b, 0);
    } else {
      var n := CharLength(a, i);
      CharLengthExtended(a, b, i);
      assert forall k :: i <= k < i + n ==> Get(a + b, k) == Get(a, k);
      CleanThrough(a, b, i + n);
    }
  }

  lemma {:induction false} CleanIsValid(s: bytes, i: nat)
    requires CleanFrom(s, i)
    ensures ValidFrom(s, i)
    decreases |s| - i
  {
    if i != |s| {
      CleanIsValid(s, i + CharLength(s, i));
    }
  }

  lemma {:induction false} PlainIsClean(s: bytes, i: nat)
    requires i <= |s| && forall k :: i <= k < |s| ==> 0x20 <= s[k] < 0x7F
    ensures CleanFrom(s, i)
    decreases |s| - i
  {
    if i < |s| {
      PlainIsClean(s, i + 1);
    }
  }

  lemma OneCharIsClean(s: bytes, i: nat)
    requires i < |s| && CharLength(s, i) > 0 && !MustEscape(s, i)
    ensures Clean(s[i..i + CharLength(s, i)])
  {
    var n := CharLength(s, i);
    var c := s[i..i + n];
    assert Get(c, 0) == Get(s, i) && (1 < n ==> Get(c, 1) == Get(s, i + 1));
    assert (2 < n ==> Get(c, 2) == Get(s, i + 2)) && (3 < n ==> Get(c, 3) == Get(s, i + 3));
    assert CharLength(c, 0) == n;
  }

  lemma SafeCharIsClean(s: bytes, i: nat)
    requires i < |s| && CharLength(s, i) > 0
    ensures Clean(SafeChar(s, i))
  {
    if MustEscape(s, i) {
      PlainIsClean(SafeChar(s, i), 0);
    } else {
      OneCharIsClean(s, i);
    }
  }

  lemma {:induction false} SanitizedIsClean(s: bytes, i: nat)
    requires i <= |s| && ValidFrom(s, i)
    ensures Clean(SanitizeFrom(s, i))
    decreases |s| - i
  {
    hide SafeChar;
    hide CharLength;
    if i < |s| {
      SafeCharIsClean(s, i);
      SanitizedIsClean(s, i + CharLength(s, i));
      CleanThrough(SafeChar(s, i), SanitizeFrom(s, i + CharLength(s, i)), 0);
    }
  }

  /** The sanitizing loop over the characters of a text. */
  method SanitizeTerminalText(s: bytes) returns (output: bytes)
    requires Valid(s)
    ensures output == SanitizeFrom(s, 0) && Clean(output)
  {
    hide SafeChar;
    hide CharLength;
    hide CleanFrom;
    SanitizedIsClean(s, 0);
    output := [];
    var i := 0;
    ghost var rest := SanitizeFrom(s, 0);
    while i < |s|
      invariant i <= |s| && ValidFrom(s, i)
      invariant rest == SanitizeFrom(s, i)
      invariant output + rest == SanitizeFrom(s, 0)
      decreases |s| - i
    {
      var n := CharLength(s, i);
      rest := SanitizeFrom(s, i + n);
      assert output + (SafeChar(s, i) + rest) == (output + SafeChar(s, i)) + rest;
      output := output + SafeChar(s, i);
      i := i + n;
    }
  }

  lemma CleanSlice(s: bytes, k: nat)
    requires Clean(s) && k <= |s| && IsCharBoundary(s, k)
    ensures Clean(s[..k])
  {
    CleanPrefix(s, k, 0);
  }

  lemma {:induction false} CleanPrefix(s: bytes, k: nat, i: nat)
    requires i <= k <= |s| && CleanFrom(s, i) && IsCharBoundary(s, k)
    ensures CleanFrom(s[..k], i)
    decreases k - i
  {
    if i < k {
      var n := CharLength(s, i);
      assert forall j :: i < j < i + n ==> IsTail(Get(s, j));
      assert i + n <= k;
      assert forall j :: i <= j < k ==> Get(s[..k], j) == Get(s, j);
      CleanPrefix(s, k, i + n);
    }
  }

  /** The part of a diagnostic that is looked at: as much as fits, up to a character boundary. */
  function Considered(input: bytes): bytes {
    input[..Floor(input, Min(|input|, MAX_DIAGNOSTIC_BYTES))]
  }

  lemma ConsideredIsValid(input: bytes)
    requires Valid(input)
    ensures Valid(Considered(input)) && Valid(Redacted(Considered(input)))
    ensures |input| <= MAX_DIAGNOSTIC_BYTES ==> Considered(input) == input
  {
    SliceAtBoundary(input, Floor(input, Min(|input|, MAX_DIAGNOSTIC_BYTES)));
    RedactionKeepsUtf8(Considered(input), 0, 0);
    assert IsCharBoundary(input, |input|);
  }

  /** Everything that is kept, or as much of it as leaves room for the truncation marker. */
  function Bounded(sanitized: bytes, whole: bool): bytes {
    if whole && |sanitized| <= MAX_DIAGNOSTIC_BYTES then sanitized
    else
      sanitized[..Floor(sanitized, Min(|sanitized|, MAX_DIAGNOSTIC_BYTES - |TRUNCATION_MARKER|))]
      + TRUNCATION_MARKER
  }

  lemma BoundedIsClean(sanitized: bytes, whole: bool)
    requires Clean(sanitized)
    ensures |Bounded(sanitized, whole)| <= MAX_DIAGNOSTIC_BYTES && Clean(Bounded(sanitized, whole))
  {
    var end := Floor(sanitized, Min(|sanitized|, MAX_DIAGNOSTIC_BYTES - |TRUNCATION_MARKER|));
    CleanSlice(sanitized, end);
    PlainIsClean(TRUNCATION_MARKER, 0);
    CleanThrough(sanitized[..end], TRUNCATION_MARKER, 0);
  }

  /**
   * A diagnostic of any size becomes clean UTF-8 of at most 64 KiB. One that fits is
   * redacted and sanitized in full; of any other the cut end is marked.
   */
  method SanitizeDiagnostic(input: bytes) returns (output: bytes)
    requires Valid(input)
    ensures |output| <= MAX_DIAGNOSTIC_BYTES && Clean(output)
    ensures Valid(Redacted(Considered(input)))
    ensures output == Bounded(SanitizeFrom(Redacted(Considered(input)), 0), |input| <= MAX_DIAGNOSTIC_BYTES)
  {
    hide CleanFrom;
    hide ValidFrom;
    hide Splice;
    hide SanitizeFrom;
    var limit := if |input| < MAX_DIAGNOSTIC_BYTES then |input| else MAX_DIAGNOSTIC_BYTES;
    var inputEnd := FloorCharBoundary(input, limit);
    ConsideredIsValid(input);
    var redacted := Redact(input[..inputEnd]);
    var sanitized := SanitizeTerminalText(redacted);
    BoundedIsClean(sanitized, |input| <= MAX_DIAGNOSTIC_BYTES);
    if inputEnd == |input| && |sanitized| <= MAX_DIAGNOSTIC_BYTES {
      return sanitized;
    }
    var room := MAX_DIAGNOSTIC_BYTES - |TRUNCATION_MARKER|;
    var contentEnd := FloorCharBoundary(sanitized, if |sanitized| < room then |sanitized| else room);
    output := sanitized[..contentEnd] + TRUNCATION_MARKER;
  }
}
