// Well-formed UTF-8 as the grammar of section 4 of RFC 3629, and a decoder check
// that tells a text broken off inside a character from a malformed one.

module Utf8 {
  import opened Bytes
  import opened Wrappers

  predicate IsTail(b: int) {
    0x80 <= b <= 0xBF
  }

  /** The second byte a lead byte of a three- or four-byte character allows. */
  predicate IsSecond(lead: int, b: int) {
    && IsTail(b)
    && (lead == 0xE0 ==> 0xA0 <= b)
    && (lead == 0xED ==> b <= 0x9F)
    && (lead == 0xF0 ==> 0x90 <= b)
    && (lead == 0xF4 ==> b <= 0x8F)
  }

  /** The number of bytes a lead byte announces; zero for a byte that leads nothing. */
  function LeadLength(b: int): nat {
    if 0 <= b <= 0x7F then 1
    else if 0xC2 <= b <= 0xDF then 2
    else if 0xE0 <= b <= 0xEF then 3
    else if 0xF0 <= b <= 0xF4 then 4
    else 0
  }

  /** Whether the first `n` bytes from `i` are there and may begin a character. */
  predicate Begins(s: bytes, i: nat, n: nat) {
    && i + n <= |s|
    && (1 < n ==> IsSecond(Get(s, i), Get(s, i + 1)))
    && (2 < n ==> IsTail(Get(s, i + 2)))
    && (3 < n ==> IsTail(Get(s, i + 3)))
  }

  /** The length of the well-formed character at `i`, or zero. */
  function CharLength(s: bytes, i: nat): (r: nat)
    ensures i + r <= |s| || r == 0
  {
    var n := LeadLength(Get(s, i));
    if Begins(s, i, n) then n else 0
  }

  predicate ValidFrom(s: bytes, i: nat)
    decreases |s| - i
  {
    i == |s| || (CharLength(s, i) > 0 && ValidFrom(s, i + CharLength(s, i)))
  }

  predicate Valid(s: bytes) {
    ValidFrom(s, 0)
  }

  /** The text ends inside a character that started at `i` and is well formed so far. */
  predicate BreaksOff(s: bytes, i: nat) {
    i < |s| < i + LeadLength(s[i]) && Begins(s, i, |s| - i)
  }

  /** A check of a whole buffer: fine, broken off inside a character, or malformed. */
  datatype Check = Whole | Truncated(validUpTo: nat) | Malformed

  function CheckFrom(s: bytes, i: nat): (r: Check)
    requires i <= |s|
    ensures r.Truncated? ==> i <= r.validUpTo < |s|
    decreases |s| - i
  {
    if i == |s| then Whole
    else if CharLength(s, i) > 0 then CheckFrom(s, i + CharLength(s, i))
    else if BreaksOff(s, i) then Truncated(i)
    else Malformed
  }

  // ---- Characters do not look beyond themselves. ----

  lemma {:induction false} ValidShift(a: bytes, b: bytes, i: nat)
    requires i <= |b|
    ensures ValidFrom(a + b, |a| + i) == ValidFrom(b, i)
    decreases |b| - i
  {
    assert CharLength(a + b, |a| + i) == CharLength(b, i) by {
      GetPast(a, b, i);
      GetPast(a, b, i + 1);
      GetPast(a, b, i + 2);
      GetPast(a, b, i + 3);
    }
    if CharLength(b, i) > 0 {
      ValidShift(a, b, i + CharLength(b, i));
    }
  }

  lemma GetPast(a: bytes, b: bytes, k: nat)
    ensures Get(a + b, |a| + k) == Get(b, k)
  {
  }

  lemma CharLengthExtended(a: bytes, b: bytes, i: nat)
    requires CharLength(a, i) > 0
    ensures CharLength(a + b, i) == CharLength(a, i)
  {
    var n := CharLength(a, i);
    assert forall k :: i <= k < i + n ==> Get(a + b, k) == Get(a, k);
  }

  lemma {:induction false} ValidThrough(a: bytes, b: bytes, i: nat)
    requires i <= |a| && ValidFrom(a, i)
    ensures ValidFrom(a + b, i) == ValidFrom(b, 0)
    decreases |a| - i
  {
    if i == |a| {
      ValidShift(a, b, 0);
    } else {
      CharLengthExtended(a, b, i);
      ValidThrough(a, b, i + CharLength(a, i));
    }
  }

  /** A valid text may be taken off the front without touching the validity of the rest. */
  lemma ValidConcat(a: bytes, b: bytes)
    requires Valid(a)
    ensures Valid(a + b) <==> Valid(b)
  {
    ValidThrough(a, b, 0);
  }

  // ---- The check means what it says. ----

  lemma {:induction false} CheckedPrefix(s: bytes, i: nat, from: nat)
    requires from <= i <= |s| && CheckFrom(s, from) != Malformed
    requires CheckFrom(s, from) == CheckFrom(s, i)
    requires ValidFrom(s[..i], from)
    ensures match CheckFrom(s, from)
            case Whole => ValidFrom(s, from)
            case Truncated(k) => ValidFrom(s[..k], from) && BreaksOff(s, k)
            case Malformed => true
    decreases |s| - i
  {
    if i == |s| {
      assert s[..i] == s;
    } else if CharLength(s, i) > 0 {
      var next := i + CharLength(s, i);
      ExtendPrefix(s, i, from);
      CheckedPrefix(s, next, from);
    }
  }

  lemma {:induction false} ExtendPrefix(s: bytes, i: nat, from: nat)
    requires from <= i < |s| && CharLength(s, i) > 0 && ValidFrom(s[..i], from)
    ensures ValidFrom(s[..i + CharLength(s, i)], from)
    decreases i - from
  {
    var next := i + CharLength(s, i);
    assert s[..i] + s[i..next] == s[..next];
    if from == i {
      assert forall k :: i <= k < next ==> Get(s[..next], k) == Get(s, k);
    } else {
      CharLengthExtended(s[..i], s[i..next], from);
      ExtendPrefix(s, i, from + CharLength(s[..i], from));
    }
  }

  /** Accepted bytes are valid; a broken-off rest is at most three bytes that may begin a character. */
  lemma CheckSound(s: bytes)
    ensures CheckFrom(s, 0).Whole? ==> Valid(s)
    ensures CheckFrom(s, 0).Truncated? ==>
              var k := CheckFrom(s, 0).validUpTo;
              Valid(s[..k]) && BreaksOff(s[k..], 0) && 0 < |s| - k <= 3
  {
    if CheckFrom(s, 0) != Malformed {
      CheckedPrefix(s, 0, 0);
      if CheckFrom(s, 0).Truncated? {
        var k := CheckFrom(s, 0).validUpTo;
        assert s[..k] + s[k..] == s;
        GetPast(s[..k], s[k..], 0);
        GetPast(s[..k], s[k..], 1);
        GetPast(s[..k], s[k..], 2);
      }
    }
  }

  /** No continuation makes a malformed text valid. */
  lemma {:induction false} MalformedForGood(s: bytes, t: bytes, i: nat)
    requires i <= |s| && CheckFrom(s, i).Malformed?
    ensures !ValidFrom(s + t, i)
    decreases |s| - i
  {
    assert forall k :: 0 <= k < |s| ==> Get(s + t, k) == Get(s, k);
    if CharLength(s, i) > 0 {
      CharLengthExtended(s, t, i);
      MalformedForGood(s, t, i + CharLength(s, i));
    }
  }

  /** A text that breaks off is not valid as it stands. */
  lemma BrokenOffIsInvalid(s: bytes)
    requires BreaksOff(s, 0)
    ensures !Valid(s)
  {
  }

  // ---- Character boundaries. ----

  /** Where a text may be sliced: at its ends, or before any byte that continues no character. */
  predicate IsCharBoundary(s: bytes, k: nat) {
    k == 0 || k == |s| || (k < |s| && !IsTail(s[k]))
  }

  lemma {:induction false} CutAtBoundary(a: bytes, b: bytes, i: nat)
    requires i <= |a| && ValidFrom(a + b, i)
    requires b == [] || !IsTail(b[0])
    ensures ValidFrom(a, i) && Valid(b)
    decreases |a| - i
  {
    if i == |a| {
      ValidShift(a, b, 0);
    } else {
      var n := CharLength(a + b, i);
      assert forall k :: i < k < i + n ==> IsTail(Get(a + b, k));
      assert b != [] ==> Get(a + b, |a|) == b[0];
      assert i + n <= |a|;
      assert forall k :: 0 <= k < |a| ==> Get(a + b, k) == Get(a, k);
      assert CharLength(a, i) == n;
      CutAtBoundary(a, b, i + n);
    }
  }

  /** Slicing a valid text at a boundary gives two valid texts. */
  lemma SliceAtBoundary(s: bytes, k: nat)
    requires Valid(s) && k <= |s| && IsCharBoundary(s, k)
    ensures Valid(s[..k]) && Valid(s[k..])
  {
    assert s[..k] + s[k..] == s;
    if k == 0 {
      assert s[k..] == s;
    } else {
      CutAtBoundary(s[..k], s[k..], 0);
    }
  }

  /** Behind an ASCII byte of a valid text there is always a boundary. */
  lemma {:induction false} BoundaryBehindAscii(s: bytes, i: nat, k: nat)
    requires i < k <= |s| && ValidFrom(s, i) && s[k - 1] < 0x80
    ensures IsCharBoundary(s, k)
    decreases |s| - i
  {
    var n := CharLength(s, i);
    assert forall j :: i < j < i + n ==> IsTail(Get(s, j));
    assert Get(s, k - 1) == s[k - 1];
    if i + n < k {
      BoundaryBehindAscii(s, i + n, k);
    } else {
      assert n == 1 && (k < |s| ==> CharLength(s, k) > 0);
    }
  }

  /** The nearest boundary at or before an index. */
  function Floor(s: bytes, i: nat): (r: nat)
    ensures r <= i && IsCharBoundary(s, r)
    ensures forall k :: r < k <= i ==> !IsCharBoundary(s, k)
  {
    if IsCharBoundary(s, i) then i else Floor(s, i - 1)
  }

  method FloorCharBoundary(s: bytes, start: nat) returns (index: nat)
    requires start <= |s|
    ensures index == Floor(s, start)
  {
    index := start;
    while !IsCharBoundary(s, index)
      invariant index <= start && Floor(s, index) == Floor(s, start)
      decreases index
    {
      index := index - 1;
    }
  }

  lemma {:induction false} AsciiIsValid(s: bytes, i: nat)
    requires i <= |s| && forall k :: i <= k < |s| ==> s[k] < 0x80
    ensures ValidFrom(s, i)
    decreases |s| - i
  {
    if i < |s| {
      AsciiIsValid(s, i + 1);
    }
  }
}
