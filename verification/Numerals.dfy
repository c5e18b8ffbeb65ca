// Numeric constants (section 4.1.2.6 of the PostgreSQL manual) and positional
// parameters (section 4.1.4).

module Numerals {
  import opened Bytes
  import opened Scanner

  predicate IsDigitOf(b: int, base: nat) {
    if base == 16 then IsDigit(b) || 65 <= b <= 70 || 97 <= b <= 102
    else 48 <= b < 48 + base && IsDigit(b)
  }

  /** Behind a run of digits; an underscore may stand before a digit. */
  function DigitsEnd(s: bytes, i: nat, base: nat): (r: nat)
    requires i <= |s|
    ensures i <= r <= |s| && (r > i ==> IsDigitOf(s[r - 1], base)) && (IsDigitOf(Get(s, i), base) ==> i < r)
    decreases |s| - i
  {
    if IsDigitOf(Get(s, i), base) then DigitsEnd(s, i + 1, base)
    else if Get(s, i) == UNDERSCORE && IsDigitOf(Get(s, i + 1), base) then DigitsEnd(s, i + 2, base)
    else i
  }

  /** Behind an exponent, if one with digits follows. */
  function ExponentEnd(s: bytes, i: nat): (r: nat)
    requires i <= |s|
    ensures i <= r <= |s| && (r > i ==> IsDigit(s[r - 1]))
  {
    var digits := if Get(s, i + 1) == PLUS || Get(s, i + 1) == DASH then i + 2 else i + 1;
    if (Get(s, i) == 101 || Get(s, i) == 69) && IsDigit(Get(s, digits)) then DigitsEnd(s, digits, 10) else i
  }

  /** The base that a prefix such as `0x` gives; a prefix without digits is none. */
  function BaseAt(s: bytes, i: nat): (r: nat)
    requires i < |s|
    ensures r != 10 ==> i + 2 < |s| && DigitsEnd(s, i + 2, r) > i + 2 && IsAlpha(s[i + 1])
  {
    var letter := Get(s, i + 1);
    var base := if letter == 120 || letter == 88 then 16
                else if letter == 111 || letter == 79 then 8
                else if letter == 98 || letter == 66 then 2
                else 10;
    if s[i] == 48 && base != 10 && DigitsEnd(s, i + 2, base) > i + 2 then base else 10
  }

  predicate StartsNumber(s: bytes, i: nat) {
    IsDigit(Get(s, i)) || (Get(s, i) == DOT && IsDigit(Get(s, i + 1)))
  }

  /** Behind the numeric constant at `i`. */
  function NumberEnd(s: bytes, i: nat): (r: nat)
    requires i < |s| && StartsNumber(s, i)
    ensures i < r <= |s|
  {
    var base := BaseAt(s, i);
    if base != 10 then DigitsEnd(s, i + 2, base)
    else
      var whole := DigitsEnd(s, i, 10);
      if Get(s, whole) != DOT then ExponentEnd(s, whole)
      else if IsDigit(Get(s, whole + 1)) then ExponentEnd(s, DigitsEnd(s, whole + 1, 10))
      else ExponentEnd(s, whole + 1)
  }

  /** A byte of a number; a sign stands before a digit of the exponent. */
  predicate IsNumberByte(s: bytes, k: nat) {
    || IsAlpha(Get(s, k)) || IsDigit(Get(s, k)) || Get(s, k) == UNDERSCORE || Get(s, k) == DOT
    || ((Get(s, k) == PLUS || Get(s, k) == DASH) && IsDigit(Get(s, k + 1)))
  }

  lemma {:induction false} DigitBytes(s: bytes, i: nat, base: nat)
    requires i <= |s|
    ensures forall k :: i <= k < DigitsEnd(s, i, base) ==> IsDigitOf(s[k], base) || s[k] == UNDERSCORE
    decreases |s| - i
  {
    if IsDigitOf(Get(s, i), base) {
      DigitBytes(s, i + 1, base);
    } else if Get(s, i) == UNDERSCORE && IsDigitOf(Get(s, i + 1), base) {
      DigitBytes(s, i + 2, base);
    }
  }

  lemma ExponentBytes(s: bytes, i: nat)
    requires i <= |s|
    ensures forall k: nat :: i <= k < ExponentEnd(s, i) ==> IsNumberByte(s, k)
  {
    hide DigitsEnd;
    if i + 1 < |s| {
      DigitBytes(s, i + 1, 10);
    }
    if i + 2 < |s| {
      DigitBytes(s, i + 2, 10);
    }
  }

  lemma NumberBytes(s: bytes, i: nat)
    requires i < |s| && StartsNumber(s, i)
    ensures forall k: nat :: i <= k < NumberEnd(s, i) ==> IsNumberByte(s, k)
  {
    hide DigitsEnd;
    hide ExponentEnd;
    var base := BaseAt(s, i);
    if base != 10 {
      DigitBytes(s, i + 2, base);
    } else {
      var whole := DigitsEnd(s, i, 10);
      DigitBytes(s, i, 10);
      ExponentBytes(s, whole);
      if Get(s, whole) == DOT {
        DigitBytes(s, whole + 1, 10);
        ExponentBytes(s, whole + 1);
        ExponentBytes(s, DigitsEnd(s, whole + 1, 10));
      }
    }
  }

  /** A number ends in a digit or a point, and a quote behind it never follows an `E` of its own. */
  lemma NumberTail(s: bytes, i: nat)
    requires i < |s| && StartsNumber(s, i)
    ensures var end := NumberEnd(s, i);
            && (s[end - 1] != DOT ==> IsAlpha(s[end - 1]) || IsDigit(s[end - 1]))
            && !IsEscapeStringPrefix(s, end)
  {
    hide DigitsEnd;
    hide ExponentEnd;
    var base := BaseAt(s, i);
    if base != 10 {
      DigitBytes(s, i + 2, base);
    }
  }

  /** Behind the digits of a positional parameter (section 4.1.4). */
  function PositionEnd(s: bytes, i: nat): (r: nat)
    requires i <= |s|
    ensures i <= r <= |s| && (IsDigit(Get(s, i)) ==> i < r)
    ensures forall k :: i <= k < r ==> IsDigit(s[k])
    decreases |s| - i
  {
    if IsDigit(Get(s, i)) then PositionEnd(s, i + 1) else i
  }
}
