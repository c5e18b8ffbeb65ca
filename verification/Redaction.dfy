// Secrets in diagnostics: which value ranges are replaced, and that the loop that
// skips through the text replaces exactly those (src/error.rs).

module Redaction {
  import opened Bytes
  import opened Wrappers
  import opened Utf8

  predicate IsQuote(b: int) {
    b == QUOTE || b == DOUBLE_QUOTE
  }

  predicate IsBlank(b: int) {
    b == SPACE || b == TAB
  }

  predicate IsKeyByte(b: int) {
    IsAlpha(b) || IsDigit(b) || b == UNDERSCORE || b == DASH || b == DOT || b == PERCENT
  }

  predicate EndsBeforeKey(b: int) {
    || b == 63 || b == AMPERSAND || b == SEMICOLON || b == COMMA
    || b == SPACE || b == TAB || IsNewline(b)
    || b == 123 || b == 91 || b == 40
    || IsQuote(b)
  }

  predicate IsKeyBoundary(s: bytes, i: nat)
    requires i <= |s|
  {
    i == 0 || EndsBeforeKey(s[i - 1])
  }

  function KeyEnd(s: bytes, i: nat): (r: nat)
    ensures i <= r && (i <= |s| ==> r <= |s|) && !IsKeyByte(Get(s, r))
    ensures forall k :: i <= k < r ==> IsKeyByte(Get(s, k))
    decreases |s| - i
  {
    if IsKeyByte(Get(s, i)) then KeyEnd(s, i + 1) else i
  }

  function BlanksEnd(s: bytes, i: nat): (r: nat)
    ensures i <= r && (i <= |s| ==> r <= |s|) && !IsBlank(Get(s, r))
    ensures forall k :: i <= k < r ==> IsBlank(Get(s, k))
    decreases |s| - i
  {
    if IsBlank(Get(s, i)) then BlanksEnd(s, i + 1) else i
  }

  /** A key between quotes may be followed by its closing quote and blanks. */
  predicate IsQuotedKey(s: bytes, i: nat)
    requires i <= |s|
  {
    i > 0 && IsQuote(s[i - 1]) && Get(s, KeyEnd(s, i)) == s[i - 1]
  }

  function SeparatorIndex(s: bytes, i: nat): (r: nat)
    requires i <= |s|
    ensures i <= r <= |s|
  {
    if IsQuotedKey(s, i) then BlanksEnd(s, KeyEnd(s, i) + 1) else KeyEnd(s, i)
  }

  /** A key starts at `i`: a run of key bytes at a boundary, with `=` or `:` behind it. */
  predicate IsKey(s: bytes, i: nat)
    requires i < |s|
  {
    && IsKeyBoundary(s, i)
    && SeparatorIndex(s, i) != i
    && (Get(s, SeparatorIndex(s, i)) == EQUALS || Get(s, SeparatorIndex(s, i)) == COLON)
  }

  // ---- Which keys are secret. ----

  function HexValue(b: int): (r: Option<byte>)
    ensures r.Some? ==> r.value < 16
  {
    if IsDigit(b) then Some(b - 48)
    else if 97 <= b <= 102 then Some(b - 97 + 10)
    else if 65 <= b <= 70 then Some(b - 65 + 10)
    else None
  }

  function PercentDecode(s: bytes, i: nat): bytes
    decreases |s| - i
  {
    if i >= |s| then []
    else
      var high, low := HexValue(Get(s, i + 1)), HexValue(Get(s, i + 2));
      if s[i] == PERCENT && high.Some? && low.Some? then
        [high.value * 16 + low.value] + PercentDecode(s, i + 3)
      else [s[i]] + PercentDecode(s, i + 1)
  }

  function Lowered(s: bytes): (r: bytes)
    ensures |r| == |s|
  {
    seq(|s|, k requires 0 <= k < |s| => ToLower(s[k]))
  }

  const SECRET_KEYS: seq<string> := [
    "access_token", "accesskey", "access_key", "access_key_id", "api_key", "aws_access_key_id",
    "aws_secret_access_key", "aws_session_token", "apikey", "authorization", "client_secret",
    "credential", "credentials", "id_token", "password", "passwd", "pwd", "secret",
    "secret_access_key", "security_token", "signature", "sig", "token"]

  predicate IsSecretName(name: bytes) {
    || (|name| >= 6 && EqAscii(name[..6], "x-amz-"))
    || exists k :: 0 <= k < |SECRET_KEYS| && EqAscii(name, SECRET_KEYS[k])
  }

  predicate IsSecretKey(key: bytes) {
    IsSecretName(Lowered(PercentDecode(key, 0)))
  }

  lemma DecodeStep(s: bytes, i: nat)
    requires i < |s|
    ensures var high, low := HexValue(Get(s, i + 1)), HexValue(Get(s, i + 2));
            PercentDecode(s, i)
            == if s[i] == PERCENT && i + 2 < |s| && high.Some? && low.Some?
               then [high.value * 16 + low.value] + PercentDecode(s, i + 3)
               else [s[i]] + PercentDecode(s, i + 1)
  {
  }

  lemma DecodeEnd(s: bytes, i: nat)
    requires i >= |s|
    ensures PercentDecode(s, i) == []
  {
  }

  /** The loop that decodes a key. */
  method DecodeKey(s: bytes) returns (decoded: bytes)
    ensures decoded == PercentDecode(s, 0)
  {
    hide PercentDecode;
    hide HexValue;
    decoded := [];
    var index := 0;
    ghost var rest := PercentDecode(s, 0);
    assert [] + rest == rest;
    while index < |s|
      invariant rest == PercentDecode(s, index) && decoded + rest == PercentDecode(s, 0)
      decreases |s| - index
    {
      DecodeStep(s, index);
      var high, low := HexValue(Get(s, index + 1)), HexValue(Get(s, index + 2));
      var next: byte;
      if s[index] == PERCENT && index + 2 < |s| && high.Some? && low.Some? {
        next := high.value * 16 + low.value;
        index := index + 3;
      } else {
        next := s[index];
        index := index + 1;
      }
      rest := PercentDecode(s, index);
      assert decoded + ([next] + rest) == (decoded + [next]) + rest;
      decoded := decoded + [next];
    }
    DecodeEnd(s, index);
    assert decoded + [] == decoded;
  }

  // ---- Where a value ends. ----

  /** Behind the quote that closes a value; a backslash takes the next byte along. */
  function QuoteClose(s: bytes, i: nat, quote: int): (r: Option<nat>)
    ensures r.Some? ==> i < r.value <= |s| && s[r.value - 1] == quote
    decreases |s| - i
  {
    if i >= |s| then None
    else if s[i] == BACKSLASH then QuoteClose(s, i + 2, quote)
    else if s[i] == quote then Some(i + 1)
    else QuoteClose(s, i + 1, quote)
  }

  function QuotedValueEnd(s: bytes, start: nat): (r: Option<nat>)
    ensures r.Some? ==> start < r.value <= |s| && IsQuote(s[r.value - 1])
  {
    var q := BlanksEnd(s, start);
    if IsQuote(Get(s, q)) then QuoteClose(s, q + 1, Get(s, q)) else None
  }

  predicate EndsValue(b: int) {
    b == AMPERSAND || b == SEMICOLON || b == COMMA || IsBlank(b) || IsNewline(b)
  }

  function BareValueEnd(s: bytes, i: nat): (r: nat)
    requires i <= |s|
    ensures i <= r <= |s| && (r < |s| ==> EndsValue(s[r]))
    ensures forall k :: i <= k < r ==> !EndsValue(s[k])
    decreases |s| - i
  {
    if i < |s| && !EndsValue(s[i]) then BareValueEnd(s, i + 1) else i
  }

  function HeaderValueEnd(s: bytes, i: nat): (r: nat)
    requires i <= |s|
    ensures i <= r <= |s| && (r < |s| ==> IsNewline(s[r]))
    ensures forall k :: i <= k < r ==> !IsNewline(s[k])
    decreases |s| - i
  {
    if i < |s| && !IsNewline(s[i]) then HeaderValueEnd(s, i + 1) else i
  }

  function ValueEnd(s: bytes, separator: nat): (r: nat)
    requires separator < |s|
    ensures separator < r <= |s|
  {
    var start := separator + 1;
    match QuotedValueEnd(s, start)
    case Some(end) => end
    case None =>
      if s[separator] == COLON then HeaderValueEnd(s, start)
      else if IsQuote(Get(s, BlanksEnd(s, start))) then |s|
      else BareValueEnd(s, start)
  }

  // ---- The specification: leftmost secret values. ----

  predicate IsSecretAt(s: bytes, i: nat)
    requires i < |s|
  {
    IsKey(s, i) && IsSecretKey(s[i..KeyEnd(s, i)])
  }

  /** A range of bytes to be replaced. */
  datatype Span = Span(start: nat, end: nat)

  function SpanOf(s: bytes, i: nat): (r: Span)
    requires i < |s| && IsKey(s, i)
    ensures i < r.start <= r.end <= |s|
  {
    var separator := SeparatorIndex(s, i);
    Span(separator + 1, ValueEnd(s, separator))
  }

  predicate Ordered(s: bytes, from: nat, spans: seq<Span>)
    decreases |spans|
  {
    && from <= |s|
    && (spans == [] || (from <= spans[0].start <= spans[0].end <= |s| && Ordered(s, spans[0].end, spans[1..])))
  }

  /** The values of the secret keys from `i` on, where a key inside an earlier value is no key. */
  function Spans(s: bytes, i: nat): (r: seq<Span>)
    requires i <= |s|
    ensures Ordered(s, i, r)
    decreases |s| - i
  {
    if i == |s| then []
    else if IsSecretAt(s, i) then [SpanOf(s, i)] + Spans(s, SpanOf(s, i).end)
    else Spans(s, i + 1)
  }

  const REDACTED: bytes := [91, 82, 69, 68, 65, 67, 84, 69, 68, 93]

  /** The text from `from` on, with each span replaced and every other byte kept. */
  function Splice(s: bytes, from: nat, spans: seq<Span>): bytes
    requires Ordered(s, from, spans)
    decreases |spans|
  {
    if spans == [] then s[from..]
    else s[from..spans[0].start] + REDACTED + Splice(s, spans[0].end, spans[1..])
  }

  function Redacted(s: bytes): bytes {
    Splice(s, 0, Spans(s, 0))
  }

  // ---- The loop. ----

  lemma OrderedFrom(s: bytes, from: nat, later: nat, spans: seq<Span>)
    requires from <= later && Ordered(s, later, spans)
    ensures Ordered(s, from, spans)
  {
  }

  /** No secret key starts inside another key, between it and its separator, or on the separator. */
  lemma NoKeyInside(s: bytes, i: nat, p: nat)
    requires i < |s| && IsKey(s, i) && i < p <= SeparatorIndex(s, i)
    ensures !IsSecretAt(s, p)
  {
    var end := KeyEnd(s, i);
    if p <= end {
      assert IsKeyByte(Get(s, p - 1));
    } else {
      assert p < SeparatorIndex(s, i) ==> IsBlank(Get(s, p));
      assert KeyEnd(s, p) == p;
    }
  }

  lemma {:induction false} SkipToSeparator(s: bytes, i: nat, p: nat)
    requires i < |s| && IsKey(s, i) && !IsSecretAt(s, i) && i <= p <= SeparatorIndex(s, i) + 1
    ensures Spans(s, i) == Spans(s, p)
    decreases p
  {
    if i < p {
      SkipToSeparator(s, i, p - 1);
      if i < p - 1 {
        NoKeyInside(s, i, p - 1);
      }
    }
  }

  /** What is still to be written when `copied` bytes are written and the loop is at `index`. */
  ghost function Rest(s: bytes, copied: nat, index: nat): bytes
    requires copied <= index <= |s|
  {
    OrderedFrom(s, copied, index, Spans(s, index));
    Splice(s, copied, Spans(s, index))
  }

  lemma RestAtSecret(s: bytes, copied: nat, index: nat)
    requires copied <= index < |s| && IsSecretAt(s, index)
    ensures var span := SpanOf(s, index);
            && span.end <= |s|
            && Rest(s, copied, index) == s[copied..span.start] + REDACTED + Rest(s, span.end, span.end)
  {
    hide IsSecretKey;
    hide SpanOf;
    var span := SpanOf(s, index);
    assert Spans(s, index) == [span] + Spans(s, span.end);
    assert Spans(s, index)[1..] == Spans(s, span.end);
  }

  lemma RestAtStart(s: bytes)
    ensures [] + Rest(s, 0, 0) == Redacted(s)
  {
    hide Spans;
  }

  lemma RestAtPlain(s: bytes, copied: nat, index: nat)
    requires copied <= index < |s| && !IsSecretAt(s, index)
    ensures Rest(s, copied, index) == Rest(s, copied, index + 1)
  {
    hide IsSecretAt;
    hide Splice;
  }

  lemma SeparatorInside(s: bytes, i: nat)
    requires i < |s| && IsKey(s, i)
    ensures SeparatorIndex(s, i) < |s|
  {
  }

  lemma RestSkips(s: bytes, copied: nat, index: nat)
    requires copied <= index < |s| && IsKey(s, index) && !IsSecretAt(s, index)
    ensures index <= SeparatorIndex(s, index) < |s|
    ensures Rest(s, copied, index) == Rest(s, copied, SeparatorIndex(s, index) + 1)
  {
    hide IsSecretKey;
    hide Spans;
    hide Splice;
    SkipToSeparator(s, index, SeparatorIndex(s, index) + 1);
  }

  lemma Joined(a: bytes, b: bytes, c: bytes, d: bytes)
    ensures a + (b + c + d) == (a + b + c) + d
  {
  }

  /** The loop jumps over separators and values, and redacts exactly the specified spans. */
  method Redact(s: bytes) returns (output: bytes)
    ensures output == Redacted(s)
  {
    hide IsSecretKey;
    hide ValueEnd;
    hide SeparatorIndex;
    hide Splice;
    hide Rest;
    hide IsKey;
    hide Spans;
    output := [];
    var copied: nat, index: nat := 0, 0;
    RestAtStart(s);
    while index < |s|
      invariant copied <= index <= |s|
      invariant output + Rest(s, copied, index) == Redacted(s)
    {
      if !IsKey(s, index) {
        RestAtPlain(s, copied, index);
        index := index + 1;
        continue;
      }
      SeparatorInside(s, index);
      var separator := SeparatorIndex(s, index);
      if !IsSecretKey(s[index..KeyEnd(s, index)]) {
        RestSkips(s, copied, index);
        index := separator + 1;
        continue;
      }
      var end := ValueEnd(s, separator);
      RestAtSecret(s, copied, index);
      Joined(output, s[copied..separator + 1], REDACTED, Rest(s, end, end));
      output := output + s[copied..separator + 1] + REDACTED;
      copied, index := end, end;
    }
    RestAtEnd(s, copied);
    output := output + s[copied..];
  }

  lemma RestAtEnd(s: bytes, copied: nat)
    requires copied <= |s|
    ensures Rest(s, copied, |s|) == s[copied..]
  {
  }

  // ---- Nothing is missed and nothing is invented. ----

  /** Every replaced range is the value of a secret key. */
  lemma {:induction false} SpansAreSecret(s: bytes, i: nat, span: Span)
    requires i <= |s| && span in Spans(s, i)
    ensures exists k :: i <= k < |s| && IsSecretAt(s, k) && span == SpanOf(s, k)
    decreases |s| - i
  {
    if IsSecretAt(s, i) {
      if span != SpanOf(s, i) {
        SpansAreSecret(s, SpanOf(s, i).end, span);
      }
    } else {
      SpansAreSecret(s, i + 1, span);
    }
  }

  /** Every secret key has its value replaced, or lies itself inside a replaced value. */
  lemma {:induction false} SecretsAreCovered(s: bytes, i: nat, k: nat)
    requires i <= k < |s| && IsSecretAt(s, k)
    ensures SpanOf(s, k) in Spans(s, i)
         || exists span :: span in Spans(s, i) && span.start <= k < span.end
    decreases |s| - i
  {
    hide IsSecretAt;
    hide IsKey;
    hide ValueEnd;
    hide SeparatorIndex;
    if IsSecretAt(s, i) {
      SecretIsKey(s, i);
      SecretIsKey(s, k);
      var first := SpanOf(s, i);
      assert Spans(s, i)[0] == first;
      if k == i {
      } else if k < first.start {
        NoKeyInside(s, i, k);
      } else if first.end <= k {
        SecretsAreCovered(s, first.end, k);
      }
    } else {
      SecretsAreCovered(s, i + 1, k);
    }
  }

  /** The value ends where it starts: nothing of what follows the separator is replaced. */
  lemma EmptyValue(s: bytes, i: nat)
    requires i < |s| && IsKey(s, i)
    ensures var start := SeparatorIndex(s, i) + 1;
            SpanOf(s, i) == Span(start, start)
            <==> && QuotedValueEnd(s, start).None?
                 && (start == |s|
                     || (if s[start - 1] == COLON then IsNewline(s[start])
                         else EndsValue(s[start]) && !IsQuote(Get(s, BlanksEnd(s, start)))))
  {
    hide IsKey;
    hide QuotedValueEnd;
    hide BlanksEnd;
  }

  /** `pwd= x` */
  const SECRET_BEHIND_BLANK: bytes := [112, 119, 100, EQUALS, SPACE, 120]

  /** A blank behind `=` ends the value before it begins: the secret stays in the output. */
  lemma SecretBehindBlankStays()
    ensures IsSecretAt(SECRET_BEHIND_BLANK, 0)
    ensures Redacted(SECRET_BEHIND_BLANK)
         == [112, 119, 100, EQUALS] + [91, 82, 69, 68, 65, 67, 84, 69, 68, 93] + [SPACE, 120]
  {
    hide IsSecretAt;
    hide SpanOf;
    hide Rest;
    hide Redacted;
    var s := SECRET_BEHIND_BLANK;
    KeysOfBlankSecret();
    SecretIsKey(s, 0);
    RestAtStart(s);
    RestAtSecret(s, 0, 0);
    RestAtPlain(s, 4, 4);
    RestAtPlain(s, 4, 5);
    RestAtEnd(s, 4);
    assert s[0..4] == [112, 119, 100, EQUALS] && s[4..] == [SPACE, 120];
    assert [] + Rest(s, 0, 0) == Rest(s, 0, 0);
  }

  lemma KeysOfBlankSecret()
    ensures var s := SECRET_BEHIND_BLANK;
            && IsSecretAt(s, 0) && SpanOf(s, 0) == Span(4, 4)
            && !IsSecretAt(s, 4) && !IsSecretAt(s, 5)
  {
    hide IsSecretKey;
    var s := SECRET_BEHIND_BLANK;
    PwdIsSecret();
    assert KeyEnd(s, 2) == 3;
    assert KeyEnd(s, 0) == 3 && s[0..3] == PWD;
    assert BlanksEnd(s, 4) == 5;
    assert KeyEnd(s, 4) == 4 && KeyEnd(s, 5) == 6;
  }

  const PWD: bytes := [112, 119, 100]

  lemma PwdIsSecret()
    ensures IsSecretKey(PWD)
  {
    assert PercentDecode(PWD, 3) == [];
    assert PercentDecode(PWD, 2) == [100];
    assert PercentDecode(PWD, 1) == [119, 100];
    assert PercentDecode(PWD, 0) == PWD;
    assert Lowered(PWD) == PWD;
    assert EqAscii(PWD, SECRET_KEYS[16]);
  }

  // ---- Slices fall on character boundaries. ----

  lemma SpanBoundaries(s: bytes, i: nat)
    requires Valid(s) && i < |s| && IsKey(s, i)
    ensures IsCharBoundary(s, SpanOf(s, i).start) && IsCharBoundary(s, SpanOf(s, i).end)
  {
    var separator := SeparatorIndex(s, i);
    BoundaryBehindAscii(s, 0, separator + 1);
    var end := ValueEnd(s, separator);
    if QuotedValueEnd(s, separator + 1).Some? {
      BoundaryBehindAscii(s, 0, end);
    }
  }

  lemma KeyBoundaries(s: bytes, i: nat)
    requires Valid(s) && i < |s| && IsKey(s, i)
    ensures IsCharBoundary(s, i) && IsCharBoundary(s, KeyEnd(s, i))
  {
    var end := KeyEnd(s, i);
    if i > 0 {
      BoundaryBehindAscii(s, 0, i);
    }
    if end > i {
      assert IsKeyByte(Get(s, end - 1));
      BoundaryBehindAscii(s, 0, end);
    }
  }

  lemma SpliceKeepsUtf8(s: bytes, from: nat, first: Span, rest: bytes)
    requires Valid(s) && from <= first.start <= |s| && Valid(rest)
    requires IsCharBoundary(s, from) && IsCharBoundary(s, first.start)
    ensures Valid(s[from..first.start] + REDACTED + rest)
  {
    hide ValidFrom;
    SliceBetween(s, from, first.start);
    AsciiIsValid(REDACTED, 0);
    ValidConcat(s[from..first.start], REDACTED);
    ValidConcat(s[from..first.start] + REDACTED, rest);
  }

  /** All slice points of the loop are character boundaries, and the output is valid UTF-8 again. */
  lemma {:induction false} RedactionKeepsUtf8(s: bytes, from: nat, i: nat)
    requires Valid(s) && from <= i <= |s| && IsCharBoundary(s, from)
    ensures Ordered(s, from, Spans(s, i))
    ensures forall span :: span in Spans(s, i) ==> IsCharBoundary(s, span.start) && IsCharBoundary(s, span.end)
    ensures Valid(Splice(s, from, Spans(s, i)))
    decreases |s| - i
  {
    hide ValidFrom;
    hide IsSecretAt;
    hide IsCharBoundary;
    if i == |s| {
      SliceAtBoundary(s, from);
    } else if IsSecretAt(s, i) {
      assert IsKey(s, i) by {
        SecretIsKey(s, i);
      }
      var first := SpanOf(s, i);
      SpanBoundaries(s, i);
      RedactionKeepsUtf8(s, first.end, first.end);
      SpliceKeepsUtf8(s, from, first, Splice(s, first.end, Spans(s, first.end)));
      assert Spans(s, i)[1..] == Spans(s, first.end);
    } else {
      RedactionKeepsUtf8(s, from, i + 1);
    }
  }

  lemma SecretIsKey(s: bytes, i: nat)
    requires i < |s| && IsSecretAt(s, i)
    ensures IsKey(s, i)
  {
  }

  lemma SliceBetween(s: bytes, a: nat, b: nat)
    requires Valid(s) && a <= b <= |s| && IsCharBoundary(s, a) && IsCharBoundary(s, b)
    ensures Valid(s[a..b])
  {
    SliceAtBoundary(s, b);
    assert s[..b][a..] == s[a..b];
    SliceAtBoundary(s[..b], a);
  }
}
