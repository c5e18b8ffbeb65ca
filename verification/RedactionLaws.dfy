// What redaction hides: the output does not depend on the bytes of a secret value
// (src/error.rs).

module RedactionLaws {
  import opened Bytes
  import opened Wrappers
  import opened Redaction

  /** A stretch of bytes that holds no quote or backslash and does not start with a blank. */
  predicate IsPlain(v: bytes) {
    && |v| > 0
    && !IsBlank(v[0])
    && forall k :: 0 <= k < |v| ==> !IsQuote(v[k]) && v[k] != BACKSLASH
  }

  /** No byte of `v` would end the value behind this separator: only a value without quotes
      can be ended by other bytes than its quote. */
  predicate StaysInside(s: bytes, separator: nat, v: bytes)
    requires separator < |s|
  {
    || QuotedValueEnd(s, separator + 1).Some?
    || forall k :: 0 <= k < |v| ==> !(if s[separator] == COLON then IsNewline(v[k]) else EndsValue(v[k]))
  }

  /** A stretch that starts with neither a blank nor a quote, so that it opens no quoted value. */
  predicate StartsBare(v: bytes) {
    |v| > 0 && !IsBlank(v[0]) && !IsQuote(v[0])
  }

  /** No byte of `v` ends a value without quotes behind this separator. */
  predicate StaysBare(s: bytes, separator: nat, v: bytes)
    requires separator < |s|
  {
    forall k :: 0 <= k < |v| ==> !(if s[separator] == COLON then IsNewline(v[k]) else EndsValue(v[k]))
  }

  /** The value starts with a quote. */
  predicate StartsQuoted(s: bytes, start: nat) {
    IsQuote(Get(s, BlanksEnd(s, start)))
  }

  /** The value starts with a quote that nothing closes. */
  predicate OpensQuote(s: bytes, start: nat) {
    StartsQuoted(s, start) && QuotedValueEnd(s, start).None?
  }

  /** The position that follows the stretch `v` behind `a`, counted from the end of that stretch. */
  predicate SameBehind(a: bytes, v: bytes, w: bytes, p: nat, q: nat) {
    p >= |a| + |v| && p - |v| == q - |w|
  }

  // ---- Before the stretch. ----

  lemma {:induction false} SameKeyEnd(s: bytes, t: bytes, b: nat, i: nat)
    requires i <= b <= |s| && b <= |t| && s[..b] == t[..b]
    requires !IsKeyByte(Get(s, b)) && !IsKeyByte(Get(t, b))
    ensures KeyEnd(s, i) == KeyEnd(t, i) <= b
    decreases b - i
  {
    if i < b {
      assert s[i] == s[..b][i] == t[..b][i] == t[i];
      SameKeyEnd(s, t, b, i + 1);
    }
  }

  lemma {:induction false} SameBlanksEnd(s: bytes, t: bytes, b: nat, i: nat)
    requires i <= b <= |s| && b <= |t| && s[..b] == t[..b]
    requires !IsBlank(Get(s, b)) && !IsBlank(Get(t, b))
    ensures BlanksEnd(s, i) == BlanksEnd(t, i) <= b
    decreases b - i
  {
    if i < b {
      assert s[i] == s[..b][i] == t[..b][i] == t[i];
      SameBlanksEnd(s, t, b, i + 1);
    }
  }

  /** What is a key before a separator depends on the text up to that separator only. */
  lemma SameKey(s: bytes, t: bytes, b: nat, i: nat)
    requires i <= b < |s| && b < |t| && s[..b + 1] == t[..b + 1]
    requires s[b] == EQUALS || s[b] == COLON
    ensures SeparatorIndex(s, i) == SeparatorIndex(t, i) <= b
    ensures IsKey(s, i) == IsKey(t, i) && IsSecretAt(s, i) == IsSecretAt(t, i)
  {
    hide IsSecretKey;
    hide KeyEnd;
    hide BlanksEnd;
    forall k | 0 <= k <= b
      ensures s[k] == t[k]
    {
      assert s[..b + 1][k] == t[..b + 1][k];
    }
    assert s[..b] == t[..b];
    SameKeyEnd(s, t, b, i);
    var end := KeyEnd(s, i);
    if IsQuotedKey(s, i) {
      assert end < b;
      SameBlanksEnd(s, t, b, end + 1);
    }
    assert s[i..end] == t[i..end];
  }

  // ---- Through the stretch. ----

  lemma {:induction false} QuoteThrough(s: bytes, i: nat, n: nat, quote: int)
    requires i <= n <= |s| && IsQuote(quote)
    requires forall k :: i <= k < n ==> !IsQuote(s[k]) && s[k] != BACKSLASH
    ensures QuoteClose(s, i, quote) == QuoteClose(s, n, quote)
    decreases n - i
  {
    if i < n {
      QuoteThrough(s, i + 1, n, quote);
    }
  }

  lemma {:induction false} QuoteBehind(s: bytes, n: nat, i: nat, quote: int)
    requires n <= |s|
    ensures QuoteClose(s, n + i, quote)
         == match QuoteClose(s[n..], i, quote) case Some(end) => Some(n + end) case None => None
    decreases |s| - n - i
  {
    if n + i < |s| {
      assert s[n..][i] == s[n + i];
      QuoteBehind(s, n, if s[n + i] == BACKSLASH then i + 2 else i + 1, quote);
    }
  }

  /** A search that comes to the stretch, or one byte into it, goes on behind it. */
  lemma QuoteFrom(a: bytes, v: bytes, r: bytes, k: nat, quote: int)
    requires IsPlain(v) && IsQuote(quote) && |a| <= k <= |a| + 1
    ensures QuoteClose(a + v + r, k, quote)
         == match QuoteClose(r, 0, quote) case Some(end) => Some(|a| + |v| + end) case None => None
  {
    hide QuoteClose;
    var s, n := a + v + r, |a| + |v|;
    assert forall j :: |a| <= j < n ==> s[j] == v[j - |a|];
    QuoteThrough(s, k, n, quote);
    assert s[n..] == r;
    QuoteBehind(s, n, 0, quote);
  }

  /** Two searches for a closing quote end at the same place before the stretch, or behind it. */
  predicate EndAlike(a: bytes, v: bytes, w: bytes, p: Option<nat>, q: Option<nat>) {
    if p.None? then q.None?
    else q.Some? && ((p.value == q.value <= |a|) || (p.value > |a| + |v| && SameBehind(a, v, w, p.value, q.value)))
  }

  lemma {:induction false} QuoteAcross(a: bytes, v: bytes, w: bytes, r: bytes, i: nat, quote: int)
    requires IsPlain(v) && IsPlain(w) && IsQuote(quote) && i <= |a| + 1
    ensures EndAlike(a, v, w, QuoteClose(a + v + r, i, quote), QuoteClose(a + w + r, i, quote))
    decreases |a| + 1 - i
  {
    hide IsPlain;
    if i < |a| {
      var s, t := a + v + r, a + w + r;
      assert s[i] == a[i] == t[i];
      QuoteAcross(a, v, w, r, if a[i] == BACKSLASH then i + 2 else i + 1, quote);
    } else {
      QuoteFrom(a, v, r, i, quote);
      QuoteFrom(a, w, r, i, quote);
    }
  }

  lemma SameNothing(a: bytes, v: bytes, w: bytes)
    ensures EndAlike(a, v, w, None, None)
  {
  }

  lemma QuotedValueAcross(a: bytes, v: bytes, w: bytes, r: bytes, start: nat)
    requires IsPlain(v) && IsPlain(w) && start <= |a|
    ensures EndAlike(a, v, w, QuotedValueEnd(a + v + r, start), QuotedValueEnd(a + w + r, start))
    ensures var s, t := a + v + r, a + w + r;
            BlanksEnd(s, start) == BlanksEnd(t, start)
            && IsQuote(Get(s, BlanksEnd(s, start))) == IsQuote(Get(t, BlanksEnd(t, start)))
  {
    hide QuoteClose;
    hide BlanksEnd;
    hide EndAlike;
    SameNothing(a, v, w);
    var s, t := a + v + r, a + w + r;
    assert s[..|a|] == a == t[..|a|];
    SameBlanksEnd(s, t, |a|, start);
    var open := BlanksEnd(s, start);
    if open < |a| {
      assert s[open] == a[open] == t[open];
      if IsQuote(a[open]) {
        QuoteAcross(a, v, w, r, open + 1, a[open]);
      }
    }
  }

  lemma {:induction false} BareThrough(s: bytes, i: nat, n: nat)
    requires i <= n <= |s| && forall k :: i <= k < n ==> !EndsValue(s[k])
    ensures BareValueEnd(s, i) == BareValueEnd(s, n)
    decreases n - i
  {
    if i < n {
      BareThrough(s, i + 1, n);
    }
  }

  lemma {:induction false} BareBehind(s: bytes, n: nat, i: nat)
    requires n + i <= |s|
    ensures BareValueEnd(s, n + i) == n + BareValueEnd(s[n..], i)
    decreases |s| - n - i
  {
    if n + i < |s| {
      BareBehind(s, n, i + 1);
    }
  }

  lemma {:induction false} HeaderThrough(s: bytes, i: nat, n: nat)
    requires i <= n <= |s| && forall k :: i <= k < n ==> !IsNewline(s[k])
    ensures HeaderValueEnd(s, i) == HeaderValueEnd(s, n)
    decreases n - i
  {
    if i < n {
      HeaderThrough(s, i + 1, n);
    }
  }

  lemma {:induction false} HeaderBehind(s: bytes, n: nat, i: nat)
    requires n + i <= |s|
    ensures HeaderValueEnd(s, n + i) == n + HeaderValueEnd(s[n..], i)
    decreases |s| - n - i
  {
    if n + i < |s| {
      HeaderBehind(s, n, i + 1);
    }
  }

  /** A value that ends before the stretch ends there whatever the stretch holds. */
  lemma ValueBefore(a: bytes, v: bytes, w: bytes, r: bytes, separator: nat)
    requires IsPlain(v) && IsPlain(w) && separator < |a| && ValueEnd(a + v + r, separator) < |a|
    ensures ValueEnd(a + w + r, separator) == ValueEnd(a + v + r, separator)
  {
    var s, t := a + v + r, a + w + r;
    var start := separator + 1;
    var end := ValueEnd(s, separator);
    QuotedValueAcross(a, v, w, r, start);
    assert s[separator] == a[separator] == t[separator];
    if QuotedValueEnd(s, start).None? {
      assert forall k :: 0 <= k <= end ==> s[k] == a[k] == t[k];
      if s[separator] == COLON {
        HeaderThrough(t, start, end);
      } else {
        BareThrough(t, start, end);
      }
    }
  }

  lemma HeaderAcross(a: bytes, v: bytes, r: bytes, start: nat)
    requires start <= |a|
    requires forall k :: 0 <= k < |v| ==> !IsNewline(v[k])
    requires forall k :: start <= k < |a| ==> !IsNewline(a[k])
    ensures HeaderValueEnd(a + v + r, start) == |a| + |v| + HeaderValueEnd(r, 0)
  {
    hide HeaderValueEnd;
    var s, n := a + v + r, |a| + |v|;
    assert forall k :: start <= k < n ==> s[k] == if k < |a| then a[k] else v[k - |a|];
    HeaderThrough(s, start, n);
    assert s[n..] == r;
    HeaderBehind(s, n, 0);
  }

  lemma BareAcross(a: bytes, v: bytes, r: bytes, start: nat)
    requires start <= |a|
    requires forall k :: 0 <= k < |v| ==> !EndsValue(v[k])
    requires forall k :: start <= k < |a| ==> !EndsValue(a[k])
    ensures BareValueEnd(a + v + r, start) == |a| + |v| + BareValueEnd(r, 0)
  {
    hide BareValueEnd;
    var s, n := a + v + r, |a| + |v|;
    assert forall k :: start <= k < n ==> s[k] == if k < |a| then a[k] else v[k - |a|];
    BareThrough(s, start, n);
    assert s[n..] == r;
    BareBehind(s, n, 0);
  }

  lemma {:induction false} QuoteBefore(a: bytes, v: bytes, w: bytes, i: nat, quote: int, end: nat)
    requires QuoteClose(a + v, i, quote) == Some(end) && end <= |a|
    ensures QuoteClose(a + w, i, quote) == Some(end)
    decreases |a| - i
  {
    if i < |a| {
      assert (a + v)[i] == a[i] == (a + w)[i];
      if a[i] == BACKSLASH {
        QuoteBefore(a, v, w, i + 2, quote, end);
      } else if a[i] != quote {
        QuoteBefore(a, v, w, i + 1, quote, end);
      }
    }
  }

  lemma SameOpening(a: bytes, v: bytes, w: bytes, r: bytes, start: nat)
    requires StartsBare(v) && StartsBare(w) && start <= |a|
    ensures var s, t := a + v + r, a + w + r;
            var open := BlanksEnd(s, start);
            && open == BlanksEnd(t, start) <= |a|
            && StartsQuoted(s, start) == StartsQuoted(t, start)
            && (StartsQuoted(s, start) ==> open < |a| && s[open] == a[open] == t[open])
  {
    var s, t := a + v + r, a + w + r;
    assert s[..|a|] == a == t[..|a|];
    SameBlanksEnd(s, t, |a|, start);
  }

  /** The same for any stretch, unless an open quote lets the search for its end run on. */
  lemma ClosedValueBefore(a: bytes, v: bytes, w: bytes, r: bytes, separator: nat)
    requires StartsBare(v) && StartsBare(w) && separator < |a| && ValueEnd(a + v + r, separator) < |a|
    requires !OpensQuote(a + v + r, separator + 1)
    ensures ValueEnd(a + w + r, separator) == ValueEnd(a + v + r, separator)
  {
    hide QuoteClose;
    hide BlanksEnd;
    hide StartsBare;
    var s, t := a + v + r, a + w + r;
    var start := separator + 1;
    var end := ValueEnd(s, separator);
    SameOpening(a, v, w, r, start);
    assert s[separator] == a[separator] == t[separator];
    assert s == a + (v + r) && t == a + (w + r);
    if StartsQuoted(s, start) {
      var open := BlanksEnd(s, start);
      QuoteBefore(a, v + r, w + r, open + 1, a[open], end);
    } else {
      assert forall k :: 0 <= k <= end ==> s[k] == a[k] == t[k];
      if s[separator] == COLON {
        HeaderThrough(t, start, end);
      } else {
        BareThrough(t, start, end);
      }
    }
  }

  lemma BareValueAcross(a: bytes, v: bytes, w: bytes, r: bytes, separator: nat)
    requires StartsBare(v) && StartsBare(w) && separator < |a| && ValueEnd(a + v + r, separator) > |a|
    requires !StartsQuoted(a + v + r, separator + 1)
    requires StaysBare(a + v + r, separator, v) && StaysBare(a + v + r, separator, w)
    ensures var s := a + v + r;
            var end := ValueEnd(s, separator);
            && SameBehind(a, v, w, end, ValueEnd(a + w + r, separator))
            && (end == |a| + |v| < |s| ==> EndsValue(s[end]))
  {
    hide QuoteClose;
    hide BlanksEnd;
    hide StartsBare;
    hide HeaderValueEnd;
    hide BareValueEnd;
    var s, t := a + v + r, a + w + r;
    var start := separator + 1;
    var end := ValueEnd(s, separator);
    SameOpening(a, v, w, r, start);
    assert s[separator] == a[separator] == t[separator];
    assert forall k :: start <= k < |a| ==> s[k] == a[k];
    if s[separator] == COLON {
      HeaderAcross(a, v, r, start);
      HeaderAcross(a, w, r, start);
    } else {
      BareAcross(a, v, r, start);
      BareAcross(a, w, r, start);
    }
  }

  /** A value that reaches into the stretch covers it, and ends at the same place behind it. */
  lemma ValueAcross(a: bytes, v: bytes, w: bytes, r: bytes, separator: nat)
    requires IsPlain(v) && IsPlain(w) && separator < |a| && ValueEnd(a + v + r, separator) > |a|
    requires StaysInside(a + v + r, separator, v) && StaysInside(a + v + r, separator, w)
    ensures var s := a + v + r;
            var end := ValueEnd(s, separator);
            && SameBehind(a, v, w, end, ValueEnd(a + w + r, separator))
            && (end == |a| + |v| < |s| ==> EndsValue(s[end]))
  {
    hide IsPlain;
    hide QuotedValueEnd;
    hide BlanksEnd;
    hide HeaderValueEnd;
    hide BareValueEnd;
    var s, t := a + v + r, a + w + r;
    var start := separator + 1;
    QuotedValueAcross(a, v, w, r, start);
    assert s[separator] == a[separator] == t[separator];
    if QuotedValueEnd(s, start).None? {
      var end := ValueEnd(s, separator);
      assert forall k :: start <= k < |a| ==> s[k] == a[k];
      if s[separator] == COLON {
        HeaderAcross(a, v, r, start);
        HeaderAcross(a, w, r, start);
      } else if !IsQuote(Get(s, BlanksEnd(s, start))) {
        BareAcross(a, v, r, start);
        BareAcross(a, w, r, start);
      }
    }
  }

  // ---- Behind the stretch. ----

  lemma {:induction false} KeyEndBehind(s: bytes, n: nat, i: nat)
    requires n + i <= |s|
    ensures KeyEnd(s, n + i) == n + KeyEnd(s[n..], i)
    decreases |s| - n - i
  {
    assert Get(s, n + i) == Get(s[n..], i);
    if n + i < |s| {
      KeyEndBehind(s, n, i + 1);
    }
  }

  lemma {:induction false} BlanksEndBehind(s: bytes, n: nat, i: nat)
    requires n + i <= |s|
    ensures BlanksEnd(s, n + i) == n + BlanksEnd(s[n..], i)
    decreases |s| - n - i
  {
    assert Get(s, n + i) == Get(s[n..], i);
    if n + i < |s| {
      BlanksEndBehind(s, n, i + 1);
    }
  }

  lemma KeyBehind(s: bytes, n: nat, i: nat)
    requires n + i < |s| && (i == 0 ==> EndsValue(s[n]))
    ensures IsKey(s, n + i) == IsKey(s[n..], i)
    ensures IsSecretAt(s, n + i) == IsSecretAt(s[n..], i)
    ensures SeparatorIndex(s, n + i) == n + SeparatorIndex(s[n..], i)
  {
    hide IsSecretKey;
    var t := s[n..];
    KeyEndBehind(s, n, i);
    var end := KeyEnd(t, i);
    assert Get(s, n + end) == Get(t, end);
    if i > 0 {
      assert s[n + i - 1] == t[i - 1];
    }
    assert IsQuotedKey(s, n + i) == IsQuotedKey(t, i);
    if IsQuotedKey(t, i) {
      BlanksEndBehind(s, n, end + 1);
    }
    var separator := SeparatorIndex(t, i);
    assert Get(s, n + separator) == Get(t, separator);
    assert s[n + i..n + end] == t[i..end];
  }

  lemma QuotedValueBehind(s: bytes, n: nat, start: nat)
    requires n + start <= |s|
    ensures QuotedValueEnd(s, n + start)
         == match QuotedValueEnd(s[n..], start) case Some(end) => Some(n + end) case None => None
    ensures IsQuote(Get(s, BlanksEnd(s, n + start))) == IsQuote(Get(s[n..], BlanksEnd(s[n..], start)))
  {
    hide QuoteClose;
    var t := s[n..];
    BlanksEndBehind(s, n, start);
    var open := BlanksEnd(t, start);
    assert Get(s, n + open) == Get(t, open);
    QuoteBehind(s, n, open + 1, Get(t, open));
  }

  lemma ValueEndBehind(s: bytes, n: nat, separator: nat)
    requires n + separator < |s|
    ensures ValueEnd(s, n + separator) == n + ValueEnd(s[n..], separator)
  {
    hide QuotedValueEnd;
    hide BlanksEnd;
    hide HeaderValueEnd;
    hide BareValueEnd;
    var start := separator + 1;
    assert s[n + separator] == s[n..][separator];
    QuotedValueBehind(s, n, start);
    HeaderBehind(s, n, start);
    BareBehind(s, n, start);
  }

  lemma SecretBehind(s: bytes, n: nat, copied: nat, i: nat)
    requires copied <= i && n + i < |s| && (i == 0 ==> EndsValue(s[n]))
    requires IsSecretAt(s[n..], i)
    requires var end := SpanOf(s[n..], i).end; Rest(s, n + end, n + end) == Rest(s[n..], end, end)
    ensures Rest(s, n + copied, n + i) == Rest(s[n..], copied, i)
  {
    hide IsSecretAt;
    hide IsKey;
    hide SpanOf;
    hide Rest;
    var t := s[n..];
    KeyBehind(s, n, i);
    SecretIsKey(t, i);
    SpanBehind(s, n, i);
    RestAtSecret(s, n + copied, n + i);
    RestAtSecret(t, copied, i);
    SliceBehind(s, n, copied, SpanOf(t, i).start);
  }

  lemma SliceBehind(s: bytes, n: nat, from: nat, to: nat)
    requires from <= to && n + to <= |s|
    ensures s[n + from..n + to] == s[n..][from..to]
  {
  }

  /** Behind the end of a value, redaction depends on the text from there on only. */
  lemma {:induction false} RestBehind(s: bytes, n: nat, copied: nat, i: nat)
    requires copied <= i && n + i <= |s|
    requires i == 0 && n < |s| ==> EndsValue(s[n])
    ensures Rest(s, n + copied, n + i) == Rest(s[n..], copied, i)
    decreases |s| - n - i
  {
    hide IsSecretAt;
    hide IsKey;
    hide ValueEnd;
    hide SeparatorIndex;
    hide Splice;
    hide Rest;
    hide Spans;
    var t := s[n..];
    if n + i == |s| {
      RestAtEnd(s, n + copied);
      RestAtEnd(t, copied);
      assert s[n + copied..] == t[copied..];
    } else {
      KeyBehind(s, n, i);
      if IsSecretAt(t, i) {
        SecretIsKey(t, i);
        var span := SpanOf(t, i);
        RestBehind(s, n, span.end, span.end);
        SecretBehind(s, n, copied, i);
      } else {
        RestAtPlain(s, n + copied, n + i);
        RestAtPlain(t, copied, i);
        RestBehind(s, n, copied, i + 1);
      }
    }
  }

  lemma SpanBehind(s: bytes, n: nat, i: nat)
    requires n + i < |s| && (i == 0 ==> EndsValue(s[n]))
    requires IsKey(s[n..], i) && IsKey(s, n + i)
    ensures var span := SpanOf(s[n..], i);
            SpanOf(s, n + i) == Span(n + span.start, n + span.end)
  {
    hide IsSecretAt;
    hide IsKey;
    hide ValueEnd;
    hide SeparatorIndex;
    var t := s[n..];
    KeyBehind(s, n, i);
    SeparatorInside(t, i);
    ValueEndBehind(s, n, SeparatorIndex(t, i));
  }

  // ---- The whole text. ----

  /** The two kinds of exchange inside the value behind a separator. */
  ghost predicate Inside(a: bytes, v: bytes, w: bytes, r: bytes, separator: nat) {
    var s := a + v + r;
    && separator < |a|
    && (|| (IsPlain(v) && IsPlain(w) && StaysInside(s, separator, v) && StaysInside(s, separator, w))
        || (&& StartsBare(v) && StartsBare(w) && !StartsQuoted(s, separator + 1)
            && StaysBare(s, separator, v) && StaysBare(s, separator, w)))
  }

  /** The exchange does not reach into an earlier value. */
  ghost predicate Undisturbed(a: bytes, v: bytes, w: bytes, r: bytes, start: nat) {
    (IsPlain(v) && IsPlain(w)) || (StartsBare(v) && StartsBare(w) && !OpensQuote(a + v + r, start))
  }

  lemma InsideAcross(a: bytes, v: bytes, w: bytes, r: bytes, separator: nat)
    requires Inside(a, v, w, r, separator) && ValueEnd(a + v + r, separator) > |a|
    ensures var s := a + v + r;
            var end := ValueEnd(s, separator);
            && SameBehind(a, v, w, end, ValueEnd(a + w + r, separator))
            && (end == |a| + |v| < |s| ==> EndsValue(s[end]))
  {
    hide IsPlain;
    hide StaysInside;
    hide StartsBare;
    hide StaysBare;
    hide StartsQuoted;
    hide ValueEnd;
    if IsPlain(v) && IsPlain(w) && StaysInside(a + v + r, separator, v) && StaysInside(a + v + r, separator, w) {
      ValueAcross(a, v, w, r, separator);
    } else {
      BareValueAcross(a, v, w, r, separator);
    }
  }

  lemma UndisturbedBefore(a: bytes, v: bytes, w: bytes, r: bytes, separator: nat)
    requires separator < |a| && Undisturbed(a, v, w, r, separator + 1) && ValueEnd(a + v + r, separator) < |a|
    ensures ValueEnd(a + w + r, separator) == ValueEnd(a + v + r, separator)
  {
    hide IsPlain;
    hide StartsBare;
    hide OpensQuote;
    hide ValueEnd;
    if IsPlain(v) && IsPlain(w) {
      ValueBefore(a, v, w, r, separator);
    } else {
      ClosedValueBefore(a, v, w, r, separator);
    }
  }

  /** At the key of the value, both texts are redacted alike. */
  lemma SpanAcross(a: bytes, v: bytes, w: bytes, r: bytes, copied: nat, i: nat)
    requires copied <= i < |a|
    requires IsSecretAt(a + v + r, i) && IsSecretAt(a + w + r, i)
    requires var span := SpanOf(a + v + r, i);
             && SpanOf(a + w + r, i).start == span.start <= |a| < span.end
             && Inside(a, v, w, r, span.start - 1)
    ensures Rest(a + v + r, copied, i) == Rest(a + w + r, copied, i)
  {
    hide IsSecretAt;
    hide IsKey;
    hide ValueEnd;
    hide SeparatorIndex;
    hide Inside;
    hide Rest;
    var s, t := a + v + r, a + w + r;
    SecretIsKey(s, i);
    SecretIsKey(t, i);
    RestAtSecret(s, copied, i);
    RestAtSecret(t, copied, i);
    var span := SpanOf(s, i);
    assert s[copied..span.start] == a[copied..span.start] == t[copied..span.start];
    InsideAcross(a, v, w, r, span.start - 1);
    EndsAlike(a, v, w, r, span.end, SpanOf(t, i).end);
  }

  /** From a place the loop comes to before the value, both texts are redacted alike. */
  lemma {:induction false} RestAcross(
      a: bytes, v: bytes, w: bytes, r: bytes, span: Span, copied: nat, i: nat)
    requires copied <= i && i <= |a| && span in Spans(a + v + r, i)
    requires 0 < span.start <= |a| < span.end
    requires Inside(a, v, w, r, span.start - 1)
    requires forall e :: e in Spans(a + v + r, i) && e.start < span.start ==> Undisturbed(a, v, w, r, e.start)
    ensures Rest(a + v + r, copied, i) == Rest(a + w + r, copied, i)
    decreases |a| - i
  {
    hide IsSecretAt;
    hide IsKey;
    hide ValueEnd;
    hide SeparatorIndex;
    hide Inside;
    hide Splice;
    hide Rest;
    hide Spans;
    hide Undisturbed;
    var s, t := a + v + r, a + w + r;
    SpanIsSecret(s, i, span);
    var b := span.start - 1;
    assert s[..b + 1] == a[..b + 1] == t[..b + 1];
    SameKey(s, t, b, i);
    if !IsSecretAt(s, i) {
      SpansAtPlain(s, i);
      RestAtPlain(s, copied, i);
      RestAtPlain(t, copied, i);
      RestAcross(a, v, w, r, span, copied, i + 1);
    } else {
      SecretIsKey(s, i);
      SecretIsKey(t, i);
      var first := SpanOf(s, i);
      SpansAtSecret(s, i);
      if first == span {
        SpanAcross(a, v, w, r, copied, i);
      } else {
        SpanIsSecret(s, first.end, span);
        RestAtSecret(s, copied, i);
        RestAtSecret(t, copied, i);
        assert s[copied..first.start] == a[copied..first.start] == t[copied..first.start];
        UndisturbedBefore(a, v, w, r, first.start - 1);
        RestAcross(a, v, w, r, span, first.end, first.end);
      }
    }
  }

  lemma SpansAtPlain(s: bytes, i: nat)
    requires i < |s| && !IsSecretAt(s, i)
    ensures Spans(s, i) == Spans(s, i + 1)
  {
    hide IsSecretAt;
  }

  lemma SpansAtSecret(s: bytes, i: nat)
    requires i < |s| && IsSecretAt(s, i)
    ensures forall span :: span in Spans(s, i) <==> span == SpanOf(s, i) || span in Spans(s, SpanOf(s, i).end)
  {
    hide IsSecretAt;
    hide SpanOf;
  }

  lemma EndsAlike(a: bytes, v: bytes, w: bytes, r: bytes, p: nat, q: nat)
    requires p <= |a + v + r| && SameBehind(a, v, w, p, q)
    requires p == |a| + |v| < |a + v + r| ==> EndsValue((a + v + r)[p])
    ensures q <= |a + w + r| && Rest(a + v + r, p, p) == Rest(a + w + r, q, q)
  {
    hide Rest;
    var s, t := a + v + r, a + w + r;
    assert s[|a| + |v|..] == r == t[|a| + |w|..];
    var k := p - |a| - |v|;
    RestBehind(s, |a| + |v|, k, k);
    RestBehind(t, |a| + |w|, k, k);
  }

  lemma SpanIsSecret(s: bytes, i: nat, span: Span)
    requires i <= |s| && span in Spans(s, i)
    ensures i < span.start <= span.end <= |s|
    ensures s[span.start - 1] == EQUALS || s[span.start - 1] == COLON
  {
    hide IsSecretKey;
    SpansAreSecret(s, i, span);
  }

  /**
   * Redaction hides its values: a plain stretch inside a replaced range can be exchanged
   * for any other that would not end the value, and the redacted text stays the same to
   * the last byte.
   */
  lemma ValueDoesNotShow(a: bytes, v: bytes, w: bytes, r: bytes, span: Span)
    requires IsPlain(v) && IsPlain(w)
    requires span in Spans(a + v + r, 0) && 0 < span.start <= |a| < span.end
    requires StaysInside(a + v + r, span.start - 1, v) && StaysInside(a + v + r, span.start - 1, w)
    ensures Redacted(a + v + r) == Redacted(a + w + r)
  {
    hide Spans;
    hide IsPlain;
    RestAcross(a, v, w, r, span, 0, 0);
  }

  /**
   * The same inside a value without quotes, for stretches that may hold quotes and
   * backslashes behind their first byte, unless an earlier value opens a quote that is
   * never closed.
   */
  lemma BareValueDoesNotShow(a: bytes, v: bytes, w: bytes, r: bytes, span: Span)
    requires StartsBare(v) && StartsBare(w)
    requires span in Spans(a + v + r, 0) && 0 < span.start <= |a| < span.end
    requires !StartsQuoted(a + v + r, span.start)
    requires StaysBare(a + v + r, span.start - 1, v) && StaysBare(a + v + r, span.start - 1, w)
    requires forall e :: e in Spans(a + v + r, 0) && e.start < span.start ==> !OpensQuote(a + v + r, e.start)
    ensures Redacted(a + v + r) == Redacted(a + w + r)
  {
    hide Spans;
    hide StartsBare;
    hide StartsQuoted;
    hide OpensQuote;
    hide StaysBare;
    RestAcross(a, v, w, r, span, 0, 0);
  }

  // ---- What an open quote costs. ----

  /** `pwd:"` newline `pwd=`: the quote is never closed, unless the second value closes it. */
  const OPEN_QUOTE: bytes := [112, 119, 100, COLON, DOUBLE_QUOTE, LF, 112, 119, 100, EQUALS]

  /** `a` */
  const HARMLESS: bytes := [97]

  /** `a"b` */
  const CLOSING: bytes := [97, DOUBLE_QUOTE, 98]

  lemma HarmlessKeys()
    ensures var s := OPEN_QUOTE + HARMLESS;
            && IsSecretAt(s, 0) && SpanOf(s, 0) == Span(4, 5)
            && !IsSecretAt(s, 5)
            && IsSecretAt(s, 6) && SpanOf(s, 6) == Span(10, 11)
  {
    hide IsSecretKey;
    var s := OPEN_QUOTE + HARMLESS;
    PwdIsSecret();
    assert KeyEnd(s, 2) == 3 && KeyEnd(s, 8) == 9;
    assert KeyEnd(s, 0) == 3 && KeyEnd(s, 6) == 9 && s[0..3] == PWD == s[6..9];
    assert KeyEnd(s, 5) == 5;
    QuoteThrough(s, 5, 11, DOUBLE_QUOTE);
    assert QuotedValueEnd(s, 4) == None;
    assert HeaderValueEnd(s, 4) == 5;
    assert BareValueEnd(s, 10) == 11;
  }

  lemma ClosingKeys()
    ensures var s := OPEN_QUOTE + CLOSING;
            IsSecretAt(s, 0) && SpanOf(s, 0) == Span(4, 12) && !IsSecretAt(s, 12)
  {
    hide IsSecretKey;
    var s := OPEN_QUOTE + CLOSING;
    PwdIsSecret();
    assert KeyEnd(s, 2) == 3;
    assert KeyEnd(s, 0) == 3 && s[0..3] == PWD;
    QuoteThrough(s, 5, 11, DOUBLE_QUOTE);
    assert QuoteClose(s, 11, DOUBLE_QUOTE) == Some(12);
    assert QuotedValueEnd(s, 4) == Some(12);
    assert KeyEnd(s, 12) == 13;
  }

  /** A quote left open by an earlier value is closed by a quote in the secret: the rest of the secret shows. */
  lemma OpenQuoteShowsSecret()
    ensures Redacted(OPEN_QUOTE + HARMLESS) == OPEN_QUOTE[..4] + REDACTED + (OPEN_QUOTE[5..] + REDACTED)
    ensures Redacted(OPEN_QUOTE + CLOSING) == OPEN_QUOTE[..4] + REDACTED + [98]
  {
    hide IsSecretAt;
    hide SpanOf;
    hide Rest;
    hide Redacted;
    var s, t := OPEN_QUOTE + HARMLESS, OPEN_QUOTE + CLOSING;
    HarmlessKeys();
    SecretIsKey(s, 0);
    SecretIsKey(s, 6);
    RestAtStart(s);
    RestAtSecret(s, 0, 0);
    RestAtPlain(s, 5, 5);
    RestAtSecret(s, 5, 6);
    RestAtEnd(s, 11);
    assert s[0..4] == OPEN_QUOTE[..4] == t[0..4] && s[5..10] == OPEN_QUOTE[5..] && s[11..] == [];
    ClosingKeys();
    SecretIsKey(t, 0);
    RestAtStart(t);
    RestAtSecret(t, 0, 0);
    RestAtPlain(t, 12, 12);
    RestAtEnd(t, 12);
    assert t[12..] == [98];
    assert [] + Rest(s, 0, 0) == Rest(s, 0, 0) && [] + Rest(t, 0, 0) == Rest(t, 0, 0);
    assert OPEN_QUOTE[5..] + REDACTED + [] == OPEN_QUOTE[5..] + REDACTED;
  }
}
