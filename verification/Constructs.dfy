// What the constructs are, byte by byte and without the definitions of the scanner:
// which byte sequences are dollar-quote tags, where each construct ends, and that a
// semicolon inside one is no terminator (src/sql/scanner.rs).

module Constructs {
  import opened Bytes
  import opened Wrappers
  import opened Scanner
  import opened Lexicon

  // ---- Tags. ----

  /** A letter, an underscore, or a byte of a non-ASCII character. */
  predicate StartsTag(b: int) {
    65 <= b <= 90 || 97 <= b <= 122 || b == 95 || 128 <= b <= 255
  }

  predicate InTag(b: int) {
    StartsTag(b) || 48 <= b <= 57
  }

  /** Section 4.1.2.4: a tag follows the rules of an identifier, without dollar signs, or is empty. */
  predicate IsTag(tag: bytes) {
    tag == [] || (StartsTag(tag[0]) && forall k :: 0 <= k < |tag| ==> InTag(tag[k]))
  }

  lemma {:induction false} TagEndMeans(s: bytes, i: nat, e: nat)
    requires i <= |s|
    ensures TagEnd(s, i) == Some(e)
       <==> i < e <= |s| && s[e - 1] == 36 && forall k :: i <= k < e - 1 ==> InTag(s[k])
    decreases |s| - i
  {
    if i < |s| && s[i] != 36 && InTag(s[i]) {
      TagEndMeans(s, i + 1, e);
    }
  }

  /** The look-ahead finds a delimiter exactly where a dollar sign, a tag and a dollar sign stand. */
  lemma DelimiterMeans(s: bytes, start: nat, e: nat)
    requires start < |s| && s[start] == 36
    ensures DelimiterEnd(s, start) == Some(e)
       <==> start + 1 < e <= |s| && s[e - 1] == 36 && IsTag(s[start + 1..e - 1])
  {
    var next := Get(s, start + 1);
    if start + 1 < e <= |s| {
      var tag := s[start + 1..e - 1];
      assert forall k :: start + 1 <= k < e - 1 ==> s[k] == tag[k - start - 1];
      if next != 36 && start + 2 < e {
        TagEndMeans(s, start + 2, e);
        assert tag[0] == next;
        assert forall k :: 0 <= k < |tag| ==> tag[k] == s[start + 1 + k];
      }
    }
    if start + 2 <= |s| && StartsTag(next) {
      TagEndMeans(s, start + 2, e);
    }
  }

  /** With the look-behind: no delimiter starts behind a byte of a word. */
  lemma DollarQuoteMeans(s: bytes, start: nat, e: nat)
    requires start < |s| && s[start] == 36 && e <= |s|
    ensures start + 2 <= e && DollarQuoteDelimiter(s, start) == Some(s[start..e])
       <==> && (start == 0 || (!InTag(s[start - 1]) && s[start - 1] != 36))
            && start + 1 < e && s[e - 1] == 36 && IsTag(s[start + 1..e - 1])
  {
    DelimiterMeans(s, start, e);
    if DelimiterEnd(s, start).Some? && start <= e {
      var found := DelimiterEnd(s, start).value;
      assert |s[start..found]| == found - start && |s[start..e]| == e - start;
    }
  }

  /** The prefix of an escape string: an `E` of either case that no byte of a word or dollar sign precedes. */
  lemma EscapePrefixMeans(s: bytes, quote: nat)
    requires quote < |s| && s[quote] == 39
    ensures IsEscapeStringPrefix(s, quote)
       <==> && 0 < quote && (s[quote - 1] == 69 || s[quote - 1] == 101)
            && (quote == 1 || (!InTag(s[quote - 2]) && s[quote - 2] != 36))
  {
  }

  // ---- Ends. ----

  /** A line comment ends behind the first line feed or carriage return. */
  lemma {:induction false} LineEndMeans(s: bytes, i: nat, e: nat)
    ensures LineEnd(s, i) == Some(e)
       <==> && i < e <= |s| && (s[e - 1] == 10 || s[e - 1] == 13)
            && forall k :: i <= k < e - 1 ==> s[k] != 10 && s[k] != 13
    decreases |s| - i
  {
    if i < |s| && s[i] != 10 && s[i] != 13 {
      LineEndMeans(s, i + 1, e);
    }
  }

  /** A copy of a delimiter stands at `k`. */
  predicate CopyAt(s: bytes, k: nat, delimiter: bytes) {
    k + |delimiter| <= |s| && forall j :: 0 <= j < |delimiter| ==> s[k + j] == delimiter[j]
  }

  lemma CopyStarts(s: bytes, k: nat, delimiter: bytes)
    ensures CopyAt(s, k, delimiter) == StartsWith(s, k, delimiter)
  {
    if k + |delimiter| <= |s| {
      var copy := s[k..k + |delimiter|];
      assert forall j :: 0 <= j < |delimiter| ==> copy[j] == s[k + j];
    }
  }

  /** A dollar-quoted body ends behind the first copy of its delimiter. */
  lemma {:induction false} DollarEndMeans(s: bytes, i: nat, delimiter: bytes, start: nat)
    requires delimiter != [] && i <= start
    ensures DollarEnd(s, i, delimiter) == Some(start + |delimiter|)
       <==> CopyAt(s, start, delimiter) && forall k :: i <= k < start ==> !CopyAt(s, k, delimiter)
    decreases |s| - i
  {
    hide CopyAt;
    hide StartsWith;
    CopyStarts(s, i, delimiter);
    if i >= |s| {
      NoCopyBehind(s, start, delimiter);
    } else if !CopyAt(s, i, delimiter) && i < start {
      DollarEndMeans(s, i + 1, delimiter, start);
    } else if !CopyAt(s, i, delimiter) {
      DollarEndLater(s, i + 1, delimiter);
    }
  }

  lemma NoCopyBehind(s: bytes, k: nat, delimiter: bytes)
    requires k >= |s| && delimiter != []
    ensures !CopyAt(s, k, delimiter)
  {
  }

  lemma {:induction false} DollarEndLater(s: bytes, i: nat, delimiter: bytes)
    requires delimiter != []
    ensures DollarEnd(s, i, delimiter).Some? ==> DollarEnd(s, i, delimiter).value >= i + |delimiter|
    decreases |s| - i
  {
    if i < |s| && !StartsWith(s, i, delimiter) {
      DollarEndLater(s, i + 1, delimiter);
    }
  }

  /** A text as it is written between quotes: every quote in it doubled. */
  function Doubled(text: bytes, quote: byte): bytes {
    if text == [] then []
    else (if text[0] == quote then [quote, quote] else [text[0]]) + Doubled(text[1..], quote)
  }

  /** Every text written between quotes ends at its closing quote, if no quote follows. */
  lemma {:induction false} QuotedReads(before: bytes, text: bytes, quote: byte, after: bytes)
    requires Get(after, 0) != quote
    ensures var s := before + Doubled(text, quote) + [quote] + after;
            QuotedEnd(s, |before|, quote) == Some(|before| + |Doubled(text, quote)| + 1)
    decreases |text|
  {
    var s := before + Doubled(text, quote) + [quote] + after;
    if text == [] {
      assert s == before + [quote] + after;
      assert after != [] ==> s[|before| + 1] == after[0];
    } else {
      var head := if text[0] == quote then [quote, quote] else [text[0]];
      QuotedReads(before + head, text[1..], quote, after);
      assert s == before + head + Doubled(text[1..], quote) + [quote] + after;
      assert s[|before|] == head[0] && (|head| == 2 ==> s[|before| + 1] == head[1]);
    }
  }

  /** A text as it is written in an escape string: quotes and backslashes behind a backslash. */
  function Backslashed(text: bytes): bytes {
    if text == [] then []
    else (if text[0] == 39 || text[0] == 92 then [92, text[0]] else [text[0]]) + Backslashed(text[1..])
  }

  lemma {:induction false} EscapedReads(before: bytes, text: bytes, after: bytes)
    requires Get(after, 0) != 39
    ensures var s := before + Backslashed(text) + [39] + after;
            EscapedEnd(s, |before|) == Some(|before| + |Backslashed(text)| + 1)
    decreases |text|
  {
    var s := before + Backslashed(text) + [39] + after;
    if text == [] {
      assert s == before + [39] + after;
      assert after != [] ==> s[|before| + 1] == after[0];
    } else {
      var head: bytes := if text[0] == 39 || text[0] == 92 then [92, text[0]] else [text[0]];
      EscapedReads(before + head, text[1..], after);
      assert s == before + head + Backslashed(text[1..]) + [39] + after;
      assert s[|before|] == head[0] && (|head| == 2 ==> s[|before| + 1] == head[1]);
    }
  }

  /** A comment without comment marks in it ends at its closing mark. */
  lemma {:induction false} CommentReads(before: bytes, text: bytes, after: bytes)
    requires forall k :: 0 <= k < |text| ==> text[k] != 42 && text[k] != 47
    ensures var s := before + text + [42, 47] + after;
            CommentEnd(s, |before|) == Some(|before| + |text| + 2)
    decreases |text|
  {
    var s := before + text + [42, 47] + after;
    if text == [] {
      assert s[|before|] == 42 && s[|before| + 1] == 47;
    } else {
      CommentReads(before + [text[0]], text[1..], after);
      assert s == before + [text[0]] + text[1..] + [42, 47] + after;
      assert s[|before|] == text[0];
    }
  }

  // ---- Semicolons inside. ----

  /** A construct from the start of a text up to `e`, and a semicolon behind it: the only terminator. */
  lemma OneTerminator(s: bytes, inside: nat, state: LexicalState, e: nat)
    requires 0 < inside <= e < |s| && |s| == e + 1 && s[e] == 59
    requires NormalStep(s, 0) == Step(inside, state, false) && state.Valid() && !state.Normal?
    requires ScanFrom(s, inside, state).ends == ScanFrom(s, e, Normal).ends
    ensures Scan(s).ends == [e + 1]
  {
    hide ScanFrom;
    OpeningTurn(s, 0, inside, state);
    TerminatorTurn(s, e);
    ScanEnd(s, Normal);
    assert [e + 1] + [] == [e + 1];
  }

  lemma StringHides(text: bytes)
    ensures Scan([39] + Doubled(text, 39) + [39] + [59]).ends == [|Doubled(text, 39)| + 3]
  {
    hide QuotedEnd;
    hide ScanFrom;
    var s := [39] + Doubled(text, 39) + [39] + [59];
    QuotedReads([39], text, 39, [59]);
    RunQuoted(s, 1, SingleQuotedString, 39);
    OneTerminator(s, 1, SingleQuotedString, |s| - 1);
  }

  lemma QuotedNameHides(text: bytes)
    ensures Scan([34] + Doubled(text, 34) + [34] + [59]).ends == [|Doubled(text, 34)| + 3]
  {
    hide QuotedEnd;
    hide ScanFrom;
    var s := [34] + Doubled(text, 34) + [34] + [59];
    QuotedReads([34], text, 34, [59]);
    RunQuoted(s, 1, DoubleQuotedIdentifier, 34);
    OneTerminator(s, 1, DoubleQuotedIdentifier, |s| - 1);
  }

  lemma EscapeStringHides(letter: byte, text: bytes)
    requires letter == 69 || letter == 101
    ensures Scan([letter, 39] + Backslashed(text) + [39] + [59]).ends == [|Backslashed(text)| + 4]
  {
    hide EscapedEnd;
    hide ScanFrom;
    hide DollarQuoteDelimiter;
    var s := [letter, 39] + Backslashed(text) + [39] + [59];
    var e := |s| - 1;
    EscapedReads([letter, 39], text, [59]);
    RunEscaped(s, 2);
    assert s[0] == letter && s[1] == 39 && s[e] == 59;
    SilentTurn(s, 0, Normal, 1, Normal);
    OpeningTurn(s, 1, 2, EscapeString);
    TerminatorTurn(s, e);
    ScanEnd(s, Normal);
    assert [e + 1] + [] == [e + 1];
  }

  lemma LineCommentHides(text: bytes, newline: byte)
    requires newline == 10 || newline == 13
    requires forall k :: 0 <= k < |text| ==> text[k] != 10 && text[k] != 13
    ensures Scan([45, 45] + text + [newline] + [59]).ends == [|text| + 4]
  {
    hide LineEnd;
    hide ScanFrom;
    var s := [45, 45] + text + [newline] + [59];
    var e := |text| + 3;
    assert s[e - 1] == newline && forall k :: 2 <= k < e - 1 ==> s[k] == text[k - 2];
    LineEndMeans(s, 2, e);
    RunLine(s, 2);
    OneTerminator(s, 2, LineComment, e);
  }

  lemma BlockCommentHides(text: bytes)
    requires forall k :: 0 <= k < |text| ==> text[k] != 42 && text[k] != 47
    ensures Scan([47, 42] + text + [42, 47] + [59]).ends == [|text| + 5]
  {
    hide CommentEnd;
    hide ScanFrom;
    var s := [47, 42] + text + [42, 47] + [59];
    CommentReads([47, 42], text, [59]);
    RunBlock(s, 2, 1);
    assert s[0] == 47 && s[1] == 42;
    OneTerminator(s, 2, BlockComment(1), |s| - 1);
  }

  lemma NestedReads(text: bytes)
    requires forall k :: 0 <= k < |text| ==> text[k] != 42 && text[k] != 47
    ensures var s := [47, 42, 47, 42] + text + [42, 47, 59, 42, 47, 59];
            CommentEnd(s, 2) == Some(|s| - 1)
  {
    hide CommentEnd;
    var head := [47, 42, 47, 42] + text + [42, 47];
    var s := [47, 42, 47, 42] + text + [42, 47, 59, 42, 47, 59];
    assert s == [47, 42, 47, 42] + text + [42, 47] + [59, 42, 47, 59];
    CommentReads([47, 42, 47, 42], text, [59, 42, 47, 59]);
    assert s == head + [59] + [42, 47] + [59];
    CommentReads(head, [59], [59]);
    NestedEnd(s, |head|, |s| - 1);
  }

  /** A comment inside a comment does not end it. */
  lemma NestedCommentHides(text: bytes)
    requires forall k :: 0 <= k < |text| ==> text[k] != 42 && text[k] != 47
    ensures Scan([47, 42, 47, 42] + text + [42, 47, 59, 42, 47, 59]).ends == [|text| + 10]
  {
    hide ScanFrom;
    hide CommentEnd;
    var s := [47, 42, 47, 42] + text + [42, 47, 59, 42, 47, 59];
    NestedReads(text);
    RunBlock(s, 2, 1);
    OneTerminator(s, 2, BlockComment(1), |s| - 1);
  }

  lemma NestedEnd(s: bytes, inner: nat, e: nat)
    requires 3 < |s| && s[2] == 47 && s[3] == 42 && inner <= |s|
    requires CommentEnd(s, 4) == Some(inner) && CommentEnd(s, inner) == Some(e)
    ensures CommentEnd(s, 2) == Some(e)
  {
  }

  lemma DollarQuoteHides(tag: bytes, text: bytes)
    requires IsTag(tag) && forall k :: 0 <= k < |text| ==> text[k] != 36
    ensures var delimiter := [36] + tag + [36];
            Scan(delimiter + text + (delimiter + [59])).ends == [2 * |tag| + |text| + 5]
  {
    hide ScanFrom;
    hide DollarEnd;
    hide IsTag;
    hide DollarQuoteDelimiter;
    hide CopyAt;
    var delimiter := [36] + tag + [36];
    var n := |delimiter|;
    var s := delimiter + text + (delimiter + [59]);
    var e := n + |text| + n;
    assert s[0] == 36 && s[n - 1] == 36 && s[1..n - 1] == tag && s[0..n] == delimiter && s[e] == 59;
    DollarQuoteMeans(s, 0, n);
    CopyBehind(delimiter + text, delimiter, [59]);
    TextInside(delimiter, text, delimiter + [59]);
    FirstCopy(s, n, n + |text|, delimiter);
    RunDollar(s, n, delimiter);
    OneTerminator(s, n, DollarQuotedString(delimiter), e);
  }

  lemma OtherByte(s: bytes, k: nat, delimiter: bytes)
    requires k < |s| && delimiter != [] && s[k] != delimiter[0]
    ensures !CopyAt(s, k, delimiter)
  {
  }

  lemma CopyBehind(before: bytes, delimiter: bytes, after: bytes)
    ensures CopyAt(before + (delimiter + after), |before|, delimiter)
  {
  }

  lemma FirstCopy(s: bytes, i: nat, start: nat, delimiter: bytes)
    requires i <= start <= |s| && delimiter != [] && CopyAt(s, start, delimiter)
    requires forall k :: i <= k < start ==> s[k] != delimiter[0]
    ensures DollarEnd(s, i, delimiter) == Some(start + |delimiter|)
  {
    hide DollarEnd;
    hide CopyAt;
    forall k | i <= k < start
      ensures !CopyAt(s, k, delimiter)
    {
      OtherByte(s, k, delimiter);
    }
    DollarEndMeans(s, i, delimiter, start);
  }

  lemma TextInside(before: bytes, text: bytes, after: bytes)
    ensures forall k :: |before| <= k < |before| + |text| ==> (before + text + after)[k] == text[k - |before|]
  {
  }
}
