// What a stream of pushes emits, and why chunking cannot change it.

module Framing {
  import opened Bytes
  import opened Wrappers
  import opened Scanner

  /** Statements cut off the front of a text, and the unterminated rest. */
  datatype Framed = Framed(statements: seq<bytes>, pending: bytes)

  /** Cuts at the first terminator, and goes on behind it. */
  function FrameFrom(s: bytes, i: nat): Framed
    requires i <= |s|
    decreases |s| - i
  {
    var ends := ScanFrom(s, i, Normal).ends;
    if ends == [] then Framed([], s[i..])
    else
      ScanEnds(s, i, Normal);
      var rest := FrameFrom(s, ends[0]);
      Framed([s[i..ends[0]]] + rest.statements, rest.pending)
  }

  function Frame(s: bytes): Framed {
    FrameFrom(s, 0)
  }

  /** A text whose only terminator is its last byte is one statement; one without a terminator is pending. */
  lemma FrameOfOne(s: bytes)
    ensures Scan(s).ends == [] ==> Frame(s) == Framed([], s)
    ensures Scan(s).ends == [|s|] ==> Frame(s) == Framed([s], [])
  {
    hide ScanFrom;
    assert s[0..] == s && s[0..|s|] == s && s[|s|..] == [];
    ScanEnd(s, Normal);
    assert FrameFrom(s, |s|) == Framed([], []);
    assert [s] + [] == [s];
  }

  ghost predicate AllAbove(ends: seq<nat>, low: int, high: int) {
    forall k :: 0 <= k < |ends| ==> low < ends[k] <= high
  }

  lemma {:induction false} ScanEnds(s: bytes, i: nat, state: LexicalState)
    requires i <= |s| && state.Valid()
    ensures AllAbove(ScanFrom(s, i, state).ends, i, |s|)
    decreases |s| - i
  {
    hide StepAt;
    if i < |s| {
      var step := StepAt(s, i, state);
      ScanEnds(s, step.next, step.state);
    }
  }

  // ---- Look-behind: scanning may restart behind any byte that is no part of a word. ----

  lemma {:induction false} TagEndShift(s: bytes, cut: nat, i: nat)
    requires cut <= i <= |s|
    ensures TagEnd(s, i) == match TagEnd(s[cut..], i - cut)
                            case None => None
                            case Some(e) => Some(e + cut)
    decreases |s| - i
  {
    if i < |s| {
      assert s[i] == s[cut..][i - cut];
      if s[i] != DOLLAR && IsIdentifierContinue(s[i]) {
        TagEndShift(s, cut, i + 1);
      }
    }
  }

  predicate WordBreak(s: bytes, cut: nat) {
    0 < cut <= |s| && !IsIdentifierContinue(s[cut - 1])
  }

  lemma DelimiterShift(s: bytes, cut: nat, i: nat)
    requires WordBreak(s, cut) && cut <= i < |s| && s[i] == DOLLAR
    ensures DollarQuoteDelimiter(s, i) == DollarQuoteDelimiter(s[cut..], i - cut)
  {
    var t := s[cut..];
    assert i > cut ==> s[i - 1] == t[i - cut - 1];
    assert Get(s, i + 1) == Get(t, i - cut + 1);
    if i + 2 <= |s| {
      TagEndShift(s, cut, i + 2);
    }
    match DelimiterEnd(s, i)
    case None =>
    case Some(end) => assert s[i..end] == t[i - cut..end - cut];
  }

  lemma NormalStepShift(s: bytes, cut: nat, i: nat)
    requires WordBreak(s, cut) && cut <= i < |s|
    ensures NormalStep(s, i) == NormalStep(s[cut..], i - cut).(next := NormalStep(s[cut..], i - cut).next + cut)
  {
    var t := s[cut..];
    assert s[i] == t[i - cut];
    assert Get(s, i + 1) == Get(t, i - cut + 1);
    assert i > cut ==> Get(s, i - 1) == Get(t, i - cut - 1);
    assert i > cut + 1 ==> Get(s, i - 2) == Get(t, i - cut - 2);
    if s[i] == DOLLAR {
      DelimiterShift(s, cut, i);
    }
  }

  lemma StepShift(s: bytes, cut: nat, i: nat, state: LexicalState)
    requires WordBreak(s, cut) && cut <= i < |s| && state.Valid()
    ensures StepAt(s, i, state)
         == StepAt(s[cut..], i - cut, state).(next := StepAt(s[cut..], i - cut, state).next + cut)
  {
    var t := s[cut..];
    assert s[i] == t[i - cut];
    assert Get(s, i + 1) == Get(t, i - cut + 1);
    match state
    case Normal => NormalStepShift(s, cut, i);
    case DollarQuotedString(delimiter) =>
      if i + |delimiter| <= |s| {
        assert s[i..i + |delimiter|] == t[i - cut..i - cut + |delimiter|];
      }
    case _ =>
  }

  lemma {:induction false} ScanRestart(s: bytes, cut: nat, i: nat, state: LexicalState)
    requires WordBreak(s, cut) && cut <= i <= |s| && state.Valid()
    ensures var here := ScanFrom(s, i, state);
            var alone := ScanFrom(s[cut..], i - cut, state);
            && (here.ends == [] <==> alone.ends == [])
            && (here.ends != [] ==> here.ends[0] == alone.ends[0] + cut)
            && here.last == alone.last
    decreases |s| - i
  {
    hide StepAt;
    hide WordBreak;
    if i < |s| {
      StepShift(s, cut, i, state);
      var step := StepAt(s, i, state);
      ScanRestart(s, cut, step.next, step.state);
    }
  }

  /** A terminator that a scan reports was read in the normal state. */
  lemma {:induction false} ScanThrough(s: bytes, i: nat, state: LexicalState)
    requires i <= |s| && state.Valid() && ScanFrom(s, i, state).ends != []
    ensures var whole := ScanFrom(s, i, state);
            var e := whole.ends[0];
            && i < e <= |s| && s[e - 1] == SEMICOLON
            && whole.ends[1..] == ScanFrom(s, e, Normal).ends
            && whole.last == ScanFrom(s, e, Normal).last
    decreases |s| - i
  {
    hide StepAt;
    var step := StepAt(s, i, state);
    if !step.terminated {
      ScanThrough(s, step.next, step.state);
    }
  }

  /** Framing may start over behind any cut. */
  lemma {:induction false} FrameRestart(s: bytes, cut: nat, i: nat)
    requires WordBreak(s, cut) && cut <= i <= |s|
    ensures FrameFrom(s, i) == FrameFrom(s[cut..], i - cut)
    decreases |s| - i
  {
    hide ScanFrom;
    ScanRestart(s, cut, i, Normal);
    var ends := ScanFrom(s, i, Normal).ends;
    if ends == [] {
      assert s[i..] == s[cut..][i - cut..];
    } else {
      ScanEnds(s, i, Normal);
      var e := ends[0];
      assert s[i..e] == s[cut..][i - cut..e - cut];
      FrameRestart(s, cut, e);
    }
  }

  // ---- Look-ahead: what a longer text can change lies beyond the shorter one. ----

  /** A tag that the text breaks off hides nothing: the machine runs through it in the normal state. */
  lemma {:induction false} QuietWord(s: bytes, i: nat)
    requires i <= |s|
    requires forall k :: i <= k < |s| ==> IsIdentifierContinue(s[k]) && s[k] != DOLLAR
    ensures ScanFrom(s, i, Normal) == Outcome([], [], Normal)
    decreases |s| - i
  {
    if i < |s| {
      QuietWord(s, i + 1);
    }
  }

  lemma {:induction false} QuietDollarTail(s: bytes, i: nat, delimiter: bytes)
    requires i <= |s| < i + |delimiter| && DollarQuotedString(delimiter).Valid()
    ensures ScanFrom(s, i, DollarQuotedString(delimiter)).ends == []
    decreases |s| - i
  {
    if i < |s| {
      QuietDollarTail(s, i + 1, delimiter);
    }
  }

  lemma {:induction false} TagEndExtended(s: bytes, t: bytes, i: nat)
    requires i <= |s|
    ensures TagEnd(s, i).Some? ==> TagEnd(s + t, i) == TagEnd(s, i)
    ensures TagEnd(s, i) == None && TagEnd(s + t, i).Some? ==>
              && TagEnd(s + t, i).value > |s|
              && forall k :: i <= k < |s| ==> IsIdentifierContinue(s[k]) && s[k] != DOLLAR
    decreases |s| - i
  {
    if i < |s| {
      assert s[i] == (s + t)[i];
      if s[i] != DOLLAR && IsIdentifierContinue(s[i]) {
        TagEndExtended(s, t, i + 1);
      }
    }
  }

  /** Where two steps part, the shorter text is silent to its end and the longer one leaps beyond it. */
  ghost predicate Parts(s: bytes, t: bytes, i: nat, state: LexicalState)
    requires i < |s| && state.Valid()
  {
    && ScanFrom(s, i, state).ends == []
    && StepAt(s + t, i, state).next > |s|
    && !StepAt(s + t, i, state).terminated
  }

  lemma DelimiterExtended(s: bytes, t: bytes, i: nat)
    requires i < |s| && s[i] == DOLLAR
    ensures DollarQuoteDelimiter(s, i).Some? ==> DollarQuoteDelimiter(s + t, i) == DollarQuoteDelimiter(s, i)
    ensures DollarQuoteDelimiter(s, i) == None && DollarQuoteDelimiter(s + t, i).Some? ==>
              && |DollarQuoteDelimiter(s + t, i).value| > |s| - i
              && forall k :: i < k < |s| ==> IsIdentifierContinue(s[k]) && s[k] != DOLLAR
  {
    var w := s + t;
    assert w[i] == s[i] && (i > 0 ==> w[i - 1] == s[i - 1]);
    if i + 1 < |s| {
      assert w[i + 1] == s[i + 1];
      TagEndExtended(s, t, i + 2);
      if DelimiterEnd(s, i).Some? {
        assert s[i..DelimiterEnd(s, i).value] == w[i..DelimiterEnd(s, i).value];
      }
    }
  }

  lemma DollarStepExtended(s: bytes, t: bytes, i: nat)
    requires i < |s| && s[i] == DOLLAR && NormalStep(s, i) != NormalStep(s + t, i)
    ensures Parts(s, t, i, Normal)
  {
    DelimiterExtended(s, t, i);
    assert (s + t)[i] == s[i];
    QuietWord(s, i + 1);
  }

  lemma StartsWithExtended(s: bytes, t: bytes, i: nat, prefix: bytes)
    requires i <= |s|
    ensures i + |prefix| <= |s| ==> StartsWith(s, i, prefix) == StartsWith(s + t, i, prefix)
  {
    if i + |prefix| <= |s| {
      assert s[i..i + |prefix|] == (s + t)[i..i + |prefix|];
    }
  }

  lemma StepExtended(s: bytes, t: bytes, i: nat, state: LexicalState)
    requires i < |s| && state.Valid() && StepAt(s, i, state) != StepAt(s + t, i, state)
    ensures Parts(s, t, i, state)
  {
    var w := s + t;
    assert w[i] == s[i];
    assert i + 1 < |s| ==> Get(w, i + 1) == Get(s, i + 1);
    match state
    case Normal =>
      assert i > 0 ==> Get(w, i - 1) == Get(s, i - 1);
      assert i > 1 ==> Get(w, i - 2) == Get(s, i - 2);
      if s[i] == DOLLAR {
        DollarStepExtended(s, t, i);
      }
    case DollarQuotedString(delimiter) =>
      StartsWithExtended(s, t, i, delimiter);
      QuietDollarTail(s, i, delimiter);
    case _ =>
  }

  /** More text keeps every end already found, and adds only ends beyond the shorter text. */
  lemma {:induction false} ScanExtended(s: bytes, t: bytes, i: nat, state: LexicalState)
    requires i <= |s| && state.Valid()
    ensures var short := ScanFrom(s, i, state).ends;
            var long := ScanFrom(s + t, i, state).ends;
            short <= long && AllAbove(long[|short|..], |s|, |s + t|)
    decreases |s| - i
  {
    hide StepAt;
    hide ScanFrom;
    if i == |s| {
      ScanEnd(s, state);
      ScanEnds(s + t, i, state);
    } else {
      var step := StepAt(s + t, i, state);
      ReportingTurn(s + t, i, state, step.next, step.state, step.terminated);
      if StepAt(s, i, state) == step {
        ReportingTurn(s, i, state, step.next, step.state, step.terminated);
        ScanExtended(s, t, step.next, step.state);
        var head := if step.terminated then [step.next] else [];
        PrefixUnder(head, ScanFrom(s, step.next, step.state).ends, ScanFrom(s + t, step.next, step.state).ends);
      } else {
        StepExtended(s, t, i, state);
        ScanEnds(s + t, step.next, step.state);
        AllAboveLower(ScanFrom(s + t, step.next, step.state).ends, step.next, |s|, |s + t|);
      }
    }
  }

  lemma PrefixUnder(head: seq<nat>, short: seq<nat>, long: seq<nat>)
    requires short <= long
    ensures head + short <= head + long
    ensures (head + long)[|head + short|..] == long[|short|..]
  {
  }

  lemma AllAboveLower(ends: seq<nat>, low: int, lower: int, high: int)
    requires AllAbove(ends, low, high) && lower <= low
    ensures AllAbove([] + ends, lower, high) && ([] + ends)[0..] == ends == [] + ends
  {
  }
}
