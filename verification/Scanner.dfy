// The lexical state machine that finds statement terminators, and the stream
// that cuts submitted text into statements with it (src/sql/scanner.rs).

module Scanner {
  import opened Bytes
  import opened Wrappers

  datatype LexicalState =
    | Normal
    | SingleQuotedString
    | EscapeString
    | DoubleQuotedIdentifier
    | DollarQuotedString(delimiter: bytes)
    | LineComment
    | BlockComment(depth: nat)
  {
    /** What the machine itself guarantees about the states it enters. */
    predicate Valid() {
      && (DollarQuotedString? ==> 2 <= |delimiter| && delimiter[0] == DOLLAR)
      && (BlockComment? ==> 1 <= depth)
    }
  }

  predicate IsIdentifierStart(b: int) {
    IsAlpha(b) || b == UNDERSCORE || 0x80 <= b
  }

  predicate IsIdentifierContinue(b: int) {
    IsIdentifierStart(b) || IsDigit(b) || b == DOLLAR
  }

  predicate IsPair(s: bytes, i: int, first: byte, second: byte) {
    Get(s, i) == first && Get(s, i + 1) == second
  }

  /** Two bytes of look-behind: an `E` that is a word of its own stands before the quote. */
  predicate IsEscapeStringPrefix(s: bytes, quoteIndex: nat) {
    && (Get(s, quoteIndex - 1) == 101 || Get(s, quoteIndex - 1) == 69)
    && (quoteIndex == 1 || !IsIdentifierContinue(Get(s, quoteIndex - 2)))
  }

  /** Unbounded look-ahead: the index after the `$` that closes a tag whose first bytes are read. */
  function TagEnd(s: bytes, i: nat): (r: Option<nat>)
    ensures r.Some? ==> i < r.value <= |s| && s[r.value - 1] == DOLLAR
    decreases |s| - i
  {
    if i >= |s| then None
    else if s[i] == DOLLAR then Some(i + 1)
    else if !IsIdentifierContinue(s[i]) then None
    else TagEnd(s, i + 1)
  }

  /** The index after a delimiter opened by the `$` at `start`, whatever stands before it. */
  function DelimiterEnd(s: bytes, start: nat): (r: Option<nat>)
    requires start < |s|
    ensures r.Some? ==> start + 2 <= r.value <= |s|
  {
    var next := Get(s, start + 1);
    if next == DOLLAR then Some(start + 2)
    else if !IsIdentifierStart(next) then None
    else TagEnd(s, start + 2)
  }

  function DollarQuoteDelimiter(s: bytes, start: nat): (r: Option<bytes>)
    requires start < |s| && s[start] == DOLLAR
    ensures r.Some? ==> 2 <= |r.value| <= |s| - start && r.value[0] == DOLLAR
  {
    if start != 0 && IsIdentifierContinue(s[start - 1]) then None
    else
      match DelimiterEnd(s, start)
      case None => None
      case Some(end) => Some(s[start..end])
  }

  predicate StartsWith(s: bytes, i: nat, prefix: bytes) {
    i + |prefix| <= |s| && s[i..i + |prefix|] == prefix
  }

  /** One turn of the scanning loop: where it goes on, and in which state. */
  datatype Step = Step(next: nat, state: LexicalState, terminated: bool)

  function QuotedStep(s: bytes, i: nat, state: LexicalState, quote: byte): Step
    requires i < |s|
  {
    if s[i] != quote then Step(i + 1, state, false)
    else if Get(s, i + 1) == quote then Step(i + 2, state, false)
    else Step(i + 1, Normal, false)
  }

  function NormalStep(s: bytes, i: nat): (r: Step)
    requires i < |s|
    ensures i < r.next <= |s| && r.state.Valid()
    ensures r.terminated ==> r.next == i + 1 && s[i] == SEMICOLON && r.state.Normal?
  {
    if s[i] == QUOTE then
      Step(i + 1, if IsEscapeStringPrefix(s, i) then EscapeString else SingleQuotedString, false)
    else if s[i] == DOUBLE_QUOTE then Step(i + 1, DoubleQuotedIdentifier, false)
    else if IsPair(s, i, DASH, DASH) then Step(i + 2, LineComment, false)
    else if IsPair(s, i, SLASH, STAR) then Step(i + 2, BlockComment(1), false)
    else if s[i] == DOLLAR then
      match DollarQuoteDelimiter(s, i)
      case None => Step(i + 1, Normal, false)
      case Some(delimiter) => Step(i + |delimiter|, DollarQuotedString(delimiter), false)
    else Step(i + 1, Normal, s[i] == SEMICOLON)
  }

  function StepAt(s: bytes, i: nat, state: LexicalState): (r: Step)
    requires i < |s| && state.Valid()
    ensures i < r.next <= |s| && r.state.Valid()
    ensures r.terminated ==> r.next == i + 1 && s[i] == SEMICOLON && state.Normal? && r.state.Normal?
  {
    match state
    case Normal => NormalStep(s, i)
    case SingleQuotedString => QuotedStep(s, i, state, QUOTE)
    case EscapeString =>
      if s[i] == BACKSLASH then Step(if i + 1 < |s| then i + 2 else i + 1, state, false)
      else QuotedStep(s, i, state, QUOTE)
    case DoubleQuotedIdentifier => QuotedStep(s, i, state, DOUBLE_QUOTE)
    case DollarQuotedString(delimiter) =>
      if StartsWith(s, i, delimiter) then Step(i + |delimiter|, Normal, false)
      else Step(i + 1, state, false)
    case LineComment => Step(i + 1, if IsNewline(s[i]) then Normal else state, false)
    case BlockComment(depth) =>
      if IsPair(s, i, SLASH, STAR) then Step(i + 2, BlockComment(depth + 1), false)
      else if IsPair(s, i, STAR, SLASH) then
        Step(i + 2, if depth == 1 then Normal else BlockComment(depth - 1), false)
      else Step(i + 1, state, false)
  }

  /** A construct the scanner entered, with the index of the byte that opened it. */
  datatype Opening = Opening(at: nat, state: LexicalState)

  /** Everything a scan observes: terminator ends, the constructs it entered, its last state. */
  datatype Outcome = Outcome(ends: seq<nat>, openings: seq<Opening>, last: LexicalState)

  function ScanFrom(s: bytes, i: nat, state: LexicalState): (r: Outcome)
    requires i <= |s| && state.Valid()
    decreases |s| - i
  {
    if i == |s| then Outcome([], [], state)
    else
      var step := StepAt(s, i, state);
      var rest := ScanFrom(s, step.next, step.state);
      Outcome((if step.terminated then [step.next] else []) + rest.ends,
              (if state.Normal? && !step.state.Normal? then [Opening(i, step.state)] else [])
              + rest.openings,
              rest.last)
  }

  function Scan(s: bytes): Outcome {
    ScanFrom(s, 0, Normal)
  }

  lemma ScanEnd(s: bytes, state: LexicalState)
    requires state.Valid()
    ensures ScanFrom(s, |s|, state) == Outcome([], [], state)
  {
  }

  /** What a turn reports. */
  lemma ReportingTurn(s: bytes, i: nat, state: LexicalState, next: nat, after: LexicalState, terminated: bool)
    requires i < |s| && state.Valid() && StepAt(s, i, state) == Step(next, after, terminated)
    ensures next <= |s| && after.Valid()
    ensures var rest := ScanFrom(s, next, after);
            && ScanFrom(s, i, state).ends == (if terminated then [next] else []) + rest.ends
            && ScanFrom(s, i, state).last == rest.last
  {
    hide StepAt;
  }

  /** A turn that ends no statement and opens no construct. */
  lemma SilentTurn(s: bytes, i: nat, state: LexicalState, next: nat, after: LexicalState)
    requires i < |s| && state.Valid() && StepAt(s, i, state) == Step(next, after, false)
    requires state.Normal? ==> after.Normal?
    ensures next <= |s| && after.Valid() && ScanFrom(s, i, state) == ScanFrom(s, next, after)
  {
    hide StepAt;
    var rest := ScanFrom(s, next, after);
    assert [] + rest.ends == rest.ends && [] + rest.openings == rest.openings;
  }

  /** A turn that opens a construct. */
  lemma OpeningTurn(s: bytes, i: nat, next: nat, after: LexicalState)
    requires i < |s| && NormalStep(s, i) == Step(next, after, false) && !after.Normal?
    ensures next <= |s| && after.Valid()
    ensures var rest := ScanFrom(s, next, after);
            ScanFrom(s, i, Normal) == Outcome(rest.ends, [Opening(i, after)] + rest.openings, rest.last)
  {
    hide NormalStep;
    var rest := ScanFrom(s, next, after);
    assert [] + rest.ends == rest.ends;
  }

  /** A turn over a terminator. */
  lemma TerminatorTurn(s: bytes, i: nat)
    requires i < |s| && s[i] == SEMICOLON
    ensures var rest := ScanFrom(s, i + 1, Normal);
            ScanFrom(s, i, Normal) == Outcome([i + 1] + rest.ends, rest.openings, rest.last)
  {
    assert NormalStep(s, i) == Step(i + 1, Normal, true);
    var rest := ScanFrom(s, i + 1, Normal);
    assert [] + rest.openings == rest.openings;
  }

  datatype Completeness =
    | Complete
    | OpenSingleQuotedString
    | OpenEscapeString
    | OpenDoubleQuotedIdentifier
    | OpenDollarQuotedString
    | OpenBlockComment

  function CompletenessOf(state: LexicalState): Completeness {
    match state
    case Normal => Complete
    case LineComment => Complete
    case SingleQuotedString => OpenSingleQuotedString
    case EscapeString => OpenEscapeString
    case DoubleQuotedIdentifier => OpenDoubleQuotedIdentifier
    case DollarQuotedString(_) => OpenDollarQuotedString
    case BlockComment(_) => OpenBlockComment
  }

  /** The dollar-tag loop. */
  method ReadTag(s: bytes, start: nat) returns (r: Option<nat>)
    requires start <= |s|
    ensures r == TagEnd(s, start)
  {
    var end := start;
    while end < |s|
      invariant start <= end <= |s|
      invariant TagEnd(s, start) == TagEnd(s, end)
    {
      if s[end] == DOLLAR {
        return Some(end + 1);
      }
      if !IsIdentifierContinue(s[end]) {
        return None;
      }
      end := end + 1;
    }
    return None;
  }

  /** The scanning loop: index and state advance in place, and each terminator is reported. */
  method RunScan(s: bytes) returns (ends: seq<nat>, state: LexicalState)
    ensures ends == Scan(s).ends
    ensures state == Scan(s).last
  {
    hide StepAt;
    hide ScanFrom;
    var index := 0;
    state := Normal;
    ends := [];
    ghost var rest := Scan(s).ends;
    assert [] + rest == rest;
    while index < |s|
      invariant index <= |s| && state.Valid()
      invariant rest == ScanFrom(s, index, state).ends && Scan(s).ends == ends + rest
      invariant Scan(s).last == ScanFrom(s, index, state).last
    {
      ghost var start, before := index, state;
      var terminated;
      index, state, terminated := Turn(s, index, state);
      ReportingTurn(s, start, before, index, state, terminated);
      rest := ScanFrom(s, index, state).ends;
      if terminated {
        assert ends + ([index] + rest) == (ends + [index]) + rest;
        ends := ends + [index];
      } else {
        assert [] + rest == rest;
      }
    }
    ScanEnd(s, state);
    assert ends + [] == ends;
  }

  /** One turn of the loop body. */
  method Turn(s: bytes, i: nat, before: LexicalState)
    returns (index: nat, state: LexicalState, terminated: bool)
    requires i < |s| && before.Valid()
    ensures Step(index, state, terminated) == StepAt(s, i, before)
  {
    index, state, terminated := i, before, false;
    match before {
      case Normal =>
        index, state, terminated := NormalTurn(s, i);
      case SingleQuotedString =>
        index, state := QuotedTurn(s, i, before, QUOTE);
      case EscapeString =>
        if s[index] == BACKSLASH {
          index := if index + 1 < |s| then index + 2 else index + 1;
        } else {
          index, state := QuotedTurn(s, i, before, QUOTE);
        }
      case DoubleQuotedIdentifier =>
        index, state := QuotedTurn(s, i, before, DOUBLE_QUOTE);
      case DollarQuotedString(delimiter) =>
        if StartsWith(s, index, delimiter) {
          index := index + |delimiter|;
          state := Normal;
        } else {
          index := index + 1;
        }
      case LineComment =>
        if IsNewline(s[index]) {
          state := Normal;
        }
        index := index + 1;
      case BlockComment(depth) =>
        if IsPair(s, index, SLASH, STAR) {
          state := BlockComment(depth + 1);
          index := index + 2;
        } else if IsPair(s, index, STAR, SLASH) {
          state := if depth == 1 then Normal else BlockComment(depth - 1);
          index := index + 2;
        } else {
          index := index + 1;
        }
    }
  }

  method NormalTurn(s: bytes, i: nat) returns (index: nat, state: LexicalState, terminated: bool)
    requires i < |s|
    ensures Step(index, state, terminated) == NormalStep(s, i)
  {
    index, state, terminated := i, Normal, false;
    if s[index] == QUOTE {
      state := if IsEscapeStringPrefix(s, index) then EscapeString else SingleQuotedString;
      index := index + 1;
    } else if s[index] == DOUBLE_QUOTE {
      state := DoubleQuotedIdentifier;
      index := index + 1;
    } else if IsPair(s, index, DASH, DASH) {
      state := LineComment;
      index := index + 2;
    } else if IsPair(s, index, SLASH, STAR) {
      state := BlockComment(1);
      index := index + 2;
    } else if s[index] == DOLLAR {
      var delimiter := ReadDelimiter(s, index);
      if delimiter.Some? {
        index := index + |delimiter.value|;
        state := DollarQuotedString(delimiter.value);
      } else {
        index := index + 1;
      }
    } else {
      terminated := s[index] == SEMICOLON;
      index := index + 1;
    }
  }

  method ReadDelimiter(s: bytes, start: nat) returns (r: Option<bytes>)
    requires start < |s| && s[start] == DOLLAR
    ensures r == DollarQuoteDelimiter(s, start)
  {
    if start != 0 && IsIdentifierContinue(s[start - 1]) {
      return None;
    }
    var next := Get(s, start + 1);
    if next == DOLLAR {
      return Some(s[start..start + 2]);
    }
    if !IsIdentifierStart(next) {
      return None;
    }
    var end := ReadTag(s, start + 2);
    match end {
      case None => return None;
      case Some(after) => return Some(s[start..after]);
    }
  }

  method QuotedTurn(s: bytes, i: nat, before: LexicalState, quote: byte)
    returns (index: nat, state: LexicalState)
    requires i < |s|
    ensures Step(index, state, false) == QuotedStep(s, i, before, quote)
  {
    index, state := i, before;
    if s[index] == quote {
      if Get(s, index + 1) == quote {
        index := index + 2;
      } else {
        state := Normal;
        index := index + 1;
      }
    } else {
      index := index + 1;
    }
  }
}
