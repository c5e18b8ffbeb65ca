// The lexical constructs of the PostgreSQL manual as recursive definitions, one
// per construct: section 4.1.2.1 (strings), 4.1.2.2 (escape strings), 4.1.2.4
// (dollar quotes), 4.1.1 (quoted identifiers) and 4.1.5 (comments).

module Lexicon {
  import opened Bytes
  import opened Wrappers
  import opened Scanner

  /** Behind the closing quote of a string whose inside starts at `i`; a doubled quote is content. */
  function QuotedEnd(s: bytes, i: nat, quote: byte): (r: Option<nat>)
    ensures r.Some? ==> i < r.value <= |s| && s[r.value - 1] == quote && Get(s, r.value) != quote
    decreases |s| - i
  {
    if i >= |s| then None
    else if s[i] != quote then QuotedEnd(s, i + 1, quote)
    else if Get(s, i + 1) == quote then QuotedEnd(s, i + 2, quote)
    else Some(i + 1)
  }

  /** The same, where a backslash also takes the byte behind it along. */
  function EscapedEnd(s: bytes, i: nat): (r: Option<nat>)
    ensures r.Some? ==> i < r.value <= |s| && s[r.value - 1] == QUOTE && Get(s, r.value) != QUOTE
    decreases |s| - i
  {
    if i >= |s| then None
    else if s[i] == BACKSLASH then EscapedEnd(s, i + 2)
    else if s[i] != QUOTE then EscapedEnd(s, i + 1)
    else if Get(s, i + 1) == QUOTE then EscapedEnd(s, i + 2)
    else Some(i + 1)
  }

  /** Behind the first copy of a dollar-quote delimiter. */
  function DollarEnd(s: bytes, i: nat, delimiter: bytes): (r: Option<nat>)
    requires delimiter != []
    ensures r.Some? ==> i < r.value <= |s|
    decreases |s| - i
  {
    if i >= |s| then None
    else if StartsWith(s, i, delimiter) then Some(i + |delimiter|)
    else DollarEnd(s, i + 1, delimiter)
  }

  /** Behind the newline that ends a line comment. */
  function LineEnd(s: bytes, i: nat): (r: Option<nat>)
    ensures r.Some? ==> i < r.value <= |s| && IsNewline(s[r.value - 1])
    decreases |s| - i
  {
    if i >= |s| then None
    else if IsNewline(s[i]) then Some(i + 1)
    else LineEnd(s, i + 1)
  }

  /** Behind the mark that closes a comment whose inside starts at `i`; comments inside it nest. */
  function CommentEnd(s: bytes, i: nat): (r: Option<nat>)
    ensures r.Some? ==> i < r.value <= |s| && s[r.value - 1] == SLASH
    decreases |s| - i
  {
    if i >= |s| then None
    else if IsPair(s, i, SLASH, STAR) then
      match CommentEnd(s, i + 2)
      case None => None
      case Some(inner) => CommentEnd(s, inner)
    else if IsPair(s, i, STAR, SLASH) then Some(i + 2)
    else CommentEnd(s, i + 1)
  }

  // ---- The state machine runs through each construct to the end the construct defines. ----

  function Closed(s: bytes, end: Option<nat>, open: LexicalState): Outcome
    requires open.Valid() && (end.Some? ==> end.value <= |s|)
  {
    match end
    case None => Outcome([], [], open)
    case Some(e) => ScanFrom(s, e, Normal)
  }

  /** Inside a construct a turn reports nothing; at the end of the text the construct is open. */
  lemma TurnInside(s: bytes, i: nat, state: LexicalState)
    requires i <= |s| && state.Valid() && !state.Normal?
    ensures ScanFrom(s, i, state)
         == if i == |s| then Outcome([], [], state)
            else ScanFrom(s, StepAt(s, i, state).next, StepAt(s, i, state).state)
  {
    hide ScanFrom;
    if i == |s| {
      ScanEnd(s, state);
    } else {
      var step := StepAt(s, i, state);
      SilentTurn(s, i, state, step.next, step.state);
    }
  }

  lemma {:induction false} RunQuoted(s: bytes, i: nat, state: LexicalState, quote: byte)
    requires i <= |s|
    requires (state, quote) == (SingleQuotedString, QUOTE) || (state, quote) == (DoubleQuotedIdentifier, DOUBLE_QUOTE)
    ensures ScanFrom(s, i, state) == Closed(s, QuotedEnd(s, i, quote), state)
    decreases |s| - i
  {
    hide ScanFrom;
    TurnInside(s, i, state);
    if i < |s| {
      var step := StepAt(s, i, state);
      assert step == QuotedStep(s, i, state, quote);
      if step.state == state {
        RunQuoted(s, step.next, state, quote);
      }
    }
  }

  lemma {:induction false} RunEscaped(s: bytes, i: nat)
    requires i <= |s|
    ensures ScanFrom(s, i, EscapeString) == Closed(s, EscapedEnd(s, i), EscapeString)
    decreases |s| - i
  {
    hide ScanFrom;
    TurnInside(s, i, EscapeString);
    if i < |s| {
      var step := StepAt(s, i, EscapeString);
      if step.state == EscapeString {
        RunEscaped(s, step.next);
      }
    }
  }

  lemma {:induction false} RunDollar(s: bytes, i: nat, delimiter: bytes)
    requires i <= |s| && DollarQuotedString(delimiter).Valid()
    ensures ScanFrom(s, i, DollarQuotedString(delimiter))
         == Closed(s, DollarEnd(s, i, delimiter), DollarQuotedString(delimiter))
    decreases |s| - i
  {
    hide ScanFrom;
    TurnInside(s, i, DollarQuotedString(delimiter));
    if i < |s| && !StartsWith(s, i, delimiter) {
      RunDollar(s, i + 1, delimiter);
    }
  }

  lemma {:induction false} RunLine(s: bytes, i: nat)
    requires i <= |s|
    ensures ScanFrom(s, i, LineComment) == Closed(s, LineEnd(s, i), LineComment)
    decreases |s| - i
  {
    hide ScanFrom;
    TurnInside(s, i, LineComment);
    if i < |s| && !IsNewline(s[i]) {
      RunLine(s, i + 1);
    }
  }

  /** The depth counter does what the nesting of comments says, at every depth. */
  lemma {:induction false} RunBlock(s: bytes, i: nat, depth: nat)
    requires i <= |s| && 1 <= depth
    ensures var run := ScanFrom(s, i, BlockComment(depth));
            match CommentEnd(s, i)
            case None => run.ends == [] && run.openings == [] && run.last.BlockComment?
            case Some(e) => run == ScanFrom(s, e, if depth == 1 then Normal else BlockComment(depth - 1))
    decreases |s| - i
  {
    hide ScanFrom;
    TurnInside(s, i, BlockComment(depth));
    if i < |s| {
      if IsPair(s, i, SLASH, STAR) {
        RunBlock(s, i + 2, depth + 1);
        if CommentEnd(s, i + 2).Some? {
          RunBlock(s, CommentEnd(s, i + 2).value, depth);
        }
      } else if !IsPair(s, i, STAR, SLASH) {
        RunBlock(s, i + 1, depth);
      }
    }
  }
}
