// The three callers of the stream: a command-line string, a line of the shell,
// and the validator that decides when a line is ready (src/cli.rs,
// src/shell/mod.rs, src/shell/editor.rs).

module Submission {
  import opened Bytes
  import opened Wrappers
  import opened Scanner
  import opened Framing
  import opened Classification
  import opened StatementStreams
  import Utf8

  const MAX_STATEMENT_BYTES: nat := 16 * 1024 * 1024

  datatype SubmissionError = InputTooLarge | StatementTooLarge | IncompleteStatement

  datatype Submitted = Statements(list: seq<Statement>) | Refused(error: SubmissionError)

  /** An input within the limit cannot hold a statement beyond it. */
  lemma {:induction false} WithinLimit(s: bytes, i: nat, limit: nat)
    requires i <= |s| <= limit
    ensures AllWithin(FrameFrom(s, i).statements, limit) && |FrameFrom(s, i).pending| <= limit
    decreases |s| - i
  {
    ScanEnds(s, i, Normal);
    var ends := ScanFrom(s, i, Normal).ends;
    if ends != [] {
      WithinLimit(s, ends[0], limit);
    }
  }

  /**
   * A command-line string: what the result leaves out of the input is trivia, and
   * it is refused exactly when it is too large or ends inside a construct.
   */
  method SplitCommand(input: bytes, limit: nat) returns (r: Submitted)
    ensures r == Refused(InputTooLarge) <==> |input| > limit
    ensures r == Refused(IncompleteStatement) <==>
              && |input| <= limit
              && CompletenessOf(Scan(Frame(input).pending).last) != Complete
    ensures r != Refused(StatementTooLarge)
    ensures r.Statements? ==>
              var framed := Frame(input);
              && IsTrivia(framed.pending) ==> r.list == Classified(framed.statements)
    ensures r.Statements? ==>
              var framed := Frame(input);
              && !IsTrivia(framed.pending) ==>
                   r.list == Classified(framed.statements) + [Statement(framed.pending, Classify(framed.pending))]
  {
    hide Frame;
    hide Scan;
    hide Classify;
    if |input| > limit {
      return Refused(InputTooLarge);
    }
    var stream := new StatementStream();
    assert [] + input == input;
    WithinLimitFrame(input, limit);
    var pushed := stream.Push(input, Some(limit));
    if pushed.None? {
      return Refused(StatementTooLarge);
    }
    var statements := pushed.value;
    TriviaIsComplete(stream.pending);
    var trivia := stream.PendingIsTrivia();
    if !trivia {
      var last := stream.TakeCompleteStatement();
      if last.None? {
        return Refused(IncompleteStatement);
      }
      statements := statements + [last.value];
    }
    return Statements(statements);
  }

  lemma WithinLimitFrame(s: bytes, limit: nat)
    requires |s| <= limit
    ensures Fits(Frame(s), Some(limit))
  {
    WithinLimit(s, 0, limit);
  }

  lemma TriviaIsComplete(s: bytes)
    ensures IsTrivia(s) ==> CompletenessOf(Scan(s).last) == Complete
  {
    SkippableIsTrivia(s, 0);
  }

  /** A submitted line of the shell: the statements of one framing; the rest is dropped. */
  method FrameSubmission(input: bytes, limit: nat) returns (r: Submitted)
    ensures r == Refused(InputTooLarge) <==> |input| > limit
    ensures r.Statements? <==> |input| <= limit
    ensures r.Statements? ==> r.list == Classified(Frame(input).statements)
  {
    hide Frame;
    hide Classify;
    if |input| > limit {
      return Refused(InputTooLarge);
    }
    var stream := new StatementStream();
    assert [] + input == input;
    WithinLimitFrame(input, limit);
    var pushed := stream.Push(input, Some(limit));
    if pushed.None? {
      return Refused(StatementTooLarge);
    }
    return Statements(pushed.value);
  }

  /** The length of the Unicode white-space character at `i`, or zero. */
  function BlankLength(s: bytes, i: nat): (r: nat)
    ensures r == 0 || i + r <= |s|
  {
    var a, b, c := Get(s, i), Get(s, i + 1), Get(s, i + 2);
    if 9 <= a <= 13 || a == 32 then 1
    else if a == 0xC2 && (b == 0x85 || b == 0xA0) then 2
    else if a == 0xE1 && b == 0x9A && c == 0x80 then 3
    else if a == 0xE2 && b == 0x80 && (0x80 <= c <= 0x8A || c == 0xA8 || c == 0xA9 || c == 0xAF) then 3
    else if a == 0xE2 && b == 0x81 && c == 0x9F then 3
    else if a == 0xE3 && b == 0x80 && c == 0x80 then 3
    else 0
  }

  predicate BlankFrom(s: bytes, i: nat)
    decreases |s| - i
  {
    i == |s| || (BlankLength(s, i) > 0 && BlankFrom(s, i + BlankLength(s, i)))
  }

  predicate IsMetaCommand(line: bytes) {
    Get(line, 0) == BACKSLASH && forall k :: 0 <= k < |line| ==> !IsNewline(line[k])
  }

  /** A backslash, and no line feed or carriage return. */
  predicate IsOneLineCommand(line: bytes) {
    line != [] && line[0] == 92 && forall k :: 0 <= k < |line| ==> line[k] != 10 && line[k] != 13
  }

  /** Whether the editor hands the line over instead of asking for more. */
  method Validate(line: bytes) returns (complete: bool)
    ensures complete <==>
              || BlankFrom(line, 0)
              || |line| > 16_777_216
              || IsOneLineCommand(line)
              || IsTrivia(Frame(line).pending)
  {
    hide Frame;
    if BlankFrom(line, 0) || |line| > MAX_STATEMENT_BYTES || IsMetaCommand(line) {
      return true;
    }
    var stream := new StatementStream();
    assert [] + line == line;
    WithinLimitFrame(line, MAX_STATEMENT_BYTES);
    var pushed := stream.Push(line, Some(MAX_STATEMENT_BYTES));
    if pushed.None? {
      return true;
    }
    complete := stream.PendingIsTrivia();
  }

  datatype LineOutcome = AskForMore | Skipped | TooLarge | Meta | Submit(list: seq<Statement>)

  /** One line of the shell: the validator, the checks of the loop, and framing, in their order. */
  method ReadLine(line: bytes) returns (r: LineOutcome)
    ensures r == Skipped <==> BlankFrom(line, 0)
    ensures r == TooLarge <==> !BlankFrom(line, 0) && |line| > 16_777_216
    ensures r == Meta <==>
              && !BlankFrom(line, 0) && |line| <= 16_777_216 && Get(line, 0) == 92
              && (IsOneLineCommand(line) || IsTrivia(Frame(line).pending))
    ensures r == AskForMore <==>
              && !BlankFrom(line, 0) && |line| <= 16_777_216 && !IsOneLineCommand(line)
              && !IsTrivia(Frame(line).pending)
    ensures r.Submit? <==>
              && !BlankFrom(line, 0) && |line| <= 16_777_216 && Get(line, 0) != 92
              && IsTrivia(Frame(line).pending)
    ensures r.Submit? ==>
              && r.list == Classified(Frame(line).statements)
              && Concat(Frame(line).statements) + Frame(line).pending == line
  {
    hide Frame;
    hide Classify;
    var complete := Validate(line);
    if !complete {
      return AskForMore;
    }
    if BlankFrom(line, 0) {
      return Skipped;
    }
    if |line| > MAX_STATEMENT_BYTES {
      return TooLarge;
    }
    if Get(line, 0) == BACKSLASH {
      return Meta;
    }
    Conservation(line);
    var framed := FrameSubmission(line, MAX_STATEMENT_BYTES);
    return Submit(framed.list);
  }

  /** Every cut falls on a character boundary: statements of valid UTF-8 are valid, and so is the rest. */
  lemma {:induction false} CutsKeepUtf8(s: bytes, i: nat)
    requires Cut(s, i) && Utf8.Valid(s[i..])
    ensures forall text :: text in FrameFrom(s, i).statements ==> Utf8.Valid(text)
    ensures Utf8.Valid(FrameFrom(s, i).pending)
    decreases |s| - i
  {
    hide ScanFrom;
    FrameUnfolds(s, i);
    var ends := ScanFrom(s, i, Normal).ends;
    if ends != [] {
      var e := ends[0];
      var rest := s[i..];
      assert rest[..e - i] == s[i..e] && rest[e - i..] == s[e..];
      Utf8.BoundaryBehindAscii(rest, 0, e - i);
      Utf8.SliceAtBoundary(rest, e - i);
      CutsKeepUtf8(s, e);
    }
  }
}
