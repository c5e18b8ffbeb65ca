// The script reader: buffers of any size in, UTF-8 decoding with a carry, pushes,
// and execution one statement after the other (src/cli.rs).

module ScriptReader {
  import opened Bytes
  import opened Wrappers
  import opened Framing
  import opened Classification
  import opened StatementStreams
  import opened Submission
  import opened Utf8

  const READ_CHUNK_BYTES: nat := 64 * 1024

  /** An empty buffer means the end of the source, so none is kept. */
  ghost predicate NoneEmpty(buffers: seq<bytes>) {
    forall k :: 0 <= k < |buffers| ==> buffers[k] != []
  }

  /** A buffered source: what each fill will show, and whether the source then fails instead of ending. */
  class Reader {
    var buffers: seq<bytes>
    const faulty: bool

    constructor (buffers: seq<bytes>, faulty: bool)
      ensures this.buffers == buffers && this.faulty == faulty
    {
      this.buffers := buffers;
      this.faulty := faulty;
    }

    /** What a loop turn reads: at most one chunk of what is available; None is a read error. */
    method ReadChunk() returns (r: Option<bytes>)
      requires NoneEmpty(buffers)
      modifies this`buffers
      ensures r.None? ==> old(buffers) == [] && faulty
      ensures r.Some? && r.value == [] ==> old(buffers) == [] && !faulty
      ensures r.Some? ==> |r.value| <= READ_CHUNK_BYTES && r.value + Concat(buffers) == Concat(old(buffers))
      ensures NoneEmpty(buffers)
    {
      if buffers == [] {
        r := if faulty then None else Some([]);
        return;
      }
      var available := buffers[0];
      var n := if |available| <= READ_CHUNK_BYTES then |available| else READ_CHUNK_BYTES;
      assert available[..n] + available[n..] == available;
      r := Some(available[..n]);
      if n == |available| {
        buffers := buffers[1..];
      } else {
        buffers := [available[n..]] + buffers[1..];
      }
    }
  }

  datatype ScriptOutcome = Done | ReadFailed | NotUtf8 | StatementTooLarge | IncompleteScript | ExecutionFailed

  ghost predicate AllSucceed(succeeds: nat -> bool, count: nat) {
    forall k :: 0 <= k < count ==> succeeds(k)
  }

  /** What the loop has done with the bytes read so far: some decoded and framed, the rest carried. */
  ghost predicate Progress(file: bytes, decoded: bytes, carry: bytes, left: bytes,
                           executed: seq<bytes>, pending: bytes, limit: nat, succeeds: nat -> bool)
  {
    && file == decoded + (carry + left)
    && Valid(decoded)
    && (carry == [] || BreaksOff(carry, 0)) && |carry| <= 3
    && Frame(decoded) == Framed(executed, pending)
    && Fits(Frame(decoded), Some(limit))
    && AllSucceed(succeeds, |executed|)
  }

  /** What the whole file must be for a script to run to its end. */
  ghost predicate Runs(file: bytes, limit: nat, succeeds: nat -> bool) {
    && Valid(file)
    && Fits(Frame(file), Some(limit))
    && IsTrivia(Frame(file).pending)
    && AllSucceed(succeeds, |Frame(file).statements|)
  }

  lemma ProgressStarts(file: bytes, limit: nat, succeeds: nat -> bool)
    ensures Progress(file, [], [], file, [], [], limit, succeeds)
  {
    assert Valid([]);
    assert [] + ([] + file) == file;
    assert Scanner.Scan([]).ends == [];
  }

  /** One turn of the loop: part of the buffer is decoded and framed, the rest is carried on. */
  lemma ProgressGoesOn(file: bytes, decoded: bytes, buffer: bytes, left: bytes, valid: nat,
                       executed: seq<bytes>, ran: seq<bytes>, pending: bytes, now: Framed,
                       limit: nat, succeeds: nat -> bool)
    requires file == decoded + (buffer + left) && valid <= |buffer|
    requires Valid(decoded) && Valid(buffer[..valid])
    requires valid == |buffer| || (BreaksOff(buffer[valid..], 0) && |buffer| - valid <= 3)
    requires Frame(decoded) == Framed(executed, pending) && Fits(Frame(decoded), Some(limit))
    requires now == Frame(pending + buffer[..valid]) && Fits(now, Some(limit)) && ran == now.statements
    requires AllSucceed(succeeds, |executed| + |ran|)
    ensures Progress(file, decoded + buffer[..valid], buffer[valid..], left, executed + ran, now.pending, limit,
                     succeeds)
  {
    hide Frame;
    hide BreaksOff;
    var text, carry := buffer[..valid], buffer[valid..];
    assert buffer == text + carry;
    assert file == (decoded + text) + (carry + left);
    ValidConcat(decoded, text);
    FrameAhead(file, decoded, text, carry + left);
  }

  lemma MalformedEnds(file: bytes, decoded: bytes, buffer: bytes, left: bytes)
    requires file == decoded + (buffer + left) && Valid(decoded) && CheckFrom(buffer, 0).Malformed?
    ensures !Valid(file)
  {
    ValidConcat(decoded, buffer + left);
    MalformedForGood(buffer, left, 0);
  }

  lemma BrokenOffEnds(file: bytes, decoded: bytes, carry: bytes)
    requires file == decoded + carry && Valid(decoded) && BreaksOff(carry, 0)
    ensures !Valid(file)
  {
    ValidConcat(decoded, carry);
    BrokenOffIsInvalid(carry);
  }

  /** What the next text frames to is a part of what the whole file frames to. */
  lemma FrameAhead(file: bytes, decoded: bytes, text: bytes, left: bytes)
    requires file == decoded + (text + left)
    ensures var now := Frame(Frame(decoded).pending + text);
            && Frame(decoded + text) == Framed(Frame(decoded).statements + now.statements, now.pending)
            && Frame(decoded + text).statements <= Frame(file).statements
  {
    hide FrameFrom;
    FrameInTwo(decoded, text, 0);
    FrameInTwo(decoded + text, left, 0);
    assert file == (decoded + text) + left;
  }

  lemma FitsAhead(file: bytes, decoded: bytes, text: bytes, left: bytes, limit: Option<nat>)
    requires file == decoded + (text + left)
    requires Fits(Frame(file), limit) || Fits(Frame(decoded), limit)
    ensures Fits(Frame(file), limit) ==> Fits(Frame(Frame(decoded).pending + text), limit)
    ensures Fits(Frame(decoded), limit) && Fits(Frame(Frame(decoded).pending + text), limit) ==>
              Fits(Frame(decoded + text), limit)
  {
    hide Frame;
    hide Fits;
    assert file == (decoded + text) + left;
    FitsInTwo(decoded + text, left, limit);
    FitsInTwo(decoded, text, limit);
  }

  /** How much of the buffer decodes now; None when no continuation could make it valid. */
  method DecodablePrefix(buffer: bytes) returns (r: Option<nat>)
    ensures r.None? <==> CheckFrom(buffer, 0).Malformed?
    ensures r.Some? ==>
              && r.value <= |buffer| && Valid(buffer[..r.value])
              && (r.value == |buffer| || (BreaksOff(buffer[r.value..], 0) && |buffer| - r.value <= 3))
  {
    CheckSound(buffer);
    match CheckFrom(buffer, 0)
    case Whole =>
      assert buffer[..|buffer|] == buffer;
      r := Some(|buffer|);
    case Truncated(k) => r := Some(k);
    case Malformed => r := None;
  }

  /** Runs statements in order behind `before` others and stops at the first one that fails. */
  method RunAll(statements: seq<Statement>, before: nat, succeeds: nat -> bool)
    returns (ran: seq<bytes>, ok: bool)
    requires AllSucceed(succeeds, before)
    ensures ran <= Texts(statements)
    ensures ok ==> ran == Texts(statements) && AllSucceed(succeeds, before + |ran|)
    ensures !ok ==> ran != [] && AllSucceed(succeeds, before + |ran| - 1) && !succeeds(before + |ran| - 1)
  {
    ran := [];
    while |ran| < |statements|
      invariant ran <= Texts(statements)
      invariant AllSucceed(succeeds, before + |ran|)
    {
      ran := ran + [statements[|ran|].text];
      if !succeeds(before + |ran| - 1) {
        return ran, false;
      }
    }
    ok := true;
  }

  function Texts(statements: seq<Statement>): (r: seq<bytes>)
    ensures |r| == |statements|
  {
    seq(|statements|, k requires 0 <= k < |statements| => statements[k].text)
  }

  /** The statements that ran are those of the text up to `n`, all of them. */
  ghost predicate RanUpTo(executed: seq<bytes>, file: bytes, n: nat) {
    n <= |file| && Valid(file[..n]) && executed == Frame(file[..n]).statements
  }

  /** What one turn of the loop can look at: the carry and a chunk behind the decoded text. */
  predicate Within(file: bytes, n: nat, m: nat) {
    n <= m <= |file| && m - n <= 3 + READ_CHUNK_BYTES
  }

  /** What stands behind `n`, up to `m`, is not UTF-8, or breaks off at the end of the file. */
  ghost predicate BadBehind(file: bytes, n: nat, m: nat) {
    Within(file, n, m) && (CheckFrom(file[n..m], 0).Malformed? || (m == |file| && BreaksOff(file[n..m], 0)))
  }

  /** The text up to `m` is UTF-8, and does not fit the limit. */
  ghost predicate TooLargeBehind(file: bytes, n: nat, m: nat, limit: nat) {
    Within(file, n, m) && Valid(file[..m]) && !Fits(Frame(file[..m]), Some(limit))
  }

  /** Why a script stopped, in terms of the whole file, and what it had run by then. */
  ghost predicate Explains(outcome: ScriptOutcome, executed: seq<bytes>, file: bytes, faulty: bool, limit: nat,
                           succeeds: nat -> bool)
  {
    && (outcome.Done? <==> !faulty && Runs(file, limit, succeeds))
    && executed <= Frame(file).statements
    && (outcome.Done? ==> executed == Frame(file).statements)
    && (outcome.ExecutionFailed? <==> !AllSucceed(succeeds, |executed|))
    && (outcome.ExecutionFailed? ==>
          0 < |executed| && AllSucceed(succeeds, |executed| - 1) && !succeeds(|executed| - 1))
    && (outcome.NotUtf8? ==>
          !Valid(file) && exists n: nat, m: nat :: RanUpTo(executed, file, n) && BadBehind(file, n, m))
    && (outcome.StatementTooLarge? ==>
          && !Fits(Frame(file), Some(limit))
          && exists n: nat, m: nat :: RanUpTo(executed, file, n) && TooLargeBehind(file, n, m, limit))
    && (outcome.IncompleteScript? ==> !IsTrivia(Frame(file).pending) && RanUpTo(executed, file, |file|))
    && (outcome.ReadFailed? ==> faulty && exists n: nat :: |file| - n <= 3 && RanUpTo(executed, file, n))
  }

  /**
   * The script loop. It runs to its end exactly when the source does not fail, the
   * whole file is valid UTF-8, framing the whole file at once fits the limit and
   * leaves trivia, and every statement succeeds; it runs the statements of that
   * one framing, in order, and never any other.
   */
  method ExecuteScript(reader: Reader, limit: nat, succeeds: nat -> bool)
    returns (outcome: ScriptOutcome, executed: seq<bytes>)
    requires NoneEmpty(reader.buffers)
    modifies reader`buffers
    ensures Explains(outcome, executed, Concat(old(reader.buffers)), reader.faulty, limit, succeeds)
  {
    hide Progress;
    hide Explains;
    ghost var file := Concat(reader.buffers);
    ghost var decoded: bytes := [];
    var stream := new StatementStream();
    var utf8: bytes := [];
    executed := [];
    ProgressStarts(file, limit, succeeds);
    while true
      invariant NoneEmpty(reader.buffers)
      invariant Progress(file, decoded, utf8, Concat(reader.buffers), executed, stream.pending, limit, succeeds)
      decreases |Concat(reader.buffers)|
    {
      var read := reader.ReadChunk();
      if read.None? {
        FaultExplained(file, decoded, utf8, executed, stream.pending, limit, succeeds);
        return ReadFailed, executed;
      }
      if read.value == [] {
        break;
      }
      var stopped: Option<ScriptOutcome>;
      stopped, utf8, executed, decoded :=
        TakeChunk(stream, read.value, utf8, executed, file, decoded, Concat(reader.buffers), reader.faulty, limit,
                  succeeds);
      if stopped.Some? {
        return stopped.value, executed;
      }
    }
    outcome := Finish(stream, utf8, executed, file, decoded, limit, succeeds);
  }

  lemma FaultExplained(file: bytes, decoded: bytes, carry: bytes, executed: seq<bytes>, pending: bytes, limit: nat,
                       succeeds: nat -> bool)
    requires Progress(file, decoded, carry, [], executed, pending, limit, succeeds)
    ensures Explains(ReadFailed, executed, file, true, limit, succeeds)
  {
    hide RanUpTo;
    FrameAhead(file, decoded, [], carry + []);
    assert decoded + [] == decoded && carry + [] == carry;
    RanDecoded(file, decoded, carry, executed);
  }

  lemma RanDecoded(file: bytes, decoded: bytes, rest: bytes, executed: seq<bytes>)
    requires file == decoded + rest && Valid(decoded) && executed == Frame(decoded).statements
    ensures RanUpTo(executed, file, |decoded|)
  {
    hide Frame;
    assert file[..|decoded|] == decoded;
  }

  lemma BadBuffer(file: bytes, decoded: bytes, buffer: bytes, left: bytes)
    requires file == decoded + (buffer + left) && |buffer| <= 3 + READ_CHUNK_BYTES
    requires CheckFrom(buffer, 0).Malformed? || (left == [] && BreaksOff(buffer, 0))
    ensures BadBehind(file, |decoded|, |decoded| + |buffer|)
  {
    hide CheckFrom;
    hide BreaksOff;
    assert file[|decoded|..|decoded| + |buffer|] == buffer;
  }

  lemma TooLargeText(file: bytes, decoded: bytes, text: bytes, left: bytes, limit: nat)
    requires file == decoded + (text + left) && |text| <= 3 + READ_CHUNK_BYTES
    requires Valid(decoded) && Valid(text) && Fits(Frame(decoded), Some(limit))
    requires !Fits(Frame(Frame(decoded).pending + text), Some(limit))
    ensures TooLargeBehind(file, |decoded|, |decoded| + |text|, limit)
  {
    hide Frame;
    hide Fits;
    ValidConcat(decoded, text);
    FitsInTwo(decoded, text, Some(limit));
    assert file[..|decoded| + |text|] == decoded + text;
  }

  /** One turn of the loop: decode what can be decoded, push it, run what comes out. */
  method TakeChunk(stream: StatementStream, chunk: bytes, carry: bytes, before: seq<bytes>, ghost file: bytes,
                   ghost decoded: bytes, ghost left: bytes, ghost faulty: bool, limit: nat, succeeds: nat -> bool)
    returns (stopped: Option<ScriptOutcome>, utf8: bytes, executed: seq<bytes>, ghost now: bytes)
    requires Progress(file, decoded, carry, chunk + left, before, stream.pending, limit, succeeds)
    requires 0 < |chunk| <= READ_CHUNK_BYTES
    modifies stream
    ensures stopped.None? ==> Progress(file, now, utf8, left, executed, stream.pending, limit, succeeds)
    ensures stopped.Some? ==> Explains(stopped.value, executed, file, faulty, limit, succeeds)
  {
    hide Frame;
    hide CheckFrom;
    hide BreaksOff;
    hide Fits;
    hide Classify;
    hide IsTrivia;
    hide RanUpTo;
    hide BadBehind;
    hide TooLargeBehind;
    stopped, executed, now := None, before, decoded;
    utf8 := carry + chunk;
    ghost var buffer := utf8;
    assert file == decoded + (buffer + left);
    FrameAhead(file, decoded, [], buffer + left);
    assert decoded + [] == decoded;
    RanDecoded(file, decoded, buffer + left, executed);
    var valid := DecodablePrefix(utf8);
    if valid.None? {
      MalformedEnds(file, decoded, buffer, left);
      BadBuffer(file, decoded, buffer, left);
      return Some(NotUtf8), utf8, executed, now;
    }
    if valid.value == 0 {
      return;
    }
    var text := utf8[..valid.value];
    utf8 := utf8[valid.value..];
    ghost var pending := stream.pending;
    assert file == decoded + (text + (utf8 + left));
    FrameAhead(file, decoded, text, utf8 + left);
    FitsAhead(file, decoded, text, utf8 + left, Some(limit));
    var pushed := stream.Push(text, Some(limit));
    if pushed.None? {
      TooLargeText(file, decoded, text, utf8 + left, limit);
      return Some(ScriptOutcome.StatementTooLarge), utf8, executed, now;
    }
    var ran, ok := RunAll(pushed.value, |executed|, succeeds);
    executed := executed + ran;
    if !ok {
      return Some(ExecutionFailed), utf8, executed, now;
    }
    ProgressGoesOn(file, decoded, buffer, left, valid.value, before, ran, pending, Frame(pending + text), limit,
                   succeeds);
    now := decoded + text;
  }

  /** The end of the source: nothing may be left undecoded, and only trivia unterminated. */
  method Finish(stream: StatementStream, utf8: bytes, executed: seq<bytes>, ghost file: bytes, ghost decoded: bytes,
                limit: nat, succeeds: nat -> bool)
    returns (outcome: ScriptOutcome)
    requires Progress(file, decoded, utf8, [], executed, stream.pending, limit, succeeds)
    ensures Explains(outcome, executed, file, false, limit, succeeds)
  {
    hide Frame;
    hide BreaksOff;
    hide Fits;
    hide IsTrivia;
    hide RanUpTo;
    hide BadBehind;
    FrameAhead(file, decoded, [], utf8 + []);
    assert decoded + [] == decoded && utf8 + [] == utf8;
    RanDecoded(file, decoded, utf8, executed);
    if utf8 != [] {
      BrokenOffEnds(file, decoded, utf8);
      BadBuffer(file, decoded, utf8, []);
      return NotUtf8;
    }
    assert file == decoded;
    var trivia := stream.PendingIsTrivia();
    outcome := if trivia then Done else IncompleteScript;
  }
}
