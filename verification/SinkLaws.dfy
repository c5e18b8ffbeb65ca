// What the sinks have in common, and what a JSON Lines log tells its reader.

module SinkLaws {
  import opened Wrappers
  import opened Sinks

  // ---- The same sequences are accepted, while writes go through. ----

  predicate TableAccepts(t: Table, events: seq<Event>)
    decreases |events|
  {
    events == [] || (TableStep(t, events[0]).Some? && TableAccepts(TableStep(t, events[0]).value, events[1..]))
  }

  predicate ExpandedAccepts(x: Expanded, events: seq<Event>)
    decreases |events|
  {
    events == [] || (ExpandedStep(x, events[0]).Some? && ExpandedAccepts(ExpandedStep(x, events[0]).value, events[1..]))
  }

  predicate JsonlAccepts(j: Jsonl, events: seq<Event>)
    decreases |events|
  {
    events == [] || (JsonlStep(j, events[0]).Some? && JsonlAccepts(JsonlStep(j, events[0]).value, events[1..]))
  }

  predicate DelimitedAccepts(d: Delimited, events: seq<Event>)
    decreases |events|
  {
    events == []
    || (DelimitedStep(d, events[0]).Some? && DelimitedAccepts(DelimitedStep(d, events[0]).value, events[1..]))
  }

  /** The same result set is in progress, with the same row count, and the same sinks are finished. */
  predicate InStep(t: Table, x: Expanded, j: Jsonl) {
    && !t.failed && !x.failed
    && t.terminal == x.terminal == j.failed
    && t.result.Some? == x.result.Some? == j.active.Some?
    && (t.result.Some? ==>
          && t.result.value.width == x.result.value == j.active.value.width
          && t.result.value.rows == x.rows == j.active.value.rows)
  }

  lemma {:induction false} InStepAccept(t: Table, x: Expanded, j: Jsonl, events: seq<Event>)
    requires InStep(t, x, j)
    ensures TableAccepts(t, events) == ExpandedAccepts(x, events) == JsonlAccepts(j, events)
    decreases |events|
  {
    if events != [] && TableStep(t, events[0]).Some? {
      var e := events[0];
      InStepAccept(TableStep(t, e).value, ExpandedStep(x, e).value, JsonlStep(j, e).value, events[1..]);
    }
  }

  /** A table, an expanded listing and JSON Lines accept exactly the same event sequences. */
  lemma SinksAcceptAlike(events: seq<Event>)
    ensures TableAccepts(NEW_TABLE, events) <==> ExpandedAccepts(NEW_EXPANDED, events)
    ensures TableAccepts(NEW_TABLE, events) <==> JsonlAccepts(NEW_JSONL, events)
  {
    InStepAccept(NEW_TABLE, NEW_EXPANDED, NEW_JSONL, events);
  }

  // ---- The grammar of the accepted sequences. ----

  /** Between result sets: notices, commands, result sets, and an error at the very end. */
  predicate IsStream(events: seq<Event>)
    decreases |events|
  {
    events == []
    || match events[0]
       case Notice(_) => IsStream(events[1..])
       case CommandComplete(_) => IsStream(events[1..])
       case Columns(columns) => IsResultSet(events[1..], |columns|, 0)
       case Row(_) => false
       case Error(_, _) => events[1..] == []
  }

  /** Inside a result set: rows of its width, and a completion with their number. */
  predicate IsResultSet(events: seq<Event>, width: nat, rows: nat)
    decreases |events|
  {
    events == []
    || match events[0]
       case Notice(_) => IsResultSet(events[1..], width, rows)
       case Row(values) => |values| == width && IsResultSet(events[1..], width, rows + 1)
       case CommandComplete(reported) => reported == rows && IsStream(events[1..])
       case Columns(_) => false
       case Error(_, _) => events[1..] == []
  }

  lemma {:induction false} TableReads(t: Table, events: seq<Event>)
    requires !t.failed && !t.terminal
    ensures TableAccepts(t, events)
       <==> match t.result
            case None => IsStream(events)
            case Some(active) => IsResultSet(events, active.width, active.rows)
    decreases |events|
  {
    if events != [] && TableStep(t, events[0]).Some? {
      var next := TableStep(t, events[0]).value;
      if !next.terminal {
        TableReads(next, events[1..]);
      }
    }
  }

  /** A table, and so each of the three, accepts exactly the sequences of the grammar. */
  lemma TableAcceptsGrammar(events: seq<Event>)
    ensures TableAccepts(NEW_TABLE, events) <==> IsStream(events)
  {
    TableReads(NEW_TABLE, events);
  }

  // ---- Blank lines between outputs. ----

  function TableAfter(t: Table, events: seq<Event>): Table
    requires TableAccepts(t, events)
    decreases |events|
  {
    if events == [] then t else TableAfter(TableStep(t, events[0]).value, events[1..])
  }

  function ExpandedAfter(x: Expanded, events: seq<Event>): Expanded
    requires ExpandedAccepts(x, events)
    decreases |events|
  {
    if events == [] then x else ExpandedAfter(ExpandedStep(x, events[0]).value, events[1..])
  }

  /** A column set or a completion has been accepted: notices alone ask for no blank line. */
  predicate HasOutput(events: seq<Event>) {
    exists k :: 0 <= k < |events| && (events[k].Columns? || events[k].CommandComplete?)
  }

  lemma OutputFirst(events: seq<Event>)
    requires events != []
    ensures HasOutput(events) <==> events[0].Columns? || events[0].CommandComplete? || HasOutput(events[1..])
  {
    if HasOutput(events[1..]) {
      var k :| 0 <= k < |events[1..]| && (events[1..][k].Columns? || events[1..][k].CommandComplete?);
      assert events[k + 1] == events[1..][k];
    }
  }

  /** What follows is set apart by a blank line exactly when something was put out before. */
  lemma {:induction false} TableSetsApart(t: Table, events: seq<Event>)
    requires TableAccepts(t, events)
    ensures TableAfter(t, events).needsSeparator <==> t.needsSeparator || HasOutput(events)
    decreases |events|
  {
    hide HasOutput;
    if events == [] {
      NoOutput();
    } else {
      OutputFirst(events);
      TableSetsApart(TableStep(t, events[0]).value, events[1..]);
    }
  }

  lemma {:induction false} ExpandedSetsApart(x: Expanded, events: seq<Event>)
    requires ExpandedAccepts(x, events)
    ensures ExpandedAfter(x, events).needsSeparator <==> x.needsSeparator || HasOutput(events)
    decreases |events|
  {
    hide HasOutput;
    if events == [] {
      NoOutput();
    } else {
      OutputFirst(events);
      ExpandedSetsApart(ExpandedStep(x, events[0]).value, events[1..]);
    }
  }

  lemma NoOutput()
    ensures !HasOutput([])
  {
  }

  function ColumnSets(events: seq<Event>): nat {
    if events == [] then 0 else (if events[0].Columns? then 1 else 0) + ColumnSets(events[1..])
  }

  predicate DelimitedFollows(t: Table, d: Delimited) {
    && !t.failed && t.terminal == d.terminal
    && (t.result.Some? ==> d.columnCount == Some(t.result.value.width) && d.rowSetSeen && !d.resultComplete)
    && (t.result.None? && d.rowSetSeen ==> d.resultComplete)
  }

  lemma {:induction false} DelimitedAcceptsOne(t: Table, d: Delimited, events: seq<Event>)
    requires DelimitedFollows(t, d) && TableAccepts(t, events)
    ensures DelimitedAccepts(d, events) <==> ColumnSets(events) <= (if d.rowSetSeen then 0 else 1)
    decreases |events|
  {
    if events != [] && DelimitedStep(d, events[0]).Some? {
      DelimitedAcceptsOne(TableStep(t, events[0]).value, DelimitedStep(d, events[0]).value, events[1..]);
    }
  }

  /** Of the sequences a table accepts, the delimited formats accept those with at most one column set. */
  lemma DelimitedAcceptsSingle(events: seq<Event>, escapes: bool)
    requires TableAccepts(NEW_TABLE, events)
    ensures DelimitedAccepts(NewDelimited(escapes), events) <==> ColumnSets(events) <= 1
  {
    DelimitedAcceptsOne(NEW_TABLE, NewDelimited(escapes), events);
  }

  // ---- Writers that fail. ----

  /** An event, and whether the writes it causes go through. */
  datatype Fed = Fed(event: Event, writes: bool)

  function Healed(feed: seq<Fed>): (r: seq<Fed>)
    ensures |r| == |feed|
  {
    if feed == [] then [] else [feed[0].(writes := true)] + Healed(feed[1..])
  }

  /** The events a table accepts, and whether it ends up failed. */
  function TableFeed(t: Table, feed: seq<Fed>): (seq<Event>, bool)
    decreases |feed|
  {
    if feed == [] then ([], t.failed)
    else
      var (next, ok) := TableEmit(t, feed[0].event, feed[0].writes);
      var (rest, failed) := TableFeed(next, feed[1..]);
      ((if ok then [feed[0].event] else []) + rest, failed)
  }

  function ExpandedFeed(x: Expanded, feed: seq<Fed>): (seq<Event>, bool)
    decreases |feed|
  {
    if feed == [] then ([], x.failed)
    else
      var (next, ok) := ExpandedEmit(x, feed[0].event, feed[0].writes);
      var (rest, failed) := ExpandedFeed(next, feed[1..]);
      ((if ok then [feed[0].event] else []) + rest, failed)
  }

  /** A write that goes through, or was not needed, leaves the sink sound; one that fails, failed. */
  lemma TableHeals(t: Table, e: Event, writes: bool)
    requires !t.failed
    ensures var ((next, ok), (healed, could)) := (TableEmit(t, e, writes), TableEmit(t, e, true));
            && !healed.failed && (next.failed ==> !ok && could)
            && (!next.failed ==> next == healed && ok == could)
  {
  }

  lemma {:induction false} FailedTableAcceptsNothing(t: Table, feed: seq<Fed>)
    requires t.failed
    ensures TableFeed(t, feed) == ([], true)
    decreases |feed|
  {
    if feed != [] {
      FailedTableAcceptsNothing(t, feed[1..]);
      assert [] + TableFeed(t, feed[1..]).0 == [];
    }
  }

  /** A table shows the beginning of what it would show on good writers, and all of it unless a write fails. */
  lemma {:induction false} TableShowsPrefix(t: Table, feed: seq<Fed>)
    requires !t.failed
    ensures var (shown, failed) := TableFeed(t, feed);
            var whole := TableFeed(t, Healed(feed)).0;
            shown <= whole && (failed <==> shown != whole)
    decreases |feed|
  {
    hide TableStep;
    if feed != [] {
      var (next, ok) := TableEmit(t, feed[0].event, feed[0].writes);
      assert Healed(feed)[1..] == Healed(feed[1..]) && Healed(feed)[0] == feed[0].(writes := true);
      TableHeals(t, feed[0].event, feed[0].writes);
      hide TableEmit;
      if next.failed {
        FailedTableAcceptsNothing(next, feed[1..]);
      } else {
        TableShowsPrefix(next, feed[1..]);
      }
    }
  }

  /** A write that goes through, or was not needed, leaves the sink sound; one that fails, failed. */
  lemma ExpandedHeals(x: Expanded, e: Event, writes: bool)
    requires !x.failed
    ensures var ((next, ok), (healed, could)) := (ExpandedEmit(x, e, writes), ExpandedEmit(x, e, true));
            && !healed.failed && (next.failed ==> !ok && could)
            && (!next.failed ==> next == healed && ok == could)
  {
  }

  lemma {:induction false} FailedExpandedAcceptsNothing(x: Expanded, feed: seq<Fed>)
    requires x.failed
    ensures ExpandedFeed(x, feed) == ([], true)
    decreases |feed|
  {
    if feed != [] {
      FailedExpandedAcceptsNothing(x, feed[1..]);
      assert [] + ExpandedFeed(x, feed[1..]).0 == [];
    }
  }

  /** The same for the expanded listing, which loses its result set with a failed row. */
  lemma {:induction false} ExpandedShowsPrefix(x: Expanded, feed: seq<Fed>)
    requires !x.failed
    ensures var (shown, failed) := ExpandedFeed(x, feed);
            var whole := ExpandedFeed(x, Healed(feed)).0;
            shown <= whole && (failed <==> shown != whole)
    decreases |feed|
  {
    hide ExpandedStep;
    if feed != [] {
      var (next, ok) := ExpandedEmit(x, feed[0].event, feed[0].writes);
      assert Healed(feed)[1..] == Healed(feed[1..]) && Healed(feed)[0] == feed[0].(writes := true);
      ExpandedHeals(x, feed[0].event, feed[0].writes);
      hide ExpandedEmit;
      if next.failed {
        FailedExpandedAcceptsNothing(next, feed[1..]);
      } else {
        ExpandedShowsPrefix(next, feed[1..]);
      }
    }
  }

  function DelimitedRun(feed: seq<Fed>, escapes: bool): (d: Delimited)
    ensures d.escapes == escapes
  {
    if feed == [] then NewDelimited(escapes)
    else
      var last := feed[|feed| - 1];
      DelimitedEmit(DelimitedRun(feed[..|feed| - 1], escapes), last.event, last.writes).0
  }

  /** Whatever is fed and whatever fails, all records have the width of the one column set. */
  lemma {:induction false} RecordsAreRectangular(feed: seq<Fed>, escapes: bool)
    ensures var d := DelimitedRun(feed, escapes);
            && (d.columnCount.Some? <==> d.rowSetSeen)
            && (d.columnCount.None? ==> d.records == [])
            && forall k :: 0 <= k < |d.records| ==> Some(|d.records[k]|) == d.columnCount
  {
    if feed != [] {
      RecordsAreRectangular(feed[..|feed| - 1], escapes);
    }
  }

  /** The events that a delimited sink accepts. */
  function DelimitedAccepted(feed: seq<Fed>, escapes: bool): seq<Event> {
    if feed == [] then []
    else
      var before, last := feed[..|feed| - 1], feed[|feed| - 1];
      var ok := DelimitedEmit(DelimitedRun(before, escapes), last.event, last.writes).1;
      DelimitedAccepted(before, escapes) + (if ok then [last.event] else [])
  }

  function RecordsFor(e: Event, escapes: bool): seq<seq<Field>> {
    match e
    case Columns(columns) => [HeaderRecord(columns, escapes)]
    case Row(values) => [EncodeRow(values, escapes)]
    case _ => []
  }

  /** The records that a sequence of events asks for. */
  function RecordsOf(events: seq<Event>, escapes: bool): seq<seq<Field>> {
    if events == [] then []
    else
      var last := events[|events| - 1];
      RecordsOf(events[..|events| - 1], escapes) + RecordsFor(last, escapes)
  }

  lemma RecordsGrow(events: seq<Event>, e: Event, escapes: bool)
    ensures RecordsOf(events + [e], escapes)
         == RecordsOf(events, escapes) + RecordsFor(e, escapes)
  {
    assert (events + [e])[..|events|] == events;
  }

  /** The records of a delimited sink are those of the accepted events, in order. */
  lemma {:induction false} RecordsSpellEvents(feed: seq<Fed>, escapes: bool)
    ensures DelimitedRun(feed, escapes).records == RecordsOf(DelimitedAccepted(feed, escapes), escapes)
  {
    hide RecordsOf;
    if feed == [] {
      NoRecords(escapes);
    } else {
      var before, last := feed[..|feed| - 1], feed[|feed| - 1];
      RecordsSpellEvents(before, escapes);
      var accepted := DelimitedAccepted(before, escapes);
      RecordsGrow(accepted, last.event, escapes);
      assert accepted + [] == accepted;
    }
  }

  lemma NoRecords(escapes: bool)
    ensures RecordsOf([], escapes) == []
  {
  }

  /** A header whose write failed counts as seen: the sink accepts rows behind it. */
  lemma RowsBehindFailedHeader(columns: seq<string>, values: seq<Option<string>>, escapes: bool)
    requires |columns| == |values|
    ensures DelimitedRun([Fed(Columns(columns), false), Fed(Row(values), true)], escapes).records
         == [EncodeRow(values, escapes)]
  {
    var header, row := Fed(Columns(columns), false), Fed(Row(values), true);
    assert [header, row][..1] == [header] && [header][..0] == [];
    assert DelimitedRun([header], escapes).columnCount == Some(|columns|);
  }

  // ---- Cells read back. ----

  /** The NULL encoding is reversible: a cell reads back as the NULL or the shown text it stands for. */
  lemma CellReadsBack(value: Option<string>, escapes: bool)
    ensures DecodeCell(EncodeCell(value, escapes))
         == match value case None => None case Some(text) => Some(Shown(text, escapes))
  {
    hide Shown;
    if value.Some? {
      var shown := Shown(value.value, escapes);
      assert (['\\'] + shown)[1..] == shown;
    }
  }

  /** Only a cell that would start with a backslash is written otherwise than shown: as it is, or escaped for a terminal. */
  lemma CellIsText(text: string)
    ensures text == "" || text[0] as int != 92 ==> EncodeCell(Some(text), false) == text
    ensures var shown := TableLayout.Shows(text);
            shown == "" || shown[0] as int != 92 ==> EncodeCell(Some(text), true) == shown
  {
    hide TableLayout.Shows;
  }

  predicate IsSafe(text: string) {
    forall k :: 0 <= k < |text| ==> 32 <= text[k] as int && !(127 <= text[k] as int < 160)
  }

  lemma {:induction false} ShowsAreSafe(text: string)
    ensures IsSafe(TableLayout.Shows(text))
  {
    if text != "" {
      ShowsAreSafe(text[1..]);
    }
  }

  /** On a terminal no header and no cell holds a control character. */
  lemma TerminalIsSafe(value: Option<string>, columns: seq<string>, k: nat)
    requires k < |columns|
    ensures IsSafe(EncodeCell(value, true)) && IsSafe(HeaderRecord(columns, true)[k])
  {
    hide TableLayout.Shows;
    ShowsAreSafe(columns[k]);
    if value.Some? {
      ShowsAreSafe(value.value);
    }
  }

  /** Without a terminal every header and text is written as it is. */
  lemma HeaderIsText(columns: seq<string>)
    ensures HeaderRecord(columns, false) == columns
  {
  }

  // ---- The JSON Lines log. ----

  /** Feeding events one after the other; a refused event leaves no trace. */
  function JsonlRun(feed: seq<Fed>): Jsonl {
    if feed == [] then NEW_JSONL
    else
      var last := feed[|feed| - 1];
      JsonlEmit(JsonlRun(feed[..|feed| - 1]), last.event, last.writes).0
  }

  /** The events that are accepted, that is, in order and written. */
  function Accepted(feed: seq<Fed>): seq<Event> {
    if feed == [] then []
    else
      var before, last := feed[..|feed| - 1], feed[|feed| - 1];
      Accepted(before) + (if JsonlEmit(JsonlRun(before), last.event, last.writes).1 then [last.event] else [])
  }

  /** Some event that was in order could not be written. */
  predicate SomeWriteFailed(feed: seq<Fed>) {
    feed != []
    && var before, last := feed[..|feed| - 1], feed[|feed| - 1];
       SomeWriteFailed(before) || (!last.writes && JsonlStep(JsonlRun(before), last.event).Some?)
  }

  function CountColumns(frames: seq<Frame>): nat {
    if frames == [] then 0
    else CountColumns(frames[..|frames| - 1]) + (if frames[|frames| - 1].ColumnsFrame? then 1 else 0)
  }

  function CountRows(frames: seq<Frame>, result: nat): nat {
    if frames == [] then 0
    else
      var last := frames[|frames| - 1];
      CountRows(frames[..|frames| - 1], result) + (if last.RowFrame? && last.result == result then 1 else 0)
  }

  /** The result set that a reader of the frames so far takes to be in progress: its number and width. */
  function OpenResult(frames: seq<Frame>): Option<(nat, nat)> {
    if frames == [] then None
    else
      match frames[|frames| - 1]
      case ColumnsFrame(result, columns) => Some((result, |columns|))
      case CompleteFrame(_, _) => None
      case _ => OpenResult(frames[..|frames| - 1])
  }

  /** A frame tells the truth about the frames before it. */
  predicate TrueFrame(before: seq<Frame>, frame: Frame) {
    && (forall k :: 0 <= k < |before| ==> !before[k].ErrorFrame?)
    && match frame
       case ColumnsFrame(result, _) => OpenResult(before) == None && result == CountColumns(before)
       case RowFrame(result, values) => OpenResult(before) == Some((result, |values|))
       case CompleteFrame(result, rows) =>
         && OpenResult(before).Some? && OpenResult(before).value.0 == result && rows == CountRows(before, result)
       case CommandFrame(_) => OpenResult(before) == None
       case NoticeFrame(_) => true
       case ErrorFrame(_, _) => true
  }

  ghost predicate TrueLog(frames: seq<Frame>) {
    forall k :: 0 <= k < |frames| ==> TrueFrame(frames[..k], frames[k])
  }

  /** The event that a frame stands for. */
  function EventOf(frame: Frame): Event {
    match frame
    case ColumnsFrame(_, columns) => Columns(columns)
    case RowFrame(_, values) => Row(values)
    case CompleteFrame(_, rows) => CommandComplete(rows)
    case CommandFrame(rows) => CommandComplete(rows)
    case NoticeFrame(message) => Notice(message)
    case ErrorFrame(sqlstate, diagnostic) => Error(sqlstate, diagnostic)
  }

  function Decode(frames: seq<Frame>): (r: seq<Event>)
    ensures |r| == |frames|
  {
    if frames == [] then [] else Decode(frames[..|frames| - 1]) + [EventOf(frames[|frames| - 1])]
  }

  lemma {:induction false} NoRowsBeforeColumns(frames: seq<Frame>, result: nat)
    requires TrueLog(frames) && result >= CountColumns(frames)
    ensures CountRows(frames, result) == 0
    ensures OpenResult(frames).Some? ==> OpenResult(frames).value.0 < CountColumns(frames)
  {
    if frames != [] {
      var before := frames[..|frames| - 1];
      TruePrefix(frames);
      assert TrueFrame(frames[..|frames| - 1], frames[|frames| - 1]);
      NoRowsBeforeColumns(before, result);
      if frames[|frames| - 1].ColumnsFrame? {
        NoRowsBeforeColumns(before, CountColumns(before));
      }
    }
  }

  lemma TruePrefix(frames: seq<Frame>)
    requires frames != [] && TrueLog(frames)
    ensures TrueLog(frames[..|frames| - 1])
  {
    var before := frames[..|frames| - 1];
    forall k | 0 <= k < |before|
      ensures TrueFrame(before[..k], before[k])
    {
      assert before[..k] == frames[..k] && TrueFrame(frames[..k], frames[k]);
    }
  }

  lemma TrueAppend(frames: seq<Frame>, frame: Frame)
    requires TrueLog(frames) && TrueFrame(frames, frame)
    ensures TrueLog(frames + [frame])
  {
    var log := frames + [frame];
    forall k | 0 <= k < |log|
      ensures TrueFrame(log[..k], log[k])
    {
      if k < |frames| {
        assert log[..k] == frames[..k];
      } else {
        assert log[..k] == frames;
      }
    }
  }

  /** The sink's counters say what a reader would count. */
  ghost predicate Counted(j: Jsonl) {
    && TrueLog(j.frames)
    && j.nextResult == CountColumns(j.frames)
    && (j.active.None? <==> OpenResult(j.frames).None?)
    && (j.active.Some? ==>
          && OpenResult(j.frames) == Some((j.active.value.index, j.active.value.width))
          && j.active.value.rows == CountRows(j.frames, j.active.value.index))
    && (j.failed <==> exists k :: 0 <= k < |j.frames| && j.frames[k].ErrorFrame?)
  }

  lemma FrameCounts(frames: seq<Frame>, frame: Frame, result: nat)
    ensures CountColumns(frames + [frame]) == CountColumns(frames) + (if frame.ColumnsFrame? then 1 else 0)
    ensures CountRows(frames + [frame], result)
         == CountRows(frames, result) + (if frame.RowFrame? && frame.result == result then 1 else 0)
    ensures OpenResult(frames + [frame])
         == match frame
            case ColumnsFrame(r, columns) => Some((r, |columns|))
            case CompleteFrame(_, _) => None
            case _ => OpenResult(frames)
  {
    assert (frames + [frame])[..|frames|] == frames;
  }

  lemma CountedStep(j: Jsonl, e: Event)
    requires Counted(j) && JsonlStep(j, e).Some?
    ensures Counted(JsonlStep(j, e).value)
    ensures JsonlStep(j, e).value.frames[..|j.frames|] == j.frames
    ensures |JsonlStep(j, e).value.frames| == |j.frames| + 1
    ensures EventOf(JsonlStep(j, e).value.frames[|j.frames|]) == e
  {
    hide TrueLog;
    hide CountRows;
    hide CountColumns;
    hide OpenResult;
    var after := JsonlStep(j, e).value;
    var frame := after.frames[|j.frames|];
    assert after.frames == j.frames + [frame];
    TrueAppend(j.frames, frame);
    FrameCounts(j.frames, frame, if after.active.Some? then after.active.value.index else 0);
    NoRowsBeforeColumns(j.frames, j.nextResult);
    assert forall k :: 0 <= k < |j.frames| ==> after.frames[k] == j.frames[k];
  }

  /**
   * Every log, whatever events were fed and whichever writes failed: of the whole
   * frames, result numbers count up from zero, each row belongs to the result in
   * progress and has its width, each completion reports the number of its rows,
   * nothing follows an error; they spell exactly the accepted events; and there is
   * nothing else in the log if and only if no write failed.
   */
  lemma {:induction false} EveryLogIsTrue(feed: seq<Fed>)
    ensures Counted(JsonlRun(feed)) && TrueLog(JsonlRun(feed).frames)
    ensures Decode(JsonlRun(feed).frames) == Accepted(feed)
    ensures JsonlRun(feed).torn == {} <==> !SomeWriteFailed(feed)
  {
    hide TrueLog;
    if feed == [] {
      EmptyLog();
    } else {
      var before, last := feed[..|feed| - 1], feed[|feed| - 1];
      EveryLogIsTrue(before);
      var j := JsonlRun(before);
      if JsonlStep(j, last.event).Some? {
        if last.writes {
          CountedStep(j, last.event);
          var frames := JsonlStep(j, last.event).value.frames;
          assert frames[..|frames| - 1] == j.frames;
        } else {
          assert |j.frames| in JsonlRun(feed).torn;
        }
      }
    }
  }

  lemma EmptyLog()
    ensures Counted(NEW_JSONL) && Decode(NEW_JSONL.frames) == []
  {
    assert NEW_JSONL.frames == [];
  }

  /** Unlike a table, the sink accepts further events behind a frame that broke off. */
  lemma GoesOnBehindTornFrame(j: Jsonl, e: Event, next: Event)
    requires JsonlStep(j, e).Some? && JsonlStep(j, next).Some?
    ensures var torn := JsonlEmit(j, e, false).0;
            && !torn.failed && JsonlEmit(torn, next, true).1
            && |j.frames| in JsonlEmit(torn, next, true).0.torn
  {
  }
}
