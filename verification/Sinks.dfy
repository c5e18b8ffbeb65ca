// The four sinks as protocols over execution events, with writers that may fail
// (src/output/table.rs, expanded.rs, jsonl.rs, delimited.rs). For each event
// `writes` says whether the writes it causes go through.

module Sinks {
  import opened Wrappers
  import TableLayout

  datatype Event =
    | Columns(columns: seq<string>)
    | Row(values: seq<Option<string>>)
    | CommandComplete(rows: nat)
    | Notice(message: string)
    | Error(sqlstate: Option<string>, diagnostic: string)

  // ---- Table. ----

  datatype ActiveTable = ActiveTable(width: nat, rows: nat)

  datatype Table = Table(result: Option<ActiveTable>, needsSeparator: bool, terminal: bool, failed: bool)

  const NEW_TABLE: Table := Table(None, false, false, false)

  /** The state after an event whose writes go through; None if the event is refused, which changes nothing. */
  function TableStep(t: Table, e: Event): Option<Table> {
    if t.failed || t.terminal then None
    else
      match e
      case Columns(columns) =>
        if t.result.Some? then None else Some(Table(Some(ActiveTable(|columns|, 0)), true, false, false))
      case Row(values) =>
        if t.result.None? || |values| != t.result.value.width then None
        else Some(t.(result := Some(t.result.value.(rows := t.result.value.rows + 1))))
      case CommandComplete(rows) =>
        if t.result.Some? && t.result.value.rows != rows then None
        else Some(t.(result := None, needsSeparator := true))
      case Notice(_) => Some(t)
      case Error(_, _) => Some(t.(terminal := true))
  }

  /** Every event that the protocol accepts writes; a failed write leaves the sink failed. */
  function TableEmit(t: Table, e: Event, writes: bool): (Table, bool) {
    match TableStep(t, e)
    case None => (t, false)
    case Some(next) =>
      if writes then (next, true)
      else (t.(failed := true, result := if e.CommandComplete? then None else t.result), false)
  }

  class TableSink {
    var result: Option<ActiveTable>
    var needsSeparator: bool
    var terminal: bool
    var failed: bool

    ghost function View(): Table
      reads this
    {
      Table(result, needsSeparator, terminal, failed)
    }

    /** A result set in progress has already asked for a separator. */
    ghost predicate Valid()
      reads this
    {
      result.Some? ==> needsSeparator
    }

    constructor ()
      ensures Valid() && View() == NEW_TABLE
    {
      result, needsSeparator, terminal, failed := None, false, false, false;
    }

    /** The first write that fails is remembered. */
    method Write(writes: bool) returns (ok: bool)
      requires !failed
      modifies this`failed
      ensures ok == writes == !failed
    {
      failed := !writes;
      ok := writes;
    }

    method Emit(e: Event, writes: bool) returns (ok: bool)
      requires Valid()
      modifies this
      ensures Valid() && (View(), ok) == TableEmit(old(View()), e, writes)
    {
      if failed || terminal {
        return false;
      }
      match e {
        case Columns(columns) =>
          if result.Some? {
            return false;
          }
          ok := Write(writes);
          if ok {
            result := Some(ActiveTable(|columns|, 0));
            needsSeparator := true;
          }
        case Row(values) =>
          if result.None? || |values| != result.value.width {
            return false;
          }
          ok := Write(writes);
          if ok {
            result := Some(result.value.(rows := result.value.rows + 1));
          }
        case CommandComplete(rows) =>
          if result.Some? && result.value.rows != rows {
            return false;
          }
          var taken := result;
          result := None;
          ok := Write(writes);
          if ok && taken.None? {
            needsSeparator := true;
          }
        case Notice(_) =>
          ok := Write(writes);
        case Error(_, _) =>
          ok := Write(writes);
          if ok {
            terminal := true;
          }
      }
    }
  }

  // ---- Expanded. ----

  datatype Expanded = Expanded(
    result: Option<nat>, rows: nat, needsSeparator: bool, terminal: bool, failed: bool)

  const NEW_EXPANDED: Expanded := Expanded(None, 0, false, false, false)

  function ExpandedStep(x: Expanded, e: Event): Option<Expanded> {
    if x.failed || x.terminal then None
    else
      match e
      case Columns(columns) => if x.result.Some? then None else Some(Expanded(Some(|columns|), 0, true, false, false))
      case Row(values) =>
        if x.result.None? || |values| != x.result.value then None else Some(x.(rows := x.rows + 1))
      case CommandComplete(rows) =>
        if x.result.Some? && x.rows != rows then None else Some(x.(result := None, needsSeparator := true))
      case Notice(_) => Some(x)
      case Error(_, _) => Some(x.(terminal := true))
  }

  /** Only the first column set writes nothing; a failed write of a row loses the result set. */
  function ExpandedEmit(x: Expanded, e: Event, writes: bool): (Expanded, bool) {
    match ExpandedStep(x, e)
    case None => (x, false)
    case Some(next) =>
      if writes || (e.Columns? && !x.needsSeparator) then (next, true)
      else
        var torn := x.(failed := true);
        match e
        case Row(_) => (torn.(result := None, rows := x.rows + 1), false)
        case CommandComplete(_) => (torn.(result := None), false)
        case _ => (torn, false)
  }

  class ExpandedSink {
    var result: Option<nat>
    var rows: nat
    var needsSeparator: bool
    var terminal: bool
    var failed: bool

    ghost function View(): Expanded
      reads this
    {
      Expanded(result, rows, needsSeparator, terminal, failed)
    }

    ghost predicate Valid()
      reads this
    {
      result.Some? ==> needsSeparator
    }

    constructor ()
      ensures Valid() && View() == NEW_EXPANDED
    {
      result, rows, needsSeparator, terminal, failed := None, 0, false, false, false;
    }

    method Write(writes: bool) returns (ok: bool)
      requires !failed
      modifies this`failed
      ensures ok == writes == !failed
    {
      failed := !writes;
      ok := writes;
    }

    /** A row takes the result set out while it is written and puts it back, also when it refuses. */
    method RenderRow(values: seq<Option<string>>, writes: bool) returns (ok: bool)
      requires !failed
      modifies this
      ensures var fits := old(result).Some? && |values| == old(result).value;
              && ok == (fits && writes)
              && View() == if fits
                           then old(View()).(rows := old(rows) + 1, failed := !writes,
                                             result := if writes then old(result) else None)
                           else old(View())
    {
      var taken := result;
      result := None;
      if taken.None? {
        return false;
      }
      if |values| != taken.value {
        result := taken;
        return false;
      }
      rows := rows + 1;
      ok := Write(writes);
      if ok {
        result := taken;
      }
    }

    method Emit(e: Event, writes: bool) returns (ok: bool)
      requires Valid()
      modifies this
      ensures Valid() && (View(), ok) == ExpandedEmit(old(View()), e, writes)
    {
      if failed || terminal {
        return false;
      }
      match e {
        case Columns(columns) =>
          if result.Some? {
            return false;
          }
          if needsSeparator {
            ok := Write(writes);
            if !ok {
              return;
            }
          }
          result := Some(|columns|);
          rows := 0;
          needsSeparator := true;
          ok := true;
        case Row(values) =>
          ok := RenderRow(values, writes);
        case CommandComplete(reported) =>
          if result.Some? && rows != reported {
            return false;
          }
          var taken := result;
          result := None;
          ok := Write(writes);
          if ok && taken.None? {
            needsSeparator := true;
          }
        case Notice(_) =>
          ok := Write(writes);
        case Error(_, _) =>
          ok := Write(writes);
          if ok {
            terminal := true;
          }
      }
    }
  }

  // ---- JSON Lines. ----

  datatype Frame =
    | ColumnsFrame(result: nat, columns: seq<string>)
    | RowFrame(result: nat, values: seq<Option<string>>)
    | CompleteFrame(result: nat, rows: nat)
    | CommandFrame(rows: nat)
    | NoticeFrame(message: string)
    | ErrorFrame(sqlstate: Option<string>, diagnostic: string)

  datatype ActiveResult = ActiveResult(index: nat, width: nat, rows: nat)

  /** The sink and what it wrote: whole frames, and the places between them where a write broke off. */
  datatype Jsonl = Jsonl(
    nextResult: nat, active: Option<ActiveResult>, failed: bool, frames: seq<Frame>, torn: set<nat>)

  const NEW_JSONL: Jsonl := Jsonl(0, None, false, [], {})

  function Appended(j: Jsonl, frame: Frame): Jsonl {
    j.(frames := j.frames + [frame])
  }

  function JsonlStep(j: Jsonl, e: Event): Option<Jsonl> {
    if j.failed then None
    else
      match e
      case Columns(columns) =>
        if j.active.Some? then None
        else
          Some(Appended(j, ColumnsFrame(j.nextResult, columns))
               .(nextResult := j.nextResult + 1, active := Some(ActiveResult(j.nextResult, |columns|, 0))))
      case Row(values) =>
        if j.active.None? || |values| != j.active.value.width then None
        else
          Some(Appended(j, RowFrame(j.active.value.index, values))
               .(active := Some(j.active.value.(rows := j.active.value.rows + 1))))
      case CommandComplete(rows) =>
        if j.active.None? then Some(Appended(j, CommandFrame(rows)))
        else if j.active.value.rows != rows then None
        else Some(Appended(j, CompleteFrame(j.active.value.index, rows)).(active := None))
      case Notice(message) => Some(Appended(j, NoticeFrame(message)))
      case Error(sqlstate, diagnostic) => Some(Appended(j, ErrorFrame(sqlstate, diagnostic)).(failed := true))
  }

  /** A write that breaks off changes nothing but the output. */
  function JsonlEmit(j: Jsonl, e: Event, writes: bool): (Jsonl, bool) {
    match JsonlStep(j, e)
    case None => (j, false)
    case Some(next) => if writes then (next, true) else (j.(torn := j.torn + {|j.frames|}), false)
  }

  class JsonlSink {
    var nextResult: nat
    var active: Option<ActiveResult>
    var failed: bool
    var frames: seq<Frame>
    var torn: set<nat>

    ghost function View(): Jsonl
      reads this
    {
      Jsonl(nextResult, active, failed, frames, torn)
    }

    constructor ()
      ensures View() == NEW_JSONL
    {
      nextResult, active, failed, frames, torn := 0, None, false, [], {};
    }

    method WriteFrame(frame: Frame, writes: bool) returns (ok: bool)
      modifies this`frames, this`torn
      ensures ok == writes
      ensures frames == if ok then old(frames) + [frame] else old(frames)
      ensures torn == if ok then old(torn) else old(torn) + {|old(frames)|}
    {
      if writes {
        frames := frames + [frame];
      } else {
        torn := torn + {|frames|};
      }
      ok := writes;
    }

    method Emit(e: Event, writes: bool) returns (ok: bool)
      modifies this
      ensures (View(), ok) == JsonlEmit(old(View()), e, writes)
    {
      if failed {
        return false;
      }
      match e {
        case Columns(columns) =>
          if active.Some? {
            return false;
          }
          ok := WriteFrame(ColumnsFrame(nextResult, columns), writes);
          if ok {
            active := Some(ActiveResult(nextResult, |columns|, 0));
            nextResult := nextResult + 1;
          }
        case Row(values) =>
          if active.None? || |values| != active.value.width {
            return false;
          }
          ok := WriteFrame(RowFrame(active.value.index, values), writes);
          if ok {
            active := Some(active.value.(rows := active.value.rows + 1));
          }
        case CommandComplete(rows) =>
          if active.None? {
            ok := WriteFrame(CommandFrame(rows), writes);
          } else if active.value.rows != rows {
            return false;
          } else {
            ok := WriteFrame(CompleteFrame(active.value.index, rows), writes);
            if ok {
              active := None;
            }
          }
        case Notice(message) =>
          ok := WriteFrame(NoticeFrame(message), writes);
        case Error(sqlstate, diagnostic) =>
          ok := WriteFrame(ErrorFrame(sqlstate, diagnostic), writes);
          if ok {
            failed := true;
          }
      }
    }
  }

  // ---- Delimited. ----

  type Field = string

  /** A text as it goes to a terminal, with its control characters made visible, or as it is. */
  function Shown(text: string, escapes: bool): string {
    if escapes then TableLayout.Shows(text) else text
  }

  /** NULL is `\N`; a text that starts with a backslash gains one. */
  function EncodeCell(value: Option<string>, escapes: bool): Field {
    match value
    case None => "\\N"
    case Some(text) =>
      var shown := Shown(text, escapes);
      if shown != "" && shown[0] == '\\' then ['\\'] + shown else shown
  }

  function DecodeCell(field: Field): Option<string> {
    if field == "\\N" then None
    else if field != "" && field[0] == '\\' then Some(field[1..])
    else Some(field)
  }

  datatype Delimited = Delimited(
    columnCount: Option<nat>,
    rowSetSeen: bool,
    resultComplete: bool,
    terminal: bool,
    escapes: bool,
    records: seq<seq<Field>>)

  function NewDelimited(escapes: bool): Delimited {
    Delimited(None, false, false, false, escapes, [])
  }

  function EncodeRow(values: seq<Option<string>>, escapes: bool): (r: seq<Field>)
    ensures |r| == |values|
  {
    seq(|values|, k requires 0 <= k < |values| => EncodeCell(values[k], escapes))
  }

  function HeaderRecord(columns: seq<string>, escapes: bool): (r: seq<Field>)
    ensures |r| == |columns|
  {
    seq(|columns|, k requires 0 <= k < |columns| => Shown(columns[k], escapes))
  }

  function DelimitedStep(d: Delimited, e: Event): Option<Delimited> {
    if d.terminal then None
    else
      match e
      case Columns(columns) =>
        if d.rowSetSeen then None
        else Some(Delimited(Some(|columns|), true, false, false, d.escapes,
                            d.records + [HeaderRecord(columns, d.escapes)]))
      case Row(values) =>
        if d.columnCount.None? || d.resultComplete || |values| != d.columnCount.value then None
        else Some(d.(records := d.records + [EncodeRow(values, d.escapes)]))
      case CommandComplete(_) => Some(if d.rowSetSeen then d.(resultComplete := true) else d)
      case Notice(_) => Some(d)
      case Error(_, _) => Some(d.(terminal := true))
  }

  /** Whether the event writes or flushes: completions do so only for a result set still open. */
  predicate DelimitedWrites(d: Delimited, e: Event) {
    e.CommandComplete? ==> d.rowSetSeen && !d.resultComplete
  }

  /** A failed write keeps what was set before it: the column set counts as seen. */
  function DelimitedEmit(d: Delimited, e: Event, writes: bool): (Delimited, bool) {
    match DelimitedStep(d, e)
    case None => (d, false)
    case Some(next) =>
      if writes || !DelimitedWrites(d, e) then (next, true)
      else (if e.Columns? then next.(records := d.records) else d, false)
  }

  class DelimitedSink {
    var columnCount: Option<nat>
    var rowSetSeen: bool
    var resultComplete: bool
    var terminal: bool
    const escapes: bool
    var records: seq<seq<Field>>

    ghost function View(): Delimited
      reads this
    {
      Delimited(columnCount, rowSetSeen, resultComplete, terminal, escapes, records)
    }

    constructor (escapes: bool)
      ensures View() == NewDelimited(escapes)
    {
      this.escapes := escapes;
      columnCount, rowSetSeen, resultComplete, terminal, records := None, false, false, false, [];
    }

    method WriteRecord(record: seq<Field>, writes: bool) returns (ok: bool)
      modifies this`records
      ensures ok == writes && records == if ok then old(records) + [record] else old(records)
    {
      if writes {
        records := records + [record];
      }
      ok := writes;
    }

    method Emit(e: Event, writes: bool) returns (ok: bool)
      modifies this
      ensures (View(), ok) == DelimitedEmit(old(View()), e, writes)
    {
      if terminal {
        return false;
      }
      match e {
        case Columns(columns) =>
          if rowSetSeen {
            return false;
          }
          columnCount := Some(|columns|);
          rowSetSeen := true;
          resultComplete := false;
          ok := WriteRecord(HeaderRecord(columns, escapes), writes);
        case Row(values) =>
          if columnCount.None? || resultComplete || |values| != columnCount.value {
            return false;
          }
          ok := WriteRecord(EncodeRow(values, escapes), writes);
        case CommandComplete(_) =>
          if rowSetSeen && !resultComplete {
            if !writes {
              return false;
            }
            resultComplete := true;
          }
          ok := true;
        case Notice(_) =>
          ok := writes;
        case Error(_, _) =>
          if writes {
            terminal := true;
          }
          ok := writes;
      }
    }
  }
}
