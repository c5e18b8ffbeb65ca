// The managed session: reconnect eligibility and transaction state for every SQL
// path, over a connection, a connector and a server that answer as they please
// (src/app.rs).

module Session {
  import opened Bytes
  import opened Wrappers
  import opened Classification

  datatype TransactionState = Idle | Active | Failed | Uncertain

  datatype SessionSetting = SessionSetting(name: string, value: string)

  type Settings = seq<SessionSetting>

  // ---- The other side: a server whose steps follow the class of the statement. ----

  datatype ServerState = ServerIdle | InBlock | Aborted

  /** The states from which a statement of this class can succeed. */
  predicate Accepts(server: ServerState, control: TransactionControl) {
    match control
    case Commit => true
    case Rollback => true
    case RollbackTo => !server.ServerIdle?
    case Savepoint => server.InBlock?
    case Release => server.InBlock?
    case Begin => !server.Aborted?
    case Other => !server.Aborted?
  }

  function AfterSuccess(server: ServerState, control: TransactionControl): ServerState {
    match control
    case Begin => InBlock
    case Commit => ServerIdle
    case Rollback => ServerIdle
    case RollbackTo => InBlock
    case _ => server
  }

  /** A rejected statement aborts an open block; a rejected commit may also end it. */
  function AfterRejection(server: ServerState, control: TransactionControl, endsBlock: bool): ServerState {
    if server.ServerIdle? then ServerIdle
    else if control.Commit? && endsBlock then ServerIdle
    else Aborted
  }

  /**
   * One connection. `broken` is the truth about it and `alive` the flag the client
   * can read, which may lag behind. Two flags tell of a client that walks away
   * from a request it has submitted: `dropped` by dropping the future of the call,
   * `unread` by returning an error while the response is still coming in.
   */
  datatype Connection = Connection(
    id: nat, server: ServerState, broken: bool, alive: bool, dropped: bool, unread: bool)
  {
    predicate Abandoned() {
      dropped || unread
    }
  }

  /**
   * How a submitted statement ends. A sink can fail on a notice from before, so that
   * the statement is not sent; with the response unread, as a row that cannot be
   * decoded does, while the server goes on to its own end; or when all is read.
   */
  datatype Answer =
    | Succeeded
    | Rejected
    | Unsent
    | LeftUnread(succeeds: bool)
    | SinkFailed
    | ConnectionBroke
  {
    /** The server carries the statement out. */
    predicate IsCarriedOut() {
      Succeeded? || SinkFailed? || (LeftUnread? && succeeds)
    }
  }

  datatype Capture = Captured(settings: Settings) | CaptureFailed(rejected: bool)

  /** The await at which a caller drops the call, if any. */
  datatype CutPoint = NotCut | BeforeStart | Reconnecting(attempt: nat) | Executing | Capturing

  /** Every choice the world makes during one call. */
  datatype Env = Env(
    now: int,
    breaks: bool,
    noticedBefore: bool,
    connects: seq<bool>,
    answer: Answer,
    endsBlock: bool,
    noticedAfter: bool,
    capture: Capture,
    cut: CutPoint)

  datatype LogEntry =
    | Connect(settings: Settings, success: bool, replaced: Connection, state: TransactionState)
    | Submit(text: bytes, connection: Connection)
    | Completed(capture: Option<Settings>)

  /** The session with the log of what it did. */
  datatype Managed = Managed(
    connection: Connection,
    connectedAt: int,
    state: TransactionState,
    settings: Settings,
    settingsCurrent: bool,
    reconnectRequired: bool,
    reconnected: bool,
    log: seq<LogEntry>)

  datatype CallResult = Returned(ok: bool) | Dropped

  // ---- Pure parts of the source. ----

  const PROACTIVE_RECONNECT_AFTER: int := 55 * 60

  predicate ConnectionIsDue(connectedAt: int, now: int) {
    connectedAt <= now && now - connectedAt >= PROACTIVE_RECONNECT_AFTER
  }

  function TransitionTransactionState(state: TransactionState, control: TransactionControl): TransactionState {
    match control
    case Begin => Active
    case Commit => if state.Uncertain? then state else Idle
    case Rollback => if state.Uncertain? then state else Idle
    case _ => state
  }

  datatype ReconnectState = Connected | Due | Deferred | Required | UncertainOutcome

  function ReconnectStateOf(m: Managed, now: int): ReconnectState {
    if m.state.Uncertain? then UncertainOutcome
    else if m.reconnectRequired || !m.connection.alive then Required
    else if ConnectionIsDue(m.connectedAt, now) then
      if m.state.Idle? then Due else Deferred
    else Connected
  }

  // ---- One call, step by step. ----

  /** The connection may break before the call, and its flag may or may not tell. */
  function Observe(c: Connection, breaks: bool, noticed: bool): Connection {
    var broken := c.broken || breaks;
    c.(broken := broken, alive := c.alive && !(broken && noticed))
  }

  datatype Gate = Refuse | SubmitNow | ReconnectFirst

  /** What `prepare` decides from the fields alone. */
  function GateOf(m: Managed, now: int): Gate {
    var required := m.reconnectRequired || !m.connection.alive;
    if m.state.Uncertain? then Refuse
    else if required && !m.state.Idle? then Refuse
    else if required || (m.state.Idle? && ConnectionIsDue(m.connectedAt, now)) then
      if m.settingsCurrent then ReconnectFirst else Refuse
    else SubmitNow
  }

  const RECONNECT_ATTEMPTS: nat := 3

  datatype ReconnectResult = Replaced | Exhausted | CutOff

  predicate Connects(env: Env, attempt: nat) {
    attempt < |env.connects| && env.connects[attempt]
  }

  function Fresh(id: nat): Connection {
    Connection(id, ServerIdle, false, true, false, false)
  }

  function LogConnect(m: Managed, success: bool): Managed {
    m.(log := m.log + [Connect(m.settings, success, m.connection, m.state)])
  }

  function Replace(m: Managed, now: int): Managed {
    m.(connection := Fresh(m.connection.id + 1), connectedAt := now, reconnectRequired := false,
       reconnected := true)
  }

  function ReconnectFrom(m: Managed, env: Env, attempt: nat): (Managed, ReconnectResult)
    requires attempt <= RECONNECT_ATTEMPTS
    decreases RECONNECT_ATTEMPTS - attempt
  {
    if attempt == RECONNECT_ATTEMPTS then (m, Exhausted)
    else if env.cut == Reconnecting(attempt) then (LogConnect(m, false), CutOff)
    else if Connects(env, attempt) then (Replace(LogConnect(m, true), env.now), Replaced)
    else ReconnectFrom(LogConnect(m, false), env, attempt + 1)
  }

  /** What the server makes of the statement, whatever the world would like. */
  function Resolve(c: Connection, control: TransactionControl, answer: Answer): Answer {
    if c.broken then ConnectionBroke
    else if answer.IsCarriedOut() && !Accepts(c.server, control) then Rejected
    else answer
  }

  function AfterAnswer(c: Connection, control: TransactionControl, answer: Answer, endsBlock: bool): Connection {
    match answer
    case Succeeded => c.(server := AfterSuccess(c.server, control))
    case SinkFailed => c.(server := AfterSuccess(c.server, control))
    case Unsent => c
    case LeftUnread(succeeds) =>
      var server := if succeeds then AfterSuccess(c.server, control)
                    else AfterRejection(c.server, control, endsBlock);
      c.(server := server, unread := true)
    case Rejected => c.(server := AfterRejection(c.server, control, endsBlock))
    case ConnectionBroke => c.(broken := true)
  }

  /** The capture is a query of its own: rejected inside a block, it aborts the block. */
  function AfterCapture(m: Managed, capture: Capture): Managed {
    match capture
    case Captured(settings) =>
      m.(settings := settings, settingsCurrent := true, log := m.log + [Completed(Some(settings))])
    case CaptureFailed(rejected) =>
      var server := if rejected then AfterRejection(m.connection.server, Other, false) else m.connection.server;
      m.(settingsCurrent := false, connection := m.connection.(server := server), log := m.log + [Completed(None)])
  }

  function Abandon(m: Managed): Managed {
    m.(connection := m.connection.(dropped := true))
  }

  function Finalize(m: Managed, control: TransactionControl, answer: Answer, env: Env): (Managed, CallResult) {
    if answer.Succeeded? then
      var moved := m.(state := TransitionTransactionState(m.state, control));
      if env.cut.Capturing? then (Abandon(moved), Dropped)
      else (AfterCapture(moved, env.capture), Returned(true))
    else
      (AfterError(m.(connection := Observe(m.connection, false, env.noticedAfter)), control), Returned(false))
  }

  function AfterError(m: Managed, control: TransactionControl): Managed {
    if !m.connection.alive then
      m.(reconnectRequired := true, state := if !m.state.Idle? || control.Begin? then Uncertain else m.state)
    else m.(state := if m.state.Active? then Failed else m.state)
  }

  function SubmitOnce(m: Managed, text: bytes, env: Env): (Managed, CallResult) {
    var control := Classify(text);
    var logged := m.(log := m.log + [Submit(text, m.connection)]);
    if env.cut.Executing? then (Abandon(logged), Dropped)
    else
      var answer := Resolve(m.connection, control, env.answer);
      var answered := logged.(connection := AfterAnswer(m.connection, control, answer, env.endsBlock));
      Finalize(answered, control, answer, env)
  }

  function Begun(m: Managed, env: Env): Managed {
    m.(connection := Observe(m.connection, env.breaks, env.noticedBefore))
  }

  datatype Preparation = Ready | Refused | PreparationDropped

  function Prepare(m: Managed, env: Env): (Managed, Preparation) {
    match GateOf(m, env.now)
    case Refuse => (m, Refused)
    case SubmitNow => (m, Ready)
    case ReconnectFirst =>
      var (ready, result) := ReconnectFrom(m, env, 0);
      (ready, match result case Replaced => Ready case Exhausted => Refused case CutOff => PreparationDropped)
  }

  function Call(m: Managed, text: bytes, env: Env): (Managed, CallResult) {
    if env.cut.BeforeStart? then (m, Dropped)
    else
      var (ready, preparation) := Prepare(Begun(m, env), env);
      match preparation
      case Ready => SubmitOnce(ready, text, env)
      case Refused => (ready, Returned(false))
      case PreparationDropped => (ready, Dropped)
  }

  function MarkUncertain(m: Managed): Managed {
    m.(state := Uncertain)
  }

  function RequireReconnect(m: Managed): Managed {
    if m.state.Idle? then m.(reconnectRequired := true) else MarkUncertain(m)
  }

  function Opened(connection: Connection, settings: Settings, now: int): Managed {
    Managed(connection, now, Idle, settings, true, false, false, [])
  }

  // ---- The object. ----

  class ManagedSession {
    var connection: Connection
    var connectedAt: int
    var state: TransactionState
    var settings: Settings
    var settingsCurrent: bool
    var reconnectRequired: bool
    var reconnected: bool
    ghost var log: seq<LogEntry>

    ghost function View(): Managed
      reads this
    {
      Managed(connection, connectedAt, state, settings, settingsCurrent, reconnectRequired, reconnected, log)
    }

    constructor (connection: Connection, settings: Settings, now: int)
      ensures View() == Opened(connection, settings, now)
    {
      this.connection := connection;
      this.connectedAt := now;
      this.state := Idle;
      this.settings := settings;
      this.settingsCurrent := true;
      this.reconnectRequired := false;
      this.reconnected := false;
      this.log := [];
    }

    method CurrentReconnectState(now: int) returns (r: ReconnectState)
      ensures r == ReconnectStateOf(View(), now)
    {
      if state.Uncertain? {
        return UncertainOutcome;
      } else if reconnectRequired || !connection.alive {
        return Required;
      } else if ConnectionIsDue(connectedAt, now) {
        return if state.Idle? then Due else Deferred;
      } else {
        return Connected;
      }
    }

    method TakeReconnected() returns (r: bool)
      modifies this`reconnected
      ensures r == old(reconnected) && !reconnected
    {
      r := reconnected;
      reconnected := false;
    }

    method SetUncertain()
      modifies this`state
      ensures View() == MarkUncertain(old(View()))
    {
      state := Uncertain;
    }

    method DemandReconnect()
      modifies this`state, this`reconnectRequired
      ensures View() == RequireReconnect(old(View()))
    {
      if state.Idle? {
        reconnectRequired := true;
      } else {
        SetUncertain();
      }
    }

    /** At most three attempts, from an idle boundary; the old connection stays until one succeeds. */
    method Reconnect(env: Env) returns (r: ReconnectResult)
      modifies this
      ensures (View(), r) == ReconnectFrom(old(View()), env, 0)
    {
      var attempt := 0;
      while attempt < RECONNECT_ATTEMPTS
        invariant attempt <= RECONNECT_ATTEMPTS
        invariant ReconnectFrom(View(), env, attempt) == ReconnectFrom(old(View()), env, 0)
      {
        ghost var before := View();
        if env.cut == Reconnecting(attempt) {
          log := log + [Connect(settings, false, connection, state)];
          return CutOff;
        }
        if Connects(env, attempt) {
          log := log + [Connect(settings, true, connection, state)];
          connection := Fresh(connection.id + 1);
          connectedAt := env.now;
          reconnectRequired := false;
          reconnected := true;
          return Replaced;
        }
        log := log + [Connect(settings, false, connection, state)];
        assert View() == LogConnect(before, false);
        attempt := attempt + 1;
      }
      return Exhausted;
    }

    /** Refuses, lets the statement through, or reconnects first. */
    method PrepareFor(env: Env) returns (r: Preparation)
      modifies this
      ensures (View(), r) == Prepare(old(View()), env)
    {
      if state.Uncertain? {
        return Refused;
      }
      var required := reconnectRequired || !connection.alive;
      if required && !state.Idle? {
        return Refused;
      }
      if required || (state.Idle? && ConnectionIsDue(connectedAt, env.now)) {
        if !settingsCurrent {
          return Refused;
        }
        var result := Reconnect(env);
        match result {
          case Replaced => return Ready;
          case Exhausted => return Refused;
          case CutOff => return PreparationDropped;
        }
      }
      return Ready;
    }

    method TakeCapture(capture: Capture)
      modifies this
      ensures View() == AfterCapture(old(View()), capture)
    {
      match capture {
        case Captured(captured) =>
          settings := captured;
          settingsCurrent := true;
          log := log + [Completed(Some(captured))];
        case CaptureFailed(rejected) =>
          settingsCurrent := false;
          if rejected {
            connection := connection.(server := AfterRejection(connection.server, Other, false));
          }
          log := log + [Completed(None)];
      }
    }

    method FinalizeWith(control: TransactionControl, answer: Answer, env: Env) returns (r: CallResult)
      modifies this
      ensures (View(), r) == Finalize(old(View()), control, answer, env)
    {
      hide AfterCapture;
      hide Observe;
      hide TransitionTransactionState;
      match answer {
        case Succeeded =>
          state := TransitionTransactionState(state, control);
          if env.cut.Capturing? {
            connection := connection.(dropped := true);
            return Dropped;
          }
          TakeCapture(env.capture);
          return Returned(true);
        case _ =>
          connection := Observe(connection, false, env.noticedAfter);
          NoteError(control);
          return Returned(false);
      }
    }

    /** A dead connection must be replaced, and costs an open or opening transaction; an error fails one. */
    method NoteError(control: TransactionControl)
      modifies this`state, this`reconnectRequired
      ensures View() == AfterError(old(View()), control)
    {
      if !connection.alive {
        reconnectRequired := true;
        if !state.Idle? || control.Begin? {
          state := Uncertain;
        }
      } else if state.Active? {
        state := Failed;
      }
    }

    /** One call: classify, prepare, submit once, finalize. */
    method Execute(text: bytes, env: Env) returns (r: CallResult)
      modifies this
      ensures (View(), r) == Call(old(View()), text, env)
    {
      hide Classify;
      if env.cut.BeforeStart? {
        return Dropped;
      }
      connection := Observe(connection, env.breaks, env.noticedBefore);
      var control := Classify(text);
      var preparation := PrepareFor(env);
      match preparation {
        case Refused => return Returned(false);
        case PreparationDropped => return Dropped;
        case Ready =>
      }
      log := log + [Submit(text, connection)];
      if env.cut.Executing? {
        connection := connection.(dropped := true);
        return Dropped;
      }
      var answer := Resolve(connection, control, env.answer);
      connection := AfterAnswer(connection, control, answer, env.endsBlock);
      r := FinalizeWith(control, answer, env);
    }
  }
}
