// The two drivers that may walk away from a call: statements under user signals
// (src/shell/mod.rs) and catalog queries under a deadline (src/sql/metadata.rs).

module Signals {
  import opened Bytes
  import opened Wrappers
  import opened Classification
  import opened Session

  datatype QuerySignal = Interrupt | Terminate

  /** What wakes a waiting select: the statement, the cancel request, or the signal channel. */
  datatype Wake = Finished | CancelDone(ok: bool) | Received(signal: Option<QuerySignal>)

  /** How the coordination ends: the statement finished, or its future is dropped. */
  datatype Verdict = Finishes(cancellationFailed: bool) | Stops(cancellationFailed: bool, shellError: bool)

  /** Waiting for the statement or a signal; a wake that this select does not wait for is passed over. */
  function Coordinate(schedule: seq<Wake>, hasHandle: bool, interrupted: bool, failed: bool): (r: Verdict)
    ensures r.Stops? ==> r.shellError || r.cancellationFailed
    decreases |schedule|
  {
    if schedule == [] then Finishes(failed)
    else
      var rest := schedule[1..];
      match schedule[0]
      case Finished => Finishes(failed)
      case CancelDone(_) => Coordinate(rest, hasHandle, interrupted, failed)
      case Received(None) => Stops(failed, true)
      case Received(Some(Terminate)) => Stops(failed, true)
      case Received(Some(Interrupt)) =>
        if interrupted then Stops(failed, true)
        else if !hasHandle then Stops(true, false)
        else Cancelling(rest, failed)
  }

  /** Waiting for the cancel request or another signal. */
  function Cancelling(schedule: seq<Wake>, failed: bool): (r: Verdict)
    ensures r.Stops? ==> r.shellError || r.cancellationFailed
    decreases |schedule|
  {
    if schedule == [] then Finishes(failed)
    else
      var rest := schedule[1..];
      match schedule[0]
      case Finished => Cancelling(rest, failed)
      case CancelDone(ok) => Coordinate(rest, true, true, failed || !ok)
      case Received(None) => Stops(true, false)
      case Received(Some(_)) => Stops(failed, true)
  }

  datatype SignalOutcome = Execution(cancellationFailed: bool) | ShellError

  /** A dropped call is cut somewhere: before it starts, if the world names no later point. */
  function Cut(env: Env): Env {
    if env.cut.NotCut? then env.(cut := BeforeStart) else env
  }

  function Uncut(env: Env): Env {
    env.(cut := NotCut)
  }

  function Interactive(m: Managed, text: bytes, env: Env, verdict: Verdict): Managed {
    match verdict
    case Finishes(failed) =>
      var (after, _) := Call(m, text, Uncut(env));
      if failed then MarkUncertain(after) else after
    case Stops(_, _) => MarkUncertain(Call(m, text, Cut(env)).0)
  }

  /** The coordination loop: `interrupted` and `failed` are updated until a branch breaks out. */
  method CoordinateSignals(schedule: seq<Wake>, hasHandle: bool) returns (verdict: Verdict)
    ensures verdict == Coordinate(schedule, hasHandle, false, false)
  {
    var interrupted, failed := false, false;
    var at := 0;
    while at < |schedule|
      invariant at <= |schedule| && (interrupted ==> hasHandle)
      invariant Coordinate(schedule, hasHandle, false, false)
             == Coordinate(schedule[at..], hasHandle, interrupted, failed)
    {
      var wake := schedule[at];
      assert schedule[at..][1..] == schedule[at + 1..];
      at := at + 1;
      match wake {
        case Finished => return Finishes(failed);
        case CancelDone(_) =>
        case Received(None) => return Stops(failed, true);
        case Received(Some(Terminate)) => return Stops(failed, true);
        case Received(Some(Interrupt)) =>
          if interrupted {
            return Stops(failed, true);
          }
          interrupted := true;
          if !hasHandle {
            return Stops(true, false);
          }
          var ended: Option<Verdict>;
          at, failed, ended := AwaitCancel(schedule, at, failed);
          if ended.Some? {
            return ended.value;
          }
      }
    }
    assert schedule[at..] == [];
    return Finishes(failed);
  }

  /** The inner select, repeated until the cancel request or a signal decides it. */
  method AwaitCancel(schedule: seq<Wake>, start: nat, before: bool)
    returns (at: nat, failed: bool, ended: Option<Verdict>)
    requires start <= |schedule|
    ensures start <= at <= |schedule|
    ensures Cancelling(schedule[start..], before)
         == match ended case Some(v) => v case None => Coordinate(schedule[at..], true, true, failed)
  {
    at, failed, ended := start, before, None;
    while at < |schedule|
      invariant start <= at <= |schedule| && failed == before && ended == None
      invariant Cancelling(schedule[start..], before) == Cancelling(schedule[at..], failed)
    {
      var wake := schedule[at];
      assert schedule[at..][1..] == schedule[at + 1..];
      at := at + 1;
      match wake {
        case Finished =>
        case CancelDone(ok) =>
          failed := failed || !ok;
          return;
        case Received(None) =>
          ended := Some(Stops(true, false));
          return;
        case Received(Some(_)) =>
          ended := Some(Stops(failed, true));
          return;
      }
    }
    assert schedule[at..] == [];
  }

  /** Every way out other than completion, and a completion whose cancel failed, leaves the session uncertain. */
  method ExecuteWithSignals(session: ManagedSession, text: bytes, env: Env, schedule: seq<Wake>, hasHandle: bool)
    returns (outcome: SignalOutcome)
    modifies session
    ensures var verdict := Coordinate(schedule, hasHandle, false, false);
            && session.View() == Interactive(old(session.View()), text, env, verdict)
            && (verdict.Stops? || verdict.cancellationFailed ==> session.state == Uncertain)
            && outcome == (if verdict.Stops? && verdict.shellError then ShellError
                           else Execution(verdict.cancellationFailed))
  {
    var verdict := CoordinateSignals(schedule, hasHandle);
    match verdict {
      case Finishes(failed) =>
        var _ := session.Execute(text, Uncut(env));
        outcome := Execution(failed);
      case Stops(failed, shellError) =>
        var _ := session.Execute(text, Cut(env));
        outcome := if shellError then ShellError else Execution(failed);
    }
    if outcome.ShellError? || outcome.cancellationFailed {
      session.SetUncertain();
    }
  }

  // ---- Catalog queries. ----

  /** How the waits of a catalog query turn out. */
  datatype Timing = NoTimeLeft | InTime | SettledAfterCancel | Unsettled

  function LoadRows(m: Managed, text: bytes, env: Env, timing: Timing): Managed {
    match timing
    case NoTimeLeft => m
    case InTime => Call(m, text, Uncut(env)).0
    case SettledAfterCancel => Call(m, text, Uncut(env)).0
    case Unsettled => RequireReconnect(Call(m, text, Cut(env)).0)
  }

  /**
   * One catalog query; an unsettled one costs the connection, or the certainty about the
   * session. The answer is stale unless the call succeeded in time and the sink kept
   * every row.
   */
  method LoadCatalogRows(session: ManagedSession, text: bytes, env: Env, timing: Timing, truncated: bool)
    returns (stale: bool)
    modifies session
    ensures session.View() == LoadRows(old(session.View()), text, env, timing)
    ensures timing.Unsettled? ==> session.state == Uncertain || session.reconnectRequired
    ensures !stale <==>
              timing.InTime? && !truncated && Call(old(session.View()), text, Uncut(env)).1 == Returned(true)
  {
    if timing.NoTimeLeft? {
      return true;
    }
    if timing.Unsettled? {
      var _ := session.Execute(text, Cut(env));
      session.DemandReconnect();
      return true;
    }
    var result := session.Execute(text, Uncut(env));
    stale := !timing.InTime? || result != Returned(true) || truncated;
  }
}
