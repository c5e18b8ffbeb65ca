// A response left unread by a failing sink: exactly when a later statement is
// submitted on the connection all the same.

module SessionUnread {
  import opened Bytes
  import opened Wrappers
  import opened Classification
  import opened Session
  import opened Signals
  import opened SessionRuns
  import opened SessionTracking

  /** The session will not submit on a connection on which it has walked away from a request. */
  predicate Guarded(m: Managed) {
    m.connection.Abandoned() ==> m.state.Uncertain? || m.reconnectRequired
  }

  /** No statement was submitted on a connection with a request that was walked away from. */
  predicate Clean(log: seq<LogEntry>) {
    forall k :: 0 <= k < |log| && log[k].Submit? ==> !log[k].connection.Abandoned()
  }

  /** The call submits its statement and returns an error with the response unread. */
  predicate LeavesUnread(m: Managed, text: bytes, env: Env) {
    && !env.cut.BeforeStart? && !env.cut.Executing?
    && var (ready, preparation) := Prepare(Begun(m, env), env);
       preparation.Ready? && Resolve(ready.connection, Classify(text), env.answer).LeftUnread?
  }

  /** The driver marks the session for reasons of its own. */
  predicate DriverMarks(a: Action) {
    match a
    case Batch(_, _) => false
    case Shell(_, _, schedule, hasHandle) =>
      var verdict := Coordinate(schedule, hasHandle, false, false);
      verdict.Stops? || verdict.cancellationFailed
    case Catalog(_, _, timing) => timing.Unsettled?
  }

  /** The call leaves a response unread, and its driver does nothing about it. */
  predicate Exposes(m: Managed, a: Action) {
    && CallEnv(a).Some? && LeavesUnread(m, a.text, CallEnv(a).value)
    && !DriverMarks(a)
  }

  /** Some action exposes a response, and the program goes on. A batch that fails ends it. */
  predicate Exposed(m: Managed, actions: seq<Action>)
    decreases |actions|
  {
    && actions != [] && !Ends(m, actions[0])
    && (Exposes(m, actions[0]) || Exposed(Step(m, actions[0]), actions[1..]))
  }

  // ---- One call. ----

  lemma {:induction false} CleanReconnect(m: Managed, env: Env, attempt: nat)
    requires attempt <= RECONNECT_ATTEMPTS && Clean(m.log)
    ensures Clean(ReconnectFrom(m, env, attempt).0.log)
    decreases RECONNECT_ATTEMPTS - attempt
  {
    if attempt < RECONNECT_ATTEMPTS && env.cut != Reconnecting(attempt) && !Connects(env, attempt) {
      CleanReconnect(LogConnect(m, false), env, attempt + 1);
    }
  }

  lemma CleanPrepare(m: Managed, env: Env)
    requires Guarded(m) && Clean(m.log)
    ensures var (ready, preparation) := Prepare(m, env);
            && Clean(ready.log)
            && (preparation.Ready? ==> Available(ready))
            && (!preparation.Ready? ==> ready == m.(log := ready.log))
  {
    hide Clean;
    hide ReconnectFrom;
    if GateOf(m, env.now).ReconnectFirst? {
      CleanReconnect(m, env, 0);
      var entries := ReconnectTries(m, env, 0);
    }
  }

  /** A session that may submit, on a connection it has not walked away from. */
  predicate Available(m: Managed) {
    !m.state.Uncertain? && !m.reconnectRequired && m.connection.alive && !m.connection.Abandoned()
  }

  lemma CleanSubmit(m: Managed, text: bytes, env: Env)
    requires Available(m) && Clean(m.log)
    ensures Clean(SubmitOnce(m, text, env).0.log)
  {
    hide Classify;
    hide Resolve;
    hide AfterAnswer;
    hide TransitionTransactionState;
    hide Observe;
  }

  /** The session is open to a next statement with the response of the last one unread. */
  predicate OpenWithUnread(m: Managed) {
    !m.state.Uncertain? && !m.reconnectRequired && m.connection.alive && m.connection.unread
  }

  lemma SubmitLeaves(m: Managed, text: bytes, env: Env)
    requires Available(m)
    ensures var after := SubmitOnce(m, text, env).0;
            if !env.cut.Executing? && Resolve(m.connection, Classify(text), env.answer).LeftUnread?
            then OpenWithUnread(after)
            else !after.connection.unread && (after.connection.dropped ==> !env.cut.NotCut?)
  {
    hide Classify;
    hide TransitionTransactionState;
  }

  lemma CallLeaves(m: Managed, text: bytes, env: Env)
    requires Guarded(m) && Clean(m.log)
    ensures var after := Call(m, text, env).0;
            && Clean(after.log)
            && (LeavesUnread(m, text, env) ==> OpenWithUnread(after))
            && (!LeavesUnread(m, text, env) ==> Guarded(after) || (!after.connection.unread && !env.cut.NotCut?))
  {
    hide Clean;
    hide Classify;
    hide Prepare;
    hide SubmitOnce;
    if !env.cut.BeforeStart? {
      var begun := Begun(m, env);
      assert Guarded(begun);
      CleanPrepare(begun, env);
      var (ready, preparation) := Prepare(begun, env);
      if preparation.Ready? {
        CleanSubmit(ready, text, env);
        SubmitLeaves(ready, text, env);
      }
    }
  }

  lemma MarkedOrCalled(m: Managed, a: Action)
    ensures !DriverMarks(a) ==> Step(m, a) == AfterCall(m, a) && (CallEnv(a).Some? ==> CallEnv(a).value.cut.NotCut?)
    ensures DriverMarks(a) ==> || Step(m, a) == MarkUncertain(AfterCall(m, a))
                               || Step(m, a) == RequireReconnect(AfterCall(m, a))
  {
    hide Call;
  }

  /** From a guarded session, an action leaves it guarded if and only if it does not expose a response. */
  lemma StepGuards(m: Managed, a: Action)
    requires Guarded(m) && Clean(m.log)
    ensures Clean(Step(m, a).log)
    ensures Guarded(Step(m, a)) <==> !Exposes(m, a)
    ensures Exposes(m, a) ==> OpenWithUnread(Step(m, a))
  {
    hide Step;
    hide Clean;
    hide Call;
    hide LeavesUnread;
    hide DriverMarks;
    MarkedOrCalled(m, a);
    if CallEnv(a).Some? {
      CallLeaves(m, a.text, CallEnv(a).value);
    }
  }

  // ---- What an exposed response costs, and that nothing else does. ----

  const NEXT: bytes := [SEMICOLON]

  /** The next statement typed into the shell. */
  function NextStatement(m: Managed): Action {
    Shell(NEXT, CALM.(now := m.connectedAt), [], true)
  }

  /** It is submitted, whatever is unread. */
  lemma SubmitsUnclean(m: Managed)
    requires OpenWithUnread(m)
    ensures !Clean(Step(m, NextStatement(m)).log)
  {
    hide Call;
    var env := CALM.(now := m.connectedAt);
    assert Begun(m, env) == m;
    GrowsBy(m, NEXT, env);
    var log := Step(m, NextStatement(m)).log;
    assert log[|m.log|] == Submit(NEXT, m.connection);
  }

  /** After some part of a run, a next action submits on a connection with an unread response. */
  predicate BreaksAt(m: Managed, actions: seq<Action>, i: nat, next: Action)
    requires i <= |actions|
  {
    !Clean(Run(m, actions[..i] + [next]).log)
  }

  lemma RunFirst(m: Managed, actions: seq<Action>, i: nat, next: Action)
    requires 0 < i <= |actions|
    ensures BreaksAt(m, actions, i, next)
         == if Ends(m, actions[0]) then !Clean(Step(m, actions[0]).log)
            else BreaksAt(Step(m, actions[0]), actions[1..], i - 1, next)
  {
    hide Step;
    hide Ends;
    hide Clean;
    assert (actions[..i] + [next])[1..] == actions[1..][..i - 1] + [next];
  }

  lemma RunNext(m: Managed, actions: seq<Action>, next: Action)
    ensures BreaksAt(m, actions, 0, next) == !Clean(Step(m, next).log)
  {
    hide Step;
    hide Run;
    hide Clean;
    assert actions[..0] + [next] == [next];
    RunOne(m, next);
  }

  lemma {:induction false} UnexposedIsClean(m: Managed, actions: seq<Action>, i: nat, next: Action)
    requires Guarded(m) && Clean(m.log) && !Exposed(m, actions) && i <= |actions|
    ensures !BreaksAt(m, actions, i, next)
    decreases i
  {
    hide Step;
    hide Clean;
    hide Guarded;
    hide Exposes;
    hide Ends;
    if i == 0 {
      RunNext(m, actions, next);
      StepGuards(m, next);
    } else {
      RunFirst(m, actions, i, next);
      StepGuards(m, actions[0]);
      if !Ends(m, actions[0]) {
        UnexposedIsClean(Step(m, actions[0]), actions[1..], i - 1, next);
      }
    }
  }

  lemma {:induction false} ExposedBreaks(m: Managed, actions: seq<Action>) returns (i: nat, next: Action)
    requires Guarded(m) && Clean(m.log)
    ensures Exposed(m, actions) ==> i <= |actions| && BreaksAt(m, actions, i, next)
    decreases |actions|
  {
    hide Step;
    hide Clean;
    hide Guarded;
    hide Exposes;
    hide Ends;
    hide NextStatement;
    hide BreaksAt;
    if !Exposed(m, actions) {
      return 0, NextStatement(m);
    }
    var after := Step(m, actions[0]);
    StepGuards(m, actions[0]);
    if Exposes(m, actions[0]) {
      i, next := 1, NextStatement(after);
      SubmitsUnclean(after);
      RunNext(after, actions[1..], next);
    } else {
      i, next := ExposedBreaks(after, actions[1..]);
      i := i + 1;
    }
    RunFirst(m, actions, i, next);
  }

  /**
   * The exact condition: whatever comes next at any point of a run is submitted on a
   * connection without an abandoned request, if and only if no call of the run returns
   * an error with the response unread while its driver leaves the session unmarked and
   * goes on.
   */
  lemma CleanIffUnexposed(id: nat, login: Settings, now: int, actions: seq<Action>)
    ensures var start := Opened(Fresh(id), login, now);
            (forall i: nat, next: Action :: i <= |actions| ==> !BreaksAt(start, actions, i, next))
            <==> !Exposed(start, actions)
  {
    hide BreaksAt;
    hide Exposed;
    var start := Opened(Fresh(id), login, now);
    if Exposed(start, actions) {
      var i, next := ExposedBreaks(start, actions);
    } else {
      forall i: nat, next: Action | i <= |actions|
        ensures !BreaksAt(start, actions, i, next)
      {
        UnexposedIsClean(start, actions, i, next);
      }
    }
  }

  /** A statement typed into the shell whose sink fails on a row, and the statement after it. */
  lemma UnreadRunIsUnclean(first: bytes)
    ensures var start := Opened(Fresh(0), [], 0);
            var failing := Shell(first, CALM.(answer := LeftUnread(false)), [], true);
            !Clean(Run(start, [failing, Shell(NEXT, CALM, [], true)]).log)
  {
    hide Step;
    hide Clean;
    var start := Opened(Fresh(0), [], 0);
    var failing := Shell(first, CALM.(answer := LeftUnread(false)), [], true);
    UnreadExposes(first);
    StepGuards(start, failing);
    var middle := Step(start, failing);
    SubmitsUnclean(middle);
    var second := NextStatement(middle);
    assert second == Shell(NEXT, CALM, [], true);
    assert [failing, second][1..] == [second];
    RunOne(middle, second);
  }

  lemma UnreadExposes(first: bytes)
    ensures var start := Opened(Fresh(0), [], 0);
            var failing := Shell(first, CALM.(answer := LeftUnread(false)), [], true);
            Exposes(start, failing) && Step(start, failing).connectedAt == 0 && Guarded(start) && Clean(start.log)
  {
    hide Classify;
  }

  /** A batch statement that leaves its response unread is the last one of its program. */
  lemma BatchNeverExposes(m: Managed, a: Action)
    requires a.Batch? && Exposes(m, a)
    ensures Ends(m, a)
  {
    hide Classify;
    hide Prepare;
  }
}
