// The tracked transaction state against the state of the server, over every run.

module SessionTracking {
  import opened Bytes
  import opened Wrappers
  import opened Classification
  import opened Session
  import opened Signals
  import opened SessionRuns

  /** The flag of a connection does not report a loss that never happened. */
  predicate Sound(m: Managed) {
    m.connection.alive || m.connection.broken
  }

  /** The connection has not broken, and no future of a call on it was dropped. */
  predicate Live(m: Managed) {
    !m.connection.broken && !m.connection.dropped
  }

  /** On a live connection, tracked idle means the server is idle. */
  predicate IdleIsTrue(m: Managed) {
    Live(m) && m.state.Idle? ==> m.connection.server.ServerIdle?
  }

  /**
   * On a live connection, tracked idle means the server is idle and tracked active
   * means it is in a block. A tracked failure says nothing, since ROLLBACK TO repairs
   * the block, and neither does an uncertain state.
   */
  predicate Tracks(m: Managed) {
    && IdleIsTrue(m)
    && (Live(m) && m.state.Active? ==> m.connection.server.InBlock?)
  }

  /** From an idle session, the server carries a BEGIN out and the call returns an error. */
  predicate LosesBegin(m: Managed, text: bytes, env: Env) {
    var control := Classify(text);
    var answer := Resolve(m.connection, control, env.answer);
    !env.cut.Executing? && answer.IsCarriedOut() && !answer.Succeeded? && control.Begin? && m.state.Idle?
  }

  /** The capture query behind a success is rejected, with the session left active. */
  predicate LosesBlock(m: Managed, text: bytes, env: Env) {
    var control := Classify(text);
    && !env.cut.Executing? && !env.cut.Capturing?
    && Resolve(m.connection, control, env.answer).Succeeded? && env.capture == CaptureFailed(true)
    && TransitionTransactionState(m.state, control).Active?
  }

  /** The two ways in which a statement that is submitted from `m` misleads the session. */
  predicate MisleadsSubmit(m: Managed, text: bytes, env: Env) {
    LosesBegin(m, text, env) || LosesBlock(m, text, env)
  }

  predicate Misleads(m: Managed, text: bytes, env: Env) {
    && !env.cut.BeforeStart?
    && var (ready, preparation) := Prepare(Begun(m, env), env);
       preparation.Ready? && MisleadsSubmit(ready, text, env)
  }

  predicate LosesBeginIn(m: Managed, text: bytes, env: Env) {
    && !env.cut.BeforeStart?
    && var (ready, preparation) := Prepare(Begun(m, env), env);
       preparation.Ready? && LosesBegin(ready, text, env)
  }

  /** A session that may submit, on a connection that is taken to be live. */
  predicate Submittable(m: Managed) {
    !m.state.Uncertain? && m.connection.alive && !m.connection.dropped
  }

  lemma TracksSuccess(m: Managed, text: bytes, env: Env)
    requires Submittable(m) && !env.cut.Executing?
    requires Resolve(m.connection, Classify(text), env.answer).Succeeded?
    ensures var after := SubmitOnce(m, text, env).0;
            && Sound(after)
            && (IdleIsTrue(m) ==> IdleIsTrue(after))
            && (Tracks(m) ==> (Tracks(after) <==> !MisleadsSubmit(m, text, env)))
  {
    hide Classify;
    hide Observe;
  }

  lemma TracksFailure(m: Managed, text: bytes, env: Env)
    requires Submittable(m) && !env.cut.Executing?
    requires !Resolve(m.connection, Classify(text), env.answer).Succeeded?
    ensures var after := SubmitOnce(m, text, env).0;
            && Sound(after)
            && (IdleIsTrue(m) ==> (IdleIsTrue(after) <==> !LosesBegin(m, text, env)))
            && (Tracks(m) ==> (Tracks(after) <==> !LosesBegin(m, text, env)))
  {
    hide Classify;
    hide AfterCapture;
    hide TransitionTransactionState;
  }

  lemma TracksSubmit(m: Managed, text: bytes, env: Env)
    requires Submittable(m)
    ensures var after := SubmitOnce(m, text, env).0;
            && Sound(after)
            && (IdleIsTrue(m) ==> (IdleIsTrue(after) <==> !LosesBegin(m, text, env)))
            && (Tracks(m) ==> (Tracks(after) <==> !MisleadsSubmit(m, text, env)))
  {
    hide Classify;
    hide Finalize;
    hide Resolve;
    hide AfterAnswer;
    hide Tracks;
    hide IdleIsTrue;
    if env.cut.Executing? {
      TracksDropped(m, text, env);
    } else if Resolve(m.connection, Classify(text), env.answer).Succeeded? {
      TracksSuccess(m, text, env);
    } else {
      TracksFailure(m, text, env);
    }
  }

  lemma TracksDropped(m: Managed, text: bytes, env: Env)
    requires Submittable(m) && env.cut.Executing?
    ensures var after := SubmitOnce(m, text, env).0; Sound(after) && IdleIsTrue(after) && Tracks(after)
  {
    hide Classify;
    hide Finalize;
  }

  /** What a driver owes after it has dropped a future, with a flag that reports no false loss. */
  predicate Sane(m: Managed) {
    Sound(m) && (m.connection.dropped ==> m.state.Uncertain? || m.reconnectRequired)
  }

  lemma TracksPrepare(m: Managed, env: Env)
    requires Sane(m)
    ensures var (ready, preparation) := Prepare(m, env);
            && Sound(ready)
            && (preparation.Ready? ==> Submittable(ready))
            && (IdleIsTrue(m) ==> IdleIsTrue(ready)) && (Tracks(m) ==> Tracks(ready))
  {
    hide ReconnectFrom;
    if GateOf(m, env.now).ReconnectFirst? {
      var entries := ReconnectTries(m, env, 0);
    }
  }

  /**
   * A call keeps "idle is true" if and only if it loses no BEGIN, and tracking if and
   * only if it is not misled.
   */
  lemma TracksCall(m: Managed, text: bytes, env: Env)
    requires Sane(m)
    ensures var after := Call(m, text, env).0;
            && Sound(after)
            && (IdleIsTrue(m) ==> (IdleIsTrue(after) <==> !LosesBeginIn(m, text, env)))
            && (Tracks(m) ==> (Tracks(after) <==> !Misleads(m, text, env)))
  {
    hide Prepare;
    hide SubmitOnce;
    hide LosesBegin;
    hide MisleadsSubmit;
    var begun := Begun(m, env);
    assert Sane(begun) && (IdleIsTrue(m) ==> IdleIsTrue(begun)) && (Tracks(m) ==> Tracks(begun));
    TracksPrepare(begun, env);
    var (ready, preparation) := Prepare(begun, env);
    if preparation.Ready? {
      TracksSubmit(ready, text, env);
    }
  }

  // ---- Over every run. ----

  /** The action loses a BEGIN, and the session stays certain about its state. */
  predicate Loses(m: Managed, a: Action) {
    CallEnv(a).Some? && LosesBeginIn(m, a.text, CallEnv(a).value) && !Step(m, a).state.Uncertain?
  }

  /** The action misleads the session, which stays certain about its state. */
  predicate MisleadsIn(m: Managed, a: Action) {
    CallEnv(a).Some? && Misleads(m, a.text, CallEnv(a).value) && !Step(m, a).state.Uncertain?
  }

  ghost predicate Invariant(m: Managed, login: Settings) {
    Safe(m, login) && Sound(m)
  }

  lemma MarkTracks(m: Managed)
    ensures var marked := MarkUncertain(m);
            Tracks(marked) && IdleIsTrue(marked) && (Sound(m) ==> Sound(marked)) && marked.state.Uncertain?
    ensures var required := RequireReconnect(m);
            && (Sound(m) ==> Sound(required))
            && (if m.state.Idle? then IdleIsTrue(required) == IdleIsTrue(m) && Tracks(required) == Tracks(m)
                else IdleIsTrue(required) && Tracks(required))
            && (required.state.Uncertain? <==> !m.state.Idle?)
  {
  }

  lemma UntrueIsCertain(m: Managed)
    ensures !IdleIsTrue(m) ==> m.state.Idle?
    ensures !Tracks(m) ==> !m.state.Uncertain?
  {
  }

  /** The same for an action, whose driver may still mark the session. */
  lemma TracksStep(m: Managed, a: Action, login: Settings)
    requires Invariant(m, login)
    ensures Invariant(Step(m, a), login)
    ensures IdleIsTrue(m) ==> (IdleIsTrue(Step(m, a)) <==> !Loses(m, a))
    ensures Tracks(m) ==> (Tracks(Step(m, a)) <==> !MisleadsIn(m, a))
  {
    hide Call;
    hide Step;
    hide Misleads;
    hide LosesBeginIn;
    hide SafeLog;
    hide Tracks;
    hide IdleIsTrue;
    hide Sound;
    StepIsCallAndMark(m, a);
    SafeStep(m, a, login);
    var called := AfterCall(m, a);
    MarkTracks(called);
    UntrueIsCertain(called);
    UntrueIsCertain(Step(m, a));
    if CallEnv(a).Some? {
      SaneInvariant(m, login);
      TracksCall(m, a.text, CallEnv(a).value);
    }
  }

  lemma SaneInvariant(m: Managed, login: Settings)
    requires Invariant(m, login)
    ensures Sane(m)
  {
  }

  lemma StartTracks(id: nat, login: Settings, now: int)
    ensures var start := Opened(Fresh(id), login, now);
            Invariant(start, login) && IdleIsTrue(start) && Tracks(start) && GivesUpNoBlock(start.log)
  {
  }

  /**
   * Over every run: after each part of it tracked idle means that the server is idle, if
   * and only if no action loses a BEGIN while the session stays certain.
   */
  lemma EveryRunKeepsIdle(id: nat, login: Settings, now: int, actions: seq<Action>)
    ensures var start := Opened(Fresh(id), login, now);
            (forall i: nat :: i <= |actions| ==> IdleIsTrue(Run(start, actions[..i]))) <==> Never(Loses, start, actions)
  {
    hide Step;
    hide Run;
    hide Invariant;
    hide IdleIsTrue;
    hide Loses;
    var start := Opened(Fresh(id), login, now);
    StartTracks(id, login, now);
    forall n: Managed, a: Action | Invariant(n, login) && IdleIsTrue(n)
      ensures Invariant(Step(n, a), login) && (IdleIsTrue(Step(n, a)) <==> !Loses(n, a))
    {
      TracksStep(n, a, login);
    }
    AlwaysIffNever((n: Managed) => Invariant(n, login), IdleIsTrue, Loses, start, actions);
    AlwaysIsThroughout(IdleIsTrue, start, actions);
  }

  /**
   * Over every run: after each part of it the tracked state is right, if and only if no
   * action misleads the session while it stays certain.
   */
  lemma EveryRunTracks(id: nat, login: Settings, now: int, actions: seq<Action>)
    ensures var start := Opened(Fresh(id), login, now);
            (forall i: nat :: i <= |actions| ==> Tracks(Run(start, actions[..i]))) <==> Never(MisleadsIn, start, actions)
  {
    hide Step;
    hide Run;
    hide Invariant;
    hide Tracks;
    hide MisleadsIn;
    var start := Opened(Fresh(id), login, now);
    StartTracks(id, login, now);
    forall n: Managed, a: Action | Invariant(n, login) && Tracks(n)
      ensures Invariant(Step(n, a), login) && (Tracks(Step(n, a)) <==> !MisleadsIn(n, a))
    {
      TracksStep(n, a, login);
    }
    AlwaysIffNever((n: Managed) => Invariant(n, login), Tracks, MisleadsIn, start, actions);
    AlwaysIsThroughout(Tracks, start, actions);
  }

  // ---- What a reconnect gives up. ----

  /** A connector call gives up a connection that is dead, walked away from, or idle on the server. */
  predicate GivesUpNothing(entry: LogEntry) {
    entry.Connect? ==> entry.replaced.broken || entry.replaced.dropped || entry.replaced.server.ServerIdle?
  }

  predicate GivesUpNoBlock(log: seq<LogEntry>) {
    forall k :: 0 <= k < |log| ==> GivesUpNothing(log[k])
  }

  /** Tracked idle with a transaction open on a live connection. */
  predicate Stranded(m: Managed) {
    Live(m) && m.state.Idle? && !m.connection.server.ServerIdle?
  }

  /** Stranded, with settings that allow a reconnect. */
  predicate InPeril(m: Managed) {
    Stranded(m) && m.settingsCurrent
  }

  lemma SubmitKeepsConnects(m: Managed, text: bytes, env: Env)
    requires GivesUpNoBlock(m.log)
    ensures GivesUpNoBlock(SubmitOnce(m, text, env).0.log)
  {
    hide Classify;
    hide Resolve;
    hide AfterAnswer;
    hide Observe;
  }

  lemma {:induction false} ReconnectGivesUpNothing(m: Managed, env: Env, attempt: nat)
    requires attempt <= RECONNECT_ATTEMPTS && GivesUpNoBlock(m.log) && m.state.Idle? && !Stranded(m)
    ensures GivesUpNoBlock(ReconnectFrom(m, env, attempt).0.log)
    decreases RECONNECT_ATTEMPTS - attempt
  {
    if attempt < RECONNECT_ATTEMPTS && env.cut != Reconnecting(attempt) && !Connects(env, attempt) {
      ReconnectGivesUpNothing(LogConnect(m, false), env, attempt + 1);
    }
  }

  /** Only a session in peril gives up a block. */
  lemma CallGivesUpNothing(m: Managed, text: bytes, env: Env)
    requires GivesUpNoBlock(m.log) && !InPeril(m)
    ensures GivesUpNoBlock(Call(m, text, env).0.log)
  {
    hide GivesUpNoBlock;
    hide ReconnectFrom;
    hide SubmitOnce;
    var begun := Begun(m, env);
    if GateOf(begun, env.now).ReconnectFirst? {
      ReconnectGivesUpNothing(begun, env, 0);
    }
    var (ready, preparation) := Prepare(begun, env);
    SubmitKeepsConnects(ready, text, env);
  }

  lemma StepGivesUpNothing(m: Managed, a: Action)
    requires GivesUpNoBlock(m.log) && !InPeril(m)
    ensures GivesUpNoBlock(Step(m, a).log)
  {
    hide Call;
    hide Step;
    hide InPeril;
    hide GivesUpNoBlock;
    StepIsCallAndMark(m, a);
    if CallEnv(a).Some? {
      CallGivesUpNothing(m, a.text, CallEnv(a).value);
    }
  }

  /**
   * A stranded session and an undisturbed statement for which a reconnect is due or
   * required: the block is given up exactly when the settings are current.
   */
  lemma DueCallGivesUp(m: Managed, text: bytes, env: Env)
    requires Stranded(m) && Sound(m) && GivesUpNoBlock(m.log)
    requires env.cut.NotCut? && !env.breaks
    requires m.reconnectRequired || ConnectionIsDue(m.connectedAt, env.now)
    ensures GivesUpNoBlock(Call(m, text, env).0.log) <==> !m.settingsCurrent
  {
    hide Call;
    assert Begun(m, env) == m;
    GrowsBy(m, text, env);
    var log := Call(m, text, env).0.log;
    if m.settingsCurrent {
      assert log[|m.log|] == Connect(m.settings, Connects(env, 0), m.connection, m.state);
      assert !GivesUpNothing(log[|m.log|]);
    }
  }

  /** A lost BEGIN strands a session that was not. */
  lemma LossStrands(m: Managed, a: Action, login: Settings)
    requires Invariant(m, login) && IdleIsTrue(m)
    ensures Loses(m, a) <==> Stranded(Step(m, a))
  {
    hide Step;
    hide Loses;
    hide Invariant;
    TracksStep(m, a, login);
  }

  /** Some point of a run, with the program still going on, is perilous. */
  predicate Perilous(m: Managed, actions: seq<Action>)
    decreases |actions|
  {
    InPeril(m) || (actions != [] && !Ends(m, actions[0]) && Perilous(Step(m, actions[0]), actions[1..]))
  }

  /** After some part of a run, a next action gives up a block. */
  predicate GivesUpAt(m: Managed, actions: seq<Action>, i: nat, next: Action)
    requires i <= |actions|
  {
    !GivesUpNoBlock(Run(m, actions[..i] + [next]).log)
  }

  lemma GivesUpLater(m: Managed, actions: seq<Action>, i: nat, next: Action)
    requires 0 < i <= |actions|
    ensures GivesUpAt(m, actions, i, next)
         == if Ends(m, actions[0]) then !GivesUpNoBlock(Step(m, actions[0]).log)
            else GivesUpAt(Step(m, actions[0]), actions[1..], i - 1, next)
  {
    hide Step;
    hide Ends;
    hide GivesUpNoBlock;
    assert (actions[..i] + [next])[1..] == actions[1..][..i - 1] + [next];
  }

  lemma GivesUpNow(m: Managed, actions: seq<Action>, next: Action)
    ensures GivesUpAt(m, actions, 0, next) == !GivesUpNoBlock(Step(m, next).log)
  {
    hide Step;
    hide Run;
    hide GivesUpNoBlock;
    assert actions[..0] + [next] == [next];
    RunOne(m, next);
  }

  lemma {:induction false} SafeGivesUpNothing(m: Managed, actions: seq<Action>, i: nat, next: Action)
    requires GivesUpNoBlock(m.log) && !Perilous(m, actions) && i <= |actions|
    ensures !GivesUpAt(m, actions, i, next)
    decreases i
  {
    hide Step;
    hide Ends;
    hide GivesUpNoBlock;
    hide InPeril;
    hide GivesUpAt;
    if i == 0 {
      GivesUpNow(m, actions, next);
      StepGivesUpNothing(m, next);
    } else {
      GivesUpLater(m, actions, i, next);
      StepGivesUpNothing(m, actions[0]);
      if !Ends(m, actions[0]) {
        SafeGivesUpNothing(Step(m, actions[0]), actions[1..], i - 1, next);
      }
    }
  }

  /** The next statement typed into the shell once the connection is fifty-five minutes old. */
  function LateStatement(m: Managed, text: bytes): Action {
    Shell(text, CALM.(now := m.connectedAt + PROACTIVE_RECONNECT_AFTER), [], true)
  }

  lemma LateStatementGivesUp(m: Managed, text: bytes)
    requires InPeril(m) && Sound(m) && GivesUpNoBlock(m.log)
    ensures !GivesUpNoBlock(Step(m, LateStatement(m, text)).log)
  {
    hide Call;
    DueCallGivesUp(m, text, CALM.(now := m.connectedAt + PROACTIVE_RECONNECT_AFTER));
  }

  lemma {:induction false} PerilGivesUp(m: Managed, actions: seq<Action>, login: Settings)
    returns (i: nat, next: Action)
    requires Invariant(m, login) && GivesUpNoBlock(m.log)
    ensures Perilous(m, actions) ==> i <= |actions| && GivesUpAt(m, actions, i, next)
    decreases |actions|
  {
    hide Step;
    hide Ends;
    hide Invariant;
    hide GivesUpNoBlock;
    hide InPeril;
    hide GivesUpAt;
    hide LateStatement;
    i, next := 0, LateStatement(m, []);
    if InPeril(m) {
      InvariantIsSound(m, login);
      LateStatementGivesUp(m, []);
      GivesUpNow(m, actions, next);
    } else if Perilous(m, actions) {
      TracksStep(m, actions[0], login);
      StepGivesUpNothing(m, actions[0]);
      i, next := PerilGivesUp(Step(m, actions[0]), actions[1..], login);
      i := i + 1;
      GivesUpLater(m, actions, i, next);
    }
  }

  lemma InvariantIsSound(m: Managed, login: Settings)
    requires Invariant(m, login)
    ensures Sound(m)
  {
  }

  /** The action strands the session and the program goes on. */
  predicate StrandsOn(m: Managed, a: Action) {
    Loses(m, a) && !Ends(m, a)
  }

  lemma {:induction false} UnstrandedIsSafe(m: Managed, actions: seq<Action>, login: Settings)
    requires Invariant(m, login) && IdleIsTrue(m) && Never(StrandsOn, m, actions)
    ensures !Perilous(m, actions)
    decreases |actions|
  {
    hide Step;
    hide Ends;
    hide Invariant;
    hide Loses;
    if actions != [] && !Ends(m, actions[0]) {
      TracksStep(m, actions[0], login);
      UnstrandedIsSafe(Step(m, actions[0]), actions[1..], login);
    }
  }

  /**
   * Over every run: no action at any point of it gives up a transaction that is open on
   * a live connection, if and only if the program never goes on with the session
   * stranded and its settings current; and it never does so unless it has lost a BEGIN.
   */
  lemma EveryRunGivesUpNoBlock(id: nat, login: Settings, now: int, actions: seq<Action>)
    ensures var start := Opened(Fresh(id), login, now);
            (forall i: nat, next: Action :: i <= |actions| ==> !GivesUpAt(start, actions, i, next))
            <==> !Perilous(start, actions)
    ensures var start := Opened(Fresh(id), login, now);
            Never(StrandsOn, start, actions) ==> !Perilous(start, actions)
  {
    hide GivesUpAt;
    hide Perilous;
    hide Never;
    var start := Opened(Fresh(id), login, now);
    StartTracks(id, login, now);
    if Perilous(start, actions) {
      var i, next := PerilGivesUp(start, actions, login);
    } else {
      forall i: nat, next: Action | i <= |actions|
        ensures !GivesUpAt(start, actions, i, next)
      {
        SafeGivesUpNothing(start, actions, i, next);
      }
    }
    if Never(StrandsOn, start, actions) {
      UnstrandedIsSafe(start, actions, login);
    }
  }

  // ---- Misled runs, and what they cost. ----

  const CALM: Env := Env(0, false, false, [], Succeeded, false, false, Captured([]), NotCut)

  /**
   * In the shell, the sink fails on the answer to a BEGIN that the server has carried
   * out. The session stays idle, and the statement typed fifty-five minutes later
   * replaces the live connection and gives up the open block.
   */
  lemma SinkFailureGivesUpBlock(begin: bytes, next: bytes)
    requires Classify(begin).Begin?
    ensures var start := Opened(Fresh(0), [], 0);
            var first := Shell(begin, CALM.(answer := SinkFailed), [], true);
            var second := Shell(next, CALM.(now := PROACTIVE_RECONNECT_AFTER), [], true);
            Loses(start, first) && !GivesUpNoBlock(Run(start, [first, second]).log)
  {
    hide Step;
    hide Loses;
    hide GivesUpNoBlock;
    var start := Opened(Fresh(0), [], 0);
    var first := Shell(begin, CALM.(answer := SinkFailed), [], true);
    var second := Shell(next, CALM.(now := PROACTIVE_RECONNECT_AFTER), [], true);
    SinkFailureStrands(begin);
    var middle := Step(start, first);
    assert second == LateStatement(middle, next);
    LateStatementGivesUp(middle, next);
    assert [first, second][1..] == [second];
    RunOne(middle, second);
  }

  lemma SinkFailureStrands(begin: bytes)
    requires Classify(begin).Begin?
    ensures var a := Shell(begin, CALM.(answer := SinkFailed), [], true);
            var start := Opened(Fresh(0), [], 0);
            && Loses(start, a) && InPeril(Step(start, a)) && Sound(Step(start, a))
            && Step(start, a).connectedAt == 0 && GivesUpNoBlock(Step(start, a).log)
  {
    hide Classify;
  }

  /**
   * The server rejects the capture query behind a BEGIN: the session is tracked as
   * active while the block of the server is aborted.
   */
  lemma CaptureRejectionMisleads(begin: bytes)
    requires Classify(begin).Begin?
    ensures var a := Shell(begin, CALM.(capture := CaptureFailed(true)), [], true);
            var start := Opened(Fresh(0), [], 0);
            && MisleadsIn(start, a) && !Tracks(Step(start, a)) && IdleIsTrue(Step(start, a))
            && Step(start, a).state.Active? && Step(start, a).connection.server.Aborted?
  {
    hide Classify;
  }
}
