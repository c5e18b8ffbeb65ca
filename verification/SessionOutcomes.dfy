// What a call leaves behind, class by class, and the numbers of the protocol
// (src/app.rs).

module SessionOutcomes {
  import opened Bytes
  import opened Wrappers
  import opened Classification
  import opened Session
  import opened SessionRuns
  import opened Signals

  lemma SubmitSucceeds(m: Managed, text: bytes, env: Env)
    requires !m.state.Uncertain? && SubmitOnce(m, text, env).1 == Returned(true)
    ensures var after := SubmitOnce(m, text, env).0;
            && after.state == (match Classify(text)
                               case Begin => Active
                               case Commit => Idle
                               case Rollback => Idle
                               case _ => m.state)
            && (Classify(text).Begin? ==> !after.connection.server.ServerIdle?)
            && (Classify(text).Commit? || Classify(text).Rollback? ==> after.connection.server.ServerIdle?)
  {
    hide Classify;
    hide Observe;
  }

  lemma SubmitFails(m: Managed, text: bytes, env: Env)
    requires SubmitOnce(m, text, env).1 == Returned(false) && SubmitOnce(m, text, env).0.connection.alive
    ensures SubmitOnce(m, text, env).0.state == if m.state.Active? then Failed else m.state
    ensures SubmitOnce(m, text, env).0.reconnectRequired == m.reconnectRequired
  {
    hide Classify;
    hide TransitionTransactionState;
    hide AfterCapture;
  }

  lemma PrepareKeepsState(m: Managed, env: Env)
    ensures var (ready, preparation) := Prepare(m, env);
            ready.state == m.state && (preparation.Ready? ==> !m.state.Uncertain?)
  {
    hide ReconnectFrom;
    if GateOf(m, env.now).ReconnectFirst? {
      var entries := ReconnectTries(m, env, 0);
    }
  }

  /**
   * A call that returns success: a BEGIN leaves the session active, a COMMIT or
   * ROLLBACK leaves it idle over an idle server, and any other statement leaves the
   * state what it was.
   */
  lemma SuccessMoves(m: Managed, text: bytes, env: Env)
    requires Call(m, text, env).1 == Returned(true)
    ensures var after := Call(m, text, env).0;
            && !m.state.Uncertain?
            && after.state == (match Classify(text)
                               case Begin => Active
                               case Commit => Idle
                               case Rollback => Idle
                               case _ => m.state)
            && (Classify(text).Begin? ==> !after.connection.server.ServerIdle?)
            && (Classify(text).Commit? || Classify(text).Rollback? ==> after.connection.server.ServerIdle?)
  {
    hide Classify;
    hide Prepare;
    hide SubmitOnce;
    var begun := Begun(m, env);
    PrepareKeepsState(begun, env);
    SubmitSucceeds(Prepare(begun, env).0, text, env);
  }

  /** From which server states a statement of each class can succeed: any for COMMIT and ROLLBACK. */
  predicate CanSucceed(control: TransactionControl, server: ServerState) {
    match control
    case Commit => true
    case Rollback => true
    case RollbackTo => server == InBlock || server == Aborted
    case Savepoint => server == InBlock
    case Release => server == InBlock
    case Begin => server == ServerIdle || server == InBlock
    case Other => server == ServerIdle || server == InBlock
  }

  /**
   * A call that nobody drops returns success exactly when it is prepared, its connection
   * is whole, the server can carry the statement out, and the answer says it did.
   */
  lemma SucceedsExactly(m: Managed, text: bytes, env: Env)
    requires env.cut.NotCut?
    ensures Call(m, text, env).1.Returned?
    ensures var (ready, preparation) := Prepare(Begun(m, env), env);
            Call(m, text, env).1 == Returned(true)
            <==> && preparation.Ready? && !ready.connection.broken && env.answer.Succeeded?
                 && CanSucceed(Classify(text), ready.connection.server)
  {
    hide Classify;
    hide Prepare;
    NobodyDrops(Begun(m, env), env, 0);
  }

  lemma {:induction false} NobodyDrops(m: Managed, env: Env, attempt: nat)
    requires env.cut.NotCut? && attempt <= RECONNECT_ATTEMPTS
    ensures !ReconnectFrom(m, env, attempt).1.CutOff?
    ensures attempt == 0 ==> !Prepare(m, env).1.PreparationDropped?
    decreases RECONNECT_ATTEMPTS - attempt
  {
    if attempt < RECONNECT_ATTEMPTS {
      NobodyDrops(LogConnect(m, false), env, attempt + 1);
    }
  }

  /** A call that a driver walks away from is cut where the world says, or before it starts. */
  lemma StoppedCall(m: Managed, text: bytes, env: Env)
    ensures !env.cut.NotCut? ==> Call(m, text, Cut(env)) == Call(m, text, env)
    ensures env.cut.NotCut? ==> Call(m, text, Cut(env)) == (m, Dropped)
  {
  }

  /**
   * What the server makes of a statement that is submitted and not dropped. On a broken
   * connection, or when the statement is not sent, nothing. If it is to be carried out
   * and can be, its class decides; otherwise it is rejected, which aborts an open block,
   * except that a rejected COMMIT may end it. The response is left unread only as the
   * world says.
   */
  predicate ServerMoved(before: Connection, after: Connection, control: TransactionControl, env: Env) {
    var wanted := env.answer.Succeeded? || env.answer.SinkFailed? || env.answer == LeftUnread(true);
    && (before.broken || env.answer.Unsent? || env.answer.ConnectionBroke? ==> after.server == before.server)
    && (after.broken <==> before.broken || env.answer.ConnectionBroke?)
    && (!before.broken && wanted && CanSucceed(control, before.server) ==>
          after.server == match control
                          case Begin => InBlock
                          case RollbackTo => InBlock
                          case Commit => ServerIdle
                          case Rollback => ServerIdle
                          case _ => before.server)
    && (!before.broken
        && (env.answer.Rejected? || env.answer == LeftUnread(false)
            || (wanted && !CanSucceed(control, before.server))) ==>
          after.server == if before.server == ServerIdle || (control == Commit && env.endsBlock) then ServerIdle
                          else Aborted)
    && (after.unread
        <==> || before.unread
             || (&& !before.broken && env.answer.LeftUnread?
                 && (env.answer.succeeds ==> CanSucceed(control, before.server))))
  }

  lemma ServerMoves(m: Managed, text: bytes, env: Env)
    requires env.cut.NotCut? && Prepare(Begun(m, env), env).1.Ready? && !env.capture.CaptureFailed?
    ensures var before := Prepare(Begun(m, env), env).0.connection;
            ServerMoved(before, Call(m, text, env).0.connection, Classify(text), env)
  {
    hide Classify;
    hide Prepare;
    hide SubmitOnce;
    hide CanSucceed;
    var before := Prepare(Begun(m, env), env).0;
    SubmitReaches(before, text, env);
    ConnectionMoves(before.connection, Classify(text), env);
  }

  function Reached(c: Connection, control: TransactionControl, env: Env): Connection {
    AfterAnswer(c, control, Resolve(c, control, env.answer), env.endsBlock)
  }

  lemma SubmitReaches(m: Managed, text: bytes, env: Env)
    requires env.cut.NotCut? && !env.capture.CaptureFailed?
    ensures var after := SubmitOnce(m, text, env).0.connection;
            var reached := Reached(m.connection, Classify(text), env);
            after.server == reached.server && after.broken == reached.broken && after.unread == reached.unread
  {
    hide Classify;
    hide AfterAnswer;
    hide Resolve;
    hide TransitionTransactionState;
    var answer := Resolve(m.connection, Classify(text), env.answer);
    var logged := m.(log := m.log + [Submit(text, m.connection)]);
    var answered := logged.(connection := Reached(m.connection, Classify(text), env));
    assert SubmitOnce(m, text, env) == Finalize(answered, Classify(text), answer, env);
    hide Reached;
  }

  lemma ConnectionMoves(c: Connection, control: TransactionControl, env: Env)
    ensures ServerMoved(c, Reached(c, control, env), control, env)
  {
    hide CanSucceed;
    hide Accepts;
    hide AfterSuccess;
    hide AfterRejection;
    SameAcceptance(control, c.server);
    SuccessMeans(c.server, control);
    RejectionMeans(c.server, control, env.endsBlock);
  }

  lemma SuccessMeans(server: ServerState, control: TransactionControl)
    ensures AfterSuccess(server, control) == match control
                                             case Begin => InBlock
                                             case RollbackTo => InBlock
                                             case Commit => ServerIdle
                                             case Rollback => ServerIdle
                                             case _ => server
  {
  }

  lemma RejectionMeans(server: ServerState, control: TransactionControl, endsBlock: bool)
    ensures AfterRejection(server, control, endsBlock)
         == if server == ServerIdle || (control == Commit && endsBlock) then ServerIdle else Aborted
  {
  }

  lemma SameAcceptance(control: TransactionControl, server: ServerState)
    ensures CanSucceed(control, server) == Accepts(server, control)
  {
  }

  /**
   * A call that returns an error: if it was refused, the state stays; if it submitted
   * its statement and the connection is still alive, an active session fails and any
   * other state stays.
   */
  lemma ErrorMoves(m: Managed, text: bytes, env: Env)
    requires Call(m, text, env).1 == Returned(false)
    ensures var after := Call(m, text, env).0;
            if !Prepare(Begun(m, env), env).1.Ready? then after.state == m.state
            else after.connection.alive ==> after.state == if m.state.Active? then Failed else m.state
  {
    hide Classify;
    hide Prepare;
    hide SubmitOnce;
    var begun := Begun(m, env);
    PrepareKeepsState(begun, env);
    var (ready, preparation) := Prepare(begun, env);
    if preparation.Ready? && Call(m, text, env).0.connection.alive {
      SubmitFails(ready, text, env);
    }
  }

  /** A session that waits for a reconnect label: due after fifty-five minutes, never before. */
  lemma DueAfterFiftyFiveMinutes(m: Managed, now: int)
    requires m.state.Idle? && !m.reconnectRequired && m.connection.alive
    ensures ReconnectStateOf(m, now) == Due <==> now - m.connectedAt >= 3300
    ensures ReconnectStateOf(m, now) == Connected <==> now - m.connectedAt < 3300
  {
  }

  /** An undisturbed reconnect gives up exactly when the first three attempts fail, and logs three then. */
  lemma ThreeAttempts(m: Managed, env: Env)
    requires env.cut.NotCut?
    ensures ReconnectFrom(m, env, 0).1.Exhausted? <==> !Connects(env, 0) && !Connects(env, 1) && !Connects(env, 2)
    ensures ReconnectFrom(m, env, 0).1.Exhausted? ==> |ReconnectFrom(m, env, 0).0.log| == |m.log| + 3
    ensures ReconnectFrom(m, env, 0).1.Replaced? ==>
              |ReconnectFrom(m, env, 0).0.log|
              == |m.log| + (if Connects(env, 0) then 1 else if Connects(env, 1) then 2 else 3)
  {
    hide Connects;
    assert RECONNECT_ATTEMPTS == 3;
    LastAttempt(m, env);
    LastAttempt(LogConnect(m, false), env);
    LastAttempt(LogConnect(LogConnect(m, false), false), env);
    var second := LogConnect(LogConnect(m, false), false);
    AttemptStep(m, env, 0);
    AttemptStep(LogConnect(m, false), env, 1);
  }

  lemma AttemptStep(m: Managed, env: Env, attempt: nat)
    requires env.cut.NotCut? && attempt < 2
    ensures ReconnectFrom(m, env, attempt)
         == if Connects(env, attempt) then (Replace(LogConnect(m, true), env.now), Replaced)
            else ReconnectFrom(LogConnect(m, false), env, attempt + 1)
  {
  }

  lemma LastAttempt(m: Managed, env: Env)
    requires env.cut.NotCut?
    ensures ReconnectFrom(m, env, 2)
         == if Connects(env, 2) then (Replace(LogConnect(m, true), env.now), Replaced)
            else (LogConnect(m, false), Exhausted)
  {
    assert ReconnectFrom(LogConnect(m, false), env, 3) == (LogConnect(m, false), Exhausted);
  }
}
