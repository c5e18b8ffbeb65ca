// Safety of the session over every run of batch statements, statements under
// signals and catalog queries, against every behaviour of the world.

module SessionRuns {
  import opened Bytes
  import opened Wrappers
  import opened Sequences
  import opened Classification
  import opened Session
  import opened Signals

  datatype Action =
    | Batch(text: bytes, env: Env)
    | Shell(text: bytes, env: Env, schedule: seq<Wake>, hasHandle: bool)
    | Catalog(text: bytes, env: Env, timing: Timing)

  function Step(m: Managed, a: Action): Managed {
    match a
    case Batch(text, env) => Call(m, text, Uncut(env)).0
    case Shell(text, env, schedule, hasHandle) =>
      Interactive(m, text, env, Coordinate(schedule, hasHandle, false, false))
    case Catalog(text, env, timing) => LoadRows(m, text, env, timing)
  }

  /** The program is over: a batch stops at its first error, and a shell at an error of its own. */
  predicate Ends(m: Managed, a: Action) {
    match a
    case Batch(text, env) => Call(m, text, Uncut(env)).1 != Returned(true)
    case Shell(_, _, schedule, hasHandle) =>
      var verdict := Coordinate(schedule, hasHandle, false, false);
      verdict.Stops? && verdict.shellError
    case Catalog(_, _, _) => false
  }

  /** A run of the actions, as far as the program goes on. */
  function Run(m: Managed, actions: seq<Action>): Managed
    decreases |actions|
  {
    if actions == [] then m
    else if Ends(m, actions[0]) then Step(m, actions[0])
    else Run(Step(m, actions[0]), actions[1..])
  }

  lemma RunOne(m: Managed, a: Action)
    ensures Run(m, [a]) == Step(m, a)
  {
    hide Step;
    hide Ends;
    assert [a][1..] == [];
    assert Run(Step(m, a), []) == Step(m, a);
  }

  // ---- What holds at every point of a run. ----

  predicate Always(holds: Managed -> bool, m: Managed, actions: seq<Action>)
    decreases |actions|
  {
    && holds(m)
    && (actions != [] ==>
          if Ends(m, actions[0]) then holds(Step(m, actions[0]))
          else Always(holds, Step(m, actions[0]), actions[1..]))
  }

  /** No action of a run, as far as it goes, is bad. */
  predicate Never(bad: (Managed, Action) -> bool, m: Managed, actions: seq<Action>)
    decreases |actions|
  {
    actions == []
    || (!bad(m, actions[0]) && (Ends(m, actions[0]) || Never(bad, Step(m, actions[0]), actions[1..])))
  }

  lemma RunPrefix(m: Managed, actions: seq<Action>, i: nat)
    requires 0 < i <= |actions|
    ensures Run(m, actions[..i])
         == if Ends(m, actions[0]) then Step(m, actions[0]) else Run(Step(m, actions[0]), actions[1..][..i - 1])
  {
    hide Step;
    hide Ends;
    assert actions[..i][1..] == actions[1..][..i - 1];
  }

  lemma {:induction false} AlwaysAt(holds: Managed -> bool, m: Managed, actions: seq<Action>, i: nat)
    requires Always(holds, m, actions) && i <= |actions|
    ensures holds(Run(m, actions[..i]))
    decreases |actions|
  {
    hide Step;
    hide Ends;
    if i > 0 {
      RunPrefix(m, actions, i);
      if !Ends(m, actions[0]) {
        AlwaysAt(holds, Step(m, actions[0]), actions[1..], i - 1);
      }
    }
  }

  lemma {:induction false} NotAlwaysAt(holds: Managed -> bool, m: Managed, actions: seq<Action>) returns (i: nat)
    requires !Always(holds, m, actions)
    ensures i <= |actions| && !holds(Run(m, actions[..i]))
    decreases |actions|
  {
    hide Step;
    hide Ends;
    i := 0;
    if holds(m) {
      var next := Step(m, actions[0]);
      if !Ends(m, actions[0]) {
        i := NotAlwaysAt(holds, next, actions[1..]);
      }
      i := i + 1;
      RunPrefix(m, actions, i);
    }
  }

  /** What holds always holds after each part of the run, and conversely. */
  lemma AlwaysIsThroughout(holds: Managed -> bool, m: Managed, actions: seq<Action>)
    ensures Always(holds, m, actions) <==> forall i: nat :: i <= |actions| ==> holds(Run(m, actions[..i]))
  {
    hide Always;
    hide Run;
    if Always(holds, m, actions) {
      forall i: nat | i <= |actions|
        ensures holds(Run(m, actions[..i]))
      {
        AlwaysAt(holds, m, actions, i);
      }
    } else {
      var i := NotAlwaysAt(holds, m, actions);
    }
  }

  /** The call an action makes, if it makes one, and how the driver cuts it. */
  function CallEnv(a: Action): Option<Env> {
    match a
    case Batch(_, env) => Some(Uncut(env))
    case Shell(_, env, schedule, hasHandle) =>
      Some(if Coordinate(schedule, hasHandle, false, false).Finishes? then Uncut(env) else Signals.Cut(env))
    case Catalog(_, env, timing) =>
      match timing
      case NoTimeLeft => None
      case Unsettled => Some(Signals.Cut(env))
      case _ => Some(Uncut(env))
  }

  function AfterCall(m: Managed, a: Action): Managed {
    match CallEnv(a)
    case None => m
    case Some(env) => Call(m, a.text, env).0
  }

  /**
   * A property that each action keeps exactly when it is not bad holds always if and
   * only if no action is bad.
   */
  lemma {:induction false} AlwaysIffNever(
      inv: Managed -> bool, holds: Managed -> bool, bad: (Managed, Action) -> bool, m: Managed, actions: seq<Action>)
    requires inv(m) && holds(m)
    requires forall n: Managed, a: Action ::
               inv(n) && holds(n) ==> inv(Step(n, a)) && (holds(Step(n, a)) <==> !bad(n, a))
    ensures Always(holds, m, actions) <==> Never(bad, m, actions)
    decreases |actions|
  {
    hide Step;
    hide Ends;
    if actions != [] && !Ends(m, actions[0]) && !bad(m, actions[0]) {
      AlwaysIffNever(inv, holds, bad, Step(m, actions[0]), actions[1..]);
    }
  }

  /** What a driver may still do to the session once its call is over or dropped. */
  lemma StepIsCallAndMark(m: Managed, a: Action)
    ensures var called := AfterCall(m, a);
            || Step(m, a) == called
            || Step(m, a) == MarkUncertain(called)
            || Step(m, a) == RequireReconnect(called)
    ensures CallEnv(a).Some? && !CallEnv(a).value.cut.NotCut? ==>
              || Step(m, a) == MarkUncertain(AfterCall(m, a))
              || Step(m, a) == RequireReconnect(AfterCall(m, a))
  {
    hide Call;
  }

  // ---- The log: submissions, captures and connector calls. ----

  function Submissions(log: seq<LogEntry>): seq<bytes> {
    if log == [] then []
    else
      var entry := log[|log| - 1];
      Submissions(log[..|log| - 1]) + (if entry.Submit? then [entry.text] else [])
  }

  lemma SubmissionsAppend(log: seq<LogEntry>, entry: LogEntry)
    ensures Submissions(log + [entry]) == Submissions(log) + (if entry.Submit? then [entry.text] else [])
  {
    assert (log + [entry])[..|log|] == log;
  }

  /** The capture made right after the most recent statement that succeeded; at first the settings of the login. */
  function LastCapture(log: seq<LogEntry>, login: Settings): Option<Settings> {
    if log == [] then Some(login)
    else
      match log[|log| - 1]
      case Completed(capture) => capture
      case _ => LastCapture(log[..|log| - 1], login)
  }

  lemma LastCaptureAppend(log: seq<LogEntry>, entry: LogEntry, login: Settings)
    ensures LastCapture(log + [entry], login)
         == if entry.Completed? then entry.capture else LastCapture(log, login)
  {
    assert (log + [entry])[..|log|] == log;
  }

  /** One entry is safe behind the log before it. */
  predicate SafeEntry(before: seq<LogEntry>, entry: LogEntry, login: Settings) {
    match entry
    case Submit(_, connection) => !connection.dropped
    case Connect(settings, _, _, state) => state.Idle? && LastCapture(before, login) == Some(settings)
    case Completed(_) => true
  }

  predicate SafeLog(log: seq<LogEntry>, login: Settings) {
    log == []
    || (SafeLog(log[..|log| - 1], login) && SafeEntry(log[..|log| - 1], log[|log| - 1], login))
  }

  lemma SafeLogAppend(log: seq<LogEntry>, entry: LogEntry, login: Settings)
    requires SafeLog(log, login) && SafeEntry(log, entry, login)
    ensures SafeLog(log + [entry], login)
  {
    assert (log + [entry])[..|log|] == log;
  }

  lemma {:induction false} SafeLogEntries(log: seq<LogEntry>, login: Settings, k: nat)
    requires SafeLog(log, login) && k < |log|
    ensures SafeEntry(log[..k], log[k], login)
  {
    if k < |log| - 1 {
      SafeLogEntries(log[..|log| - 1], login, k);
      assert log[..|log| - 1][..k] == log[..k];
    }
  }

  // ---- The invariant of every run. ----

  ghost predicate Safe(m: Managed, login: Settings) {
    && SafeLog(m.log, login)
    && (m.connection.dropped ==> m.state.Uncertain? || m.reconnectRequired)
    && (m.settingsCurrent <==> LastCapture(m.log, login).Some?)
    && (m.settingsCurrent ==> LastCapture(m.log, login) == Some(m.settings))
  }

  /** What holds while a call runs, before its driver has reacted to a drop. */
  ghost predicate SafeBut(m: Managed, login: Settings) {
    && SafeLog(m.log, login)
    && (m.settingsCurrent <==> LastCapture(m.log, login).Some?)
    && (m.settingsCurrent ==> LastCapture(m.log, login) == Some(m.settings))
  }

  lemma {:induction false} SafeReconnect(m: Managed, env: Env, attempt: nat, login: Settings)
    requires attempt <= RECONNECT_ATTEMPTS && SafeBut(m, login) && m.settingsCurrent && m.state.Idle?
    ensures var (after, result) := ReconnectFrom(m, env, attempt);
            && SafeBut(after, login) && after.settingsCurrent && after.state.Idle?
            && Submissions(after.log) == Submissions(m.log)
            && (if result.Replaced? then !after.connection.dropped
                else after == m.(log := after.log))
    decreases RECONNECT_ATTEMPTS - attempt
  {
    if attempt < RECONNECT_ATTEMPTS {
      var success := env.cut != Reconnecting(attempt) && Connects(env, attempt);
      var entry := Connect(m.settings, success, m.connection, m.state);
      SafeLogAppend(m.log, entry, login);
      LastCaptureAppend(m.log, entry, login);
      SubmissionsAppend(m.log, entry);
      if !success && env.cut != Reconnecting(attempt) {
        SafeReconnect(LogConnect(m, false), env, attempt + 1, login);
      }
    }
  }

  lemma SafePrepare(m: Managed, env: Env, login: Settings)
    requires Safe(m, login)
    ensures var (ready, preparation) := Prepare(m, env);
            && Safe(ready, login) && Submissions(ready.log) == Submissions(m.log)
            && (preparation.Ready? ==> !ready.connection.dropped)
  {
    hide ReconnectFrom;
    hide SafeLog;
    hide LastCapture;
    hide Submissions;
    if GateOf(m, env.now).ReconnectFirst? {
      SafeReconnect(m, env, 0, login);
    }
  }

  lemma SafeFinalize(m: Managed, control: TransactionControl, answer: Answer, env: Env, login: Settings)
    requires SafeBut(m, login)
    ensures var (after, result) := Finalize(m, control, answer, env);
            && SafeBut(after, login) && Submissions(after.log) == Submissions(m.log)
            && (after.connection.dropped ==> m.connection.dropped || result.Dropped?)
            && (result.Dropped? ==> !env.cut.NotCut?)
  {
    hide SafeLog;
    hide LastCapture;
    hide Submissions;
    if answer.Succeeded? && !env.cut.Capturing? {
      var entry := Completed(if env.capture.Captured? then Some(env.capture.settings) else None);
      SafeLogAppend(m.log, entry, login);
      LastCaptureAppend(m.log, entry, login);
      SubmissionsAppend(m.log, entry);
    }
  }

  lemma SafeSubmit(m: Managed, text: bytes, env: Env, login: Settings)
    requires SafeBut(m, login) && !m.connection.dropped
    ensures var (after, result) := SubmitOnce(m, text, env);
            && SafeBut(after, login) && Submissions(after.log) == Submissions(m.log) + [text]
            && (after.connection.dropped ==> result.Dropped?)
            && (result.Dropped? ==> !env.cut.NotCut?)
  {
    hide SafeLog;
    hide LastCapture;
    hide Submissions;
    hide Finalize;
    hide Classify;
    var entry := Submit(text, m.connection);
    SafeLogAppend(m.log, entry, login);
    LastCaptureAppend(m.log, entry, login);
    SubmissionsAppend(m.log, entry);
    if !env.cut.Executing? {
      var control := Classify(text);
      var answer := Resolve(m.connection, control, env.answer);
      var answered := m.(log := m.log + [entry],
                         connection := AfterAnswer(m.connection, control, answer, env.endsBlock));
      SafeFinalize(answered, control, answer, env, login);
    }
  }

  /** A call submits its text at most once, and only a dropped call leaves its connection dropped. */
  lemma SafeCall(m: Managed, text: bytes, env: Env, login: Settings)
    requires Safe(m, login)
    ensures var (after, result) := Call(m, text, env);
            && SafeBut(after, login)
            && (Submissions(after.log) == Submissions(m.log)
                || Submissions(after.log) == Submissions(m.log) + [text])
            && (after.connection.dropped ==>
                  !env.cut.NotCut? || after.state.Uncertain? || after.reconnectRequired)
  {
    hide SafeLog;
    hide LastCapture;
    hide Submissions;
    hide Prepare;
    hide SubmitOnce;
    var begun := Begun(m, env);
    assert Safe(begun, login);
    SafePrepare(begun, env, login);
    var (ready, preparation) := Prepare(begun, env);
    if preparation.Ready? {
      SafeSubmit(ready, text, env, login);
    }
  }

  lemma SafeStep(m: Managed, a: Action, login: Settings)
    requires Safe(m, login)
    ensures Safe(Step(m, a), login)
    ensures Submissions(Step(m, a).log) == Submissions(m.log)
         || Submissions(Step(m, a).log) == Submissions(m.log) + [a.text]
  {
    hide SafeLog;
    hide LastCapture;
    hide Submissions;
    hide Call;
    hide Step;
    StepIsCallAndMark(m, a);
    if CallEnv(a).Some? {
      SafeCall(m, a.text, CallEnv(a).value, login);
    }
  }

  function TextsOf(actions: seq<Action>): (r: seq<bytes>) {
    if actions == [] then [] else [actions[0].text] + TextsOf(actions[1..])
  }

  lemma {:induction false} SafeRun(m: Managed, actions: seq<Action>, login: Settings) returns (submitted: seq<bytes>)
    requires Safe(m, login)
    ensures Safe(Run(m, actions), login)
    ensures Submissions(Run(m, actions).log) == Submissions(m.log) + submitted
    ensures IsSubsequence(submitted, TextsOf(actions))
    decreases |actions|
  {
    hide Safe;
    hide Step;
    hide Ends;
    hide Submissions;
    hide IsSubsequence;
    EmptySubsequence(TextsOf(actions));
    submitted := [];
    if actions != [] {
      var next := Step(m, actions[0]);
      SafeStep(m, actions[0], login);
      var later: seq<bytes> := [];
      if Ends(m, actions[0]) {
        EmptySubsequence(TextsOf(actions[1..]));
      } else {
        later := SafeRun(next, actions[1..], login);
      }
      submitted := if Submissions(next.log) == Submissions(m.log) then later else [actions[0].text] + later;
      SubsequenceGrows(actions[0].text, later, TextsOf(actions[1..]));
    }
  }

  /**
   * Every run, whatever the world does. No statement is submitted on a connection
   * on which the future of an earlier call was dropped. Every connector call is made from
   * the idle state with the settings captured right after the most recent
   * statement that succeeded, so none is made while that capture is missing. The
   * submitted texts are the called texts in order, each at most once.
   */
  lemma EveryRunIsSafe(id: nat, login: Settings, now: int, actions: seq<Action>)
    ensures var log := Run(Opened(Fresh(id), login, now), actions).log;
            && (forall k :: 0 <= k < |log| ==> SafeEntry(log[..k], log[k], login))
            && IsSubsequence(Submissions(log), TextsOf(actions))
  {
    hide Run;
    var start := Opened(Fresh(id), login, now);
    var submitted := SafeRun(start, actions, login);
    var log := Run(start, actions).log;
    assert Submissions(log) == submitted;
    forall k | 0 <= k < |log|
      ensures SafeEntry(log[..k], log[k], login)
    {
      SafeLogEntries(log, login, k);
    }
  }

  // ---- Absorbing states. ----

  /** Uncertain, or in need of a new connection with a transaction that may be open. */
  predicate Blocked(m: Managed) {
    m.state.Uncertain? || ((m.reconnectRequired || !m.connection.alive) && !m.state.Idle?)
  }

  lemma BlockedStep(m: Managed, a: Action)
    requires Blocked(m)
    ensures Blocked(Step(m, a)) && Step(m, a).log == m.log
    ensures m.state.Uncertain? ==> Step(m, a).state.Uncertain?
  {
    hide Step;
    StepIsCallAndMark(m, a);
  }

  /** From a blocked session on, no run submits a statement or calls the connector. */
  lemma {:induction false} BlockedForGood(m: Managed, actions: seq<Action>)
    requires Blocked(m)
    ensures Blocked(Run(m, actions)) && Run(m, actions).log == m.log
    ensures m.state.Uncertain? ==> Run(m, actions).state.Uncertain?
    decreases |actions|
  {
    hide Step;
    hide Ends;
    hide Blocked;
    if actions != [] {
      BlockedStep(m, actions[0]);
      if !Ends(m, actions[0]) {
        BlockedForGood(Step(m, actions[0]), actions[1..]);
      }
    }
  }

  // ---- Reconnecting. ----

  /** The entries of one reconnect: only the last attempt can have succeeded. */
  predicate AttemptsThen(entries: seq<LogEntry>, success: bool) {
    forall k :: 0 <= k < |entries| ==>
      entries[k].Connect? && (entries[k].success <==> success && k == |entries| - 1)
  }

  /** What a reconnect from some attempt on comes to. */
  predicate Tried(m: Managed, env: Env, attempt: nat, after: Managed, result: ReconnectResult, entries: seq<LogEntry>)
  {
    && after.log == m.log + entries && |entries| <= RECONNECT_ATTEMPTS - attempt
    && AttemptsThen(entries, result.Replaced?)
    && (result.Replaced? ==>
          && entries != []
          && after == Replace(m, env.now).(log := after.log)
          && Connects(env, attempt + |entries| - 1))
    && (!result.Replaced? ==> after == m.(log := after.log))
    && (result.Exhausted? ==> forall k :: attempt <= k < RECONNECT_ATTEMPTS ==> !Connects(env, k))
  }

  lemma TriedOnce(m: Managed, env: Env, attempt: nat, success: bool)
    requires attempt < RECONNECT_ATTEMPTS && (success ==> Connects(env, attempt))
    ensures var entry := Connect(m.settings, success, m.connection, m.state);
            if success then Tried(m, env, attempt, Replace(LogConnect(m, true), env.now), Replaced, [entry])
            else Tried(m, env, attempt, LogConnect(m, false), CutOff, [entry])
  {
    hide Connects;
    hide AttemptsThen;
    OneAttempt(Connect(m.settings, success, m.connection, m.state));
  }

  lemma TriedAgain(m: Managed, env: Env, attempt: nat, after: Managed, result: ReconnectResult, later: seq<LogEntry>)
    requires attempt < RECONNECT_ATTEMPTS && !Connects(env, attempt)
    requires Tried(LogConnect(m, false), env, attempt + 1, after, result, later)
    ensures Tried(m, env, attempt, after, result, [Connect(m.settings, false, m.connection, m.state)] + later)
  {
    hide Connects;
    hide AttemptsThen;
    var entry := Connect(m.settings, false, m.connection, m.state);
    FailedAttemptThen(entry, later, result.Replaced?);
    assert m.log + ([entry] + later) == (m.log + [entry]) + later;
  }

  /** At most three attempts, stopping at the first success; without one only the log changes. */
  lemma {:induction false} ReconnectTries(m: Managed, env: Env, attempt: nat) returns (entries: seq<LogEntry>)
    requires attempt <= RECONNECT_ATTEMPTS
    ensures var (after, result) := ReconnectFrom(m, env, attempt);
            Tried(m, env, attempt, after, result, entries)
    decreases RECONNECT_ATTEMPTS - attempt
  {
    hide Tried;
    hide Connects;
    if attempt == RECONNECT_ATTEMPTS {
      entries := [];
      TriedNothing(m, env);
    } else {
      var success := env.cut != Reconnecting(attempt) && Connects(env, attempt);
      entries := [Connect(m.settings, success, m.connection, m.state)];
      if !success && env.cut != Reconnecting(attempt) {
        var later := ReconnectTries(LogConnect(m, false), env, attempt + 1);
        var (after, result) := ReconnectFrom(m, env, attempt);
        TriedAgain(m, env, attempt, after, result, later);
        entries := entries + later;
      } else {
        TriedOnce(m, env, attempt, success);
      }
    }
  }

  lemma TriedNothing(m: Managed, env: Env)
    ensures Tried(m, env, RECONNECT_ATTEMPTS, m, Exhausted, [])
  {
    assert m.log + [] == m.log;
  }

  lemma OneAttempt(entry: LogEntry)
    requires entry.Connect?
    ensures AttemptsThen([entry], entry.success)
  {
  }

  lemma FailedAttemptThen(entry: LogEntry, later: seq<LogEntry>, success: bool)
    requires entry.Connect? && !entry.success && AttemptsThen(later, success) && (success ==> later != [])
    ensures AttemptsThen([entry] + later, success)
  {
  }

  /** A session that has just reconnected needs no reconnect, and the new connection serves the same settings. */
  lemma ReconnectSettles(m: Managed, env: Env)
    requires m.state.Idle? && ReconnectFrom(m, env, 0).1.Replaced?
    ensures var after := ReconnectFrom(m, env, 0).0;
            && ReconnectStateOf(after, env.now) == Connected
            && after.connection != m.connection && after.settings == m.settings && after.reconnected
  {
    var entries := ReconnectTries(m, env, 0);
  }

  /**
   * A connection that is seen to break under a statement costs a reconnect. It blocks
   * the session for good exactly when the statement was part of a transaction or
   * would have begun one.
   */
  lemma LossIsRemembered(m: Managed, text: bytes, env: Env)
    requires !m.state.Uncertain? && env.noticedAfter && !env.cut.Executing?
    requires Resolve(m.connection, Classify(text), env.answer).ConnectionBroke?
    ensures var after := SubmitOnce(m, text, env).0;
            && after.reconnectRequired && !after.connection.alive
            && (Blocked(after) <==> !m.state.Idle? || Classify(text).Begin?)
            && (!Blocked(after) ==> ReconnectStateOf(after, env.now) == Required && after.state.Idle?)
  {
    hide Classify;
  }

  /** The label shown to the user foretells what the next undisturbed statement does first. */
  lemma LabelForetells(m: Managed, text: bytes, env: Env)
    requires env.cut.NotCut? && !env.breaks && !(m.connection.broken && env.noticedBefore)
    ensures var after := Call(m, text, env).0.log;
            var submits := m.log + [Submit(text, m.connection)] <= after;
            var connects := m.log + [Connect(m.settings, Connects(env, 0), m.connection, m.state)] <= after;
            match ReconnectStateOf(m, env.now)
            case UncertainOutcome => after == m.log
            case Connected => submits
            case Deferred => submits
            case Due => if m.settingsCurrent then connects else after == m.log
            case Required => if m.state.Idle? && m.settingsCurrent then connects else after == m.log
  {
    hide Call;
    assert Begun(m, env) == m;
    GrowsBy(m, text, env);
  }

  lemma SubmitGrows(m: Managed, text: bytes, env: Env)
    ensures m.log + [Submit(text, m.connection)] <= SubmitOnce(m, text, env).0.log
  {
    hide Classify;
    hide Resolve;
    hide AfterAnswer;
    hide TransitionTransactionState;
    hide AfterRejection;
    hide Observe;
  }

  lemma GrowsBy(m: Managed, text: bytes, env: Env)
    requires env.cut.NotCut? && Begun(m, env) == m
    ensures var after := Call(m, text, env).0;
            match GateOf(m, env.now)
            case Refuse => after.log == m.log
            case SubmitNow => m.log + [Submit(text, m.connection)] <= after.log
            case ReconnectFirst => m.log + [Connect(m.settings, Connects(env, 0), m.connection, m.state)] <= after.log
  {
    hide SubmitOnce;
    match GateOf(m, env.now)
    case Refuse =>
    case SubmitNow => SubmitGrows(m, text, env);
    case ReconnectFirst =>
      FirstAttempt(m, env);
      SubmitGrows(ReconnectFrom(m, env, 0).0, text, env);
  }

  lemma FirstAttempt(m: Managed, env: Env)
    requires env.cut.NotCut?
    ensures m.log + [Connect(m.settings, Connects(env, 0), m.connection, m.state)] <= ReconnectFrom(m, env, 0).0.log
  {
    if !Connects(env, 0) {
      var entries := ReconnectTries(LogConnect(m, false), env, 1);
    }
  }
}
