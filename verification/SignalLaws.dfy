// What the coordination of a running statement with user signals comes to, read off
// the schedule by index (src/shell/mod.rs).

module SignalLaws {
  import opened Wrappers
  import opened Bytes
  import opened Session
  import opened SessionRuns
  import opened Signals

  /** Only completions of a cancel request nobody waits for. */
  predicate OnlyCancels(schedule: seq<Wake>, from: nat, to: nat) {
    forall k :: from <= k < to && k < |schedule| ==> schedule[k].CancelDone?
  }

  /** Only completions of the statement, which a running cancel request keeps waiting. */
  predicate OnlyFinishes(schedule: seq<Wake>, from: nat, to: nat) {
    forall k :: from <= k < to && k < |schedule| ==> schedule[k].Finished?
  }

  /** The first wake from `from` on that the outer select waits for. */
  predicate IsFirstWake(schedule: seq<Wake>, from: nat, i: nat) {
    from <= i <= |schedule| && OnlyCancels(schedule, from, i) && (i < |schedule| ==> !schedule[i].CancelDone?)
  }

  /** The first wake from `from` on that the select around a cancel request waits for. */
  predicate IsFirstReply(schedule: seq<Wake>, from: nat, j: nat) {
    from <= j <= |schedule| && OnlyFinishes(schedule, from, j) && (j < |schedule| ==> !schedule[j].Finished?)
  }

  lemma {:induction false} FirstWake(schedule: seq<Wake>, from: nat) returns (i: nat)
    requires from <= |schedule|
    ensures IsFirstWake(schedule, from, i)
    decreases |schedule| - from
  {
    i := from;
    if from < |schedule| && schedule[from].CancelDone? {
      i := FirstWake(schedule, from + 1);
    }
  }

  lemma {:induction false} FirstReply(schedule: seq<Wake>, from: nat) returns (j: nat)
    requires from <= |schedule|
    ensures IsFirstReply(schedule, from, j)
    decreases |schedule| - from
  {
    j := from;
    if from < |schedule| && schedule[from].Finished? {
      j := FirstReply(schedule, from + 1);
    }
  }

  lemma {:induction false} PassCancels(schedule: seq<Wake>, from: nat, i: nat, handle: bool, interrupted: bool, failed: bool)
    requires from <= i <= |schedule| && OnlyCancels(schedule, from, i)
    ensures Coordinate(schedule[from..], handle, interrupted, failed)
         == Coordinate(schedule[i..], handle, interrupted, failed)
    decreases i - from
  {
    if from < i {
      assert schedule[from..][0] == schedule[from] && schedule[from..][1..] == schedule[from + 1..];
      PassCancels(schedule, from + 1, i, handle, interrupted, failed);
    }
  }

  lemma {:induction false} PassFinishes(schedule: seq<Wake>, from: nat, j: nat, failed: bool)
    requires from <= j <= |schedule| && OnlyFinishes(schedule, from, j)
    ensures Cancelling(schedule[from..], failed) == Cancelling(schedule[j..], failed)
    decreases j - from
  {
    if from < j {
      assert schedule[from..][0] == schedule[from] && schedule[from..][1..] == schedule[from + 1..];
      PassFinishes(schedule, from + 1, j, failed);
    }
  }

  /**
   * The first wake decides, unless it is an interrupt with a handle; then the first
   * reply to the cancel request does, unless the request comes to its end; and then
   * the next wake does, with the failure of the request kept.
   */
  lemma VerdictByIndex(schedule: seq<Wake>, hasHandle: bool, i: nat, j: nat, l: nat)
    requires IsFirstWake(schedule, 0, i)
    requires i < |schedule| ==> IsFirstReply(schedule, i + 1, j)
    requires i < |schedule| && j < |schedule| ==> IsFirstWake(schedule, j + 1, l)
    ensures var verdict := Coordinate(schedule, hasHandle, false, false);
            if i == |schedule| || schedule[i].Finished? then verdict == Finishes(false)
            else if schedule[i] != Received(Some(Interrupt)) then verdict == Stops(false, true)
            else if !hasHandle then verdict == Stops(true, false)
            else if j == |schedule| then verdict == Finishes(false)
            else if schedule[j] == Received(None) then verdict == Stops(true, false)
            else if schedule[j].Received? then verdict == Stops(false, true)
            else if l == |schedule| || schedule[l].Finished? then verdict == Finishes(!schedule[j].ok)
            else verdict == Stops(!schedule[j].ok, true)
  {
    assert schedule[0..] == schedule;
    PassCancels(schedule, 0, i, hasHandle, false, false);
    if i < |schedule| {
      assert schedule[i..][0] == schedule[i] && schedule[i..][1..] == schedule[i + 1..];
      ReplyByIndex(schedule, i + 1, j, l);
    }
  }

  /** What waiting for a cancel request comes to: the first reply decides, unless the request comes to its end. */
  lemma ReplyByIndex(schedule: seq<Wake>, from: nat, j: nat, l: nat)
    requires from <= |schedule| && IsFirstReply(schedule, from, j)
    requires j < |schedule| ==> IsFirstWake(schedule, j + 1, l)
    ensures Cancelling(schedule[from..], false)
         == if j == |schedule| then Finishes(false)
            else if schedule[j] == Received(None) then Stops(true, false)
            else if schedule[j].Received? then Stops(false, true)
            else if l == |schedule| || schedule[l].Finished? then Finishes(!schedule[j].ok)
            else Stops(!schedule[j].ok, true)
  {
    PassFinishes(schedule, from, j, false);
    if j < |schedule| {
      assert schedule[j..][0] == schedule[j] && schedule[j..][1..] == schedule[j + 1..];
      if schedule[j].CancelDone? {
        PassCancels(schedule, j + 1, l, true, true, !schedule[j].ok);
        if l < |schedule| {
          assert schedule[l..][0] == schedule[l];
        }
      }
    }
  }

  /** A terminate signal, or a closed channel, that nothing but cancel completions precedes stops the statement. */
  lemma TerminateStops(schedule: seq<Wake>, hasHandle: bool, k: nat)
    requires k < |schedule| && OnlyCancels(schedule, 0, k)
    requires schedule[k] == Received(Some(Terminate)) || schedule[k] == Received(None)
    ensures Coordinate(schedule, hasHandle, false, false) == Stops(false, true)
  {
    var j := FirstReply(schedule, k + 1);
    var l := if j < |schedule| then j + 1 else j;
    if j < |schedule| {
      l := FirstWake(schedule, j + 1);
    }
    VerdictByIndex(schedule, hasHandle, k, j, l);
  }

  /** The statement is left to finish. */
  predicate LeftToFinish(schedule: seq<Wake>, hasHandle: bool, i: nat, j: nat, l: nat) {
    || i >= |schedule| || schedule[i].Finished?
    || (&& schedule[i] == Received(Some(Interrupt)) && hasHandle
        && (|| j >= |schedule|
            || (schedule[j].CancelDone? && (l >= |schedule| || schedule[l].Finished?))))
  }

  /**
   * The statement is left to finish if and only if at most one signal comes before its
   * first completion outside a cancel request: an interrupt, with a handle, whose
   * request comes to its end or is never answered. The failure that is reported is that
   * of the request. In every other case the statement is stopped, and the shell ends
   * unless there was no handle or the channel closed while the request was running.
   */
  lemma FinishesByIndex(schedule: seq<Wake>, hasHandle: bool) returns (i: nat, j: nat, l: nat)
    ensures IsFirstWake(schedule, 0, i)
    ensures i < |schedule| ==> IsFirstReply(schedule, i + 1, j)
    ensures i < |schedule| && j < |schedule| ==> IsFirstWake(schedule, j + 1, l)
    ensures var verdict := Coordinate(schedule, hasHandle, false, false);
            && (verdict.Finishes? <==> LeftToFinish(schedule, hasHandle, i, j, l))
            && (verdict.Finishes? ==>
                  (verdict.cancellationFailed
                   <==> && i < |schedule| && schedule[i].Received? && j < |schedule| && !schedule[j].ok))
            && (verdict.Stops? && !verdict.shellError <==>
                  && i < |schedule| && schedule[i] == Received(Some(Interrupt))
                  && (!hasHandle || (j < |schedule| && schedule[j] == Received(None))))
  {
    i := FirstWake(schedule, 0);
    j, l := |schedule|, |schedule|;
    if i < |schedule| {
      j := FirstReply(schedule, i + 1);
      if j < |schedule| {
        l := FirstWake(schedule, j + 1);
      }
    }
    VerdictByIndex(schedule, hasHandle, i, j, l);
  }

  /** Which shell actions end the program: those that stop their statement with an error of the shell. */
  lemma ShellEndsByIndex(m: Managed, text: bytes, env: Env, schedule: seq<Wake>, hasHandle: bool)
    returns (i: nat, j: nat, l: nat)
    ensures IsFirstWake(schedule, 0, i)
    ensures i < |schedule| ==> IsFirstReply(schedule, i + 1, j)
    ensures i < |schedule| && j < |schedule| ==> IsFirstWake(schedule, j + 1, l)
    ensures Ends(m, Shell(text, env, schedule, hasHandle))
       <==> && !LeftToFinish(schedule, hasHandle, i, j, l)
            && (schedule[i] == Received(Some(Interrupt)) ==>
                  hasHandle && (j < |schedule| ==> schedule[j] != Received(None)))
  {
    i, j, l := FinishesByIndex(schedule, hasHandle);
  }
}
