/**
 What a Close leaves behind (usb_can_driver/usb_can_user_client.cpp): it exchanges the
 stored completion first and refuses further calls only at its end, so that a call that
 has passed its checks may store a completion behind it.
 */
module WakeupClose {
  import opened Results
  import opened Wakeup

  /** No call has still to decide whether it stores its completion. */
  ghost predicate NobodyStores(s: State) {
    forall c :: c in s.calls ==> !s.calls[c].CheckHead? && !s.calls[c].CheckTail? && !s.calls[c].Store?
  }

  lemma StepKeepsEmpty(s: State, s': State)
    requires s.pending == None && NobodyStores(s) && Next(s, s')
    requires s'.calls.Keys <= s.calls.Keys
    ensures s'.pending == None && NobodyStores(s')
  {
    if c :| WaitEnter(s, s', c) {
      assert false;
    } else if c :| WaitStep(s, s', c) {
      CallKeepsEmpty(s, s', c);
    } else {
      assert s'.calls == s.calls;
    }
  }

  lemma CallKeepsEmpty(s: State, s': State, c: nat)
    requires s.pending == None && NobodyStores(s) && WaitStep(s, s', c)
    ensures s'.pending == None && NobodyStores(s')
  {
    assert s.calls[c].RecheckHead? || s.calls[c].RecheckTail? || s.calls[c].Take? || FiresNow(s.calls[c]);
  }

  lemma StepKeepsCalls(s: State, s': State)
    requires Next(s, s')
    ensures s.calls.Keys <= s'.calls.Keys
    ensures !s.isOpen && !OpenStep(s, s') ==> s'.calls.Keys == s.calls.Keys && !s'.isOpen
  {
  }

  lemma {:induction false} CallsGrow(run: seq<State>, i: nat, j: nat)
    requires IsRun(run) && i <= j < |run|
    ensures run[i].calls.Keys <= run[j].calls.Keys
    decreases j
  {
    if i < j {
      assert StepAt(run, j - 1);
      StepKeepsCalls(run[j - 1], run[j]);
      CallsGrow(run, i, j - 1);
    }
  }

  /** The client is not opened between i and j. */
  ghost predicate NotOpened(run: seq<State>, i: nat, j: nat)
    requires i <= j < |run|
  {
    forall t :: i <= t < j ==> !OpenStep(run[t], run[t + 1])
  }

  /** From the end of a Close to the next Open no call gets in. */
  lemma {:induction false} ClosedTakesNoCalls(run: seq<State>, k: nat, i: nat, j: nat)
    requires IsRun(run) && i < j < |run| && NotOpened(run, i + 1, j)
    requires k in run[i].closers && run[i].closers[k].CloseMark? && CloseStep(run[i], run[i + 1], k)
    ensures !run[j].isOpen && run[j].calls.Keys == run[i].calls.Keys
    decreases j
  {
    if i + 1 < j {
      ClosedTakesNoCalls(run, k, i, j - 1);
      assert StepAt(run, j - 1);
      StepKeepsCalls(run[j - 1], run[j]);
    }
  }

  lemma {:induction false} EmptySinceSwap(run: seq<State>, k: nat, i: nat, j: nat)
    requires IsRun(run) && i < j < |run| && run[j].calls.Keys == run[i].calls.Keys
    requires k in run[i].closers && run[i].closers[k].CloseSwap? && CloseStep(run[i], run[i + 1], k)
    requires NobodyStores(run[i])
    ensures run[j].pending == None && NobodyStores(run[j])
    decreases j
  {
    if i + 1 < j {
      CallsGrow(run, i, j - 1);
      CallsGrow(run, j - 1, j);
      EmptySinceSwap(run, k, i, j - 1);
      assert StepAt(run, j - 1);
      StepKeepsEmpty(run[j - 1], run[j]);
    }
  }

  /** If no call is about to store when a Close exchanges the completion, and none starts
      before it has refused further calls, then nothing is pending until the next Open. */
  lemma CloseLeavesNothingPending(run: seq<State>, k: nat, i: nat, m: nat, j: nat)
    requires IsRun(run) && i < m < j < |run|
    requires k in run[i].closers && run[i].closers[k].CloseSwap? && CloseStep(run[i], run[i + 1], k)
    requires k in run[m].closers && run[m].closers[k].CloseMark? && CloseStep(run[m], run[m + 1], k)
    requires NobodyStores(run[i]) && run[m].calls.Keys == run[i].calls.Keys && NotOpened(run, m + 1, j)
    ensures run[j].pending == None && !run[j].isOpen
  {
    ClosedTakesNoCalls(run, k, m, j);
    EmptySinceSwap(run, k, i, j);
  }

  lemma LongerRun(run: seq<State>, s: State) returns (longer: seq<State>)
    requires IsRun(run) && Next(run[|run| - 1], s)
    ensures longer == run + [s] && IsRun(longer)
  {
    longer := run + [s];
    forall i | 0 <= i < |longer| - 1
      ensures StepAt(longer, i)
    {
      assert i + 1 < |run| ==> StepAt(run, i);
    }
  }

  function Last(run: seq<State>): State
    requires run != []
  {
    run[|run| - 1]
  }

  /** Call c goes on, and nothing is fired. */
  lemma CallGoesOn(run: seq<State>, c: nat) returns (longer: seq<State>)
    requires IsRun(run) && c in Last(run).calls
    requires var pc := Last(run).calls[c]; !pc.Finished? && !FiresNow(pc)
    ensures IsRun(longer)
    ensures
      var s := Last(run);
      Last(longer) == s.(
        calls := s.calls[c := NextPc(s, c, s.calls[c])], pending := NextPending(s, c, s.calls[c]))
  {
    var s := Last(run);
    var s' := s.(calls := s.calls[c := NextPc(s, c, s.calls[c])], pending := NextPending(s, c, s.calls[c]));
    assert WaitStep(s, s', c);
    longer := LongerRun(run, s');
  }

  /** A Close from its beginning to its end, with nothing pending. */
  lemma CloseAtOnce(run: seq<State>, k: nat) returns (longer: seq<State>)
    requires IsRun(run) && Last(run).isOpen && Last(run).pending == None && k !in Last(run).closers
    ensures IsRun(longer)
    ensures Last(longer) == Last(run).(closers := Last(run).closers[k := CloseDone], isOpen := false)
  {
    var s := Last(run);
    var s1 := s.(closers := s.closers[k := CloseSwap]);
    assert CloseEnter(s, s1, k);
    longer := LongerRun(run, s1);
    var s2 := s1.(closers := s1.closers[k := CloseMark]);
    assert CloseStep(s1, s2, k);
    longer := LongerRun(longer, s2);
    var s3 := s2.(closers := s2.closers[k := CloseDone], isOpen := false);
    assert CloseStep(s2, s3, k);
    longer := LongerRun(longer, s3);
    assert s3.closers == s.closers[k := CloseDone];
  }

  /** Otherwise a completion may be stored behind the Close: the client is closed, every
      call has returned, and the completion is held without having been told anything. */
  lemma CloseDuringWaitHoldsCompletion() returns (run: seq<State>)
    ensures IsRun(run)
    ensures
      var s := Last(run);
      && AtRest(s) && !s.isOpen && s.pending == Some(0)
      && 0 in s.calls && Fired(s, 0) == 0
  {
    var start := State(0, 0, None, true, map[], map[], DriverIdle, multiset{}, multiset{});
    var entered := start.(calls := map[][0 := CheckHead]);
    assert WaitEnter(start, entered, 0);
    run := LongerRun([start], entered);
    run := CallGoesOn(run, 0);
    run := CallGoesOn(run, 0);
    run := CloseAtOnce(run, 0);
    run := CallGoesOn(run, 0);
    run := CallGoesOn(run, 0);
    run := CallGoesOn(run, 0);
  }
}
