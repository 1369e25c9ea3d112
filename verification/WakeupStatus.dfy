/**
 Which status a completion is given (usb_can_driver/usb_can_user_client.cpp). What
 decides it is read off a run of `Wakeup`: who exchanged the stored completion, and
 which comparison of head and tail a call made before.
 */
module WakeupStatus {
  import opened Results
  import opened Wakeup

  /** Of the steps so far: the completions displaced by a later call's store or by a Close,
      those with data for them, the calls whose re-check saw data, and whether the driver
      has ever published. */
  datatype History = History(displaced: set<nat>, served: set<nat>, rechecked: set<nat>, published: bool)

  const NOTHING := History({}, {}, {}, false)

  /** Call c has finished comparing, and the head it had loaded was not the tail. */
  ghost predicate SawData(s: State, s': State, c: nat) {
    && c in s.calls && c in s'.calls
    && s.calls[c].CheckTail? && s.calls[c].head != s.tail && s'.calls[c] != s.calls[c]
  }

  ghost predicate RecheckSawData(s: State, s': State, c: nat) {
    && c in s.calls && c in s'.calls
    && s.calls[c].RecheckTail? && s.calls[c].head != s.tail && s'.calls[c] != s.calls[c]
  }

  /** The stored completion was exchanged by call c after its re-check, by a Close, or by
      the driver after it has written. */
  ghost predicate RecheckTakes(s: State, s': State, c: nat) {
    c in s.calls && c in s'.calls && s.calls[c].Take? && s'.calls[c] != s.calls[c]
  }

  ghost predicate CloseTakes(s: State, s': State, k: nat) {
    k in s.closers && k in s'.closers && s.closers[k].CloseSwap? && s'.closers[k] != s.closers[k]
  }

  ghost predicate DriverTakes(s: State, s': State) {
    s.driver.Wrote? && !s'.driver.Wrote?
  }

  ghost predicate IsDisplaced(s: State, s': State) {
    && s.pending.Some? && s'.pending != s.pending
    && (s'.pending.Some? || exists k :: CloseTakes(s, s', k))
  }

  ghost predicate IsServed(h: History, s: State, s': State) {
    && s.pending.Some? && s'.pending.None?
    && ((exists c :: c in h.rechecked && RecheckTakes(s, s', c)) || (h.published && DriverTakes(s, s')))
  }

  ghost function DisplacedNow(s: State, s': State): set<nat> {
    if IsDisplaced(s, s') then {s.pending.value} else {}
  }

  ghost function ServedNow(h: History, s: State, s': State): set<nat> {
    (if IsServed(h, s, s') then {s.pending.value} else {}) + (set c | c in s.calls && SawData(s, s', c))
  }

  ghost function NextHistory(h: History, s: State, s': State): History {
    History(
      h.displaced + DisplacedNow(s, s'),
      h.served + ServedNow(h, s, s'),
      h.rechecked + (set c | c in s.calls && RecheckSawData(s, s', c)),
      h.published || s'.head > s.head)
  }

  ghost function HistoryOf(run: seq<State>, i: nat): History
    requires i < |run|
  {
    if i == 0 then NOTHING else NextHistory(HistoryOf(run, i - 1), run[i - 1], run[i])
  }

  // ---- What is bound for which status ----

  predicate AbortHolder(s: State, w: Holder) {
    w.ByCloser? || (w.ByCall? && w.c in s.calls && s.calls[w.c].AbortOld?)
  }

  predicate SuccessHolder(s: State, w: Holder) {
    w.ByDriver? || (w.ByCall? && w.c in s.calls && (s.calls[w.c].CompleteNow? || s.calls[w.c].FireTaken?))
  }

  ghost predicate HeldForAbort(s: State, w: Holder, c: nat) {
    AbortHolder(s, w) && HeldBy(s, w) == Some(c)
  }

  ghost predicate HeldForSuccess(s: State, w: Holder, c: nat) {
    SuccessHolder(s, w) && HeldBy(s, w) == Some(c)
  }

  ghost predicate Aborting(s: State, c: nat) {
    c in s.aborted || exists w :: HeldForAbort(s, w, c)
  }

  ghost predicate Succeeding(s: State, c: nat) {
    c in s.succeeded || exists w :: HeldForSuccess(s, w, c)
  }

  /** Completions meet their fate: those in `toAbort` and `toSucceed`, and no others. */
  ghost predicate Moves(s: State, s': State, toAbort: set<nat>, toSucceed: set<nat>) {
    && (forall c :: Aborting(s', c) <==> Aborting(s, c) || c in toAbort)
    && (forall c :: Succeeding(s', c) <==> Succeeding(s, c) || c in toSucceed)
  }

  /** No party but `a` changes what it holds or what for. */
  ghost predicate OnlyActs(s: State, s': State, a: Holder) {
    forall w, c :: w != a ==>
      && (HeldForAbort(s', w, c) <==> HeldForAbort(s, w, c))
      && (HeldForSuccess(s', w, c) <==> HeldForSuccess(s, w, c))
  }

  /** Party `a` brings completion c to a fate only as said. */
  ghost predicate ActsOn(s: State, s': State, a: Holder, c: nat, toAbort: bool, toSucceed: bool) {
    && ((c in s'.aborted || HeldForAbort(s', a, c)) <==> (c in s.aborted || HeldForAbort(s, a, c) || toAbort))
    && ((c in s'.succeeded || HeldForSuccess(s', a, c)) <==> (c in s.succeeded || HeldForSuccess(s, a, c) || toSucceed))
  }

  lemma ActMoves(s: State, s': State, a: Holder, toAbort: set<nat>, toSucceed: set<nat>)
    requires OnlyActs(s, s', a)
    requires forall c :: ActsOn(s, s', a, c, c in toAbort, c in toSucceed)
    ensures Moves(s, s', toAbort, toSucceed)
  {
    forall c: nat
      ensures Aborting(s', c) <==> Aborting(s, c) || c in toAbort
    {
      assert ActsOn(s, s', a, c, c in toAbort, c in toSucceed);
      if w :| HeldForAbort(s', w, c) {
        assert w != a ==> HeldForAbort(s, w, c);
      }
      if w :| HeldForAbort(s, w, c) {
        assert w != a ==> HeldForAbort(s', w, c);
      }
    }
    forall c: nat
      ensures Succeeding(s', c) <==> Succeeding(s, c) || c in toSucceed
    {
      assert ActsOn(s, s', a, c, c in toAbort, c in toSucceed);
      if w :| HeldForSuccess(s', w, c) {
        assert w != a ==> HeldForSuccess(s, w, c);
      }
      if w :| HeldForSuccess(s, w, c) {
        assert w != a ==> HeldForSuccess(s', w, c);
      }
    }
  }

  lemma WaitOnlyActs(s: State, s': State, c: nat)
    requires WaitStep(s, s', c)
    ensures OnlyActs(s, s', ByCall(c))
  {
    CallStepLeavesOthers(s, s', c);
  }

  /** The completion whose fate a call's own step decides. */
  lemma WaitDecides(s: State, s': State, h: History, c: nat)
    requires HoldersOk(s) && WaitStep(s, s', c)
    requires s.calls[c].Take? ==> c in h.rechecked
    ensures DisplacedNow(s, s') == if s.calls[c].Store? && s.pending.Some? then {s.pending.value} else {}
    ensures ServedNow(h, s, s') ==
      if s.calls[c].CheckTail? && s.calls[c].head != s.tail then {c}
      else if s.calls[c].Take? && s.pending.Some? then {s.pending.value} else {}
  {
    assert forall e :: e in s.calls && e != c ==> s'.calls[e] == s.calls[e];
    assert s'.closers == s.closers && s'.driver == s.driver;
    assert HeldBy(s, InPending) == s.pending && HeldBy(s, ByCall(c)) == HeldAt(c, s.calls[c]);
    if s.calls[c].Take? {
      assert RecheckTakes(s, s', c);
    }
  }

  lemma WaitAborts(s: State, s': State, h: History, c: nat, d: nat)
    requires HoldersOk(s) && WaitStep(s, s', c)
    requires s.calls[c].Take? ==> c in h.rechecked
    ensures (d in s'.aborted || HeldForAbort(s', ByCall(c), d))
      <==> (d in s.aborted || HeldForAbort(s, ByCall(c), d) || d in DisplacedNow(s, s'))
  {
    WaitDecides(s, s', h, c);
  }

  lemma WaitSucceeds(s: State, s': State, h: History, c: nat, d: nat)
    requires HoldersOk(s) && WaitStep(s, s', c)
    requires s.calls[c].Take? ==> c in h.rechecked
    ensures (d in s'.succeeded || HeldForSuccess(s', ByCall(c), d))
      <==> (d in s.succeeded || HeldForSuccess(s, ByCall(c), d) || d in ServedNow(h, s, s'))
  {
    WaitDecides(s, s', h, c);
  }

  lemma WaitMoves(s: State, s': State, h: History, c: nat)
    requires HoldersOk(s) && WaitStep(s, s', c)
    requires s.calls[c].Take? ==> c in h.rechecked
    ensures Moves(s, s', DisplacedNow(s, s'), ServedNow(h, s, s'))
  {
    WaitOnlyActs(s, s', c);
    var toAbort, toSucceed := DisplacedNow(s, s'), ServedNow(h, s, s');
    forall d: nat
      ensures ActsOn(s, s', ByCall(c), d, d in toAbort, d in toSucceed)
    {
      WaitAborts(s, s', h, c, d);
      WaitSucceeds(s, s', h, c, d);
    }
    ActMoves(s, s', ByCall(c), toAbort, toSucceed);
  }

  lemma CloseMoves(s: State, s': State, h: History, k: nat)
    requires CloseStep(s, s', k)
    ensures Moves(s, s', DisplacedNow(s, s'), ServedNow(h, s, s'))
  {
    assert s'.calls == s.calls && s'.driver == s.driver;
    assert forall j :: j in s.closers && j != k ==> s'.closers[j] == s.closers[j];
    if s.closers[k].CloseSwap? {
      assert CloseTakes(s, s', k);
    }
    assert forall w :: w != ByCloser(k) && w != InPending ==> HeldBy(s', w) == HeldBy(s, w);
    ActMoves(s, s', ByCloser(k), DisplacedNow(s, s'), ServedNow(h, s, s'));
  }

  lemma DriverMoves(s: State, s': State, h: History)
    requires DriverNotify(s, s') || DriverComplete(s, s')
    requires s.driver.Wrote? ==> h.published
    ensures Moves(s, s', DisplacedNow(s, s'), ServedNow(h, s, s'))
  {
    assert s'.calls == s.calls && s'.closers == s.closers;
    assert forall w :: w != ByDriver && w != InPending ==> HeldBy(s', w) == HeldBy(s, w);
    ActMoves(s, s', ByDriver, DisplacedNow(s, s'), ServedNow(h, s, s'));
  }

  lemma EnterMoves(s: State, s': State, h: History, c: nat)
    requires WaitEnter(s, s', c)
    ensures Moves(s, s', DisplacedNow(s, s'), ServedNow(h, s, s'))
  {
    assert forall e :: e in s.calls ==> s'.calls[e] == s.calls[e];
    assert forall w :: w != ByCall(c) ==> HeldBy(s', w) == HeldBy(s, w);
    ActMoves(s, s', ByCall(c), DisplacedNow(s, s'), ServedNow(h, s, s'));
  }

  lemma QuietMoves(s: State, s': State, h: History)
    requires QuietStep(s, s')
    ensures Moves(s, s', DisplacedNow(s, s'), ServedNow(h, s, s'))
  {
    assert s'.calls == s.calls && s'.pending == s.pending;
    assert forall w :: HeldBy(s', w) == HeldBy(s, w);
    ActMoves(s, s', InPending, DisplacedNow(s, s'), ServedNow(h, s, s'));
  }

  /** A call takes after its re-check saw data, and the driver notifies after it published. */
  ghost predicate CausesOk(s: State, h: History) {
    && (forall c :: c in s.calls && s.calls[c].Take? ==> c in h.rechecked)
    && (s.driver.Wrote? ==> h.published)
  }

  lemma OthersKeepCalls(s: State, s': State)
    requires Next(s, s') && (forall c :: !WaitEnter(s, s', c)) && (forall c :: !WaitStep(s, s', c))
    ensures s'.calls == s.calls
  {
    if k :| CloseStep(s, s', k) {
    } else if QuietStep(s, s') {
    } else {
      assert DriverNotify(s, s') || DriverComplete(s, s');
    }
  }

  lemma TakeIsEntered(s: State, s': State, c: nat)
    requires Next(s, s') && c in s'.calls && s'.calls[c].Take?
    ensures c in s.calls && (s.calls[c].Take? || RecheckSawData(s, s', c))
  {
    if d :| WaitEnter(s, s', d) {
    } else if d :| WaitStep(s, s', d) {
      assert d != c ==> s'.calls[c] == s.calls[c];
    } else {
      OthersKeepCalls(s, s');
    }
  }

  lemma WroteIsEntered(s: State, s': State)
    requires Next(s, s') && s'.driver.Wrote?
    ensures s.driver.Wrote? || s'.head > s.head
  {
    if h :| DriverPublish(s, s', h) {
    } else {
      assert s'.driver == s.driver;
    }
  }

  lemma StepKeepsCauses(s: State, s': State, h: History)
    requires CausesOk(s, h) && Next(s, s')
    ensures CausesOk(s', NextHistory(h, s, s'))
  {
    forall c | c in s'.calls && s'.calls[c].Take?
      ensures c in NextHistory(h, s, s').rechecked
    {
      TakeIsEntered(s, s', c);
    }
    if s'.driver.Wrote? {
      WroteIsEntered(s, s');
    }
  }

  lemma StepMoves(s: State, s': State, h: History)
    requires HoldersOk(s) && CausesOk(s, h) && Next(s, s')
    ensures Moves(s, s', DisplacedNow(s, s'), ServedNow(h, s, s'))
  {
    if c :| WaitEnter(s, s', c) {
      EnterMoves(s, s', h, c);
    } else if c :| WaitStep(s, s', c) {
      WaitMoves(s, s', h, c);
    } else if k :| CloseStep(s, s', k) {
      CloseMoves(s, s', h, k);
    } else if QuietStep(s, s') {
      QuietMoves(s, s', h);
    } else {
      DriverMoves(s, s', h);
    }
  }

  ghost predicate StatusOk(s: State, h: History) {
    && CausesOk(s, h)
    && (forall c :: Aborting(s, c) <==> c in h.displaced)
    && (forall c :: Succeeding(s, c) <==> c in h.served)
  }

  lemma StepKeepsStatus(s: State, s': State, h: History)
    requires HoldersOk(s) && StatusOk(s, h) && Next(s, s')
    ensures StatusOk(s', NextHistory(h, s, s'))
  {
    StepKeepsCauses(s, s', h);
    StepMoves(s, s', h);
  }

  lemma {:induction false} RunKeepsStatus(run: seq<State>, i: nat)
    requires IsRun(run) && i < |run|
    ensures StatusOk(run[i], HistoryOf(run, i))
  {
    if i > 0 {
      RunKeepsStatus(run, i - 1);
      RunKeepsInv(run, i - 1);
      assert StepAt(run, i - 1);
      StepKeepsStatus(run[i - 1], run[i], HistoryOf(run, i - 1));
    }
  }

  // ---- Main results ----

  /** In every run: a completion is told it was aborted only if a later call's store or a
      Close displaced it; it is told success only if its own call saw data, or it was taken
      after a re-check that saw data or by the driver after a publish; and no completion is
      told both, or has both causes. */
  lemma StatusIsDeserved(run: seq<State>, i: nat, c: nat)
    requires IsRun(run) && i < |run|
    ensures
      var s, h := run[i], HistoryOf(run, i);
      && (c in s.aborted ==> c in h.displaced && c !in s.succeeded)
      && (c in s.succeeded ==> c in h.served && c !in s.aborted)
      && !(c in h.displaced && c in h.served)
  {
    var s := run[i];
    RunKeepsStatus(run, i);
    RunKeepsInv(run, i);
    assert Fired(s, c) <= 1;
    if Aborting(s, c) && Succeeding(s, c) {
      NotBoth(s, c);
    }
  }

  lemma NotBoth(s: State, c: nat)
    requires HoldersOk(s) && FiringsOk(s)
    ensures !(Aborting(s, c) && Succeeding(s, c))
  {
    assert Fired(s, c) <= 1;
    assert forall w, w' :: HeldForAbort(s, w, c) && HeldForSuccess(s, w', c) ==> w == w';
    assert forall w :: HeldBy(s, w) == Some(c) ==> Fired(s, c) == 0;
  }

  /** Once all calls have returned: a completion was told success exactly if it was served,
      and aborted exactly if it was displaced. */
  lemma AtRestStatusIsCause(run: seq<State>, i: nat, c: nat)
    requires IsRun(run) && i < |run| && AtRest(run[i])
    ensures c in run[i].succeeded <==> c in HistoryOf(run, i).served
    ensures c in run[i].aborted <==> c in HistoryOf(run, i).displaced
  {
    var s := run[i];
    RunKeepsStatus(run, i);
    assert forall w :: HeldBy(s, w).Some? ==> w == InPending;
  }
}
