/**
 The wakeup handshake between the client and the driver: `WaitForData`, `Close`
 (usb_can_driver/usb_can_user_client.cpp) and the driver's publish-then-notify.
 Any number of WaitForData and Close calls run at once with the driver's receive
 thread and the client's draining; every load, exchange and completion is one
 sequentially consistent step. A completion is named by a number.
 */
module Wakeup {
  import opened Results

  /** One WaitForData call, by the next thing it does. */
  datatype WaitPc =
    | CheckHead
    | CheckTail(head: nat)
    | CompleteNow
    | Store
    | AbortOld(replaced: nat)
    | RecheckHead
    | RecheckTail(head: nat)
    | Take
    | FireTaken(taken: nat)
    | Finished

  datatype ClosePc = CloseSwap | CloseFire(taken: nat) | CloseMark | CloseDone

  /** The receive thread: idle, has written frames and not yet notified, or about
      to complete what it took. */
  datatype DriverPc = DriverIdle | Wrote | DriverFire(taken: nat)

  datatype State = State(
    head: nat, tail: nat,
    pending: Option<nat>, isOpen: bool,
    calls: map<nat, WaitPc>, closers: map<nat, ClosePc>, driver: DriverPc,
    succeeded: multiset<nat>, aborted: multiset<nat>)

  ghost predicate Init(s: State) {
    && s.head == s.tail
    && s.pending == None
    && s.calls == map[] && s.closers == map[] && s.driver == DriverIdle
    && s.succeeded == multiset{} && s.aborted == multiset{}
  }

  // ---- Steps of a WaitForData call with completion c ----

  ghost predicate WaitEnter(s: State, s': State, c: nat) {
    && c !in s.calls && s.isOpen
    && s' == s.(calls := s.calls[c := CheckHead])
  }

  function NextPc(s: State, c: nat, pc: WaitPc): WaitPc {
    match pc
    case CheckHead => CheckTail(s.head)
    case CheckTail(h) => if h != s.tail then CompleteNow else Store
    case CompleteNow => Finished
    case Store => if s.pending.Some? then AbortOld(s.pending.value) else RecheckHead
    case AbortOld(_) => RecheckHead
    case RecheckHead => RecheckTail(s.head)
    case RecheckTail(h) => if h != s.tail then Take else Finished
    case Take => if s.pending.Some? then FireTaken(s.pending.value) else Finished
    case FireTaken(_) => Finished
    case Finished => Finished
  }

  function NextPending(s: State, c: nat, pc: WaitPc): Option<nat> {
    if pc.Store? then Some(c) else if pc.Take? then None else s.pending
  }

  function FiresSuccess(c: nat, pc: WaitPc): multiset<nat> {
    if pc.CompleteNow? then multiset{c} else if pc.FireTaken? then multiset{pc.taken} else multiset{}
  }

  function FiresAborted(pc: WaitPc): multiset<nat> {
    if pc.AbortOld? then multiset{pc.replaced} else multiset{}
  }

  ghost predicate WaitStep(s: State, s': State, c: nat) {
    && c in s.calls && !s.calls[c].Finished?
    && var pc := s.calls[c];
      s' == s.(calls := s.calls[c := NextPc(s, c, pc)],
               pending := NextPending(s, c, pc),
               succeeded := s.succeeded + FiresSuccess(c, pc),
               aborted := s.aborted + FiresAborted(pc))
  }

  // ---- Steps of Open and of a Close call k ----

  ghost predicate OpenStep(s: State, s': State) {
    s' == s.(isOpen := true)
  }

  ghost predicate CloseEnter(s: State, s': State, k: nat) {
    && k !in s.closers && s.isOpen
    && s' == s.(closers := s.closers[k := CloseSwap])
  }

  ghost predicate CloseStep(s: State, s': State, k: nat) {
    && k in s.closers
    && match s.closers[k]
       case CloseSwap =>
         s' == s.(pending := None,
                  closers := s.closers[k := if s.pending.Some? then CloseFire(s.pending.value) else CloseMark])
       case CloseFire(o) => s' == s.(closers := s.closers[k := CloseMark], aborted := s.aborted + multiset{o})
       case CloseMark => s' == s.(closers := s.closers[k := CloseDone], isOpen := false)
       case CloseDone => false
  }

  // ---- Steps of the driver's receive thread and of the client ----

  ghost predicate DriverPublish(s: State, s': State, head: nat) {
    && !s.driver.DriverFire? && head > s.head
    && s' == s.(head := head, driver := Wrote)
  }

  ghost predicate DriverNotify(s: State, s': State) {
    && s.driver.Wrote?
    && s' == s.(pending := None, driver := if s.pending.Some? then DriverFire(s.pending.value) else DriverIdle)
  }

  ghost predicate DriverComplete(s: State, s': State) {
    && s.driver.DriverFire?
    && s' == s.(driver := DriverIdle, succeeded := s.succeeded + multiset{s.driver.taken})
  }

  ghost predicate ClientDrain(s: State, s': State, tail: nat) {
    && s.tail < tail <= s.head
    && s' == s.(tail := tail)
  }

  ghost predicate Next(s: State, s': State) {
    || (exists c :: WaitEnter(s, s', c))
    || (exists c :: WaitStep(s, s', c))
    || OpenStep(s, s')
    || (exists k :: CloseEnter(s, s', k))
    || (exists k :: CloseStep(s, s', k))
    || (exists h :: DriverPublish(s, s', h))
    || DriverNotify(s, s')
    || DriverComplete(s, s')
    || (exists t :: ClientDrain(s, s', t))
  }

  ghost predicate StepAt(run: seq<State>, i: nat)
    requires i + 1 < |run|
  {
    Next(run[i], run[i + 1])
  }

  ghost predicate IsRun(run: seq<State>) {
    && |run| > 0
    && Init(run[0])
    && forall i :: 0 <= i < |run| - 1 ==> StepAt(run, i)
  }

  // ---- Every completion has exactly one holder until it fires ----

  datatype Holder = InPending | ByCall(c: nat) | ByCloser(k: nat) | ByDriver

  /** The completion call c itself is responsible for when it is at `pc`. */
  ghost function HeldAt(c: nat, pc: WaitPc): Option<nat> {
    match pc
    case AbortOld(o) => Some(o)
    case FireTaken(o) => Some(o)
    case RecheckHead => None
    case RecheckTail(_) => None
    case Take => None
    case Finished => None
    case _ => Some(c)
  }

  /** The completion that `w` is responsible for firing or passing on. */
  ghost function HeldBy(s: State, w: Holder): Option<nat> {
    match w
    case InPending => s.pending
    case ByCall(c) => if c in s.calls then HeldAt(c, s.calls[c]) else None
    case ByCloser(k) =>
      if k in s.closers && s.closers[k].CloseFire? then Some(s.closers[k].taken) else None
    case ByDriver => if s.driver.DriverFire? then Some(s.driver.taken) else None
  }

  /** How often completion c has been fired, with either status. */
  ghost function Fired(s: State, c: nat): nat {
    s.succeeded[c] + s.aborted[c]
  }

  ghost predicate HoldersOk(s: State) {
    && (forall w :: HeldBy(s, w).Some? ==> HeldBy(s, w).value in s.calls && Fired(s, HeldBy(s, w).value) == 0)
    && (forall w, w' :: HeldBy(s, w).Some? && HeldBy(s, w) == HeldBy(s, w') ==> w == w')
  }

  ghost predicate HasHolder(s: State, c: nat) {
    exists w :: HeldBy(s, w) == Some(c)
  }

  ghost predicate FiringsOk(s: State) {
    && (forall c :: c in s.calls && Fired(s, c) == 0 ==> HasHolder(s, c))
    && (forall c :: Fired(s, c) <= 1)
    && (forall c :: c !in s.calls ==> Fired(s, c) == 0)
  }

  ghost predicate SameLedger(s: State, s': State) {
    s'.calls.Keys == s.calls.Keys && s'.succeeded == s.succeeded && s'.aborted == s.aborted
  }

  /** Completions change hands along `a` and `b` only (perhaps not at all). */
  ghost predicate Exchanges(s: State, s': State, a: Holder, b: Holder) {
    && HeldBy(s', a) == HeldBy(s, b)
    && HeldBy(s', b) == HeldBy(s, a)
    && (forall w :: w != a && w != b ==> HeldBy(s', w) == HeldBy(s, w))
  }

  lemma ExchangeKeepsLedger(s: State, s': State, a: Holder, b: Holder)
    requires HoldersOk(s) && FiringsOk(s)
    requires Exchanges(s, s', a, b) && SameLedger(s, s')
    ensures HoldersOk(s') && FiringsOk(s')
  {
    assert forall c :: Fired(s', c) == Fired(s, c);
    forall c | c in s'.calls && Fired(s', c) == 0
      ensures HasHolder(s', c)
    {
      assert Fired(s, c) == 0;
      var w :| HeldBy(s, w) == Some(c);
      assert HeldBy(s', if w == a then b else if w == b then a else w) == Some(c);
    }
    forall w | HeldBy(s', w).Some?
      ensures HeldBy(s', w).value in s'.calls && Fired(s', HeldBy(s', w).value) == 0
    {
      assert HeldBy(s, if w == a then b else if w == b then a else w) == HeldBy(s', w);
    }
    forall w, w' | HeldBy(s', w).Some? && HeldBy(s', w) == HeldBy(s', w')
      ensures w == w'
    {
      var v, v' := if w == a then b else if w == b then a else w, if w' == a then b else if w' == b then a else w';
      assert HeldBy(s, v) == HeldBy(s', w) && HeldBy(s, v') == HeldBy(s', w');
    }
  }

  /** Holder `w` fires what it holds; nobody else changes. */
  ghost predicate Fires(s: State, s': State, w: Holder) {
    && HeldBy(s, w).Some? && HeldBy(s', w) == None
    && (forall v :: v != w ==> HeldBy(s', v) == HeldBy(s, v))
    && s'.calls.Keys == s.calls.Keys
    && s'.succeeded + s'.aborted == s.succeeded + s.aborted + multiset{HeldBy(s, w).value}
  }

  lemma FiringKeepsLedger(s: State, s': State, w: Holder)
    requires HoldersOk(s) && FiringsOk(s) && Fires(s, s', w)
    ensures HoldersOk(s') && FiringsOk(s')
  {
    var fired := HeldBy(s, w).value;
    forall c
      ensures Fired(s', c) == Fired(s, c) + if c == fired then 1 else 0
    {
      assert (s'.succeeded + s'.aborted)[c] == (s.succeeded + s.aborted + multiset{fired})[c];
    }
    forall c | c in s'.calls && Fired(s', c) == 0
      ensures HasHolder(s', c)
    {
      assert Fired(s, c) == 0;
      var v :| HeldBy(s, v) == Some(c);
      assert HeldBy(s', v) == Some(c);
    }
  }

  lemma EnterKeepsLedger(s: State, s': State, c: nat)
    requires HoldersOk(s) && FiringsOk(s) && WaitEnter(s, s', c)
    ensures HoldersOk(s') && FiringsOk(s')
  {
    assert HeldBy(s', ByCall(c)) == Some(c) && HeldBy(s, ByCall(c)) == None;
    assert forall v :: v != ByCall(c) ==> HeldBy(s', v) == HeldBy(s, v);
    assert forall d :: Fired(s', d) == Fired(s, d);
    forall d | d in s'.calls && Fired(s', d) == 0
      ensures HasHolder(s', d)
    {
      if d != c {
        assert Fired(s, d) == 0;
        var v :| HeldBy(s, v) == Some(d);
        assert HeldBy(s', v) == Some(d);
      }
    }
  }

  lemma CallStepLeavesOthers(s: State, s': State, c: nat)
    requires WaitStep(s, s', c)
    ensures s'.calls.Keys == s.calls.Keys
    ensures forall w :: w != ByCall(c) && w != InPending ==> HeldBy(s', w) == HeldBy(s, w)
  {
  }

  predicate FiresNow(pc: WaitPc) {
    pc.CompleteNow? || pc.AbortOld? || pc.FireTaken?
  }

  lemma WaitStepFires(s: State, s': State, c: nat)
    requires WaitStep(s, s', c) && FiresNow(s.calls[c])
    ensures Fires(s, s', ByCall(c))
  {
    CallStepLeavesOthers(s, s', c);
  }

  lemma WaitStepExchanges(s: State, s': State, c: nat)
    requires WaitStep(s, s', c) && !FiresNow(s.calls[c])
    ensures SameLedger(s, s')
    ensures
      var other := if s.calls[c].Store? || s.calls[c].Take? then InPending else ByCall(c);
      Exchanges(s, s', ByCall(c), other)
  {
    CallStepLeavesOthers(s, s', c);
  }

  lemma WaitStepKeepsLedger(s: State, s': State, c: nat)
    requires HoldersOk(s) && FiringsOk(s) && WaitStep(s, s', c)
    ensures HoldersOk(s') && FiringsOk(s')
  {
    if FiresNow(s.calls[c]) {
      WaitStepFires(s, s', c);
      FiringKeepsLedger(s, s', ByCall(c));
    } else {
      WaitStepExchanges(s, s', c);
      var other := if s.calls[c].Store? || s.calls[c].Take? then InPending else ByCall(c);
      ExchangeKeepsLedger(s, s', ByCall(c), other);
    }
  }

  lemma CloseStepKeepsLedger(s: State, s': State, k: nat)
    requires HoldersOk(s) && FiringsOk(s) && CloseStep(s, s', k)
    ensures HoldersOk(s') && FiringsOk(s')
  {
    var pc := s.closers[k];
    if pc.CloseFire? {
      FiringKeepsLedger(s, s', ByCloser(k));
    } else if pc.CloseSwap? {
      ExchangeKeepsLedger(s, s', ByCloser(k), InPending);
    } else {
      ExchangeKeepsLedger(s, s', ByCloser(k), ByCloser(k));
    }
  }

  /** Steps that touch no completion. */
  ghost predicate QuietStep(s: State, s': State) {
    || OpenStep(s, s')
    || (exists k :: CloseEnter(s, s', k))
    || (exists h :: DriverPublish(s, s', h))
    || (exists t :: ClientDrain(s, s', t))
  }

  lemma QuietStepKeepsLedger(s: State, s': State)
    requires HoldersOk(s) && FiringsOk(s) && QuietStep(s, s')
    ensures HoldersOk(s') && FiringsOk(s')
  {
    assert SameLedger(s, s');
    assert forall w :: HeldBy(s', w) == HeldBy(s, w);
    ExchangeKeepsLedger(s, s', InPending, InPending);
  }

  lemma DriverStepKeepsLedger(s: State, s': State)
    requires HoldersOk(s) && FiringsOk(s) && (DriverNotify(s, s') || DriverComplete(s, s'))
    ensures HoldersOk(s') && FiringsOk(s')
  {
    if DriverNotify(s, s') {
      ExchangeKeepsLedger(s, s', ByDriver, InPending);
    } else {
      FiringKeepsLedger(s, s', ByDriver);
    }
  }

  lemma StepKeepsLedger(s: State, s': State)
    requires HoldersOk(s) && FiringsOk(s) && Next(s, s')
    ensures HoldersOk(s') && FiringsOk(s')
  {
    if c :| WaitEnter(s, s', c) {
      EnterKeepsLedger(s, s', c);
    } else if c :| WaitStep(s, s', c) {
      WaitStepKeepsLedger(s, s', c);
    } else if k :| CloseStep(s, s', k) {
      CloseStepKeepsLedger(s, s', k);
    } else if QuietStep(s, s') {
      QuietStepKeepsLedger(s, s');
    } else {
      DriverStepKeepsLedger(s, s');
    }
  }

  // ---- No wakeup is lost ----

  /** What the stored completion c still has coming when the ring is not empty. */
  ghost predicate Owed(s: State, c: nat)
    requires c in s.calls
  {
    || s.driver.Wrote?
    || s.calls[c].AbortOld? || s.calls[c].RecheckHead? || s.calls[c].Take?
    || (s.calls[c].RecheckTail? && s.calls[c].head == s.head)
  }

  ghost predicate WakeupOk(s: State) {
    && s.tail <= s.head
    && (s.pending.Some? ==>
          && s.pending.value in s.calls
          && (s.head != s.tail ==> Owed(s, s.pending.value)))
  }

  lemma WaitStepKeepsWakeup(s: State, s': State, c: nat)
    requires HoldersOk(s) && WakeupOk(s) && WaitStep(s, s', c)
    ensures WakeupOk(s')
  {
    if s.pending.Some? && s.pending.value == c {
      // The stored completion is no longer held by its own call.
      assert HeldBy(s, InPending) == Some(c);
      assert HeldBy(s, ByCall(c)) != Some(c);
    }
  }

  lemma StepKeepsWakeup(s: State, s': State)
    requires HoldersOk(s) && WakeupOk(s) && Next(s, s')
    ensures WakeupOk(s')
  {
    if c :| WaitStep(s, s', c) {
      WaitStepKeepsWakeup(s, s', c);
    } else if k :| CloseStep(s, s', k) {
      assert s'.pending.Some? ==> s'.pending == s.pending;
    } else {
      assert s'.pending.Some? ==> s'.pending == s.pending && s'.calls[s.pending.value] == s.calls[s.pending.value];
    }
  }

  ghost predicate Inv(s: State) {
    HoldersOk(s) && FiringsOk(s) && WakeupOk(s)
  }

  lemma {:induction false} RunKeepsInv(run: seq<State>, i: nat)
    requires IsRun(run) && i < |run|
    ensures Inv(run[i])
  {
    if i > 0 {
      RunKeepsInv(run, i - 1);
      assert StepAt(run, i - 1);
      StepKeepsLedger(run[i - 1], run[i]);
      StepKeepsWakeup(run[i - 1], run[i]);
    }
  }

  // ---- Main results ----

  /** In every run: a non-empty ring with a stored completion means that the
      driver still has to notify, or that the call which stored the completion
      has its re-check still ahead or is in one that will find the data. */
  lemma NoLostWakeup(run: seq<State>, i: nat)
    requires IsRun(run) && i < |run|
    requires run[i].pending.Some? && run[i].head != run[i].tail
    ensures
      var c := run[i].pending.value;
      c in run[i].calls && Owed(run[i], c)
  {
    RunKeepsInv(run, i);
  }

  /** In every run: an accepted completion is fired at most once, and until then
      exactly one party holds it. */
  lemma FiredExactlyOnceOrHeld(run: seq<State>, i: nat, c: nat)
    requires IsRun(run) && i < |run| && c in run[i].calls
    ensures Fired(run[i], c) <= 1
    ensures Fired(run[i], c) == 0 <==> HasHolder(run[i], c)
    ensures forall w, w' :: HeldBy(run[i], w) == Some(c) && HeldBy(run[i], w') == Some(c) ==> w == w'
  {
    RunKeepsInv(run, i);
  }

  /** Nobody is in the middle of a call. */
  ghost predicate AtRest(s: State) {
    && s.driver.DriverIdle?
    && (forall c :: c in s.calls ==> s.calls[c].Finished?)
    && (forall k :: k in s.closers ==> s.closers[k].CloseDone?)
  }

  /** Once all calls have returned, every accepted completion has been fired
      exactly once or is the single stored one, and a stored one means that the
      client has drained everything. */
  lemma AtRestNobodyWaitsForNothing(run: seq<State>, i: nat, c: nat)
    requires IsRun(run) && i < |run| && AtRest(run[i]) && c in run[i].calls
    ensures Fired(run[i], c) == if run[i].pending == Some(c) then 0 else 1
    ensures run[i].pending == Some(c) ==> run[i].head == run[i].tail
  {
    RunKeepsInv(run, i);
    var s := run[i];
    forall w | HeldBy(s, w) == Some(c)
      ensures w == InPending
    {
    }
    assert HeldBy(s, InPending) == s.pending;
  }
}
