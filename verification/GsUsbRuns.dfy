/**
 Runs of the gs_usb flow control: what holds after any sequence of drains, echoes,
 timer ticks and resets, and when the timer frees a place.
 */
module GsUsbRuns {
  import opened MachineInts
  import opened GsUsb
  import opened GsUsbFlow
  import opened Results
  import opened RingEntry
  import opened RingIo
  import opened RingStream
  import opened SharedRing

  /** A drain that finds a frame and whether the send callback accepts it; an echo; a
      timer tick; a reset. */
  datatype Event = Send(accepted: bool) | Echo | Tick(now: u64) | Reset

  function Step(s: Flow, e: Event): Flow {
    match e
    case Send(accepted) => if accepted && CanSend(s) then AfterSent(s) else s
    case Echo => AfterEcho(s)
    case Tick(now) => AfterTick(s, now)
    case Reset => IDLE
  }

  function Run(es: seq<Event>): Flow {
    if es == [] then IDLE else Step(Run(es[..|es| - 1]), es[|es| - 1])
  }

  // ---- Accounting ----

  /** Since the last reset: sends accepted, echoes that freed a place, places the timer
      freed. */
  datatype Account = Account(accepted: nat, echoed: nat, released: nat)

  function AccountStep(a: Account, s: Flow, e: Event): Account {
    match e
    case Send(accepted) => if accepted && CanSend(s) then a.(accepted := a.accepted + 1) else a
    case Echo => if s.inflight > 0 then a.(echoed := a.echoed + 1) else a
    case Tick(now) => if Releases(s, now) then a.(released := a.released + 1) else a
    case Reset => Account(0, 0, 0)
  }

  function AccountOf(es: seq<Event>): Account {
    if es == [] then Account(0, 0, 0)
    else AccountStep(AccountOf(es[..|es| - 1]), Run(es[..|es| - 1]), es[|es| - 1])
  }

  /** Whatever the ticks say: never more than ten in flight, exactly those accepted and
      neither echoed nor released, and a stall is only timed at the limit. */
  lemma {:induction false} FlowIsAccounted(es: seq<Event>)
    ensures Run(es).inflight <= MAX_ECHO_INFLIGHT
    ensures Run(es).inflight == AccountOf(es).accepted - AccountOf(es).echoed - AccountOf(es).released
    ensures Run(es).stallStart != 0 ==> Run(es).inflight == MAX_ECHO_INFLIGHT
  {
    if es != [] {
      FlowIsAccounted(es[..|es| - 1]);
    }
  }

  // ---- The codec's calls are steps of the run model ----

  datatype Call = Drain(txInFlight: bool, result: Status) | Transfer(data: seq<byte>) | Timer(now: u64) | Forget

  /** The event a call amounts to, when the ring holds the bytes `b`; a transfer that is no
      echo is none. */
  function EventsOf(call: Call, b: seq<byte>): seq<Event> {
    match call
    case Drain(txInFlight, result) =>
      [Event.Send(!txInFlight && result == Success && ParseTx(SkipDropped(b).0).TxFrame?)]
    case Transfer(data) => if DecodeTransfer(data).TxEcho? then [Echo] else []
    case Timer(now) => [Tick(now)]
    case Forget => [Reset]
  }

  /** The state after no event or one. */
  function After(s: Flow, es: seq<Event>): Flow
    requires |es| <= 1
  {
    if es == [] then s else Step(s, es[0])
  }

  lemma RunNext(es: seq<Event>, more: seq<Event>)
    requires |more| <= 1
    ensures Run(es + more) == After(Run(es), more)
  {
    if more == [] {
      assert es + more == es;
    } else {
      assert (es + more)[..|es + more| - 1] == es;
    }
  }

  method PerformCall(c: Codec, h: SharedRingHeader, r: Ring, call: Call)
    requires r.Valid()
    modifies c, h`txDropped, h`txDrainCount, r.ctrl
    ensures r.Valid()
    ensures c.State() == After(old(c.State()), EventsOf(call, old(r.Bytes())))
  {
    match call
    case Drain(txInFlight, result) => var status, sent := c.DrainTx(h, r, txInFlight, result);
    case Transfer(data) => var frames := c.ProcessRxData(data);
    case Timer(now) => var released := c.CheckStall(now);
    case Forget => c.ResetEcho();
  }

  method Perform(c: Codec, h: SharedRingHeader, r: Ring, call: Call, ghost es: seq<Event>)
    requires r.Valid() && c.State() == Run(es)
    modifies c, h`txDropped, h`txDrainCount, r.ctrl
    ensures r.Valid()
    ensures c.State() == Run(es + EventsOf(call, old(r.Bytes())))
  {
    RunNext(es, EventsOf(call, r.Bytes()));
    PerformCall(c, h, r, call);
  }

  /** Any sequence of calls on a new codec is a run, so what holds of runs holds of it. */
  method PerformAll(c: Codec, h: SharedRingHeader, r: Ring, calls: seq<Call>) returns (ghost es: seq<Event>)
    requires r.Valid() && c.State() == IDLE
    modifies c, h`txDropped, h`txDrainCount, r.ctrl
    ensures r.Valid() && c.State() == Run(es)
    ensures c.echoInflight <= MAX_ECHO_INFLIGHT
    ensures c.echoInflight == AccountOf(es).accepted - AccountOf(es).echoed - AccountOf(es).released
  {
    es := [];
    for i := 0 to |calls|
      invariant r.Valid() && c.State() == Run(es)
    {
      ghost var b := r.Bytes();
      Perform(c, h, r, calls[i], es);
      es := es + EventsOf(calls[i], b);
    }
    FlowIsAccounted(es);
  }

  // ---- The stall timer ----

  /** Ticks are non-zero and never go back. */
  ghost predicate Monotone(es: seq<Event>) {
    && (forall i :: 0 <= i < |es| && es[i].Tick? ==> es[i].now > 0)
    && (forall i, j :: 0 <= i < j < |es| && es[i].Tick? && es[j].Tick? ==> es[i].now <= es[j].now)
  }

  ghost predicate Quiet(es: seq<Event>, from: nat) {
    forall j :: from <= j < |es| ==> !es[j].Echo? && !es[j].Reset?
  }

  /** The tick at i saw ten in flight and started the stall that is still being timed. */
  ghost predicate StalledSince(es: seq<Event>, i: nat) {
    && i < |es| && es[i].Tick?
    && Quiet(es, i + 1)
    && forall j :: i < j <= |es| ==> Run(es[..j]) == Flow(MAX_ECHO_INFLIGHT, es[i].now)
  }

  lemma {:induction false} StallWasObserved(es: seq<Event>) returns (i: nat)
    requires Run(es).stallStart != 0
    ensures StalledSince(es, i) && es[i].now == Run(es).stallStart
  {
    FlowIsAccounted(es);
    var before, last := es[..|es| - 1], es[|es| - 1];
    FlowIsAccounted(before);
    assert es[..|es|] == es;
    if Run(before).stallStart == 0 {
      i := |es| - 1;
    } else {
      i := StallWasObserved(before);
      assert forall j :: 0 <= j <= |before| ==> before[..j] == es[..j];
    }
  }

  /** A place is freed only after more than 200 ms at the limit without an echo. */
  lemma ReleaseOnlyAfterTimeout(es: seq<Event>, now: u64)
    requires Monotone(es + [Tick(now)]) && Releases(Run(es), now)
    ensures exists i: nat :: StalledSince(es, i) && now - es[i].now > 200_000_000
  {
    var i := StallWasObserved(es);
    var all := es + [Tick(now)];
    assert all[i] == es[i] && all[|es|] == Tick(now);
  }

  lemma {:induction false} StallStartBefore(es: seq<Event>, t: u64)
    requires Monotone(es + [Tick(t)])
    ensures Run(es).stallStart <= t
  {
    if Run(es).stallStart != 0 {
      var i := StallWasObserved(es);
      var all := es + [Tick(t)];
      assert all[i] == es[i] && all[|es|] == Tick(t);
    }
  }

  /** No tick from index i on has freed a place. */
  predicate NoReleaseSince(es: seq<Event>, i: nat) {
    |es| <= i || (
      var before, last := es[..|es| - 1], es[|es| - 1];
      NoReleaseSince(before, i) && (last.Tick? ==> !Releases(Run(before), last.now)))
  }

  lemma {:induction false} StallGoesOn(es: seq<Event>, i: nat)
    requires i < |es| && es[i].Tick? && es[i].now > 0
    requires Run(es[..i]).inflight == MAX_ECHO_INFLIGHT && Run(es[..i]).stallStart <= es[i].now
    requires Quiet(es, i + 1) && NoReleaseSince(es, i)
    ensures Run(es).inflight == MAX_ECHO_INFLIGHT && 0 < Run(es).stallStart <= es[i].now
  {
    var n := |es| - 1;
    var before := es[..n];
    if n > i {
      assert before[..i] == es[..i];
      StallGoesOn(before, i);
    }
  }

  lemma MonotonePrefix(es: seq<Event>, i: nat, now: u64)
    requires i < |es| && es[i].Tick? && Monotone(es + [Tick(now)])
    ensures 0 < es[i].now <= now && Monotone(es[..i] + [Tick(es[i].now)])
  {
    var all, upTo := es + [Tick(now)], es[..i] + [Tick(es[i].now)];
    assert forall j :: 0 <= j <= i ==> upTo[j] == all[j];
    assert all[i] == es[i] && all[|es|] == Tick(now);
  }

  lemma ReleasesWithoutWrap(s: Flow, now: u64)
    requires s.inflight >= MAX_ECHO_INFLIGHT && 0 < s.stallStart <= now
    ensures Releases(s, now) <==> now - s.stallStart > STALL_TIMEOUT_NS
  {
  }

  /** The first tick more than 200 ms after a tick that saw the limit frees a place,
      unless an echo, a reset or an earlier tick has done so. */
  lemma StallIsReleased(es: seq<Event>, i: nat, now: u64)
    requires i < |es| && es[i].Tick? && Run(es[..i]).inflight == MAX_ECHO_INFLIGHT
    requires Monotone(es + [Tick(now)]) && Quiet(es, i + 1) && NoReleaseSince(es, i)
    requires now - es[i].now > 200_000_000
    ensures Releases(Run(es), now)
  {
    MonotonePrefix(es, i, now);
    StallStartBefore(es[..i], es[i].now);
    StallGoesOn(es, i);
    ReleasesWithoutWrap(Run(es), now);
  }

  /** Ten sends fit, and no more. */
  lemma {:induction false} TenSendsFit(n: nat)
    ensures Run(seq(n, i => Event.Send(true))).inflight == if n < 10 then n else 10
  {
    if n > 0 {
      TenSendsFit(n - 1);
      assert seq(n, i => Event.Send(true))[..n - 1] == seq(n - 1, i => Event.Send(true));
    }
  }
}
