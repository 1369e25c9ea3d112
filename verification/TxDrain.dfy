/**
 The transmit drain: `drainTxRing` (usb_can_driver/codecs/pcan_codec.h) loads the
 tail and copies the entry there, `SendRawBytes` (usb_can_driver/usb_can_driver.cpp) claims the
 in-flight flag by compare-and-swap and submits the transfer, and only a
 successful submit lets the drain advance tail. Drains started from different
 queues overlap with each other and with write completions; each action below is
 one sequentially consistent step. The ring is the append-only log of its entries;
 `TxRing` says when the ring of 16384 bytes is one.
 */
module TxDrain {
  import opened CanFrame

  /** One DrainTxRing call, by the next thing it does. */
  datatype DrainPc =
    | CheckFlag
    | LoadTail
    | CopyEntry(pos: nat)
    | Claim(pos: nat, frame: Frame)
    | Submit(pos: nat, frame: Frame)
    | Release
    | Publish(pos: nat)
    | Returned

  /** `wire` is what the pipe accepted, `sentAt` the log positions it came from. */
  datatype State = State(
    log: seq<Frame>, tail: nat, inFlight: bool, outstanding: bool,
    drains: map<nat, DrainPc>, wire: seq<Frame>, sentAt: seq<nat>)

  datatype Action =
    | Append(frame: Frame)
    | Begin(d: nat)
    | Advance(d: nat, accepted: bool)
    | WriteComplete

  function Start(): State {
    State([], 0, false, false, map[], [], [])
  }

  function SetPc(s: State, d: nat, pc: DrainPc): State {
    s.(drains := s.drains[d := pc])
  }

  function DrainStep(s: State, d: nat, accepted: bool): State
    requires d in s.drains
  {
    match s.drains[d]
    case CheckFlag => SetPc(s, d, if s.inFlight then Returned else LoadTail)
    case LoadTail => SetPc(s, d, CopyEntry(s.tail))
    case CopyEntry(t) => SetPc(s, d, if t < |s.log| then Claim(t, s.log[t]) else Returned)
    case Claim(t, f) =>
      if s.inFlight then SetPc(s, d, Returned) else SetPc(s, d, Submit(t, f)).(inFlight := true)
    case Submit(t, f) =>
      if accepted
      then SetPc(s, d, Publish(t)).(outstanding := true, wire := s.wire + [f], sentAt := s.sentAt + [t])
      else SetPc(s, d, Release)
    case Release => SetPc(s, d, Returned).(inFlight := false)
    case Publish(t) => SetPc(s, d, Returned).(tail := t + 1)
    case Returned => s
  }

  /** The state after one action; an action that is not enabled changes nothing. */
  function Do(s: State, a: Action): State {
    match a
    case Append(f) => s.(log := s.log + [f])
    case Begin(d) => if d in s.drains then s else SetPc(s, d, CheckFlag)
    case Advance(d, accepted) => if d in s.drains then DrainStep(s, d, accepted) else s
    case WriteComplete => if s.outstanding then s.(inFlight := false, outstanding := false) else s
  }

  function Run(actions: seq<Action>): State {
    if actions == [] then Start() else Do(Run(actions[..|actions| - 1]), actions[|actions| - 1])
  }

  // ---- Any overlap: at least once ----

  ghost predicate SentBelow(s: State, n: nat) {
    forall p :: 0 <= p < n ==> p in s.sentAt
  }

  ghost predicate DrainOk(s: State, pc: DrainPc) {
    match pc
    case CopyEntry(t) => SentBelow(s, t)
    case Claim(t, f) => t < |s.log| && f == s.log[t] && SentBelow(s, t)
    case Submit(t, f) => t < |s.log| && f == s.log[t] && SentBelow(s, t)
    case Publish(t) => t < |s.log| && SentBelow(s, t + 1)
    case _ => true
  }

  ghost predicate Inv(s: State) {
    && s.tail <= |s.log|
    && SentBelow(s, s.tail)
    && (forall d :: d in s.drains ==> DrainOk(s, s.drains[d]))
    && |s.wire| == |s.sentAt|
    && (forall i :: 0 <= i < |s.sentAt| ==> s.sentAt[i] < |s.log| && s.wire[i] == s.log[s.sentAt[i]])
  }

  lemma MoreSent(s: State, s': State, n: nat)
    requires SentBelow(s, n) && s.sentAt <= s'.sentAt
    ensures SentBelow(s', n)
  {
    forall p | 0 <= p < n
      ensures p in s'.sentAt
    {
      assert p in s.sentAt;
      var i :| 0 <= i < |s.sentAt| && s.sentAt[i] == p;
      assert s'.sentAt[i] == p;
    }
  }

  /** Log and wire only grow, so what held of a waiting drain still holds. */
  lemma DrainStaysOk(s: State, s': State, pc: DrainPc)
    requires DrainOk(s, pc) && s.log <= s'.log && s.sentAt <= s'.sentAt
    ensures DrainOk(s', pc)
  {
    match pc
    case CopyEntry(t) => MoreSent(s, s', t);
    case Claim(t, _) => MoreSent(s, s', t);
    case Submit(t, _) => MoreSent(s, s', t);
    case Publish(t) => MoreSent(s, s', t + 1);
    case _ =>
  }

  lemma StepOfDrainOk(s: State, d: nat, accepted: bool)
    requires Inv(s) && d in s.drains
    ensures
      var s' := DrainStep(s, d, accepted);
      && d in s'.drains && DrainOk(s', s'.drains[d])
      && s'.tail <= |s'.log| && SentBelow(s', s'.tail)
  {
    var s' := DrainStep(s, d, accepted);
    MoreSent(s, s', s.tail);
    match s.drains[d]
    case Submit(t, _) =>
      MoreSent(s, s', t);
      if accepted {
        assert s'.sentAt[|s.sentAt|] == t;
      }
    case Publish(t) => MoreSent(s, s', t + 1);
    case Claim(t, _) => MoreSent(s, s', t);
    case CopyEntry(t) => MoreSent(s, s', t);
    case _ =>
  }

  lemma DrainStepKeepsInv(s: State, d: nat, accepted: bool)
    requires Inv(s) && d in s.drains
    ensures Inv(DrainStep(s, d, accepted))
  {
    var s' := DrainStep(s, d, accepted);
    StepOfDrainOk(s, d, accepted);
    forall e | e in s'.drains
      ensures DrainOk(s', s'.drains[e])
    {
      if e != d {
        DrainStaysOk(s, s', s.drains[e]);
      }
    }
    assert DrainOk(s, s.drains[d]);
  }

  lemma StepKeepsInv(s: State, a: Action)
    requires Inv(s)
    ensures Inv(Do(s, a))
  {
    var s' := Do(s, a);
    if a.Advance? && a.d in s.drains {
      DrainStepKeepsInv(s, a.d, a.accepted);
    } else {
      MoreSent(s, s', s.tail);
      forall e | e in s.drains
        ensures DrainOk(s', s.drains[e])
      {
        DrainStaysOk(s, s', s.drains[e]);
      }
    }
  }

  lemma {:induction false} RunKeepsInv(actions: seq<Action>)
    ensures Inv(Run(actions))
  {
    if actions != [] {
      RunKeepsInv(actions[..|actions| - 1]);
      StepKeepsInv(Run(actions[..|actions| - 1]), actions[|actions| - 1]);
    }
  }

  /** However drains and completions overlap, every log position below the
      published tail was accepted by the pipe, and with its own frame. */
  lemma AtLeastOnce(actions: seq<Action>, p: nat)
    requires p < Run(actions).tail
    ensures
      var s := Run(actions);
      p < |s.log| && exists i :: 0 <= i < |s.sentAt| == |s.wire| && s.sentAt[i] == p && s.wire[i] == s.log[p]
  {
    RunKeepsInv(actions);
    var s := Run(actions);
    assert p in s.sentAt;
    var i :| 0 <= i < |s.sentAt| && s.sentAt[i] == p;
    assert s.wire[i] == s.log[p];
  }

  // ---- Exactly once, and exactly when ----

  /** The pipe has accepted positions 0, 1, 2, ... once each and in order. */
  ghost predicate InOrderOnce(s: State) {
    forall i :: 0 <= i < |s.sentAt| ==> s.sentAt[i] == i
  }

  ghost predicate Publishing(s: State, d: nat) {
    d in s.drains && s.drains[d].Publish?
  }

  /** Drain d copied the entry at the current tail, and no accepted frame still
      waits for its tail to be published. */
  ghost predicate CopyIsCurrent(s: State, d: nat)
    requires d in s.drains && s.drains[d].Submit?
  {
    s.drains[d].pos == s.tail && forall e :: !Publishing(s, e)
  }

  /** Action i is a submit that the pipe accepts. */
  ghost predicate AcceptsAt(actions: seq<Action>, i: nat)
    requires i < |actions|
  {
    var s, a := Run(actions[..i]), actions[i];
    a.Advance? && a.accepted && a.d in s.drains && s.drains[a.d].Submit?
  }

  ghost predicate CurrentAt(actions: seq<Action>, i: nat)
    requires i < |actions|
  {
    AcceptsAt(actions, i) ==> CopyIsCurrent(Run(actions[..i]), actions[i].d)
  }

  ghost predicate EverySubmitCurrent(actions: seq<Action>) {
    forall i :: 0 <= i < |actions| ==> CurrentAt(actions, i)
  }

  ghost predicate AlwaysInOrderOnce(actions: seq<Action>) {
    forall n :: 0 <= n <= |actions| ==> InOrderOnce(Run(actions[..n]))
  }

  ghost predicate CopyOf(pc: DrainPc, tail: nat) {
    match pc
    case CopyEntry(t) => t <= tail
    case Claim(t, _) => t <= tail
    case Submit(t, _) => t <= tail
    case Publish(t) => t == tail
    case _ => true
  }

  /** While every accepted copy is current: tail and wire agree, up to the one
      drain that has sent and not yet published. */
  ghost predicate Orderly(s: State) {
    && InOrderOnce(s)
    && (forall d :: d in s.drains ==> CopyOf(s.drains[d], s.tail))
    && (forall d, e :: Publishing(s, d) && Publishing(s, e) ==> d == e)
    && (s.tail == |s.sentAt| || s.tail + 1 == |s.sentAt|)
    && (s.tail + 1 == |s.sentAt| <==> exists d :: Publishing(s, d))
  }

  /** One accepted submit: the wire stays in order exactly if the copy was current. */
  lemma SubmitInOrderIffCurrent(s: State, d: nat)
    requires Orderly(s) && d in s.drains && s.drains[d].Submit?
    ensures InOrderOnce(DrainStep(s, d, true)) <==> CopyIsCurrent(s, d)
  {
    var s', n := DrainStep(s, d, true), |s.sentAt|;
    assert s'.sentAt[n] == s.drains[d].pos;
    assert CopyOf(s.drains[d], s.tail);
  }

  lemma PublishKeepsOrderly(s: State, d: nat)
    requires Orderly(s) && Publishing(s, d)
    ensures Orderly(DrainStep(s, d, false)) && Orderly(DrainStep(s, d, true))
  {
    var s' := DrainStep(s, d, false);
    assert CopyOf(s.drains[d], s.tail);
    forall e | e in s'.drains
      ensures CopyOf(s'.drains[e], s'.tail) && !Publishing(s', e)
    {
      assert e != d ==> CopyOf(s.drains[e], s.tail) && !Publishing(s, e);
    }
  }

  lemma SubmitKeepsOrderly(s: State, d: nat)
    requires Orderly(s) && d in s.drains && s.drains[d].Submit? && CopyIsCurrent(s, d)
    ensures Orderly(DrainStep(s, d, true))
  {
    var s' := DrainStep(s, d, true);
    SubmitInOrderIffCurrent(s, d);
    assert Publishing(s', d);
    forall e | e in s'.drains
      ensures CopyOf(s'.drains[e], s'.tail) && (Publishing(s', e) ==> e == d)
    {
      assert e != d ==> CopyOf(s.drains[e], s.tail) && !Publishing(s, e);
    }
  }

  lemma QuietStepKeepsOrderly(s: State, d: nat, pc: DrainPc)
    requires Orderly(s) && !Publishing(s, d) && !pc.Publish? && CopyOf(pc, s.tail)
    ensures Orderly(SetPc(s, d, pc))
  {
    var s' := SetPc(s, d, pc);
    assert forall e :: Publishing(s', e) <==> Publishing(s, e);
  }

  lemma SameDrainsStayOrderly(s: State, s': State)
    requires Orderly(s) && s'.drains == s.drains && s'.tail == s.tail && s'.sentAt == s.sentAt
    ensures Orderly(s')
  {
    assert forall e :: Publishing(s', e) <==> Publishing(s, e);
  }

  lemma DrainStepKeepsOrderly(s: State, d: nat, accepted: bool)
    requires Orderly(s) && d in s.drains
    requires accepted && s.drains[d].Submit? ==> CopyIsCurrent(s, d)
    ensures Orderly(DrainStep(s, d, accepted))
  {
    assert CopyOf(s.drains[d], s.tail);
    var s' := DrainStep(s, d, accepted);
    match s.drains[d]
    case Publish(_) => PublishKeepsOrderly(s, d);
    case Returned =>
    case Submit(_, _) =>
      if accepted {
        SubmitKeepsOrderly(s, d);
      } else {
        QuietStepKeepsOrderly(s, d, Release);
      }
    case _ =>
      QuietStepKeepsOrderly(s, d, s'.drains[d]);
      SameDrainsStayOrderly(SetPc(s, d, s'.drains[d]), s');
  }

  lemma StepKeepsOrderly(s: State, a: Action)
    requires Orderly(s)
    requires a.Advance? && a.accepted && a.d in s.drains && s.drains[a.d].Submit? ==> CopyIsCurrent(s, a.d)
    ensures Orderly(Do(s, a))
  {
    if a.Advance? && a.d in s.drains {
      DrainStepKeepsOrderly(s, a.d, a.accepted);
    } else if a.Begin? && a.d !in s.drains {
      QuietStepKeepsOrderly(s, a.d, CheckFlag);
    } else {
      SameDrainsStayOrderly(s, Do(s, a));
    }
  }

  lemma PrefixIsCurrent(actions: seq<Action>, n: nat)
    requires EverySubmitCurrent(actions) && n <= |actions|
    ensures EverySubmitCurrent(actions[..n])
  {
    forall i | 0 <= i < n
      ensures CurrentAt(actions[..n], i)
    {
      assert actions[..n][..i] == actions[..i];
      assert CurrentAt(actions, i);
    }
  }

  lemma {:induction false} CurrentRunsAreOrderly(actions: seq<Action>)
    requires EverySubmitCurrent(actions)
    ensures Orderly(Run(actions))
  {
    if actions != [] {
      var n := |actions| - 1;
      var earlier := actions[..n];
      PrefixIsCurrent(actions, n);
      CurrentRunsAreOrderly(earlier);
      assert CurrentAt(actions, n);
      StepKeepsOrderly(Run(earlier), actions[n]);
    }
  }

  lemma LastSubmitIsCurrent(actions: seq<Action>, n: nat)
    requires |actions| == n + 1 && Orderly(Run(actions[..n])) && InOrderOnce(Run(actions))
    ensures CurrentAt(actions, n)
  {
    if AcceptsAt(actions, n) {
      SubmitInOrderIffCurrent(Run(actions[..n]), actions[n].d);
    }
  }

  lemma {:induction false} InOrderRunsAreCurrent(actions: seq<Action>)
    requires AlwaysInOrderOnce(actions)
    ensures EverySubmitCurrent(actions)
  {
    if actions != [] {
      var n := |actions| - 1;
      var earlier := actions[..n];
      forall k | 0 <= k <= n
        ensures InOrderOnce(Run(earlier[..k]))
      {
        assert earlier[..k] == actions[..k];
      }
      InOrderRunsAreCurrent(earlier);
      CurrentRunsAreOrderly(earlier);
      assert actions[..n + 1] == actions;
      LastSubmitIsCurrent(actions, n);
      forall i | 0 <= i < n
        ensures CurrentAt(actions, i)
      {
        assert CurrentAt(earlier, i);
        assert earlier[..i] == actions[..i];
      }
    }
  }

  /** Exactly-once, in-order transmission holds throughout a run if and only if
      every submit the pipe accepts is of a current copy. */
  lemma ExactlyOnceIffCurrent(actions: seq<Action>)
    ensures AlwaysInOrderOnce(actions) <==> EverySubmitCurrent(actions)
  {
    if AlwaysInOrderOnce(actions) {
      InOrderRunsAreCurrent(actions);
    }
    if EverySubmitCurrent(actions) {
      forall n | 0 <= n <= |actions|
        ensures InOrderOnce(Run(actions[..n]))
      {
        PrefixIsCurrent(actions, n);
        CurrentRunsAreOrderly(actions[..n]);
      }
    }
  }

  // ---- Serialised drains ----

  ghost predicate Active(s: State, d: nat) {
    d in s.drains && !s.drains[d].Returned?
  }

  ghost predicate OneDrain(s: State) {
    forall d, e :: Active(s, d) && Active(s, e) ==> d == e
  }

  /** At no point are two drains under way. */
  ghost predicate Serialised(actions: seq<Action>) {
    forall n :: 0 <= n <= |actions| ==> OneDrain(Run(actions[..n]))
  }

  ghost predicate CopiesCurrent(s: State) {
    forall d :: d in s.drains ==>
      match s.drains[d]
      case CopyEntry(t) => t == s.tail
      case Claim(t, _) => t == s.tail
      case Submit(t, _) => t == s.tail
      case _ => true
  }

  lemma StepKeepsCopiesCurrent(s: State, a: Action)
    requires OneDrain(s) && CopiesCurrent(s)
    ensures CopiesCurrent(Do(s, a))
  {
    if a.Advance? && a.d in s.drains && s.drains[a.d].Publish? {
      assert Active(s, a.d);
      assert forall e :: e != a.d && e in s.drains ==> !Active(s, e);
    }
  }

  lemma {:induction false} SerialisedCopiesAreCurrent(actions: seq<Action>)
    requires Serialised(actions)
    ensures CopiesCurrent(Run(actions))
  {
    if actions != [] {
      var n := |actions| - 1;
      forall k | 0 <= k <= n
        ensures OneDrain(Run(actions[..n][..k]))
      {
        assert actions[..n][..k] == actions[..k];
      }
      SerialisedCopiesAreCurrent(actions[..n]);
      StepKeepsCopiesCurrent(Run(actions[..n]), actions[n]);
    }
  }

  lemma PrefixIsSerialised(actions: seq<Action>, n: nat)
    requires Serialised(actions) && n <= |actions|
    ensures Serialised(actions[..n])
  {
    assert forall k :: 0 <= k <= n ==> actions[..n][..k] == actions[..k];
  }

  lemma SerialisedIsCurrent(actions: seq<Action>)
    requires Serialised(actions)
    ensures EverySubmitCurrent(actions)
  {
    forall i | 0 <= i < |actions|
      ensures CurrentAt(actions, i)
    {
      var s := Run(actions[..i]);
      forall k | 0 <= k <= i
        ensures OneDrain(Run(actions[..i][..k]))
      {
        assert actions[..i][..k] == actions[..k];
      }
      SerialisedCopiesAreCurrent(actions[..i]);
      if AcceptsAt(actions, i) {
        assert OneDrain(s);
        assert Active(s, actions[i].d);
        assert forall e :: Publishing(s, e) ==> Active(s, e);
      }
    }
  }

  /** Drains that do not overlap each other: whatever mix of busy, error and
      success the submits return, and however completions fall between, the pipe
      gets the log once each and in order, and between drains exactly the prefix
      below tail. */
  lemma SerialisedIsExactlyOnce(actions: seq<Action>)
    requires Serialised(actions)
    ensures
      var s := Run(actions);
      && s.tail <= |s.log| && s.wire <= s.log
      && ((forall d :: !Active(s, d)) ==> s.wire == s.log[..s.tail])
  {
    SerialisedIsCurrent(actions);
    CurrentRunsAreOrderly(actions);
    RunKeepsInv(actions);
    var s := Run(actions);
    assert s.wire == s.log[..|s.wire|];
    assert forall d :: Publishing(s, d) ==> Active(s, d);
  }

  // ---- Overlapping drains do send twice ----

  lemma Then(actions: seq<Action>, a: Action) returns (longer: seq<Action>)
    ensures longer == actions + [a]
    ensures Run(longer) == Do(Run(actions), a)
  {
    longer := actions + [a];
    assert longer[..|longer| - 1] == actions;
  }

  /** Drain d starts, sees no transfer in flight, loads tail and copies the entry there. */
  lemma CopyPhase(actions: seq<Action>, d: nat) returns (longer: seq<Action>)
    requires var s := Run(actions); d !in s.drains && !s.inFlight && s.tail < |s.log|
    ensures var s := Run(actions); Run(longer) == SetPc(s, d, Claim(s.tail, s.log[s.tail]))
  {
    longer := Then(actions, Begin(d));
    longer := Then(longer, Advance(d, true));
    longer := Then(longer, Advance(d, true));
    longer := Then(longer, Advance(d, true));
    assert Run(longer).drains == Run(actions).drains[d := Run(longer).drains[d]];
  }

  /** Drain d wins the flag and the pipe accepts its frame. */
  lemma SendPhase(actions: seq<Action>, d: nat) returns (longer: seq<Action>)
    requires var s := Run(actions); d in s.drains && s.drains[d].Claim? && !s.inFlight
    ensures
      var s := Run(actions);
      var t, f := s.drains[d].pos, s.drains[d].frame;
      Run(longer) == SetPc(s, d, Publish(t)).(
        inFlight := true, outstanding := true, wire := s.wire + [f], sentAt := s.sentAt + [t])
  {
    longer := Then(actions, Advance(d, true));
    longer := Then(longer, Advance(d, true));
    assert Run(longer).drains == Run(actions).drains[d := Run(longer).drains[d]];
  }

  /** Drain d publishes tail and the transfer completes. */
  lemma FinishPhase(actions: seq<Action>, d: nat) returns (longer: seq<Action>)
    requires var s := Run(actions); Publishing(s, d) && s.outstanding
    ensures
      var s := Run(actions);
      Run(longer) == SetPc(s, d, Returned).(
        tail := s.drains[d].pos + 1, inFlight := false, outstanding := false)
  {
    longer := Then(actions, Advance(d, true));
    longer := Then(longer, WriteComplete);
  }

  /** Two drains copy position 0, and one of them sends and publishes it. */
  lemma TwoCopiesOneSent(f: Frame, g: Frame) returns (actions: seq<Action>)
    ensures Run(actions) == State([f, g], 1, false, false, map[0 := Returned, 1 := Claim(0, f)], [f], [0])
  {
    actions := Then([], Append(f));
    actions := Then(actions, Append(g));
    actions := CopyPhase(actions, 0);
    actions := CopyPhase(actions, 1);
    actions := SendPhase(actions, 0);
    actions := FinishPhase(actions, 0);
    assert Run(actions).drains == map[0 := Returned, 1 := Claim(0, f)];
  }

  /** Without serialisation: three drains send position 0, 1 and then 0 again,
      and the late one moves tail backwards. */
  lemma OverlapSendsTwiceAndMovesTailBack(f: Frame, g: Frame) returns (actions: seq<Action>, last: Action)
    ensures Run(actions).sentAt == [0, 1, 0]
    ensures Run(actions).tail == 2
    ensures Run(actions + [last]).tail == 1
  {
    actions := TwoCopiesOneSent(f, g);
    actions := CopyPhase(actions, 2);
    actions := SendPhase(actions, 2);
    actions := FinishPhase(actions, 2);
    actions := SendPhase(actions, 1);
    last := Advance(1, true);
    var longer := Then(actions, last);
  }

  // ---- The in-flight flag ----

  ghost predicate Claiming(s: State, d: nat) {
    d in s.drains && (s.drains[d].Submit? || s.drains[d].Release?)
  }

  /** The flag is set exactly while a drain is about to submit or to take back its claim, or
      a transfer is outstanding; and never for two at once. */
  ghost predicate FlagOk(s: State) {
    && (s.inFlight <==> s.outstanding || exists d :: Claiming(s, d))
    && (forall d :: Claiming(s, d) ==> !s.outstanding)
    && (forall d, e :: Claiming(s, d) && Claiming(s, e) ==> d == e)
  }

  lemma StepKeepsFlag(s: State, a: Action)
    requires FlagOk(s)
    ensures FlagOk(Do(s, a))
  {
    var s' := Do(s, a);
    if a.Advance? && a.d in s.drains {
      assert forall e :: e != a.d ==> (Claiming(s', e) <==> Claiming(s, e));
      assert Claiming(s', a.d) || !Claiming(s', a.d);
      assert Claiming(s, a.d) || !Claiming(s, a.d);
    } else {
      assert forall e :: Claiming(s', e) <==> Claiming(s, e);
    }
  }

  /** In every run the flag tells the truth: no two transfers overlap, and after a failed
      submit or a completion the pipe is free again. */
  lemma {:induction false} FlagIsTruthful(actions: seq<Action>)
    ensures FlagOk(Run(actions))
  {
    if actions == [] {
      assert forall d :: !Claiming(Start(), d);
    } else {
      FlagIsTruthful(actions[..|actions| - 1]);
      StepKeepsFlag(Run(actions[..|actions| - 1]), actions[|actions| - 1]);
    }
  }

  /** A drain that finds the flag set returns and changes nothing else. */
  lemma BusyDrainDoesNothing(actions: seq<Action>, d: nat, accepted: bool) returns (longer: seq<Action>)
    requires d !in Run(actions).drains && Run(actions).inFlight
    ensures Run(longer) == SetPc(Run(actions), d, Returned)
  {
    longer := Then(actions, Begin(d));
    longer := Then(longer, Advance(d, accepted));
    assert Run(longer).drains == Run(actions).drains[d := Returned];
  }

  /** A drain whose submit fails leaves log, tail and wire as they were, and the pipe free. */
  lemma FailedDrainChangesNothing(actions: seq<Action>, d: nat) returns (longer: seq<Action>)
    requires var s := Run(actions); d !in s.drains && !s.inFlight && s.tail < |s.log|
    ensures Run(longer) == SetPc(Run(actions), d, Returned)
  {
    longer := CopyPhase(actions, d);
    longer := Then(longer, Advance(d, false));
    longer := Then(longer, Advance(d, false));
    longer := Then(longer, Advance(d, false));
    assert Run(longer).drains == Run(actions).drains[d := Returned];
  }
}
