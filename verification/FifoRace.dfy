/**
 One reader's FIFO as its threads see it (can_client/can_client.cc): the drainer that
 offers packets, the reader that takes them, registerReader and unregisterReader, and any
 number of openChannel calls, which empty the FIFO. They hold different locks or none, so
 every load and store is a step of its own; steps are sequentially consistent.
 */
module FifoRace {
  import opened CanFrame
  import opened FanOut

  /** fanOutPacket, by the next thing it does. */
  datatype OfferPc =
    | OfferIdle
    | CheckActive(packet: Packet, channel: int)
    | CheckChannel(packet: Packet, channel: int)
    | LoadHead(packet: Packet)
    | LoadTail(packet: Packet, head: nat)
    | StoreSlot(packet: Packet, head: nat)
    | StoreHead(packet: Packet, head: nat)

  /** readPacketFromReader. */
  datatype ReadPc = ReadIdle | CheckHead(tail: nat) | CopySlot(tail: nat) | StoreTail(tail: nat, packet: Packet)

  /** registerReader, which sets `active` first, and unregisterReader: one at a time. */
  datatype RegisterPc = RegisterIdle | SetChannel(channel: int) | RegisterHead | RegisterTail | ClearChannel

  /** One openChannel call. */
  datatype OpenPc = TestActive(channel: int) | TestChannel(channel: int) | OpenHead | OpenTail | OpenDone

  /** `accepted` and `taken` are what was published and taken since head was last zeroed;
      `half` says that tail has not been zeroed since. */
  datatype State = State(
    fifo: seq<Packet>, head: nat, tail: nat, active: bool, channel: int,
    offer: OfferPc, read: ReadPc, register: RegisterPc, openers: map<nat, OpenPc>,
    half: bool, accepted: seq<Packet>, taken: seq<Packet>)

  datatype Action =
    | Offer(packet: Packet, channel: int)
    | OfferStep
    | Read
    | ReadStep
    | Register(channel: int)
    | Unregister
    | RegisterStep
    | Open(k: nat, channel: int)
    | OpenStep(k: nat)

  predicate InBounds(s: State) {
    && |s.fifo| == FIFO_SIZE && s.head < FIFO_SIZE && s.tail < FIFO_SIZE
    && (HoldsHead(s) ==> s.offer.head < FIFO_SIZE)
    && (!s.read.ReadIdle? ==> s.read.tail < FIFO_SIZE)
  }

  /** The drainer has loaded a head and not yet finished its offer. */
  predicate HoldsHead(s: State) {
    s.offer.LoadTail? || s.offer.StoreSlot? || s.offer.StoreHead?
  }

  function Blank(): Packet {
    Packet(0, RawFrame.Frame(0, 0, 0, 0, 0, Zeros(CANFD_MAX_DLEN)))
  }

  function Start(): (s: State)
    ensures InBounds(s)
  {
    State(seq(FIFO_SIZE, i => Blank()), 0, 0, false, -1,
          OfferIdle, ReadIdle, RegisterIdle, map[], false, [], [])
  }

  function DoOffer(s: State): (s': State)
    requires InBounds(s)
    ensures InBounds(s')
  {
    match s.offer
    case OfferIdle => s
    case CheckActive(p, c) => s.(offer := if s.active then CheckChannel(p, c) else OfferIdle)
    case CheckChannel(p, c) => s.(offer := if s.channel == c then LoadHead(p) else OfferIdle)
    case LoadHead(p) => s.(offer := LoadTail(p, s.head))
    case LoadTail(p, h) => s.(offer := if At(h, 1) != s.tail then StoreSlot(p, h) else OfferIdle)
    case StoreSlot(p, h) => s.(fifo := s.fifo[h := p], offer := StoreHead(p, h))
    case StoreHead(p, h) => s.(head := At(h, 1), offer := OfferIdle, accepted := s.accepted + [p])
  }

  function DoRead(s: State): (s': State)
    requires InBounds(s)
    ensures InBounds(s')
  {
    match s.read
    case ReadIdle => s
    case CheckHead(t) => s.(read := if t == s.head then ReadIdle else CopySlot(t))
    case CopySlot(t) => s.(read := StoreTail(t, s.fifo[t]))
    case StoreTail(t, p) => s.(tail := At(t, 1), read := ReadIdle, taken := s.taken + [p])
  }

  function HeadZeroed(s: State): State {
    s.(head := 0, half := true, accepted := [], taken := [])
  }

  function TailZeroed(s: State): State {
    s.(tail := 0, half := false)
  }

  function DoRegister(s: State): (s': State)
    requires InBounds(s)
    ensures InBounds(s')
  {
    match s.register
    case RegisterIdle => s
    case SetChannel(c) => s.(channel := c, register := RegisterHead)
    case RegisterHead => HeadZeroed(s).(register := RegisterTail)
    case RegisterTail => TailZeroed(s).(register := RegisterIdle)
    case ClearChannel => s.(channel := -1, register := RegisterIdle)
  }

  function SetOpener(s: State, k: nat, pc: OpenPc): State {
    s.(openers := s.openers[k := pc])
  }

  function DoOpen(s: State, k: nat): (s': State)
    requires InBounds(s) && k in s.openers
    ensures InBounds(s')
  {
    match s.openers[k]
    case TestActive(c) => SetOpener(s, k, if s.active then TestChannel(c) else OpenDone)
    case TestChannel(c) => SetOpener(s, k, if s.channel == c then OpenHead else OpenDone)
    case OpenHead => SetOpener(HeadZeroed(s), k, OpenTail)
    case OpenTail => SetOpener(TailZeroed(s), k, OpenDone)
    case OpenDone => s
  }

  /** The state after one action; an action that is not enabled changes nothing. */
  function Do(s: State, a: Action): (s': State)
    requires InBounds(s)
    ensures InBounds(s')
  {
    match a
    case Offer(p, c) => if s.offer.OfferIdle? then s.(offer := CheckActive(p, c)) else s
    case OfferStep => DoOffer(s)
    case Read => if s.read.ReadIdle? then s.(read := CheckHead(s.tail)) else s
    case ReadStep => DoRead(s)
    case Register(c) =>
      if s.register.RegisterIdle? && !s.active then s.(active := true, register := SetChannel(c)) else s
    case Unregister => if s.register.RegisterIdle? then s.(active := false, register := ClearChannel) else s
    case RegisterStep => DoRegister(s)
    case Open(k, c) => if k in s.openers then s else SetOpener(s, k, TestActive(c))
    case OpenStep(k) => if k in s.openers then DoOpen(s, k) else s
  }

  function Run(actions: seq<Action>): (s: State)
    ensures InBounds(s)
  {
    if actions == [] then Start() else Do(Run(actions[..|actions| - 1]), actions[|actions| - 1])
  }

  // ---- What a right FIFO holds ----

  function Backlog(s: State): (n: nat)
    requires InBounds(s)
    ensures n < FIFO_SIZE
  {
    if s.head >= s.tail then s.head - s.tail else s.head + FIFO_SIZE - s.tail
  }

  /** What waits is what was accepted and not yet taken. */
  ghost predicate HoldsRest(s: State)
    requires InBounds(s)
  {
    && |s.taken| + Backlog(s) == |s.accepted|
    && s.taken == s.accepted[..|s.taken|]
    && forall i :: 0 <= i < Backlog(s) ==> s.fifo[At(s.tail, i)] == s.accepted[|s.taken| + i]
  }

  /** Between the two stores of a reset: the FIFO is filled again from slot 0, and has not
      reached the old tail. */
  ghost predicate HoldsFromZero(s: State)
    requires InBounds(s)
  {
    && s.taken == [] && |s.accepted| == s.head && (s.tail == 0 || s.head < s.tail)
    && forall i :: 0 <= i < s.head ==> s.fifo[i] == s.accepted[i]
  }

  ghost predicate Right(s: State)
    requires InBounds(s)
  {
    if s.half then HoldsFromZero(s) else HoldsRest(s)
  }

  /** What a right FIFO means to its reader. */
  lemma RightIsPrefix(s: State)
    requires InBounds(s) && Right(s)
    ensures s.taken <= s.accepted
  {
  }

  // ---- Exactly which steps keep it right ----

  predicate ZerosTail(s: State, a: Action) {
    || (a.RegisterStep? && s.register.RegisterTail?)
    || (a.OpenStep? && a.k in s.openers && s.openers[a.k].OpenTail?)
  }

  /** Slot k holds a packet that waits. */
  predicate Waits(s: State, k: nat)
    requires InBounds(s) && k < FIFO_SIZE
  {
    if s.half then k < s.head
    else (if k >= s.tail then k - s.tail else k + FIFO_SIZE - s.tail) < Backlog(s)
  }

  /** One more packet fits before the tail that the reader will see. */
  predicate Room(s: State)
    requires InBounds(s)
  {
    if s.half then s.head + 1 < (if s.tail == 0 then FIFO_SIZE else s.tail) else At(s.head, 1) != s.tail
  }

  /** The four stores that can spoil the FIFO: head is published where it was loaded and with
      room, no waiting packet is overwritten, tail is stored by a reader that took the packet
      at tail, and tail is zeroed once for a zeroed head. */
  predicate Meets(s: State, a: Action)
    requires InBounds(s)
  {
    && (a.OfferStep? && s.offer.StoreHead? ==> s.offer.head == s.head && Room(s))
    && (a.OfferStep? && s.offer.StoreSlot? ==>
          !Waits(s, s.offer.head) || s.fifo[s.offer.head] == s.offer.packet)
    && (a.ReadStep? && s.read.StoreTail? ==>
          !s.half && s.read.tail == s.tail != s.head && s.fifo[s.tail] == s.read.packet)
    && (ZerosTail(s, a) ==> s.half || s.tail == 0)
  }

  /** Before its last store the drainer has written its packet, and only it writes slots. */
  ghost predicate Stored(s: State)
    requires InBounds(s)
  {
    s.offer.StoreHead? ==> s.fifo[s.offer.head] == s.offer.packet
  }

  lemma {:induction false} RunKeepsStored(actions: seq<Action>)
    ensures Stored(Run(actions))
  {
    if actions != [] {
      RunKeepsStored(actions[..|actions| - 1]);
    }
  }

  lemma PublishRightIff(s: State)
    requires InBounds(s) && Stored(s) && Right(s) && s.offer.StoreHead?
    ensures Right(DoOffer(s)) <==> s.offer.head == s.head && Room(s)
  {
    var s' := DoOffer(s);
    if !s.half {
      assert s'.accepted[..|s.taken|] == s.accepted[..|s.taken|];
      if s.offer.head == s.head && Room(s) {
        assert At(s.tail, Backlog(s)) == s.head && Backlog(s') == Backlog(s) + 1;
      }
    }
  }

  lemma StoreRightIff(s: State)
    requires InBounds(s) && Right(s) && s.offer.StoreSlot?
    ensures Right(DoOffer(s)) <==> !Waits(s, s.offer.head) || s.fifo[s.offer.head] == s.offer.packet
  {
    var s', h := DoOffer(s), s.offer.head;
    if !s.half {
      var i := if h >= s.tail then h - s.tail else h + FIFO_SIZE - s.tail;
      assert At(s.tail, i) == h;
      assert forall j :: 0 <= j < FIFO_SIZE && j != i ==> At(s.tail, j) != h;
    }
  }

  lemma TakeRightIff(s: State)
    requires InBounds(s) && Right(s) && s.read.StoreTail?
    ensures Right(DoRead(s))
       <==> !s.half && s.read.tail == s.tail != s.head && s.fifo[s.tail] == s.read.packet
  {
    var s', n := DoRead(s), Backlog(s);
    if !s.half {
      assert At(s.tail, 0) == s.tail;
      if s.read.tail == s.tail != s.head {
        assert Backlog(s') == n - 1;
        assert forall i :: 0 <= i < n - 1 ==> At(s'.tail, i) == At(s.tail, i + 1);
        assert s.accepted[..|s.taken| + 1] == s.taken + [s.accepted[|s.taken|]];
      }
    }
  }

  lemma ZeroTailRightIff(s: State)
    requires InBounds(s) && Right(s)
    ensures InBounds(TailZeroed(s))
    ensures Right(TailZeroed(s)) <==> s.half || s.tail == 0
  {
    assert forall i :: 0 <= i < s.head ==> At(0, i) == i;
  }

  lemma OfferRightIff(s: State)
    requires InBounds(s) && Stored(s) && Right(s)
    ensures Right(DoOffer(s)) <==> Meets(s, OfferStep)
  {
    if s.offer.StoreHead? {
      PublishRightIff(s);
    } else if s.offer.StoreSlot? {
      StoreRightIff(s);
    }
  }

  lemma ReadRightIff(s: State)
    requires InBounds(s) && Right(s)
    ensures Right(DoRead(s)) <==> Meets(s, ReadStep)
  {
    if s.read.StoreTail? {
      TakeRightIff(s);
    }
  }

  lemma RegisterRightIff(s: State)
    requires InBounds(s) && Right(s)
    ensures Right(DoRegister(s)) <==> Meets(s, RegisterStep)
  {
    ZeroTailRightIff(s);
  }

  lemma OpenRightIff(s: State, k: nat)
    requires InBounds(s) && Right(s) && k in s.openers
    ensures Right(DoOpen(s, k)) <==> Meets(s, OpenStep(k))
  {
    ZeroTailRightIff(s);
  }

  /** One step of any thread keeps the FIFO right exactly if it meets its guard. */
  lemma StepRightIff(s: State, a: Action)
    requires InBounds(s) && Stored(s) && Right(s)
    ensures Right(Do(s, a)) <==> Meets(s, a)
  {
    match a
    case OfferStep => OfferRightIff(s);
    case ReadStep => ReadRightIff(s);
    case RegisterStep => RegisterRightIff(s);
    case OpenStep(k) =>
      if k in s.openers {
        OpenRightIff(s, k);
      }
    case _ =>
  }

  // ---- Exactly which runs keep it right ----

  ghost predicate RightAfter(actions: seq<Action>, n: nat)
    requires n <= |actions|
  {
    Right(Run(actions[..n]))
  }

  predicate MeetsAt(actions: seq<Action>, i: nat)
    requires i < |actions|
  {
    Meets(Run(actions[..i]), actions[i])
  }

  lemma NextRightIff(actions: seq<Action>, i: nat)
    requires i < |actions| && RightAfter(actions, i)
    ensures RightAfter(actions, i + 1) <==> MeetsAt(actions, i)
  {
    assert actions[..i + 1][..i] == actions[..i];
    RunKeepsStored(actions[..i]);
    StepRightIff(Run(actions[..i]), actions[i]);
  }

  lemma {:induction false} MeetingRunIsRight(actions: seq<Action>, n: nat)
    requires n <= |actions| && forall i :: 0 <= i < n ==> MeetsAt(actions, i)
    ensures RightAfter(actions, n)
  {
    if n == 0 {
      assert actions[..0] == [];
    } else {
      MeetingRunIsRight(actions, n - 1);
      NextRightIff(actions, n - 1);
    }
  }

  /** In any interleaving of drainer, reader, registrations and openings: what a reader has
      taken and what waits are right at every point if and only if every step meets its
      guard. */
  lemma RightIffStepsMeet(actions: seq<Action>)
    ensures (forall n :: 0 <= n <= |actions| ==> RightAfter(actions, n))
      <==> (forall i :: 0 <= i < |actions| ==> MeetsAt(actions, i))
  {
    if forall i :: 0 <= i < |actions| ==> MeetsAt(actions, i) {
      forall n | 0 <= n <= |actions|
        ensures RightAfter(actions, n)
      {
        MeetingRunIsRight(actions, n);
      }
    }
    if forall n :: 0 <= n <= |actions| ==> RightAfter(actions, n) {
      forall i | 0 <= i < |actions|
        ensures MeetsAt(actions, i)
      {
        assert RightAfter(actions, i) && RightAfter(actions, i + 1);
        NextRightIff(actions, i);
      }
    }
  }

  // ---- Clean resets are enough ----

  predicate ZerosHead(s: State, a: Action) {
    || (a.RegisterStep? && s.register.RegisterHead?)
    || (a.OpenStep? && a.k in s.openers && s.openers[a.k].OpenHead?)
  }

  /** Some reset has zeroed head and not yet tail. */
  predicate Resetting(s: State) {
    s.register.RegisterTail? || exists k :: k in s.openers && s.openers[k].OpenTail?
  }

  /** Head is zeroed only while the drainer holds no head and nobody reads, and nobody
      starts to read before every reset has zeroed tail, too. */
  predicate IsClean(s: State, a: Action) {
    && (ZerosHead(s, a) ==> !HoldsHead(s) && s.read.ReadIdle?)
    && (a.Read? ==> !Resetting(s))
  }

  ghost predicate OfferOk(s: State)
    requires InBounds(s)
  {
    HoldsHead(s) ==> s.offer.head == s.head && (!s.offer.LoadTail? ==> At(s.head, 1) != s.tail)
  }

  ghost predicate ReadOk(s: State)
    requires InBounds(s)
  {
    match s.read
    case ReadIdle => true
    case CheckHead(t) => t == s.tail
    case CopySlot(t) => t == s.tail && s.tail != s.head
    case StoreTail(t, p) => t == s.tail && s.tail != s.head && p == s.fifo[t]
  }

  /** While a reset is half done nobody reads, and a tail zeroed early stays zero. */
  ghost predicate ResetOk(s: State) {
    && (s.half ==> Resetting(s))
    && (Resetting(s) ==> s.read.ReadIdle? && (s.half || s.tail == 0))
  }

  /** All of the invariant but the contents. */
  ghost predicate Orderly(s: State) {
    && InBounds(s) && Stored(s) && OfferOk(s) && ReadOk(s) && ResetOk(s)
    && (s.half ==> s.tail == 0 || s.head < s.tail)
  }

  ghost predicate Inv(s: State) {
    Orderly(s) && Right(s)
  }

  lemma CleanStepMeets(s: State, a: Action)
    requires Inv(s) && IsClean(s, a)
    ensures Meets(s, a)
  {
    if ZerosTail(s, a) {
      assert Resetting(s);
    }
  }

  lemma SameResetOk(s: State, s': State)
    requires ResetOk(s)
    requires s'.register == s.register && s'.openers == s.openers && s'.half == s.half
    requires s'.tail == s.tail && s'.read == s.read
    ensures ResetOk(s')
  {
  }

  lemma PublishKeepsOrderly(s: State)
    requires Orderly(s) && s.offer.StoreHead? && Meets(s, OfferStep)
    ensures Orderly(DoOffer(s))
  {
    assert !s.read.ReadIdle? ==> !s.half && At(s.head, 1) != s.tail;
    SameResetOk(s, DoOffer(s));
  }

  lemma StoreKeepsOrderly(s: State)
    requires Orderly(s) && s.offer.StoreSlot?
    ensures Orderly(DoOffer(s))
  {
    SameResetOk(s, DoOffer(s));
  }

  lemma LoadKeepsOrderly(s: State)
    requires Orderly(s) && !s.offer.StoreSlot? && !s.offer.StoreHead?
    ensures Orderly(DoOffer(s))
  {
    var s' := DoOffer(s);
    SameResetOk(s, s');
    assert s' == s.(offer := s'.offer);
  }

  lemma OfferKeepsOrderly(s: State)
    requires Orderly(s) && Meets(s, OfferStep)
    ensures Orderly(DoOffer(s))
  {
    if s.offer.StoreHead? {
      PublishKeepsOrderly(s);
    } else if s.offer.StoreSlot? {
      StoreKeepsOrderly(s);
    } else {
      LoadKeepsOrderly(s);
    }
  }

  lemma ReadKeepsOrderly(s: State)
    requires Orderly(s)
    ensures Orderly(DoRead(s))
  {
    var s' := DoRead(s);
    assert s'.openers == s.openers;
    assert s.read.StoreTail? ==> At(s.head, 1) != s'.tail;
  }

  lemma RegisterKeepsOrderly(s: State)
    requires Orderly(s) && IsClean(s, RegisterStep)
    ensures Orderly(DoRegister(s))
  {
    var s' := DoRegister(s);
    assert s'.openers == s.openers;
    assert s.register.RegisterTail? ==> Resetting(s);
  }

  lemma OpenKeepsOrderly(s: State, k: nat)
    requires Orderly(s) && IsClean(s, OpenStep(k)) && k in s.openers
    ensures Orderly(DoOpen(s, k))
  {
    var s' := DoOpen(s, k);
    assert forall j :: j != k && j in s.openers ==> j in s'.openers && s'.openers[j] == s.openers[j];
    assert forall j :: j in s'.openers ==> j in s.openers;
    assert k in s'.openers;
    assert s.openers[k].OpenTail? ==> Resetting(s);
    assert s.openers[k].OpenHead? ==> s'.openers[k].OpenTail?;
  }

  /** A call that begins: no counter and no slot changes. */
  lemma BeginKeepsOrderly(s: State, a: Action)
    requires Orderly(s) && IsClean(s, a)
    requires a.Offer? || a.Read? || a.Register? || a.Unregister? || a.Open?
    ensures Orderly(Do(s, a))
  {
    var s' := Do(s, a);
    assert forall j :: j in s.openers ==> j in s'.openers && s'.openers[j] == s.openers[j];
    assert forall j :: j in s'.openers && j !in s.openers ==> s'.openers[j].TestActive?;
    assert Resetting(s') <==> Resetting(s);
  }

  lemma StepKeepsOrderly(s: State, a: Action)
    requires Orderly(s) && IsClean(s, a) && Meets(s, a)
    ensures Orderly(Do(s, a))
  {
    match a
    case OfferStep => OfferKeepsOrderly(s);
    case ReadStep => ReadKeepsOrderly(s);
    case RegisterStep => RegisterKeepsOrderly(s);
    case OpenStep(k) =>
      if k in s.openers {
        OpenKeepsOrderly(s, k);
      }
    case _ => BeginKeepsOrderly(s, a);
  }

  lemma StepKeepsInv(s: State, a: Action)
    requires Inv(s) && IsClean(s, a)
    ensures Inv(Do(s, a))
  {
    CleanStepMeets(s, a);
    StepKeepsOrderly(s, a);
    StepRightIff(s, a);
  }

  predicate CleanAt(actions: seq<Action>, i: nat)
    requires i < |actions|
  {
    IsClean(Run(actions[..i]), actions[i])
  }

  lemma {:induction false} CleanRunsKeepInv(actions: seq<Action>)
    requires forall i :: 0 <= i < |actions| ==> CleanAt(actions, i)
    ensures Inv(Run(actions))
  {
    if actions != [] {
      var n := |actions| - 1;
      forall i | 0 <= i < n
        ensures CleanAt(actions[..n], i)
      {
        assert actions[..n][..i] == actions[..i] && CleanAt(actions, i);
      }
      CleanRunsKeepInv(actions[..n]);
      assert CleanAt(actions, n);
      StepKeepsInv(Run(actions[..n]), actions[n]);
    }
  }

  /** In every interleaving with clean resets: what a reader has taken since its
      registration or the last reset is a prefix, in order and unaltered, of what was
      accepted since; and when no reset is half done, the rest waits in the FIFO. */
  lemma TakenIsPrefixOfAccepted(actions: seq<Action>)
    requires forall i :: 0 <= i < |actions| ==> CleanAt(actions, i)
    ensures
      var s := Run(actions);
      && s.taken <= s.accepted
      && (!s.half ==> HoldsRest(s))
  {
    CleanRunsKeepInv(actions);
    RightIsPrefix(Run(actions));
  }

  // ---- Resets that are not clean ----

  /** Both stores of a registration, and then the end of the offer that was under way. */
  function ResetThenPublish(s: State): State
    requires InBounds(s) && s.offer.StoreHead?
  {
    DoOffer(DoRegister(DoRegister(s)))
  }

  /** A reset while the drainer is about to publish leaves the FIFO right exactly if head was
      zero anyway: the drainer's store brings the old head back. */
  lemma ResetDuringOfferIff(s: State)
    requires Inv(s) && s.register.RegisterHead? && s.offer.StoreHead?
    ensures InBounds(ResetThenPublish(s))
    ensures HoldsRest(ResetThenPublish(s)) <==> s.head == 0
  {
    var s' := ResetThenPublish(s);
    assert s'.accepted == [s.offer.packet] && s'.taken == [];
    assert Backlog(s') == At(s.head, 1);
  }

  lemma Then(actions: seq<Action>, a: Action) returns (longer: seq<Action>)
    ensures longer == actions + [a]
    ensures Run(longer) == Do(Run(actions), a)
  {
    longer := actions + [a];
    assert longer[..|longer| - 1] == actions;
  }

  lemma RegisterPhase(actions: seq<Action>, c: int) returns (longer: seq<Action>)
    requires !Run(actions).active && Run(actions).register.RegisterIdle?
    ensures Run(longer)
         == TailZeroed(HeadZeroed(Run(actions))).(active := true, channel := c)
  {
    longer := Then(actions, Register(c));
    longer := Then(longer, RegisterStep);
    longer := Then(longer, RegisterStep);
    longer := Then(longer, RegisterStep);
  }

  lemma UnregisterPhase(actions: seq<Action>) returns (longer: seq<Action>)
    requires Run(actions).register.RegisterIdle?
    ensures Run(longer) == Run(actions).(active := false, channel := -1)
  {
    longer := Then(actions, Unregister);
    longer := Then(longer, RegisterStep);
  }

  lemma OpenPhase(actions: seq<Action>, k: nat) returns (longer: seq<Action>)
    requires k !in Run(actions).openers && Run(actions).active
    ensures Run(longer)
         == TailZeroed(HeadZeroed(Run(actions))).(openers := Run(actions).openers[k := OpenDone])
  {
    longer := Then(actions, Open(k, Run(actions).channel));
    longer := Then(longer, OpenStep(k));
    longer := Then(longer, OpenStep(k));
    longer := Then(longer, OpenStep(k));
    longer := Then(longer, OpenStep(k));
    assert Run(longer).openers == Run(actions).openers[k := OpenDone];
  }

  /** An offer up to its last store. */
  lemma OfferPhase(actions: seq<Action>, p: Packet) returns (longer: seq<Action>)
    requires
      var s := Run(actions);
      s.offer.OfferIdle? && s.active && At(s.head, 1) != s.tail
    ensures
      var s := Run(actions);
      Run(longer) == s.(fifo := s.fifo[s.head := p], offer := StoreHead(p, s.head))
  {
    longer := Then(actions, Offer(p, Run(actions).channel));
    longer := Then(longer, OfferStep);
    longer := Then(longer, OfferStep);
    longer := Then(longer, OfferStep);
    longer := Then(longer, OfferStep);
    longer := Then(longer, OfferStep);
  }

  /** A read up to its last store. */
  lemma ReadPhase(actions: seq<Action>) returns (longer: seq<Action>)
    requires Run(actions).read.ReadIdle? && Run(actions).head != Run(actions).tail
    ensures
      var s := Run(actions);
      Run(longer) == s.(read := StoreTail(s.tail, s.fifo[s.tail]))
  {
    longer := Then(actions, Read);
    longer := Then(longer, ReadStep);
    longer := Then(longer, ReadStep);
  }

  /** A reader of channel 0 has copied p and is about to take it. */
  lemma ReadUnderWay(p: Packet) returns (actions: seq<Action>)
    ensures
      var s := Run(actions);
      && s.fifo[0] == p && s.head == 1 && s.tail == 0 && s.active && s.channel == 0
      && s.offer == OfferIdle && s.read == StoreTail(0, p) && s.register == RegisterIdle && s.openers == map[]
  {
    actions := RegisterPhase([], 0);
    actions := OfferPhase(actions, p);
    actions := Then(actions, OfferStep);
    actions := ReadPhase(actions);
  }

  /** The reader leaves and another registers for channel 1 before the drainer has published
      q: the new reader is given p, which came on channel 0 before it was there, although
      only q was accepted since. */
  lemma StaleHeadDeliversOldPacket(p: Packet, q: Packet) returns (actions: seq<Action>)
    ensures
      var s := Run(actions);
      s.channel == 1 && s.accepted == [q] && s.taken == [p]
  {
    actions := ReadUnderWay(p);
    actions := Then(actions, ReadStep);
    actions := OfferPhase(actions, q);
    actions := UnregisterPhase(actions);
    actions := RegisterPhase(actions, 1);
    actions := Then(actions, OfferStep);
    actions := ReadPhase(actions);
    actions := Then(actions, ReadStep);
  }

  /** The channel is opened, which is to empty the FIFO, while the reader is between its copy
      and its store of tail: 2047 slots that hold no packet of this session then wait. */
  lemma OpenDuringReadFillsFifo(p: Packet) returns (actions: seq<Action>)
    ensures
      var s := Run(actions);
      s.accepted == [] && s.taken == [p] && Backlog(s) == FIFO_SIZE - 1
  {
    actions := ReadUnderWay(p);
    actions := OpenPhase(actions, 0);
    actions := Then(actions, ReadStep);
  }

  /** The first opening stands between its two stores, the second has finished, and the
      reader has taken p. */
  lemma OpenHalfDone(p: Packet) returns (actions: seq<Action>)
    ensures
      var s := Run(actions);
      && s.fifo[0] == p && s.head == 1 && s.accepted == s.taken == [p]
      && 0 in s.openers && s.openers[0] == OpenTail && s.read == ReadIdle
  {
    actions := RegisterPhase([], 0);
    actions := Then(actions, Open(0, 0));
    actions := Then(actions, OpenStep(0));
    actions := Then(actions, OpenStep(0));
    actions := Then(actions, OpenStep(0));
    actions := OpenPhase(actions, 1);
    actions := OfferPhase(actions, p);
    actions := Then(actions, OfferStep);
    actions := ReadPhase(actions);
    actions := Then(actions, ReadStep);
  }

  /** Two channel openings that overlap: the first zeroes tail after the reader has taken p,
      and p is delivered twice. */
  lemma OverlappingOpensDeliverTwice(p: Packet) returns (actions: seq<Action>)
    ensures
      var s := Run(actions);
      s.accepted == [p] && s.taken == [p, p]
  {
    actions := OpenHalfDone(p);
    actions := Then(actions, OpenStep(0));
    actions := ReadPhase(actions);
    actions := Then(actions, ReadStep);
  }
}
