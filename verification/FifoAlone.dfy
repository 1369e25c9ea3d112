/**
 The calls of `FifoRace` without interleaving: the steps of one call, run without others
 between them, do to the slot what the call does in one piece in `FanOut`.
 */
module FifoAlone {
  import opened CanFrame
  import opened FanOut
  import opened FifoRace

  /** What the slot stands for. */
  ghost function View(s: State): Reader
    requires InBounds(s)
  {
    var n := FifoRace.Backlog(s);
    Reader(s.active, s.channel, seq(n, i requires 0 <= i < n => s.fifo[At(s.tail, i)]))
  }

  /** The same action three times. */
  function Thrice(s: State, a: Action): (s': State)
    requires InBounds(s)
    ensures InBounds(s')
  {
    Do(Do(Do(s, a), a), a)
  }

  lemma StoreAppends(s: State, p: Packet)
    requires InBounds(s) && At(s.head, 1) != s.tail
    ensures
      var s' := s.(fifo := s.fifo[s.head := p], head := At(s.head, 1));
      && |View(s).queue| < FIFO_SIZE - 1
      && View(s').queue == View(s).queue + [p]
  {
    var s' := s.(fifo := s.fifo[s.head := p], head := At(s.head, 1));
    var n := FifoRace.Backlog(s);
    assert FifoRace.Backlog(s') == n + 1 && At(s.tail, n) == s.head;
    assert forall i :: 0 <= i < n ==> At(s.tail, i) != s.head;
  }

  /** The drainer comes to its load of tail, if the reader is one of the channel. */
  lemma OfferBegins(s: State, p: Packet, channel: int)
    requires InBounds(s) && s.offer.OfferIdle?
    ensures
      var s' := Thrice(Do(s, Offer(p, channel)), OfferStep);
      s' == s.(offer := if s.active && s.channel == channel then LoadTail(p, s.head) else OfferIdle)
  {
  }

  lemma OfferEnds(s: State, p: Packet)
    requires InBounds(s) && s.offer == LoadTail(p, s.head)
    ensures
      var s' := Thrice(s, OfferStep);
      if At(s.head, 1) == s.tail then s' == s.(offer := OfferIdle)
      else s' == s.(
        fifo := s.fifo[s.head := p], head := At(s.head, 1), offer := OfferIdle, accepted := s.accepted + [p])
  {
    var s1 := Do(s, OfferStep);
    var s2 := Do(s1, OfferStep);
    if At(s.head, 1) != s.tail {
      assert s1 == s.(offer := StoreSlot(p, s.head));
      assert s2 == s.(fifo := s.fifo[s.head := p], offer := StoreHead(p, s.head));
    }
  }

  lemma FullIff(s: State)
    requires InBounds(s)
    ensures At(s.head, 1) == s.tail <==> |View(s).queue| == FIFO_SIZE - 1
  {
  }

  /** An offer. */
  lemma OfferAlone(s: State, p: Packet, channel: int)
    requires InBounds(s) && s.offer.OfferIdle?
    ensures
      var s' := Thrice(Thrice(Do(s, Offer(p, channel)), OfferStep), OfferStep);
      && s'.offer.OfferIdle? && View(s') == Offered(View(s), p, channel)
      && s'.accepted == s.accepted + View(s').queue[|View(s).queue|..]
  {
    var s3 := Thrice(Do(s, Offer(p, channel)), OfferStep);
    OfferBegins(s, p, channel);
    FullIff(s);
    assert View(s3) == View(s);
    if s3.offer.LoadTail? {
      OfferEnds(s3, p);
      if At(s.head, 1) != s.tail {
        StoreAppends(s3, p);
      }
    }
  }

  lemma TakeRemoves(s: State)
    requires InBounds(s) && s.head != s.tail
    ensures
      var s' := s.(tail := At(s.tail, 1));
      View(s).queue != [] && s.fifo[s.tail] == View(s).queue[0] && View(s').queue == View(s).queue[1..]
  {
    assert At(s.tail, 0) == s.tail;
  }

  /** A read. */
  lemma ReadAlone(s: State)
    requires InBounds(s) && s.read.ReadIdle?
    ensures
      var s', queue := Thrice(Do(s, Read), ReadStep), View(s).queue;
      && s'.read.ReadIdle? && View(s') == View(s).(queue := if queue == [] then [] else queue[1..])
      && s'.taken == (if queue == [] then s.taken else s.taken + [queue[0]])
  {
    var s' := Thrice(Do(s, Read), ReadStep);
    if s.head == s.tail {
      assert s' == s;
    } else {
      assert s' == s.(tail := At(s.tail, 1), taken := s.taken + [s.fifo[s.tail]]);
      TakeRemoves(s);
      assert View(s') == View(s.(tail := At(s.tail, 1)));
    }
  }

  /** A registration of a free slot. */
  lemma RegisterAlone(s: State, channel: int)
    requires InBounds(s) && s.register.RegisterIdle? && !s.active
    ensures
      var s' := Thrice(Do(s, Register(channel)), RegisterStep);
      s'.register.RegisterIdle? && View(s') == Reader(true, channel, [])
  {
  }

  /** The end of a registration. */
  lemma UnregisterAlone(s: State)
    requires InBounds(s) && s.register.RegisterIdle?
    ensures
      var s' := Do(Do(s, Unregister), RegisterStep);
      s'.register.RegisterIdle? && View(s') == View(s).(active := false, channel := -1)
  {
    assert Do(Do(s, Unregister), RegisterStep) == s.(active := false, channel := -1);
  }

  /** An opening of a channel. */
  lemma OpenAlone(s: State, k: nat, channel: int)
    requires InBounds(s) && k !in s.openers
    ensures
      var s' := Thrice(Do(Do(s, Open(k, channel)), OpenStep(k)), OpenStep(k));
      && k in s'.openers && s'.openers[k].OpenDone?
      && View(s') == WithoutBacklog(View(s), channel)
  {
    var s1 := Do(Do(s, Open(k, channel)), OpenStep(k));
    OpenTests(s, k, channel);
    if s.active {
      OpenRuns(s1, k, channel);
    } else {
      assert Do(s1, OpenStep(k)) == s1;
      assert View(s1) == View(s);
    }
  }

  lemma OpenTests(s: State, k: nat, channel: int)
    requires InBounds(s) && k !in s.openers
    ensures
      var s' := Do(Do(s, Open(k, channel)), OpenStep(k));
      && k in s'.openers && s'.openers[k] == (if s.active then TestChannel(channel) else OpenDone)
      && s' == s.(openers := s'.openers)
  {
  }

  lemma OpenRuns(s: State, k: nat, channel: int)
    requires InBounds(s) && k in s.openers && s.openers[k] == TestChannel(channel) && s.active
    ensures
      var s' := Thrice(s, OpenStep(k));
      && k in s'.openers && s'.openers[k].OpenDone?
      && View(s') == WithoutBacklog(View(s), channel)
  {
    var s1 := Do(s, OpenStep(k));
    var s2 := Do(s1, OpenStep(k));
    assert s1 == s.(openers := s1.openers);
    if s.channel == channel {
      assert s1.openers[k].OpenHead? && s2.openers[k].OpenTail?;
    } else {
      assert s1.openers[k].OpenDone? && s2 == s1;
      assert View(s1) == View(s);
    }
  }
}
