/**
 The shared memory of driver and client (can_client/shared_ring.h): three rings
 in one byte array. Each call works on one ring, and its contract says what
 happens to all three byte queues.
 */
module SharedRing {
  import opened MachineInts
  import opened CanFrame
  import opened RingEntry
  import opened RingIo
  import opened RingStream

  class SharedRingHeader {
    const data: array<byte>
    const rxCapacity: nat
    const tx0Capacity: nat
    const tx1Capacity: nat
    const channelCount: nat
    const rx: RingCtrl
    const tx0: RingCtrl
    const tx1: RingCtrl
    var rxProduceCount: u32
    var rxDropped: u32
    var txDrainCount: u32
    var txDropped: u32

    constructor (channelCount: nat)
      ensures Valid() && fresh(data) && fresh(rx) && fresh(tx0) && fresh(tx1)
      ensures this.channelCount == channelCount
      ensures RxRing().Bytes() == Tx0Ring().Bytes() == Tx1Ring().Bytes() == []
      ensures rxCapacity == RX_CAPACITY && tx0Capacity == TX0_CAPACITY && tx1Capacity == TX1_CAPACITY
      ensures RxRing().base == 0 && Tx0Ring().base == 262144 && Tx1Ring().base == 262144 + 16384
    {
      this.channelCount := channelCount;
      rxCapacity, tx0Capacity, tx1Capacity := RX_CAPACITY, TX0_CAPACITY, TX1_CAPACITY;
      data := new byte[RX_CAPACITY + TX0_CAPACITY + TX1_CAPACITY];
      rx := new RingCtrl();
      tx0 := new RingCtrl();
      tx1 := new RingCtrl();
      rxProduceCount, rxDropped, txDrainCount, txDropped := 0, 0, 0, 0;
    }

    function RxRing(): Ring {
      Ring(rx, data, 0, rxCapacity)
    }

    function Tx0Ring(): Ring {
      Ring(tx0, data, rxCapacity, tx0Capacity)
    }

    function Tx1Ring(): Ring {
      Ring(tx1, data, rxCapacity + tx0Capacity, tx1Capacity)
    }

    ghost predicate Valid()
      reads rx, tx0, tx1
    {
      && rx != tx0 && rx != tx1 && tx0 != tx1
      && data.Length == rxCapacity + tx0Capacity + tx1Capacity
      && RxRing().Valid() && Tx0Ring().Valid() && Tx1Ring().Valid()
    }

    /** The ring a channel's outgoing frames go to. */
    function TxRing(channel: int): (r: Ring)
      ensures r == Tx0Ring() || r == Tx1Ring()
    {
      if channel == 1 && channelCount >= 2 && tx1Capacity > 0 then Tx1Ring() else Tx0Ring()
    }

    /** The driver's producer: false, and one more drop counted, if the ring is full. */
    method WriteRxFrame(frame: Frame, timestamp: u64) returns (ok: bool)
      requires Valid()
      modifies this`rxProduceCount, this`rxDropped, data, rx
      ensures Valid()
      ensures ok <==> |old(RxRing().Bytes())| + RX_ENTRY_SIZE <= rxCapacity
      ensures RxRing().Bytes() == old(RxRing().Bytes()) + if ok then RxEntry(Packet(timestamp, frame)) else []
      ensures Tx0Ring().Bytes() == old(Tx0Ring().Bytes())
      ensures Tx1Ring().Bytes() == old(Tx1Ring().Bytes())
      ensures rxProduceCount == if ok then Add32(old(rxProduceCount), 1) else old(rxProduceCount)
      ensures rxDropped == if ok then old(rxDropped) else Add32(old(rxDropped), 1)
    {
      var free := RxRing().FreeSpace();
      if RX_ENTRY_SIZE > free {
        rxDropped := Add32(rxDropped, 1);
        return false;
      }
      RxRing().Produce(LittleEndian16(CANFD_MTU) + LittleEndian64(timestamp), FrameBytes(frame));
      assert Tx0Ring().Region() == old(Tx0Ring().Region());
      assert Tx1Ring().Region() == old(Tx1Ring().Region());
      rxProduceCount := Add32(rxProduceCount, 1);
      ok := true;
    }

    /** The client's producer for one channel: false if its ring is full. */
    method WriteTxFrame(frame: Frame, channel: int) returns (ok: bool)
      requires Valid()
      modifies data, TxRing(channel).ctrl
      ensures Valid()
      ensures ok <==> |old(TxRing(channel).Bytes())| + TX_ENTRY_SIZE <= TxRing(channel).cap
      ensures TxRing(channel).Bytes() == old(TxRing(channel).Bytes()) + if ok then TxEntry(frame) else []
      ensures RxRing().Bytes() == old(RxRing().Bytes())
      ensures TxRing(channel) == Tx0Ring() ==> Tx1Ring().Bytes() == old(Tx1Ring().Bytes())
      ensures TxRing(channel) == Tx1Ring() ==> Tx0Ring().Bytes() == old(Tx0Ring().Bytes())
    {
      var r := TxRing(channel);
      var free := r.FreeSpace();
      if TX_ENTRY_SIZE > free {
        return false;
      }
      r.Produce(LittleEndian16(CANFD_MTU), FrameBytes(frame));
      assert RxRing().Region() == old(RxRing().Region());
      assert r == Tx0Ring() ==> Tx1Ring().Region() == old(Tx1Ring().Region());
      assert r == Tx1Ring() ==> Tx0Ring().Region() == old(Tx0Ring().Region());
      ok := true;
    }

    /** Reads the entry at a driver's local tail; counts an entry of invalid size. */
    method ReadTxFrame(r: Ring, tail: u32, ghost pos: nat) returns (result: TxParse)
      requires r.Valid() && tail == pos % TWO_32 && r.ctrl.tailPos <= pos <= r.ctrl.headPos
      modifies this`txDropped
      ensures result == ParseTx(r.BytesFrom(pos))
      ensures txDropped == if result.TxDropped? then Add32(old(txDropped), 1) else old(txDropped)
    {
      result := r.ReadTxEntry(tail, pos);
      if result.TxDropped? {
        txDropped := Add32(txDropped, 1);
      }
    }

    /** The client's consumer: every complete entry at hand, in order. */
    method DrainRxFrames() returns (packets: seq<Packet>)
      requires Valid()
      modifies rx
      ensures Valid()
      ensures (packets, RxRing().Bytes()) == Drained(old(RxRing().Bytes()))
      ensures Tx0Ring().Bytes() == old(Tx0Ring().Bytes())
      ensures Tx1Ring().Bytes() == old(Tx1Ring().Bytes())
    {
      packets := RxRing().DrainEntries();
    }
  }

  // ---- The shared memory is three independent queues ----

  /** What the rings stand for, and what the two consumers have been given. */
  datatype Queues = Queues(
    channels: nat, rx: seq<Packet>, tx0: seq<Frame>, tx1: seq<Frame>,
    drained: seq<Packet>, taken0: seq<Frame>, taken1: seq<Frame>)

  datatype Op = Receive(packet: Packet) | Drain | Send(frame: Frame, channel: int) | Take(channel: int)

  /** A single-channel adapter has one queue of outgoing frames. */
  predicate IsSecond(q: Queues, channel: int) {
    channel == 1 && q.channels >= 2
  }

  /** Each operation on its own queue; a full ring refuses. */
  function QueueStep(q: Queues, op: Op): Queues {
    match op
    case Receive(p) =>
      if RX_ENTRY_SIZE * (|q.rx| + 1) <= RX_CAPACITY then q.(rx := q.rx + [p]) else q
    case Drain => q.(rx := [], drained := q.drained + q.rx)
    case Send(f, ch) =>
      if IsSecond(q, ch)
      then if TX_ENTRY_SIZE * (|q.tx1| + 1) <= TX1_CAPACITY then q.(tx1 := q.tx1 + [f]) else q
      else if TX_ENTRY_SIZE * (|q.tx0| + 1) <= TX0_CAPACITY then q.(tx0 := q.tx0 + [f]) else q
    case Take(ch) =>
      if ch == 1
      then if q.tx1 == [] then q else q.(tx1 := q.tx1[1..], taken1 := q.taken1 + [q.tx1[0]])
      else if q.tx0 == [] then q else q.(tx0 := q.tx0[1..], taken0 := q.taken0 + [q.tx0[0]])
  }

  function QueueRun(channels: nat, ops: seq<Op>): (q: Queues)
    ensures q.channels == channels
  {
    if ops == [] then Queues(channels, [], [], [], [], [], [])
    else QueueStep(QueueRun(channels, ops[..|ops| - 1]), ops[|ops| - 1])
  }

  ghost predicate Represents(h: SharedRingHeader, q: Queues)
    reads h.rx, h.tx0, h.tx1, h.data
  {
    && h.Valid() && h.channelCount == q.channels
    && h.rxCapacity == RX_CAPACITY && h.tx0Capacity == TX0_CAPACITY && h.tx1Capacity == TX1_CAPACITY
    && h.RxRing().Bytes() == RxStream(q.rx)
    && h.Tx0Ring().Bytes() == TxStream(q.tx0)
    && h.Tx1Ring().Bytes() == TxStream(q.tx1)
  }

  method DoReceive(h: SharedRingHeader, p: Packet, ghost q: Queues)
    requires Represents(h, q)
    modifies h, h.data, h.rx
    ensures Represents(h, QueueStep(q, Receive(p)))
  {
    RxStreamLength(q.rx);
    RxStreamAppend(q.rx, p);
    var ok := h.WriteRxFrame(p.frame, p.timestamp);
  }

  method DoDrain(h: SharedRingHeader, ghost q: Queues) returns (packets: seq<Packet>)
    requires Represents(h, q)
    modifies h.rx
    ensures packets == q.rx
    ensures Represents(h, QueueStep(q, Drain))
  {
    DrainedRoundTrip(q.rx);
    packets := h.DrainRxFrames();
  }

  method DoSend(h: SharedRingHeader, f: Frame, channel: int, ghost q: Queues)
    requires Represents(h, q)
    modifies h.data, h.tx0, h.tx1
    ensures Represents(h, QueueStep(q, Send(f, channel)))
  {
    TxStreamLength(q.tx0);
    TxStreamLength(q.tx1);
    TxStreamAppend(q.tx0, f);
    TxStreamAppend(q.tx1, f);
    var ok := h.WriteTxFrame(f, channel);
  }

  /** The driver takes the entry at the tail of a ring, if there is one, and publishes
      the tail behind it; an entry of invalid size yields no frame. */
  method TakeEntry(h: SharedRingHeader, r: Ring) returns (taken: seq<Frame>)
    requires h.Valid() && (r == h.Tx0Ring() || r == h.Tx1Ring())
    modifies h`txDropped, r.ctrl
    ensures h.Valid()
    ensures
      var b := old(r.Bytes());
      var p := ParseTx(b);
      && taken == (if p.TxFrame? then [p.frame] else [])
      && r.Bytes() == (if p.TxIncomplete? then b else b[p.size..])
  {
    var read := h.ReadTxFrame(r, r.ctrl.tail, r.ctrl.tailPos);
    taken := [];
    if !read.TxIncomplete? {
      r.Consume(read.size);
    }
    if read.TxFrame? {
      taken := [read.frame];
    }
  }

  function FirstOf(queue: seq<Frame>): seq<Frame> {
    if queue == [] then [] else [queue[0]]
  }

  method TakeQueued(h: SharedRingHeader, r: Ring, ghost queue: seq<Frame>) returns (taken: seq<Frame>)
    requires h.Valid() && (r == h.Tx0Ring() || r == h.Tx1Ring())
    requires r.Bytes() == TxStream(queue)
    modifies h`txDropped, r.ctrl
    ensures h.Valid()
    ensures taken == FirstOf(queue)
    ensures r.Bytes() == TxStream(queue[|FirstOf(queue)|..])
  {
    if queue != [] {
      ParseTxStream(queue);
    }
    taken := TakeEntry(h, r);
  }

  method DoTake(h: SharedRingHeader, channel: int, ghost q: Queues) returns (taken: seq<Frame>)
    requires Represents(h, q)
    modifies h, h.tx0, h.tx1
    ensures taken == FirstOf(if channel == 1 then q.tx1 else q.tx0)
    ensures Represents(h, QueueStep(q, Take(channel)))
  {
    if channel == 1 {
      taken := TakeQueued(h, h.Tx1Ring(), q.tx1);
    } else {
      taken := TakeQueued(h, h.Tx0Ring(), q.tx0);
    }
  }

  method DoOp(h: SharedRingHeader, op: Op, ghost q: Queues)
    returns (drained: seq<Packet>, taken0: seq<Frame>, taken1: seq<Frame>)
    requires Represents(h, q)
    modifies h, h.data, h.rx, h.tx0, h.tx1
    ensures Represents(h, QueueStep(q, op))
    ensures QueueStep(q, op).drained == q.drained + drained
    ensures QueueStep(q, op).taken0 == q.taken0 + taken0
    ensures QueueStep(q, op).taken1 == q.taken1 + taken1
  {
    drained, taken0, taken1 := [], [], [];
    assert q.drained + [] == q.drained && q.taken0 + [] == q.taken0 && q.taken1 + [] == q.taken1;
    match op
    case Receive(p) => DoReceive(h, p, q);
    case Drain => drained := DoDrain(h, q);
    case Send(f, channel) => DoSend(h, f, channel, q);
    case Take(channel) =>
      var taken := DoTake(h, channel, q);
      if channel == 1 {
        taken1 := taken;
      } else {
        taken0 := taken;
      }
  }

  /** Any sequence of operations on the shared memory hands both consumers exactly
      what three separate queues would, although the rings share one array and the
      counters wrap. */
  method PerformAll(h: SharedRingHeader, ops: seq<Op>)
    returns (drained: seq<Packet>, taken0: seq<Frame>, taken1: seq<Frame>)
    requires Represents(h, QueueRun(h.channelCount, []))
    modifies h, h.data, h.rx, h.tx0, h.tx1
    ensures Represents(h, QueueRun(h.channelCount, ops))
    ensures drained == QueueRun(h.channelCount, ops).drained
    ensures taken0 == QueueRun(h.channelCount, ops).taken0
    ensures taken1 == QueueRun(h.channelCount, ops).taken1
  {
    drained, taken0, taken1 := [], [], [];
    ghost var q := QueueRun(h.channelCount, []);
    for i := 0 to |ops|
      invariant q == QueueRun(h.channelCount, ops[..i])
      invariant Represents(h, q)
      invariant drained == q.drained && taken0 == q.taken0 && taken1 == q.taken1
    {
      assert ops[..i + 1][..i] == ops[..i];
      var d, t0, t1 := DoOp(h, ops[i], q);
      drained, taken0, taken1 := drained + d, taken0 + t0, taken1 + t1;
      q := QueueStep(q, ops[i]);
    }
    assert ops[..|ops|] == ops;
  }

  /** What one operation adds to the packets accepted, and to the frames accepted in a
      ring: the RX ring holds 3196 entries, a TX ring 221. */
  function PacketAccepted(q: Queues, op: Op): seq<Packet> {
    if op.Receive? && |q.rx| < 3196 then [op.packet] else []
  }

  /** With two channels ring 1 carries channel 1 and ring 0 all others; with one channel
      ring 0 carries everything. */
  predicate Carries(channels: nat, ring: int, channel: int) {
    if channels < 2 then ring == 0 else if channel == 1 then ring == 1 else ring == 0
  }

  function FrameAccepted(q: Queues, op: Op, ring: int): seq<Frame> {
    var queue := if ring == 1 then q.tx1 else q.tx0;
    if op.Send? && Carries(q.channels, ring, op.channel) && |queue| < 221 then [op.frame] else []
  }

  function AcceptedPackets(channels: nat, ops: seq<Op>): seq<Packet> {
    if ops == [] then []
    else
      var before := ops[..|ops| - 1];
      AcceptedPackets(channels, before) + PacketAccepted(QueueRun(channels, before), ops[|ops| - 1])
  }

  function AcceptedOn(channels: nat, ops: seq<Op>, ring: int): seq<Frame> {
    if ops == [] then []
    else
      var before := ops[..|ops| - 1];
      AcceptedOn(channels, before, ring) + FrameAccepted(QueueRun(channels, before), ops[|ops| - 1], ring)
  }

  lemma QueueStepDelivers(q: Queues, op: Op)
    ensures
      var q' := QueueStep(q, op);
      && q'.drained + q'.rx == q.drained + q.rx + PacketAccepted(q, op)
      && q'.taken0 + q'.tx0 == q.taken0 + q.tx0 + FrameAccepted(q, op, 0)
      && q'.taken1 + q'.tx1 == q.taken1 + q.tx1 + FrameAccepted(q, op, 1)
  {
    match op
    case Receive(p) => assert q.drained + (q.rx + [p]) == q.drained + q.rx + [p];
    case Drain => assert (q.drained + q.rx) + [] == q.drained + q.rx;
    case Send(f, channel) =>
      assert q.taken0 + (q.tx0 + [f]) == q.taken0 + q.tx0 + [f];
      assert q.taken1 + (q.tx1 + [f]) == q.taken1 + q.tx1 + [f];
    case Take(channel) =>
      assert q.tx0 != [] ==> (q.taken0 + [q.tx0[0]]) + q.tx0[1..] == q.taken0 + q.tx0;
      assert q.tx1 != [] ==> (q.taken1 + [q.tx1[0]]) + q.tx1[1..] == q.taken1 + q.tx1;
  }

  /** The reference queues deliver what was accepted: what a consumer was given
      followed by what is queued is what its producer got in, in order. */
  lemma {:induction false} QueuesDeliverAccepted(channels: nat, ops: seq<Op>)
    ensures
      var q := QueueRun(channels, ops);
      && q.drained + q.rx == AcceptedPackets(channels, ops)
      && q.taken0 + q.tx0 == AcceptedOn(channels, ops, 0)
      && q.taken1 + q.tx1 == AcceptedOn(channels, ops, 1)
  {
    if ops != [] {
      var before := ops[..|ops| - 1];
      QueuesDeliverAccepted(channels, before);
      QueueStepDelivers(QueueRun(channels, before), ops[|ops| - 1]);
    }
  }
}
