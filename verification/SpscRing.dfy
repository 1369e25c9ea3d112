/**
 The RX ring as two threads see it: every single-byte store of the driver
 (`writeRxFrame`), every single-byte read of the client (`drainRxFrames`) and
 every load or publication of a counter is a step of its own, and the steps of
 the two threads interleave in any order. Steps are sequentially consistent.
 */
module SpscRing {
  import opened Arithmetic
  import opened MachineInts
  import opened CanFrame
  import opened RingEntry
  import opened RingWindow

  /** The driver's thread: between calls, or `stored` bytes into an entry. */
  datatype Producer = ProducerIdle | Writing(packet: Packet, head: u32, stored: nat)

  /** The client's thread: between drains, or `buf` read of the entry at local `tail`. */
  datatype Consumer = ConsumerIdle | Reading(head: u32, tail: u32, buf: seq<byte>)

  /** Shared memory, the two threads, and the history of what was accepted
      (published by the driver) and drained (handed on by the client). */
  datatype State = State(
    region: seq<byte>, head: u32, tail: u32, dropped: nat,
    producer: Producer, consumer: Consumer,
    accepted: seq<Packet>, drained: seq<Packet>)

  ghost predicate Init(s: State) {
    && ValidCapacity(|s.region|)
    && s.head == s.tail == 0
    && s.producer.ProducerIdle? && s.consumer.ConsumerIdle?
    && s.accepted == [] && s.drained == []
  }

  // ---- Steps of the driver ----

  /** Loads both counters and tests for room. */
  ghost predicate ProducerClaim(s: State, s': State, packet: Packet)
    requires 0 < |s.region| < TWO_32
  {
    && s.producer.ProducerIdle?
    && var free := Sub32(|s.region|, Sub32(s.head, s.tail));
      if RX_ENTRY_SIZE > free
      then s' == s.(dropped := s.dropped + 1)
      else s' == s.(producer := Writing(packet, s.head, 0))
  }

  ghost predicate ProducerStore(s: State, s': State)
    requires 0 < |s.region| < TWO_32
  {
    && s.producer.Writing? && s.producer.stored < RX_ENTRY_SIZE
    && var p := s.producer;
      s' == s.(
        region := s.region[Add32(p.head, p.stored) % |s.region| := RxEntry(p.packet)[p.stored]],
        producer := p.(stored := p.stored + 1))
  }

  ghost predicate ProducerPublish(s: State, s': State) {
    && s.producer.Writing? && s.producer.stored == RX_ENTRY_SIZE
    && s' == s.(head := Add32(s.producer.head, RX_ENTRY_SIZE),
                producer := ProducerIdle,
                accepted := s.accepted + [s.producer.packet])
  }

  // ---- Steps of the client ----

  ghost predicate ConsumerOpen(s: State, s': State) {
    && s.consumer.ConsumerIdle? && s.head != s.tail
    && s' == s.(consumer := Reading(s.head, s.tail, []))
  }

  /** True when the entry whose first bytes are `buf` fits into `avail` bytes. */
  predicate Complete(avail: nat, buf: seq<byte>) {
    && avail >= RX_HEADER_SIZE
    && (|buf| >= 2 ==> RX_HEADER_SIZE + FrameSize(buf) <= avail)
  }

  ghost predicate ConsumerReadByte(s: State, s': State)
    requires 0 < |s.region|
  {
    && s.consumer.Reading?
    && var c := s.consumer;
      && Complete(Sub32(c.head, c.tail), c.buf)
      && (|c.buf| < 2 || (ValidFrameSize(FrameSize(c.buf)) && |c.buf| < RX_HEADER_SIZE + FrameSize(c.buf)))
      && |c.buf| < TWO_32
      && s' == s.(consumer := c.(buf := c.buf + [s.region[Add32(c.tail, |c.buf|) % |s.region|]]))
  }

  ghost predicate ConsumerEmit(s: State, s': State) {
    && s.consumer.Reading?
    && var c := s.consumer;
      && |c.buf| >= 2
      && Complete(Sub32(c.head, c.tail), c.buf)
      && ValidFrameSize(FrameSize(c.buf)) && |c.buf| == RX_HEADER_SIZE + FrameSize(c.buf)
      && s' == s.(consumer := Reading(c.head, Add32(c.tail, |c.buf|), []),
                  drained := s.drained + [PacketOfEntry(c.buf)])
  }

  ghost predicate ConsumerSkip(s: State, s': State) {
    && s.consumer.Reading?
    && var c := s.consumer;
      && |c.buf| == 2
      && Complete(Sub32(c.head, c.tail), c.buf)
      && !ValidFrameSize(FrameSize(c.buf))
      && s' == s.(consumer := Reading(c.head, Add32(c.tail, RX_HEADER_SIZE + FrameSize(c.buf)), []))
  }

  ghost predicate ConsumerPublish(s: State, s': State) {
    && s.consumer.Reading?
    && var c := s.consumer;
      && (c.head == c.tail || !Complete(Sub32(c.head, c.tail), c.buf))
      && s' == s.(tail := c.tail, consumer := ConsumerIdle)
  }

  ghost predicate Next(s: State, s': State)
    requires 0 < |s.region| < TWO_32
  {
    || (exists p: Packet :: ProducerClaim(s, s', p))
    || ProducerStore(s, s')
    || ProducerPublish(s, s')
    || ConsumerOpen(s, s')
    || ConsumerReadByte(s, s')
    || ConsumerEmit(s, s')
    || ConsumerSkip(s, s')
    || ConsumerPublish(s, s')
  }

  ghost predicate StepAt(run: seq<State>, i: nat)
    requires i + 1 < |run|
  {
    0 < |run[i].region| < TWO_32 && Next(run[i], run[i + 1])
  }

  ghost predicate IsRun(run: seq<State>) {
    && |run| > 0
    && Init(run[0])
    && (forall i :: 0 <= i < |run| - 1 ==> StepAt(run, i))
  }

  // ---- The invariant ----

  /** Unbounded position of the published head. */
  ghost function HeadPos(s: State): nat {
    RX_ENTRY_SIZE * |s.accepted|
  }

  /** Unbounded position of the published tail. */
  ghost function FreedPos(s: State): int {
    HeadPos(s) - Sub32(s.head, s.tail)
  }

  /** Unbounded position of the client's local tail. */
  ghost function DrainPos(s: State): nat {
    RX_ENTRY_SIZE * |s.drained|
  }

  ghost predicate CountersOk(s: State) {
    && ValidCapacity(|s.region|)
    && 0 <= FreedPos(s) <= DrainPos(s) <= HeadPos(s) <= FreedPos(s) + |s.region|
    && s.head == HeadPos(s) % TWO_32
    && s.tail == FreedPos(s) % TWO_32
  }

  /** Every published entry that is not yet freed is in the ring unaltered. */
  ghost predicate EntriesIntact(s: State)
    requires |s.region| > 0
  {
    forall k :: 0 <= k < |s.accepted| && FreedPos(s) <= RX_ENTRY_SIZE * k ==>
      Window(s.region, RX_ENTRY_SIZE * k, RX_ENTRY_SIZE) == RxEntry(s.accepted[k])
  }

  ghost predicate ProducerOk(s: State)
    requires |s.region| > 0
  {
    s.producer.Writing? ==>
      && s.producer.head == s.head
      && s.producer.stored <= RX_ENTRY_SIZE
      && HeadPos(s) + RX_ENTRY_SIZE <= FreedPos(s) + |s.region|
      && Window(s.region, HeadPos(s), s.producer.stored) == RxEntry(s.producer.packet)[..s.producer.stored]
  }

  ghost predicate ConsumerOk(s: State) {
    && |s.drained| <= |s.accepted| && s.drained == s.accepted[..|s.drained|]
    && match s.consumer
       case ConsumerIdle => FreedPos(s) == DrainPos(s)
       case Reading(h, t, buf) =>
         && t == DrainPos(s) % TWO_32
         && Sub32(h, t) % RX_ENTRY_SIZE == 0
         && DrainPos(s) + Sub32(h, t) <= HeadPos(s)
         && |buf| <= RX_ENTRY_SIZE
         && (buf != [] ==> Sub32(h, t) > 0)
         && (Sub32(h, t) > 0 ==> buf == RxEntry(s.accepted[|s.drained|])[..|buf|])
  }

  ghost predicate Inv(s: State) {
    && CountersOk(s)
    && EntriesIntact(s)
    && ProducerOk(s)
    && ConsumerOk(s)
  }

  // ---- Preservation, one step at a time ----

  /** The wrapping subtractions of the source compute the true free space. */
  lemma FreeSpace(s: State)
    requires CountersOk(s)
    ensures Sub32(|s.region|, Sub32(s.head, s.tail)) == FreedPos(s) + |s.region| - HeadPos(s)
  {
  }

  lemma ClaimKeepsInv(s: State, s': State, p: Packet)
    requires Inv(s) && ProducerClaim(s, s', p)
    ensures Inv(s')
  {
    FreeSpace(s);
    assert CountersOk(s') && EntriesIntact(s') && ConsumerOk(s');
    assert Window(s'.region, HeadPos(s'), 0) == RxEntry(p)[..0];
  }

  /** The driver's store hits no byte between the published tail and head. */
  lemma StoreKeepsPublishedBytes(s: State, s': State, from: nat, n: nat)
    requires Inv(s) && ProducerStore(s, s')
    requires FreedPos(s) <= from && from + n <= HeadPos(s)
    ensures Window(s'.region, from, n) == Window(s.region, from, n)
  {
    var k := s.producer.stored;
    CounterIndex(HeadPos(s), k, |s.region|);
    StoreOutside(s.region, from, n, HeadPos(s) + k, RxEntry(s.producer.packet)[k]);
  }

  lemma StoreKeepsInv(s: State, s': State)
    requires Inv(s) && ProducerStore(s, s')
    ensures Inv(s')
  {
    var p := s.producer;
    CounterIndex(HeadPos(s), p.stored, |s.region|);
    StoreNext(s.region, HeadPos(s), p.stored, RxEntry(p.packet)[p.stored]);
    forall k | 0 <= k < |s'.accepted| && FreedPos(s') <= RX_ENTRY_SIZE * k
      ensures Window(s'.region, RX_ENTRY_SIZE * k, RX_ENTRY_SIZE) == RxEntry(s'.accepted[k])
    {
      StoreKeepsPublishedBytes(s, s', RX_ENTRY_SIZE * k, RX_ENTRY_SIZE);
    }
  }

  lemma PublishKeepsInv(s: State, s': State)
    requires Inv(s) && ProducerPublish(s, s')
    ensures Inv(s')
  {
    CounterIndex(HeadPos(s), RX_ENTRY_SIZE, |s.region|);
    CounterDistance(HeadPos(s'), FreedPos(s));
    assert FreedPos(s') == FreedPos(s);
    if s.consumer.Reading? && Sub32(s.consumer.head, s.consumer.tail) > 0 {
      assert s'.accepted[|s.drained|] == s.accepted[|s.drained|];
    }
  }

  lemma OpenKeepsInv(s: State, s': State)
    requires Inv(s) && ConsumerOpen(s, s')
    ensures Inv(s')
  {
    assert Sub32(s.head, s.tail) == RX_ENTRY_SIZE * (|s.accepted| - |s.drained|);
  }

  /** The client's buffer is a prefix of the next undrained entry. */
  lemma BufferAnnouncesFrame(s: State)
    requires Inv(s) && s.consumer.Reading? && |s.consumer.buf| >= 2
    ensures |s.drained| < |s.accepted|
    ensures FrameSize(s.consumer.buf) == CANFD_MTU
  {
    RxEntryPrefix(s.consumer.buf, s.accepted[|s.drained|]);
  }

  lemma NextByteOfEntry(s: State, n: nat)
    requires Inv(s) && |s.drained| < |s.accepted| && n < RX_ENTRY_SIZE
    ensures s.region[Add32(DrainPos(s) % TWO_32, n) % |s.region|] == RxEntry(s.accepted[|s.drained|])[n]
  {
    CounterIndex(DrainPos(s), n, |s.region|);
    assert Window(s.region, RX_ENTRY_SIZE * |s.drained|, RX_ENTRY_SIZE)[n] == RxEntry(s.accepted[|s.drained|])[n];
  }

  lemma ReadByteExtendsBuffer(s: State, s': State)
    requires Inv(s) && ConsumerReadByte(s, s')
    ensures |s.drained| < |s.accepted| && |s.consumer.buf| < RX_ENTRY_SIZE
    ensures s' == s.(consumer := s.consumer.(buf := RxEntry(s.accepted[|s.drained|])[..|s.consumer.buf| + 1]))
  {
    var n, entry := |s.consumer.buf|, RxEntry(s.accepted[|s.drained|]);
    if n >= 2 {
      BufferAnnouncesFrame(s);
    }
    NextByteOfEntry(s, n);
    assert entry[..n + 1] == entry[..n] + [entry[n]];
  }

  lemma ReadByteKeepsInv(s: State, s': State)
    requires Inv(s) && ConsumerReadByte(s, s')
    ensures Inv(s')
  {
    ReadByteExtendsBuffer(s, s');
    assert CountersOk(s') && EntriesIntact(s') && ProducerOk(s');
  }

  /** Moving a local tail forward by `k` shortens its distance to the snapshot by `k`. */
  lemma SnapshotDistance(pos: nat, k: nat, h: u32)
    requires k <= Sub32(h, pos % TWO_32)
    ensures Sub32(h, (pos + k) % TWO_32) == Sub32(h, pos % TWO_32) - k
  {
    var d := Sub32(h, pos % TWO_32);
    assert h == (pos + d) % TWO_32;
    CounterDistance(pos + d, pos + k);
  }

  /** State `s` after its next undrained packet has been handed on. */
  ghost function Handed(s: State): State
    requires s.consumer.Reading? && |s.drained| < |s.accepted|
  {
    s.(consumer := Reading(s.consumer.head, (DrainPos(s) + RX_ENTRY_SIZE) % TWO_32, []),
       drained := s.drained + [s.accepted[|s.drained|]])
  }

  lemma FullBufferIsNextPacket(s: State)
    requires Inv(s) && s.consumer.Reading? && |s.consumer.buf| == RX_ENTRY_SIZE
    ensures |s.drained| < |s.accepted|
    ensures PacketOfEntry(s.consumer.buf) == s.accepted[|s.drained|]
    ensures Sub32(s.consumer.head, s.consumer.tail) >= RX_ENTRY_SIZE
  {
    RxEntryPrefix(s.consumer.buf, s.accepted[|s.drained|]);
    MultipleAtLeast(Sub32(s.consumer.head, s.consumer.tail) / RX_ENTRY_SIZE, RX_ENTRY_SIZE);
  }

  lemma EmitHandsOnNextPacket(s: State, s': State)
    requires Inv(s) && ConsumerEmit(s, s')
    ensures |s.drained| < |s.accepted|
    ensures s' == Handed(s)
    ensures Sub32(s.consumer.head, s.consumer.tail) >= RX_ENTRY_SIZE
  {
    BufferAnnouncesFrame(s);
    FullBufferIsNextPacket(s);
    CounterIndex(DrainPos(s), RX_ENTRY_SIZE, |s.region|);
  }

  lemma HandedKeepsInv(s: State)
    requires Inv(s) && s.consumer.Reading? && |s.drained| < |s.accepted|
    requires Sub32(s.consumer.head, s.consumer.tail) >= RX_ENTRY_SIZE
    ensures Inv(Handed(s))
  {
    var s' := Handed(s);
    SnapshotDistance(DrainPos(s), RX_ENTRY_SIZE, s.consumer.head);
    assert s'.drained == s.accepted[..|s.drained| + 1];
    assert FreedPos(s') == FreedPos(s) && HeadPos(s') == HeadPos(s) && DrainPos(s') == DrainPos(s) + RX_ENTRY_SIZE;
    EntryLess(Sub32(s.consumer.head, s.consumer.tail));
    assert CountersOk(s') && EntriesIntact(s') && ProducerOk(s');
  }

  lemma EntryLess(n: nat)
    requires n % RX_ENTRY_SIZE == 0
    ensures (n - RX_ENTRY_SIZE) % RX_ENTRY_SIZE == 0
  {
  }

  lemma SkipNeverHappens(s: State, s': State)
    requires Inv(s)
    ensures !ConsumerSkip(s, s')
  {
    if s.consumer.Reading? && |s.consumer.buf| == 2 {
      BufferAnnouncesFrame(s);
    }
  }

  lemma TailPublishKeepsInv(s: State, s': State)
    requires Inv(s) && ConsumerPublish(s, s')
    ensures Inv(s')
  {
    if |s.consumer.buf| >= 2 {
      BufferAnnouncesFrame(s);
    }
    CounterDistance(HeadPos(s), DrainPos(s));
    assert FreedPos(s') == DrainPos(s);
  }

  lemma StepKeepsInv(s: State, s': State)
    requires Inv(s) && Next(s, s')
    ensures Inv(s')
  {
    SkipNeverHappens(s, s');
    if p: Packet :| ProducerClaim(s, s', p) {
      ClaimKeepsInv(s, s', p);
    } else if ProducerStore(s, s') {
      StoreKeepsInv(s, s');
    } else if ProducerPublish(s, s') {
      PublishKeepsInv(s, s');
    } else if ConsumerOpen(s, s') {
      OpenKeepsInv(s, s');
    } else if ConsumerReadByte(s, s') {
      ReadByteKeepsInv(s, s');
    } else if ConsumerEmit(s, s') {
      EmitHandsOnNextPacket(s, s');
      HandedKeepsInv(s);
    } else {
      TailPublishKeepsInv(s, s');
    }
  }

  lemma InitHasInv(s: State)
    requires Init(s)
    ensures Inv(s)
  {
  }

  lemma {:induction false} RunKeepsInv(run: seq<State>, i: nat)
    requires IsRun(run) && i < |run|
    ensures Inv(run[i])
  {
    if i == 0 {
      InitHasInv(run[0]);
    } else {
      RunKeepsInv(run, i - 1);
      assert StepAt(run, i - 1);
      StepKeepsInv(run[i - 1], run[i]);
    }
  }

  // ---- Main results ----

  /** In every run, at every point, what the client has drained is a prefix of
      what the driver accepted: nothing lost, reordered, duplicated or altered. */
  lemma DrainedIsPrefixOfAccepted(run: seq<State>, i: nat)
    requires IsRun(run) && i < |run|
    ensures run[i].drained <= run[i].accepted
  {
    RunKeepsInv(run, i);
  }

  lemma StoreKeepsByte(s: State, s': State, p: nat)
    requires Inv(s) && ProducerStore(s, s')
    requires FreedPos(s) <= p < HeadPos(s)
    ensures s'.region[p % |s.region|] == s.region[p % |s.region|]
  {
    StoreKeepsPublishedBytes(s, s', p, 1);
    assert Window(s.region, p, 1)[0] == s.region[p % |s.region|];
    assert Window(s'.region, p, 1)[0] == s'.region[p % |s.region|];
  }

  lemma FreedPosMovesForward(s: State, s': State)
    requires Inv(s) && Next(s, s')
    ensures FreedPos(s) <= FreedPos(s') <= DrainPos(s)
  {
    if ConsumerPublish(s, s') {
      CounterDistance(HeadPos(s), DrainPos(s));
    } else if ProducerPublish(s, s') {
      CounterIndex(HeadPos(s), RX_ENTRY_SIZE, |s.region|);
      CounterDistance(HeadPos(s'), FreedPos(s));
    }
  }

  /** No step writes a byte between the published tail and the published head,
      and no step moves the tail back or past bytes the client has not drained. */
  lemma NoUnfreedByteOverwritten(run: seq<State>, i: nat, p: nat)
    requires IsRun(run) && i + 1 < |run|
    requires FreedPos(run[i]) <= p < HeadPos(run[i])
    ensures 0 < |run[i].region| == |run[i + 1].region|
    ensures run[i + 1].region[p % |run[i].region|] == run[i].region[p % |run[i].region|]
    ensures FreedPos(run[i]) <= FreedPos(run[i + 1]) <= DrainPos(run[i])
  {
    RunKeepsInv(run, i);
    assert StepAt(run, i);
    FreedPosMovesForward(run[i], run[i + 1]);
    if ProducerStore(run[i], run[i + 1]) {
      StoreKeepsByte(run[i], run[i + 1], p);
    }
  }

  /** Both threads between calls and the counters equal: everything accepted was drained. */
  lemma NothingLostAtRest(run: seq<State>, i: nat)
    requires IsRun(run) && i < |run|
    requires run[i].consumer.ConsumerIdle? && run[i].head == run[i].tail
    ensures run[i].drained == run[i].accepted
  {
    RunKeepsInv(run, i);
  }

  /** A frame is dropped exactly when fewer than 82 bytes are free of entries
      whose tail is not yet published. */
  lemma DropsOnlyWhenFull(run: seq<State>, i: nat, p: Packet)
    requires IsRun(run) && i + 1 < |run|
    requires 0 < |run[i].region| < TWO_32 && ProducerClaim(run[i], run[i + 1], p)
    ensures run[i + 1].dropped == run[i].dropped + 1
      <==> HeadPos(run[i]) - FreedPos(run[i]) + RX_ENTRY_SIZE > |run[i].region|
  {
    RunKeepsInv(run, i);
    FreeSpace(run[i]);
  }

  /** The queue the ring stands for: accepted and not yet drained. */
  ghost function Pending(s: State): seq<Packet>
    requires |s.drained| <= |s.accepted|
  {
    s.accepted[|s.drained|..]
  }

  /** The ring is an unbounded FIFO queue: publishing the head appends the packet that was
      written, handing on takes the first packet, and no other step changes the queue or
      what was drained. */
  lemma StepRefinesQueue(run: seq<State>, i: nat)
    requires IsRun(run) && i + 1 < |run|
    ensures |run[i].drained| <= |run[i].accepted| && |run[i + 1].drained| <= |run[i + 1].accepted|
    ensures
      var s, s' := run[i], run[i + 1];
      if ProducerPublish(s, s') then
        s'.drained == s.drained && Pending(s') == Pending(s) + [s.producer.packet]
      else if ConsumerEmit(s, s') then
        Pending(s) != [] && s'.drained == s.drained + [Pending(s)[0]] && Pending(s') == Pending(s)[1..]
      else
        s'.accepted == s.accepted && s'.drained == s.drained
  {
    var s, s' := run[i], run[i + 1];
    RunKeepsInv(run, i);
    RunKeepsInv(run, i + 1);
    assert StepAt(run, i);
    SkipNeverHappens(s, s');
    if ConsumerEmit(s, s') {
      EmitHandsOnNextPacket(s, s');
    }
  }
}
