/**
 Independent readers of one client (can_client/can_client.cc): every drained packet
 goes to the FIFO of each active reader of its channel, and a reader whose FIFO is
 full misses it. Each call is one step.
 */
module FanOut {
  import opened Arithmetic
  import opened MachineInts
  import opened CanFrame

  const FIFO_SIZE := 2048
  const MAX_READERS := 8

  /** What a reader slot stands for. */
  datatype Reader = Reader(active: bool, channel: int, queue: seq<Packet>)

  /** A reader that listens to the channel and has room takes the packet. */
  function Offered(r: Reader, p: Packet, channel: int): Reader {
    if r.active && r.channel == channel && |r.queue| < FIFO_SIZE - 1 then r.(queue := r.queue + [p]) else r
  }

  /** The index `i` places behind `from` in a FIFO. */
  function At(from: nat, i: nat): (k: nat)
    requires from < FIFO_SIZE && i < FIFO_SIZE
    ensures k < FIFO_SIZE && k == if from + i < FIFO_SIZE then from + i else from + i - FIFO_SIZE
  {
    WrapOnce(from + i, FIFO_SIZE);
    (from + i) % FIFO_SIZE
  }

  class ReaderSlot {
    const fifo: array<Packet>
    var head: nat
    var tail: nat
    var epoch: u32
    var channel: int
    var active: bool

    ghost predicate Valid()
      reads this
    {
      fifo.Length == FIFO_SIZE && head < FIFO_SIZE && tail < FIFO_SIZE
    }

    function Backlog(): (n: nat)
      requires Valid()
      reads this
      ensures n < FIFO_SIZE
    {
      if head >= tail then head - tail else head + FIFO_SIZE - tail
    }

    ghost function Value(): (r: Reader)
      requires Valid()
      reads this, fifo
    {
      var slots, from, n := fifo[..], tail, Backlog();
      Reader(active, channel, seq(n, i requires 0 <= i < n => slots[At(from, i)]))
    }

    constructor ()
      ensures Valid() && fresh(fifo) && Value() == Reader(false, -1, [])
    {
      fifo := new Packet[FIFO_SIZE](i => Packet(0, RawFrame.Frame(0, 0, 0, 0, 0, Zeros(CANFD_MAX_DLEN))));
      head, tail, epoch, channel, active := 0, 0, 0, -1, false;
    }

    /** Empties the FIFO. */
    method Clear()
      requires Valid()
      modifies this`head, this`tail, this`epoch
      ensures Valid() && Value() == old(Value()).(queue := [])
    {
      head, tail, epoch := 0, 0, 0;
    }

    /** Offers a packet to this reader. */
    method Offer(p: Packet, channel: int)
      requires Valid()
      modifies this`head, this`epoch, fifo
      ensures Valid() && Value() == Offered(old(Value()), p, channel)
    {
      if !active || this.channel != channel {
        return;
      }
      var next := At(head, 1);
      if next != tail {
        ghost var before, n := Value().queue, Backlog();
        assert At(tail, n) == head;
        fifo[head] := p;
        head := next;
        epoch := Add32(epoch, 1);
        assert Value().queue == before + [p];
      }
    }

    /** Takes the oldest packet, if there is one. */
    method Take() returns (taken: seq<Packet>)
      requires Valid()
      modifies this`tail
      ensures Valid() && taken == old(Value().queue)[..Min(1, old(|Value().queue|))]
      ensures Value() == old(Value()).(queue := old(Value().queue)[Min(1, old(|Value().queue|))..])
    {
      ghost var before := Value().queue;
      if tail == head {
        assert before == [];
        return [];
      }
      taken := [fifo[tail]];
      tail := At(tail, 1);
      assert Value().queue == before[1..];
    }
  }

  // ---- The operations on all slots ----

  function OfferedToAll(rs: seq<Reader>, p: Packet, channel: int): (r: seq<Reader>)
    ensures |r| == |rs|
  {
    seq(|rs|, i requires 0 <= i < |rs| => Offered(rs[i], p, channel))
  }

  function WithoutBacklog(r: Reader, channel: int): Reader {
    if r.active && r.channel == channel then r.(queue := []) else r
  }

  function ChannelCleared(rs: seq<Reader>, channel: int): (r: seq<Reader>)
    ensures |r| == |rs|
  {
    seq(|rs|, i requires 0 <= i < |rs| => WithoutBacklog(rs[i], channel))
  }

  function FreeSlots(): (r: seq<Reader>) {
    seq(MAX_READERS, i => Reader(false, -1, []))
  }

  /** The first free slot, or the number of slots. */
  function FirstFree(rs: seq<Reader>): (k: nat)
    ensures k <= |rs| && (k < |rs| ==> !rs[k].active)
    ensures forall i :: 0 <= i < k ==> rs[i].active
    decreases |rs|
  {
    if rs == [] then 0
    else if !rs[0].active then 0
    else 1 + FirstFree(rs[1..])
  }

  /** The channel of a received frame; an unknown one counts as channel 0. */
  function ChannelOf(p: Packet): int {
    if p.frame.res0 < 2 then p.frame.res0 else 0
  }

  class Client {
    const readers: seq<ReaderSlot>

    ghost function Fifos(): set<array<Packet>> {
      set r | r in readers :: r.fifo
    }

    /** The slots are separate objects and stand for `rs`. */
    ghost predicate Represents(rs: seq<Reader>)
      reads readers, Fifos()
    {
      && |readers| == |rs| == MAX_READERS
      && (forall i :: 0 <= i < MAX_READERS ==> readers[i].Valid() && readers[i].Value() == rs[i])
      && (forall i, j :: 0 <= i < j < MAX_READERS ==> readers[i] != readers[j] && readers[i].fifo != readers[j].fifo)
    }

    /** All slots are free. */
    constructor ()
      ensures fresh(readers) && fresh(Fifos()) && |readers| == 8
      ensures Represents(FreeSlots())
    {
      var slots: seq<ReaderSlot> := [];
      while |slots| < MAX_READERS
        invariant |slots| <= MAX_READERS
        invariant fresh(slots) && forall i :: 0 <= i < |slots| ==> fresh(slots[i].fifo)
        invariant forall i :: 0 <= i < |slots| ==> slots[i].Valid() && slots[i].Value() == Reader(false, -1, [])
        invariant forall i, j :: 0 <= i < j < |slots| ==> slots[i] != slots[j] && slots[i].fifo != slots[j].fifo
      {
        var slot := new ReaderSlot();
        slots := slots + [slot];
      }
      readers := slots;
    }

    method OfferTo(i: nat, p: Packet, channel: int, ghost rs: seq<Reader>)
      requires Represents(rs) && i < MAX_READERS
      modifies readers, Fifos()
      ensures Represents(rs[i := Offered(rs[i], p, channel)])
    {
      readers[i].Offer(p, channel);
    }

    /** Hands a packet to all active readers of a channel. */
    method FanOutPacket(p: Packet, channel: int, ghost rs: seq<Reader>)
      requires Represents(rs)
      modifies readers, Fifos()
      ensures Represents(OfferedToAll(rs, p, channel))
    {
      ghost var now, all := rs, OfferedToAll(rs, p, channel);
      for i := 0 to MAX_READERS
        invariant Represents(now)
        invariant forall k :: 0 <= k < i ==> now[k] == all[k]
        invariant forall k :: i <= k < MAX_READERS ==> now[k] == rs[k]
      {
        OfferTo(i, p, channel, now);
        now := now[i := all[i]];
      }
      assert now == all;
    }

    method ClearAt(i: nat, channel: int, ghost rs: seq<Reader>)
      requires Represents(rs) && i < MAX_READERS
      modifies readers
      ensures Represents(rs[i := WithoutBacklog(rs[i], channel)])
    {
      if readers[i].active && readers[i].channel == channel {
        readers[i].Clear();
      }
    }

    /** Opening a channel empties the FIFOs of its readers. */
    method ClearChannel(channel: int, ghost rs: seq<Reader>)
      requires Represents(rs)
      modifies readers
      ensures Represents(ChannelCleared(rs, channel))
    {
      ghost var now, all := rs, ChannelCleared(rs, channel);
      for i := 0 to MAX_READERS
        invariant Represents(now)
        invariant forall k :: 0 <= k < i ==> now[k] == all[k]
        invariant forall k :: i <= k < MAX_READERS ==> now[k] == rs[k]
      {
        ClearAt(i, channel, now);
        now := now[i := all[i]];
      }
      assert now == all;
    }

    /** Gives the first free slot to a new reader; -1 if there is none. */
    method RegisterReader(channel: int, ghost rs: seq<Reader>) returns (id: int)
      requires Represents(rs)
      modifies readers
      ensures id == if FirstFree(rs) < MAX_READERS then FirstFree(rs) else -1
      ensures Represents(if id >= 0 then rs[id := Reader(true, channel, [])] else rs)
    {
      for i := 0 to MAX_READERS
        invariant Represents(rs)
        invariant forall k :: 0 <= k < i ==> rs[k].active
      {
        if !readers[i].active {
          Activate(i, channel, rs);
          return i;
        }
      }
      id := -1;
    }

    method Activate(i: nat, channel: int, ghost rs: seq<Reader>)
      requires Represents(rs) && i < MAX_READERS
      modifies readers
      ensures Represents(rs[i := Reader(true, channel, [])])
    {
      readers[i].active, readers[i].channel := true, channel;
      readers[i].Clear();
    }

    method UnregisterReader(id: int, ghost rs: seq<Reader>)
      requires Represents(rs)
      modifies readers
      ensures Represents(if 0 <= id < MAX_READERS then rs[id := rs[id].(active := false, channel := -1)] else rs)
    {
      if 0 <= id < MAX_READERS {
        readers[id].active, readers[id].channel := false, -1;
      }
    }

    /** Reads one packet from a reader's own FIFO, active or not. */
    method ReadPacket(id: int, ghost rs: seq<Reader>) returns (taken: seq<Packet>)
      requires Represents(rs)
      modifies readers
      ensures !(0 <= id < MAX_READERS) ==> taken == [] && Represents(rs)
      ensures 0 <= id < MAX_READERS ==>
        && taken == rs[id].queue[..Min(1, |rs[id].queue|)]
        && Represents(rs[id := rs[id].(queue := rs[id].queue[Min(1, |rs[id].queue|)..])])
    {
      if !(0 <= id < MAX_READERS) {
        return [];
      }
      taken := readers[id].Take();
    }
  }
}
