/**
 The calls that read and write one ring (can_client/shared_ring_io.h and the ring
 operations of can_client/can_client.cc). A ring is a pair of free-running 32-bit
 counters and a region of the shared byte array; `Bytes` is the unbounded byte
 queue it stands for.
 */
module RingIo {
  import opened MachineInts
  import opened CanFrame
  import opened RingEntry
  import opened RingStream
  import opened RingWindow

  /** Counters as stored, and the unbounded positions they stand for. */
  class RingCtrl {
    var head: u32
    var tail: u32
    ghost var headPos: nat
    ghost var tailPos: nat

    constructor ()
      ensures head == tail == 0 && headPos == tailPos == 0
    {
      head, tail := 0, 0;
      headPos, tailPos := 0, 0;
    }
  }

  /** The pointers and the capacity that every ring call is given. */
  datatype Ring = Ring(ctrl: RingCtrl, data: array<byte>, base: nat, cap: nat) {

    ghost predicate Valid()
      reads ctrl
    {
      && ValidCapacity(cap)
      && base + cap <= data.Length
      && ctrl.head == ctrl.headPos % TWO_32
      && ctrl.tail == ctrl.tailPos % TWO_32
      && ctrl.tailPos <= ctrl.headPos <= ctrl.tailPos + cap
    }

    ghost function Region(): (s: seq<byte>)
      requires base + cap <= data.Length
      reads data
      ensures |s| == cap
    {
      data[base..base + cap]
    }

    /** The bytes from unbounded position `pos` up to the published head. */
    ghost function BytesFrom(pos: nat): (b: seq<byte>)
      requires Valid() && pos <= ctrl.headPos
      reads ctrl, data
      ensures |b| == ctrl.headPos - pos
    {
      Window(Region(), pos, ctrl.headPos - pos)
    }

    /** The byte queue that the ring stands for. */
    ghost function Bytes(): (b: seq<byte>)
      requires Valid()
      reads ctrl, data
      ensures |b| <= cap
    {
      BytesFrom(ctrl.tailPos)
    }

    /** No byte outside the ring's region differs between two states of the array. */
    ghost predicate SameOutside(before: seq<byte>)
      requires base + cap <= data.Length == |before|
      reads data
    {
      data[..base] == before[..base] && data[base + cap..] == before[base + cap..]
    }

    /** Stores `src` from counter `pos` on. `lo` is the tail position: the stretch
        [lo, from) grows by `src`. */
    method StoreBytes(pos: u32, src: seq<byte>, ghost lo: nat, ghost from: nat)
      requires ValidCapacity(cap) && base + cap <= data.Length
      requires pos == from % TWO_32 && lo <= from && from + |src| <= lo + cap
      modifies data
      ensures Window(Region(), lo, from - lo + |src|) == old(Window(Region(), lo, from - lo)) + src
      ensures SameOutside(old(data[..]))
    {
      var i: nat := 0;
      while i < |src|
        invariant i <= |src|
        invariant Window(Region(), lo, from - lo + i) == old(Window(Region(), lo, from - lo)) + src[..i]
        invariant SameOutside(old(data[..]))
      {
        ghost var before := Region();
        StoreNext(before, lo, from - lo + i, src[i]);
        CounterIndex(from, i, cap);
        data[base + Add32(pos, i) % cap] := src[i];
        assert Region() == before[(from + i) % cap := src[i]];
        i := i + 1;
      }
    }

    /** Reads `n` bytes from counter `pos` on. */
    method LoadBytes(pos: u32, n: nat, ghost from: nat) returns (b: seq<byte>)
      requires ValidCapacity(cap) && base + cap <= data.Length
      requires pos == from % TWO_32 && n < TWO_32
      ensures b == Window(Region(), from, n)
    {
      b := [];
      while |b| < n
        invariant |b| <= n
        invariant b == Window(Region(), from, |b|)
      {
        CounterIndex(from, |b|, cap);
        WindowSplit(Region(), from, |b|, 1);
        b := b + [data[base + Add32(pos, |b|) % cap]];
      }
    }

    /** cap - (head - tail), in the wrapping arithmetic of the source. */
    function FreeSpace(): (free: u32)
      requires Valid()
      reads ctrl, data
      ensures free == cap - |Bytes()|
    {
      CounterDistance(ctrl.headPos, ctrl.tailPos);
      Sub32(cap, Sub32(ctrl.head, ctrl.tail))
    }

    /** head - tail for a local tail at unbounded position `pos`. */
    function Used(tail: u32, ghost pos: nat): (used: u32)
      requires Valid() && tail == pos % TWO_32 && ctrl.tailPos <= pos <= ctrl.headPos
      reads ctrl, data
      ensures used == |BytesFrom(pos)|
    {
      CounterDistance(ctrl.headPos, pos);
      Sub32(ctrl.head, tail)
    }

    /** Stores an entry at head and publishes head; room was checked. */
    method Produce(header: seq<byte>, body: seq<byte>)
      requires Valid() && |Bytes()| + |header| + |body| <= cap
      modifies data, ctrl
      ensures Valid()
      ensures Bytes() == old(Bytes()) + (header + body)
      ensures SameOutside(old(data[..]))
    {
      var head := ctrl.head;
      ghost var lo, from, before := ctrl.tailPos, ctrl.headPos, Bytes();
      StoreBytes(head, header, lo, from);
      CounterIndex(from, |header|, cap);
      StoreBytes(Add32(head, |header|), body, lo, from + |header|);
      CounterIndex(from, |header| + |body|, cap);
      ctrl.head := Add32(head, |header| + |body|);
      ctrl.headPos := from + |header| + |body|;
      assert (before + header) + body == before + (header + body);
      assert Window(Region(), lo, |before| + |header| + |body|) == (before + header) + body;
    }

    /** Reads `n` bytes at offset `at` behind a local tail at position `pos`. */
    method Peek(tail: u32, at: nat, n: nat, ghost pos: nat) returns (b: seq<byte>)
      requires Valid() && tail == pos % TWO_32
      requires ctrl.tailPos <= pos && pos + at + n <= ctrl.headPos
      ensures b == BytesFrom(pos)[at..at + n]
    {
      CounterIndex(pos, at, cap);
      b := LoadBytes(Add32(tail, at), n, pos + at);
      WindowSlice(Region(), pos, ctrl.headPos - pos, at, at + n);
    }

    /** Publishes a consumer's tail. */
    method StoreTail(tail: u32, ghost pos: nat)
      requires Valid() && tail == pos % TWO_32 && ctrl.tailPos <= pos <= ctrl.headPos
      modifies ctrl
      ensures Valid()
      ensures Bytes() == old(BytesFrom(pos))
      ensures ctrl.tailPos == pos && ctrl.headPos == old(ctrl.headPos)
    {
      ctrl.tail := tail;
      ctrl.tailPos := pos;
    }

    /** Publishes the tail `n` bytes further on. */
    method Consume(n: nat)
      requires Valid() && n <= |Bytes()|
      modifies ctrl
      ensures Valid()
      ensures Bytes() == old(Bytes())[n..]
    {
      LocalTailAdvance(Region(), ctrl.tailPos, |Bytes()|, n);
      StoreTail(Add32(ctrl.tail, n), ctrl.tailPos + n);
    }

    /** Reads the TX entry at local tail `tail` (readTxFrame). */
    method ReadTxEntry(tail: u32, ghost pos: nat) returns (result: TxParse)
      requires Valid() && tail == pos % TWO_32 && ctrl.tailPos <= pos <= ctrl.headPos
      ensures result == ParseTx(BytesFrom(pos))
    {
      var used := Used(tail, pos);
      if used < TX_HEADER_SIZE {
        return TxIncomplete;
      }
      var header := Peek(tail, 0, TX_HEADER_SIZE, pos);
      var frameSize := FromLittleEndian16(header);
      var entrySize := TX_HEADER_SIZE + frameSize;
      if entrySize > used {
        return TxIncomplete;
      }
      if frameSize != CAN_MTU && frameSize != CANFD_MTU {
        return TxDropped(entrySize);
      }
      var payload := Peek(tail, TX_HEADER_SIZE, frameSize, pos);
      result := TxFrame(FrameOfPayload(payload, false), entrySize);
    }

    /** Reads the RX entry at local tail `tail`: one round of the client's drain. */
    method ReadRxEntry(tail: u32, ghost pos: nat) returns (result: RxParse)
      requires Valid() && tail == pos % TWO_32 && ctrl.tailPos <= pos <= ctrl.headPos
      ensures result == ParseRx(BytesFrom(pos))
    {
      var avail := Used(tail, pos);
      if avail < RX_HEADER_SIZE {
        return RxIncomplete;
      }
      var header := Peek(tail, 0, 2, pos);
      var frameSize := FromLittleEndian16(header);
      var entrySize := RX_HEADER_SIZE + frameSize;
      if entrySize > avail {
        return RxIncomplete;
      }
      if frameSize != CAN_MTU && frameSize != CANFD_MTU {
        return RxSkip(entrySize);
      }
      var entry := Peek(tail, 0, entrySize, pos);
      result := RxPacket(PacketOfEntry(entry), entrySize);
    }

    /** One round of the drain loop: hands on the next packet or skips an entry of
        invalid size, unless what is left is incomplete. */
    method DrainRound(packets: seq<Packet>, tail: u32, ghost pos: nat)
      returns (more: bool, packets': seq<Packet>, tail': u32, ghost pos': nat)
      requires Valid() && tail == pos % TWO_32 && ctrl.tailPos <= pos <= ctrl.headPos
      ensures tail' == pos' % TWO_32 && pos <= pos' <= ctrl.headPos
      ensures more ==> pos < pos'
      ensures more ==> DrainedAfter(packets', BytesFrom(pos')) == DrainedAfter(packets, BytesFrom(pos))
      ensures !more ==> pos' == pos && DrainedAfter(packets, BytesFrom(pos)) == (packets', BytesFrom(pos'))
    {
      more, packets', tail', pos' := false, packets, tail, pos;
      var entry := ReadRxEntry(tail, pos);
      DrainedAfterStep(packets, BytesFrom(pos));
      if entry.RxIncomplete? {
        return;
      }
      if entry.RxPacket? {
        packets' := packets + [entry.packet];
      }
      more := true;
      LocalTailAdvance(Region(), pos, ctrl.headPos - pos, entry.size);
      tail', pos' := Add32(tail, entry.size), pos + entry.size;
    }

    /** Drains every complete entry at hand and publishes the tail behind them. */
    method DrainEntries() returns (packets: seq<Packet>)
      requires Valid()
      modifies ctrl
      ensures Valid()
      ensures (packets, Bytes()) == Drained(old(Bytes()))
    {
      packets := [];
      var tail, more := ctrl.tail, true;
      ghost var pos := ctrl.tailPos;
      DrainedAfterStep([], Bytes());
      while more && ctrl.head != tail
        modifies {}
        invariant tail == pos % TWO_32 && ctrl.tailPos <= pos <= ctrl.headPos
        invariant more ==> DrainedAfter(packets, BytesFrom(pos)) == Drained(old(Bytes()))
        invariant !more ==> (packets, BytesFrom(pos)) == Drained(old(Bytes()))
        decreases ctrl.headPos - pos, more
      {
        more, packets, tail, pos := DrainRound(packets, tail, pos);
      }
      assert ctrl.head == tail ==> Used(tail, pos) == 0;
      DrainedAfterAll(packets);
      StoreTail(tail, pos);
    }
  }
}
