/**
 Entry formats of the shared rings (can_client/shared_ring.h): an RX entry is
 [size:2][timestamp:8][frame], a TX entry is [size:2][frame]. `ParseRx` and
 `ParseTx` say what a consumer makes of the bytes that are available to it.
 */
module RingEntry {
  import opened MachineInts
  import opened CanFrame

  const RX_CAPACITY := 262144
  const TX0_CAPACITY := 16384
  const TX1_CAPACITY := 16384
  const RX_HEADER_SIZE := 10
  const TX_HEADER_SIZE := 2
  const RX_ENTRY_SIZE := 82
  const TX_ENTRY_SIZE := 74

  datatype RxParse = RxIncomplete | RxSkip(size: nat) | RxPacket(packet: Packet, size: nat)

  /** struct TxReadResult: no entry, an entry of invalid size, or a frame. */
  datatype TxParse = TxIncomplete | TxDropped(size: nat) | TxFrame(frame: Frame, size: nat)

  function RxEntry(p: Packet): (b: seq<byte>)
    ensures |b| == RX_ENTRY_SIZE
  {
    LittleEndian16(CANFD_MTU) + LittleEndian64(p.timestamp) + FrameBytes(p.frame)
  }

  function TxEntry(f: Frame): (b: seq<byte>)
    ensures |b| == TX_ENTRY_SIZE
  {
    LittleEndian16(CANFD_MTU) + FrameBytes(f)
  }

  /** The frame size an entry announces in its first two bytes. */
  function FrameSize(b: seq<byte>): u16
    requires |b| >= 2
  {
    FromLittleEndian16(b[..2])
  }

  predicate ValidFrameSize(n: nat) {
    n == CAN_MTU || n == CANFD_MTU
  }

  function FrameOfPayload(b: seq<byte>, keepChannel: bool): Frame
    requires ValidFrameSize(|b|)
  {
    if |b| == CAN_MTU then FrameOfClassicBytes(b, keepChannel) else FrameOfBytes(b)
  }

  /** The packet in a complete RX entry of valid size. */
  function PacketOfEntry(b: seq<byte>): Packet
    requires |b| >= RX_HEADER_SIZE && ValidFrameSize(|b| - RX_HEADER_SIZE)
  {
    Packet(FromLittleEndian64(b[2..10]), FrameOfPayload(b[10..], true))
  }

  function ParseRx(b: seq<byte>): (r: RxParse)
    ensures !r.RxIncomplete? ==> RX_HEADER_SIZE <= r.size <= |b|
  {
    if |b| < RX_HEADER_SIZE then RxIncomplete
    else
      var size := RX_HEADER_SIZE + FrameSize(b);
      if size > |b| then RxIncomplete
      else if !ValidFrameSize(FrameSize(b)) then RxSkip(size)
      else RxPacket(PacketOfEntry(b[..size]), size)
  }

  function ParseTx(b: seq<byte>): (r: TxParse)
    ensures !r.TxIncomplete? ==> TX_HEADER_SIZE <= r.size <= |b|
  {
    if |b| < TX_HEADER_SIZE then TxIncomplete
    else
      var size := TX_HEADER_SIZE + FrameSize(b);
      if size > |b| then TxIncomplete
      else if !ValidFrameSize(FrameSize(b)) then TxDropped(size)
      else TxFrame(FrameOfPayload(b[2..size], false), size)
  }

  lemma RxEntryParts(p: Packet)
    ensures RxEntry(p)[..2] == LittleEndian16(CANFD_MTU)
    ensures RxEntry(p)[2..10] == LittleEndian64(p.timestamp)
    ensures RxEntry(p)[10..] == FrameBytes(p.frame)
  {
    var sizeAndTime := LittleEndian16(CANFD_MTU) + LittleEndian64(p.timestamp);
    assert RxEntry(p)[..10] == sizeAndTime;
    assert RxEntry(p)[..2] == sizeAndTime[..2];
    assert RxEntry(p)[2..10] == sizeAndTime[2..10];
  }

  /** What the driver writes as one RX entry is what the client parses from it. */
  lemma RxEntryRoundTrip(p: Packet)
    ensures FrameSize(RxEntry(p)) == CANFD_MTU
    ensures PacketOfEntry(RxEntry(p)) == p
  {
    RxEntryParts(p);
    LittleEndian64RoundTrip(p.timestamp);
    FrameBytesRoundTrip(p.frame);
  }

  /** Two bytes of an entry are enough to know its size, all 82 to know its packet. */
  lemma RxEntryPrefix(b: seq<byte>, p: Packet)
    requires |b| <= RX_ENTRY_SIZE && b == RxEntry(p)[..|b|]
    ensures |b| >= 2 ==> FrameSize(b) == CANFD_MTU
    ensures |b| == RX_ENTRY_SIZE ==> PacketOfEntry(b) == p
  {
    RxEntryRoundTrip(p);
    if |b| >= 2 {
      assert b[..2] == RxEntry(p)[..2];
    }
    if |b| == RX_ENTRY_SIZE {
      assert b == RxEntry(p);
    }
  }

  /** The first entry is parsed whatever bytes follow it. */
  lemma ParseRxFirst(p: Packet, rest: seq<byte>)
    ensures ParseRx(RxEntry(p) + rest) == RxPacket(p, RX_ENTRY_SIZE)
  {
    var b := RxEntry(p) + rest;
    RxEntryRoundTrip(p);
    assert b[..RX_ENTRY_SIZE] == RxEntry(p);
    assert b[..2] == RxEntry(p)[..2];
  }

  lemma ParseTxFirst(f: Frame, rest: seq<byte>)
    ensures ParseTx(TxEntry(f) + rest) == TxFrame(f, TX_ENTRY_SIZE)
  {
    var b := TxEntry(f) + rest;
    assert b[..2] == LittleEndian16(CANFD_MTU);
    assert b[2..TX_ENTRY_SIZE] == FrameBytes(f);
    FrameBytesRoundTrip(f);
  }

  /** The bytes of an entry: size 72, least significant byte first, the time stamp of an RX
      entry in the next eight, and the frame behind. */
  lemma EntryLayout(p: Packet)
    ensures RxEntry(p)[..2] == [0x48, 0x00] && RxEntry(p)[2..10] == LittleEndian64(p.timestamp)
    ensures RxEntry(p)[10..] == FrameBytes(p.frame)
    ensures TxEntry(p.frame)[..2] == [0x48, 0x00] && TxEntry(p.frame)[2..] == FrameBytes(p.frame)
  {
    RxEntryParts(p);
  }

  /** An entry that announces n bytes. */
  function Announced(n: u16, payload: seq<byte>): (b: seq<byte>)
    ensures |b| == 2 + |payload|
  {
    [n % 0x100, n / 0x100] + payload
  }

  /** A TX entry of 16 bytes is a classic frame, one of another size than 16 and 72 is
      dropped whole, and one that is not complete is left alone. */
  lemma ParseTxCases(n: u16, payload: seq<byte>, rest: seq<byte>)
    requires |payload| == n
    ensures n == 16 ==>
      ParseTx(Announced(n, payload) + rest) == TxFrame(FrameOfClassicBytes(payload, false), 18)
    ensures n == 72 ==> ParseTx(Announced(n, payload) + rest) == TxFrame(FrameOfBytes(payload), 74)
    ensures n != 16 && n != 72 ==> ParseTx(Announced(n, payload) + rest) == TxDropped(n as int + 2)
  {
    var b := Announced(n, payload) + rest;
    AnnouncedSize(n, payload, rest);
    assert b[2..n as int + 2] == payload;
  }

  lemma AnnouncedSize(n: u16, payload: seq<byte>, rest: seq<byte>)
    ensures FrameSize(Announced(n, payload) + rest) == n
  {
    assert (Announced(n, payload) + rest)[..2] == [n % 0x100, n / 0x100];
  }

  lemma ParseTxIncomplete(n: u16, payload: seq<byte>)
    requires |payload| < n
    ensures ParseTx(Announced(n, payload)) == TxIncomplete
    ensures ParseTx([]) == TxIncomplete && forall x: byte :: ParseTx([x]) == TxIncomplete
  {
    AnnouncedSize(n, payload, []);
    assert Announced(n, payload) + [] == Announced(n, payload);
  }

  /** The same for RX entries, with eight bytes of time stamp that the size does not count. */
  lemma ParseRxCases(n: u16, stamp: seq<byte>, payload: seq<byte>, rest: seq<byte>)
    requires |payload| == n && |stamp| == 8
    ensures
      var r := ParseRx(Announced(n, stamp + payload) + rest);
      && (n == 16 ==>
            r == RxPacket(Packet(FromLittleEndian64(stamp), FrameOfClassicBytes(payload, true)), 26))
      && (n == 72 ==> r == RxPacket(Packet(FromLittleEndian64(stamp), FrameOfBytes(payload)), 82))
      && (n != 16 && n != 72 ==> r == RxSkip(n as int + 10))
  {
    var b := Announced(n, stamp + payload) + rest;
    AnnouncedSize(n, stamp + payload, rest);
    var entry := b[..n as int + 10];
    assert entry[2..10] == stamp && entry[10..] == payload;
  }

  lemma ParseRxIncomplete(n: u16, bytes: seq<byte>)
    requires |bytes| < n as int + 8
    ensures ParseRx(Announced(n, bytes)) == RxIncomplete
  {
    AnnouncedSize(n, bytes, []);
    assert Announced(n, bytes) + [] == Announced(n, bytes);
  }
}
