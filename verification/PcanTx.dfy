/**
 The PEAK uCAN transmit side (usb_can_driver/codecs/pcan_codec.h and pcan_codec.cc):
 the message that carries one frame, and the drain of one TX ring, one frame per
 transfer.
 */
module PcanTx {
  import opened Arithmetic
  import opened ByteBuffer
  import opened MachineInts
  import opened CanFrame
  import opened Results
  import opened PcanCodec
  import opened RingEntry
  import opened RingIo
  import opened RingStream
  import opened SharedRing

  const TX_HEADER := 20
  const MSG_CAN_TX: u16 := 0x1000
  const TX_BUF_SIZE := 128

  predicate IsExt(f: Frame) {
    HasFlag(f.canId, CAN_EFF_FLAG)
  }

  /** Only a classic frame can be a remote request. */
  predicate IsRtr(f: Frame) {
    !IsFd(f) && HasFlag(f.canId, CAN_RTR_FLAG)
  }

  function TxDlc(f: Frame): (dlc: byte)
    ensures dlc <= 15
  {
    if IsFd(f) then LenToDlc(WireLen(f)) else WireLen(f)
  }

  function TxFlags(f: Frame): u16 {
    (if IsExt(f) then FLAG_EXT_ID else 0)
      + (if IsFd(f)
         then FLAG_EXT_DATA_LEN + (if HasFlag(f.flags, CANFD_BRS) then FLAG_BRS else 0)
                                + (if HasFlag(f.flags, CANFD_ESI) then FLAG_ESI else 0)
         else if IsRtr(f) then FLAG_RTR else 0)
  }

  function BareId(f: Frame): u32 {
    if IsExt(f) then f.canId % CAN_EFF_SIZE else f.canId % CAN_SFF_SIZE
  }

  /** The size of the message, rounded up to a multiple of four. */
  function MsgSize(f: Frame): (n: u16)
    ensures TX_HEADER + WireLen(f) <= n < TX_HEADER + WireLen(f) + 4 && n % 4 == 0
  {
    (TX_HEADER + WireLen(f) + 3) / 4 * 4
  }

  /** Channel and DLC, client, flags, identifier, as both message formats lay them out. */
  function FieldBytes(channelDlc: byte, flags: u16, id: u32): (b: seq<byte>)
    ensures |b| == 8
  {
    [channelDlc, 0] + LittleEndian16(flags) + LittleEndian32(id)
  }

  function ChannelDlc(f: Frame): byte {
    f.res0 % 16 + 16 * TxDlc(f)
  }

  function Fields(f: Frame): seq<byte> {
    FieldBytes(ChannelDlc(f), TxFlags(f), BareId(f))
  }

  function Payload(f: Frame): (b: seq<byte>)
    ensures |b| == MsgSize(f) - TX_HEADER
  {
    f.data[..WireLen(f)] + Zeros(MsgSize(f) - TX_HEADER - WireLen(f))
  }

  function Prefix(f: Frame): (b: seq<byte>)
    ensures |b| == 12
  {
    LittleEndian16(MsgSize(f)) + LittleEndian16(MSG_CAN_TX) + LittleEndian32(TX_ECHO_TAG) + Zeros(4)
  }

  /** One frame on the wire: the message and a zero size behind it. */
  function TxMessage(f: Frame): (b: seq<byte>)
    ensures |b| == MsgSize(f) + 4 <= 88
  {
    Prefix(f) + Fields(f) + Payload(f) + Zeros(4)
  }

  /** What is left of a frame on the bus: masked identifier, a length that a DLC can
      stand for, and the payload that was written, zero-filled. */
  function OnBus(f: Frame): Frame {
    var id := if IsExt(f) then BareId(f) + CAN_EFF_FLAG else BareId(f);
    Frame(if IsRtr(f) then id + CAN_RTR_FLAG else id,
          if IsFd(f) then DlcToLen(LenToDlc(WireLen(f))) else WireLen(f),
          if IsFd(f) then FdFlags(HasFlag(f.flags, CANFD_BRS), HasFlag(f.flags, CANFD_ESI)) else 0,
          f.res0 % 16, 0,
          Padded(if IsRtr(f) then [] else f.data[..WireLen(f)]))
  }

  /** The RX message by which a receiver reports a frame that a TX message carried. */
  function AsRxMessage(tx: seq<byte>, stamps: seq<byte>): seq<byte>
    requires |tx| >= 24 && |stamps| == 16
  {
    LittleEndian16((|tx| + 4) % TWO_16) + LittleEndian16(MSG_CAN_RX) + stamps + tx[12..|tx| - 4]
  }

  lemma FlagsDecode(f: Frame)
    ensures HasFlag(TxFlags(f), FLAG_EXT_ID) == IsExt(f)
    ensures HasFlag(TxFlags(f), FLAG_EXT_DATA_LEN) == IsFd(f)
    ensures HasFlag(TxFlags(f), FLAG_RTR) == IsRtr(f)
    ensures IsFd(f) ==> HasFlag(TxFlags(f), FLAG_BRS) == HasFlag(f.flags, CANFD_BRS)
    ensures IsFd(f) ==> HasFlag(TxFlags(f), FLAG_ESI) == HasFlag(f.flags, CANFD_ESI)
  {
  }

  lemma IdDecodes(f: Frame)
    ensures !HasFlag(BareId(f), CAN_EFF_FLAG)
    ensures !HasFlag(BareId(f), CAN_RTR_FLAG) && !HasFlag(BareId(f) + CAN_EFF_FLAG, CAN_RTR_FLAG)
  {
  }

  lemma FieldsDecode(f: Frame)
    ensures RxFrame(ChannelDlc(f), TxFlags(f), BareId(f), Payload(f)) == OnBus(f)
  {
    var payload := Payload(f);
    FlagsDecode(f);
    IdDecodes(f);
    var len := OnBus(f).len;
    if !IsRtr(f) {
      assert Padded(payload[..Min(len, |payload|)]) == Padded(f.data[..WireLen(f)]);
    }
  }

  /** Where the fields stand in an RX message. */
  lemma RxFields(head: seq<byte>, channelDlc: byte, flags: u16, id: u32, payload: seq<byte>)
    requires |head| == 20
    ensures DecodeRx(head + FieldBytes(channelDlc, flags, id) + payload) == RxFrame(channelDlc, flags, id, payload)
  {
    var m := head + FieldBytes(channelDlc, flags, id) + payload;
    assert m[22..24] == LittleEndian16(flags);
    assert m[24..28] == LittleEndian32(id);
    assert m[28..] == payload;
    LittleEndian32RoundTrip(id);
  }

  lemma MiddleOfMessage(prefix: seq<byte>, fields: seq<byte>, payload: seq<byte>, end: seq<byte>)
    requires |prefix| == 12 && |end| == 4
    ensures
      var tx := prefix + fields + payload + end;
      tx[12..|tx| - 4] == fields + payload
  {
  }

  /** A receiver decodes a frame from the bus to its bus form. */
  lemma BusRoundTrip(f: Frame, stamps: seq<byte>)
    requires |stamps| == 16
    ensures DecodeRx(AsRxMessage(TxMessage(f), stamps)) == OnBus(f)
  {
    var head := LittleEndian16((|TxMessage(f)| + 4) % TWO_16) + LittleEndian16(MSG_CAN_RX) + stamps;
    MiddleOfMessage(Prefix(f), Fields(f), Payload(f), Zeros(4));
    assert AsRxMessage(TxMessage(f), stamps) == head + Fields(f) + Payload(f);
    RxFields(head, ChannelDlc(f), TxFlags(f), BareId(f), Payload(f));
    FieldsDecode(f);
  }

  /** The bus form is final: sending it again changes nothing. */
  lemma OnBusIsStable(f: Frame)
    ensures OnBus(OnBus(f)) == OnBus(f)
  {
    var g := OnBus(f);
    assert IsFd(g) == IsFd(f) && IsExt(g) == IsExt(f) && IsRtr(g) == IsRtr(f);
    assert WireLen(g) == g.len;
    assert Padded(g.data[..g.len]) == g.data;
  }

  /** What is kept of a frame, by bits and bytes: its channel modulo 16, 11 or 29 bits of the
      identifier, the remote request of a classic frame, 8 or 64 bytes, the bit rate and
      error flags of an FD frame. */
  lemma OnBusMeans(f: Frame)
    ensures
      var g, ext, fd := OnBus(f), f.canId >= 0x8000_0000, f.flags / 4 % 2 == 1;
      var rtr, n := !fd && f.canId / 0x4000_0000 % 2 == 1, Min(f.len, if fd then 64 else 8);
      && g.canId == (if ext then 0x8000_0000 + f.canId % 0x2000_0000 else f.canId % 0x800)
                      + (if rtr then 0x4000_0000 else 0)
      && g.len == (if fd then DlcToLen(LenToDlc(n)) else n)
      && g.flags == (if fd then 4 + f.flags % 4 else 0) && g.res0 == f.res0 % 16 && g.res1 == 0
      && forall i :: 0 <= i < 64 ==> g.data[i] == if !rtr && i < n then f.data[i] else 0
  {
  }

  // ---- On the wire ----

  lemma PrefixBytes(size: u16)
    ensures
      var b := LittleEndian16(size) + LittleEndian16(MSG_CAN_TX) + LittleEndian32(TX_ECHO_TAG) + Zeros(4);
      && b[0] + 0x100 * (b[1] as int) == size
      && b[2..12] == [0x00, 0x10, 0x0D, 0xF0, 0xA7, 0x0C, 0, 0, 0, 0]
  {
  }

  /** A message is a transfer of its own: its size and type, least significant byte first,
      the tag for the device to echo, a multiple of four bytes, and a zero size behind. */
  lemma TxMessageIsTransfer(f: Frame)
    ensures
      var b := TxMessage(f);
      && |b| % 4 == 0 && 24 + WireLen(f) <= |b| < 28 + WireLen(f)
      && b[0] + 0x100 * (b[1] as int) == |b| - 4
      && b[2..12] == [0x00, 0x10, 0x0D, 0xF0, 0xA7, 0x0C, 0, 0, 0, 0]
      && b[20..20 + WireLen(f)] == f.data[..WireLen(f)]
      && b[|b| - 4..] == [0, 0, 0, 0]
  {
    var b := TxMessage(f);
    PrefixBytes(MsgSize(f));
    assert b[..12] == Prefix(f);
    assert b[2..12] == Prefix(f)[2..12];
    assert b[20..20 + WireLen(f)] == Payload(f)[..WireLen(f)];
  }

  lemma AsRxIsMessage(f: Frame, stamps: seq<byte>)
    requires |stamps| == 16
    ensures
      var m := AsRxMessage(TxMessage(f), stamps);
      |m| >= RX_MSG_SIZE && SizeField(m) == |m| && TypeField(m) == MSG_CAN_RX && m[12..16] == stamps[8..12]
  {
    var tx := TxMessage(f);
    var m := AsRxMessage(tx, stamps);
    QuotientUnique(|tx| + 4, 0, |tx| + 4, TWO_16);
    assert m[..2] == LittleEndian16(|tx| + 4);
    assert m[2..4] == LittleEndian16(MSG_CAN_RX);
  }

  /** One whole message is the whole transfer. */
  lemma ParseOneMessage(m: seq<byte>)
    requires |m| >= MSG_HEADER_SIZE && SizeField(m) == |m|
    ensures Parse([], m) == Parsed([EventOf(TypeField(m), m)], EndOfTransfer)
  {
    assert m[..|m|] == m && m[|m|..] == [];
    assert [] + [EventOf(TypeField(m), m)] == [EventOf(TypeField(m), m)];
  }

  /** A message carries the echo tag exactly if it carries back the tag that the TX message had. */
  lemma TagIsEchoed(f: Frame, m: seq<byte>)
    requires |m| >= RX_MSG_SIZE
    ensures FromLittleEndian32(m[12..16]) == TX_ECHO_TAG <==> m[12..16] == TxMessage(f)[4..8]
  {
    TxMessageIsTransfer(f);
    assert TxMessage(f)[4..8] == TxMessage(f)[2..12][2..6];
    EchoTagBytes(m[12..16]);
  }

  /** A transfer that reports the frame of a TX message hands on its bus form, unless it
      carries the tag that the TX message had: then it is an echo and no frame. */
  lemma BusTransfer(f: Frame, stamps: seq<byte>)
    requires |stamps| == 16
    ensures
      var echoed := stamps[8..12] == TxMessage(f)[4..8];
      var parsed := Parse([], AsRxMessage(TxMessage(f), stamps));
      && parsed == Parsed([if echoed then Echo else Received(OnBus(f))], EndOfTransfer)
      && Frames(parsed.events) == (if echoed then [] else [OnBus(f)])
  {
    var m := AsRxMessage(TxMessage(f), stamps);
    AsRxIsMessage(f, stamps);
    ParseOneMessage(m);
    TagIsEchoed(f, m);
    BusRoundTrip(f, stamps);
    FramesOfOne(EventOf(TypeField(m), m));
  }

  lemma FramesOfOne(e: Event)
    ensures Frames([e]) == FrameOfEvent(e)
  {
    assert [e][..0] == [] && [] + FrameOfEvent(e) == FrameOfEvent(e);
  }

  // ---- Encoder ----

  method WriteParts(out: array<byte>, prefix: seq<byte>, fields: seq<byte>, payload: seq<byte>, end: seq<byte>)
    requires |prefix| == 12 && |fields| == 8 && 20 + |payload| + |end| <= out.Length
    modifies out
    ensures out[..20 + |payload| + |end|] == prefix + fields + payload + end
  {
    WriteAt(out, 0, prefix);
    WriteAt(out, 12, fields);
    WriteAt(out, 20, payload);
    WriteAt(out, 20 + |payload|, end);
  }

  /** Writes the message for one frame; 0 if the buffer is too small. */
  method EncodeTxFrame(f: Frame, out: array<byte>) returns (size: nat)
    modifies out
    ensures size == if |TxMessage(f)| <= out.Length then |TxMessage(f)| else 0
    ensures size <= out.Length && (size > 0 ==> out[..size] == TxMessage(f))
  {
    var totalSize := MsgSize(f) + 4;
    if totalSize > out.Length {
      return 0;
    }
    WriteParts(out, Prefix(f), Fields(f), Payload(f), Zeros(4));
    size := totalSize;
  }

  // ---- Drain ----

  /** One drain of a ring that holds the bytes `b`: what the call returns, what it
      hands to the send callback, whether a frame was delivered and whether an entry
      of invalid size was dropped, and what is left in the ring. */
  datatype Outcome = Outcome(status: Status, sent: seq<byte>, delivered: bool, dropped: bool, left: seq<byte>)

  /** The tail moves only past an entry of invalid size or if the callback's answer
      `result` is success. */
  function DrainOf(b: seq<byte>, txInFlight: bool, result: Status): Outcome {
    if txInFlight then Outcome(Busy, [], false, false, b)
    else
      var p := ParseTx(b);
      if p.TxIncomplete? then Outcome(Success, [], false, false, b)
      else if p.TxDropped? then Outcome(Success, [], false, true, b[p.size..])
      else Outcome(result, TxMessage(p.frame), result == Success, false, if result == Success then b[p.size..] else b)
  }

  /** Takes the entry at the tail of one ring and sends it. A message always fits into
      the 128-byte buffer. */
  method DrainTxRing(h: SharedRingHeader, r: Ring, txInFlight: bool, result: Status)
    returns (status: Status, sent: seq<byte>)
    requires r.Valid()
    modifies h`txDropped, h`txDrainCount, r.ctrl
    ensures r.Valid()
    ensures
      var d := DrainOf(old(r.Bytes()), txInFlight, result);
      && status == d.status && sent == d.sent && r.Bytes() == d.left
      && h.txDrainCount == CountIf(old(h.txDrainCount), d.delivered)
      && h.txDropped == CountIf(old(h.txDropped), d.dropped)
  {
    if txInFlight {
      return Busy, [];
    }
    ghost var b := r.Bytes();
    var read := h.ReadTxFrame(r, r.ctrl.tail, r.ctrl.tailPos);
    if read.TxIncomplete? {
      return Success, [];
    }
    if read.TxDropped? {
      r.Consume(read.size);
      return Success, [];
    }
    var txBuf := new byte[TX_BUF_SIZE];
    var txSize := EncodeTxFrame(read.frame, txBuf);
    sent := txBuf[..txSize];
    assert r.Bytes() == b;
    if result == Success {
      r.Consume(read.size);
      h.txDrainCount := Add32(h.txDrainCount, 1);
    }
    status := result;
  }

  /** The first error of two drains; a busy one counts as success. */
  function Combined(first: Status, second: Status): Status {
    if first != Success && first != Busy then first
    else if second != Success && second != Busy then second
    else Success
  }

  /** Busy is no error, the first error is reported, and success only if there is none. */
  lemma CombinedIsFirstError(first: Status, second: Status)
    ensures Combined(first, second) == Success <==> first in {Success, Busy} && second in {Success, Busy}
    ensures first !in {Success, Busy} ==> Combined(first, second) == first
    ensures first in {Success, Busy} && second !in {Success, Busy} ==> Combined(first, second) == second
  {
  }

  /** The dual-endpoint drain: each channel's ring goes to its own endpoint, whatever
      becomes of the other. */
  method DrainBothRings(h: SharedRingHeader, inFlight0: bool, result0: Status, inFlight1: bool, result1: Status)
    returns (status: Status, sent0: seq<byte>, sent1: seq<byte>)
    requires h.Valid()
    modifies h`txDropped, h`txDrainCount, h.tx0, h.tx1
    ensures h.Valid() && h.RxRing().Bytes() == old(h.RxRing().Bytes())
    ensures
      var d0 := DrainOf(old(h.Tx0Ring().Bytes()), inFlight0, result0);
      var d1 := DrainOf(old(h.Tx1Ring().Bytes()), inFlight1, result1);
      && sent0 == d0.sent && h.Tx0Ring().Bytes() == d0.left
      && sent1 == d1.sent && h.Tx1Ring().Bytes() == d1.left
      && status == Combined(d0.status, d1.status)
      && h.txDrainCount == CountIf(CountIf(old(h.txDrainCount), d0.delivered), d1.delivered)
      && h.txDropped == CountIf(CountIf(old(h.txDropped), d0.dropped), d1.dropped)
  {
    var ret0, ret1;
    ret0, sent0 := DrainTxRing(h, h.Tx0Ring(), inFlight0, result0);
    ret1, sent1 := DrainTxRing(h, h.Tx1Ring(), inFlight1, result1);
    if ret0 != Success && ret0 != Busy {
      return ret0, sent0, sent1;
    }
    if ret1 != Success && ret1 != Busy {
      return ret1, sent0, sent1;
    }
    status := Success;
  }

  /** A drain of a queue of frames: the message of the first frame is sent, and only
      that frame leaves the queue, if the pipe accepts it. */
  lemma DrainOfQueue(fs: seq<Frame>, result: Status)
    ensures
      var d := DrainOf(TxStream(fs), false, result);
      && d.delivered == (fs != [] && result == Success)
      && d.sent == (if fs == [] then [] else TxMessage(fs[0]))
      && d.left == TxStream(if d.delivered then fs[1..] else fs)
  {
    if fs != [] {
      ParseTxStream(fs);
    }
  }

  /** Serialised drains of a ring that holds the bytes `b`, with the answers `results` of
      the pipe: the messages it accepted, and the bytes left. */
  function Drains(b: seq<byte>, results: seq<Status>): (seq<seq<byte>>, seq<byte>)
    decreases |results|
  {
    if results == [] then ([], b)
    else
      var d := DrainOf(b, false, results[0]);
      var rest := Drains(d.left, results[1..]);
      (if d.delivered then [d.sent] + rest.0 else rest.0, rest.1)
  }

  function Successes(results: seq<Status>): nat {
    if results == [] then 0 else (if results[0] == Success then 1 else 0) + Successes(results[1..])
  }

  function Messages(fs: seq<Frame>): seq<seq<byte>> {
    seq(|fs|, i requires 0 <= i < |fs| => TxMessage(fs[i]))
  }

  lemma FirstMessage(fs: seq<Frame>, k: nat)
    requires 0 < k <= |fs|
    ensures Messages(fs[..k]) == [TxMessage(fs[0])] + Messages(fs[1..][..k - 1])
    ensures fs[1..][k - 1..] == fs[k..]
  {
  }

  /** How many frames of the queue the answers deliver. */
  function Delivered(fs: seq<Frame>, results: seq<Status>): (k: nat)
    ensures k <= |fs|
  {
    Min(|fs|, Successes(results))
  }

  /** One drain of a queue, and the rest of the drains. */
  lemma DrainsOfQueueStep(fs: seq<Frame>, results: seq<Status>)
    requires results != []
    ensures
      var delivered := fs != [] && results[0] == Success;
      var rest := Drains(TxStream(if delivered then fs[1..] else fs), results[1..]);
      Drains(TxStream(fs), results) == (if delivered then [TxMessage(fs[0])] + rest.0 else rest.0, rest.1)
  {
    DrainOfQueue(fs, results[0]);
  }

  ghost predicate SentInOrder(fs: seq<Frame>, results: seq<Status>) {
    var k := Delivered(fs, results);
    Drains(TxStream(fs), results) == (Messages(fs[..k]), TxStream(fs[k..]))
  }

  lemma SendsFirst(fs: seq<Frame>, results: seq<Status>)
    requires fs != [] && results != [] && results[0] == Success && SentInOrder(fs[1..], results[1..])
    ensures SentInOrder(fs, results)
  {
    DrainsOfQueueStep(fs, results);
    FirstMessage(fs, Delivered(fs, results));
  }

  lemma SendsNone(fs: seq<Frame>, results: seq<Status>)
    requires results != [] && (fs == [] || results[0] != Success) && SentInOrder(fs, results[1..])
    ensures SentInOrder(fs, results)
  {
    DrainsOfQueueStep(fs, results);
  }

  /** Whatever mix of success, busy and error the pipe answers, the bytes of a queue of
      frames are sent as the messages of its first frames, once each and in order, one for
      every success, and the bytes of the other frames stay in the ring. */
  lemma {:induction false} QueueIsSentOnceInOrder(fs: seq<Frame>, results: seq<Status>)
    ensures
      var k := Delivered(fs, results);
      Drains(TxStream(fs), results) == (Messages(fs[..k]), TxStream(fs[k..]))
    decreases |results|
  {
    if results == [] {
      assert fs[0..] == fs && Messages(fs[..0]) == [];
    } else if fs != [] && results[0] == Success {
      QueueIsSentOnceInOrder(fs[1..], results[1..]);
      SendsFirst(fs, results);
    } else {
      QueueIsSentOnceInOrder(fs, results[1..]);
      SendsNone(fs, results);
    }
  }

  /** An entry of invalid size is dropped and nothing is sent; behind it the drain finds the
      next entry. An entry that is not complete is left. */
  lemma DrainOfInvalid(n: u16, payload: seq<byte>, rest: seq<byte>, result: Status)
    requires n != 16 && n != 72
    ensures |payload| == n ==>
      DrainOf(Announced(n, payload) + rest, false, result) == Outcome(Success, [], false, true, rest)
    ensures |payload| < n ==>
      DrainOf(Announced(n, payload), false, result) == Outcome(Success, [], false, false, Announced(n, payload))
  {
    if |payload| == n {
      ParseTxCases(n, payload, rest);
      assert (Announced(n, payload) + rest)[n as int + 2..] == rest;
    } else if |payload| < n {
      ParseTxIncomplete(n, payload);
    }
  }
}
