/**
 The PEAK uCAN receive stream (usb_can_driver/codecs/pcan_codec.h): a USB transfer
 is a list of messages, each with its own size; a size of zero, a truncated message
 or the end of the transfer stops the parse.
 */
module PcanCodec {
  import opened Arithmetic
  import opened MachineInts
  import opened CanFrame
  import opened RingStream

  const MSG_HEADER_SIZE := 12
  const RX_MSG_SIZE := 28
  const MSG_CAN_RX: u16 := 0x0001
  const MSG_ERROR: u16 := 0x0002
  const MSG_STATUS: u16 := 0x0003
  const MSG_CALIBRATION: u16 := 0x0100
  const MSG_OVERRUN: u16 := 0x0101
  const TX_ECHO_TAG: u32 := 0x0CA7_F00D
  const FLAG_RTR := 0x01
  const FLAG_EXT_ID := 0x02
  const FLAG_EXT_DATA_LEN := 0x10
  const FLAG_BRS := 0x20
  const FLAG_ESI := 0x40

  /** What the driver makes of one message. */
  datatype Event = Received(frame: Frame) | Echo | Overrun | Calibration | BusError | BusStatus | Ignored

  datatype Stop = EndOfTransfer | ZeroSize | Truncated

  datatype Parsed = Parsed(events: seq<Event>, stop: Stop)

  /** x | mask, for a mask of one bit. */
  function WithFlag(x: u32, mask: nat): (r: u32)
    requires mask == CAN_EFF_FLAG || mask == CAN_RTR_FLAG
    ensures HasFlag(r, mask)
  {
    if HasFlag(x, mask) then x else x + mask
  }

  /** The frame in the fields of an RX message. */
  function RxFrame(channelDlc: byte, flags: u16, id: u32, payload: seq<byte>): (f: Frame) {
    var dlc := channelDlc / 16;
    var id' := if HasFlag(flags, FLAG_EXT_ID) then WithFlag(id, CAN_EFF_FLAG) else id;
    var fd, rtr := HasFlag(flags, FLAG_EXT_DATA_LEN), HasFlag(flags, FLAG_RTR);
    var len := if fd then DlcToLen(dlc) else Min(dlc, CAN_MAX_DLEN);
    Frame(if rtr then WithFlag(id', CAN_RTR_FLAG) else id',
          len,
          if fd then FdFlags(HasFlag(flags, FLAG_BRS), HasFlag(flags, FLAG_ESI)) else 0,
          channelDlc % 16, 0,
          Padded(if rtr then [] else payload[..Min(len, |payload|)]))
  }

  function DecodeRx(m: seq<byte>): (f: Frame)
    requires |m| >= RX_MSG_SIZE
  {
    RxFrame(m[20], FromLittleEndian16(m[22..24]), FromLittleEndian32(m[24..28]), m[RX_MSG_SIZE..])
  }

  /** What the fields of an RX message mean, by their places and bits: the channel and DLC
      byte, the flags, and a payload that is missing in a remote request. */
  lemma RxFieldsMean(m: seq<byte>)
    requires |m| >= 28
    ensures
      var f, dlc, flags := DecodeRx(m), m[20] / 16, m[22];
      var fd, rtr := flags / 16 % 2 == 1, flags % 2 == 1;
      && f.res0 == m[20] % 16 && f.res1 == 0
      && f.len == (if fd then DlcToLen(dlc) else if dlc > 8 then 8 else dlc)
      && f.flags == (if fd then 4 + flags / 32 % 2 + 2 * (flags / 64 % 2) else 0)
      && (flags / 2 % 2 == 1 ==> HasFlag(f.canId, 0x8000_0000))
      && (rtr ==> HasFlag(f.canId, 0x4000_0000))
      && f.canId % 0x4000_0000 == FromLittleEndian32(m[24..28]) % 0x4000_0000
      && (forall i :: 0 <= i < 64 ==>
            f.data[i] == if !rtr && i < f.len && 28 + i < |m| then m[28 + i] else 0)
  {
    LowFlags(m[22..24]);
  }

  lemma LowFlag(b: seq<byte>, mask: nat, k: nat)
    requires |b| == 2 && mask > 0 && mask * (2 * k) == 0x100
    ensures HasFlag(FromLittleEndian16(b), mask) <==> b[0] / mask % 2 == 1
  {
    var x, h: int := FromLittleEndian16(b), b[1];
    assert mask * (2 * k) * h == (2 * k * h) * mask;
    assert b[0] == b[0] / mask * mask + b[0] % mask;
    assert (b[0] / mask + 2 * k * h) * mask == b[0] / mask * mask + (2 * k * h) * mask;
    QuotientUnique(x, b[0] / mask + 2 * k * h, b[0] % mask, mask);
    assert (b[0] / mask + 2 * (k * h)) % 2 == b[0] / mask % 2;
    assert 2 * k * h == 2 * (k * h);
  }

  lemma LowFlags(b: seq<byte>)
    requires |b| == 2
    ensures
      var flags := FromLittleEndian16(b);
      && (HasFlag(flags, FLAG_RTR) <==> b[0] % 2 == 1)
      && (HasFlag(flags, FLAG_EXT_ID) <==> b[0] / 2 % 2 == 1)
      && (HasFlag(flags, FLAG_EXT_DATA_LEN) <==> b[0] / 16 % 2 == 1)
      && (HasFlag(flags, FLAG_BRS) <==> b[0] / 32 % 2 == 1)
      && (HasFlag(flags, FLAG_ESI) <==> b[0] / 64 % 2 == 1)
  {
    LowFlag(b, FLAG_RTR, 128);
    LowFlag(b, FLAG_EXT_ID, 64);
    LowFlag(b, FLAG_EXT_DATA_LEN, 8);
    LowFlag(b, FLAG_BRS, 4);
    LowFlag(b, FLAG_ESI, 2);
  }

  /** The driver's reaction to the message of the given type in the bytes `m`. */
  function EventOf(msgType: u16, m: seq<byte>): Event {
    if msgType == MSG_CAN_RX && |m| >= RX_MSG_SIZE
    then if FromLittleEndian32(m[12..16]) == TX_ECHO_TAG then Echo else Received(DecodeRx(m))
    else if msgType == MSG_OVERRUN then Overrun
    else if msgType == MSG_CALIBRATION then Calibration
    else if msgType == MSG_ERROR then BusError
    else if msgType == MSG_STATUS then BusStatus
    else Ignored
  }

  /** The echo tag as it stands in a message, least significant byte first. */
  lemma EchoTagBytes(b: seq<byte>)
    requires |b| == 4
    ensures FromLittleEndian32(b) == TX_ECHO_TAG <==> b == [0x0D, 0xF0, 0xA7, 0x0C]
  {
    var b0: int, b1: int, b2: int, b3: int := b[0], b[1], b[2], b[3];
    assert FromLittleEndian32(b) == b0 + 0x100 * b1 + 0x1_0000 * b2 + 0x100_0000 * b3;
  }

  /** The message types by their codes, and the counter that each raises. */
  lemma MessageTypes(t: Tally, msgType: u16, m: seq<byte>)
    ensures
      var e := EventOf(msgType, m);
      var genuine := msgType == 0x0001 && |m| >= 28 && m[12..16] != [0x0D, 0xF0, 0xA7, 0x0C];
      var echo := msgType == 0x0001 && |m| >= 28 && m[12..16] == [0x0D, 0xF0, 0xA7, 0x0C];
      && FrameOfEvent(e) == (if genuine then [DecodeRx(m)] else [])
      && TallyOne(t, e).echo == CountIf(t.echo, echo)
      && TallyOne(t, e).error == CountIf(t.error, msgType == 0x0002)
      && TallyOne(t, e).status == CountIf(t.status, msgType == 0x0003)
      && TallyOne(t, e).calibration == CountIf(t.calibration, msgType == 0x0100)
      && TallyOne(t, e).overrun == CountIf(t.overrun, msgType == 0x0101)
  {
    if |m| >= 28 {
      EchoTagBytes(m[12..16]);
    }
  }

  function SizeField(b: seq<byte>): u16
    requires |b| >= 2
  {
    FromLittleEndian16(b[..2])
  }

  function TypeField(b: seq<byte>): u16
    requires |b| >= 4
  {
    FromLittleEndian16(b[2..4])
  }

  /** The messages of the transfer bytes `b`, after those that gave `done`. */
  function Parse(done: seq<Event>, b: seq<byte>): Parsed
    decreases |b|
  {
    if |b| < MSG_HEADER_SIZE then Parsed(done, EndOfTransfer)
    else
      var size := SizeField(b);
      if size == 0 then Parsed(done, ZeroSize)
      else if size > |b| then Parsed(done, Truncated)
      else Parse(done + [EventOf(TypeField(b), b[..size])], b[size..])
  }

  lemma ParseNext(done: seq<Event>, data: seq<byte>, ptr: nat)
    requires ptr + MSG_HEADER_SIZE <= |data| && 0 < SizeField(data[ptr..]) <= |data| - ptr
    ensures
      var rest := data[ptr..];
      var size := SizeField(rest);
      Parse(done, rest) == Parse(done + [EventOf(TypeField(rest), rest[..size])], data[ptr + size..])
  {
    assert data[ptr..][SizeField(data[ptr..])..] == data[ptr + SizeField(data[ptr..])..];
  }

  /** The frames among some events, in order. */
  function Frames(events: seq<Event>): seq<Frame> {
    if events == [] then []
    else Frames(events[..|events| - 1]) + FrameOfEvent(events[|events| - 1])
  }

  function FrameOfEvent(e: Event): seq<Frame> {
    if e.Received? then [e.frame] else []
  }

  /** The receiver's message counters. */
  datatype Tally = Tally(echo: u32, overrun: u32, calibration: u32, error: u32, status: u32)

  function TallyOne(t: Tally, e: Event): Tally {
    match e
    case Echo => t.(echo := Add32(t.echo, 1))
    case Overrun => t.(overrun := Add32(t.overrun, 1))
    case Calibration => t.(calibration := Add32(t.calibration, 1))
    case BusError => t.(error := Add32(t.error, 1))
    case BusStatus => t.(status := Add32(t.status, 1))
    case _ => t
  }

  function TallyAll(t: Tally, events: seq<Event>): Tally {
    if events == [] then t
    else TallyOne(TallyAll(t, events[..|events| - 1]), events[|events| - 1])
  }

  // ---- The receiver ----

  class Codec {
    var rxEchoCount: u32
    var rxOverrunCount: u32
    var rxCalibrationCount: u32
    var rxErrorCount: u32
    var rxStatusCount: u32
    var rxTruncatedCount: u32
    var rxZeroSentinelCount: u32
    var rxTransferCount: u32

    constructor ()
      ensures Tallied() == Tally(0, 0, 0, 0, 0)
      ensures rxTruncatedCount == rxZeroSentinelCount == rxTransferCount == 0
    {
      rxEchoCount, rxOverrunCount, rxCalibrationCount, rxErrorCount, rxStatusCount := 0, 0, 0, 0, 0;
      rxTruncatedCount, rxZeroSentinelCount, rxTransferCount := 0, 0, 0;
    }

    ghost function Tallied(): Tally
      reads this
    {
      Tally(rxEchoCount, rxOverrunCount, rxCalibrationCount, rxErrorCount, rxStatusCount)
    }

    /** Reacts to one message: counts it, or hands on its frame. */
    method HandleMessage(msgType: u16, m: seq<byte>) returns (frames: seq<Frame>)
      modifies this`rxEchoCount, this`rxOverrunCount, this`rxCalibrationCount, this`rxErrorCount, this`rxStatusCount
      ensures frames == FrameOfEvent(EventOf(msgType, m))
      ensures Tallied() == TallyOne(old(Tallied()), EventOf(msgType, m))
      ensures rxErrorCount == CountIf(old(rxErrorCount), msgType == 0x0002)
      ensures rxStatusCount == CountIf(old(rxStatusCount), msgType == 0x0003)
      ensures rxCalibrationCount == CountIf(old(rxCalibrationCount), msgType == 0x0100)
      ensures rxOverrunCount == CountIf(old(rxOverrunCount), msgType == 0x0101)
      ensures rxEchoCount == CountIf(old(rxEchoCount),
        msgType == 0x0001 && |m| >= 28 && m[12..16] == [0x0D, 0xF0, 0xA7, 0x0C])
      ensures frames == if msgType == 0x0001 && |m| >= 28 && m[12..16] != [0x0D, 0xF0, 0xA7, 0x0C]
                        then [DecodeRx(m)] else []
    {
      frames := [];
      if |m| >= RX_MSG_SIZE {
        EchoTagBytes(m[12..16]);
      }
      if msgType == MSG_CAN_RX && |m| >= RX_MSG_SIZE {
        if FromLittleEndian32(m[12..16]) == TX_ECHO_TAG {
          rxEchoCount := Add32(rxEchoCount, 1);
        } else {
          frames := [DecodeRx(m)];
        }
      } else if msgType == MSG_OVERRUN {
        rxOverrunCount := Add32(rxOverrunCount, 1);
      } else if msgType == MSG_CALIBRATION {
        rxCalibrationCount := Add32(rxCalibrationCount, 1);
      } else if msgType == MSG_ERROR {
        rxErrorCount := Add32(rxErrorCount, 1);
      } else if msgType == MSG_STATUS {
        rxStatusCount := Add32(rxStatusCount, 1);
      }
    }

    /** One round of the parse: reacts to the message at `ptr`, unless its size is zero
        or it does not fit. */
    method ParseRound(data: seq<byte>, ptr: nat, ghost done: seq<Event>)
      returns (more: bool, ptr': nat, stop: Stop, frames: seq<Frame>, ghost done': seq<Event>)
      requires ptr + MSG_HEADER_SIZE <= |data|
      modifies this`rxEchoCount, this`rxOverrunCount, this`rxCalibrationCount, this`rxErrorCount, this`rxStatusCount
      ensures ptr' <= |data| && (more ==> stop == EndOfTransfer && ptr < ptr')
      ensures more ==> Parse(done, data[ptr..]) == Parse(done', data[ptr'..])
      ensures !more ==> done' == done && Parse(done, data[ptr..]) == Parsed(done, stop)
      ensures |done'| == |done| + if more then 1 else 0
      ensures Frames(done') == Frames(done) + frames
      ensures forall t :: old(Tallied()) == TallyAll(t, done) ==> Tallied() == TallyAll(t, done')
    {
      more, ptr', stop, frames, done' := false, ptr, EndOfTransfer, [], done;
      assert Frames(done) + [] == Frames(done);
      var rest := data[ptr..];
      var msgSize := SizeField(rest);
      if msgSize == 0 {
        stop := ZeroSize;
        return;
      }
      if ptr + msgSize > |data| {
        stop := Truncated;
        return;
      }
      ghost var e := EventOf(TypeField(rest), rest[..msgSize]);
      ParseNext(done, data, ptr);
      assert (done + [e])[..|done|] == done;
      frames := HandleMessage(TypeField(rest), rest[..msgSize]);
      more, ptr', done' := true, ptr + msgSize, done + [e];
    }

    /** Parses the messages of one USB transfer; also says why it stopped. */
    method ParseMessages(data: seq<byte>) returns (frames: seq<Frame>, messages: nat, stop: Stop)
      modifies this`rxEchoCount, this`rxOverrunCount, this`rxCalibrationCount, this`rxErrorCount, this`rxStatusCount
      ensures
        var parsed := Parse([], data);
        && frames == Frames(parsed.events) && messages == |parsed.events| && stop == parsed.stop
        && Tallied() == TallyAll(old(Tallied()), parsed.events)
    {
      frames, messages, stop := [], 0, EndOfTransfer;
      var ptr, more := 0, true;
      ghost var parsed, done: seq<Event> := Parse([], data), [];
      assert data[0..] == data;
      while more && ptr + MSG_HEADER_SIZE <= |data|
        invariant ptr <= |data| && (more ==> stop == EndOfTransfer)
        invariant parsed == if more then Parse(done, data[ptr..]) else Parsed(done, stop)
        invariant frames == Frames(done) && messages == |done|
        invariant Tallied() == TallyAll(old(Tallied()), done)
        decreases more, |data| - ptr
      {
        var handed;
        more, ptr, stop, handed, done := ParseRound(data, ptr, done);
        frames := frames + handed;
        messages := if more then messages + 1 else messages;
      }
    }

    /** Processes one USB transfer; returns the frames handed on and the number of
        messages parsed. */
    method ProcessRxData(data: seq<byte>) returns (frames: seq<Frame>, messages: nat)
      modifies this
      ensures
        var parsed := Parse([], data);
        && frames == Frames(parsed.events) && messages == |parsed.events|
        && Tallied() == TallyAll(old(Tallied()), parsed.events)
        && rxZeroSentinelCount == CountIf(old(rxZeroSentinelCount), parsed.stop.ZeroSize?)
        && rxTruncatedCount == CountIf(old(rxTruncatedCount), parsed.stop.Truncated?)
        && rxTransferCount == Add32(old(rxTransferCount), 1)
    {
      rxTransferCount := Add32(rxTransferCount, 1);
      var stop;
      frames, messages, stop := ParseMessages(data);
      match stop
      case ZeroSize => rxZeroSentinelCount := Add32(rxZeroSentinelCount, 1);
      case Truncated => rxTruncatedCount := Add32(rxTruncatedCount, 1);
      case EndOfTransfer =>
    }
  }

  // ---- Conservation ----

  function Count(events: seq<Event>, e: Event): nat {
    if events == [] then 0
    else Count(events[..|events| - 1], e) + if events[|events| - 1] == e then 1 else 0
  }

  /** Every message parsed is a frame or falls into exactly one of six counts. */
  lemma {:induction false} MessagesAreConserved(events: seq<Event>)
    ensures |events| == |Frames(events)| + Count(events, Echo) + Count(events, Overrun)
      + Count(events, Calibration) + Count(events, BusError) + Count(events, BusStatus) + Count(events, Ignored)
  {
    if events != [] {
      MessagesAreConserved(events[..|events| - 1]);
    }
  }

  /** The receiver's counters grow by those counts. */
  lemma {:induction false} CountersCount(t: Tally, events: seq<Event>)
    ensures TallyAll(t, events) == Tally(
      Counted(t.echo, Count(events, Echo)), Counted(t.overrun, Count(events, Overrun)),
      Counted(t.calibration, Count(events, Calibration)), Counted(t.error, Count(events, BusError)),
      Counted(t.status, Count(events, BusStatus)))
  {
    if events != [] {
      CountersCount(t, events[..|events| - 1]);
    }
  }

  // ---- Well-formed transfers ----

  ghost predicate WellSized(m: seq<byte>) {
    4 <= |m| && SizeField(m) == |m|
  }

  ghost predicate AllWellSized(ms: seq<seq<byte>>) {
    forall i :: 0 <= i < |ms| ==> WellSized(ms[i])
  }

  function MessageEvent(m: seq<byte>): Event
    requires |m| >= 4
  {
    EventOf(TypeField(m), m)
  }

  /** The events of a list of messages, each on its own. */
  ghost function EventsOf(ms: seq<seq<byte>>): seq<Event>
    requires AllWellSized(ms)
    decreases |ms|
  {
    if ms == [] then [] else [MessageEvent(ms[0])] + EventsOf(ms[1..])
  }

  lemma ParseMessage(done: seq<Event>, m: seq<byte>, rest: seq<byte>)
    requires WellSized(m) && |m| + |rest| >= MSG_HEADER_SIZE
    ensures Parse(done, m + rest) == Parse(done + [MessageEvent(m)], rest)
  {
    var b := m + rest;
    assert b[..2] == m[..2] && b[2..4] == m[2..4] && b[..|m|] == m && b[|m|..] == rest;
  }

  lemma {:induction false} MessagesAreParsed(done: seq<Event>, ms: seq<seq<byte>>, rest: seq<byte>)
    requires AllWellSized(ms)
    requires |rest| >= MSG_HEADER_SIZE
    ensures Parse(done, Flatten(ms) + rest) == Parse(done + EventsOf(ms), rest)
    decreases |ms|
  {
    if ms == [] {
      assert [] + rest == rest && done + [] == done;
    } else {
      var e := MessageEvent(ms[0]);
      assert Flatten(ms) + rest == ms[0] + (Flatten(ms[1..]) + rest);
      ParseMessage(done, ms[0], Flatten(ms[1..]) + rest);
      MessagesAreParsed(done + [e], ms[1..], rest);
      assert (done + [e]) + EventsOf(ms[1..]) == done + EventsOf(ms);
    }
  }

  /** Messages followed by a zero size, or by a message that does not fit, with at
      least a header's worth of bytes: each message is handled once and in order,
      and nothing depends on the bytes behind that size. */
  lemma TransferIsItsMessages(ms: seq<seq<byte>>, rest: seq<byte>)
    requires AllWellSized(ms)
    requires |rest| >= MSG_HEADER_SIZE && (SizeField(rest) == 0 || SizeField(rest) > |rest|)
    ensures Parse([], Flatten(ms) + rest)
         == Parsed(EventsOf(ms), if SizeField(rest) == 0 then ZeroSize else Truncated)
  {
    MessagesAreParsed([], ms, rest);
    assert [] + EventsOf(ms) == EventsOf(ms);
  }

  lemma {:induction false} ParseExtends(done: seq<Event>, b: seq<byte>)
    ensures |done| <= |Parse(done, b).events|
    decreases |b|
  {
    if |b| >= MSG_HEADER_SIZE && 0 < SizeField(b) <= |b| {
      ParseExtends(done + [EventOf(TypeField(b), b[..SizeField(b)])], b[SizeField(b)..]);
    }
  }

  /** With less than a header behind the last message, all messages are handled
      exactly if the last one begins at least a header's size before the end. */
  lemma {:induction false} ShortTransferIsItsMessages(done: seq<Event>, ms: seq<seq<byte>>, rest: seq<byte>)
    requires AllWellSized(ms)
    requires |rest| < MSG_HEADER_SIZE
    ensures Parse(done, Flatten(ms) + rest).events == done + EventsOf(ms)
      <==> ms == [] || |ms[|ms| - 1]| + |rest| >= MSG_HEADER_SIZE
    decreases |ms|
  {
    if ms == [] {
      assert [] + rest == rest && done + [] == done;
    } else {
      var e, b := MessageEvent(ms[0]), Flatten(ms[1..]) + rest;
      assert Flatten(ms) + rest == ms[0] + b;
      LastIsPart(ms);
      if |ms[0]| + |b| >= MSG_HEADER_SIZE {
        ParseMessage(done, ms[0], b);
        ShortTransferIsItsMessages(done + [e], ms[1..], rest);
        AppendFirst(done, e, EventsOf(ms[1..]));
      }
    }
  }

  lemma {:induction false} LastIsPart(ms: seq<seq<byte>>)
    requires ms != []
    ensures |ms[|ms| - 1]| <= |Flatten(ms)|
    decreases |ms|
  {
    if |ms| > 1 {
      LastIsPart(ms[1..]);
    }
  }
}
