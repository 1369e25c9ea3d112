/**
 gs_usb transmit flow control (usb_can_driver/codecs/gsusb_codec.h and
 gsusb_codec.cc): at most ten frames wait for their echo, and a timer frees one
 place when no echo has come for 200 ms. Drains, echoes and ticks are serialised.
 */
module GsUsbFlow {
  import opened MachineInts
  import opened CanFrame
  import opened Results
  import opened GsUsb
  import opened RingEntry
  import opened RingIo
  import opened RingStream
  import opened SharedRing

  const MAX_ECHO_INFLIGHT := 10
  const STALL_TIMEOUT_NS := 200_000_000

  /** The flow-control fields. */
  datatype Flow = Flow(inflight: u32, stallStart: u64)

  const IDLE := Flow(0, 0)

  function CanSend(s: Flow): bool {
    s.inflight < MAX_ECHO_INFLIGHT
  }

  function AfterSent(s: Flow): Flow
    requires CanSend(s)
  {
    s.(inflight := s.inflight + 1)
  }

  function AfterEcho(s: Flow): Flow {
    Flow(if s.inflight > 0 then s.inflight - 1 else 0, 0)
  }

  /** The timer frees a place: the stall is older than the timeout. */
  predicate Releases(s: Flow, now: u64) {
    && s.inflight >= MAX_ECHO_INFLIGHT && s.stallStart != 0
    && (now - s.stallStart) % TWO_64 > STALL_TIMEOUT_NS
  }

  function AfterTick(s: Flow, now: u64): Flow {
    if s.inflight < MAX_ECHO_INFLIGHT then s
    else if s.stallStart == 0 then s.(stallStart := now)
    else if Releases(s, now) then Flow(s.inflight - 1, 0)
    else s
  }

  class Codec {
    var echoInflight: u32
    var echoStallStart: u64
    var nextEchoId: u32
    var needsDrainTx: bool

    constructor ()
      ensures State() == IDLE && nextEchoId == 0 && !needsDrainTx
    {
      echoInflight, echoStallStart, nextEchoId, needsDrainTx := 0, 0, 0, false;
    }

    function State(): Flow
      reads this
    {
      Flow(echoInflight, echoStallStart)
    }

    method ResetEcho()
      modifies this
      ensures State() == IDLE && nextEchoId == 0
      ensures needsDrainTx == old(needsDrainTx)
    {
      echoInflight, echoStallStart, nextEchoId := 0, 0, 0;
    }

    /** The timer: releases one slot after a stall. */
    method CheckStall(now: u64) returns (released: bool)
      modifies this`echoInflight, this`echoStallStart
      ensures State() == AfterTick(old(State()), now)
      ensures released <==> Releases(old(State()), now)
    {
      if echoInflight < MAX_ECHO_INFLIGHT {
        return false;
      }
      if echoStallStart == 0 {
        echoStallStart := now;
        return false;
      }
      if (now - echoStallStart) % TWO_64 > STALL_TIMEOUT_NS {
        echoInflight := echoInflight - 1;
        echoStallStart := 0;
        return true;
      }
      released := false;
    }

    /** One USB transfer: an echo, which asks for another drain, or a received frame. */
    method ProcessRxData(data: seq<byte>) returns (frames: seq<Frame>)
      modifies this
      ensures nextEchoId == old(nextEchoId)
      ensures needsDrainTx <==> DecodeTransfer(data).TxEcho?
      ensures State() == if DecodeTransfer(data).TxEcho? then AfterEcho(old(State())) else old(State())
      ensures frames == if DecodeTransfer(data).RxFrame? then [DecodeTransfer(data).frame] else []
    {
      frames, needsDrainTx := [], false;
      var result := DecodeTransfer(data);
      if result.TxEcho? {
        if echoInflight > 0 {
          echoInflight := echoInflight - 1;
        }
        echoStallStart := 0;
        needsDrainTx := true;
      } else if result.RxFrame? {
        frames := [result.frame];
      }
    }

    /** Sends the first frame of a ring, if the flow control allows it; entries of
        invalid size before it are passed. `result` is the send callback's answer. */
    method DrainTx(h: SharedRingHeader, r: Ring, txInFlight: bool, result: Status)
      returns (status: Status, sent: seq<byte>)
      requires r.Valid()
      modifies this`echoInflight, this`nextEchoId, h`txDropped, h`txDrainCount, r.ctrl
      ensures r.Valid()
      ensures txInFlight || !CanSend(old(State())) ==>
        && status == Busy && sent == [] && State() == old(State()) && nextEchoId == old(nextEchoId)
        && r.Bytes() == old(r.Bytes()) && h.txDropped == old(h.txDropped) && h.txDrainCount == old(h.txDrainCount)
      ensures !txInFlight && CanSend(old(State())) ==>
        var ahead := SkipDropped(old(r.Bytes()));
        var p := ParseTx(ahead.0);
        var accepted := p.TxFrame? && result == Success;
        && status == (if p.TxFrame? then result else Success)
        && sent == (if p.TxFrame? then HostFrame(p.frame, old(nextEchoId)) else [])
        && r.Bytes() == (if accepted then ahead.0[p.size..] else ahead.0)
        && State() == (if accepted then AfterSent(old(State())) else old(State()))
        && nextEchoId == (if p.TxFrame? then Add32(old(nextEchoId), 1) else old(nextEchoId))
        && h.txDropped == Counted(old(h.txDropped), ahead.1)
        && h.txDrainCount == (if accepted then Add32(old(h.txDrainCount), 1) else old(h.txDrainCount))
    {
      if txInFlight {
        return Busy, [];
      }
      if echoInflight >= MAX_ECHO_INFLIGHT {
        return Busy, [];
      }
      var read := NextFrame(h, r);
      if read.TxIncomplete? {
        return Success, [];
      }
      var txFrame := new byte[GS_FD_SIZE];
      var echoId := nextEchoId;
      nextEchoId := Add32(nextEchoId, 1);
      var frameSize := EncodeTxFrame(read.frame, echoId, txFrame);
      sent := txFrame[..frameSize];
      if result == Success {
        echoInflight := echoInflight + 1;
        r.Consume(read.size);
        h.txDrainCount := Add32(h.txDrainCount, 1);
      }
      status := result;
    }
  }

  /** Publishes the tail behind an entry of invalid size and reads the next entry. */
  method PassEntry(h: SharedRingHeader, r: Ring, read: TxParse) returns (next: TxParse)
    requires r.Valid() && read == ParseTx(r.Bytes()) && read.TxDropped?
    modifies h`txDropped, r.ctrl
    ensures r.Valid() && next == ParseTx(r.Bytes())
    ensures |r.Bytes()| < |old(r.Bytes())|
    ensures r.Bytes() == old(r.Bytes())[read.size..]
    ensures h.txDropped == if next.TxDropped? then Add32(old(h.txDropped), 1) else old(h.txDropped)
  {
    r.Consume(read.size);
    next := h.ReadTxFrame(r, r.ctrl.tail, r.ctrl.tailPos);
  }

  /** Passes entries of invalid size, each with its own tail update. */
  method NextFrame(h: SharedRingHeader, r: Ring) returns (read: TxParse)
    requires r.Valid()
    modifies h`txDropped, r.ctrl
    ensures r.Valid()
    ensures !read.TxDropped? && read == ParseTx(r.Bytes())
    ensures r.Bytes() == SkipDropped(old(r.Bytes())).0
    ensures h.txDropped == Counted(old(h.txDropped), SkipDropped(old(r.Bytes())).1)
  {
    ghost var ahead, passed := SkipDropped(r.Bytes()), 0;
    read := h.ReadTxFrame(r, r.ctrl.tail, r.ctrl.tailPos);
    while read.TxDropped?
      modifies h`txDropped, r.ctrl
      invariant r.Valid() && read == ParseTx(r.Bytes())
      invariant SkipDropped(r.Bytes()).0 == ahead.0 && passed + SkipDropped(r.Bytes()).1 == ahead.1
      invariant h.txDropped == Counted(old(h.txDropped), if read.TxDropped? then passed + 1 else passed)
      decreases |r.Bytes()|
    {
      SkipDroppedNext(r.Bytes());
      read := PassEntry(h, r, read);
      passed := passed + 1;
    }
    SkipDroppedNext(r.Bytes());
    assert passed == ahead.1;
  }
}
