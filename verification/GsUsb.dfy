/**
 gs_usb frames (usb_can_driver/codecs/gsusb_codec.h and gsusb_codec.cc): one frame
 per USB transfer, a header of 12 bytes and 8 or 64 bytes of payload.
 */
module GsUsb {
  import opened ByteBuffer
  import opened MachineInts
  import opened CanFrame

  const GS_HEADER_SIZE := 12
  const GS_CLASSIC_SIZE := 20
  const GS_FD_SIZE := 76
  const GS_FLAG_FD := 0x04
  const GS_FLAG_BRS := 0x08
  const GS_FLAG_ESI := 0x10
  const RX_ECHO_ID: u32 := 0xFFFF_FFFF

  /** What the driver makes of one USB transfer. */
  datatype RxResult = RxFrame(frame: Frame) | TxEcho | Invalid

  /** The fields of a received frame; `payload` is everything behind the header. */
  function FrameOf(canId: u32, dlc: byte, flags: byte, payload: seq<byte>): (f: Frame)
    requires |payload| >= MaxLen(HasFlag(flags, GS_FLAG_FD))
  {
    var fd := HasFlag(flags, GS_FLAG_FD);
    var len := if fd then DlcToLen(dlc) else Min(dlc, CAN_MAX_DLEN);
    Frame(canId, len,
          if fd then FdFlags(HasFlag(flags, GS_FLAG_BRS), HasFlag(flags, GS_FLAG_ESI)) else 0,
          0, 0, Padded(payload[..len]))
  }

  function DecodeTransfer(b: seq<byte>): RxResult {
    if |b| < GS_CLASSIC_SIZE then Invalid
    else
      var fd := HasFlag(b[10], GS_FLAG_FD);
      if |b| < (if fd then GS_FD_SIZE else GS_CLASSIC_SIZE) then Invalid
      else if FromLittleEndian32(b[..4]) != RX_ECHO_ID then TxEcho
      else RxFrame(FrameOf(FromLittleEndian32(b[4..8]), b[8], b[10], b[GS_HEADER_SIZE..]))
  }

  // ---- Encoding ----

  function WireFlags(f: Frame): byte {
    if IsFd(f)
    then GS_FLAG_FD + (if HasFlag(f.flags, CANFD_BRS) then GS_FLAG_BRS else 0)
                    + (if HasFlag(f.flags, CANFD_ESI) then GS_FLAG_ESI else 0)
    else 0
  }

  function Header(canId: u32, dlc: byte, flags: byte, echoId: u32): (b: seq<byte>)
    ensures |b| == GS_HEADER_SIZE
  {
    LittleEndian32(echoId) + LittleEndian32(canId) + [dlc, 0, flags, 0]
  }

  function Payload(f: Frame): (b: seq<byte>)
    ensures |b| == MaxLen(IsFd(f))
  {
    f.data[..WireLen(f)] + Zeros(MaxLen(IsFd(f)) - WireLen(f))
  }

  function HostFrame(f: Frame, echoId: u32): (b: seq<byte>)
    ensures |b| == if IsFd(f) then GS_FD_SIZE else GS_CLASSIC_SIZE
  {
    Header(f.canId, WireDlc(f), WireFlags(f), echoId) + Payload(f)
  }

  /** Writes the host frame into `out`; 0 if it does not fit. */
  method EncodeTxFrame(f: Frame, echoId: u32, out: array<byte>) returns (size: nat)
    modifies out
    ensures size == if |HostFrame(f, echoId)| <= out.Length then |HostFrame(f, echoId)| else 0
    ensures size <= out.Length && (size > 0 ==> out[..size] == HostFrame(f, echoId))
  {
    var frameSize := if IsFd(f) then GS_FD_SIZE else GS_CLASSIC_SIZE;
    if out.Length < frameSize {
      return 0;
    }
    WriteAt(out, 0, Header(f.canId, WireDlc(f), WireFlags(f), echoId));
    WriteAt(out, GS_HEADER_SIZE, Payload(f));
    size := frameSize;
  }

  // ---- Round trip ----

  /** What a frame becomes on its way through the device: the length rounded up to one
      that a DLC stands for, or capped at 8, the payload zero-filled, only the FD flags
      kept and the channel cleared. */
  function Normal(f: Frame): Frame {
    Frame(f.canId,
          if IsFd(f) then DlcToLen(LenToDlc(f.len)) else Min(f.len, CAN_MAX_DLEN),
          if IsFd(f) then FdFlags(HasFlag(f.flags, CANFD_BRS), HasFlag(f.flags, CANFD_ESI)) else 0,
          0, 0, Padded(f.data[..WireLen(f)]))
  }

  predicate IsNormal(f: Frame) {
    && f.res0 == 0 && f.res1 == 0
    && (if IsFd(f) then f.flags < 8 && DlcToLen(LenToDlc(f.len)) == f.len else f.flags == 0 && f.len <= CAN_MAX_DLEN)
    && ZeroFrom(f.data, f.len)
  }

  lemma WireFlagsDecode(f: Frame)
    ensures HasFlag(WireFlags(f), GS_FLAG_FD) == IsFd(f)
    ensures IsFd(f) ==> HasFlag(WireFlags(f), GS_FLAG_BRS) == HasFlag(f.flags, CANFD_BRS)
    ensures IsFd(f) ==> HasFlag(WireFlags(f), GS_FLAG_ESI) == HasFlag(f.flags, CANFD_ESI)
  {
  }

  /** Where the fields stand in a transfer, whatever follows the frame. */
  lemma TransferFields(canId: u32, dlc: byte, flags: byte, echoId: u32, payload: seq<byte>)
    requires |payload| >= MaxLen(HasFlag(flags, GS_FLAG_FD))
    ensures DecodeTransfer(Header(canId, dlc, flags, echoId) + payload)
         == if echoId != RX_ECHO_ID then TxEcho else RxFrame(FrameOf(canId, dlc, flags, payload))
  {
    var b := Header(canId, dlc, flags, echoId) + payload;
    assert b[..4] == LittleEndian32(echoId) && b[4..8] == LittleEndian32(canId);
    assert b[8] == dlc && b[10] == flags && b[GS_HEADER_SIZE..] == payload;
    LittleEndian32RoundTrip(echoId);
    LittleEndian32RoundTrip(canId);
  }

  lemma FieldsAreNormal(f: Frame, rest: seq<byte>)
    ensures HasFlag(WireFlags(f), GS_FLAG_FD) == IsFd(f)
    ensures FrameOf(f.canId, WireDlc(f), WireFlags(f), Payload(f) + rest) == Normal(f)
  {
    WireFlagsDecode(f);
    var len := Normal(f).len;
    assert (Payload(f) + rest)[..len] == Payload(f)[..len];
    assert Padded(Payload(f)[..len]) == Normal(f).data;
  }

  /** Every frame comes back from a transfer that carries it, followed by anything, in
      its normal form; under any other echo id the transfer is an echo. */
  lemma HostFrameRoundTrip(f: Frame, echoId: u32, rest: seq<byte>)
    ensures DecodeTransfer(HostFrame(f, echoId) + rest)
         == if echoId == RX_ECHO_ID then RxFrame(Normal(f)) else TxEcho
  {
    FieldsAreNormal(f, rest);
    var header := Header(f.canId, WireDlc(f), WireFlags(f), echoId);
    assert HostFrame(f, echoId) + rest == header + (Payload(f) + rest);
    TransferFields(f.canId, WireDlc(f), WireFlags(f), echoId, Payload(f) + rest);
  }

  /** Exactly the normal frames come back unchanged, and a normal form is one. */
  lemma NormalIffUnchanged(f: Frame)
    ensures Normal(f) == f <==> IsNormal(f)
  {
    PaddedIffZeros(f.data, WireLen(f));
    FlagsKept(f);
  }

  lemma FlagsKept(f: Frame)
    ensures IsFd(f) ==> (Normal(f).flags == f.flags <==> f.flags < 8)
  {
  }

  lemma NormalIsNormal(f: Frame)
    ensures Normal(Normal(f)) == Normal(f)
  {
    var g := Normal(f);
    assert IsFd(g) == IsFd(f);
    assert Padded(g.data[..WireLen(g)]) == g.data;
  }

  /** The n-th echo id since a reset, counted from 0: a 32-bit counter. */
  function EchoId(n: nat): u32 {
    Counted(0, n)
  }

  /** The device's echo of the n-th frame sent since a reset is taken for one exactly if the
      counter did not stand at 0xFFFFFFFF; else it is decoded as a received frame. */
  lemma EchoIsRecognisedIff(f: Frame, n: nat, rest: seq<byte>)
    ensures DecodeTransfer(HostFrame(f, EchoId(n)) + rest).TxEcho? <==> n % TWO_32 != RX_ECHO_ID
    ensures n % TWO_32 == RX_ECHO_ID ==>
      DecodeTransfer(HostFrame(f, EchoId(n)) + rest) == RxFrame(Normal(f))
  {
    CountedIsModular(0, n);
    HostFrameRoundTrip(f, EchoId(n), rest);
  }

  /** The bytes of a host frame: echo id and identifier, least significant byte first, DLC,
      channel 0, flags by their bits, and the payload from byte 12 on. */
  lemma HostFrameBytes(f: Frame, echoId: u32)
    ensures
      var b := HostFrame(f, echoId);
      && |b| == (if IsFd(f) then 76 else 20)
      && b[..4] == LittleEndian32(echoId) && b[4..8] == LittleEndian32(f.canId)
      && b[8] == (if IsFd(f) then LenToDlc(f.len) else f.len) && b[9] == 0 && b[11] == 0
      && (b[10] / 4 % 2 == 1 <==> IsFd(f))
      && (b[10] / 8 % 2 == 1 <==> IsFd(f) && f.flags % 2 == 1)
      && (b[10] / 16 % 2 == 1 <==> IsFd(f) && f.flags / 2 % 2 == 1)
      && forall i :: 0 <= i < |b| - 12 ==> b[12 + i] == if i < f.len then f.data[i] else 0
  {
  }

  /** What the bytes of a received host frame mean. */
  lemma TransferMeans(b: seq<byte>)
    requires |b| >= 76 || (|b| >= 20 && b[10] / 4 % 2 == 0)
    ensures DecodeTransfer(b).TxEcho? <==> FromLittleEndian32(b[..4]) != 0xFFFF_FFFF
    ensures FromLittleEndian32(b[..4]) == 0xFFFF_FFFF ==>
      var r, fd := DecodeTransfer(b), b[10] / 4 % 2 == 1;
      && r.RxFrame? && r.frame.canId == FromLittleEndian32(b[4..8]) && r.frame.res0 == r.frame.res1 == 0
      && r.frame.len == (if fd then DlcToLen(b[8]) else if b[8] > 8 then 8 else b[8])
      && r.frame.flags == (if fd then 4 + b[10] / 8 % 2 + 2 * (b[10] / 16 % 2) else 0)
      && forall i :: 0 <= i < 64 ==> r.frame.data[i] == if i < r.frame.len then b[12 + i] else 0
  {
  }

  /** A transfer is rejected exactly if it is shorter than a classic host frame, or announces
      an FD frame and is shorter than that. */
  lemma InvalidIffShort(b: seq<byte>)
    ensures DecodeTransfer(b).Invalid? <==> |b| < 20 || (b[10] / 4 % 2 == 1 && |b| < 76)
  {
  }
}
