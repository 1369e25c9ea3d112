/**
 CAN frame types and their in-memory layout (protocol/can.h). A frame is a
 value; `FrameBytes` is the 72-byte structure that the rings carry.
 */
module CanFrame {
  import opened MachineInts

  const CAN_EFF_FLAG := 0x8000_0000
  const CAN_RTR_FLAG := 0x4000_0000
  const CAN_SFF_SIZE := 0x800        // CAN_SFF_MASK + 1
  const CAN_EFF_SIZE := 0x2000_0000  // CAN_EFF_MASK + 1
  const CAN_MAX_DLEN := 8
  const CANFD_MAX_DLEN := 64
  const CANFD_BRS := 0x01
  const CANFD_ESI := 0x02
  const CANFD_FDF := 0x04
  const CAN_MTU := 16
  const CANFD_MTU := 72

  /** struct canfd_frame; `res0` carries the channel number. */
  datatype RawFrame = Frame(canId: u32, len: byte, flags: byte, res0: byte, res1: byte, data: seq<byte>)

  type Frame = f: RawFrame | |f.data| == CANFD_MAX_DLEN
    witness RawFrame.Frame(0, 0, 0, 0, 0, seq(CANFD_MAX_DLEN, i => 0))

  /** struct CANPacket: a frame and its receive time. */
  datatype Packet = Packet(timestamp: u64, frame: Frame)

  predicate IsExtended(canId: u32) {
    canId >= CAN_EFF_FLAG
  }

  predicate IsFd(f: Frame) {
    HasFlag(f.flags, CANFD_FDF)
  }

  /** The flags of a CAN FD frame. */
  function FdFlags(brs: bool, esi: bool): byte {
    CANFD_FDF + (if brs then CANFD_BRS else 0) + (if esi then CANFD_ESI else 0)
  }

  function Zeros(n: nat): (z: seq<byte>)
    ensures |z| == n
  {
    seq(n, i => 0)
  }

  /** The first `n` bytes of `payload`, zero-filled to the 64 bytes of a frame. */
  function Padded(payload: seq<byte>): (d: seq<byte>)
    requires |payload| <= CANFD_MAX_DLEN
    ensures |d| == CANFD_MAX_DLEN
  {
    payload + Zeros(CANFD_MAX_DLEN - |payload|)
  }

  function DlcToLen(dlc: byte): (len: byte)
    ensures len <= CANFD_MAX_DLEN
  {
    if dlc <= 8 then dlc
    else if dlc == 9 then 12
    else if dlc == 10 then 16
    else if dlc == 11 then 20
    else if dlc == 12 then 24
    else if dlc == 13 then 32
    else if dlc == 14 then 48
    else 64
  }

  function LenToDlc(len: byte): (dlc: byte)
    ensures dlc <= 15
    ensures len <= CANFD_MAX_DLEN ==> len <= DlcToLen(dlc)
    ensures forall d: byte :: len <= CANFD_MAX_DLEN && len <= DlcToLen(d) ==> dlc <= d
  {
    if len <= 8 then len
    else if len <= 12 then 9
    else if len <= 16 then 10
    else if len <= 20 then 11
    else if len <= 24 then 12
    else if len <= 32 then 13
    else if len <= 48 then 14
    else 15
  }

  function MaxLen(fd: bool): nat {
    if fd then CANFD_MAX_DLEN else CAN_MAX_DLEN
  }

  /** How many payload bytes the encoders send, and the DLC of a frame's length. */
  function WireLen(f: Frame): (n: byte)
    ensures n <= CANFD_MAX_DLEN
  {
    Min(f.len, MaxLen(IsFd(f)))
  }

  function WireDlc(f: Frame): byte {
    if IsFd(f) then LenToDlc(f.len) else f.len
  }

  function FrameBytes(f: Frame): (b: seq<byte>)
    ensures |b| == CANFD_MTU
  {
    LittleEndian32(f.canId) + [f.len, f.flags, f.res0, f.res1] + f.data
  }

  function FrameOfBytes(b: seq<byte>): (f: Frame)
    requires |b| == CANFD_MTU
  {
    Frame(FromLittleEndian32(b[..4]), b[4], b[5], b[6], b[7], b[8..])
  }

  /** Converts a 16-byte can_frame; `keepChannel` says whether the byte that
      carries the channel is copied too. */
  function FrameOfClassicBytes(b: seq<byte>, keepChannel: bool): (f: Frame)
    requires |b| == CAN_MTU
  {
    Frame(FromLittleEndian32(b[..4]), b[4], 0, if keepChannel then b[6] else 0, 0,
          Padded(b[8..8 + Min(b[4], CAN_MAX_DLEN)]))
  }

  lemma FrameBytesRoundTrip(f: Frame)
    ensures FrameOfBytes(FrameBytes(f)) == f
  {
    var b := FrameBytes(f);
    assert b[..4] == LittleEndian32(f.canId);
    LittleEndian32RoundTrip(f.canId);
    assert b[8..] == f.data;
  }

  /** The payload behind the frame's length is zero. */
  predicate ZeroFrom(data: seq<byte>, n: nat) {
    forall i :: n <= i < |data| ==> data[i] == 0
  }

  lemma PaddedIffZeros(data: seq<byte>, n: nat)
    requires n <= |data| == CANFD_MAX_DLEN
    ensures Padded(data[..n]) == data <==> ZeroFrom(data, n)
  {
    assert data == data[..n] + data[n..];
    if Padded(data[..n]) == data {
      forall i | n <= i < |data|
        ensures data[i] == 0
      {
        assert data[i] == Padded(data[..n])[i];
      }
    }
  }

  /** The lengths that the sixteen DLC values stand for. */
  lemma DlcTable(dlc: byte)
    ensures
      var lengths: seq<byte> := [0, 1, 2, 3, 4, 5, 6, 7, 8, 12, 16, 20, 24, 32, 48, 64];
      DlcToLen(dlc) == if dlc < 16 then lengths[dlc] else 64
  {
  }

  /** Where the fields stand in the 72 bytes. */
  lemma FrameLayout(f: Frame)
    ensures
      var b := FrameBytes(f);
      && b[0] as int + 0x100 * (b[1] as int) + 0x1_0000 * (b[2] as int) + 0x100_0000 * (b[3] as int) == f.canId
      && b[4] == f.len && b[5] == f.flags && b[6] == f.res0 && b[7] == f.res1
      && forall i :: 0 <= i < 64 ==> b[8 + i] == f.data[i]
  {
    LittleEndianWeights(f.canId);
  }

  /** A classic frame survives in the first 16 of its 72 bytes, with its channel or without. */
  lemma ClassicRoundTrip(f: Frame)
    requires f.len <= 8 && f.flags == 0 && f.res1 == 0 && ZeroFrom(f.data, f.len)
    ensures FrameOfClassicBytes(FrameBytes(f)[..16], true) == f
    ensures FrameOfClassicBytes(FrameBytes(f)[..16], false) == f.(res0 := 0)
  {
    var b := FrameBytes(f)[..16];
    assert b[..4] == LittleEndian32(f.canId);
    LittleEndian32RoundTrip(f.canId);
    assert b[8..8 + f.len] == f.data[..f.len];
    PaddedIffZeros(f.data, f.len);
  }
}
