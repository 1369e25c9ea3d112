/**
 SLCAN text protocol (usb_can_driver/codecs/slcan_codec.cc and slcan_codec.h):
 the frame encoder and decoder, and the accumulator that splits the received
 byte stream into lines. Text is a sequence of bytes.
 */
module Slcan {
  import opened MachineInts
  import opened CanFrame
  import opened Results

  const CR: byte := 0x0D
  const LF: byte := 0x0A
  const CHAR_t: byte := 0x74
  const CHAR_T: byte := 0x54
  const CHAR_d: byte := 0x64
  const CHAR_D: byte := 0x44

  // ---- Hexadecimal ----

  function HexNibble(v: byte): (c: byte) {
    if v % 16 < 10 then 0x30 + v % 16 else 0x41 + v % 16 - 10
  }

  function HexVal(c: byte): (v: int)
    ensures -1 <= v < 16
  {
    if 0x30 <= c <= 0x39 then c - 0x30
    else if 0x61 <= c <= 0x66 then c - 0x61 + 10
    else if 0x41 <= c <= 0x46 then c - 0x41 + 10
    else -1
  }

  /** The low `n` hexadecimal digits of x, most significant first. */
  function HexDigits(x: nat, n: nat): (s: seq<byte>)
    ensures |s| == n
  {
    if n == 0 then [] else HexDigits(x / 16, n - 1) + [HexNibble(x % 16)]
  }

  /** The number a text of hexadecimal digits stands for. */
  function HexNumber(s: seq<byte>): Option<nat> {
    if s == [] then Some(0)
    else
      var high, v := HexNumber(s[..|s| - 1]), HexVal(s[|s| - 1]);
      if high.None? || v < 0 then None else Some(16 * high.value + v)
  }

  function Pow16(n: nat): nat {
    if n == 0 then 1 else 16 * Pow16(n - 1)
  }

  lemma {:induction false} HexNumberRoundTrip(x: nat, n: nat)
    requires x < Pow16(n)
    ensures HexNumber(HexDigits(x, n)) == Some(x)
  {
    if n > 0 {
      HexNumberRoundTrip(x / 16, n - 1);
      assert HexDigits(x, n)[..n - 1] == HexDigits(x / 16, n - 1);
    }
  }

  function HexBytes(data: seq<byte>): (s: seq<byte>)
    ensures |s| == 2 * |data|
  {
    seq(2 * |data|, i requires 0 <= i < 2 * |data| =>
      HexNibble(if i % 2 == 0 then data[i / 2] / 16 else data[i / 2]))
  }

  predicate AllHex(s: seq<byte>) {
    forall i :: 0 <= i < |s| ==> HexVal(s[i]) >= 0
  }

  /** The bytes a text of pairs of hexadecimal digits stands for. */
  function BytesOfHex(s: seq<byte>): (r: seq<byte>)
    requires |s| % 2 == 0 && AllHex(s)
    ensures |r| == |s| / 2
  {
    seq(|s| / 2, i requires 0 <= i < |s| / 2 => 16 * HexVal(s[2 * i]) + HexVal(s[2 * i + 1]))
  }

  lemma HexValOfNibble(v: byte)
    ensures HexVal(HexNibble(v)) == v % 16
  {
  }

  lemma BytesOfHexRoundTrip(data: seq<byte>)
    ensures AllHex(HexBytes(data))
    ensures BytesOfHex(HexBytes(data)) == data
  {
  }

  lemma HexBytesPrefix(data: seq<byte>, n: nat)
    requires n <= |data|
    ensures HexBytes(data)[..2 * n] == HexBytes(data[..n])
  {
  }

  lemma HexBytesAppend(data: seq<byte>, b: byte)
    ensures HexBytes(data + [b]) == HexBytes(data) + [HexNibble(b / 16), HexNibble(b)]
  {
  }

  // ---- Encoding ----

  function RawId(f: Frame): nat {
    if IsExtended(f.canId) then f.canId % CAN_EFF_SIZE else f.canId % CAN_SFF_SIZE
  }

  function IdDigits(extended: bool): nat {
    if extended then 8 else 3
  }

  function TypeChar(fd: bool, extended: bool): byte {
    if fd then (if extended then CHAR_D else CHAR_d) else (if extended then CHAR_T else CHAR_t)
  }

  function Header(f: Frame): (s: seq<byte>)
    ensures |s| == 2 + IdDigits(IsExtended(f.canId))
  {
    var ext := IsExtended(f.canId);
    [TypeChar(IsFd(f), ext)] + HexDigits(RawId(f), IdDigits(ext)) + [HexNibble(WireDlc(f))]
  }

  /** One encoded line without its carriage return. */
  function Line(f: Frame): (s: seq<byte>)
    ensures |s| == 2 + IdDigits(IsExtended(f.canId)) + 2 * WireLen(f)
  {
    Header(f) + HexBytes(f.data[..WireLen(f)])
  }

  function Text(f: Frame): (s: seq<byte>)
    ensures |s| == |Line(f)| + 1
    ensures 6 <= |s| <= 139
  {
    Line(f) + [CR]
  }

  /** x >> 4 * n */
  function ShiftRight4(x: nat, n: nat): nat {
    if n == 0 then x else ShiftRight4(x, n - 1) / 16
  }

  /** Writes `n` digits of x at position `at`. */
  method WriteDigits(x: nat, n: nat, out: array<byte>, at: nat)
    requires at + n <= out.Length
    modifies out
    ensures out[..at + n] == old(out[..at]) + HexDigits(x, n)
  {
    var i := n;
    while i > 0
      invariant 0 <= i <= n
      invariant out[..at + n - i] == old(out[..at]) + HexDigits(ShiftRight4(x, i), n - i)
    {
      i := i - 1;
      out[at + n - i - 1] := HexNibble(ShiftRight4(x, i) % 16);
    }
  }

  /** Writes the type character, the identifier digits and the DLC. */
  method EncodeHeader(f: Frame, out: array<byte>) returns (pos: nat)
    requires |Header(f)| <= out.Length
    modifies out
    ensures pos == |Header(f)| && out[..pos] == Header(f)
  {
    var isExtended, isFd := IsExtended(f.canId), IsFd(f);
    out[0] := TypeChar(isFd, isExtended);
    assert out[..1] == [TypeChar(isFd, isExtended)];
    WriteDigits(RawId(f), IdDigits(isExtended), out, 1);
    pos := 1 + IdDigits(isExtended);
    out[pos] := HexNibble(WireDlc(f));
    pos := pos + 1;
  }

  /** Writes the frame's text into `out` and returns its length, or 0 if it does
      not fit. The header is written before the room for it is tested. */
  method Encode(f: Frame, out: array<byte>) returns (pos: nat)
    requires out.Length < 8 || |Header(f)| <= out.Length
    modifies out
    ensures out.Length < |Text(f)| ==> pos == 0
    ensures 8 <= out.Length && |Text(f)| <= out.Length ==> pos == |Text(f)| && out[..pos] == Text(f)
  {
    if out.Length < 8 {
      return 0;
    }
    pos := EncodeHeader(f, out);
    var dataLen := WireLen(f);
    if pos + dataLen * 2 + 1 > out.Length {
      return 0;
    }
    for i := 0 to dataLen
      invariant pos == |Header(f)| + 2 * i
      invariant out[..pos] == Header(f) + HexBytes(f.data[..i])
    {
      HexBytesAppend(f.data[..i], f.data[i]);
      assert f.data[..i + 1] == f.data[..i] + [f.data[i]];
      out[pos] := HexNibble(f.data[i] / 16);
      out[pos + 1] := HexNibble(f.data[i]);
      pos := pos + 2;
    }
    out[pos] := CR;
    pos := pos + 1;
  }

  // ---- Decoding ----

  /** Identifier, frame format and DLC of a line, and how many characters they take. */
  datatype Head = Head(id: u32, fd: bool, dlc: byte, size: nat)

  /** canId |= CAN_EFF_FLAG, on a number of at most 32 bits. */
  function WithEff(id: nat, ext: bool): u32 {
    if ext && id % TWO_32 < CAN_EFF_FLAG then id % TWO_32 + CAN_EFF_FLAG else id % TWO_32
  }

  function DecodeHead(s: seq<byte>): (h: Option<Head>)
    ensures h.Some? ==> h.value.size <= |s|
  {
    if |s| < 5 || s[0] !in {CHAR_t, CHAR_T, CHAR_d, CHAR_D} then None
    else
      var ext, fd := s[0] == CHAR_T || s[0] == CHAR_D, s[0] == CHAR_d || s[0] == CHAR_D;
      var n := 1 + IdDigits(ext);
      if n + 1 > |s| then None
      else
        var id, dlc := HexNumber(s[1..n]), HexVal(s[n]);
        if id.None? || dlc < 0 then None else Some(Head(WithEff(id.value, ext), fd, dlc, n + 1))
  }

  function PayloadLen(h: Head): (len: byte) {
    if h.fd then DlcToLen(h.dlc) else h.dlc
  }

  function DecodePayload(h: Head, s: seq<byte>): Option<Frame>
    requires h.size <= |s|
  {
    var len := PayloadLen(h);
    if (!h.fd && len > CAN_MAX_DLEN) || h.size + 2 * len > |s| then None
    else
      var digits := s[h.size..h.size + 2 * len];
      if !AllHex(digits) then None else Some(FrameOf(h, BytesOfHex(digits)))
  }

  function FrameOf(h: Head, payload: seq<byte>): Frame
    requires |payload| == PayloadLen(h) <= CANFD_MAX_DLEN
  {
    Frame(h.id, PayloadLen(h), if h.fd then CANFD_FDF else 0, 0, 0, Padded(payload))
  }

  function Decode(s: seq<byte>): Option<Frame> {
    var head := DecodeHead(s);
    if head.None? then None else DecodePayload(head.value, s)
  }

  lemma {:induction false} BadDigitSpoils(s: seq<byte>, n: nat)
    requires n <= |s| && HexNumber(s[..n]).None?
    ensures HexNumber(s).None?
    decreases |s| - n
  {
    if n == |s| {
      assert s[..n] == s;
    } else {
      assert s[..n + 1][..n] == s[..n];
      BadDigitSpoils(s, n + 1);
    }
  }

  /** Reads identifier digits one by one; stops at the first that is none. */
  method ReadNumber(s: seq<byte>) returns (r: Option<nat>)
    ensures r == HexNumber(s)
  {
    var canId := 0;
    for i := 0 to |s|
      invariant HexNumber(s[..i]) == Some(canId)
    {
      assert s[..i + 1][..i] == s[..i];
      var v := HexVal(s[i]);
      if v < 0 {
        BadDigitSpoils(s, i + 1);
        return None;
      }
      canId := canId * 16 + v;
    }
    assert s[..|s|] == s;
    r := Some(canId);
  }

  method ReadHead(line: seq<byte>) returns (r: Option<Head>)
    ensures r == DecodeHead(line)
  {
    if |line| < 5 {
      return None;
    }
    var isExtended, isFd;
    match line[0] {
      case 0x74 => isExtended, isFd := false, false;
      case 0x54 => isExtended, isFd := true, false;
      case 0x64 => isExtended, isFd := false, true;
      case 0x44 => isExtended, isFd := true, true;
      case _ => return None;
    }
    var pos := 1 + IdDigits(isExtended);
    if pos + 1 > |line| {
      return None;
    }
    var id := ReadNumber(line[1..pos]);
    var dlc := HexVal(line[pos]);
    if id.None? || dlc < 0 {
      return None;
    }
    r := Some(Head(WithEff(id.value, isExtended), isFd, dlc, pos + 1));
  }

  /** The decoder: header fields first, then the payload, digit pair by digit pair. */
  method DecodeLine(line: seq<byte>) returns (r: Option<Frame>)
    ensures r == Decode(line)
  {
    var head := ReadHead(line);
    if head.None? {
      return None;
    }
    r := ReadPayload(head.value, line);
  }

  method ReadPayload(h: Head, line: seq<byte>) returns (r: Option<Frame>)
    requires h.size <= |line|
    ensures r == DecodePayload(h, line)
  {
    var dataLen := PayloadLen(h);
    if !h.fd && dataLen > CAN_MAX_DLEN {
      return None;
    }
    if h.size + dataLen * 2 > |line| {
      return None;
    }
    var digits := line[h.size..h.size + 2 * dataLen];
    var payload := [];
    for i := 0 to dataLen
      invariant |payload| == i
      invariant forall k :: 0 <= k < 2 * i ==> HexVal(digits[k]) >= 0
      invariant forall k :: 0 <= k < i ==> payload[k] == 16 * HexVal(digits[2 * k]) + HexVal(digits[2 * k + 1])
    {
      var hi, lo := HexVal(digits[2 * i]), HexVal(digits[2 * i + 1]);
      if hi < 0 || lo < 0 {
        return None;
      }
      payload := payload + [16 * hi + lo];
    }
    assert payload == BytesOfHex(digits);
    r := Some(FrameOf(h, payload));
  }

  /** What the decoder makes of a frame's own text: masked identifier, the length
      the DLC stands for; nothing if that length exceeds the bytes written. */
  function Received(f: Frame): Option<Frame> {
    var h := SentHead(f);
    if PayloadLen(h) > WireLen(f) then None
    else Some(FrameOf(h, f.data[..PayloadLen(h)]))
  }

  function SentHead(f: Frame): Head {
    Head(WithEff(RawId(f), IsExtended(f.canId)), IsFd(f), WireDlc(f) % 16, |Header(f)|)
  }

  lemma RawIdFits(f: Frame)
    ensures RawId(f) < Pow16(IdDigits(IsExtended(f.canId)))
  {
    assert Pow16(3) == 0x1000;
    assert Pow16(4) == 0x1_0000;
    assert Pow16(8) == 0x1_0000 * Pow16(4);
  }

  lemma DecodeHeadOfHeader(f: Frame, rest: seq<byte>)
    requires |Header(f)| + |rest| >= 5
    ensures DecodeHead(Header(f) + rest) == Some(SentHead(f))
  {
    var n, s := |Header(f)| - 1, Header(f) + rest;
    assert s[1..n] == HexDigits(RawId(f), n - 1);
    RawIdFits(f);
    HexNumberRoundTrip(RawId(f), n - 1);
    HexValOfNibble(WireDlc(f));
  }

  /** The digits of the first `n` of some bytes decode to those bytes, wherever
      the digits stand in a text. */
  lemma DigitsAfter(header: seq<byte>, data: seq<byte>, n: nat)
    requires n <= |data|
    ensures
      var digits := (header + HexBytes(data))[|header|..|header| + 2 * n];
      AllHex(digits) && BytesOfHex(digits) == data[..n]
  {
    assert (header + HexBytes(data))[|header|..|header| + 2 * n] == HexBytes(data)[..2 * n];
    HexBytesPrefix(data, n);
    BytesOfHexRoundTrip(data[..n]);
  }

  lemma DecodePayloadAfter(h: Head, header: seq<byte>, data: seq<byte>)
    requires h.size == |header| && |data| <= if h.fd then CANFD_MAX_DLEN else CAN_MAX_DLEN
    ensures DecodePayload(h, header + HexBytes(data))
         == if PayloadLen(h) > |data| then None else Some(FrameOf(h, data[..PayloadLen(h)]))
  {
    if PayloadLen(h) <= |data| {
      DigitsAfter(header, data, PayloadLen(h));
    }
  }

  lemma DecodePayloadOfLine(f: Frame)
    ensures DecodePayload(SentHead(f), Line(f)) == Received(f)
  {
    var h, payload := SentHead(f), f.data[..WireLen(f)];
    DecodePayloadAfter(h, Header(f), payload);
    if PayloadLen(h) <= |payload| {
      assert payload[..PayloadLen(h)] == f.data[..PayloadLen(h)];
    }
  }

  lemma DecodeOfLine(f: Frame)
    ensures Decode(Line(f)) == Received(f)
  {
    DecodeHeadOfHeader(f, HexBytes(f.data[..WireLen(f)]));
    DecodePayloadOfLine(f);
  }

  /** Frames that the text can carry without loss. */
  predicate Canonical(f: Frame) {
    && CanonicalId(f.canId)
    && (f.flags == 0 || f.flags == CANFD_FDF)
    && (if f.flags == 0 then f.len <= CAN_MAX_DLEN else DlcToLen(LenToDlc(f.len)) == f.len)
    && f.res0 == 0 && f.res1 == 0
    && ZeroFrom(f.data, f.len)
  }

  predicate CanonicalId(canId: u32) {
    if IsExtended(canId) then canId - CAN_EFF_FLAG < CAN_EFF_SIZE else canId < CAN_SFF_SIZE
  }

  lemma IdKeptIffCanonical(f: Frame)
    ensures SentHead(f).id == f.canId <==> CanonicalId(f.canId)
  {
  }

  lemma LengthKeptIffCanonical(f: Frame)
    requires f.flags == 0 || f.flags == CANFD_FDF
    ensures PayloadLen(SentHead(f)) == f.len <= WireLen(f)
      <==> (if f.flags == 0 then f.len <= CAN_MAX_DLEN else DlcToLen(LenToDlc(f.len)) == f.len)
  {
  }

  lemma ReceivedSame(f: Frame)
    ensures Received(f) == Some(f) <==>
      && SentHead(f).id == f.canId
      && PayloadLen(SentHead(f)) == f.len <= WireLen(f)
      && (f.flags == 0 || f.flags == CANFD_FDF)
      && f.res0 == 0 && f.res1 == 0
      && f.len <= CANFD_MAX_DLEN && Padded(f.data[..f.len]) == f.data
  {
  }

  /** A frame survives encoding and decoding exactly if it is canonical. */
  lemma RoundTripIffCanonical(f: Frame)
    ensures Decode(Line(f)) == Some(f) <==> Canonical(f)
  {
    DecodeOfLine(f);
    ReceivedSame(f);
    IdKeptIffCanonical(f);
    if f.flags == 0 || f.flags == CANFD_FDF {
      LengthKeptIffCanonical(f);
    }
    if f.len <= CANFD_MAX_DLEN {
      PaddedIffZeros(f.data, f.len);
    }
  }

  /** An FD frame of length 10: its DLC stands for 12 bytes, but 10 are written. */
  lemma FdLength10IsRejected(f: Frame)
    requires IsFd(f) && f.len == 10
    ensures Decode(Line(f)) == None
  {
    DecodeOfLine(f);
  }

  // ---- The text, character by character ----

  /** Digits are written with capitals: 0 to 9 and A to F. */
  lemma HexAlphabet(v: byte)
    ensures
      var digits: seq<byte> := [0x30, 0x31, 0x32, 0x33, 0x34, 0x35, 0x36, 0x37, 0x38, 0x39,
                                0x41, 0x42, 0x43, 0x44, 0x45, 0x46];
      HexNibble(v) == digits[v % 16]
  {
  }

  predicate IsHex(c: byte) {
    0x30 <= c <= 0x39 || 0x41 <= c <= 0x46 || 0x61 <= c <= 0x66
  }

  /** Digits are read in capitals and in small letters, and nothing else is one. */
  lemma HexValues(c: byte)
    ensures HexVal(c) >= 0 <==> IsHex(c)
    ensures 0x30 <= c <= 0x39 ==> HexVal(c) == c - 0x30
    ensures 0x41 <= c <= 0x46 ==> HexVal(c) == 10 + (c - 0x41) && HexVal(c + 0x20) == HexVal(c)
  {
  }

  lemma HeaderLayout(f: Frame)
    ensures
      var s, ext, fd := Header(f), f.canId >= 0x8000_0000, f.flags / 4 % 2 == 1;
      var n := if ext then 9 else 4;
      && |s| == n + 1
      && s[0] == (if fd then (if ext then 0x44 else 0x64) else if ext then 0x54 else 0x74)
      && HexNumber(s[1..n]) == Some(f.canId as int % if ext then 0x2000_0000 else 0x800)
      && s[n] == HexNibble(if fd then LenToDlc(f.len) else f.len)
  {
    var n := |Header(f)| - 1;
    RawIdFits(f);
    HexNumberRoundTrip(RawId(f), n - 1);
    assert Header(f)[1..n] == HexDigits(RawId(f), n - 1);
  }

  lemma DigitsOfBytes(header: seq<byte>, data: seq<byte>, i: nat)
    requires i < |data|
    ensures
      var s := header + HexBytes(data) + [0x0D];
      s[|header| + 2 * i] == HexNibble(data[i] / 16) && s[|header| + 1 + 2 * i] == HexNibble(data[i])
  {
    assert HexBytes(data)[2 * i] == HexNibble(data[i] / 16) && HexBytes(data)[2 * i + 1] == HexNibble(data[i]);
  }

  /** The characters of a line: t, T, d or D for standard or extended, classic or FD; three
      or eight digits of the identifier; the DLC; two digits a byte; and a carriage return. */
  lemma TextLayout(f: Frame)
    ensures
      var s, ext, fd := Text(f), f.canId >= 0x8000_0000, f.flags / 4 % 2 == 1;
      var n := if ext then 9 else 4;
      && |s| == n + 2 + 2 * WireLen(f) && s[|s| - 1] == 0x0D
      && s[0] == (if fd then (if ext then 0x44 else 0x64) else if ext then 0x54 else 0x74)
      && HexNumber(s[1..n]) == Some(f.canId as int % if ext then 0x2000_0000 else 0x800)
      && s[n] == HexNibble(WireDlc(f))
      && forall i :: 0 <= i < WireLen(f) ==>
           s[n + 1 + 2 * i] == HexNibble(f.data[i] / 16) && s[n + 2 + 2 * i] == HexNibble(f.data[i])
  {
    var header, data := Header(f), f.data[..WireLen(f)];
    HeaderLayout(f);
    assert Text(f)[..|header|] == header;
    assert Text(f)[1..|header| - 1] == header[1..|header| - 1];
    forall i | 0 <= i < WireLen(f)
      ensures Text(f)[|header| + 2 * i] == HexNibble(f.data[i] / 16)
      ensures Text(f)[|header| + 1 + 2 * i] == HexNibble(f.data[i])
    {
      DigitsOfBytes(header, data, i);
    }
  }

  // ---- What the decoder accepts ----

  predicate HexFrom(s: seq<byte>, from: nat, to: nat)
    requires from <= to <= |s|
  {
    forall i :: from <= i < to ==> IsHex(s[i])
  }

  /** The grammar of a line, by its characters. Anything may follow the last digit. */
  predicate IsLine(s: seq<byte>) {
    && |s| >= 5 && s[0] in [0x74, 0x54, 0x64, 0x44]
    && var n := if s[0] in [0x54, 0x44] then 9 else 4;
       && |s| >= n + 1 && HexFrom(s, 1, n + 1)
       && var dlc := HexVal(s[n]);
          var len := if s[0] in [0x64, 0x44] then DlcToLen(dlc) else dlc;
          && (s[0] in [0x74, 0x54] ==> dlc <= 8)
          && |s| >= n + 1 + 2 * len && HexFrom(s, n + 1, n + 1 + 2 * len)
  }

  lemma {:induction false} NumberIffHex(s: seq<byte>)
    ensures HexNumber(s).Some? <==> HexFrom(s, 0, |s|)
  {
    if s != [] {
      NumberIffHex(s[..|s| - 1]);
      HexValues(s[|s| - 1]);
    }
  }

  lemma HeadIffHex(s: seq<byte>)
    ensures
      var n := if |s| > 0 && s[0] in [0x54, 0x44] then 9 else 4;
      && (DecodeHead(s).Some? <==>
            |s| >= 5 && s[0] in [0x74, 0x54, 0x64, 0x44] && |s| >= n + 1 && HexFrom(s, 1, n + 1))
      && (DecodeHead(s).Some? ==>
            var h := DecodeHead(s).value;
            h.size == n + 1 && h.dlc == HexVal(s[n]) && (h.fd <==> s[0] in [0x64, 0x44]))
  {
    var n := if |s| > 0 && s[0] in [0x54, 0x44] then 9 else 4;
    if |s| >= n + 1 {
      NumberIffHex(s[1..n]);
      HexValues(s[n]);
      assert HexFrom(s, 1, n) <==> HexFrom(s[1..n], 0, n - 1) by {
        assert forall i :: 1 <= i < n ==> s[i] == s[1..n][i - 1];
      }
    }
  }

  lemma AllHexIff(s: seq<byte>, from: nat, to: nat)
    requires from <= to <= |s|
    ensures AllHex(s[from..to]) <==> HexFrom(s, from, to)
  {
    forall i | from <= i < to
      ensures HexVal(s[from..to][i - from]) >= 0 <==> IsHex(s[i])
    {
      HexValues(s[i]);
    }
    assert forall i :: from <= i < to ==> s[i] == s[from..to][i - from];
  }

  /** The decoder accepts exactly the lines of the grammar. */
  lemma DecodesIffLine(s: seq<byte>)
    ensures Decode(s).Some? <==> IsLine(s)
  {
    HeadIffHex(s);
    if DecodeHead(s).Some? {
      var h := DecodeHead(s).value;
      if h.size + 2 * PayloadLen(h) <= |s| {
        AllHexIff(s, h.size, h.size + 2 * PayloadLen(h));
      }
    }
  }

  /** What the decoder makes of a line it accepts. */
  lemma DecodedFields(s: seq<byte>)
    requires Decode(s).Some?
    ensures
      var f, n := Decode(s).value, if s[0] in [0x54, 0x44] then 9 else 4;
      && n + 2 * f.len < |s|
      && (f.canId >= 0x8000_0000 <==> s[0] in [0x54, 0x44])
      && f.flags == (if s[0] in [0x64, 0x44] then 4 else 0) && f.res0 == 0 && f.res1 == 0
      && f.len == (if f.flags == 4 then DlcToLen(HexVal(s[n])) else HexVal(s[n]))
      && forall i :: 0 <= i < 64 ==>
           f.data[i] == if i < f.len then 16 * HexVal(s[n + 1 + 2 * i]) + HexVal(s[n + 2 + 2 * i]) else 0
  {
    HeadIffHex(s);
    StandardIdIsSmall(s);
  }

  lemma StandardIdIsSmall(s: seq<byte>)
    requires DecodeHead(s).Some?
    ensures DecodeHead(s).value.id >= 0x8000_0000 <==> s[0] in [0x54, 0x44]
  {
    if s[0] in [0x74, 0x64] {
      NumberBelow(s[1..4]);
      assert Pow16(3) == 0x1000;
    }
  }

  lemma {:induction false} NumberBelow(s: seq<byte>)
    requires HexNumber(s).Some?
    ensures HexNumber(s).value < Pow16(|s|)
  {
    if s != [] {
      NumberBelow(s[..|s| - 1]);
    }
  }
}
