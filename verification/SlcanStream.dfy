/**
 The received SLCAN byte stream (LineAccumulator in
 usb_can_driver/codecs/slcan_codec.h): bytes arrive in chunks of any size, are
 collected up to a carriage return, and each line is decoded.
 */
module SlcanStream {
  import opened MachineInts
  import opened CanFrame
  import opened Results
  import opened RingStream
  import opened Slcan

  const LINE_BUFFER := 256

  /** The accumulator between two bytes: the partial line and the line counts. */
  datatype Acc = Acc(line: seq<byte>, total: u32, decoded: u32, failed: u32)

  function CloseLine(a: Acc): (Acc, seq<Frame>) {
    if a.line == [] then (a, [])
    else if Decode(a.line).Some?
    then (Acc([], Add32(a.total, 1), Add32(a.decoded, 1), a.failed), [Decode(a.line).value])
    else (Acc([], Add32(a.total, 1), a.decoded, Add32(a.failed, 1)), [])
  }

  function FeedByte(a: Acc, b: byte): (Acc, seq<Frame>) {
    if b == CR then CloseLine(a)
    else if b != LF && |a.line| < LINE_BUFFER - 1 then (a.(line := a.line + [b]), [])
    else (a, [])
  }

  function Feed(a: Acc, bytes: seq<byte>): (Acc, seq<Frame>) {
    if bytes == [] then (a, [])
    else
      var earlier := Feed(a, bytes[..|bytes| - 1]);
      var last := FeedByte(earlier.0, bytes[|bytes| - 1]);
      (last.0, earlier.1 + last.1)
  }

  class LineAccumulator {
    const buf: array<byte>
    var bufLen: nat
    var linesTotal: u32
    var linesDecoded: u32
    var linesFailed: u32

    ghost predicate Valid()
      reads this
    {
      buf.Length == LINE_BUFFER && bufLen < LINE_BUFFER
    }

    ghost function State(): Acc
      requires Valid()
      reads this, buf
    {
      Acc(buf[..bufLen], linesTotal, linesDecoded, linesFailed)
    }

    constructor ()
      ensures Valid() && fresh(buf)
      ensures State() == Acc([], 0, 0, 0)
    {
      buf := new byte[LINE_BUFFER](i => 0);
      bufLen, linesTotal, linesDecoded, linesFailed := 0, 0, 0, 0;
    }

    method ProcessByte(ch: byte) returns (frames: seq<Frame>)
      requires Valid()
      modifies this, buf
      ensures Valid()
      ensures (State(), frames) == FeedByte(old(State()), ch)
    {
      frames := [];
      if ch == CR {
        if bufLen > 0 {
          linesTotal := Add32(linesTotal, 1);
          var frame := DecodeLine(buf[..bufLen]);
          if frame.Some? {
            linesDecoded := Add32(linesDecoded, 1);
            frames := [frame.value];
          } else {
            linesFailed := Add32(linesFailed, 1);
          }
        }
        bufLen := 0;
        assert buf[..bufLen] == [];
      } else if ch != LF && bufLen < LINE_BUFFER - 1 {
        buf[bufLen] := ch;
        bufLen := bufLen + 1;
        assert buf[..bufLen] == old(buf[..bufLen]) + [ch];
      }
    }

    /** Processes one chunk; returns the frames handed on, in order. */
    method ProcessBytes(data: seq<byte>) returns (frames: seq<Frame>)
      requires Valid()
      modifies this, buf
      ensures Valid()
      ensures (State(), frames) == Feed(old(State()), data)
    {
      frames := [];
      for i := 0 to |data|
        invariant Valid()
        invariant (State(), frames) == Feed(old(State()), data[..i])
      {
        assert data[..i + 1][..i] == data[..i];
        var more := ProcessByte(data[i]);
        frames := frames + more;
      }
      assert data[..|data|] == data;
    }

    method Reset()
      requires Valid()
      modifies this
      ensures Valid()
      ensures State() == Acc([], 0, 0, 0)
    {
      bufLen, linesTotal, linesDecoded, linesFailed := 0, 0, 0, 0;
    }
  }

  // ---- Chunks do not matter ----

  lemma {:induction false} FeedConcat(a: Acc, x: seq<byte>, y: seq<byte>)
    ensures
      var first := Feed(a, x);
      var second := Feed(first.0, y);
      Feed(a, x + y) == (second.0, first.1 + second.1)
  {
    if y == [] {
      assert x + y == x;
      assert Feed(a, x).1 + [] == Feed(a, x).1;
    } else {
      var y' := y[..|y| - 1];
      FeedConcat(a, x, y');
      assert (x + y)[..|x + y| - 1] == x + y';
      var first := Feed(a, x);
      var second, last := Feed(first.0, y'), FeedByte(Feed(first.0, y').0, y[|y| - 1]);
      assert (first.1 + second.1) + last.1 == first.1 + (second.1 + last.1);
    }
  }

  function FeedChunks(a: Acc, chunks: seq<seq<byte>>): (Acc, seq<Frame>)
    decreases |chunks|
  {
    if chunks == [] then (a, [])
    else
      var first := Feed(a, chunks[0]);
      var rest := FeedChunks(first.0, chunks[1..]);
      (rest.0, first.1 + rest.1)
  }

  /** However a byte stream is cut into transfers, the result is the same. */
  lemma {:induction false} ChunkingIsIrrelevant(a: Acc, chunks: seq<seq<byte>>)
    ensures FeedChunks(a, chunks) == Feed(a, Flatten(chunks))
    decreases |chunks|
  {
    if chunks != [] {
      FeedConcat(a, chunks[0], Flatten(chunks[1..]));
      ChunkingIsIrrelevant(Feed(a, chunks[0]).0, chunks[1..]);
    }
  }

  // ---- Encoded frames arrive ----

  ghost predicate Plain(s: seq<byte>) {
    forall i :: 0 <= i < |s| ==> s[i] != CR && s[i] != LF
  }

  lemma {:induction false} FeedPlain(a: Acc, s: seq<byte>)
    requires Plain(s) && |a.line| + |s| < LINE_BUFFER
    ensures Feed(a, s) == (a.(line := a.line + s), [])
  {
    if s == [] {
      assert a.line + s == a.line;
    } else {
      FeedPlain(a, s[..|s| - 1]);
      var none: seq<Frame> := [];
      assert none + [] == none;
      assert a.line + s == (a.line + s[..|s| - 1]) + [s[|s| - 1]];
    }
  }

  lemma {:induction false} DigitsArePlain(x: nat, n: nat)
    ensures Plain(HexDigits(x, n))
  {
    if n > 0 {
      DigitsArePlain(x / 16, n - 1);
    }
  }

  lemma LineIsPlain(f: Frame)
    ensures Plain(Line(f))
  {
    var ext := IsExtended(f.canId);
    DigitsArePlain(RawId(f), IdDigits(ext));
    assert Plain([TypeChar(IsFd(f), ext)] + HexDigits(RawId(f), IdDigits(ext)));
    assert Plain(Header(f));
    assert Plain(HexBytes(f.data[..WireLen(f)]));
  }

  lemma FeedLine(a: Acc, line: seq<byte>)
    requires a.line == [] && Plain(line) && |line| < LINE_BUFFER
    ensures Feed(a, line + [CR]) == CloseLine(a.(line := line))
  {
    FeedPlain(a, line);
    assert a.line + line == line;
    assert (line + [CR])[..|line|] == line;
    var closed := CloseLine(a.(line := line));
    assert [] + closed.1 == closed.1;
  }

  /** The accumulator after `n` frames have come through whole. */
  function After(a: Acc, n: nat): Acc {
    Acc([], Counted(a.total, n), Counted(a.decoded, n), a.failed)
  }

  lemma {:induction false} CountedFromOne(c: u32, n: nat)
    ensures Counted(Counted(c, 1), n) == Counted(c, n + 1)
  {
    if n > 0 {
      CountedFromOne(c, n - 1);
    }
  }

  lemma AfterNext(a: Acc, n: nat)
    ensures After(a, 1) == Acc([], Add32(a.total, 1), Add32(a.decoded, 1), a.failed)
    ensures After(After(a, 1), n) == After(a, n + 1)
  {
    CountedFromOne(a.total, n);
    CountedFromOne(a.decoded, n);
  }

  /** One encoded frame fed to an accumulator that holds no partial line. */
  lemma FeedText(a: Acc, f: Frame)
    requires a.line == [] && Canonical(f)
    ensures Feed(a, Text(f)) == (After(a, 1), [f])
  {
    LineIsPlain(f);
    FeedLine(a, Line(f));
    RoundTripIffCanonical(f);
    AfterNext(a, 0);
  }

  /** The text of a list of frames. */
  function Texts(fs: seq<Frame>): seq<byte> {
    if fs == [] then [] else Text(fs[0]) + Texts(fs[1..])
  }

  lemma FeedTextThen(a: Acc, f: Frame, rest: seq<byte>)
    requires a.line == [] && Canonical(f)
    ensures Feed(a, Text(f) + rest) == (Feed(After(a, 1), rest).0, [f] + Feed(After(a, 1), rest).1)
  {
    FeedText(a, f);
    FeedConcat(a, Text(f), rest);
  }

  lemma FeedTextsStep(a: Acc, f: Frame, rest: seq<Frame>)
    requires a.line == [] && Canonical(f)
    requires Feed(After(a, 1), Texts(rest)) == (After(After(a, 1), |rest|), rest)
    ensures Feed(a, Text(f) + Texts(rest)) == (After(a, |rest| + 1), [f] + rest)
  {
    FeedTextThen(a, f, Texts(rest));
    AfterNext(a, |rest|);
  }

  lemma {:induction false} FeedTexts(a: Acc, fs: seq<Frame>)
    requires a.line == []
    requires forall f :: f in fs ==> Canonical(f)
    ensures Feed(a, Texts(fs)) == (After(a, |fs|), fs)
    decreases |fs|
  {
    if fs == [] {
      assert After(a, 0) == a;
    } else {
      FeedTexts(After(a, 1), fs[1..]);
      FeedTextsStep(a, fs[0], fs[1..]);
      assert [fs[0]] + fs[1..] == fs;
    }
  }

  /** End to end: the encodings of any canonical frames, cut into any chunks, come
      out of an empty accumulator as exactly those frames in order, with no failed
      line and nothing left over. */
  lemma EncodedFramesArrive(fs: seq<Frame>, chunks: seq<seq<byte>>, a: Acc)
    requires forall f :: f in fs ==> Canonical(f)
    requires Flatten(chunks) == Texts(fs) && a.line == []
    ensures FeedChunks(a, chunks).1 == fs
    ensures FeedChunks(a, chunks).0.line == []
    ensures FeedChunks(a, chunks).0.failed == a.failed
    ensures FeedChunks(a, chunks).0.decoded == Counted(a.decoded, |fs|)
  {
    ChunkingIsIrrelevant(a, chunks);
    FeedTexts(a, fs);
  }

  // ---- Other bytes ----

  /** Line feeds are ignored wherever they stand. */
  lemma LineFeedIsIgnored(a: Acc, x: seq<byte>, y: seq<byte>)
    ensures Feed(a, x + [0x0A] + y) == Feed(a, x + y)
  {
    var mid := Feed(a, x).0;
    assert [0x0A][..0] == [];
    var none: seq<Frame> := [];
    assert none + none == none;
    assert Feed(mid, [0x0A]) == (mid, none);
    FeedConcat(a, x, [0x0A]);
    assert Feed(a, x).1 + none == Feed(a, x).1;
    FeedConcat(a, x + [0x0A], y);
    FeedConcat(a, x, y);
  }

  /** A line that does not decode gives no frame and counts as failed; an empty one does not
      count. */
  lemma BadLineFails(a: Acc, line: seq<byte>)
    requires a.line == [] && Plain(line) && |line| < 256 && !IsLine(line)
    ensures Feed(a, line + [0x0D]) ==
      if line == [] then (a, []) else (Acc([], Add32(a.total, 1), a.decoded, Add32(a.failed, 1)), [])
  {
    FeedLine(a, line);
    DecodesIffLine(line);
  }

  /** A line keeps its first 255 bytes. */
  lemma {:induction false} LongLineIsCut(a: Acc, s: seq<byte>)
    requires a.line == [] && Plain(s)
    ensures Feed(a, s) == (a.(line := s[..Min(|s|, 255)]), [])
  {
    if s == [] {
      assert s[..0] == a.line;
    } else {
      var n := |s| - 1;
      LongLineIsCut(a, s[..n]);
      var none: seq<Frame> := [];
      assert none + none == none;
      assert n < 255 ==> s[..n][..n] + [s[n]] == s[..n + 1];
      assert n >= 255 ==> s[..n][..255] == s[..255];
    }
  }
}
