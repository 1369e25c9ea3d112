/**
 The SLCAN transmit drain (Codec::drainTx in usb_can_driver/codecs/slcan_codec.h):
 encodes the pending frames of the TX ring into one batch, sends it, and moves the
 ring's tail only if the send succeeded.
 */
module SlcanDrain {
  import opened MachineInts
  import opened CanFrame
  import opened Results
  import opened RingEntry
  import opened RingIo
  import opened RingStream
  import opened RingWindow
  import opened SharedRing
  import opened Slcan
  import opened SlcanStream

  const TX_BUFFER_SIZE := 4096
  const SLCAN_ENCODE_BUF := 256

  /** A batch: the frames in it and their text, the ring bytes the local tail has
      passed, and the entries of invalid size among them. */
  datatype Batch = Batch(frames: seq<Frame>, text: seq<byte>, consumed: nat, dropped: nat)

  const EMPTY := Batch([], [], 0, 0)

  /** The batch after one more round of the loop, and whether the loop goes on. The
      local tail passes a frame before the room for its text is tested. */
  function NextBatch(text: Frame -> seq<byte>, done: Batch, p: TxParse): (r: (Batch, bool))
    ensures r.1 ==> !p.TxIncomplete?
    ensures |done.text| <= TX_BUFFER_SIZE ==> |r.0.text| <= TX_BUFFER_SIZE
  {
    match p
    case TxIncomplete => (done, false)
    case TxDropped(n) => (done.(consumed := done.consumed + n, dropped := done.dropped + 1), true)
    case TxFrame(f, n) =>
      if |done.text| + |text(f)| > TX_BUFFER_SIZE
      then (done.(consumed := done.consumed + n), false)
      else (Batch(done.frames + [f], done.text + text(f), done.consumed + n, done.dropped), true)
  }

  /** The batch that a drain with `done` in its batch makes of the entries ahead. */
  function Fill(text: Frame -> seq<byte>, done: Batch, entries: seq<TxParse>): Batch
    decreases |entries|
  {
    if entries == [] then done
    else
      var next := NextBatch(text, done, entries[0]);
      if next.1 then Fill(text, next.0, entries[1..]) else next.0
  }

  lemma {:induction false} FramesHaveText(text: Frame -> seq<byte>, done: Batch, entries: seq<TxParse>)
    requires forall f :: text(f) != []
    requires done.frames == [] <==> done.text == []
    ensures Fill(text, done, entries).frames == [] <==> Fill(text, done, entries).text == []
    decreases |entries|
  {
    if entries != [] && NextBatch(text, done, entries[0]).1 {
      FramesHaveText(text, NextBatch(text, done, entries[0]).0, entries[1..]);
    }
  }

  /** The batch of SLCAN text that the driver makes of the entries of its ring. */
  function SlcanBatch(entries: seq<TxParse>): Batch {
    Fill(Text, EMPTY, entries)
  }

  // ---- The loop ----

  /** Encodes a frame behind the first `len` bytes of the batch, if it fits. An
      encoding never fills the 256-byte buffer, so it is never empty. */
  method AppendText(f: Frame, batch: array<byte>, len: nat) returns (fits: bool, len': nat)
    requires len <= batch.Length == TX_BUFFER_SIZE
    modifies batch
    ensures fits <==> len + |Text(f)| <= TX_BUFFER_SIZE
    ensures len' == (if fits then len + |Text(f)| else len) <= batch.Length
    ensures batch[..len'] == old(batch[..len]) + if fits then Text(f) else []
  {
    var encoded := new byte[SLCAN_ENCODE_BUF];
    var encLen := Encode(f, encoded);
    fits, len' := len + encLen <= TX_BUFFER_SIZE, len;
    if fits {
      for i := 0 to encLen
        invariant batch[..len + i] == old(batch[..len]) + encoded[..i]
        invariant encoded[..encLen] == Text(f)
      {
        batch[len + i] := encoded[i];
      }
      len' := len + encLen;
    }
  }

  /** Puts what was read into the batch. */
  method AddRead(read: TxParse, batch: array<byte>, len: nat, count: nat, ghost done: Batch)
    returns (more: bool, len': nat, count': nat)
    requires len <= batch.Length == TX_BUFFER_SIZE
    requires batch[..len] == done.text && count == |done.frames|
    modifies batch
    ensures more == NextBatch(Text, done, read).1
    ensures len' <= batch.Length && batch[..len'] == NextBatch(Text, done, read).0.text
    ensures count' == |NextBatch(Text, done, read).0.frames|
  {
    more, len', count' := read.TxDropped?, len, count;
    if read.TxFrame? {
      more, len' := AppendText(read.frame, batch, len);
      count' := if more then count + 1 else count;
    }
  }

  /** Reads the entry at the local tail and moves the local tail past it. */
  method ReadNext(h: SharedRingHeader, r: Ring, tail: u32, ghost pos: nat)
    returns (read: TxParse, tail': u32, ghost pos': nat)
    requires r.Valid() && tail == pos % TWO_32 && r.ctrl.tailPos <= pos <= r.ctrl.headPos
    modifies h`txDropped
    ensures tail' == pos' % TWO_32 && pos <= pos' <= r.ctrl.headPos
    ensures read == NextEntry(TxEntries(r.BytesFrom(pos)))
    ensures pos' == pos + if read.TxIncomplete? then 0 else read.size
    ensures !read.TxIncomplete? ==> TxEntries(r.BytesFrom(pos')) == TxEntries(r.BytesFrom(pos))[1..]
    ensures h.txDropped == if read.TxDropped? then Add32(old(h.txDropped), 1) else old(h.txDropped)
  {
    ghost var ahead := r.BytesFrom(pos);
    TxEntriesNext(ahead);
    read := h.ReadTxFrame(r, tail, pos);
    tail', pos' := tail, pos;
    if !read.TxIncomplete? {
      LocalTailAdvance(r.Region(), pos, r.ctrl.headPos - pos, read.size);
      tail', pos' := Add32(tail, read.size), pos + read.size;
      assert r.BytesFrom(pos') == ahead[read.size..];
    }
  }

  /** One round of the loop: what is next goes into the batch. */
  method FillRound(h: SharedRingHeader, r: Ring, batch: array<byte>, len: nat, count: nat, tail: u32,
                   ghost pos: nat, ghost done: Batch, ghost ahead: seq<TxParse>)
    returns (more: bool, len': nat, count': nat, tail': u32,
             ghost pos': nat, ghost done': Batch, ghost ahead': seq<TxParse>)
    requires r.Valid() && tail == pos % TWO_32 && r.ctrl.tailPos <= pos <= r.ctrl.headPos
    requires batch != r.data && len <= batch.Length == TX_BUFFER_SIZE
    requires batch[..len] == done.text && count == |done.frames|
    requires ahead == TxEntries(r.BytesFrom(pos))
    modifies h`txDropped, batch
    ensures tail' == pos' % TWO_32 && pos <= pos' <= r.ctrl.headPos
    ensures len' <= batch.Length && batch[..len'] == done'.text && count' == |done'.frames|
    ensures pos' - pos == done'.consumed - done.consumed
    ensures Fill(Text, done, ahead) == if more then Fill(Text, done', ahead') else done'
    ensures more ==> ahead' == TxEntries(r.BytesFrom(pos')) && |ahead'| < |ahead|
    ensures done'.dropped == done.dropped || done'.dropped == done.dropped + 1
    ensures h.txDropped == if done'.dropped == done.dropped then old(h.txDropped) else Add32(old(h.txDropped), 1)
  {
    var read;
    read, tail', pos' := ReadNext(h, r, tail, pos);
    more, len', count' := AddRead(read, batch, len, count, done);
    done' := NextBatch(Text, done, read).0;
    ahead' := if ahead == [] then [] else ahead[1..];
  }

  /** Fills the batch from the ring. */
  method FillBatch(h: SharedRingHeader, r: Ring, batch: array<byte>)
    returns (len: nat, count: nat, tail: u32, ghost pos: nat)
    requires r.Valid() && batch != r.data && batch.Length == TX_BUFFER_SIZE
    modifies h`txDropped, batch
    ensures tail == pos % TWO_32 && r.ctrl.tailPos <= pos <= r.ctrl.headPos
    ensures
      var filled := SlcanBatch(TxEntries(r.Bytes()));
      && len <= batch.Length && batch[..len] == filled.text && count == |filled.frames|
      && pos == r.ctrl.tailPos + filled.consumed
      && h.txDropped == Counted(old(h.txDropped), filled.dropped)
  {
    len, count, tail, pos := 0, 0, r.ctrl.tail, r.ctrl.tailPos;
    var more := true;
    ghost var ahead := TxEntries(r.Bytes());
    ghost var all, done := ahead, EMPTY;
    while more
      modifies h`txDropped, batch
      invariant tail == pos % TWO_32 && r.ctrl.tailPos <= pos <= r.ctrl.headPos
      invariant pos == r.ctrl.tailPos + done.consumed
      invariant len <= batch.Length && batch[..len] == done.text && count == |done.frames|
      invariant h.txDropped == Counted(old(h.txDropped), done.dropped)
      invariant more ==> ahead == TxEntries(r.BytesFrom(pos))
      invariant SlcanBatch(all) == if more then Fill(Text, done, ahead) else done
      decreases more, |ahead|
    {
      more, len, count, tail, pos, done, ahead := FillRound(h, r, batch, len, count, tail, pos, done, ahead);
    }
  }

  /** Publishes the tail behind the frames sent and counts them. */
  method PublishSent(h: SharedRingHeader, r: Ring, tail: u32, ghost pos: nat, count: nat)
    requires r.Valid() && tail == pos % TWO_32 && r.ctrl.tailPos <= pos <= r.ctrl.headPos
    modifies h`txDrainCount, r.ctrl
    ensures r.Valid()
    ensures r.Bytes() == old(r.Bytes())[pos - old(r.ctrl.tailPos)..]
    ensures h.txDrainCount == Counted(old(h.txDrainCount), count)
  {
    LocalTailAdvance(r.Region(), r.ctrl.tailPos, |r.Bytes()|, pos - r.ctrl.tailPos);
    r.StoreTail(tail, pos);
    CountedIsModular(h.txDrainCount, count);
    h.txDrainCount := (h.txDrainCount + count) % TWO_32;
  }

  /** Fills a batch from one ring, sends it, and on success publishes the tail.
      `result` is the send callback's answer. */
  method DrainRing(h: SharedRingHeader, r: Ring, result: Status) returns (status: Status, sent: seq<byte>)
    requires r.Valid()
    modifies h`txDropped, h`txDrainCount, r.ctrl
    ensures r.Valid()
    ensures
      var b := old(r.Bytes());
      var batch := SlcanBatch(TxEntries(b));
      var delivered := batch.frames != [] && result == Success;
      && sent == batch.text
      && status == (if batch.frames == [] then Success else result)
      && batch.consumed <= |b|
      && r.Bytes() == (if delivered then b[batch.consumed..] else b)
      && h.txDrainCount == Counted(old(h.txDrainCount), if delivered then |batch.frames| else 0)
      && h.txDropped == Counted(old(h.txDropped), batch.dropped)
  {
    ghost var b := r.Bytes();
    ghost var filled := SlcanBatch(TxEntries(b));
    var batch := new byte[TX_BUFFER_SIZE];
    assert r.Bytes() == b;
    var len, count, tail;
    ghost var pos;
    len, count, tail, pos := FillBatch(h, r, batch);
    sent := batch[..len];
    FramesHaveText(Text, EMPTY, TxEntries(b));
    if len == 0 {
      return Success, sent;
    }
    if result == Success && count > 0 {
      PublishSent(h, r, tail, pos, count);
    }
    status := result;
  }

  /** The drain, which gives up at once while a transfer is in flight. */
  method DrainTx(h: SharedRingHeader, txInFlight: bool, result: Status)
    returns (status: Status, sent: seq<byte>)
    requires h.Valid()
    modifies h`txDropped, h`txDrainCount, h.tx0
    ensures h.Valid()
    ensures h.RxRing().Bytes() == old(h.RxRing().Bytes())
    ensures h.Tx1Ring().Bytes() == old(h.Tx1Ring().Bytes())
    ensures
      var b := old(h.Tx0Ring().Bytes());
      var batch := if txInFlight then EMPTY else SlcanBatch(TxEntries(b));
      var delivered := batch.frames != [] && result == Success;
      && sent == batch.text
      && status == (if txInFlight then Busy else if batch.frames == [] then Success else result)
      && batch.consumed <= |b|
      && h.Tx0Ring().Bytes() == (if delivered then b[batch.consumed..] else b)
      && h.txDrainCount == Counted(old(h.txDrainCount), if delivered then |batch.frames| else 0)
      && h.txDropped == Counted(old(h.txDropped), batch.dropped)
  {
    if txInFlight {
      return Busy, [];
    }
    status, sent := DrainRing(h, h.Tx0Ring(), result);
  }

  // ---- What a drain does to a queue of frames ----

  function Joined(text: Frame -> seq<byte>, fs: seq<Frame>): seq<byte>
    decreases |fs|
  {
    if fs == [] then [] else text(fs[0]) + Joined(text, fs[1..])
  }

  /** How many of the frames of a queue fit into `room` bytes. */
  function Fitting(text: Frame -> seq<byte>, fs: seq<Frame>, room: nat): (k: nat)
    ensures k <= |fs|
    decreases |fs|
  {
    if fs == [] || |text(fs[0])| > room then 0 else 1 + Fitting(text, fs[1..], room - |text(fs[0])|)
  }

  /** As many as possible, and all of them only if the whole queue fits. */
  lemma {:induction false} FittingIsMaximal(text: Frame -> seq<byte>, fs: seq<Frame>, room: nat)
    ensures
      var k := Fitting(text, fs, room);
      && |Joined(text, fs[..k])| <= room
      && (k < |fs| ==> |Joined(text, fs[..k + 1])| > room)
      && (k == |fs| <==> |Joined(text, fs)| <= room)
    decreases |fs|
  {
    if fs != [] {
      var k := Fitting(text, fs, room);
      assert fs[..1] == [fs[0]];
      if |text(fs[0])| <= room {
        FittingIsMaximal(text, fs[1..], room - |text(fs[0])|);
        assert fs[..k][1..] == fs[1..][..k - 1];
        assert k < |fs| ==> fs[..k + 1][1..] == fs[1..][..k];
      }
    }
  }

  function Entries(fs: seq<Frame>): seq<TxParse> {
    seq(|fs|, i requires 0 <= i < |fs| => TxFrame(fs[i], TX_ENTRY_SIZE))
  }

  /** How many frames the tail passes: the frame that does not fit, too. */
  function Passed(fs: seq<Frame>, fitting: nat): (n: nat)
    requires fitting <= |fs|
    ensures n <= |fs|
  {
    if fitting < |fs| then fitting + 1 else fitting
  }

  lemma FillFirst(text: Frame -> seq<byte>, done: Batch, fs: seq<Frame>)
    requires fs != []
    ensures
      var next := NextBatch(text, done, TxFrame(fs[0], TX_ENTRY_SIZE));
      Fill(text, done, Entries(fs)) == if next.1 then Fill(text, next.0, Entries(fs[1..])) else next.0
  {
    assert Entries(fs)[1..] == Entries(fs[1..]);
  }

  lemma {:induction false} FillQueue(text: Frame -> seq<byte>, done: Batch, fs: seq<Frame>)
    requires |done.text| <= TX_BUFFER_SIZE
    ensures
      var k := Fitting(text, fs, TX_BUFFER_SIZE - |done.text|);
      var batch := Fill(text, done, Entries(fs));
      && batch.frames == done.frames + fs[..k]
      && batch.text == done.text + Joined(text, fs[..k])
      && batch.consumed == done.consumed + TX_ENTRY_SIZE * Passed(fs, k)
      && batch.dropped == done.dropped
    decreases |fs|
  {
    assert done.frames + [] == done.frames && done.text + [] == done.text;
    if fs != [] {
      FillFirst(text, done, fs);
      var next := NextBatch(text, done, TxFrame(fs[0], TX_ENTRY_SIZE));
      if next.1 {
        FillQueue(text, next.0, fs[1..]);
        var k := Fitting(text, fs[1..], TX_BUFFER_SIZE - |next.0.text|);
        assert fs[..k + 1] == [fs[0]] + fs[1..][..k] && fs[..k + 1][1..] == fs[1..][..k];
        AppendFirst(done.frames, fs[0], fs[1..][..k]);
        assert (done.text + text(fs[0])) + Joined(text, fs[1..][..k]) == done.text + Joined(text, fs[..k + 1]);
      }
    }
  }

  lemma {:induction false} TextsAreJoined(fs: seq<Frame>)
    ensures Joined(Text, fs) == Texts(fs)
    decreases |fs|
  {
    if fs != [] {
      TextsAreJoined(fs[1..]);
    }
  }

  /** How many frames of a queue one successful drain sends, and how many it removes. */
  function Sent(fs: seq<Frame>): (n: nat)
    ensures n <= |fs|
  {
    Fitting(Text, fs, TX_BUFFER_SIZE)
  }

  function Removed(fs: seq<Frame>): (n: nat)
    ensures Sent(fs) <= n <= |fs| && n <= Sent(fs) + 1
  {
    Passed(fs, Sent(fs))
  }

  /** A drain of a queue of frames: the longest prefix that fits is sent, and the
      tail moves past one frame more if there is one. */
  lemma DrainOfQueue(fs: seq<Frame>)
    ensures
      var b := TxStream(fs);
      var batch := SlcanBatch(TxEntries(b));
      && batch.frames == fs[..Sent(fs)]
      && batch.text == Texts(fs[..Sent(fs)])
      && batch.dropped == 0
      && batch.consumed <= |b| && b[batch.consumed..] == TxStream(fs[Removed(fs)..])
  {
    var sent := fs[..Sent(fs)];
    TxEntriesOfStream(fs);
    FillQueue(Text, EMPTY, fs);
    TextsAreJoined(sent);
    assert [] + sent == sent && [] + Texts(sent) == Texts(sent);
    TxStreamRest(fs, Removed(fs));
  }

  /** No frame is lost exactly if the encodings of all pending frames fit into one
      batch; otherwise exactly one is, the first that does not fit. */
  lemma NothingLostIffBatchFits(fs: seq<Frame>)
    ensures |Texts(fs[..Sent(fs)])| <= TX_BUFFER_SIZE
    ensures Sent(fs) < |fs| ==> |Texts(fs[..Sent(fs) + 1])| > TX_BUFFER_SIZE
    ensures Sent(fs) == Removed(fs) <==> |Texts(fs)| <= TX_BUFFER_SIZE
    ensures Sent(fs) == Removed(fs) ==> Sent(fs) == |fs|
  {
    FittingIsMaximal(Text, fs, TX_BUFFER_SIZE);
    TextsAreJoined(fs);
    TextsAreJoined(fs[..Sent(fs)]);
    if Sent(fs) < |fs| {
      TextsAreJoined(fs[..Sent(fs) + 1]);
    }
  }

  lemma {:induction false} JoinedOfSameSize(text: Frame -> seq<byte>, fs: seq<Frame>, n: nat)
    requires forall i :: 0 <= i < |fs| ==> |text(fs[i])| == n
    ensures |Joined(text, fs)| == n * |fs|
    decreases |fs|
  {
    if fs != [] {
      JoinedOfSameSize(text, fs[1..], n);
      assert n * |fs| == n + n * (|fs| - 1);
    }
  }

  lemma TextsOfLongFrame(f: Frame, n: nat)
    requires IsFd(f) && IsExtended(f.canId) && f.len == CANFD_MAX_DLEN
    ensures |Texts(seq(n, i => f))| == 139 * n
  {
    JoinedOfSameSize(Text, seq(n, i => f), 139);
    TextsAreJoined(seq(n, i => f));
  }

  /** Thirty of the longest frames fill an eighth of the ring; one drain sends 29 of them
      and removes all 30. */
  lemma ThirtyLongFramesLoseOne(f: Frame)
    requires IsFd(f) && IsExtended(f.canId) && f.len == CANFD_MAX_DLEN
    ensures
      var fs := seq(30, i => f);
      && |TxStream(fs)| <= TX0_CAPACITY
      && Sent(fs) == 29 && Removed(fs) == 30
      && SlcanBatch(TxEntries(TxStream(fs))).frames == fs[..29]
      && SlcanBatch(TxEntries(TxStream(fs))).consumed == |TxStream(fs)|
  {
    var fs := seq(30, i => f);
    TxStreamLength(fs);
    DrainOfQueue(fs);
    NothingLostIffBatchFits(fs);
    TextsOfLongFrame(f, 30);
    TextsOfLongFrame(f, Sent(fs));
    TextsOfLongFrame(f, Removed(fs));
    assert fs[..Sent(fs)] == seq(Sent(fs), i => f);
    assert fs[..Removed(fs)] == seq(Removed(fs), i => f);
  }

  /** From the ring to the other end of the line: the frames of a queue that fits
      into one batch, sent and received in any chunks, come out as they were queued,
      and the ring is empty. */
  lemma DrainedFramesArrive(fs: seq<Frame>, chunks: seq<seq<byte>>, a: Acc)
    requires forall f :: f in fs ==> Canonical(f)
    requires |Texts(fs)| <= TX_BUFFER_SIZE && a.line == []
    requires Flatten(chunks) == SlcanBatch(TxEntries(TxStream(fs))).text
    ensures FeedChunks(a, chunks).1 == fs
    ensures SlcanBatch(TxEntries(TxStream(fs))).consumed == |TxStream(fs)|
  {
    DrainOfQueue(fs);
    NothingLostIffBatchFits(fs);
    assert fs[..|fs|] == fs;
    EncodedFramesArrive(fs, chunks, a);
  }

  lemma {:induction false} FillShifted(text: Frame -> seq<byte>, done: Batch, entries: seq<TxParse>, n: nat)
    ensures
      var batch := Fill(text, done, entries);
      Fill(text, done.(consumed := done.consumed + n, dropped := done.dropped + 1), entries)
        == batch.(consumed := batch.consumed + n, dropped := batch.dropped + 1)
    decreases |entries|
  {
    if entries != [] && NextBatch(text, done, entries[0]).1 {
      FillShifted(text, NextBatch(text, done, entries[0]).0, entries[1..], n);
    }
  }

  /** An entry of invalid size before the others is passed and counted, and changes nothing
      else of the batch. */
  lemma InvalidEntryIsPassed(n: u16, payload: seq<byte>, rest: seq<byte>)
    requires n != 16 && n != 72 && |payload| == n
    ensures
      var batch := SlcanBatch(TxEntries(rest));
      SlcanBatch(TxEntries(Announced(n, payload) + rest))
        == batch.(consumed := batch.consumed + (n as int + 2), dropped := batch.dropped + 1)
  {
    var b := Announced(n, payload) + rest;
    ParseTxCases(n, payload, rest);
    assert b[n as int + 2..] == rest;
    assert TxEntries(b) == [TxDropped(n as int + 2)] + TxEntries(rest);
    FillShifted(Text, EMPTY, TxEntries(rest), n as int + 2);
  }
}
