/**
 The byte streams of the rings: what a whole drain makes of the bytes it finds,
 and the bytes of a queue of packets or frames.
 */
module RingStream {
  import opened MachineInts
  import opened CanFrame
  import opened RingEntry

  /** The packets of a byte stream, up to the first incomplete entry. */
  function Drained(b: seq<byte>): (r: (seq<Packet>, seq<byte>))
    ensures |r.1| <= |b|
    decreases |b|
  {
    match ParseRx(b)
    case RxIncomplete => ([], b)
    case RxSkip(n) => Drained(b[n..])
    case RxPacket(p, n) =>
      var rest := Drained(b[n..]);
      ([p] + rest.0, rest.1)
  }

  /** A drain that has already handed on `ps` and still has `b` to look at. */
  function DrainedAfter(ps: seq<Packet>, b: seq<byte>): (seq<Packet>, seq<byte>) {
    (ps + Drained(b).0, Drained(b).1)
  }

  lemma DrainedAfterStep(ps: seq<Packet>, b: seq<byte>)
    ensures DrainedAfter([], b) == Drained(b)
    ensures ParseRx(b).RxIncomplete? ==> DrainedAfter(ps, b) == (ps, b)
    ensures ParseRx(b).RxSkip? ==> DrainedAfter(ps, b) == DrainedAfter(ps, b[ParseRx(b).size..])
    ensures ParseRx(b).RxPacket? ==>
      DrainedAfter(ps, b) == DrainedAfter(ps + [ParseRx(b).packet], b[ParseRx(b).size..])
  {
    assert [] + Drained(b).0 == Drained(b).0;
    assert ps + [] == ps;
    if ParseRx(b).RxPacket? {
      var p, rest := ParseRx(b).packet, Drained(b[ParseRx(b).size..]).0;
      assert ps + ([p] + rest) == (ps + [p]) + rest;
    }
  }

  lemma DrainedAfterAll(ps: seq<Packet>)
    ensures DrainedAfter(ps, []) == (ps, [])
  {
    assert ps + [] == ps;
  }

  lemma AppendFirst<T>(front: seq<T>, x: T, rest: seq<T>)
    ensures (front + [x]) + rest == front + ([x] + rest)
  {
  }

  function Flatten(entries: seq<seq<byte>>): seq<byte> {
    if entries == [] then [] else entries[0] + Flatten(entries[1..])
  }

  lemma {:induction false} FlattenAppend(entries: seq<seq<byte>>, e: seq<byte>)
    ensures Flatten(entries + [e]) == Flatten(entries) + e
  {
    if entries == [] {
      assert Flatten([e]) == e + Flatten([e][1..]);
    } else {
      FlattenAppend(entries[1..], e);
      assert (entries + [e])[1..] == entries[1..] + [e];
      assert Flatten(entries + [e]) == entries[0] + (Flatten(entries[1..]) + e);
    }
  }

  /** The bytes of a queue of packets, and of a queue of frames. */
  function RxStream(ps: seq<Packet>): seq<byte> {
    Flatten(seq(|ps|, i requires 0 <= i < |ps| => RxEntry(ps[i])))
  }

  function TxStream(fs: seq<Frame>): seq<byte> {
    Flatten(seq(|fs|, i requires 0 <= i < |fs| => TxEntry(fs[i])))
  }

  lemma RxStreamAppend(ps: seq<Packet>, p: Packet)
    ensures RxStream(ps + [p]) == RxStream(ps) + RxEntry(p)
  {
    var entries := seq(|ps|, i requires 0 <= i < |ps| => RxEntry(ps[i]));
    assert seq(|ps + [p]|, i requires 0 <= i < |ps + [p]| => RxEntry((ps + [p])[i])) == entries + [RxEntry(p)];
    FlattenAppend(entries, RxEntry(p));
  }

  lemma TxStreamAppend(fs: seq<Frame>, f: Frame)
    ensures TxStream(fs + [f]) == TxStream(fs) + TxEntry(f)
  {
    var entries := seq(|fs|, i requires 0 <= i < |fs| => TxEntry(fs[i]));
    assert seq(|fs + [f]|, i requires 0 <= i < |fs + [f]| => TxEntry((fs + [f])[i])) == entries + [TxEntry(f)];
    FlattenAppend(entries, TxEntry(f));
  }

  lemma RxStreamFirst(ps: seq<Packet>)
    requires ps != []
    ensures RxStream(ps) == RxEntry(ps[0]) + RxStream(ps[1..])
  {
    var entries := seq(|ps|, i requires 0 <= i < |ps| => RxEntry(ps[i]));
    assert entries[1..] == seq(|ps[1..]|, i requires 0 <= i < |ps[1..]| => RxEntry(ps[1..][i]));
  }

  lemma TxStreamFirst(fs: seq<Frame>)
    requires fs != []
    ensures TxStream(fs) == TxEntry(fs[0]) + TxStream(fs[1..])
  {
    var entries := seq(|fs|, i requires 0 <= i < |fs| => TxEntry(fs[i]));
    assert entries[1..] == seq(|fs[1..]|, i requires 0 <= i < |fs[1..]| => TxEntry(fs[1..][i]));
  }

  /** Draining the bytes of a queue of packets gives back that queue. */
  lemma {:induction false} DrainedRoundTrip(ps: seq<Packet>)
    ensures Drained(RxStream(ps)) == (ps, [])
  {
    if ps == [] {
    } else {
      var rest := RxStream(ps[1..]);
      RxStreamFirst(ps);
      ParseRxFirst(ps[0], rest);
      assert RxStream(ps)[RX_ENTRY_SIZE..] == rest;
      DrainedRoundTrip(ps[1..]);
      assert [ps[0]] + ps[1..] == ps;
    }
  }

  lemma {:induction false} FlattenLength(entries: seq<seq<byte>>, n: nat)
    requires forall i :: 0 <= i < |entries| ==> |entries[i]| == n
    ensures |Flatten(entries)| == n * |entries|
  {
    if entries != [] {
      FlattenLength(entries[1..], n);
    }
  }

  lemma RxStreamLength(ps: seq<Packet>)
    ensures |RxStream(ps)| == RX_ENTRY_SIZE * |ps|
  {
    FlattenLength(seq(|ps|, i requires 0 <= i < |ps| => RxEntry(ps[i])), RX_ENTRY_SIZE);
  }

  lemma TxStreamLength(fs: seq<Frame>)
    ensures |TxStream(fs)| == TX_ENTRY_SIZE * |fs|
  {
    FlattenLength(seq(|fs|, i requires 0 <= i < |fs| => TxEntry(fs[i])), TX_ENTRY_SIZE);
  }

  /** A consumer that parses the first entry of a queue of frames gets its first
      frame, and behind it the rest of the queue. */
  lemma ParseTxStream(fs: seq<Frame>)
    requires fs != []
    ensures ParseTx(TxStream(fs)) == TxFrame(fs[0], TX_ENTRY_SIZE)
    ensures TxStream(fs)[TX_ENTRY_SIZE..] == TxStream(fs[1..])
  {
    TxStreamFirst(fs);
    ParseTxFirst(fs[0], TxStream(fs[1..]));
  }

  // ---- The entries of a TX ring ----

  /** The complete entries of a byte stream, whatever their size. */
  function TxEntries(b: seq<byte>): (r: seq<TxParse>)
    ensures forall i :: 0 <= i < |r| ==> !r[i].TxIncomplete?
    decreases |b|
  {
    var p := ParseTx(b);
    if p.TxIncomplete? then [] else [p] + TxEntries(b[p.size..])
  }

  /** What a consumer reads next, and what is then still ahead of it. */
  function NextEntry(entries: seq<TxParse>): TxParse {
    if entries == [] then TxIncomplete else entries[0]
  }

  lemma TxEntriesNext(b: seq<byte>)
    ensures ParseTx(b) == NextEntry(TxEntries(b))
    ensures TxEntries(b) != [] ==> ParseTx(b).size <= |b| && TxEntries(b[ParseTx(b).size..]) == TxEntries(b)[1..]
  {
  }

  /** The entries of a queue of frames are those frames. */
  lemma {:induction false} TxEntriesOfStream(fs: seq<Frame>)
    ensures TxEntries(TxStream(fs)) == seq(|fs|, i requires 0 <= i < |fs| => TxFrame(fs[i], TX_ENTRY_SIZE))
    decreases |fs|
  {
    if fs != [] {
      ParseTxStream(fs);
      TxEntriesOfStream(fs[1..]);
    }
  }

  lemma SuffixOfSuffix(b: seq<byte>, i: nat, j: nat)
    requires i + j <= |b|
    ensures b[i..][j..] == b[i + j..]
  {
  }

  lemma {:induction false} TxStreamRest(fs: seq<Frame>, n: nat)
    requires n <= |fs|
    ensures TX_ENTRY_SIZE * n <= |TxStream(fs)|
    ensures TxStream(fs)[TX_ENTRY_SIZE * n..] == TxStream(fs[n..])
    decreases n
  {
    if n == 0 {
      assert fs[0..] == fs;
    } else {
      ParseTxStream(fs);
      TxStreamLength(fs);
      TxStreamRest(fs[1..], n - 1);
      assert fs[1..][n - 1..] == fs[n..];
      SuffixOfSuffix(TxStream(fs), TX_ENTRY_SIZE, TX_ENTRY_SIZE * (n - 1));
    }
  }

  /** The bytes behind the leading entries of invalid size, and how many there are. */
  function SkipDropped(b: seq<byte>): (r: (seq<byte>, nat))
    ensures !ParseTx(r.0).TxDropped?
    decreases |b|
  {
    var p := ParseTx(b);
    if p.TxDropped? then
      var rest := SkipDropped(b[p.size..]);
      (rest.0, rest.1 + 1)
    else (b, 0)
  }

  lemma SkipDroppedNext(b: seq<byte>)
    ensures !ParseTx(b).TxDropped? ==> SkipDropped(b) == (b, 0)
    ensures ParseTx(b).TxDropped? ==>
      && SkipDropped(b).0 == SkipDropped(b[ParseTx(b).size..]).0
      && SkipDropped(b).1 == SkipDropped(b[ParseTx(b).size..]).1 + 1
  {
  }

  // ---- Entries of invalid size ----

  /** A drain passes over an entry of invalid size and goes on behind it. */
  lemma DrainedSkips(n: u16, stamp: seq<byte>, payload: seq<byte>, ps: seq<Packet>)
    requires n != 16 && n != 72 && |stamp| == 8 && |payload| == n
    ensures Drained(Announced(n, stamp + payload) + RxStream(ps)) == (ps, [])
  {
    var b := Announced(n, stamp + payload) + RxStream(ps);
    ParseRxCases(n, stamp, payload, RxStream(ps));
    assert b[n as int + 10..] == RxStream(ps);
    DrainedRoundTrip(ps);
  }

  lemma SkipsOne(n: u16, payload: seq<byte>, rest: seq<byte>)
    requires n != 16 && n != 72 && |payload| == n
    ensures SkipDropped(Announced(n, payload) + rest) == (SkipDropped(rest).0, SkipDropped(rest).1 + 1)
  {
    ParseTxCases(n, payload, rest);
    assert (Announced(n, payload) + rest)[n as int + 2..] == rest;
    SkipDroppedNext(Announced(n, payload) + rest);
  }

  /** Entries of invalid size before a queue of frames are passed and counted. */
  lemma {:induction false} SkipsAll(ns: seq<u16>, payloads: seq<seq<byte>>, fs: seq<Frame>)
    requires |ns| == |payloads|
    requires forall i :: 0 <= i < |ns| ==> ns[i] != 16 && ns[i] != 72 && |payloads[i]| == ns[i]
    ensures SkipDropped(InvalidEntries(ns, payloads) + TxStream(fs)) == (TxStream(fs), |ns|)
    decreases |ns|
  {
    if ns == [] {
      assert [] + TxStream(fs) == TxStream(fs);
      if fs != [] {
        ParseTxStream(fs);
      }
    } else {
      var rest := InvalidEntries(ns[1..], payloads[1..]) + TxStream(fs);
      assert InvalidEntries(ns, payloads) + TxStream(fs) == Announced(ns[0], payloads[0]) + rest;
      SkipsOne(ns[0], payloads[0], rest);
      SkipsAll(ns[1..], payloads[1..], fs);
    }
  }

  function InvalidEntries(ns: seq<u16>, payloads: seq<seq<byte>>): seq<byte>
    requires |ns| == |payloads|
    decreases |ns|
  {
    if ns == [] then [] else Announced(ns[0], payloads[0]) + InvalidEntries(ns[1..], payloads[1..])
  }
}
