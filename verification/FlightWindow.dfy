/**
 Delivery tracker (ican/perf/FlightWindow.hpp): a 16384-bit circular bitmap of
 acknowledged sequence numbers, harvested in 64-bit words by a reaper. A word is
 modelled as the set of its one bits, so fetch_or of a bit adds an element,
 exchange(0) hands over the set and popcount is its cardinality.
 */
module FlightWindow {

  const CAPACITY := 16384
  const WORD_BITS := 64
  const BITMAP_WORDS := 256
  const GRACE_ENTRIES := 8000

  type Word = set<nat>

  /** All fields of the tracker, as a value. */
  datatype Tracker = Tracker(
    head: nat, words: seq<Word>,
    base: nat, sent: nat, confirmed: nat,
    rxCalls: nat, staleRejects: nat, reapedRejects: nat)

  function WordOf(q: nat): (i: nat)
    ensures i < BITMAP_WORDS
  {
    q % CAPACITY / WORD_BITS
  }

  function BitOf(q: nat): (b: nat)
    ensures b < WORD_BITS
  {
    q % CAPACITY % WORD_BITS
  }

  ghost predicate HasBit(words: seq<Word>, q: nat)
    requires |words| == BITMAP_WORDS
  {
    BitOf(q) in words[WordOf(q)]
  }

  // ---- What each operation does ----

  function EmptyWords(n: nat): seq<Word> {
    seq<Word>(n, i => {})
  }

  function Fresh(): Tracker {
    Tracker(0, EmptyWords(BITMAP_WORDS), 0, 0, 0, 0, 0, 0)
  }

  function TxSent(t: Tracker, q: nat): Tracker {
    t.(head := q + 1)
  }

  predicate IsStale(head: nat, q: nat) {
    head > q && head - q > CAPACITY
  }

  predicate Accepts(t: Tracker, q: nat) {
    !IsStale(t.head, q) && t.base <= q
  }

  function SetBit(words: seq<Word>, q: nat): seq<Word>
    requires |words| == BITMAP_WORDS
  {
    words[WordOf(q) := words[WordOf(q)] + {BitOf(q)}]
  }

  function RxReceived(t: Tracker, q: nat): Tracker
    requires |t.words| == BITMAP_WORDS
  {
    var t := t.(rxCalls := t.rxCalls + 1);
    if IsStale(t.head, q) then t.(staleRejects := t.staleRejects + 1)
    else if q < t.base then t.(reapedRejects := t.reapedRejects + 1)
    else t.(words := SetBit(t.words, q))
  }

  predicate Reapable(base: nat, head: nat) {
    base + WORD_BITS + GRACE_ENTRIES <= head
  }

  function ReapChunk(t: Tracker): Tracker
    requires |t.words| == BITMAP_WORDS
  {
    t.(words := t.words[WordOf(t.base) := {}],
       sent := t.sent + WORD_BITS,
       confirmed := t.confirmed + |t.words[WordOf(t.base)]|,
       base := t.base + WORD_BITS)
  }

  function Reap(t: Tracker): (r: Tracker)
    requires |t.words| == BITMAP_WORDS
    ensures |r.words| == BITMAP_WORDS
    decreases t.head - t.base
  {
    if Reapable(t.base, t.head) then Reap(ReapChunk(t)) else t
  }

  // ---- Counters that need no assumption ----

  ghost predicate WordsOk(words: seq<Word>) {
    && |words| == BITMAP_WORDS
    && forall i, b :: 0 <= i < BITMAP_WORDS && b in words[i] ==> b < WORD_BITS
  }

  ghost function Popcount(words: seq<Word>): nat {
    if words == [] then 0 else |words[0]| + Popcount(words[1..])
  }

  lemma {:induction false} PopcountUpdate(words: seq<Word>, i: nat, w: Word)
    requires i < |words|
    ensures Popcount(words[i := w]) == Popcount(words) - |words[i]| + |w|
  {
    if i == 0 {
      assert words[0 := w][1..] == words[1..];
    } else {
      PopcountUpdate(words[1..], i - 1, w);
      assert words[i := w][1..] == words[1..][i - 1 := w];
    }
  }

  lemma {:induction false} PopcountEmpty(n: nat)
    ensures Popcount(EmptyWords(n)) == 0
  {
    if n > 0 {
      PopcountEmpty(n - 1);
      assert EmptyWords(n)[1..] == EmptyWords(n - 1);
    }
  }

  lemma {:induction false} BoundedSetSize(s: set<nat>, n: nat)
    requires forall x :: x in s ==> x < n
    ensures |s| <= n
  {
    if n == 0 {
      assert s == {};
    } else {
      BoundedSetSize(s - {n - 1}, n - 1);
    }
  }

  ghost predicate Accounted(t: Tracker) {
    && WordsOk(t.words)
    && t.base % WORD_BITS == 0
    && t.confirmed <= t.sent == t.base
    && t.confirmed + Popcount(t.words) + t.staleRejects + t.reapedRejects <= t.rxCalls
  }

  lemma FreshIsAccounted()
    ensures Accounted(Fresh())
  {
    PopcountEmpty(BITMAP_WORDS);
  }

  lemma SetBitPopcount(words: seq<Word>, q: nat)
    requires WordsOk(words)
    ensures WordsOk(SetBit(words, q))
    ensures Popcount(SetBit(words, q)) <= Popcount(words) + 1
  {
    PopcountUpdate(words, WordOf(q), words[WordOf(q)] + {BitOf(q)});
  }

  lemma RxKeepsAccounted(t: Tracker, q: nat)
    requires Accounted(t)
    ensures Accounted(RxReceived(t, q))
  {
    SetBitPopcount(t.words, q);
  }

  lemma ChunkKeepsAccounted(t: Tracker)
    requires Accounted(t)
    ensures Accounted(ReapChunk(t))
  {
    PopcountUpdate(t.words, WordOf(t.base), {});
    BoundedSetSize(t.words[WordOf(t.base)], WORD_BITS);
  }

  lemma {:induction false} ReapKeepsAccounted(t: Tracker)
    requires Accounted(t)
    ensures Accounted(Reap(t))
    decreases t.head - t.base
  {
    if Reapable(t.base, t.head) {
      ChunkKeepsAccounted(t);
      ReapKeepsAccounted(ReapChunk(t));
    }
  }

  // ---- Agreement with the plain set of acknowledged numbers ----

  /** On the window of one capacity from `lo`, the bitmap is the set `acked`. */
  ghost predicate BitsAgree(words: seq<Word>, acked: set<nat>, lo: nat)
    requires |words| == BITMAP_WORDS
  {
    forall q: nat :: lo <= q < lo + CAPACITY ==> (q in acked <==> HasBit(words, q))
  }

  ghost function Below(acked: set<nat>, n: nat): set<nat> {
    set q | q in acked && q < n
  }

  lemma WordOfSequence(q: nat)
    ensures WordOf(q) == q / WORD_BITS % BITMAP_WORDS
    ensures BitOf(q) == q % WORD_BITS
  {
  }

  /** Two numbers less than one capacity apart have different bits. */
  lemma BitsDiffer(p: nat, q: nat)
    requires p < q < p + CAPACITY
    ensures WordOf(p) != WordOf(q) || BitOf(p) != BitOf(q)
  {
    assert p % CAPACITY == WordOf(p) * WORD_BITS + BitOf(p);
    assert q % CAPACITY == WordOf(q) * WORD_BITS + BitOf(q);
  }

  /** The word at an aligned base holds the 64 numbers from base, and on the
      window after them no other number. */
  lemma ChunkWord(base: nat, q: nat)
    requires base % WORD_BITS == 0 && base <= q < base + CAPACITY + WORD_BITS
    ensures WordOf(q) == WordOf(base) <==> q < base + WORD_BITS || q >= base + CAPACITY
    ensures BitOf(q) == (q - base) % WORD_BITS
  {
    WordOfSequence(q);
    WordOfSequence(base);
    var m, d := base / WORD_BITS, (q - base) / WORD_BITS;
    assert q / WORD_BITS == m + d;
    assert 0 <= d <= BITMAP_WORDS;
    assert (m + d) % BITMAP_WORDS == m % BITMAP_WORDS <==> d == 0 || d == BITMAP_WORDS;
  }

  lemma SetBitAgrees(words: seq<Word>, acked: set<nat>, lo: nat, q: nat)
    requires WordsOk(words) && BitsAgree(words, acked, lo)
    requires lo <= q < lo + CAPACITY
    ensures BitsAgree(SetBit(words, q), acked + {q}, lo)
  {
    var words' := SetBit(words, q);
    forall p: nat | lo <= p < lo + CAPACITY
      ensures p in acked + {q} <==> HasBit(words', p)
    {
      if p < q {
        BitsDiffer(p, q);
      } else if q < p {
        BitsDiffer(q, p);
      }
      assert p != q ==> (HasBit(words', p) <==> HasBit(words, p));
    }
  }

  /** A bit set for a number outside the window belongs to another number inside it: the
      bitmap stays right exactly if that bit was set already. */
  lemma SetBitOutside(words: seq<Word>, acked: set<nat>, lo: nat, q: nat)
    requires WordsOk(words) && BitsAgree(words, acked, lo)
    requires q < lo || lo + CAPACITY <= q
    ensures BitsAgree(SetBit(words, q), acked + {q}, lo) <==> HasBit(words, q)
  {
    var words' := SetBit(words, q);
    if HasBit(words, q) {
      assert words[WordOf(q)] + {BitOf(q)} == words[WordOf(q)];
      assert words' == words;
    } else {
      var p := AliasInWindow(q, lo);
      assert HasBit(words', p) && p !in acked + {q};
    }
  }

  lemma AliasInWindow(q: nat, lo: nat) returns (p: nat)
    ensures lo <= p < lo + CAPACITY
    ensures WordOf(p) == WordOf(q) && BitOf(p) == BitOf(q)
  {
    p := lo + (q - lo) % CAPACITY;
    assert p % CAPACITY == q % CAPACITY;
  }

  /** No acknowledged number is in [from, to). */
  ghost predicate NoneIn(acked: set<nat>, from: nat, to: nat) {
    forall q :: q in acked ==> q < from || to <= q
  }

  /** After a word is cleared and the window moved on, the bitmap is right exactly if none
      of the numbers that enter the window was acknowledged before. */
  lemma ClearAgreesIff(words: seq<Word>, acked: set<nat>, base: nat)
    requires WordsOk(words) && BitsAgree(words, acked, base) && base % WORD_BITS == 0
    ensures BitsAgree(words[WordOf(base) := {}], acked, base + WORD_BITS)
      <==> NoneIn(acked, base + CAPACITY, base + CAPACITY + WORD_BITS)
  {
    var words' := words[WordOf(base) := {}];
    forall q: nat | base + WORD_BITS <= q < base + WORD_BITS + CAPACITY
      ensures HasBit(words', q) <==> q in acked && q < base + CAPACITY
    {
      ChunkWord(base, q);
      assert q < base + CAPACITY ==> (q in acked <==> HasBit(words, q));
    }
    if !NoneIn(acked, base + CAPACITY, base + CAPACITY + WORD_BITS) {
      var q :| q in acked && base + CAPACITY <= q < base + CAPACITY + WORD_BITS;
      assert !HasBit(words', q);
    }
  }

  /** The harvested word counts exactly the numbers of its chunk. */
  lemma HarvestCounts(words: seq<Word>, acked: set<nat>, base: nat)
    requires WordsOk(words) && BitsAgree(words, acked, base) && base % WORD_BITS == 0
    ensures |Below(acked, base + WORD_BITS)| == |Below(acked, base)| + |words[WordOf(base)]|
  {
    var bits := words[WordOf(base)];
    forall b | 0 <= b < WORD_BITS
      ensures b in bits <==> base + b in acked
    {
      ChunkWord(base, base + b);
      assert base + b in acked <==> HasBit(words, base + b);
    }
    ChunkCounts(bits, acked, base, WORD_BITS);
    assert Below(bits, WORD_BITS) == bits;
  }

  /** The first `n` bits of a word count the first `n` numbers of its chunk. */
  lemma {:induction false} ChunkCounts(bits: Word, acked: set<nat>, base: nat, n: nat)
    requires forall b :: 0 <= b < n ==> (b in bits <==> base + b in acked)
    ensures |Below(acked, base + n)| == |Below(acked, base)| + |Below(bits, n)|
  {
    if n == 0 {
      assert Below(bits, 0) == {};
    } else {
      ChunkCounts(bits, acked, base, n - 1);
      OneMore(acked, base + n - 1);
      OneMore(bits, n - 1);
    }
  }

  lemma OneMore(s: set<nat>, n: nat)
    ensures |Below(s, n + 1)| == |Below(s, n)| + if n in s then 1 else 0
  {
    assert Below(s, n + 1) == Below(s, n) + if n in s then {n} else {};
  }

  // ---- Whole runs of calls ----

  datatype Call = Sent(q: nat) | Received(q: nat) | Reaped | ResetAll

  /** A run so far: the tracker, the accepted acknowledgements, and the number of
      frames sent since the last reap. */
  datatype History = History(tracker: Tracker, acked: set<nat>, sinceReap: nat)

  function Start(): History {
    History(Fresh(), {}, 0)
  }

  function Apply(h: History, c: Call): (h': History)
    requires |h.tracker.words| == BITMAP_WORDS
    ensures |h'.tracker.words| == BITMAP_WORDS
  {
    match c
    case Sent(q) => h.(tracker := TxSent(h.tracker, q), sinceReap := h.sinceReap + 1)
    case Received(q) =>
      History(RxReceived(h.tracker, q), if Accepts(h.tracker, q) then h.acked + {q} else h.acked, h.sinceReap)
    case Reaped => History(Reap(h.tracker), h.acked, 0)
    case ResetAll => Start()
  }

  function Run(calls: seq<Call>): (h: History)
    ensures |h.tracker.words| == BITMAP_WORDS
  {
    if calls == [] then Start() else Apply(Run(calls[..|calls| - 1]), calls[|calls| - 1])
  }

  /** With no assumption on the calls: the totals are consistent and nothing is
      counted that was not received. */
  lemma {:induction false} RunIsAccounted(calls: seq<Call>)
    ensures Accounted(Run(calls).tracker)
  {
    FreshIsAccounted();
    if calls != [] {
      var before, c := Run(calls[..|calls| - 1]).tracker, calls[|calls| - 1];
      RunIsAccounted(calls[..|calls| - 1]);
      match c
      case Sent(q) =>
      case Received(q) => RxKeepsAccounted(before, q);
      case Reaped => ReapKeepsAccounted(before);
      case ResetAll =>
    }
  }

  const KEEP_UP := 8321

  /** Every frame carries the next sequence number, and fewer than 8321 frames
      were sent since the last reap when one more is sent. */
  ghost predicate KeepsUp(calls: seq<Call>) {
    forall i :: 0 <= i < |calls| && calls[i].Sent? ==>
      && calls[i].q == Run(calls[..i]).tracker.head
      && Run(calls[..i]).sinceReap < KEEP_UP
  }

  lemma {:induction false} ReapCatchesUp(t: Tracker)
    requires |t.words| == BITMAP_WORDS
    ensures Reap(t).head == t.head
    ensures t.base <= Reap(t).base
    ensures !Reapable(Reap(t).base, t.head)
    ensures Reap(t).base > t.base ==> Reap(t).base + GRACE_ENTRIES <= t.head
    decreases t.head - t.base
  {
    if Reapable(t.base, t.head) {
      ReapCatchesUp(ReapChunk(t));
    }
  }

  lemma {:induction false} HeadBound(calls: seq<Call>)
    requires KeepsUp(calls)
    ensures Run(calls).sinceReap <= KEEP_UP
    ensures Run(calls).tracker.head < Run(calls).tracker.base + WORD_BITS + GRACE_ENTRIES + Run(calls).sinceReap
  {
    if calls != [] {
      var earlier, c := calls[..|calls| - 1], calls[|calls| - 1];
      forall i | 0 <= i < |earlier| && earlier[i].Sent?
        ensures earlier[i].q == Run(earlier[..i]).tracker.head && Run(earlier[..i]).sinceReap < KEEP_UP
      {
        assert earlier[..i] == calls[..i] && earlier[i] == calls[i];
      }
      HeadBound(earlier);
      if c.Sent? {
        assert calls[|calls| - 1].Sent?;
      } else if c.Reaped? {
        ReapCatchesUp(Run(earlier).tracker);
      }
    }
  }

  /** At most 8321 frames between reaps: the unreaped frames fit in the bitmap. */
  lemma HeadStaysInWindow(calls: seq<Call>)
    requires KeepsUp(calls)
    ensures Run(calls).tracker.head <= Run(calls).tracker.base + CAPACITY
  {
    HeadBound(calls);
  }

  /** Bitmap and totals say exactly what the plain set of accepted numbers says. */
  ghost predicate Agrees(t: Tracker, acked: set<nat>)
    requires |t.words| == BITMAP_WORDS
  {
    && BitsAgree(t.words, acked, t.base)
    && t.confirmed == |Below(acked, t.base)|
  }

  /** Agreement, with nothing acknowledged past the window. */
  ghost predicate Exact(t: Tracker, acked: set<nat>)
    requires |t.words| == BITMAP_WORDS
  {
    Agrees(t, acked) && forall q :: q in acked ==> q < t.base + CAPACITY
  }

  lemma FreshIsExact()
    ensures Exact(Fresh(), {})
  {
    assert Below({}, 0) == {};
  }

  // ---- What each call does to the agreement ----

  /** Of an accepted number: in the window, or its bit is set already. */
  ghost predicate Lands(t: Tracker, q: nat)
    requires |t.words| == BITMAP_WORDS
  {
    q < t.base + CAPACITY || HasBit(t.words, q)
  }

  /** An accepted acknowledgement keeps the agreement exactly if it lands. */
  lemma AckAgreesIff(t: Tracker, acked: set<nat>, q: nat)
    requires Accounted(t) && Agrees(t, acked) && Accepts(t, q)
    ensures Agrees(RxReceived(t, q), acked + {q}) <==> Lands(t, q)
  {
    assert Below(acked + {q}, t.base) == Below(acked, t.base);
    if q < t.base + CAPACITY {
      SetBitAgrees(t.words, acked, t.base, q);
    } else {
      SetBitOutside(t.words, acked, t.base, q);
    }
  }

  lemma ChunkAgreesIff(t: Tracker, acked: set<nat>)
    requires Accounted(t) && Agrees(t, acked)
    ensures Agrees(ReapChunk(t), acked)
      <==> NoneIn(acked, t.base + CAPACITY, t.base + CAPACITY + WORD_BITS)
  {
    HarvestCounts(t.words, acked, t.base);
    ClearAgreesIff(t.words, acked, t.base);
  }

  /** Bits only for acknowledged numbers, and no number confirmed too often. */
  ghost predicate Undercounts(t: Tracker, acked: set<nat>)
    requires |t.words| == BITMAP_WORDS
  {
    && (forall p: nat :: t.base <= p < t.base + CAPACITY && HasBit(t.words, p) ==> p in acked)
    && t.confirmed <= |Below(acked, t.base)|
  }

  /** The acknowledgement of q left no bit, or was already passed over. */
  ghost predicate Misses(t: Tracker, acked: set<nat>, q: nat)
    requires |t.words| == BITMAP_WORDS
  {
    && q in acked && q < t.base + CAPACITY
    && (if t.base <= q then !HasBit(t.words, q) else t.confirmed < |Below(acked, t.base)|)
  }

  /** The bits of one chunk, when some may be missing. */
  lemma {:induction false} ChunkCountsAtMost(bits: Word, acked: set<nat>, base: nat, n: nat)
    requires forall b :: 0 <= b < n && b in bits ==> base + b in acked
    ensures |Below(acked, base)| + |Below(bits, n)| <= |Below(acked, base + n)|
    ensures (exists b :: 0 <= b < n && b !in bits && base + b in acked) ==>
      |Below(acked, base)| + |Below(bits, n)| < |Below(acked, base + n)|
  {
    if n == 0 {
      assert Below(bits, 0) == {};
    } else {
      ChunkCountsAtMost(bits, acked, base, n - 1);
      OneMore(acked, base + n - 1);
      OneMore(bits, n - 1);
    }
  }

  lemma ChunkBits(t: Tracker, b: nat)
    requires Accounted(t) && b < WORD_BITS
    ensures b in t.words[WordOf(t.base)] <==> HasBit(t.words, t.base + b)
  {
    ChunkWord(t.base, t.base + b);
  }

  lemma ChunkKeepsMiss(t: Tracker, acked: set<nat>, q: nat)
    requires Accounted(t) && Undercounts(t, acked) && Misses(t, acked, q)
    ensures Undercounts(ReapChunk(t), acked) && Misses(ReapChunk(t), acked, q)
  {
    var t', bits := ReapChunk(t), t.words[WordOf(t.base)];
    forall b | 0 <= b < WORD_BITS
      ensures b in bits <==> HasBit(t.words, t.base + b)
    {
      ChunkBits(t, b);
    }
    ChunkCountsAtMost(bits, acked, t.base, WORD_BITS);
    assert Below(bits, WORD_BITS) == bits;
    forall p: nat | t'.base <= p < t'.base + CAPACITY
      ensures HasBit(t'.words, p) ==> HasBit(t.words, p) && p < t.base + CAPACITY
    {
      ChunkWord(t.base, p);
    }
    if t.base <= q < t.base + WORD_BITS {
      assert q - t.base !in bits && t.base + (q - t.base) in acked;
    }
  }

  lemma {:induction false} ReapKeepsMiss(t: Tracker, acked: set<nat>, q: nat)
    requires Accounted(t) && Undercounts(t, acked) && Misses(t, acked, q)
    ensures !Agrees(Reap(t), acked)
    decreases t.head - t.base
  {
    if Reapable(t.base, t.head) {
      ChunkKeepsAccounted(t);
      ChunkKeepsMiss(t, acked, q);
      ReapKeepsMiss(ReapChunk(t), acked, q);
    }
  }

  lemma ChunkStartsMiss(t: Tracker, acked: set<nat>, q: nat)
    requires Accounted(t) && Agrees(t, acked)
    requires q in acked && t.base + CAPACITY <= q < t.base + CAPACITY + WORD_BITS
    ensures Undercounts(ReapChunk(t), acked) && Misses(ReapChunk(t), acked, q)
  {
    var t' := ReapChunk(t);
    HarvestCounts(t.words, acked, t.base);
    forall p: nat | t'.base <= p < t'.base + CAPACITY
      ensures HasBit(t'.words, p) ==> HasBit(t.words, p) && p < t.base + CAPACITY
    {
      ChunkWord(t.base, p);
    }
  }

  /** A reap keeps the agreement exactly if no number that enters the window was
      acknowledged before. */
  lemma {:induction false} ReapAgreesIff(t: Tracker, acked: set<nat>)
    requires Accounted(t) && Agrees(t, acked)
    ensures t.base <= Reap(t).base
    ensures Agrees(Reap(t), acked) <==> NoneIn(acked, t.base + CAPACITY, Reap(t).base + CAPACITY)
    decreases t.head - t.base
  {
    if Reapable(t.base, t.head) {
      var t' := ReapChunk(t);
      ChunkKeepsAccounted(t);
      ChunkAgreesIff(t, acked);
      ReapCatchesUp(t');
      if NoneIn(acked, t.base + CAPACITY, t.base + CAPACITY + WORD_BITS) {
        ReapAgreesIff(t', acked);
      } else {
        var q :| q in acked && t.base + CAPACITY <= q < t.base + CAPACITY + WORD_BITS;
        ChunkStartsMiss(t, acked, q);
        ReapKeepsMiss(t', acked, q);
      }
    }
  }

  // ---- What whole runs do ----

  ghost predicate AgreesAfter(calls: seq<Call>, n: nat)
    requires n <= |calls|
  {
    Agrees(Run(calls[..n]).tracker, Run(calls[..n]).acked)
  }

  /** Call i keeps the agreement: an accepted acknowledgement lands, and a reap brings no
      number into the window that was acknowledged before. */
  ghost predicate Harmless(calls: seq<Call>, i: nat)
    requires i < |calls|
  {
    var h := Run(calls[..i]);
    match calls[i]
    case Received(q) => Accepts(h.tracker, q) ==> Lands(h.tracker, q)
    case Reaped => NoneIn(h.acked, h.tracker.base + CAPACITY, Reap(h.tracker).base + CAPACITY)
    case _ => true
  }

  lemma CallAgreesIff(calls: seq<Call>, i: nat)
    requires i < |calls| && AgreesAfter(calls, i)
    ensures AgreesAfter(calls, i + 1) <==> Harmless(calls, i)
  {
    assert calls[..i + 1][..i] == calls[..i];
    var h := Run(calls[..i]);
    RunIsAccounted(calls[..i]);
    FreshIsExact();
    match calls[i]
    case Sent(q) =>
    case Received(q) =>
      if Accepts(h.tracker, q) {
        AckAgreesIff(h.tracker, h.acked, q);
      }
    case Reaped => ReapAgreesIff(h.tracker, h.acked);
    case ResetAll =>
  }

  lemma {:induction false} HarmlessRunAgrees(calls: seq<Call>, n: nat)
    requires n <= |calls| && forall i :: 0 <= i < n ==> Harmless(calls, i)
    ensures AgreesAfter(calls, n)
  {
    if n == 0 {
      FreshIsExact();
      assert calls[..0] == [];
    } else {
      HarmlessRunAgrees(calls, n - 1);
      CallAgreesIff(calls, n - 1);
    }
  }

  /** Bitmap and totals agree with the set of accepted numbers after every call if and
      only if every call is harmless. */
  lemma AgreesIffHarmless(calls: seq<Call>)
    ensures (forall n :: 0 <= n <= |calls| ==> AgreesAfter(calls, n))
      <==> (forall i :: 0 <= i < |calls| ==> Harmless(calls, i))
  {
    if forall i :: 0 <= i < |calls| ==> Harmless(calls, i) {
      forall n | 0 <= n <= |calls|
        ensures AgreesAfter(calls, n)
      {
        HarmlessRunAgrees(calls, n);
      }
    }
    if forall n :: 0 <= n <= |calls| ==> AgreesAfter(calls, n) {
      forall i | 0 <= i < |calls|
        ensures Harmless(calls, i)
      {
        assert AgreesAfter(calls, i) && AgreesAfter(calls, i + 1);
        CallAgreesIff(calls, i);
      }
    }
  }

  ghost predicate AckInWindow(calls: seq<Call>, i: nat)
    requires i < |calls|
  {
    var t := Run(calls[..i]).tracker;
    calls[i].Received? && Accepts(t, calls[i].q) ==> calls[i].q < t.base + CAPACITY
  }

  /** No accepted acknowledgement is for a number a whole capacity past the reaped base. */
  ghost predicate AcksInWindow(calls: seq<Call>) {
    forall i :: 0 <= i < |calls| ==> AckInWindow(calls, i)
  }

  lemma PrefixInWindow(calls: seq<Call>, n: nat)
    requires AcksInWindow(calls) && n <= |calls|
    ensures AcksInWindow(calls[..n])
  {
    forall i | 0 <= i < n
      ensures AckInWindow(calls[..n], i)
    {
      assert calls[..n][..i] == calls[..i] && AckInWindow(calls, i);
    }
  }

  lemma CallKeepsExact(h: History, c: Call)
    requires Accounted(h.tracker) && Exact(h.tracker, h.acked)
    requires c.Received? && Accepts(h.tracker, c.q) ==> c.q < h.tracker.base + CAPACITY
    ensures Exact(Apply(h, c).tracker, Apply(h, c).acked)
  {
    match c
    case Sent(q) =>
    case Received(q) =>
      if Accepts(h.tracker, q) {
        AckAgreesIff(h.tracker, h.acked, q);
      }
    case Reaped => ReapAgreesIff(h.tracker, h.acked);
    case ResetAll => FreshIsExact();
  }

  /** The bitmap tracks the set: under wrap of the bitmap and any mix of calls, the
      confirmed total is the number of distinct accepted numbers below the base. */
  lemma {:induction false} RunIsExact(calls: seq<Call>)
    requires AcksInWindow(calls)
    ensures Exact(Run(calls).tracker, Run(calls).acked)
  {
    if calls == [] {
      FreshIsExact();
    } else {
      var n := |calls| - 1;
      PrefixInWindow(calls, n);
      RunIsExact(calls[..n]);
      RunIsAccounted(calls[..n]);
      assert AckInWindow(calls, n);
      CallKeepsExact(Run(calls[..n]), calls[n]);
    }
  }

  /** When the reaper keeps up, an acknowledgement of a frame that was sent is
      in the window, and it is rejected only if its chunk was already harvested. */
  lemma SentAcksAreInWindow(calls: seq<Call>, q: nat)
    requires KeepsUp(calls) && q < Run(calls).tracker.head
    ensures q < Run(calls).tracker.base + CAPACITY
    ensures Accepts(Run(calls).tracker, q) <==> Run(calls).tracker.base <= q
  {
    HeadStaysInWindow(calls);
  }

  /** Without the window assumption the count is wrong: an acknowledgement one
      capacity ahead is counted for frame 0, which was never acknowledged. */
  lemma AliasedAckIsMiscounted()
    ensures var h := Run([Sent(8063), Received(16384), Reaped]);
      h.tracker.confirmed == 1 && Below(h.acked, h.tracker.base) == {}
  {
    var calls := [Sent(8063), Received(16384), Reaped];
    assert calls[..2] == [Sent(8063), Received(16384)];
    assert calls[..2][..1] == [Sent(8063)];
    assert calls[..2][..1][..0] == [];
    var h1 := Run([Sent(8063)]);
    assert h1 == Apply(Start(), Sent(8063));
    var h2 := Run(calls[..2]);
    assert h2 == Apply(h1, Received(16384));
    var words := SetBit(EmptyWords(BITMAP_WORDS), 16384);
    assert WordOf(16384) == 0 && BitOf(16384) == 0;
    assert h2 == History(Tracker(8064, words, 0, 0, 0, 1, 0, 0), {16384}, 1);
    assert words[0] == {0};
    var t := ReapChunk(h2.tracker);
    assert WordOf(0) == 0;
    assert t.confirmed == 1 && t.base == WORD_BITS;
    assert Reap(t) == t;
    assert Reap(h2.tracker) == t;
    assert Run(calls) == History(t, {16384}, 0);
  }

  /** A reap stops only at the grace window: it takes every whole word whose last number is
      more than 8000 behind the head, and no other. */
  lemma {:induction false} ReapRespectsGrace(t: Tracker)
    requires |t.words| == BITMAP_WORDS
    ensures t.base <= Reap(t).base && (Reap(t).base - t.base) % 64 == 0
    ensures Reap(t).base > t.base ==> Reap(t).base + 8000 <= t.head
    ensures t.head < Reap(t).base + 64 + 8000
    decreases t.head - t.base
  {
    if Reapable(t.base, t.head) {
      ReapRespectsGrace(ReapChunk(t));
    }
  }

  // ---- The class ----

  datatype Rate = NothingReaped | Delivered(confirmed: nat, sent: nat)

  class FlightWindow {
    var headSeq: nat
    const ackBitmap: array<Word>
    var baseSeq: nat
    var totalSent: nat
    var totalConfirmed: nat
    var rxCalls: nat
    var rxStaleRejects: nat
    var rxReapedRejects: nat

    ghost function State(): Tracker
      reads this, ackBitmap
    {
      Tracker(headSeq, ackBitmap[..], baseSeq, totalSent, totalConfirmed, rxCalls, rxStaleRejects, rxReapedRejects)
    }

    ghost predicate Valid()
      reads this, ackBitmap
    {
      Accounted(State())
    }

    constructor ()
      ensures Valid() && fresh(ackBitmap)
      ensures State() == Fresh()
    {
      ackBitmap := new Word[BITMAP_WORDS](i => {});
      headSeq, baseSeq, totalSent, totalConfirmed := 0, 0, 0, 0;
      rxCalls, rxStaleRejects, rxReapedRejects := 0, 0, 0;
      new;
      assert ackBitmap[..] == EmptyWords(BITMAP_WORDS);
      FreshIsAccounted();
    }

    method OnTxSent(q: nat)
      requires Valid()
      modifies this`headSeq
      ensures Valid()
      ensures State() == TxSent(old(State()), q)
    {
      headSeq := q + 1;
    }

    method OnRxReceived(q: nat)
      requires Valid()
      modifies this, ackBitmap
      ensures Valid()
      ensures State() == RxReceived(old(State()), q)
      ensures rxCalls == old(rxCalls) + 1
      ensures rxStaleRejects == old(rxStaleRejects) + if q + 16384 < headSeq then 1 else 0
      ensures rxReapedRejects == old(rxReapedRejects) + if headSeq <= q + 16384 && q < baseSeq then 1 else 0
    {
      RxKeepsAccounted(State(), q);
      rxCalls := rxCalls + 1;
      var head := headSeq;
      if head > q && head - q > CAPACITY {
        rxStaleRejects := rxStaleRejects + 1;
        return;
      }
      var base := baseSeq;
      if q < base {
        rxReapedRejects := rxReapedRejects + 1;
        return;
      }
      var idx := q % CAPACITY;
      var word, bit := idx / WORD_BITS, idx % WORD_BITS;
      ackBitmap[word] := ackBitmap[word] + {bit};
    }

    method ReapAll()
      requires Valid()
      modifies this, ackBitmap
      ensures Valid()
      ensures State() == Reap(old(State()))
    {
      var head := headSeq;
      while baseSeq + WORD_BITS + GRACE_ENTRIES <= head
        invariant Valid()
        invariant headSeq == head
        invariant Reap(State()) == Reap(old(State()))
        decreases head - baseSeq
      {
        ChunkKeepsAccounted(State());
        ghost var before := State();
        var idx := baseSeq % CAPACITY;
        var word := idx / WORD_BITS;
        var bits := ackBitmap[word];
        ackBitmap[word] := {};
        totalSent := totalSent + WORD_BITS;
        totalConfirmed := totalConfirmed + |bits|;
        baseSeq := baseSeq + WORD_BITS;
        assert State() == ReapChunk(before);
      }
    }

    /** Reaps, then reports the totals the delivery percentage is formed from. */
    method DeliveryRate() returns (rate: Rate)
      requires Valid()
      modifies this, ackBitmap
      ensures Valid()
      ensures State() == Reap(old(State()))
      ensures rate == NothingReaped <==> State().base == 0
      ensures rate.Delivered? ==> rate.confirmed == State().confirmed <= rate.sent == State().base
    {
      ReapAll();
      if totalSent == 0 {
        rate := NothingReaped;
      } else {
        rate := Delivered(totalConfirmed, totalSent);
      }
    }

    method Reset()
      requires Valid()
      modifies this, ackBitmap
      ensures Valid()
      ensures State() == Fresh()
    {
      headSeq := 0;
      for i := 0 to BITMAP_WORDS
        invariant headSeq == 0
        invariant forall k :: 0 <= k < i ==> ackBitmap[k] == {}
      {
        ackBitmap[i] := {};
      }
      baseSeq, totalSent, totalConfirmed := 0, 0, 0;
      rxCalls, rxStaleRejects, rxReapedRejects := 0, 0, 0;
      assert ackBitmap[..] == EmptyWords(BITMAP_WORDS);
      FreshIsAccounted();
    }
  }
}
