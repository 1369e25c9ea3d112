/**
 The delivery tracker with its three threads interleaved: each atomic operation
 of `onTxSent`, `onRxReceived` and `reap` (ican/perf/FlightWindow.hpp) is one
 sequentially consistent step. The reaper clears a word in one step and moves
 the base in a later one, with no synchronisation between.
 */
module FlightRace {
  import opened FlightWindow

  /** The receiving thread inside onRxReceived(q). */
  datatype RxPc =
    | RxIdle
    | LoadHead(q: nat)
    | LoadBase(q: nat)
    | SetBitOf(q: nat)
    | CountStale(q: nat)
    | CountReaped(q: nat)

  /** The reaping thread: in the loop with the head it loaded, or between the
      exchange of a word and the update of the base. */
  datatype ReapPc = ReapIdle | Walking(head: nat) | Cleared(head: nat, bits: Word)

  /** `acked` is the history of numbers whose bit was set. */
  datatype State = State(t: Tracker, rx: RxPc, reaper: ReapPc, acked: set<nat>)

  ghost predicate Init(s: State) {
    s == State(Fresh(), RxIdle, ReapIdle, {})
  }

  // ---- Steps ----

  ghost predicate TxStore(s: State, s': State, q: nat) {
    q >= s.t.head && s' == s.(t := TxSent(s.t, q))
  }

  ghost predicate RxCall(s: State, s': State, q: nat) {
    && s.rx.RxIdle?
    && s' == s.(t := s.t.(rxCalls := s.t.rxCalls + 1), rx := LoadHead(q))
  }

  ghost predicate RxLoadHead(s: State, s': State) {
    && s.rx.LoadHead?
    && s' == s.(rx := if IsStale(s.t.head, s.rx.q) then CountStale(s.rx.q) else LoadBase(s.rx.q))
  }

  ghost predicate RxLoadBase(s: State, s': State) {
    && s.rx.LoadBase?
    && s' == s.(rx := if s.rx.q < s.t.base then CountReaped(s.rx.q) else SetBitOf(s.rx.q))
  }

  ghost predicate RxSetBit(s: State, s': State)
    requires |s.t.words| == BITMAP_WORDS
  {
    && s.rx.SetBitOf?
    && s' == s.(t := s.t.(words := SetBit(s.t.words, s.rx.q)), rx := RxIdle, acked := s.acked + {s.rx.q})
  }

  ghost predicate RxReject(s: State, s': State) {
    || (s.rx.CountStale? && s' == s.(t := s.t.(staleRejects := s.t.staleRejects + 1), rx := RxIdle))
    || (s.rx.CountReaped? && s' == s.(t := s.t.(reapedRejects := s.t.reapedRejects + 1), rx := RxIdle))
  }

  ghost predicate ReapBegin(s: State, s': State) {
    s.reaper.ReapIdle? && s' == s.(reaper := Walking(s.t.head))
  }

  ghost predicate ReapClear(s: State, s': State)
    requires |s.t.words| == BITMAP_WORDS
  {
    && s.reaper.Walking? && Reapable(s.t.base, s.reaper.head)
    && s' == s.(t := s.t.(words := s.t.words[WordOf(s.t.base) := {}]),
                reaper := Cleared(s.reaper.head, s.t.words[WordOf(s.t.base)]))
  }

  ghost predicate ReapAdvance(s: State, s': State) {
    && s.reaper.Cleared?
    && s' == s.(t := s.t.(sent := s.t.sent + WORD_BITS,
                          confirmed := s.t.confirmed + |s.reaper.bits|,
                          base := s.t.base + WORD_BITS),
                reaper := Walking(s.reaper.head))
  }

  ghost predicate ReapEnd(s: State, s': State) {
    && s.reaper.Walking? && !Reapable(s.t.base, s.reaper.head)
    && s' == s.(reaper := ReapIdle)
  }

  ghost predicate Next(s: State, s': State)
    requires |s.t.words| == BITMAP_WORDS
  {
    || (exists q: nat :: TxStore(s, s', q))
    || (exists q: nat :: RxCall(s, s', q))
    || RxLoadHead(s, s')
    || RxLoadBase(s, s')
    || RxSetBit(s, s')
    || RxReject(s, s')
    || ReapBegin(s, s')
    || ReapClear(s, s')
    || ReapAdvance(s, s')
    || ReapEnd(s, s')
  }

  ghost predicate StepAt(run: seq<State>, i: nat)
    requires i + 1 < |run|
  {
    |run[i].t.words| == BITMAP_WORDS && Next(run[i], run[i + 1])
  }

  ghost predicate IsRun(run: seq<State>) {
    && |run| > 0
    && Init(run[0])
    && forall i :: 0 <= i < |run| - 1 ==> StepAt(run, i)
  }

  // ---- Every run: the totals ----

  ghost function InHand(s: State): nat {
    if s.reaper.Cleared? then |s.reaper.bits| else 0
  }

  ghost function InProgress(s: State): nat {
    if s.rx.RxIdle? then 0 else 1
  }

  ghost predicate Accounted(s: State) {
    && WordsOk(s.t.words)
    && s.t.base % WORD_BITS == 0
    && s.t.confirmed <= s.t.sent == s.t.base
    && (s.reaper.Cleared? ==> forall b :: b in s.reaper.bits ==> b < WORD_BITS)
    && s.t.confirmed + InHand(s) + Popcount(s.t.words) + s.t.staleRejects + s.t.reapedRejects + InProgress(s)
         <= s.t.rxCalls
  }

  lemma StepKeepsAccounted(s: State, s': State)
    requires Accounted(s) && Next(s, s')
    ensures Accounted(s')
  {
    if RxSetBit(s, s') {
      SetBitPopcount(s.t.words, s.rx.q);
    } else if ReapClear(s, s') {
      PopcountUpdate(s.t.words, WordOf(s.t.base), {});
    } else if ReapAdvance(s, s') {
      BoundedSetSize(s.reaper.bits, WORD_BITS);
    }
  }

  lemma {:induction false} RunKeepsAccounted(run: seq<State>, i: nat)
    requires IsRun(run) && i < |run|
    ensures Accounted(run[i])
  {
    if i == 0 {
      FreshIsAccounted();
    } else {
      RunKeepsAccounted(run, i - 1);
      assert StepAt(run, i - 1);
      StepKeepsAccounted(run[i - 1], run[i]);
    }
  }

  /** With no assumption on timing: nothing is confirmed that was not received,
      never more than was sent, and the base stays on a word boundary. */
  lemma TotalsNeverOvercount(run: seq<State>, i: nat)
    requires IsRun(run) && i < |run|
    ensures
      var t := run[i].t;
      && t.confirmed + Popcount(t.words) <= t.rxCalls - t.staleRejects - t.reapedRejects
      && t.confirmed <= t.sent == t.base
      && t.base % WORD_BITS == 0
  {
    RunKeepsAccounted(run, i);
  }

  // ---- Timely runs: exactness ----

  /** While an acknowledgement of q is in progress, the sender is at most 8000
      frames past q, and q is within one capacity of the reaped base. */
  ghost predicate Timely(s: State) {
    !s.rx.RxIdle? ==> s.t.head <= s.rx.q + GRACE_ENTRIES && s.rx.q < s.t.base + CAPACITY
  }

  ghost predicate IsTimelyRun(run: seq<State>) {
    IsRun(run) && forall i :: 0 <= i < |run| ==> Timely(run[i])
  }

  /** First number whose bit the bitmap still holds. */
  ghost function Low(s: State): nat {
    if s.reaper.Cleared? then s.t.base + WORD_BITS else s.t.base
  }

  ghost predicate ReaperOk(s: State) {
    && (s.t.base > 0 ==> s.t.base + GRACE_ENTRIES <= s.t.head)
    && (!s.reaper.ReapIdle? ==> s.reaper.head <= s.t.head)
    && (s.reaper.Cleared? ==> Reapable(s.t.base, s.reaper.head))
  }

  ghost predicate RxOk(s: State) {
    && s.t.staleRejects == s.t.reapedRejects == 0
    && !s.rx.CountStale? && !s.rx.CountReaped?
  }

  /** The bitmap holds exactly the acknowledged numbers from Low on, and the confirmed
      total plus the word in hand counts those below. */
  ghost predicate Agrees(s: State)
    requires |s.t.words| == BITMAP_WORDS
  {
    && BitsAgree(s.t.words, s.acked, Low(s))
    && s.t.confirmed + InHand(s) == |Below(s.acked, Low(s))|
  }

  /** Agreement, with nothing acknowledged past the window. */
  ghost predicate ExactState(s: State)
    requires |s.t.words| == BITMAP_WORDS
  {
    Agrees(s) && forall q :: q in s.acked ==> q < s.t.base + CAPACITY
  }

  ghost predicate Inv(s: State) {
    Accounted(s) && ReaperOk(s) && RxOk(s) && ExactState(s)
  }

  /** The bit of a timely acknowledgement is never in a word being harvested. */
  lemma TimelyAckIsAhead(s: State)
    requires ReaperOk(s) && Timely(s) && !s.rx.RxIdle?
    ensures Low(s) <= s.rx.q
    ensures !IsStale(s.t.head, s.rx.q)
  {
  }

  /** The bit about to be set belongs to the bitmap's window and not to a harvested word;
      or it is set already, and its number was counted. */
  ghost predicate Lands(s: State)
    requires |s.t.words| == BITMAP_WORDS
  {
    && s.rx.SetBitOf?
    && (Low(s) <= s.rx.q < Low(s) + CAPACITY
        || (HasBit(s.t.words, s.rx.q) && (s.rx.q < Low(s) ==> s.rx.q in s.acked)))
  }

  lemma SetBitAgreesIff(s: State, s': State)
    requires Accounted(s) && Agrees(s) && RxSetBit(s, s')
    ensures |s'.t.words| == BITMAP_WORDS
    ensures Agrees(s') <==> Lands(s)
  {
    var q, lo := s.rx.q, Low(s);
    if lo <= q < lo + CAPACITY {
      SetBitAgrees(s.t.words, s.acked, lo, q);
    } else {
      SetBitOutside(s.t.words, s.acked, lo, q);
    }
    assert Below(s'.acked, lo) == Below(s.acked, lo) + if q < lo then {q} else {};
  }

  /** Clearing a word keeps the agreement exactly if none of the numbers that enter the
      window was acknowledged before. */
  lemma ClearAgreesStep(s: State, s': State)
    requires Accounted(s) && Agrees(s) && ReapClear(s, s')
    ensures |s'.t.words| == BITMAP_WORDS
    ensures Agrees(s') <==> NoneIn(s.acked, s.t.base + CAPACITY, s.t.base + CAPACITY + WORD_BITS)
  {
    HarvestCounts(s.t.words, s.acked, s.t.base);
    ClearAgreesIff(s.t.words, s.acked, s.t.base);
  }

  ghost predicate Harmless(s: State, s': State)
    requires |s.t.words| == BITMAP_WORDS
  {
    && (RxSetBit(s, s') ==> Lands(s))
    && (ReapClear(s, s') ==> NoneIn(s.acked, s.t.base + CAPACITY, s.t.base + CAPACITY + WORD_BITS))
  }

  /** One step keeps the agreement exactly if it is harmless. */
  lemma StepAgreesIff(s: State, s': State)
    requires Accounted(s) && Agrees(s) && Next(s, s')
    ensures |s'.t.words| == BITMAP_WORDS
    ensures Agrees(s') <==> Harmless(s, s')
  {
    if RxSetBit(s, s') {
      SetBitAgreesIff(s, s');
      assert !ReapClear(s, s');
    } else if ReapClear(s, s') {
      ClearAgreesStep(s, s');
    }
  }

  lemma StepKeepsInv(s: State, s': State)
    requires Inv(s) && Timely(s) && Next(s, s')
    ensures Inv(s')
  {
    StepKeepsAccounted(s, s');
    if !s.rx.RxIdle? {
      TimelyAckIsAhead(s);
    }
    StepAgreesIff(s, s');
  }

  lemma {:induction false} TimelyRunKeepsInv(run: seq<State>, i: nat)
    requires IsTimelyRun(run) && i < |run|
    ensures Inv(run[i])
  {
    if i == 0 {
      FreshIsAccounted();
      FreshIsExact();
    } else {
      TimelyRunKeepsInv(run, i - 1);
      assert StepAt(run, i - 1);
      StepKeepsInv(run[i - 1], run[i]);
    }
  }

  /** The unsynchronised clear-then-advance loses and miscounts nothing: in a
      timely run no acknowledgement is rejected, and whenever the reaper is
      between reaps the confirmed total is the number of distinct acknowledged
      numbers below the base, the bitmap holding exactly the others. */
  lemma TimelyRunIsExact(run: seq<State>, i: nat)
    requires IsTimelyRun(run) && i < |run|
    ensures run[i].t.staleRejects == run[i].t.reapedRejects == 0
    ensures |run[i].t.words| == BITMAP_WORDS
    ensures run[i].reaper.ReapIdle? ==>
      && run[i].t.confirmed == |Below(run[i].acked, run[i].t.base)|
      && BitsAgree(run[i].t.words, run[i].acked, run[i].t.base)
  {
    TimelyRunKeepsInv(run, i);
  }

  /** An acknowledgement that finishes in a timely run has been recorded. */
  lemma TimelyAckIsRecorded(run: seq<State>, i: nat)
    requires IsTimelyRun(run) && i + 1 < |run|
    requires !run[i].rx.RxIdle? && run[i + 1].rx.RxIdle?
    ensures run[i + 1].acked == run[i].acked + {run[i].rx.q}
  {
    TimelyRunKeepsInv(run, i);
    assert StepAt(run, i);
  }

  // ---- Uninterrupted calls are the methods ----

  /** The steps of one acknowledgement, with nobody in between. */
  ghost predicate AckAlone(a: State, b: State, c: State, d: State, e: State, q: nat)
    requires |a.t.words| == BITMAP_WORDS
  {
    && RxCall(a, b, q) && RxLoadHead(b, c)
    && (if c.rx.LoadBase? then RxLoadBase(c, d) else d == c)
    && |d.t.words| == BITMAP_WORDS && (RxSetBit(d, e) || RxReject(d, e))
  }

  /** ... do what `onRxReceived` does in one piece. */
  lemma AckAloneIsReceived(a: State, b: State, c: State, d: State, e: State, q: nat)
    requires |a.t.words| == BITMAP_WORDS && AckAlone(a, b, c, d, e, q)
    ensures e.t == RxReceived(a.t, q) && e.rx == RxIdle
    ensures e.acked == if Accepts(a.t, q) then a.acked + {q} else a.acked
  {
  }

  /** One round of the reaper with nobody in between harvests one chunk. */
  lemma ReapAloneIsChunk(a: State, b: State, c: State)
    requires |a.t.words| == BITMAP_WORDS && ReapClear(a, b) && ReapAdvance(b, c)
    ensures c.t == ReapChunk(a.t) && c.reaper == a.reaper
  {
  }

  // ---- Exactly which runs agree ----

  ghost predicate AgreesAt(run: seq<State>, i: nat) {
    i < |run| && |run[i].t.words| == BITMAP_WORDS && Agrees(run[i])
  }

  ghost predicate HarmlessAt(run: seq<State>, i: nat) {
    i + 1 < |run| && |run[i].t.words| == BITMAP_WORDS && Harmless(run[i], run[i + 1])
  }

  lemma NextAgreesIff(run: seq<State>, i: nat)
    requires IsRun(run) && i + 1 < |run| && AgreesAt(run, i)
    ensures AgreesAt(run, i + 1) <==> HarmlessAt(run, i)
  {
    RunKeepsAccounted(run, i);
    assert StepAt(run, i);
    StepAgreesIff(run[i], run[i + 1]);
  }

  lemma {:induction false} HarmlessRunAgrees(run: seq<State>, i: nat)
    requires IsRun(run) && i < |run|
    requires forall j: nat :: j < i ==> HarmlessAt(run, j)
    ensures AgreesAt(run, i)
  {
    if i == 0 {
      FreshIsExact();
    } else {
      HarmlessRunAgrees(run, i - 1);
      NextAgreesIff(run, i - 1);
    }
  }

  /** In any run at all, bitmap and totals agree with the set of acknowledged numbers at
      every point if and only if every step is harmless. */
  lemma AgreesIffHarmless(run: seq<State>)
    requires IsRun(run)
    ensures (forall i: nat :: i < |run| ==> AgreesAt(run, i))
       <==> (forall i: nat :: i + 1 < |run| ==> HarmlessAt(run, i))
  {
    if forall i: nat :: i + 1 < |run| ==> HarmlessAt(run, i) {
      forall i: nat | i < |run|
        ensures AgreesAt(run, i)
      {
        HarmlessRunAgrees(run, i);
      }
    }
    if forall i: nat :: i < |run| ==> AgreesAt(run, i) {
      forall i: nat | i + 1 < |run|
        ensures HarmlessAt(run, i)
      {
        assert AgreesAt(run, i) && AgreesAt(run, i + 1);
        NextAgreesIff(run, i);
      }
    }
  }

  /** Step i sets a bit. */
  ghost predicate SetsBit(run: seq<State>, i: nat) {
    i + 1 < |run| && |run[i].t.words| == BITMAP_WORDS && RxSetBit(run[i], run[i + 1])
  }

  /** Bits are set only for numbers within one capacity of the base, and no number is
      acknowledged twice. */
  ghost predicate FirstAcksInReach(run: seq<State>) {
    forall i: nat :: SetsBit(run, i) ==>
      run[i].rx.q < run[i].t.base + CAPACITY && run[i].rx.q !in run[i].acked
  }

  lemma {:induction false} AckedInReach(run: seq<State>, i: nat)
    requires IsRun(run) && FirstAcksInReach(run) && i < |run|
    ensures forall q :: q in run[i].acked ==> q < run[i].t.base + CAPACITY
  {
    if i > 0 {
      AckedInReach(run, i - 1);
      RunKeepsAccounted(run, i - 1);
      assert StepAt(run, i - 1);
      assert RxSetBit(run[i - 1], run[i]) ==> SetsBit(run, i - 1);
    }
  }

  /** For first acknowledgements within one capacity of the base, whatever the timing:
      the tracker is right at every point if and only if no bit is set in a word that is
      being harvested or behind it. */
  lemma AgreesIffBitsLandAhead(run: seq<State>)
    requires IsRun(run) && FirstAcksInReach(run)
    ensures (forall i: nat :: i < |run| ==> AgreesAt(run, i))
       <==> (forall i: nat :: SetsBit(run, i) ==> Low(run[i]) <= run[i].rx.q)
  {
    forall i: nat | i + 1 < |run|
      ensures HarmlessAt(run, i) <==> (SetsBit(run, i) ==> Low(run[i]) <= run[i].rx.q)
    {
      RunKeepsAccounted(run, i);
      AckedInReach(run, i);
    }
    AgreesIffHarmless(run);
  }

  // ---- The assumption is needed ----

  /** An acknowledgement of frame 0 that overlaps the harvest of its word: the
      bit lands in the cleared word before the base has moved. */
  function LateAckRun(): seq<State> {
    var t0 := Fresh();
    var t1 := TxSent(t0, 8063);
    var t2 := t1.(rxCalls := 1);
    var t3 := t2.(words := t2.words[WordOf(0) := {}]);
    var t4 := t3.(words := SetBit(t3.words, 0));
    var t5 := t4.(sent := WORD_BITS, confirmed := 0, base := WORD_BITS);
    [State(t0, RxIdle, ReapIdle, {}),
     State(t1, RxIdle, ReapIdle, {}),
     State(t2, LoadHead(0), ReapIdle, {}),
     State(t2, LoadBase(0), ReapIdle, {}),
     State(t2, SetBitOf(0), ReapIdle, {}),
     State(t2, SetBitOf(0), Walking(8064), {}),
     State(t3, SetBitOf(0), Cleared(8064, {}), {}),
     State(t4, RxIdle, Cleared(8064, {}), {0}),
     State(t5, RxIdle, Walking(8064), {0}),
     State(t5, RxIdle, ReapIdle, {0})]
  }

  lemma LateAckIsLost()
    ensures IsRun(LateAckRun())
    ensures
      var s := LateAckRun()[9];
      && s.reaper.ReapIdle?
      && s.t.confirmed == 0 && |Below(s.acked, s.t.base)| == 1
      && HasBit(s.t.words, CAPACITY) && CAPACITY !in s.acked
  {
    var run := LateAckRun();
    assert TxStore(run[0], run[1], 8063);
    assert RxCall(run[1], run[2], 0);
    assert RxLoadHead(run[2], run[3]);
    assert RxLoadBase(run[3], run[4]);
    assert ReapBegin(run[4], run[5]);
    assert ReapClear(run[5], run[6]);
    assert RxSetBit(run[6], run[7]);
    assert ReapAdvance(run[7], run[8]);
    assert ReapEnd(run[8], run[9]);
    assert WordOf(CAPACITY) == WordOf(0) && BitOf(CAPACITY) == BitOf(0);
    assert Below({0}, WORD_BITS) == {0};
  }
}
