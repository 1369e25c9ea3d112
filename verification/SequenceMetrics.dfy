/**
 Sequence accounting of received messages (`addReceived` in
 ican/perf/MetricsEngine.cpp): the counters of the engine, and the totals over a
 whole stream that they stand for.
 */
module SequenceMetrics {
  import opened Arithmetic
  import opened MachineInts

  const REORDER_WINDOW := 1000
  const HALF_RANGE := 0x8000_0000_0000_0000
  const HALF_32 := 0x8000_0000

  /** The sequence number in the first eight bytes, most significant byte first. */
  function SequenceOf(data: seq<byte>): u64
    requires |data| >= 8
  {
    BigEndian16(data[0], data[1]) * 0x1_0000_0000_0000 + BigEndian16(data[2], data[3]) * 0x1_0000_0000
      + BigEndian16(data[4], data[5]) * 0x1_0000 + BigEndian16(data[6], data[7])
  }

  function BigEndian16(high: byte, low: byte): u16 {
    TWO_8 * high + low
  }

  /** The engine's receive counters. */
  datatype Counters = Counters(received: u32, bytes: u32, gaps: u32, outOfOrder: u32, duplicates: u32, last: u64)

  const CLEARED := Counters(0, 0, 0, 0, 0, 0)

  /** The counters after a message with a sequence number that is not the first. */
  function Classified(c: Counters, n: u64): Counters {
    var expected: u64 := (c.last + 1) % TWO_64;
    var c' :=
      if n == expected then c
      else if n == c.last then c.(duplicates := Add32(c.duplicates, 1))
      else if n < c.last && c.last - n < REORDER_WINDOW then c.(outOfOrder := Add32(c.outOfOrder, 1))
      else c.(gaps := Add32(c.gaps, if n > expected then (n - expected) % TWO_32 else 1));
    if n > c.last || (c.last - n) % TWO_64 > HALF_RANGE - 1 then c'.(last := n) else c'
  }

  function AfterMessage(c: Counters, data: seq<byte>): Counters {
    var c' := c.(received := Add32(c.received, 1), bytes := (c.bytes + |data| + 4) % TWO_32);
    if |data| < 8 then c'
    else if c'.received == 1 then c'.(last := SequenceOf(data))
    else Classified(c', SequenceOf(data))
  }

  class MetricsEngine {
    var messagesReceived: u32
    var bytesReceived: u32
    var rxSequenceGaps: u32
    var rxOutOfOrder: u32
    var rxDuplicates: u32
    var rxLastSequence: u64

    constructor ()
      ensures State() == CLEARED
    {
      messagesReceived, bytesReceived := 0, 0;
      rxSequenceGaps, rxOutOfOrder, rxDuplicates, rxLastSequence := 0, 0, 0, 0;
    }

    function State(): Counters
      reads this
    {
      Counters(messagesReceived, bytesReceived, rxSequenceGaps, rxOutOfOrder, rxDuplicates, rxLastSequence)
    }

    method AddReceived(data: seq<byte>)
      modifies this
      ensures State() == AfterMessage(old(State()), data)
    {
      messagesReceived := Add32(messagesReceived, 1);
      bytesReceived := (bytesReceived + |data| + 4) % TWO_32;
      if |data| >= 8 {
        var n := SequenceOf(data);
        if messagesReceived == 1 {
          rxLastSequence := n;
          return;
        }
        var lastSeq := rxLastSequence;
        var expected := (lastSeq + 1) % TWO_64;
        if n == expected {
        } else if n == lastSeq {
          rxDuplicates := Add32(rxDuplicates, 1);
        } else if n < lastSeq && lastSeq - n < REORDER_WINDOW {
          rxOutOfOrder := Add32(rxOutOfOrder, 1);
        } else {
          var gap := if n > expected then (n - expected) % TWO_32 else 1;
          rxSequenceGaps := Add32(rxSequenceGaps, gap);
        }
        if n > lastSeq || (lastSeq - n) % TWO_64 > HALF_RANGE - 1 {
          rxLastSequence := n;
        }
      }
    }
  }

  // ---- A whole stream ----

  function Received(ms: seq<seq<byte>>): Counters {
    if ms == [] then CLEARED else AfterMessage(Received(ms[..|ms| - 1]), ms[|ms| - 1])
  }

  /** Counts over a stream: the largest number so far, the numbers skipped, and how many
      messages repeat the largest, come less than 1000 late, come later than that, or
      carry no number. */
  datatype Totals = Totals(max: nat, missing: nat, repeated: nat, late: nat, veryLate: nat, short: nat)

  function CountMessage(t: Totals, data: seq<byte>): Totals {
    if |data| < 8 then t.(short := t.short + 1)
    else
      var n := SequenceOf(data);
      if n > t.max then t.(max := n, missing := t.missing + (n - t.max - 1))
      else if n == t.max then t.(repeated := t.repeated + 1)
      else if t.max - n < 1000 then t.(late := t.late + 1)
      else t.(veryLate := t.veryLate + 1)
  }

  function TotalsOf(ms: seq<seq<byte>>): Totals
    requires ms != []
  {
    if |ms| == 1 then if |ms[0]| >= 8 then Totals(SequenceOf(ms[0]), 0, 0, 0, 0, 0) else Totals(0, 0, 0, 0, 0, 1)
    else CountMessage(TotalsOf(ms[..|ms| - 1]), ms[|ms| - 1])
  }

  /** The number before the first one counted. A first message without a number leaves the
      engine as if it had seen number 0. */
  function Origin(ms: seq<seq<byte>>): int
    requires ms != []
  {
    if |ms[0]| >= 8 then SequenceOf(ms[0]) - 1 else 0
  }

  /** Nothing is lost: every number from the first to the largest was the largest once
      or was skipped, and every other message is counted in one place. */
  lemma {:induction false} TotalsAreConserved(ms: seq<seq<byte>>)
    requires ms != []
    ensures
      var t := TotalsOf(ms);
      |ms| + t.missing == (t.max - Origin(ms)) + t.repeated + t.late + t.veryLate + t.short
    ensures Origin(ms) <= TotalsOf(ms).max
  {
    if |ms| > 1 {
      TotalsAreConserved(ms[..|ms| - 1]);
    }
  }

  lemma {:induction false} MaxIsMaximum(ms: seq<seq<byte>>)
    requires ms != []
    ensures forall m :: m in ms && |m| >= 8 ==> SequenceOf(m) <= TotalsOf(ms).max
    ensures |ms[0]| >= 8 || TotalsOf(ms).max > 0 ==>
      exists m :: m in ms && |m| >= 8 && SequenceOf(m) == TotalsOf(ms).max
  {
    if |ms| == 1 {
      assert ms[0] in ms;
    } else {
      var before, last := ms[..|ms| - 1], ms[|ms| - 1];
      MaxIsMaximum(before);
      assert ms == before + [last];
    }
  }

  /** No number is behind the largest by half the range, and none is the last of all. */
  predicate Tame(ms: seq<seq<byte>>)
    requires ms != []
  {
    var last := ms[|ms| - 1];
    && (|last| >= 8 ==> SequenceOf(last) < TWO_64 - 1)
    && (|ms| > 1 ==>
        && Tame(ms[..|ms| - 1])
        && (|last| >= 8 ==> TotalsOf(ms[..|ms| - 1]).max - SequenceOf(last) < HALF_RANGE))
  }

  /** What the counters hold for given totals: a very late message counts as a gap. */
  ghost predicate CountersFor(c: Counters, t: Totals, n: nat) {
    && c.received == n % TWO_32
    && c.gaps == (t.missing + t.veryLate) % TWO_32
    && c.outOfOrder == t.late % TWO_32
    && c.duplicates == t.repeated % TWO_32
    && c.last == t.max
  }

  lemma CountOne(c: u32, n: nat)
    requires c == n % TWO_32
    ensures Add32(c, 1) == (n + 1) % TWO_32
  {
    ModNext(n, TWO_32);
  }

  lemma CountMany(c: u32, n: nat, k: nat)
    requires c == n % TWO_32
    ensures Add32(c, k % TWO_32) == (n + k) % TWO_32
  {
    ModAdd(n, k, TWO_32);
  }

  lemma ClassifiedCounts(c: Counters, t: Totals, n: nat, data: seq<byte>)
    requires CountersFor(c, t, n) && |data| >= 8
    requires SequenceOf(data) < TWO_64 - 1 && t.max < TWO_64 - 1 && t.max - SequenceOf(data) < HALF_RANGE
    ensures CountersFor(Classified(c, SequenceOf(data)), CountMessage(t, data), n)
  {
    var s := SequenceOf(data);
    CountOne(c.duplicates, t.repeated);
    CountOne(c.outOfOrder, t.late);
    CountOne(c.gaps, t.missing + t.veryLate);
    if s > t.max + 1 {
      CountMany(c.gaps, t.missing + t.veryLate, s - t.max - 1);
    }
    ModSmall(t.max + 1);
    if s <= t.max {
      ModSmall(t.max - s);
    }
  }

  lemma ModSmall(x: nat)
    requires x < TWO_64
    ensures x % TWO_64 == x
  {
    QuotientUnique(x, 0, x, TWO_64);
  }

  /** The engine's counters are the totals, in 32 bits, and its last number is the
      largest seen. */
  lemma {:induction false} CountersAreTotals(ms: seq<seq<byte>>)
    requires ms != [] && Tame(ms) && |ms| <= TWO_32
    ensures CountersFor(Received(ms), TotalsOf(ms), |ms|)
    ensures TotalsOf(ms).max < TWO_64 - 1
  {
    var before, data := ms[..|ms| - 1], ms[|ms| - 1];
    if |ms| == 1 {
      assert Received([]) == CLEARED && before == [];
    } else {
      CountersAreTotals(before);
      var c := Received(before);
      CountOne(c.received, |before|);
      var c' := c.(received := Add32(c.received, 1), bytes := (c.bytes + |data| + 4) % TWO_32);
      NotFirstAgain(|ms|);
      assert CountersFor(c', TotalsOf(before), |ms|);
      if |data| >= 8 {
        ClassifiedCounts(c', TotalsOf(before), |ms|, data);
      }
    }
  }

  lemma NotFirstAgain(n: nat)
    requires 1 < n <= TWO_32
    ensures n % TWO_32 != 1
  {
    if n < TWO_32 {
      QuotientUnique(n, 0, n, TWO_32);
    } else {
      QuotientUnique(n, 1, 0, TWO_32);
    }
  }

  lemma SumOfCounters(c: Counters, t: Totals, n: nat)
    requires CountersFor(c, t, n)
    ensures Add32(c.received, c.gaps) == (n + t.missing + t.veryLate) % TWO_32
  {
    ModAdd(n, t.missing + t.veryLate, TWO_32);
  }

  /** Sequence accounting: messages received plus gaps are the span of sequence numbers
      plus duplicates, late messages and messages without a number, and twice the
      messages that come 1000 or more late, which are counted as gaps, too. */
  lemma SequenceAccounting(ms: seq<seq<byte>>)
    requires ms != [] && Tame(ms) && |ms| <= TWO_32
    ensures
      var c, t := Received(ms), TotalsOf(ms);
      Add32(c.received, c.gaps)
        == (t.max - Origin(ms) + t.repeated + t.late + t.short + 2 * t.veryLate) % TWO_32
  {
    CountersAreTotals(ms);
    TotalsAreConserved(ms);
    SumOfCounters(Received(ms), TotalsOf(ms), |ms|);
  }

  lemma {:induction false} TotalsAreBounded(ms: seq<seq<byte>>)
    requires ms != []
    ensures
      var t := TotalsOf(ms);
      t.repeated + t.late + t.veryLate + t.short <= |ms|
  {
    if |ms| > 1 {
      TotalsAreBounded(ms[..|ms| - 1]);
    }
  }

  /** Messages, duplicates and out-of-order messages are counted exactly. */
  lemma CountersAreExact(ms: seq<seq<byte>>)
    requires ms != [] && Tame(ms) && |ms| < TWO_32
    ensures
      var c, t := Received(ms), TotalsOf(ms);
      c.received == |ms| && c.duplicates == t.repeated && c.outOfOrder == t.late && c.last == t.max
  {
    var t := TotalsOf(ms);
    CountersAreTotals(ms);
    TotalsAreBounded(ms);
    QuotientUnique(|ms|, 0, |ms|, TWO_32);
    QuotientUnique(t.late, 0, t.late, TWO_32);
    QuotientUnique(t.repeated, 0, t.repeated, TWO_32);
  }

  lemma SameRemainderIff(x: int, y: nat)
    requires y < TWO_32
    ensures (x + y) % TWO_32 == x % TWO_32 <==> y == 0
  {
    var r := x % TWO_32;
    if r + y < TWO_32 {
      QuotientUnique(x + y, x / TWO_32, r + y, TWO_32);
    } else {
      QuotientUnique(x + y, x / TWO_32 + 1, r + y - TWO_32, TWO_32);
    }
  }

  /** The law of the stream, on 32-bit counters: received plus gaps is the span plus
      duplicates, out-of-order messages and those without a number. */
  ghost predicate LawHolds(ms: seq<seq<byte>>)
    requires ms != []
  {
    var c, t := Received(ms), TotalsOf(ms);
    Add32(c.received, c.gaps) == (c.last - Origin(ms) + c.duplicates + c.outOfOrder + t.short) % TWO_32
  }

  /** Over fewer than 2^31 messages, whatever counters wrap: the law holds exactly if no
      message came 1000 or more late. */
  lemma LawHoldsIffNoneVeryLate(ms: seq<seq<byte>>)
    requires ms != [] && Tame(ms) && |ms| < HALF_32
    ensures LawHolds(ms) <==> TotalsOf(ms).veryLate == 0
  {
    var t := TotalsOf(ms);
    CountersAreExact(ms);
    TotalsAreBounded(ms);
    SequenceAccounting(ms);
    SameRemainderIff(t.max - Origin(ms) + t.repeated + t.late + t.short, 2 * t.veryLate);
  }

  /** Number 1000 and then number 0: two messages and a gap, but a span of one. */
  lemma VeryLateMessageBreaksLaw()
    ensures
      var ms := [[0, 0, 0, 0, 0, 0, 3, 232], [0, 0, 0, 0, 0, 0, 0, 0]];
      && Tame(ms) && TotalsOf(ms).veryLate == 1
      && Received(ms).received == 2 && Received(ms).gaps == 1 && Received(ms).last == 1000
      && !LawHolds(ms)
  {
    var a: seq<byte>, b: seq<byte> := [0, 0, 0, 0, 0, 0, 3, 232], [0, 0, 0, 0, 0, 0, 0, 0];
    var ms := [a, b];
    assert SequenceOf(a) == 1000 && SequenceOf(b) == 0;
    assert ms[..1] == [a] && [a][..0] == [];
    assert Received([a]) == Counters(1, 12, 0, 0, 0, 1000);
    assert TotalsOf([a]) == Totals(1000, 0, 0, 0, 0, 0);
    assert Received(ms) == Counters(2, 24, 1, 0, 0, 1000);
    assert Tame([a]);
    LawHoldsIffNoneVeryLate(ms);
  }

  /** The weights of the eight bytes. */
  lemma SequenceWeights(d: seq<byte>)
    requires |d| >= 8
    ensures SequenceOf(d) ==
      d[7] as int + 0x100 * (d[6] as int) + 0x1_0000 * (d[5] as int) + 0x100_0000 * (d[4] as int)
        + 0x1_0000_0000 * (d[3] as int) + 0x100_0000_0000 * (d[2] as int)
        + 0x1_0000_0000_0000 * (d[1] as int) + 0x100_0000_0000_0000 * (d[0] as int)
  {
  }

  /** Every message counts its length and four bytes more. */
  function BytesOf(ms: seq<seq<byte>>): nat {
    if ms == [] then 0 else BytesOf(ms[..|ms| - 1]) + |ms[|ms| - 1]| + 4
  }

  lemma {:induction false} BytesAreCounted(ms: seq<seq<byte>>)
    ensures Received(ms).bytes == BytesOf(ms) % TWO_32
  {
    if ms != [] {
      var before, n := ms[..|ms| - 1], |ms[|ms| - 1]| + 4;
      BytesAreCounted(before);
      ModAdd(BytesOf(before), n, TWO_32);
      ModAdd(Received(before).bytes, n, TWO_32);
      QuotientUnique(Received(before).bytes, 0, Received(before).bytes, TWO_32);
    }
  }
}
