/**
 The bit-timing search of `setBitTiming` in usb_can_driver/codecs/gsusb_codec.cc,
 within the bounds that the device reports. All arithmetic is on 32 bits.
 */
module GsUsbTiming {
  import opened Arithmetic
  import opened MachineInts
  import opened BitTiming
  import opened Results

  /** What the device says about its bit timing. */
  datatype BtConst = BtConst(
    fclk: u32, tseg1Min: u32, tseg1Max: u32, tseg2Min: u32, tseg2Max: u32,
    brpMin: u32, brpMax: u32, brpInc: u32)

  datatype Segments = Segments(brp: u32, phaseSeg1: u32, phaseSeg2: u32)

  datatype Outcome = BadArgument | NoClock | Found(segments: Segments)

  /** The prescalers form an increasing sequence and no 32-bit product overflows. */
  predicate WellPosed(c: BtConst, bitrate: u32) {
    && c.brpMin >= 1 && c.brpInc >= 1
    && c.brpMax + c.brpInc < TWO_32
    && bitrate * c.brpMax < TWO_32
  }

  predicate OnProgression(c: BtConst, brp: nat) {
    && c.brpMin <= brp <= c.brpMax && c.brpInc > 0
    && (brp - c.brpMin) % c.brpInc == 0
  }

  /** The first segment: three quarters of the quanta, clamped to the bounds. */
  function Clamped1(c: BtConst, tq: u32): u32
    requires tq > 0
  {
    var wanted := (tq - 1) * 3 % TWO_32 / 4;
    Min(if wanted < c.tseg1Min then c.tseg1Min else wanted, c.tseg1Max)
  }

  /** The second segment: what is left, which wraps if the first was clamped above it. */
  function Left2(c: BtConst, tq: u32): u32
    requires tq > 0
  {
    Sub32(tq - 1, Clamped1(c, tq))
  }

  /** Prescaler `brp` with `tq` quanta gives the bit rate, and the segments fit. */
  predicate Passes(c: BtConst, bitrate: nat, brp: nat, tq: nat) {
    && 3 <= tq < TWO_32
    && Exact(c.fclk, bitrate, brp, tq)
    && c.tseg2Min <= Left2(c, tq) <= c.tseg2Max
  }

  predicate NonePasses(c: BtConst, bitrate: nat, brp: nat) {
    forall tq :: 3 <= tq < TWO_32 ==> !Passes(c, bitrate, brp, tq)
  }

  /** The one number of quanta that a prescaler can pass with. */
  lemma CandidateQuanta(c: BtConst, bitrate: u32, brp: u32, tq: nat)
    requires bitrate > 0 && brp > 0 && 0 < bitrate * brp < TWO_32
    requires tq == c.fclk / (bitrate * brp)
    ensures tq < TWO_32
    ensures forall u: nat :: 3 <= u && Exact(c.fclk, bitrate, brp, u) ==> u == tq
    ensures tq >= 1 ==> 0 < brp * tq < TWO_32
    ensures tq >= 1 ==> (c.fclk / (brp * tq) == bitrate <==> Exact(c.fclk, bitrate, brp, tq))
  {
    forall u: nat | 3 <= u && Exact(c.fclk, bitrate, brp, u)
      ensures u == tq
    {
      DivisionsAreExact(c.fclk, bitrate, brp, u);
    }
    QuotientIff(c.fclk, bitrate * brp, tq);
    ProductBound(tq, bitrate, brp);
    if tq >= 1 {
      DivisionsAreExact(c.fclk, bitrate, brp, tq);
    }
  }

  lemma ProductBound(t: nat, a: nat, b: nat)
    requires a > 0 && b > 0
    ensures t <= t * (a * b) && b * t <= t * (a * b)
  {
    MultipleAtLeast(a, b);
    if t > 0 {
      MultipleAtLeast(a * b, t);
      MultipleAtLeast(a, b * t);
    }
    assert t * (a * b) == (a * b) * t == a * (b * t);
  }

  lemma SumOfSegments(tq: u32, t1: u32)
    requires tq > 0
    ensures Add32(Add32(1, t1), Sub32(tq - 1, t1)) == tq
  {
    var rest := tq - 1 - t1;
    if rest < 0 {
      QuotientUnique(rest, -1, rest + TWO_32, TWO_32);
    } else {
      QuotientUnique(rest, 0, rest, TWO_32);
    }
    if t1 + 1 == TWO_32 {
      QuotientUnique(t1 + 1, 1, 0, TWO_32);
    } else {
      QuotientUnique(t1 + 1, 0, t1 + 1, TWO_32);
    }
    var sum := Add32(1, t1) + Sub32(tq - 1, t1);
    QuotientUnique(sum, if sum < TWO_32 then 0 else 1, tq, TWO_32);
  }

  /** The segments for a number of quanta, if they are within bounds. */
  method ChooseSegments(c: BtConst, brp: u32, tq: u32) returns (r: Option<Segments>)
    requires tq >= 3
    ensures r.Some? <==> c.tseg2Min <= Left2(c, tq) <= c.tseg2Max
    ensures r.Some? ==> r.value == Segments(brp, Clamped1(c, tq), Left2(c, tq)) && Quanta(r.value) == tq
  {
    SumOfSegments(tq, Clamped1(c, tq));
    var tsegTotal := tq - 1;
    var tseg1: u32 := tsegTotal * 3 % TWO_32 / 4;
    if tseg1 < c.tseg1Min {
      tseg1 := c.tseg1Min;
    }
    if tseg1 > c.tseg1Max {
      tseg1 := c.tseg1Max;
    }
    var tseg2 := Sub32(tsegTotal, tseg1);
    if tseg2 < c.tseg2Min || tseg2 > c.tseg2Max {
      return None;
    }
    r := Some(Segments(brp, tseg1, tseg2));
  }

  /** The quanta of two segments, in the wrapping arithmetic of the source. */
  function Quanta(s: Segments): u32 {
    Add32(Add32(1, s.phaseSeg1), s.phaseSeg2)
  }

  /** The first division of a round: a prescaler passes with this number of quanta or
      not at all. */
  method BitQuanta(c: BtConst, bitrate: u32, brp: u32) returns (tq: u32)
    requires bitrate > 0 && brp > 0 && bitrate * brp < TWO_32
    ensures tq < 3 || !Exact(c.fclk, bitrate, brp, tq) ==> NonePasses(c, bitrate, brp)
    ensures tq >= 3 && !(c.tseg2Min <= Left2(c, tq) <= c.tseg2Max) ==> NonePasses(c, bitrate, brp)
    ensures RateTest(c, bitrate, brp, tq)
  {
    MultipleAtLeast(bitrate, brp);
    var product := bitrate * brp;
    var quanta := c.fclk / product;
    QuantaDecide(c, bitrate, brp, product, quanta);
    tq := quanta;
  }

  lemma QuantaDecide(c: BtConst, bitrate: u32, brp: u32, product: nat, tq: nat)
    requires bitrate > 0 && brp > 0 && product == bitrate * brp && 0 < product < TWO_32
    requires tq == c.fclk / product
    ensures tq < TWO_32
    ensures tq < 3 || !Exact(c.fclk, bitrate, brp, tq) ==> NonePasses(c, bitrate, brp)
    ensures tq >= 3 && !(c.tseg2Min <= Left2(c, tq) <= c.tseg2Max) ==> NonePasses(c, bitrate, brp)
    ensures RateTest(c, bitrate, brp, tq)
  {
    CandidateQuanta(c, bitrate, brp, tq);
    forall u | 3 <= u < TWO_32 && Passes(c, bitrate, brp, u)
      ensures u == tq
    {
    }
  }

  /** The second division tests whether the rate is exact. */
  ghost predicate RateTest(c: BtConst, bitrate: nat, brp: nat, tq: nat) {
    brp > 0 && tq > 0 ==>
      && 0 < brp * tq < TWO_32
      && (c.fclk / (brp * tq) == bitrate <==> Exact(c.fclk, bitrate, brp, tq))
  }

  /** The segments that a prescaler gets for a number of quanta. */
  function SegmentsFor(c: BtConst, brp: u32, tq: u32): Segments
    requires tq > 0
  {
    Segments(brp, Clamped1(c, tq), Left2(c, tq))
  }

  /** One round of the search. */
  method TryPrescaler(c: BtConst, bitrate: u32, brp: u32) returns (r: Option<Segments>, ghost tq: nat)
    requires bitrate > 0 && brp > 0 && bitrate * brp < TWO_32
    ensures r.Some? ==> Passes(c, bitrate, brp, tq) && r.value == SegmentsFor(c, brp, tq)
    ensures r.None? ==> NonePasses(c, bitrate, brp)
  {
    var quanta := BitQuanta(c, bitrate, brp);
    tq := quanta;
    if quanta < 3 {
      return None, tq;
    }
    r := ChooseSegments(c, brp, quanta);
    if r.Some? {
      var exact := RateMatches(c, bitrate, brp, r.value, tq);
      if !exact {
        return None, tq;
      }
    }
  }

  /** The check at the end of a round. */
  method RateMatches(c: BtConst, bitrate: u32, brp: u32, s: Segments, ghost tq: nat) returns (ok: bool)
    requires brp > 0 && tq > 0 && Quanta(s) == tq && RateTest(c, bitrate, brp, tq)
    ensures ok <==> Exact(c.fclk, bitrate, brp, tq)
  {
    QuotientUnique(brp * tq, 0, brp * tq, TWO_32);
    var actual := c.fclk / (brp * Quanta(s) % TWO_32);
    ok := actual == bitrate;
  }

  /** The search: the first prescaler of the device's progression that passes. */
  method FindBitTiming(c: BtConst, bitrate: u32) returns (r: Outcome, ghost tq: nat)
    requires WellPosed(c, bitrate)
    ensures bitrate == 0 ==> r == BadArgument
    ensures bitrate > 0 && c.fclk == 0 ==> r == NoClock
    ensures r.Found? ==>
      var s := r.segments;
      && OnProgression(c, s.brp) && Passes(c, bitrate, s.brp, tq)
      && s == SegmentsFor(c, s.brp, tq)
      && (c.tseg1Max + c.tseg2Max < TWO_32 && 3 * (tq - 1) < TWO_32 ==>
            tq == 1 + s.phaseSeg1 as int + s.phaseSeg2 && SamplesWell(c, s))
      && forall brp: nat :: brp < s.brp && OnProgression(c, brp) ==> NonePasses(c, bitrate, brp)
    ensures bitrate > 0 && c.fclk > 0 && !r.Found? ==>
      r == BadArgument && forall brp: nat :: OnProgression(c, brp) ==> NonePasses(c, bitrate, brp)
  {
    tq := 0;
    if bitrate == 0 {
      return BadArgument, tq;
    }
    if c.fclk == 0 {
      return NoClock, tq;
    }
    var brp, k := c.brpMin, 0;
    while brp <= c.brpMax
      invariant brp == c.brpMin + k * c.brpInc && k >= 0 && brp < TWO_32
      invariant forall b: nat :: b < brp && OnProgression(c, b) ==> NonePasses(c, bitrate, b)
      decreases c.brpMax + c.brpInc - brp
    {
      QuotientUnique(brp - c.brpMin, k, 0, c.brpInc);
      MonotoneProduct(bitrate, brp, c.brpMax);
      var found;
      found, tq := TryPrescaler(c, bitrate, brp);
      if found.Some? {
        if c.tseg1Max + c.tseg2Max < TWO_32 && 3 * (tq - 1) < TWO_32 {
          SamplePoint(c, bitrate, brp, tq);
        }
        return Found(found.value), tq;
      }
      NextOnProgression(c, brp, k);
      brp, k := brp + c.brpInc, k + 1;
    }
    r := BadArgument;
  }

  lemma MonotoneProduct(a: nat, b: nat, c: nat)
    requires b <= c
    ensures a * b <= a * c
  {
    assert a * c == a * b + a * (c - b);
  }

  lemma NextOnProgression(c: BtConst, brp: nat, k: nat)
    requires c.brpInc > 0 && brp == c.brpMin + k * c.brpInc
    ensures brp + c.brpInc == c.brpMin + (k + 1) * c.brpInc
    ensures forall b: nat :: brp < b < brp + c.brpInc ==> !OnProgression(c, b)
  {
    assert (k + 1) * c.brpInc == k * c.brpInc + c.brpInc;
    forall b: nat | brp < b < brp + c.brpInc
      ensures !OnProgression(c, b)
    {
      QuotientUnique(b - c.brpMin, k, b - brp, c.brpInc);
    }
  }

  /** What a result means: both segments within the device's bounds, and the rate
      right to the last bit per second. The second segment cannot have wrapped if the
      device's bounds add up to less than 2^32: a wrapped one exceeds its bound. */
  lemma SegmentsAreSound(c: BtConst, bitrate: nat, brp: nat, tq: nat)
    requires Passes(c, bitrate, brp, tq)
    ensures c.tseg2Min <= Left2(c, tq) <= c.tseg2Max && Clamped1(c, tq) <= c.tseg1Max
    ensures c.tseg1Min <= c.tseg1Max ==> c.tseg1Min <= Clamped1(c, tq)
    ensures c.tseg1Max + c.tseg2Max < TWO_32 ==>
      var quanta := 1 + Clamped1(c, tq) + Left2(c, tq);
      brp * quanta * bitrate <= c.fclk < brp * quanta * (bitrate + 1)
  {
    var t1 := Clamped1(c, tq);
    if t1 > tq - 1 {
      QuotientUnique(tq - 1 - t1, -1, tq - 1 - t1 + TWO_32, TWO_32);
    } else {
      QuotientUnique(tq - 1 - t1, 0, tq - 1 - t1, TWO_32);
    }
  }

  // ---- The sample point ----

  /** With first segment w the bit is sampled at three quarters, as near as quanta allow:
      there is exactly one such w. */
  predicate AtThreeQuarters(tq: int, w: int) {
    3 * tq - 2 <= 4 * (1 + w) <= 3 * tq + 1
  }

  /** The sample point of a result, from its fields alone: at three quarters; or the first
      segment is as long as it may be and the point before; or as short and behind. Bounds
      that contradict each other give the upper one. */
  predicate SamplesWell(c: BtConst, s: Segments) {
    var tq, first: int := 1 + s.phaseSeg1 as int + s.phaseSeg2, s.phaseSeg1;
    || AtThreeQuarters(tq, first)
    || (first == c.tseg1Max && (4 * (1 + first) < 3 * tq - 2 || c.tseg1Min > c.tseg1Max))
    || (first == c.tseg1Min && 3 * tq + 1 < 4 * (1 + first))
  }

  function Clamped(w: int, low: int, high: int): int {
    if (if w < low then low else w) > high then high else if w < low then low else w
  }

  lemma FirstSegment(c: BtConst, tq: u32, w: nat)
    requires tq > 0 && 3 * (tq - 1) < TWO_32 && AtThreeQuarters(tq, w)
    ensures Clamped1(c, tq) == Clamped(w, c.tseg1Min, c.tseg1Max)
  {
    QuotientUnique((tq - 1) * 3, 0, (tq - 1) * 3, TWO_32);
    assert (tq - 1) * 3 / 4 == w;
  }

  /** A second segment that wrapped is above its bound, if the bounds add up to less than
      2^32; one that did not is what is left. */
  lemma SecondSegment(c: BtConst, tq: u32)
    requires tq > 0 && c.tseg1Max + c.tseg2Max < TWO_32
    ensures Clamped1(c, tq) <= tq - 1 ==> Left2(c, tq) == tq - 1 - Clamped1(c, tq)
    ensures Clamped1(c, tq) > tq - 1 ==> Left2(c, tq) > c.tseg2Max
  {
    var left := tq - 1 - Clamped1(c, tq);
    QuotientUnique(left, if left < 0 then -1 else 0, if left < 0 then left + TWO_32 else left, TWO_32);
  }

  /** When a prescaler passes: the rate is exact, and the segments, the first at three
      quarters or at a bound, are within bounds. It is passed over in no other case. */
  lemma PassesIff(c: BtConst, bitrate: nat, brp: nat, tq: u32, w: nat)
    requires 3 <= tq && 3 * (tq - 1) < TWO_32 && c.tseg1Max + c.tseg2Max < TWO_32
    requires AtThreeQuarters(tq, w)
    ensures
      var first := Clamped(w, c.tseg1Min, c.tseg1Max);
      Passes(c, bitrate, brp, tq)
        == (Exact(c.fclk, bitrate, brp, tq) && c.tseg2Min <= tq - 1 - first <= c.tseg2Max)
  {
    FirstSegment(c, tq, w);
    SecondSegment(c, tq);
  }

  lemma SamplePoint(c: BtConst, bitrate: nat, brp: u32, tq: nat)
    requires Passes(c, bitrate, brp, tq) && c.tseg1Max + c.tseg2Max < TWO_32 && 3 * (tq - 1) < TWO_32
    ensures
      var s := SegmentsFor(c, brp, tq);
      1 + s.phaseSeg1 as int + s.phaseSeg2 == tq && SamplesWell(c, s)
  {
    var w := (tq - 1) * 3 / 4;
    FirstSegment(c, tq, w);
    SecondSegment(c, tq);
  }

  /** Where three times the quanta wrap, the sample point is lost: here the first segment is
      empty and the bit is sampled at its start. */
  lemma WrappedQuantaSampleEarly()
    ensures
      var c := BtConst(0x5555_5557, 0, 0x1000_0000, 0, 0x8000_0000, 1, 1, 1);
      && WellPosed(c, 1) && Passes(c, 1, 1, 0x5555_5557)
      && SegmentsFor(c, 1, 0x5555_5557) == Segments(1, 0, 0x5555_5556)
      && !SamplesWell(c, SegmentsFor(c, 1, 0x5555_5557))
  {
    var c := BtConst(0x5555_5557, 0, 0x1000_0000, 0, 0x8000_0000, 1, 1, 1);
    QuotientUnique(0x5555_5556 * 3, 1, 2, TWO_32);
    assert Clamped1(c, 0x5555_5557) == 0;
    SecondSegment(c, 0x5555_5557);
  }
}
