/**
 The PCAN bit-timing search: `calculateBitTiming` and `writeBitTiming` of
 usb_can_driver/codecs/pcan_codec.cc. `Exact` says without any division which
 prescaler gives a bit rate; this search and the one of `GsUsbTiming` are proved
 against it.
 */
module BitTiming {
  import opened Arithmetic
  import opened MachineInts
  import opened Results

  datatype Timing = Timing(brp: u32, tseg1: u32, tseg2: u32, sjw: u32)

  /** tq quanta is the most that fits into a bit at prescaler `brp`, and with it the
      clock gives exactly `bitrate` (rounded down to whole bits per second). */
  predicate Exact(clock: nat, bitrate: nat, brp: nat, tq: nat) {
    && brp * tq * bitrate <= clock < brp * (tq + 1) * bitrate
    && clock < brp * tq * (bitrate + 1)
  }

  lemma QuotientIff(n: nat, d: nat, q: nat)
    requires d > 0
    ensures n / d == q <==> q * d <= n < (q + 1) * d
  {
    assert (q + 1) * d == q * d + d;
    if q * d <= n < (q + 1) * d {
      QuotientUnique(n, q, n - q * d, d);
    }
  }

  /** The two divisions of the searches, and what they test together. */
  lemma DivisionsAreExact(clock: nat, bitrate: nat, brp: nat, tq: nat)
    requires bitrate > 0 && brp > 0 && tq > 0
    ensures bitrate * brp > 0 && brp * tq > 0
    ensures clock / (bitrate * brp) == tq && clock / (brp * tq) == bitrate <==> Exact(clock, bitrate, brp, tq)
  {
    MultipleAtLeast(bitrate, brp);
    MultipleAtLeast(brp, tq);
    QuotientIff(clock, bitrate * brp, tq);
    QuotientIff(clock, brp * tq, bitrate);
    assert tq * (bitrate * brp) == brp * tq * bitrate == bitrate * (brp * tq);
    assert (tq + 1) * (bitrate * brp) == brp * (tq + 1) * bitrate;
    assert (bitrate + 1) * (brp * tq) == brp * tq * (bitrate + 1);
  }

  // ---- PCAN ----

  const CRYSTAL_HZ := 80_000_000
  const MAX_BRP := 1024
  const MAX_TSEG1 := 256
  const MAX_TSEG2 := 128
  const MIN_QUANTA := 3
  const MAX_QUANTA := 343

  function Seg1(tq: nat): nat
    requires tq > 0
  {
    (tq - 1) * 3 / 4
  }

  /** The sample point is at three quarters, and the segments are within bounds
      exactly for 3 to 343 quanta. */
  lemma SegmentsFit(tq: nat)
    requires MIN_QUANTA <= tq <= 385
    ensures 3 * tq - 2 <= 4 * (1 + Seg1(tq)) <= 3 * tq + 1
    ensures 1 <= Seg1(tq) && 1 <= tq - 1 - Seg1(tq) <= MAX_TSEG2
    ensures Seg1(tq) <= MAX_TSEG1 <==> tq <= MAX_QUANTA
  {
  }

  /** One candidate of the search: the timing if it passes. */
  method TryPrescaler(bitrate: u32, testBrp: u32) returns (r: Option<Timing>)
    requires bitrate > 0 && 1 <= testBrp <= MAX_BRP && (bitrate * testBrp) % TWO_32 != 0
    ensures r.Some? ==>
      var t := r.value;
      var tq := 1 + t.tseg1 + t.tseg2;
      && t.brp == testBrp && MIN_QUANTA <= tq <= MAX_QUANTA && Exact(CRYSTAL_HZ, bitrate, testBrp, tq)
      && t.tseg1 == Seg1(tq) && t.sjw == Min(t.tseg2, 4)
    ensures r.None? ==> forall tq :: MIN_QUANTA <= tq <= MAX_QUANTA ==> !Exact(CRYSTAL_HZ, bitrate, testBrp, tq)
  {
    var product := (bitrate * testBrp) % TWO_32;
    var tq := CRYSTAL_HZ / product;
    OnlyCandidate(bitrate, testBrp, tq);
    if tq < 3 || tq > 385 {
      return None;
    }
    var tsegTotal := tq - 1;
    var t1 := (tsegTotal * 3) / 4;
    var t2 := tsegTotal - t1;
    SegmentsFit(tq);
    if t1 < 1 || t1 > MAX_TSEG1 {
      return None;
    }
    if t2 < 1 || t2 > MAX_TSEG2 {
      return None;
    }
    MultipleAtLeast(testBrp, tq);
    var actual := CRYSTAL_HZ / (testBrp * (1 + t1 + t2));
    if actual != bitrate {
      return None;
    }
    r := Some(Timing(testBrp, t1, t2, if t2 < 4 then t2 else 4));
  }

  /** The 32-bit product may have wrapped: the check at the end of a round fails then,
      so that a candidate passes exactly if it is exact. */
  lemma OnlyCandidate(bitrate: u32, brp: nat, tq: nat)
    requires bitrate > 0 && 1 <= brp && (bitrate * brp) % TWO_32 != 0
    requires tq == CRYSTAL_HZ / ((bitrate * brp) % TWO_32)
    ensures forall u :: MIN_QUANTA <= u && Exact(CRYSTAL_HZ, bitrate, brp, u) ==> u == tq
    ensures MIN_QUANTA <= tq ==> brp * tq > 0
    ensures MIN_QUANTA <= tq ==> (CRYSTAL_HZ / (brp * tq) == bitrate <==> Exact(CRYSTAL_HZ, bitrate, brp, tq))
  {
    forall u | MIN_QUANTA <= u && Exact(CRYSTAL_HZ, bitrate, brp, u)
      ensures u == tq
    {
      NoWrap(bitrate, brp, u);
      DivisionsAreExact(CRYSTAL_HZ, bitrate, brp, u);
    }
    if MIN_QUANTA <= tq {
      DivisionsAreExact(CRYSTAL_HZ, bitrate, brp, tq);
      if CRYSTAL_HZ / (brp * tq) == bitrate {
        QuotientIff(CRYSTAL_HZ, brp * tq, bitrate);
        assert bitrate * (brp * tq) == brp * tq * bitrate;
        NoWrap(bitrate, brp, tq);
      }
    }
  }

  lemma NoWrap(bitrate: u32, brp: nat, tq: nat)
    requires bitrate > 0 && brp > 0 && tq >= 1 && brp * tq * bitrate <= CRYSTAL_HZ
    ensures 0 < bitrate * brp < TWO_32 && (bitrate * brp) % TWO_32 == bitrate * brp
  {
    assert brp * tq * bitrate == tq * (bitrate * brp);
    MultipleAtLeast(bitrate, brp);
    MultipleAtLeast(tq, bitrate * brp);
    QuotientUnique(bitrate * brp, 0, bitrate * brp, TWO_32);
  }

  /** `t` gives the bit rate, within the bounds of the device. */
  predicate IsTiming(bitrate: nat, t: Timing) {
    var tq := 1 + t.tseg1 + t.tseg2;
    && 1 <= t.brp <= MAX_BRP && MIN_QUANTA <= tq <= MAX_QUANTA
    && Exact(CRYSTAL_HZ, bitrate, t.brp, tq)
    && t.tseg1 == Seg1(tq) && t.sjw == Min(t.tseg2, 4)
  }

  predicate NoneExact(bitrate: nat, brp: nat) {
    forall tq :: MIN_QUANTA <= tq <= MAX_QUANTA ==> !Exact(CRYSTAL_HZ, bitrate, brp, tq)
  }

  /** The search: the least prescaler for which some number of quanta is exact. The
      bit rates excluded are those for which it would divide by zero. */
  method CalculateBitTiming(bitrate: u32) returns (r: Option<Timing>)
    requires bitrate == 0 || bitrate % 0x40_0000 != 0
    ensures bitrate == 0 ==> r.None?
    ensures r.Some? ==> IsTiming(bitrate, r.value)
    ensures r.Some? ==> forall brp :: 1 <= brp < r.value.brp ==> NoneExact(bitrate, brp)
    ensures bitrate > 0 && r.None? ==> forall brp :: 1 <= brp <= MAX_BRP ==> NoneExact(bitrate, brp)
  {
    if bitrate == 0 {
      return None;
    }
    for testBrp := 1 to MAX_BRP + 1
      invariant forall brp :: 1 <= brp < testBrp ==> NoneExact(bitrate, brp)
    {
      ZeroDivisor(bitrate, testBrp);
      r := TryPrescaler(bitrate, testBrp);
      if r.Some? {
        return r;
      }
    }
    r := None;
  }

  /** What a timing means: segments and jump width in bounds, a rate that is right to
      the last bit per second, and a sample point at three quarters. */
  lemma TimingIsSound(bitrate: nat, t: Timing)
    requires IsTiming(bitrate, t)
    ensures 1 <= t.brp <= 1024 && 1 <= t.tseg1 <= 256 && 1 <= t.tseg2 <= 128
    ensures t.sjw <= 4 && t.sjw <= t.tseg2 && (t.sjw == 4 || t.sjw == t.tseg2)
    ensures
      var tq := 1 + t.tseg1 + t.tseg2;
      && t.brp * tq * bitrate <= 80_000_000 < t.brp * tq * (bitrate + 1)
      && 3 * tq - 2 <= 4 * (1 + t.tseg1) <= 3 * tq + 1
  {
    SegmentsFit(1 + t.tseg1 + t.tseg2);
  }

  /** A bit rate that divides the clock exactly is one the search finds. */
  lemma ExactDivisionIsFound(bitrate: nat, brp: nat, tq: nat)
    requires bitrate > 0 && brp > 0 && 3 <= tq <= 343 && brp * tq * bitrate == 80_000_000
    ensures !NoneExact(bitrate, brp)
  {
    MultipleAtLeast(bitrate, brp);
    MultipleAtLeast(brp, tq);
    assert brp * (tq + 1) * bitrate == brp * tq * bitrate + bitrate * brp;
    assert brp * tq * (bitrate + 1) == brp * tq * bitrate + brp * tq;
    assert Exact(CRYSTAL_HZ, bitrate, brp, tq);
  }

  // ---- When the 32-bit product is zero ----

  function Pow2(k: nat): (p: nat)
    ensures p > 0
  {
    if k == 0 then 1 else 2 * Pow2(k - 1)
  }

  /** If 2^k divides a * b and b is at most 2^j, then 2^(k - j) divides a. */
  lemma {:induction false} LargeFactor(a: nat, b: nat, c: nat, k: nat, j: nat)
    requires 1 <= b <= Pow2(j) && j <= k && a * b == c * Pow2(k)
    ensures a % Pow2(k - j) == 0
    decreases k
  {
    if k == j {
      assert Pow2(0) == 1;
    } else if b % 2 == 0 {
      HalveFactor(b, a, c, Pow2(k - 1));
      LargeFactor(a, b / 2, c, k - 1, j - 1);
    } else {
      assert c * (2 * Pow2(k - 1)) == c * Pow2(k - 1) * 2;
      OddProduct(a, b, c * Pow2(k - 1));
      HalveFactor(a, b, c, Pow2(k - 1));
      LargeFactor(a / 2, b, c, k - 1, j);
      DoubleMultiple(a / 2, Pow2(k - 1 - j));
    }
  }

  lemma HalveFactor(x: nat, y: nat, c: nat, p: nat)
    requires x % 2 == 0 && x * y == c * (2 * p)
    ensures x / 2 * y == y * (x / 2) == c * p
  {
    assert x / 2 * 2 * y == 2 * (x / 2 * y);
    assert c * (2 * p) == 2 * (c * p);
  }

  lemma OddProduct(a: nat, b: nat, m: nat)
    requires a * b == m * 2 && b % 2 == 1
    ensures a % 2 == 0
  {
    assert a == a / 2 * 2 + a % 2;
    assert (a / 2 * 2 + a % 2) * b == 2 * (a / 2 * b) + a % 2 * b;
  }

  lemma DoubleMultiple(a: nat, p: nat)
    requires p > 0 && a % p == 0
    ensures (2 * a) % (2 * p) == 0
  {
    assert a == a / p * p;
    assert 2 * a == a / p * (2 * p);
    QuotientUnique(2 * a, a / p, 0, 2 * p);
  }

  lemma TwiceProduct(p: nat, q: nat)
    ensures 2 * (p * q) == 2 * p * q
  {
  }

  lemma {:induction false} Pow2Sum(a: nat, b: nat)
    ensures Pow2(a + b) == Pow2(a) * Pow2(b)
  {
    if a > 0 {
      Pow2Sum(a - 1, b);
      assert Pow2(a + b) == 2 * Pow2((a - 1) + b);
      TwiceProduct(Pow2(a - 1), Pow2(b));
    }
  }

  lemma Powers()
    ensures Pow2(10) == 1024 && Pow2(22) == 0x40_0000 && Pow2(32) == TWO_32
  {
    assert Pow2(1) == 2 && Pow2(2) == 4 && Pow2(3) == 8 && Pow2(4) == 16 && Pow2(5) == 32;
    Pow2Sum(5, 5);
    assert Pow2(11) == 2 * Pow2(10);
    Pow2Sum(11, 11);
    Pow2Sum(22, 10);
  }

  lemma ZeroDivisor(bitrate: u32, brp: nat)
    requires 1 <= brp <= MAX_BRP
    ensures (bitrate * brp) % TWO_32 == 0 ==> bitrate % 0x40_0000 == 0
  {
    Powers();
    if (bitrate * brp) % TWO_32 == 0 {
      var c := bitrate * brp / TWO_32;
      assert bitrate * brp == c * TWO_32;
      LargeFactor(bitrate, brp, c, 32, 10);
    }
  }

  predicate ProductIsZero(bitrate: nat, brp: nat) {
    (bitrate * brp) % TWO_32 == 0
  }

  /** The search comes to `brp` and divides by zero: no smaller prescaler ended it. */
  predicate DividesByZeroAt(bitrate: nat, brp: nat) {
    && 1 <= brp <= MAX_BRP && ProductIsZero(bitrate, brp)
    && forall b :: 1 <= b < brp ==> !ProductIsZero(bitrate, b) && NoneExact(bitrate, b)
  }

  /** 2^22 is too close to a nineteenth of the clock: no multiple of it can be reached. */
  lemma MultiplesAreNotExact(bitrate: nat, brp: nat)
    requires bitrate > 0 && bitrate % 0x40_0000 == 0 && brp >= 1
    ensures NoneExact(bitrate, brp)
  {
    var m := bitrate / 0x40_0000;
    forall tq | MIN_QUANTA <= tq <= MAX_QUANTA
      ensures !Exact(CRYSTAL_HZ, bitrate, brp, tq)
    {
      var n := brp * tq;
      assert n * bitrate == n * m * 0x40_0000;
      assert n * (bitrate + 1) == n * bitrate + n;
      MultipleAtLeast(brp, tq);
      MultipleAtLeast(m, n);
    }
  }

  lemma {:induction false} FirstZero(bitrate: nat, n: nat) returns (brp: nat)
    requires n >= 1 && ProductIsZero(bitrate, n)
    ensures 1 <= brp <= n && ProductIsZero(bitrate, brp)
    ensures forall b :: 1 <= b < brp ==> !ProductIsZero(bitrate, b)
  {
    if b :| 1 <= b < n && ProductIsZero(bitrate, b) {
      brp := FirstZero(bitrate, b);
    } else {
      brp := n;
    }
  }

  /** The search divides by zero exactly for the bit rates excluded: the positive multiples
      of 2^22. */
  lemma DividesByZeroIff(bitrate: u32)
    requires bitrate > 0
    ensures bitrate % 0x40_0000 == 0 <==> exists brp: nat :: DividesByZeroAt(bitrate, brp)
  {
    if bitrate % 0x40_0000 == 0 {
      QuotientUnique(bitrate * MAX_BRP, bitrate / 0x40_0000, 0, TWO_32);
      var brp := FirstZero(bitrate, MAX_BRP);
      forall b | 1 <= b < brp
        ensures NoneExact(bitrate, b)
      {
        MultiplesAreNotExact(bitrate, b);
      }
      assert DividesByZeroAt(bitrate, brp);
    }
    forall brp: nat | DividesByZeroAt(bitrate, brp)
      ensures bitrate % 0x40_0000 == 0
    {
      ZeroDivisor(bitrate, brp);
    }
  }

  /** At 4194304 bit/s the search tries all smaller prescalers and fails at the last. */
  lemma DividesByZeroAt4194304()
    ensures DividesByZeroAt(4_194_304, 1024)
  {
    forall b | 1 <= b < 1024
      ensures !ProductIsZero(4_194_304, b) && NoneExact(4_194_304, b)
    {
      MultiplesAreNotExact(4_194_304, b);
      QuotientUnique(4_194_304 * b, 0, 4_194_304 * b, TWO_32);
    }
  }

  // ---- The PCAN command ----

  const CMD_NOP := 0x000
  const CMD_TIMING_SLOW := 0x004

  function OpcodeChannel(channel: byte, opcode: nat): u16 {
    channel % 16 * 0x1000 + opcode % 0x400
  }

  function NopCommand(channel: byte): (c: seq<byte>)
    ensures |c| == 8
  {
    LittleEndian16(OpcodeChannel(channel, CMD_NOP)) + [0, 0, 0, 0, 0, 0]
  }

  /** The timing command: opcode, error limit, jump width, segments, prescaler, each
      masked to its field. */
  function TimingCommand(channel: byte, t: Timing): (c: seq<byte>)
    requires t.brp > 0 && t.tseg1 > 0 && t.tseg2 > 0 && t.sjw > 0
    ensures |c| == 8
  {
    LittleEndian16(OpcodeChannel(channel, CMD_TIMING_SLOW))
      + [96, (t.sjw - 1) % 0x80, (t.tseg2 - 1) % 0x80, (t.tseg1 - 1) % 0x100]
      + LittleEndian16((t.brp - 1) % 0x400)
  }

  /** What the device reads from a timing command. */
  function TimingOf(c: seq<byte>): Timing
    requires |c| == 8
  {
    Timing(FromLittleEndian16(c[6..]) as int + 1, c[5] as int + 1, c[4] as int + 1, c[3] as int + 1)
  }

  /** Writes the timing command, or a NOP if the bit rate cannot be reached. */
  method WriteBitTiming(channel: byte, bitrate: u32) returns (command: seq<byte>)
    requires bitrate == 0 || bitrate % 0x40_0000 != 0
    ensures |command| == 8
    ensures command == NopCommand(channel) || (
      && FromLittleEndian16(command[..2]) == OpcodeChannel(channel, CMD_TIMING_SLOW)
      && IsTiming(bitrate, TimingOf(command)))
    ensures command == NopCommand(channel) <==>
      bitrate == 0 || forall brp :: 1 <= brp <= MAX_BRP ==> NoneExact(bitrate, brp)
  {
    var timing := CalculateBitTiming(bitrate);
    if timing.None? {
      return NopCommand(channel);
    }
    TimingIsSound(bitrate, timing.value);
    command := TimingCommand(channel, timing.value);
    MasksLoseNothing(channel, timing.value);
    assert !NoneExact(bitrate, timing.value.brp);
  }

  /** The masks of the command lose no bits of a timing within bounds. */
  lemma MasksLoseNothing(channel: byte, t: Timing)
    requires 1 <= t.brp <= MAX_BRP && 1 <= t.tseg1 <= MAX_TSEG1 && 1 <= t.tseg2 <= MAX_TSEG2
    requires 1 <= t.sjw <= 128
    ensures TimingOf(TimingCommand(channel, t)) == t
    ensures TimingCommand(channel, t)[..2] == LittleEndian16(OpcodeChannel(channel, CMD_TIMING_SLOW))
    ensures TimingCommand(channel, t) != NopCommand(channel)
  {
    var c := TimingCommand(channel, t);
    assert c[6..] == LittleEndian16((t.brp - 1) % 0x400);
    assert c[2] == 96 && NopCommand(channel)[2] == 0;
  }

  /** The bytes of the commands: opcode and channel, error limit, and every field less one. */
  lemma CommandBytes(channel: byte, t: Timing)
    requires channel < 16
    requires 1 <= t.brp <= MAX_BRP && 1 <= t.tseg1 <= MAX_TSEG1 && 1 <= t.tseg2 <= MAX_TSEG2 && 1 <= t.sjw <= 128
    ensures NopCommand(channel) == [0x00, 16 * channel, 0, 0, 0, 0, 0, 0]
    ensures TimingCommand(channel, t)[..6] == [0x04, 16 * channel, 96, t.sjw - 1, t.tseg2 - 1, t.tseg1 - 1]
    ensures TimingCommand(channel, t)[6] as int + 0x100 * (TimingCommand(channel, t)[7] as int) == t.brp - 1
  {
    OpcodeBytes(channel, CMD_NOP);
    OpcodeBytes(channel, CMD_TIMING_SLOW);
  }

  lemma OpcodeBytes(channel: byte, opcode: u16)
    requires channel < 16 && opcode < 0x100
    ensures LittleEndian16(OpcodeChannel(channel, opcode)) == [opcode, 16 * channel]
  {
  }
}
