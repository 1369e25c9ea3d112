/**
 Fixed-width unsigned integers of the source, as subsets of `int`. A wrapping
 operation is written out where the source relies on it, and a bit mask that
 selects low bits is a remainder.
 */
module MachineInts {
  import opened Arithmetic

  const TWO_8 := 0x100
  const TWO_16 := 0x1_0000
  const TWO_32 := 0x1_0000_0000
  const TWO_64 := 0x1_0000_0000_0000_0000

  type byte = x: int | 0 <= x < TWO_8
  type u16 = x: int | 0 <= x < TWO_16
  type u32 = x: int | 0 <= x < TWO_32
  type u64 = x: int | 0 <= x < TWO_64

  function Add32(a: u32, b: u32): u32 {
    (a + b) % TWO_32
  }

  function Sub32(a: u32, b: u32): u32 {
    (a - b) % TWO_32
  }

  function CountIf(c: u32, one: bool): u32 {
    if one then Add32(c, 1) else c
  }

  /** A 32-bit counter after `n` increments. */
  function Counted(c: u32, n: nat): u32 {
    if n == 0 then c else Add32(Counted(c, n - 1), 1)
  }

  lemma {:induction false} CountedIsModular(c: u32, n: nat)
    ensures Counted(c, n) == (c + n) % TWO_32
  {
    if n == 0 {
      QuotientUnique(c, 0, c, TWO_32);
    }
    if n > 0 {
      CountedIsModular(c, n - 1);
      ModNext(c + n - 1, TWO_32);
    }
  }

  /** True when the single-bit `mask` is set in `x`. */
  predicate HasFlag(x: nat, mask: nat)
    requires mask > 0
  {
    (x / mask) % 2 == 1
  }

  function Min(a: int, b: int): int {
    if a < b then a else b
  }

  function LittleEndian16(x: u16): (b: seq<byte>) {
    [x % TWO_8, x / TWO_8]
  }

  function LittleEndian32(x: u32): (b: seq<byte>)
    ensures |b| == 4
  {
    LittleEndian16(x % TWO_16) + LittleEndian16(x / TWO_16)
  }

  function LittleEndian64(x: u64): (b: seq<byte>)
    ensures |b| == 8
  {
    LittleEndian32(x % TWO_32) + LittleEndian32(x / TWO_32)
  }

  function FromLittleEndian16(b: seq<byte>): u16
    requires |b| == 2
  {
    b[0] + TWO_8 * b[1]
  }

  function FromLittleEndian32(b: seq<byte>): u32
    requires |b| == 4
  {
    FromLittleEndian16(b[..2]) + TWO_16 * FromLittleEndian16(b[2..])
  }

  function FromLittleEndian64(b: seq<byte>): u64
    requires |b| == 8
  {
    FromLittleEndian32(b[..4]) + TWO_32 * FromLittleEndian32(b[4..])
  }

  lemma LittleEndian32RoundTrip(x: u32)
    ensures FromLittleEndian32(LittleEndian32(x)) == x
  {
    var b := LittleEndian32(x);
    assert b[..2] == LittleEndian16(x % TWO_16);
    assert b[2..] == LittleEndian16(x / TWO_16);
  }

  lemma LittleEndian64RoundTrip(x: u64)
    ensures FromLittleEndian64(LittleEndian64(x)) == x
  {
    var b := LittleEndian64(x);
    assert b[..4] == LittleEndian32(x % TWO_32);
    assert b[4..] == LittleEndian32(x / TWO_32);
    LittleEndian32RoundTrip(x % TWO_32);
    LittleEndian32RoundTrip(x / TWO_32);
  }

  /** The least significant byte comes first. */
  lemma LittleEndianWeights(x: u32)
    ensures
      var b := LittleEndian32(x);
      b[0] as int + 0x100 * (b[1] as int) + 0x1_0000 * (b[2] as int) + 0x100_0000 * (b[3] as int) == x
  {
  }

  /** The least significant half comes first. */
  lemma LittleEndian64Halves(x: u64)
    ensures LittleEndian64(x)[..4] == LittleEndian32(x % TWO_32)
    ensures LittleEndian64(x)[4..] == LittleEndian32(x / TWO_32)
  {
  }
}
