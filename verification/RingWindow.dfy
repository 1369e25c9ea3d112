/**
 Arithmetic of a byte ring that is indexed by a free-running 32-bit counter:
 what one store changes in the stretch between the consumer's and the
 producer's position, and why the counter's wrap does not matter.
 */
module RingWindow {
  import opened Arithmetic
  import opened MachineInts

  /** A usable capacity: positions taken modulo 2^32 keep their ring index, and
      head - tail tells a full ring from an empty one. */
  ghost predicate ValidCapacity(cap: int) {
    0 < cap < TWO_32 && TWO_32 % cap == 0
  }

  /** The `n` bytes that start at unbounded position `from` of the ring `region`. */
  function Window(region: seq<byte>, from: nat, n: nat): (w: seq<byte>)
    requires |region| > 0
    ensures |w| == n
  {
    seq(n, i requires 0 <= i < n => region[(from + i) % |region|])
  }

  /** The wrapping counter indexes the ring exactly as the unbounded position does. */
  lemma CounterIndex(pos: nat, k: nat, cap: int)
    requires ValidCapacity(cap) && k < TWO_32
    ensures Add32(pos % TWO_32, k) % cap == (pos + k) % cap
    ensures Add32(pos % TWO_32, k) == (pos + k) % TWO_32
  {
    assert Add32(pos % TWO_32, k) == (pos + k) % TWO_32;
    ModOfMultiple(pos + k, TWO_32, cap);
  }

  /** The wrapping difference of two counters is the distance of the positions. */
  lemma CounterDistance(head: nat, tail: nat)
    requires tail <= head < tail + TWO_32
    ensures Sub32(head % TWO_32, tail % TWO_32) == head - tail
  {
    var d := head % TWO_32 - tail % TWO_32;
    assert (head - tail - d) % TWO_32 == 0;
  }

  /** A store outside [from, from + n) does not change that stretch. */
  lemma StoreOutside(region: seq<byte>, from: nat, n: nat, p: nat, v: byte)
    requires |region| > 0 && from + n <= p < from + |region|
    ensures Window(region[p % |region| := v], from, n) == Window(region, from, n)
  {
    var r' := region[p % |region| := v];
    forall i | 0 <= i < n
      ensures Window(r', from, n)[i] == Window(region, from, n)[i]
    {
      NearPositionsDiffer(from + i, p, |region|);
    }
  }

  /** A store just after a stretch that leaves room extends it by the stored byte. */
  lemma StoreNext(region: seq<byte>, from: nat, n: nat, v: byte)
    requires n < |region|
    ensures Window(region[(from + n) % |region| := v], from, n + 1) == Window(region, from, n) + [v]
  {
    StoreOutside(region, from, n, from + n, v);
    var r' := region[(from + n) % |region| := v];
    assert Window(r', from, n + 1) == Window(r', from, n) + [v];
  }

  lemma WindowSplit(region: seq<byte>, from: nat, n: nat, k: nat)
    requires |region| > 0
    ensures Window(region, from, n + k) == Window(region, from, n) + Window(region, from + n, k)
  {
    assert Window(region, from, n + k)[n..] == Window(region, from + n, k);
    assert Window(region, from, n + k)[..n] == Window(region, from, n);
  }

  lemma WindowSlice(region: seq<byte>, from: nat, n: nat, a: nat, b: nat)
    requires |region| > 0 && a <= b <= n
    ensures Window(region, from, n)[a..b] == Window(region, from + a, b - a)
  {
    WindowSplit(region, from, a, b - a);
    WindowSplit(region, from, b, n - b);
    assert Window(region, from, n) == Window(region, from, b) + Window(region, from + b, n - b);
    assert Window(region, from, n)[..b] == Window(region, from, b);
    assert Window(region, from, n)[a..b] == Window(region, from, b)[a..];
  }

  /** What a consumer's local tail and its remaining bytes are `k` bytes further on. */
  lemma LocalTailAdvance(region: seq<byte>, pos: nat, n: nat, k: nat)
    requires ValidCapacity(|region|) && k <= n && k < TWO_32
    ensures Add32(pos % TWO_32, k) == (pos + k) % TWO_32
    ensures Window(region, pos, n)[k..] == Window(region, pos + k, n - k)
  {
    CounterIndex(pos, k, |region|);
    WindowSlice(region, pos, n, k, n);
    assert Window(region, pos, n)[k..n] == Window(region, pos, n)[k..];
  }
}
