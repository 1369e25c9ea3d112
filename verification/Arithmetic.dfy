/** Facts about division and remainder with a variable divisor. */
module Arithmetic {

  lemma MultipleAtLeast(k: int, c: int)
    requires 0 < c
    ensures k >= 1 ==> k * c >= c
    ensures k <= -1 ==> k * c <= -c
  {
    if k >= 1 {
      assert k * c == c + (k - 1) * c;
    } else if k <= -1 {
      assert k * c == -c + (k + 1) * c;
    }
  }

  lemma QuotientUnique(x: int, q: int, r: int, c: int)
    requires 0 <= r < c && x == q * c + r
    ensures x / c == q && x % c == r
  {
    assert (x / c - q) * c == r - x % c;
    MultipleAtLeast(x / c - q, c);
  }

  lemma ModOfMultiple(x: int, m: int, c: int)
    requires 0 < c && 0 < m && m % c == 0
    ensures (x % m) % c == x % c
  {
    var q, k, r := x / m, m / c, x % m;
    assert x == (q * k + r / c) * c + r % c by {
      assert x == q * m + r && m == k * c && r == (r / c) * c + r % c;
      assert q * (k * c) == (q * k) * c;
      assert (q * k + r / c) * c == (q * k) * c + (r / c) * c;
    }
    QuotientUnique(x, q * k + r / c, r % c, c);
  }

  lemma WrapOnce(x: int, c: int)
    requires 0 <= x < 2 * c
    ensures x % c == if x < c then x else x - c
  {
    if x < c {
      QuotientUnique(x, 0, x, c);
    } else {
      QuotientUnique(x, 1, x - c, c);
    }
  }

  /** Two positions less than one capacity apart have different ring indices. */
  lemma NearPositionsDiffer(a: int, b: int, c: int)
    requires 0 < b - a < c
    ensures a % c != b % c
  {
    assert (b / c - a / c) * c == b - a - (b % c - a % c);
    MultipleAtLeast(b / c - a / c, c);
  }

  lemma ModShift(x: int, c: int)
    requires 0 < c
    ensures (x + c) % c == x % c
  {
    QuotientUnique(x + c, x / c + 1, x % c, c);
  }

  lemma ModNext(x: int, c: int)
    requires 1 < c
    ensures (x % c + 1) % c == (x + 1) % c
  {
    var q, r := x / c, x % c;
    assert x == q * c + r;
    if r + 1 == c {
      assert (q + 1) * c == q * c + c;
      QuotientUnique(x + 1, q + 1, 0, c);
      QuotientUnique(c, 1, 0, c);
    } else {
      QuotientUnique(x + 1, q, r + 1, c);
      QuotientUnique(r + 1, 0, r + 1, c);
    }
  }

  lemma ModAdd(x: int, y: int, c: int)
    requires 0 < c
    ensures (x % c + y % c) % c == (x + y) % c
  {
    var q, r := x / c + y / c, x % c + y % c;
    assert x + y == q * c + r by {
      assert x == x / c * c + x % c && y == y / c * c + y % c;
      assert (x / c + y / c) * c == x / c * c + y / c * c;
    }
    if r < c {
      QuotientUnique(r, 0, r, c);
      QuotientUnique(x + y, q, r, c);
    } else {
      QuotientUnique(r, 1, r - c, c);
      assert (q + 1) * c == q * c + c;
      QuotientUnique(x + y, q + 1, r - c, c);
    }
  }
}
