/** Facts about Euclidean remainder that the ring and sequence-number modules share. */
module Modular {

  lemma ScaleBound(n: int, d: int)
    requires n > 0
    ensures d >= 1 ==> n * d >= n
    ensures d <= -1 ==> n * d <= -n
    ensures d == 0 ==> n * d == 0
  {
  }

  /** The remainder is the only value in [0, n) that differs from x by a multiple of n. */
  lemma ModUnique(x: int, n: int, q: int, r: int)
    requires 0 <= r < n && x == n * q + r
    ensures x % n == r && x / n == q
  {
    var d := q - x / n;
    assert n * d == n * q - n * (x / n);
    ScaleBound(n, d);
  }

  /** Adding a multiple of n does not change the remainder. */
  lemma ModShift(x: int, n: int, k: int)
    requires n > 0
    ensures (x + n * k) % n == x % n
  {
    assert x + n * k == n * (x / n + k) + x % n;
    ModUnique(x + n * k, n, x / n + k, x % n);
  }

  /** One step further after reducing is one step further. */
  lemma ModStep(x: int, n: int)
    requires n > 0
    ensures (x % n + 1) % n == (x + 1) % n
  {
    assert x + 1 == (x % n + 1) + n * (x / n);
    ModShift(x % n + 1, n, x / n);
  }

  /** Two integers less than n apart have different remainders. */
  lemma ModDistinct(x: int, y: int, n: int)
    requires n > 0 && 0 < y - x < n
    ensures x % n != y % n
  {
    if x % n == y % n {
      var d := y / n - x / n;
      assert y - x == n * d;
      ScaleBound(n, d);
    }
  }

  /** Integers that differ by a multiple of n have the same remainder, and conversely. */
  lemma ModCongruent(x: int, y: int, n: int)
    requires n > 0
    ensures x % n == y % n <==> (x - y) % n == 0
  {
    if x % n == y % n {
      assert x - y == n * (x / n - y / n) + 0;
      ModUnique(x - y, n, x / n - y / n, 0);
    }
    if (x - y) % n == 0 {
      assert x == y + n * ((x - y) / n);
      ModShift(y, n, (x - y) / n);
    }
  }

  /** Taking the remainder modulo a multiple of n first changes nothing. */
  lemma ModOfMultiple(x: int, m: int, n: int)
    requires n > 0 && m > 0 && m % n == 0
    ensures (x % m) % n == x % n
  {
    var k := m / n;
    assert m == n * k;
    assert x == m * (x / m) + x % m;
    assert m * (x / m) == n * (k * (x / m)) by {
      assert (n * k) * (x / m) == n * (k * (x / m));
    }
    ModShift(x % m, n, k * (x / m));
  }

  lemma ModRemoved(x: int, n: int)
    requires n > 0
    ensures (x - x % n) % n == 0
  {
    ModUnique(x - x % n, n, x / n, 0);
  }

  /** A remainder by n of something already reduced: the ring index n places from a
      position inside [0, n) is found by at most one subtraction. */
  lemma ModWrap(x: int, n: int)
    requires 0 <= x < 2 * n
    ensures x % n == if x < n then x else x - n
  {
    if x < n {
      ModUnique(x, n, 0, x);
    } else {
      ModUnique(x, n, 1, x - n);
    }
  }
}
