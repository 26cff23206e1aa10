/** Quotients and remainders of integers. */
module Arithmetic {
  /** A number written as quotient and remainder has that quotient and that remainder. */
  lemma QuotientUnique(n: int, q: int, r: int)
    requires 0 <= r < n
    ensures (q * n + r) / n == q && (q * n + r) % n == r
  {
    var x := q * n + r;
    var d := q - x / n;
    assert d * n == x % n - r;
    assert d >= 1 ==> d * n >= n;
    assert d <= -1 ==> d * n <= -n;
  }

  /** Quotient and remainder of the next number. */
  lemma Successor(a: int, n: int)
    requires n > 0
    ensures (a + 1) / n == if a % n + 1 == n then a / n + 1 else a / n
    ensures (a + 1) % n == if a % n + 1 == n then 0 else a % n + 1
  {
    var q, r := a / n, a % n;
    assert a == q * n + r;
    if r + 1 == n {
      assert a + 1 == (q + 1) * n + 0;
      QuotientUnique(n, q + 1, 0);
    } else {
      assert a + 1 == q * n + (r + 1);
      QuotientUnique(n, q, r + 1);
    }
  }

  /** A whole divisor more leaves the remainder as it is. */
  lemma NextCycle(a: int, n: int)
    requires n > 0
    ensures (a + n) % n == a % n
  {
    assert a == a / n * n + a % n;
    assert a + n == (a / n + 1) * n + a % n;
    QuotientUnique(n, a / n + 1, a % n);
  }

  /** Remainders of a sum that stays below twice the divisor. */
  lemma Wrapped(a: int, n: int)
    requires 0 <= a < 2 * n
    ensures a % n == if a < n then a else a - n
  {
    if a < n {
      QuotientUnique(n, 0, a);
    } else {
      QuotientUnique(n, 1, a - n);
    }
  }
}
