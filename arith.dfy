/** Facts about Euclidean division that the rule and CPU counters rely on. */
module Arith {

  lemma MulAtLeast(x: int, n: int)
    requires x >= 1 && n >= 0
    ensures x * n >= n
  {
    assert x * n == (x - 1) * n + n;
  }

  /** The remainder is determined by any quotient-remainder decomposition. */
  lemma ModUnique(p: int, n: int, a: int, r: int)
    requires 0 < n && 0 <= r < n && p == a * n + r
    ensures p % n == r
  {
    var q, s := p / n, p % n;
    assert p == q * n + s;
    assert (q - a) * n == r - s by {
      assert q * n - a * n == (q - a) * n;
    }
    if q > a { MulAtLeast(q - a, n); }
    if q < a { MulAtLeast(a - q, n); }
  }

  lemma ModShift(p: int, n: int)
    requires 0 < n <= p
    ensures (p - n) % n == p % n
  {
    var q, r := (p - n) / n, (p - n) % n;
    assert p - n == q * n + r;
    assert p == (q + 1) * n + r;
    ModUnique(p, n, q + 1, r);
  }

  /** Incrementing a counter modulo `n` tracks the plain count modulo `n`. */
  lemma ModSucc(k: int, n: int)
    requires 0 < n && 0 <= k
    ensures (k % n + 1) % n == (k + 1) % n
  {
    var q, r := k / n, k % n;
    assert k == q * n + r;
    if r + 1 < n {
      ModUnique(k + 1, n, q, r + 1);
    } else {
      assert k + 1 == (q + 1) * n + 0;
      ModUnique(k + 1, n, q + 1, 0);
    }
  }
}
