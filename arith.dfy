/** Facts about Euclidean division by a positive divisor, the only kind the
    stride engine performs. For a positive divisor Dafny's `/` and `%` agree
    with Python's floor division and modulo, so these facts hold of the
    source's operators as well. */
module Arith {

  /** Division by a positive divisor is determined by any quotient and
      remainder that reassemble the dividend. */
  lemma DivModUnique(x: int, d: int, q: int, r: int)
    requires d > 0 && 0 <= r < d && x == q * d + r
    ensures x / d == q && x % d == r
  {
    var q', r' := x / d, x % d;
    assert x == q' * d + r' && 0 <= r' < d;
    assert (q - q') * d == r' - r;
    OneStepAtLeast(q - q', d);
    OneStepAtLeast(q' - q, d);
  }

  /** The implication form of DivModUnique, for use where the facts are
      known only on some paths. */
  lemma DivModOf(x: int, d: int, q: int, r: int)
    ensures d > 0 && 0 <= r < d && x == q * d + r ==> x / d == q && x % d == r
  {
    if d > 0 && 0 <= r < d && x == q * d + r {
      DivModUnique(x, d, q, r);
    }
  }

  /** A positive multiple of `d` is at least `d`. */
  lemma OneStepAtLeast(a: int, d: int)
    requires d > 0
    ensures a >= 1 ==> a * d >= d
  {
    if a >= 1 {
      assert a * d == (a - 1) * d + d;
      MulMono(0, a - 1, d);
    }
  }

  /** `i` fits `m` times in `k`-sized steps exactly when `i <= m / k`. */
  lemma LeDivIff(i: int, m: int, k: int)
    requires k > 0 && m >= 0 && i >= 0
    ensures i <= m / k <==> i * k <= m
  {
    var q, r := m / k, m % k;
    assert m == q * k + r && 0 <= r < k;
    if i <= q {
      assert i * k <= q * k by { MulMono(i, q, k); }
    } else {
      assert q + 1 <= i;
      assert (q + 1) * k <= i * k by { MulMono(q + 1, i, k); }
      assert (q + 1) * k == q * k + k;
    }
  }

  lemma MulMono(a: int, b: int, k: int)
    requires a <= b && k >= 0
    ensures a * k <= b * k
  {
    assert b * k - a * k == (b - a) * k;
    assert (b - a) * k >= 0;
  }

  /** The quotient is at most `b` exactly when the dividend is below the
      start of quotient `b + 1`. */
  lemma DivAtMostIff(n: int, d: int, b: int)
    requires d > 0
    ensures n / d <= b <==> n < (b + 1) * d
  {
    var q := n / d;
    assert n == q * d + n % d && 0 <= n % d < d;
    if q <= b {
      MulMono(q + 1, b + 1, d);
      assert (q + 1) * d == q * d + d;
    } else {
      MulMono(b + 1, q, d);
    }
  }

  /** Digit `i` of `n` in base `W`, followed by a lower digit, stays below `W * n`. */
  lemma MixedRadixBound(i: int, n: int, W: int, c: int)
    requires 0 <= i < n && 0 <= c < W
    ensures 0 <= i * W + c < W * n
  {
    MulMono(i, n - 1, W);
    MulMono(0, i, W);
    assert (n - 1) * W == W * n - W;
  }
}
