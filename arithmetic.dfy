/** Facts about integer multiplication, division and remainder that the
    partitioning proofs use; each is proved from the definition of Euclidean
    division without nonlinear solving. */
module Arithmetic {

  lemma {:induction false} MulAtLeast(k: int, n: int)
    requires k >= 1 && n >= 0
    ensures k * n >= n
    decreases k
  {
    if k > 1 {
      MulAtLeast(k - 1, n);
      assert k * n == (k - 1) * n + n;
    }
  }

  /** Euclidean division is unique: `q * n + r` with `0 <= r < n` has quotient
      `q` and remainder `r`. */
  lemma ModOfMultiplePlus(q: int, n: int, r: int)
    requires n > 0 && 0 <= r < n
    ensures (q * n + r) % n == r
  {
    var x := q * n + r;
    var d := x / n;
    var m := x % n;
    assert x == d * n + m;
    var k := q - d;
    assert k * n == m - r by {
      assert k * n == q * n - d * n;
    }
    if k >= 1 {
      MulAtLeast(k, n);
    } else if k <= -1 {
      MulAtLeast(-k, n);
    }
  }

  /** Multiplication distributes over a sum of factors. */
  lemma Distribute(a: int, b: int, n: int)
    ensures (a + b) * n == a * n + b * n
  {
  }

  /** Multiplication by a non-negative factor is monotonic. */
  lemma MulMonotone(a: int, b: int, n: int)
    requires a >= b && n >= 0
    ensures a * n >= b * n
  {
    if a > b {
      MulAtLeast(a - b, n);
      assert a * n - b * n == (a - b) * n;
    }
  }

  /** The quotient of `q * n + r`, for `0 <= r < n`, is `q`. */
  lemma DivOfMultiplePlus(q: int, n: int, r: int)
    requires n > 0 && 0 <= r < n
    ensures (q * n + r) / n == q
  {
    var x := q * n + r;
    ModOfMultiplePlus(q, n, r);
    assert x == (x / n) * n + r;
    assert (x / n) * n == q * n;
  }

  /** `x < m * n` bounds the quotient: `x / n < m`. */
  lemma DivBelow(x: int, n: int, m: int)
    requires n > 0 && x < m * n
    ensures x / n < m
  {
    var d := x / n;
    assert x == d * n + x % n;
    if d >= m {
      MulMonotone(d, m, n);
    }
  }

  /** `m * n <= x` bounds the quotient from below: `m <= x / n`. */
  lemma DivAtLeast(x: int, n: int, m: int)
    requires n > 0 && m * n <= x
    ensures m <= x / n
  {
    var d := x / n;
    assert x == d * n + x % n;
    if d < m {
      MulMonotone(m, d + 1, n);
    }
  }
}
