/** Small facts about Euclidean division used by the pixel-layout proofs. */
module Arith {

  lemma MulAtLeast(k: int, m: int)
    requires k >= 1 && m > 0
    ensures k * m >= m
  {
  }

  /** Division by `m` recovers the two digits of `hi * m + lo`. */
  lemma DivModStep(hi: int, lo: int, m: int)
    requires m > 0 && hi >= 0 && 0 <= lo < m
    ensures (hi * m + lo) / m == hi
    ensures (hi * m + lo) % m == lo
  {
    var n := hi * m + lo;
    var q, r := n / m, n % m;
    assert q * m + r == n;
    assert (q - hi) * m == lo - r;
    if q > hi {
      MulAtLeast(q - hi, m);
    } else if q < hi {
      MulAtLeast(hi - q, m);
    }
  }

  lemma MulSucc(n: int, a: int)
    ensures (n + 1) * a == n * a + a
  {
  }

  lemma MulMonotone(a: int, b: int, w: int)
    requires a <= b && w >= 0
    ensures a * w <= b * w
  {
    if a < b && w > 0 {
      MulAtLeast(b - a, w);
    }
  }

  /** A row-major offset below `w * h` lies in one of the first `h` rows. */
  lemma RowBelow(n: int, w: int, h: int)
    requires 0 <= n < w * h && w > 0
    ensures 0 <= n / w < h
  {
    if n / w >= h {
      MulMonotone(h, n / w, w);
    }
  }

  /** A mean of values in [0, m] lies in [0, m]. */
  lemma MeanBelow(s: int, n: int, m: int)
    requires n > 0 && 0 <= s <= n * m
    ensures 0 <= s / n <= m
  {
    if s / n > m {
      MulMonotone(m + 1, s / n, n);
    }
  }
}
