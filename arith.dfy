/** Facts of integer multiplication and Euclidean division, each stated over
    abstract operands so that the index proofs stay linear. */
module Arith {

  lemma MulStep(c: int, d: int)
    ensures (c + 1) * d == c * d + d
  {
  }

  lemma MulNonneg(a: int, b: int)
    requires a >= 0 && b >= 0
    ensures a * b >= 0
  {
  }

  /** Euclidean division recovers quotient and remainder of q * n + r. */
  lemma DivModUnique(n: int, q: int, r: int)
    requires n > 0 && 0 <= r < n
    ensures (q * n + r) / n == q && (q * n + r) % n == r
  {
    var t := q * n + r;
    var d, m := t / n, t % n;
    assert t == d * n + m;
    assert (q - d) * n == m - r;
    if q - d >= 1 {
      MulAtLeast(q - d, n);
      assert false;
    } else if q - d <= -1 {
      MulAtLeast(d - q, n);
      assert false;
    }
  }

  lemma MulAtLeast(x: int, n: int)
    requires x >= 1 && n > 0
    ensures x * n >= n
  {
    assert x * n == (x - 1) * n + n;
  }

  lemma MulPred(m: int, n: int)
    ensures (m - 1) * n == m * n - n
  {
  }

  /** Quotient and remainder of x by n, once x is written as q * n + r. */
  lemma DivModOf(n: int, x: int, q: int, r: int)
    requires n > 0 && 0 <= r < n && x == q * n + r
    ensures x / n == q && x % n == r
  {
    DivModUnique(n, q, r);
  }

  /** A quotient by n of a number below m * n is below m. */
  lemma DivBound(x: int, n: int, m: int)
    requires n > 0 && 0 <= x < m * n
    ensures 0 <= x / n < m && x == (x / n) * n + x % n
  {
    if x / n >= m {
      MulMono(m, x / n, n);
    }
  }

  lemma MulMono(x: int, y: int, n: int)
    requires x <= y && n >= 0
    ensures x * n <= y * n
  {
    assert y * n - x * n == (y - x) * n;
  }

  lemma SumOfFamilies(lines: nat, blocks: nat, per: nat, blockPer: nat)
    ensures lines * per + lines * per + lines * per + blocks * blockPer == 3 * lines * per + blocks * blockPer
  {
  }

  lemma MulSum(a: int, b: int, c: int)
    ensures a * c + b * c == (a + b) * c
  {
  }

  lemma MulSumLeft(c: int, a: int, b: int)
    ensures c * a + c * b == c * (a + b)
  {
  }
}
