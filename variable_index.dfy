/** The numbering of primary variables: one identifier per (row, column, value)
    triple of an n×n grid, rows, columns and values counted from 1. */
module VariableIndex {
  import opened Arith

  /** `convert`: the identifier of "cell (i, j) holds value k". */
  function Convert(n: int, i: int, j: int, k: int): int
  {
    (i - 1) * n * n + (j - 1) * n + k
  }

  predicate InGrid(n: int, x: int)
  {
    1 <= x <= n
  }

  /** The triple a primary identifier stands for; the inverse of Convert. */
  function Unconvert(n: int, v: int): (int, int, int)
    requires n >= 1
  {
    var q := (v - 1) / n;
    (q / n + 1, q % n + 1, (v - 1) % n + 1)
  }

  /** Position of cell (i, j) of an n×n table read row by row, counted from 0. */
  function CellIndex(n: int, i: int, j: int): int
  {
    (i - 1) * n + (j - 1)
  }

  /** Cell (i, j), counted from 1, sits at row-major position CellIndex(n, i, j)
      of an n×n table: below n², with quotient i - 1 and remainder j - 1 by n. */
  lemma RowMajor(n: nat, i: int, j: int)
    requires InGrid(n, i) && InGrid(n, j)
    ensures var t := CellIndex(n, i, j);
            0 <= t < n * n && t / n == i - 1 && t % n == j - 1 && t + 1 - j + n == i * n
  {
    RowMajorBound(n, i - 1, j - 1);
    DivModOf(n, CellIndex(n, i, j), i - 1, j - 1);
  }

  /** Row-major position q * n + r of an n-wide table stays below n * n. */
  lemma RowMajorBound(n: int, q: int, r: int)
    requires 0 <= q < n && 0 <= r < n
    ensures 0 <= q * n + r < n * n
  {
    MulMono(q, n - 1, n);
    MulPred(n, n);
  }

  /** Convert minus one, written in row-major form. */
  lemma ConvertRowMajor(n: int, i: int, j: int, k: int)
    ensures Convert(n, i, j, k) - 1 == ((i - 1) * n + (j - 1)) * n + (k - 1)
  {
  }

  /** Every triple in range gets an identifier in [1, n³]. */
  lemma ConvertInRange(n: int, i: int, j: int, k: int)
    requires InGrid(n, i) && InGrid(n, j) && InGrid(n, k)
    ensures 1 <= Convert(n, i, j, k) <= n * n * n
  {
    ConvertRowMajor(n, i, j, k);
    RowMajorBound(n, i - 1, j - 1);
    RowMajorBound(n * n, (i - 1) * n + (j - 1), k - 1);
    assert n * n * n == n * (n * n);
    assert 0 <= (i - 1) * n + (j - 1) < n * n;
    RowMajorWide(n, (i - 1) * n + (j - 1), k - 1);
  }

  lemma RowMajorWide(n: int, q: int, r: int)
    requires 0 <= q < n * n && 0 <= r < n
    ensures 0 <= q * n + r < n * n * n
  {
    var m := n * n;
    MulMono(q, m - 1, n);
    MulPred(m, n);
  }

  /** Unconvert undoes Convert on every triple in range. */
  lemma UnconvertConvert(n: int, i: int, j: int, k: int)
    requires n >= 1 && InGrid(n, i) && InGrid(n, j) && InGrid(n, k)
    ensures Unconvert(n, Convert(n, i, j, k)) == (i, j, k)
  {
    var q := (i - 1) * n + (j - 1);
    ConvertRowMajor(n, i, j, k);
    DivModOf(n, Convert(n, i, j, k) - 1, q, k - 1);
    DivModOf(n, q, i - 1, j - 1);
  }

  /** Every identifier in [1, n³] is the image of a triple in range:
      together with UnconvertConvert, Convert is a bijection onto [1, n³]. */
  lemma ConvertUnconvert(n: int, v: int)
    requires n >= 1 && 1 <= v <= n * n * n
    ensures var (i, j, k) := Unconvert(n, v);
            InGrid(n, i) && InGrid(n, j) && InGrid(n, k) && Convert(n, i, j, k) == v
  {
    var q, r := (v - 1) / n, (v - 1) % n;
    assert n * n * n == (n * n) * n;
    DivBound(v - 1, n, n * n);
    DivBound(q, n, n);
    var q2, r2 := q / n, q % n;
    assert q == q2 * n + r2;
    ConvertRowMajor(n, q2 + 1, r2 + 1, r + 1);
  }

  /** Distinct triples in range never share an identifier. */
  lemma ConvertInjective(n: int, i: int, j: int, k: int, i': int, j': int, k': int)
    requires n >= 1
    requires InGrid(n, i) && InGrid(n, j) && InGrid(n, k)
    requires InGrid(n, i') && InGrid(n, j') && InGrid(n, k')
    requires Convert(n, i, j, k) == Convert(n, i', j', k')
    ensures i == i' && j == j' && k == k'
  {
    UnconvertConvert(n, i, j, k);
    UnconvertConvert(n, i', j', k');
  }
}
