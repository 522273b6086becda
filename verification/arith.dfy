/** Small facts about multiplication and division on integers, kept apart
    so that the proofs that need them stay linear. */
module Arith {

  lemma MulNonneg(a: int, b: int)
    requires a >= 0 && b >= 0
    ensures a * b >= 0
  {
  }

  lemma MulMono(a: int, b: int, m: int)
    requires a <= b && m >= 0
    ensures a * m <= b * m
  {
    assert b * m - a * m == (b - a) * m;
    MulNonneg(b - a, m);
  }

  /** Quotient and remainder are determined by `x == q * m + r` with
      `0 <= r < m`. */
  lemma DivModUnique(x: int, m: int, q: int, r: int)
    requires m >= 1 && 0 <= r < m && x == q * m + r
    ensures x / m == q && x % m == r
  {
    var q1, r1 := x / m, x % m;
    assert x == q1 * m + r1;
    assert (q - q1) * m == r1 - r;
    if q1 < q {
      MulMono(1, q - q1, m);
    } else if q1 > q {
      MulMono(1, q1 - q, m);
    }
  }

  /** The end of row `r` of a `rows x cols` layout is within the layout. */
  lemma RowEnd(r: nat, rows: nat, cols: nat)
    requires r < rows
    ensures r * cols + cols <= rows * cols
  {
    MulMono(r + 1, rows, cols);
  }

  lemma MulPred(c: int, n: int)
    ensures (c - 1) * n == c * n - n
  {
  }
}
