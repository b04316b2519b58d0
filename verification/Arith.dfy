/** The few facts about division that the other modules need. */
module Arith {
  type Positive = n: int | 0 < n witness 1

  lemma MulMonotone(a: int, b: int, n: int)
    requires a <= b && 0 <= n
    ensures a * n <= b * n
  {
    assert (b - a) * n >= 0;
  }

  /** A quotient reaches `b` exactly when the dividend reaches `b * n`. */
  lemma MulDiv(a: int, b: int, n: Positive)
    ensures a / n >= b <==> a >= b * n
  {
    assert a == (a / n) * n + a % n;
    if a / n >= b {
      MulMonotone(b, a / n, n);
    } else {
      MulMonotone(a / n + 1, b, n);
    }
  }

  lemma DivMonotone(a: int, b: int, n: Positive)
    requires a <= b
    ensures a / n <= b / n
  {
    MulDiv(b, a / n, n);
    MulDiv(a, a / n, n);
  }

  lemma MultipleMod(q: int, n: Positive)
    ensures (q * n) / n == q && (q * n) % n == 0
  {
    MulDiv(q * n, q, n);
    MulDiv(q * n, q + 1, n);
    assert (q + 1) * n == q * n + n;
  }
}
