/** Small facts about products and quotients of reals that the solver does
    not find unaided when a factor is repeated (`s * s`). Each is proved
    with distinct factors, so that callers only instantiate it.
 */
module RealArith {

  lemma ProdZero(a: real, b: real)
    requires a * b == 0.0
    ensures a == 0.0 || b == 0.0
  {
  }

  lemma SquareNonNegative(x: real)
    ensures x * x >= 0.0
  {
  }

  lemma SquarePositive(x: real)
    requires x != 0.0
    ensures x * x > 0.0
  {
  }

  lemma MulLe(a: real, b: real, c: real)
    requires a >= 0.0 && b <= c
    ensures a * b <= a * c
  {
  }

  lemma MulLt(a: real, b: real, c: real)
    requires a > 0.0 && b < c
    ensures a * b < a * c
  {
  }

  lemma DivCancel(p: real, m: real)
    requires m != 0.0
    ensures (p * m) / m == p
  {
  }

  lemma DivAdd(a: real, b: real, c: real)
    requires c != 0.0
    ensures a / c + b / c == (a + b) / c
  {
  }

  /** A non-negative square root of 0 is 0. */
  lemma SquareZero(s: real)
    requires s * s == 0.0
    ensures s == 0.0
  {
    ProdZero(s, s);
  }

  /** A non-negative square root of 1 is 1. */
  lemma SquareOne(s: real)
    requires 0.0 <= s && s * s == 1.0
    ensures s == 1.0
  {
    if s < 1.0 {
      MulLe(s, s, 1.0);
    } else if s > 1.0 {
      MulLt(s, 1.0, s);
    }
  }

  lemma DivSquare(v: real, n: real)
    requires n != 0.0
    ensures (v / n) * (v / n) == (v * v) / (n * n)
  {
    var q := v / n;
    assert q * n == v;
    var m := n * n;
    assert m != 0.0 by {
      if m == 0.0 { ProdZero(n, n); }
    }
    assert (q * q) * m == (q * n) * (q * n);
    assert (q * q) * m == v * v;
    DivCancel(q * q, m);
  }

  /** One step of dividing a sum of squares by `n²`. */
  lemma DivSquareStep(x: real, rest: real, n: real)
    requires n != 0.0
    ensures (x / n) * (x / n) + rest / (n * n) == (x * x + rest) / (n * n)
  {
    var m := n * n;
    assert m != 0.0 by {
      if m == 0.0 { ProdZero(n, n); }
    }
    DivAdd(x * x, rest, m);
    DivSquare(x, n);
  }

  /** A quotient of `0 <= p <= q` by positive `q` lies in [0, 1]. */
  lemma DivUnit(p: real, q: real)
    requires 0.0 <= p <= q && 0.0 < q
    ensures 0.0 <= p / q <= 1.0
  {
  }

  /** `Math.round`: the nearest integer, halves rounding up. */
  function Round(x: real): (r: int)
    ensures x - 0.5 < r as real <= x + 0.5
  {
    (x + 0.5).Floor
  }

  lemma RoundBelow(x: real, n: int)
    requires x <= n as real
    ensures Round(x) <= n
  {
  }
}
