/** Exact-arithmetic vector algebra over `seq<real>`, shared by the backend
    embedding normalisation, the backend and frontend cosine similarity and
    the frontend landmark descriptor.

    `Math.sqrt` is foreign to the model: operations receive it as a
    parameter `sqrt: real -> real`, and the properties that depend on it
    assume only that it is the non-negative square root (`IsSqrt`).
 */
module Vectors {

  import opened RealArith

  /** `sqrt` behaves as `Math.sqrt` does on non-negative reals. */
  ghost predicate IsSqrt(sqrt: real -> real) {
    forall x: real :: 0.0 <= x ==> 0.0 <= sqrt(x) && sqrt(x) * sqrt(x) == x
  }

  lemma SqrtZero(sqrt: real -> real)
    requires IsSqrt(sqrt)
    ensures sqrt(0.0) == 0.0
  {
    SquareZero(sqrt(0.0));
  }

  lemma SqrtOne(sqrt: real -> real)
    requires IsSqrt(sqrt)
    ensures sqrt(1.0) == 1.0
  {
    SquareOne(sqrt(1.0));
  }

  /** The root of a positive number is positive. */
  lemma SqrtPositive(sqrt: real -> real, x: real)
    requires IsSqrt(sqrt) && 0.0 < x
    ensures 0.0 < sqrt(x)
  {
    var s := sqrt(x);
    if s == 0.0 {
      assert s * s == 0.0;
    }
  }

  /** Sum of squares: the accumulator `norm += v[i] * v[i]`. */
  function SumSq(v: seq<real>): real
    decreases |v|
  {
    if |v| == 0 then 0.0 else v[0] * v[0] + SumSq(v[1..])
  }

  /** Dot product: the accumulator `dotProduct += a[i] * b[i]`. */
  function Dot(a: seq<real>, b: seq<real>): real
    requires |a| == |b|
    decreases |a|
  {
    if |a| == 0 then 0.0 else a[0] * b[0] + Dot(a[1..], b[1..])
  }

  /** Component-wise difference `a[i] - b[i]`. */
  function Diff(a: seq<real>, b: seq<real>): (r: seq<real>)
    requires |a| == |b|
    ensures |r| == |a|
    ensures forall i :: 0 <= i < |a| ==> r[i] == a[i] - b[i]
  {
    seq(|a|, i requires 0 <= i < |a| => a[i] - b[i])
  }

  /** `v.map(x => x / n)`. */
  function DivideAll(v: seq<real>, n: real): (r: seq<real>)
    requires n != 0.0
    ensures |r| == |v|
    ensures forall i :: 0 <= i < |v| ==> r[i] == v[i] / n
  {
    seq(|v|, i requires 0 <= i < |v| => v[i] / n)
  }

  lemma {:induction false} SumSqNonNegative(v: seq<real>)
    ensures SumSq(v) >= 0.0
    decreases |v|
  {
    if |v| > 0 {
      SumSqNonNegative(v[1..]);
      SquareNonNegative(v[0]);
    }
  }

  /** The sum of squares vanishes exactly on the all-zero vector. */
  lemma {:induction false} SumSqZero(v: seq<real>)
    ensures SumSq(v) == 0.0 <==> forall i :: 0 <= i < |v| ==> v[i] == 0.0
    decreases |v|
  {
    if |v| > 0 {
      SumSqZero(v[1..]);
      SumSqNonNegative(v[1..]);
      SquareNonNegative(v[0]);
      if SumSq(v) == 0.0 {
        assert v[0] * v[0] == 0.0;
        SquareZero(v[0]);
      }
      assert (forall i :: 0 <= i < |v| ==> v[i] == 0.0) <==>
             v[0] == 0.0 && (forall i :: 0 <= i < |v[1..]| ==> v[1..][i] == 0.0) by {
        assert forall i :: 1 <= i < |v| ==> v[1..][i - 1] == v[i];
      }
    }
  }

  lemma {:induction false} DotSymmetric(a: seq<real>, b: seq<real>)
    requires |a| == |b|
    ensures Dot(a, b) == Dot(b, a)
    decreases |a|
  {
    if |a| > 0 {
      DotSymmetric(a[1..], b[1..]);
    }
  }

  lemma {:induction false} DotSelf(a: seq<real>)
    ensures Dot(a, a) == SumSq(a)
    decreases |a|
  {
    if |a| > 0 {
      DotSelf(a[1..]);
    }
  }

  /** The head step of `SumSqDivideAll`, on plain numbers. */
  lemma SumSqStep(x: real, q: real, rest: real, tail: real, total: real, n: real)
    requires n != 0.0 && q == x / n && tail == rest / (n * n) && total == x * x + rest
    ensures q * q + tail == total / (n * n)
  {
    DivSquareStep(x, rest, n);
  }

  lemma {:induction false} SumSqUnfold(v: seq<real>)
    requires |v| > 0
    ensures SumSq(v) == v[0] * v[0] + SumSq(v[1..])
  {
  }

  lemma {:induction false} DivideAllTail(v: seq<real>, n: real)
    requires n != 0.0 && |v| > 0
    ensures DivideAll(v, n)[0] == v[0] / n
    ensures DivideAll(v, n)[1..] == DivideAll(v[1..], n)
  {
  }

  /** One step of `SumSqDivideAll`: from the tail to the whole vector. */
  lemma {:induction false} SumSqDivideCons(v: seq<real>, n: real)
    requires n != 0.0 && |v| > 0
    requires SumSq(DivideAll(v[1..], n)) == SumSq(v[1..]) / (n * n)
    ensures SumSq(DivideAll(v, n)) == SumSq(v) / (n * n)
  {
    var r := DivideAll(v, n);
    DivideAllTail(v, n);
    SumSqUnfold(v);
    SumSqUnfold(r);
    SumSqStep(v[0], r[0], SumSq(v[1..]), SumSq(r[1..]), SumSq(v), n);
  }

  /** Dividing every component by `n` divides the sum of squares by `n²`. */
  lemma {:induction false} SumSqDivideAll(v: seq<real>, n: real)
    requires n != 0.0
    ensures SumSq(DivideAll(v, n)) == SumSq(v) / (n * n)
    decreases |v|
  {
    if |v| == 0 {
      var m := n * n;
      assert m != 0.0 by {
        if m == 0.0 { ProdZero(n, n); }
      }
      assert SumSq(DivideAll(v, n)) == 0.0 / m;
    } else {
      SumSqDivideAll(v[1..], n);
      SumSqDivideCons(v, n);
    }
  }

  lemma {:induction false} SumSqDiffSymmetric(a: seq<real>, b: seq<real>)
    requires |a| == |b|
    ensures SumSq(Diff(a, b)) == SumSq(Diff(b, a))
    decreases |a|
  {
    if |a| > 0 {
      assert Diff(a, b)[1..] == Diff(a[1..], b[1..]);
      assert Diff(b, a)[1..] == Diff(b[1..], a[1..]);
      SumSqDiffSymmetric(a[1..], b[1..]);
      assert (a[0] - b[0]) * (a[0] - b[0]) == (b[0] - a[0]) * (b[0] - a[0]);
    }
  }

  lemma {:induction false} DiffSelfZero(a: seq<real>)
    ensures SumSq(Diff(a, a)) == 0.0
  {
    SumSqZero(Diff(a, a));
  }

  /** Cauchy–Schwarz inequality in squared form: `(a·b)² ≤ ‖a‖²·‖b‖²`. */
  lemma {:induction false} CauchySchwarz(a: seq<real>, b: seq<real>)
    requires |a| == |b|
    ensures Dot(a, b) * Dot(a, b) <= SumSq(a) * SumSq(b)
    decreases |a|
  {
    if |a| > 0 {
      var x, y := a[0], b[0];
      var A, B, C := SumSq(a[1..]), SumSq(b[1..]), Dot(a[1..], b[1..]);
      CauchySchwarz(a[1..], b[1..]);
      SumSqNonNegative(a[1..]);
      SumSqNonNegative(b[1..]);
      CrossTermBound(x, y, A, B, C);
      calc {
        (x * x + A) * (y * y + B) - (x * y + C) * (x * y + C);
        (A * B - C * C) + (x * x * B + y * y * A - 2.0 * x * y * C);
      }
    }
  }

  /** The inductive step of `CauchySchwarz`: `x²B + y²A ≥ 2xyC` when `C² ≤ AB`. */
  lemma CrossTermBound(x: real, y: real, A: real, B: real, C: real)
    requires 0.0 <= A && 0.0 <= B && C * C <= A * B
    ensures x * x * B + y * y * A - 2.0 * x * y * C >= 0.0
  {
    var e := x * x * B + y * y * A - 2.0 * x * y * C;
    if A == 0.0 {
      SquareNonNegative(C);
      SquareZero(C);
      assert e == x * x * B;
      SquareNonNegative(x);
      MulLe(B, 0.0, x * x);
    } else {
      var d := A * y - x * C;
      assert A * e == d * d + x * x * (A * B - C * C);
      SquareNonNegative(d);
      SquareNonNegative(x);
      MulLe(x * x, 0.0, A * B - C * C);
      if e < 0.0 {
        MulLt(A, e, 0.0);
      }
    }
  }
}
