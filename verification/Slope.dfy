/** leastSquaresSlope of scripts/bench/complexity-regression.ts, over the reals. */
module Slope {
  import opened Reals

  function SumOf(s: seq<real>): real {
    if s == [] then 0.0 else SumOf(s[..|s| - 1]) + s[|s| - 1]
  }

  /** The mean; an empty list has none, and then nothing is computed from it. */
  function Mean(s: seq<real>): real {
    if s == [] then 0.0 else SumOf(s) / |s| as real
  }

  /** The sum of (x - a) * (y - b). */
  function Cross(xs: seq<real>, ys: seq<real>, a: real, b: real): real
    requires |xs| == |ys|
  {
    if xs == [] then 0.0
    else
      var n := |xs| - 1;
      Cross(xs[..n], ys[..n], a, b) + Product(xs[n] - a, ys[n] - b)
  }

  function Sxy(xs: seq<real>, ys: seq<real>): real
    requires |xs| == |ys|
  {
    Cross(xs, ys, Mean(xs), Mean(ys))
  }

  function Sxx(xs: seq<real>): real { Cross(xs, xs, Mean(xs), Mean(xs)) }

  function SlopeOf(xs: seq<real>, ys: seq<real>): real
    requires |xs| == |ys|
  {
    if Sxx(xs) == 0.0 then 0.0 else Sxy(xs, ys) / Sxx(xs)
  }

  method LeastSquaresSlope(xs: seq<real>, ys: seq<real>) returns (slope: real)
    requires |xs| == |ys|
    ensures slope == SlopeOf(xs, ys)
  {
    var meanX, meanY := Mean(xs), Mean(ys);
    var numerator, denominator := 0.0, 0.0;
    for i := 0 to |xs|
      invariant numerator == Cross(xs[..i], ys[..i], meanX, meanY)
      invariant denominator == Cross(xs[..i], xs[..i], meanX, meanX)
    {
      CrossStep(xs, ys, meanX, meanY, i);
      CrossStep(xs, xs, meanX, meanX, i);
      numerator := numerator + Product(xs[i] - meanX, ys[i] - meanY);
      denominator := denominator + Product(xs[i] - meanX, xs[i] - meanX);
    }
    assert xs[..|xs|] == xs && ys[..|ys|] == ys;
    slope := if denominator == 0.0 then 0.0 else numerator / denominator;
  }

  lemma CrossStep(xs: seq<real>, ys: seq<real>, a: real, b: real, i: int)
    requires |xs| == |ys| && 0 <= i < |xs|
    ensures Cross(xs[..i + 1], ys[..i + 1], a, b) == Cross(xs[..i], ys[..i], a, b) + Product(xs[i] - a, ys[i] - b)
  {
    assert xs[..i + 1][..i] == xs[..i] && ys[..i + 1][..i] == ys[..i];
  }

  // ----- the zero denominator

  predicate AllEqual(xs: seq<real>) { forall i, j :: 0 <= i < |xs| && 0 <= j < |xs| ==> xs[i] == xs[j] }

  lemma {:induction false} SquaresVanish(xs: seq<real>, a: real)
    ensures Cross(xs, xs, a, a) >= 0.0
    ensures Cross(xs, xs, a, a) == 0.0 <==> forall i :: 0 <= i < |xs| ==> xs[i] == a
  {
    if xs != [] {
      var n := |xs| - 1;
      SquaresVanish(xs[..n], a);
      SquareNonNegative(xs[n] - a);
    }
  }

  lemma {:induction false} SumOfEqual(xs: seq<real>, a: real)
    requires forall i :: 0 <= i < |xs| ==> xs[i] == a
    ensures SumOf(xs) == Product(|xs| as real, a)
  {
    if xs != [] {
      SumOfEqual(xs[..|xs| - 1], a);
      OneMore((|xs| - 1) as real, a);
      assert (|xs| - 1) as real + 1.0 == |xs| as real;
    }
  }

  lemma MeanTimes(xs: seq<real>)
    ensures SumOf(xs) == Product(|xs| as real, Mean(xs))
  {
    if xs != [] {
      QuotientTimes(SumOf(xs), |xs| as real);
    }
  }

  /** Theorem: the zero-denominator branch is taken exactly when all xs are equal. */
  lemma ZeroDenominatorIff(xs: seq<real>)
    ensures Sxx(xs) >= 0.0
    ensures Sxx(xs) == 0.0 <==> AllEqual(xs)
  {
    SquaresVanish(xs, Mean(xs));
    if AllEqual(xs) && xs != [] {
      SumOfEqual(xs, xs[0]);
      MeanTimes(xs);
      Cancel(|xs| as real, xs[0], Mean(xs));
    }
  }

  // ----- the errors of a line

  /** How far the point lies above the line y = m x + c. */
  function Error(x: real, y: real, m: real, c: real): real { y - Product(m, x) - c }

  function ErrorSum(xs: seq<real>, ys: seq<real>, m: real, c: real): real
    requires |xs| == |ys|
  {
    if xs == [] then 0.0
    else
      var n := |xs| - 1;
      ErrorSum(xs[..n], ys[..n], m, c) + Error(xs[n], ys[n], m, c)
  }

  /** The sum of the errors, each weighted by its x measured from `a`. */
  function ErrorMoment(xs: seq<real>, ys: seq<real>, m: real, c: real, a: real): real
    requires |xs| == |ys|
  {
    if xs == [] then 0.0
    else
      var n := |xs| - 1;
      ErrorMoment(xs[..n], ys[..n], m, c, a) + Product(Error(xs[n], ys[n], m, c), xs[n] - a)
  }

  function SquaredError(xs: seq<real>, ys: seq<real>, m: real, c: real): real
    requires |xs| == |ys|
  {
    if xs == [] then 0.0
    else
      var n := |xs| - 1;
      SquaredError(xs[..n], ys[..n], m, c) + Product(Error(xs[n], ys[n], m, c), Error(xs[n], ys[n], m, c))
  }

  lemma {:induction false} ErrorSumIs(xs: seq<real>, ys: seq<real>, m: real, c: real)
    requires |xs| == |ys|
    ensures ErrorSum(xs, ys, m, c) == SumOf(ys) - Product(m, SumOf(xs)) - Product(|xs| as real, c)
  {
    if xs != [] {
      var n := |xs| - 1;
      ErrorSumIs(xs[..n], ys[..n], m, c);
      Distributes(m, SumOf(xs[..n]), xs[n]);
      OneMore(n as real, c);
      assert n as real + 1.0 == |xs| as real;
    }
  }

  lemma MomentTerm(u: real, v: real, m: real)
    ensures Product(v - Product(m, u), u) == Product(u, v) - Product(m, Product(u, u))
  {
  }

  lemma ErrorFromCentre(x: real, y: real, m: real, a: real, b: real)
    ensures Error(x, y, m, b - Product(m, a)) == (y - b) - Product(m, x - a)
  {
    Distributes(m, x, a);
  }

  lemma {:induction false} ErrorMomentIs(xs: seq<real>, ys: seq<real>, m: real, a: real, b: real)
    requires |xs| == |ys|
    ensures ErrorMoment(xs, ys, m, b - Product(m, a), a) == Cross(xs, ys, a, b) - Product(m, Cross(xs, xs, a, a))
  {
    if xs != [] {
      var n := |xs| - 1;
      ErrorMomentIs(xs[..n], ys[..n], m, a, b);
      ErrorFromCentre(xs[n], ys[n], m, a, b);
      MomentTerm(xs[n] - a, ys[n] - b, m);
      Distributes(m, Cross(xs[..n], xs[..n], a, a), Product(xs[n] - a, xs[n] - a));
    }
  }

  // ----- the best line

  /** A square lies above its tangent by the square of the distance. */
  lemma AboveTangent(e: real, d: real)
    ensures Product(e + d, e + d) == Product(e, e) + 2.0 * Product(e, d) + Product(d, d)
  {
    assert (e + d) * (e + d) == e * e + 2.0 * (e * d) + d * d;
  }

  lemma MoveOut(e: real, p: real, u: real, q: real)
    ensures Product(e, Product(p, u) + q) == Product(p, Product(e, u)) + Product(q, e)
  {
  }

  /** How the errors of two lines differ: by a line again, here with slope `p` and value `q` at `a`. */
  lemma ErrorsDiffer(x: real, y: real, b: real, k: real, m: real, c: real, a: real)
    ensures Error(x, y, m, c) == Error(x, y, b, k) + (Product(b - m, x - a) + (Product(b - m, a) + k - c))
  {
  }

  /** The value at `x` of the line with slope `p` and value `q` at `a`. */
  function Offset(x: real, p: real, q: real, a: real): real { Product(p, x - a) + q }

  /** How far two lines whose difference is that line lie apart at the xs, in squares. */
  function Gap(xs: seq<real>, p: real, q: real, a: real): real {
    if xs == [] then 0.0
    else
      var n := |xs| - 1;
      Gap(xs[..n], p, q, a) + Product(Offset(xs[n], p, q, a), Offset(xs[n], p, q, a))
  }

  lemma {:induction false} GapVanishes(xs: seq<real>, p: real, q: real, a: real)
    ensures Gap(xs, p, q, a) >= 0.0
    ensures Gap(xs, p, q, a) == 0.0 <==> forall i :: 0 <= i < |xs| ==> Offset(xs[i], p, q, a) == 0.0
  {
    if xs != [] {
      var n := |xs| - 1;
      GapVanishes(xs[..n], p, q, a);
      SquareNonNegative(Offset(xs[n], p, q, a));
    }
  }

  lemma SquareTerm(x: real, y: real, b: real, k: real, m: real, c: real, a: real)
    ensures var e, f, p, q := Error(x, y, b, k), Error(x, y, m, c), b - m, Product(b - m, a) + k - c;
            Product(f, f) == Product(e, e) + 2.0 * (Product(p, Product(e, x - a)) + Product(q, e))
                             + Product(Offset(x, p, q, a), Offset(x, p, q, a))
  {
    var e, p, q := Error(x, y, b, k), b - m, Product(b - m, a) + k - c;
    ErrorsDiffer(x, y, b, k, m, c, a);
    AboveTangent(e, Offset(x, p, q, a));
    MoveOut(e, p, x - a, q);
  }

  lemma {:induction false} SquaredErrorAboveTangent(xs: seq<real>, ys: seq<real>, b: real, k: real,
                                                    m: real, c: real, a: real)
    requires |xs| == |ys|
    ensures var p, q := b - m, Product(b - m, a) + k - c;
            SquaredError(xs, ys, m, c)
            == SquaredError(xs, ys, b, k)
               + 2.0 * (Product(p, ErrorMoment(xs, ys, b, k, a)) + Product(q, ErrorSum(xs, ys, b, k))) + Gap(xs, p, q, a)
  {
    var p, q := b - m, Product(b - m, a) + k - c;
    if xs == [] {
      assert Product(p, 0.0) == 0.0 && Product(q, 0.0) == 0.0;
    } else {
      var n := |xs| - 1;
      SquaredErrorAboveTangent(xs[..n], ys[..n], b, k, m, c, a);
      SquareTerm(xs[n], ys[n], b, k, m, c, a);
      var e := Error(xs[n], ys[n], b, k);
      Distributes(p, ErrorMoment(xs[..n], ys[..n], b, k, a), Product(e, xs[n] - a));
      Distributes(q, ErrorSum(xs[..n], ys[..n], b, k), e);
    }
  }

  /** A line that is zero at two places is zero everywhere. */
  lemma TwoZeros(x: real, x': real, p: real, q: real, a: real)
    requires x != x' && Offset(x, p, q, a) == 0.0 && Offset(x', p, q, a) == 0.0
    ensures p == 0.0 && q == 0.0
  {
    Distributes(p, x - a, x' - a);
    Commutes(p, x - x');
    Commutes(0.0, x - x');
    Negates(p, x - x');
    Cancel(x - x', p, 0.0);
    Negates(0.0, x - a);
  }

  lemma GapPositive(xs: seq<real>, p: real, q: real, a: real)
    requires !AllEqual(xs) && (p != 0.0 || q != 0.0)
    ensures Gap(xs, p, q, a) > 0.0
  {
    GapVanishes(xs, p, q, a);
    var i, j :| 0 <= i < |xs| && 0 <= j < |xs| && xs[i] != xs[j];
    if Offset(xs[i], p, q, a) == 0.0 == Offset(xs[j], p, q, a) {
      TwoZeros(xs[i], xs[j], p, q, a);
    }
  }

  lemma SumAtMeans(n: real, meanX: real, meanY: real, m: real)
    ensures Product(n, meanY) - Product(m, Product(n, meanX)) - Product(n, meanY - Product(m, meanX)) == 0.0
  {
  }

  /** The normal equations: the line through the means with this slope leaves no error sum and no moment. */
  lemma NormalEquations(xs: seq<real>, ys: seq<real>)
    requires |xs| == |ys| && !AllEqual(xs)
    ensures var b := SlopeOf(xs, ys);
            var k := Mean(ys) - Product(b, Mean(xs));
            ErrorSum(xs, ys, b, k) == 0.0 && ErrorMoment(xs, ys, b, k, Mean(xs)) == 0.0
  {
    var b, meanX, meanY := SlopeOf(xs, ys), Mean(xs), Mean(ys);
    ErrorSumIs(xs, ys, b, meanY - Product(b, meanX));
    MeanTimes(xs);
    MeanTimes(ys);
    SumAtMeans(|xs| as real, meanX, meanY, b);
    ErrorMomentIs(xs, ys, b, meanX, meanY);
    ZeroDenominatorIff(xs);
    QuotientTimes(Sxy(xs, ys), Sxx(xs));
  }

  /** Theorem: unless all xs are equal, the line through the means with this slope has a smaller squared error
      than every other line. */
  lemma SlopeIsOptimal(xs: seq<real>, ys: seq<real>, m: real, c: real)
    requires |xs| == |ys| && !AllEqual(xs)
    ensures var b := SlopeOf(xs, ys);
            var k := Mean(ys) - Product(b, Mean(xs));
            m != b || c != k ==> SquaredError(xs, ys, b, k) < SquaredError(xs, ys, m, c)
  {
    var b, a := SlopeOf(xs, ys), Mean(xs);
    var k := Mean(ys) - Product(b, a);
    var p, q := b - m, Product(b - m, a) + k - c;
    if m != b || c != k {
      NormalEquations(xs, ys);
      SquaredErrorAboveTangent(xs, ys, b, k, m, c, a);
      assert Product(p, 0.0) == 0.0 && Product(q, 0.0) == 0.0;
      Negates(p, a);
      GapPositive(xs, p, q, a);
    }
  }

  // ----- points on a line

  predicate OnLine(xs: seq<real>, ys: seq<real>, m: real, c: real) {
    |xs| == |ys| && forall i :: 0 <= i < |xs| ==> Error(xs[i], ys[i], m, c) == 0.0
  }

  lemma {:induction false} NoErrors(xs: seq<real>, ys: seq<real>, m: real, c: real, a: real)
    requires OnLine(xs, ys, m, c)
    ensures ErrorSum(xs, ys, m, c) == 0.0 && ErrorMoment(xs, ys, m, c, a) == 0.0
  {
    if xs != [] {
      var n := |xs| - 1;
      NoErrors(xs[..n], ys[..n], m, c, a);
      assert Product(0.0, xs[n] - a) == 0.0;
    }
  }

  lemma OffsetAtMeans(n: real, meanX: real, meanY: real, m: real, c: real)
    requires n != 0.0 && Product(n, meanY) - Product(m, Product(n, meanX)) - Product(n, c) == 0.0
    ensures c == meanY - Product(m, meanX)
  {
    SumAtMeans(n, meanX, meanY, m);
    Cancel(n, c, meanY - Product(m, meanX));
  }

  /** Theorem: the slope of points on a line is the line's slope. */
  lemma LineIsRecovered(xs: seq<real>, ys: seq<real>, m: real, c: real)
    requires OnLine(xs, ys, m, c) && !AllEqual(xs)
    ensures SlopeOf(xs, ys) == m
  {
    NoErrors(xs, ys, m, c, Mean(xs));
    ErrorSumIs(xs, ys, m, c);
    MeanTimes(xs);
    MeanTimes(ys);
    OffsetAtMeans(|xs| as real, Mean(xs), Mean(ys), m, c);
    ErrorMomentIs(xs, ys, m, Mean(xs), Mean(ys));
    ZeroDenominatorIff(xs);
    SlopeIsThe(Sxy(xs, ys), Sxx(xs), m);
  }

  lemma SlopeIsThe(sxy: real, sxx: real, m: real)
    requires sxx != 0.0 && sxy == Product(m, sxx)
    ensures sxy / sxx == m
  {
    QuotientTimes(sxy, sxx);
    Cancel(sxx, sxy / sxx, m);
  }
}
