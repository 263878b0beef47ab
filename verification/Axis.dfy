/** niceAxisScale and the axis of renderPanel in scripts/bench/report.ts, over the reals. */
module Axis {
  import opened Reals

  function Pow10(k: int): (p: real)
    ensures p > 0.0 && (k == 0 ==> p == 1.0)
    decreases if k < 0 then -k else k
  {
    if k == 0 then 1.0 else if k > 0 then 10.0 * Pow10(k - 1) else Pow10(k + 1) / 10.0
  }

  lemma Pow10Next(k: int)
    ensures Pow10(k + 1) == 10.0 * Pow10(k)
  {
  }

  lemma ShrinkFloor(r: real)
    requires r >= 10.0
    ensures 0 <= (r / 10.0).Floor < r.Floor
  {
    assert r / 10.0 <= r - 9.0;
  }

  lemma InverseShrinks(r: real)
    requires 0.0 < r && r * 10.0 < 1.0
    ensures 1.0 / r >= 10.0 && 1.0 / (r * 10.0) == (1.0 / r) / 10.0
  {
    var q := 1.0 / r;
    assert q * r == 1.0;
    assert q >= 10.0;
    assert (q / 10.0) * (r * 10.0) == 1.0;
  }

  /** `Math.floor(Math.log10(r))`. */
  function FloorLog10(r: real): (k: int)
    requires r > 0.0
    ensures Pow10(k) <= r < Pow10(k + 1)
    decreases r < 1.0, if r < 1.0 then (1.0 / r).Floor else r.Floor
  {
    if r >= 10.0 then
      ShrinkFloor(r);
      var k := FloorLog10(r / 10.0);
      Pow10Next(k);
      Pow10Next(k + 1);
      k + 1
    else if r < 1.0 then
      assert r * 10.0 < 1.0 ==> (1.0 / (r * 10.0)).Floor < (1.0 / r).Floor by {
        if r * 10.0 < 1.0 {
          InverseShrinks(r);
          ShrinkFloor(1.0 / r);
        }
      }
      var k := FloorLog10(r * 10.0);
      Pow10Next(k);
      Pow10Next(k - 1);
      k - 1
    else
      assert Pow10(1) == 10.0 * Pow10(0);
      0
  }

  /** `Math.ceil`. */
  function Ceiling(x: real): (n: int)
    ensures x <= n as real < x + 1.0
  {
    -((-x).Floor)
  }

  datatype Scale = Scale(max: real, step: real)

  /** The nice step for a residual between 1 and 10. */
  function NiceResidual(residual: real): real {
    if residual <= 1.0 then 1.0
    else if residual <= 2.0 then 2.0
    else if residual <= 2.5 then 2.5
    else if residual <= 5.0 then 5.0
    else 10.0
  }

  function SafeMax(maxValue: real): (m: real)
    ensures m > 0.0
  {
    if maxValue > 0.0 then maxValue else 1.0
  }

  function NiceStep(rawStep: real): (step: real)
    requires rawStep > 0.0
    ensures step > 0.0
  {
    var magnitude := Pow10(FloorLog10(rawStep));
    ProductPositive(NiceResidual(rawStep / magnitude), magnitude);
    Product(NiceResidual(rawStep / magnitude), magnitude)
  }

  function Quotient(a: real, b: real): (q: real)
    requires b > 0.0
    ensures a > 0.0 ==> q > 0.0
    ensures Product(q, b) == a
  {
    QuotientTimes(a, b);
    SignOfProduct(a / b, b);
    a / b
  }

  function RawStep(maxValue: real, targetTicks: int): (rawStep: real)
    requires targetTicks > 0
    ensures rawStep > 0.0
  {
    Quotient(SafeMax(maxValue), targetTicks as real)
  }

  /** How many steps it takes to reach `x`. */
  function StepsTo(x: real, step: real): int
    requires step > 0.0
  {
    Ceiling(Quotient(x, step))
  }

  function Tick(i: int, step: real): real { Product(i as real, step) }

  function NiceAxisScale(maxValue: real, targetTicks: int): (scale: Scale)
    requires targetTicks > 0
    ensures scale.step > 0.0
  {
    var step := NiceStep(RawStep(maxValue, targetTicks));
    Scale(Tick(StepsTo(SafeMax(maxValue), step), step), step)
  }

  // ----- the step

  /** A residual between 1 and 10 is rounded up by less than a factor of two. */
  lemma ResidualRoundsUp(residual: real)
    requires 1.0 <= residual < 10.0
    ensures residual <= NiceResidual(residual) < 2.0 * residual
  {
  }

  lemma QuotientBounds(r: real, m: real)
    requires m > 0.0 && m <= r < 10.0 * m
    ensures 1.0 <= r / m < 10.0 && Product(r / m, m) == r
  {
    QuotientTimes(r, m);
    ProductsKeepOrder(1.0, r / m, m);
    ProductsKeepOrder(r / m, 10.0, m);
  }

  lemma Doubles(x: real, m: real)
    ensures Product(2.0 * x, m) == 2.0 * Product(x, m)
  {
  }

  lemma ProductBounds(residual: real, nice: real, m: real)
    requires m > 0.0 && residual <= nice < 2.0 * residual
    ensures Product(residual, m) <= Product(nice, m) < 2.0 * Product(residual, m)
  {
    ProductsKeepOrder(residual, nice, m);
    ProductsKeepOrder(nice, 2.0 * residual, m);
    Doubles(residual, m);
  }

  /** Theorem: the step is at least the raw step and less than twice it. */
  lemma StepBounds(rawStep: real)
    requires rawStep > 0.0
    ensures rawStep <= NiceStep(rawStep) < 2.0 * rawStep
  {
    var m := Pow10(FloorLog10(rawStep));
    Pow10Next(FloorLog10(rawStep));
    QuotientBounds(rawStep, m);
    ResidualRoundsUp(rawStep / m);
    ProductBounds(rawStep / m, NiceResidual(rawStep / m), m);
  }

  /** Theorem: the step is 1, 2, 2.5, 5 or 10 times a power of ten. */
  lemma StepIsNice(rawStep: real) returns (factor: real, k: int)
    requires rawStep > 0.0
    ensures factor in {1.0, 2.0, 2.5, 5.0, 10.0} && NiceStep(rawStep) == Product(factor, Pow10(k))
  {
    k := FloorLog10(rawStep);
    factor := NiceResidual(rawStep / Pow10(k));
  }

  lemma {:induction false} Pow10Grows(k: int, j: int)
    requires k <= j
    ensures Pow10(k) <= Pow10(j)
    decreases j - k
  {
    if k < j {
      Pow10Grows(k, j - 1);
      Pow10Next(j - 1);
    }
  }

  predicate NiceFactor(f: real) { f == 1.0 || f == 2.0 || f == 2.5 || f == 5.0 || f == 10.0 }

  lemma ResidualIsLeast(residual: real, f: real)
    requires residual <= f && NiceFactor(f)
    ensures NiceResidual(residual) <= f
  {
  }

  lemma FactorBounds(f: real, p: real)
    requires NiceFactor(f) && p > 0.0
    ensures p <= Product(f, p) <= Product(10.0, p) == 10.0 * p
  {
    ProductsKeepOrder(1.0, f, p);
    ProductsKeepOrder(f, 10.0, p);
  }

  lemma LeastInDecade(residual: real, p: real, f: real)
    requires p > 0.0 && NiceFactor(f) && Product(residual, p) <= Product(f, p)
    ensures Product(NiceResidual(residual), p) <= Product(f, p)
  {
    ProductsKeepOrder(residual, f, p);
    ResidualIsLeast(residual, f);
    ProductsKeepOrder(NiceResidual(residual), f, p);
  }

  lemma LeastBelowDecade(residual: real, p: real, f: real, higher: real)
    requires p > 0.0 && higher > 0.0 && NiceFactor(f) && 10.0 * p <= higher
    ensures Product(NiceResidual(residual), p) <= Product(f, higher)
  {
    FactorBounds(NiceResidual(residual), p);
    FactorBounds(f, higher);
  }

  lemma LeastAboveDecade(residual: real, p: real, f: real, lower: real)
    requires p > 0.0 && lower > 0.0 && NiceFactor(f) && 10.0 * lower <= p
    requires p <= Product(residual, p) <= Product(f, lower)
    ensures Product(NiceResidual(residual), p) <= Product(f, lower)
  {
    FactorBounds(f, lower);
    assert Product(1.0, p) == p;
    LeastInDecade(residual, p, 1.0);
  }

  /** Theorem: no nice step is smaller and still at least the raw step. */
  lemma StepIsLeast(rawStep: real, f: real, k: int)
    requires rawStep > 0.0 && NiceFactor(f) && rawStep <= Product(f, Pow10(k))
    ensures NiceStep(rawStep) <= Product(f, Pow10(k))
  {
    var j := FloorLog10(rawStep);
    Pow10Next(j);
    QuotientBounds(rawStep, Pow10(j));
    if k == j {
      LeastInDecade(rawStep / Pow10(j), Pow10(j), f);
    } else if k > j {
      Pow10Grows(j + 1, k);
      LeastBelowDecade(rawStep / Pow10(j), Pow10(j), f, Pow10(k));
    } else {
      Pow10Grows(k + 1, j);
      Pow10Next(k);
      LeastAboveDecade(rawStep / Pow10(j), Pow10(j), f, Pow10(k));
    }
  }

  // ----- the number of ticks

  /** How many steps the axis has. */
  function TickCount(maxValue: real, targetTicks: int): int
    requires targetTicks > 0
  {
    StepsTo(SafeMax(maxValue), NiceAxisScale(maxValue, targetTicks).step)
  }

  lemma RatioBounds(safeMax: real, rawStep: real, step: real, t: real)
    requires safeMax > 0.0 && t > 0.0 && step > 0.0 && Product(rawStep, t) == safeMax
    requires rawStep <= step < 2.0 * rawStep
    ensures t < 2.0 * Quotient(safeMax, step) && Quotient(safeMax, step) <= t
  {
    var q := Quotient(safeMax, step);
    ProductsKeepOrder(rawStep, step, t);
    ProductsKeepOrder(step, 2.0 * rawStep, t);
    Doubles(rawStep, t);
    Commutes(step, t);
    ProductsKeepOrder(q, t, step);
    ProductsKeepOrder(t, 2.0 * q, step);
    Doubles(q, step);
  }

  lemma CeilingBounds(q: real, step: real, targetTicks: int)
    requires step > 0.0 && (targetTicks as real) < 2.0 * q && q <= targetTicks as real
    ensures targetTicks < 2 * Ceiling(q) && Ceiling(q) <= targetTicks
    ensures Product(q, step) <= Tick(Ceiling(q), step) < Product(q, step) + step
  {
    var n := Ceiling(q);
    assert Product(q, step) <= Product(n as real, step) < Product(q + 1.0, step) by {
      ProductsKeepOrder(q, n as real, step);
      ProductsKeepOrder(n as real, q + 1.0, step);
    }
    OneMore(q, step);
  }

  lemma StepsBounds(safeMax: real, rawStep: real, step: real, targetTicks: int)
    requires safeMax > 0.0 && targetTicks > 0 && step > 0.0 && Product(rawStep, targetTicks as real) == safeMax
    requires rawStep <= step < 2.0 * rawStep
    ensures var n := StepsTo(safeMax, step);
            targetTicks < 2 * n && n <= targetTicks && safeMax <= Tick(n, step) < safeMax + step
  {
    RatioBounds(safeMax, rawStep, step, targetTicks as real);
    CeilingBounds(Quotient(safeMax, step), step, targetTicks);
  }

  /** Theorem: the axis ends at the first multiple of the step that reaches the maximum, and it has more than
      half and at most all of the ticks asked for. */
  lemma AxisBounds(maxValue: real, targetTicks: int)
    requires targetTicks > 0
    ensures var scale, n := NiceAxisScale(maxValue, targetTicks), TickCount(maxValue, targetTicks);
            && scale.max == Tick(n, scale.step)
            && (var wanted := if maxValue > 0.0 then maxValue else 1.0; wanted <= scale.max < wanted + scale.step)
            && targetTicks < 2 * n && n <= targetTicks
  {
    var rawStep := RawStep(maxValue, targetTicks);
    StepBounds(rawStep);
    var step, n := NiceStep(rawStep), TickCount(maxValue, targetTicks);
    assert NiceAxisScale(maxValue, targetTicks) == Scale(Tick(n, step), step);
    StepsBounds(SafeMax(maxValue), rawStep, step, targetTicks);
  }

  // ----- gridlines and plot positions

  const PLOT_X: real := 234.0
  const PLOT_WIDTH: real := 420.0

  function XFor(scale: Scale, value: real): real
    requires scale.max != 0.0
  {
    PLOT_X + (value / scale.max) * PLOT_WIDTH
  }

  /** Theorem: positions grow in proportion to values, from the left edge of the plot for zero to its right edge for
      the axis maximum. */
  lemma PositionsAreProportional(scale: Scale, value: real)
    requires scale.max > 0.0
    ensures Product(XFor(scale, value) - PLOT_X, scale.max) == Product(value, PLOT_WIDTH)
    ensures XFor(scale, 0.0) == PLOT_X && XFor(scale, scale.max) == PLOT_X + PLOT_WIDTH
  {
    var q := value / scale.max;
    QuotientTimes(value, scale.max);
    Commutes(q, PLOT_WIDTH);
    Scales(PLOT_WIDTH, q, scale.max);
    Commutes(PLOT_WIDTH, value);
    assert XFor(scale, value) - PLOT_X == Product(q, PLOT_WIDTH);
  }

  lemma TickWithin(i: int, n: int, step: real)
    requires step > 0.0
    ensures Tick(i, step) <= Tick(n, step) + step / 2.0 <==> i <= n
  {
    ProductsKeepOrder(i as real, n as real, step);
    if i > n {
      ProductsKeepOrder((n + 1) as real, i as real, step);
      assert (n + 1) as real == n as real + 1.0;
      OneMore(n as real, step);
    }
  }

  /** The ticks the gridlines of renderPanel are drawn at. */
  method Gridlines(maxValue: real, targetTicks: int) returns (ticks: seq<real>)
    requires targetTicks > 0
    ensures |ticks| == TickCount(maxValue, targetTicks) + 1
    ensures forall i :: 0 <= i < |ticks| ==> ticks[i] == Tick(i, NiceAxisScale(maxValue, targetTicks).step)
    ensures ticks[|ticks| - 1] == NiceAxisScale(maxValue, targetTicks).max
  {
    var axis := NiceAxisScale(maxValue, targetTicks);
    ghost var n := TickCount(maxValue, targetTicks);
    AxisBounds(maxValue, targetTicks);
    ticks := DrawTicks(axis, n);
  }

  /** The gridline loop. */
  method DrawTicks(axis: Scale, ghost n: int) returns (ticks: seq<real>)
    requires n >= 0 && axis.step > 0.0 && axis.max == Tick(n, axis.step)
    ensures |ticks| == n + 1 && forall i :: 0 <= i < |ticks| ==> ticks[i] == Tick(i, axis.step)
  {
    ticks := [];
    var i := 0;
    TickWithin(0, n, axis.step);
    while Tick(i, axis.step) <= axis.max + axis.step / 2.0
      invariant 0 <= i <= n + 1 && |ticks| == i
      invariant Tick(i, axis.step) <= axis.max + axis.step / 2.0 <==> i <= n
      invariant forall j :: 0 <= j < i ==> ticks[j] == Tick(j, axis.step)
      decreases n - i
    {
      ticks := ticks + [Tick(i, axis.step)];
      i := i + 1;
      TickWithin(i, n, axis.step);
    }
  }

  lemma FractionBounds(value: real, max: real)
    requires max > 0.0 && 0.0 <= value <= max
    ensures 0.0 <= value / max <= 1.0
  {
    QuotientTimes(value, max);
    SignOfProduct(value / max, max);
    ProductsKeepOrder(value / max, 1.0, max);
  }

  /** Theorem: every value from zero to the panel's maximum, and every tick, lies inside the plot. */
  lemma ValuesStayInPlot(maxValue: real, targetTicks: int, value: real)
    requires targetTicks > 0 && 0.0 <= value
    requires value <= maxValue || value <= NiceAxisScale(maxValue, targetTicks).max
    ensures NiceAxisScale(maxValue, targetTicks).max > 0.0
    ensures PLOT_X <= XFor(NiceAxisScale(maxValue, targetTicks), value) <= PLOT_X + PLOT_WIDTH
  {
    var scale := NiceAxisScale(maxValue, targetTicks);
    AxisBounds(maxValue, targetTicks);
    FractionBounds(value, scale.max);
  }
}
