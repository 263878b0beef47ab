/** commonCompleted and aggregate of scripts/bench/compare-checkers.ts. */
module Aggregation {
  import opened Reals
  import opened Sequences
  import opened Diagnostics
  import opened Score

  datatype Checker = SurgeTsChecker | BoltTsChecker

  datatype TargetResult = TargetResult(baselineStatus: Status, baseline: nat, scores: map<Checker, CheckerScore>)

  datatype Aggregate = Aggregate(numbers: Numbers, rates: Rates)

  datatype Numbers = Numbers(
    targets: nat,
    completed: nat,
    crashed: nat,
    timedOut: nat,
    memoryLimited: nat,
    noInput: nat,
    exactTargets: nat,
    tp: nat,
    fp: nat,
    fn: nat,
    outOfProgram: nat,
    unmapped: nat
  )

  datatype Rates = Rates(precision: Option<real>, recall: Option<real>, f1: Option<real>)

  predicate HasStatus(r: TargetResult, checker: Checker, status: Status) {
    checker in r.scores && r.scores[checker].status == status
  }

  predicate Common(r: TargetResult) {
    r.baselineStatus == Ok && HasStatus(r, SurgeTsChecker, Ok) && HasStatus(r, BoltTsChecker, Ok)
  }

  function Eligible(results: seq<TargetResult>): seq<TargetResult> {
    Filter(results, (r: TargetResult) => r.baselineStatus == Ok)
  }

  function Scored(results: seq<TargetResult>, checker: Checker, commonOnly: bool): seq<TargetResult> {
    if commonOnly then Filter(results, Common)
    else Filter(Eligible(results), (r: TargetResult) => HasStatus(r, checker, Ok))
  }

  /** The sum of one field over the scored results; a missing score counts zero. */
  function Total(scored: seq<TargetResult>, checker: Checker, field: CheckerScore -> nat): nat {
    if scored == [] then 0
    else
      var r := scored[|scored| - 1];
      Total(scored[..|scored| - 1], checker, field) + if checker in r.scores then field(r.scores[checker]) else 0
  }

  function Tp(s: CheckerScore): nat { s.tp }
  function Fp(s: CheckerScore): nat { s.fp }
  function Fn(s: CheckerScore): nat { s.fn }
  function OutOfProgram(s: CheckerScore): nat { s.outOfProgram }
  function Unmapped(s: CheckerScore): nat { s.unmapped }

  function Ratio(part: nat, whole: nat): Option<real> {
    if whole > 0 then Some(part as real / whole as real) else None
  }

  function HarmonicMean(p: real, r: real): real
    requires p + r > 0.0
  {
    (2.0 * p * r) / (p + r)
  }

  function F1(precision: Option<real>, recall: Option<real>): Option<real> {
    if precision.Some? && recall.Some? && precision.value + recall.value > 0.0
    then Some(HarmonicMean(precision.value, recall.value))
    else None
  }

  function RatesOf(tp: nat, fp: nat, fn: nat): Rates {
    var precision, recall := Ratio(tp, tp + fp), Ratio(tp, tp + fn);
    Rates(precision, recall, F1(precision, recall))
  }

  function StatusCount(eligible: seq<TargetResult>, checker: Checker, status: Status): nat {
    |Filter(eligible, (r: TargetResult) => HasStatus(r, checker, status))|
  }

  predicate Exact(r: TargetResult, checker: Checker) {
    checker in r.scores && r.scores[checker].fp == 0 && r.scores[checker].fn == 0
  }

  function ExactCount(scored: seq<TargetResult>, checker: Checker): nat {
    |Filter(scored, (r: TargetResult) => Exact(r, checker))|
  }

  function AggregateOf(results: seq<TargetResult>, checker: Checker, commonOnly: bool): Aggregate {
    var n := NumbersOf(Eligible(results), Scored(results, checker, commonOnly), checker);
    Aggregate(n, RatesOf(n.tp, n.fp, n.fn))
  }

  function NumbersOf(eligible: seq<TargetResult>, scored: seq<TargetResult>, checker: Checker): Numbers {
    Numbers(
      |eligible|,
      StatusCount(eligible, checker, Ok), StatusCount(eligible, checker, Crash), StatusCount(eligible, checker, Timeout),
      StatusCount(eligible, checker, MemoryLimit), StatusCount(eligible, checker, NoInput),
      ExactCount(scored, checker),
      Total(scored, checker, Tp), Total(scored, checker, Fp), Total(scored, checker, Fn),
      Total(scored, checker, OutOfProgram), Total(scored, checker, Unmapped))
  }

  // ----- one baseline for all checkers

  /** Every completed score of a result was computed against that result's own baseline. */
  ghost predicate FromOneBaseline(r: TargetResult) {
    forall checker :: HasStatus(r, checker, Ok) ==>
      exists run, baseline, programFiles ::
        |baseline| == r.baseline && r.scores[checker] == RunScore(run, baseline, programFiles) && run.Finished?
  }

  function BaselineTotal(scored: seq<TargetResult>): nat {
    if scored == [] then 0 else BaselineTotal(scored[..|scored| - 1]) + scored[|scored| - 1].baseline
  }

  lemma {:induction false} TotalsMeetBaseline(scored: seq<TargetResult>, checker: Checker)
    requires forall r :: r in scored ==> FromOneBaseline(r) && HasStatus(r, checker, Ok)
    ensures Total(scored, checker, Tp) + Total(scored, checker, Fn) == BaselineTotal(scored)
  {
    if scored != [] {
      var r := scored[|scored| - 1];
      assert r in scored;
      TotalsMeetBaseline(scored[..|scored| - 1], checker);
      var run, baseline, programFiles :|
        |baseline| == r.baseline && r.scores[checker] == RunScore(run, baseline, programFiles) && run.Finished?;
      RunScoreAccounts(run, baseline, programFiles);
    }
  }

  /** Theorem: over the common completed set, true positives and false negatives add up to the same number for
      every checker, the number of baseline diagnostics. */
  lemma CommonSetSharesBaseline(results: seq<TargetResult>, checker: Checker)
    requires forall r :: r in results ==> FromOneBaseline(r)
    ensures AggregateOf(results, checker, true).numbers.tp + AggregateOf(results, checker, true).numbers.fn
         == BaselineTotal(Filter(results, Common))
  {
    forall r | r in Filter(results, Common) ensures HasStatus(r, checker, Ok) {
      match checker {
        case SurgeTsChecker =>
        case BoltTsChecker =>
      }
    }
    TotalsMeetBaseline(Filter(results, Common), checker);
  }

  // ----- sums over a split

  lemma {:induction false} TotalAppend(a: seq<TargetResult>, b: seq<TargetResult>, checker: Checker, field: CheckerScore -> nat)
    ensures Total(a + b, checker, field) == Total(a, checker, field) + Total(b, checker, field)
  {
    if b == [] {
      assert a + b == a;
    } else {
      assert (a + b)[..|a + b| - 1] == a + b[..|b| - 1];
      TotalAppend(a, b[..|b| - 1], checker, field);
    }
  }

  lemma ScoredAppend(a: seq<TargetResult>, b: seq<TargetResult>, checker: Checker, commonOnly: bool)
    ensures Scored(a + b, checker, commonOnly) == Scored(a, checker, commonOnly) + Scored(b, checker, commonOnly)
  {
    if commonOnly {
      FilterAppend(a, b, Common);
    } else {
      FilterAppend(a, b, (r: TargetResult) => r.baselineStatus == Ok);
      FilterAppend(Eligible(a), Eligible(b), (r: TargetResult) => HasStatus(r, checker, Ok));
    }
  }

  lemma CountsAppend(a: seq<TargetResult>, b: seq<TargetResult>, checker: Checker)
    ensures forall status :: StatusCount(a + b, checker, status) == StatusCount(a, checker, status) + StatusCount(b, checker, status)
    ensures ExactCount(a + b, checker) == ExactCount(a, checker) + ExactCount(b, checker)
  {
    forall status ensures StatusCount(a + b, checker, status) == StatusCount(a, checker, status) + StatusCount(b, checker, status) {
      FilterAppend(a, b, (r: TargetResult) => HasStatus(r, checker, status));
    }
    FilterAppend(a, b, (r: TargetResult) => Exact(r, checker));
  }

  lemma TotalsAppend(s: seq<TargetResult>, t: seq<TargetResult>, checker: Checker)
    ensures Total(s + t, checker, Tp) == Total(s, checker, Tp) + Total(t, checker, Tp)
    ensures Total(s + t, checker, Fp) == Total(s, checker, Fp) + Total(t, checker, Fp)
    ensures Total(s + t, checker, Fn) == Total(s, checker, Fn) + Total(t, checker, Fn)
    ensures Total(s + t, checker, OutOfProgram) == Total(s, checker, OutOfProgram) + Total(t, checker, OutOfProgram)
    ensures Total(s + t, checker, Unmapped) == Total(s, checker, Unmapped) + Total(t, checker, Unmapped)
  {
    TotalAppend(s, t, checker, Tp);
    TotalAppend(s, t, checker, Fp);
    TotalAppend(s, t, checker, Fn);
    TotalAppend(s, t, checker, OutOfProgram);
    TotalAppend(s, t, checker, Unmapped);
  }

  function Plus(x: Numbers, y: Numbers): Numbers {
    Numbers(x.targets + y.targets, x.completed + y.completed, x.crashed + y.crashed, x.timedOut + y.timedOut,
            x.memoryLimited + y.memoryLimited, x.noInput + y.noInput, x.exactTargets + y.exactTargets,
            x.tp + y.tp, x.fp + y.fp, x.fn + y.fn, x.outOfProgram + y.outOfProgram, x.unmapped + y.unmapped)
  }

  lemma NumbersAppend(e: seq<TargetResult>, f: seq<TargetResult>, s: seq<TargetResult>, t: seq<TargetResult>, checker: Checker)
    ensures NumbersOf(e + f, s + t, checker) == Plus(NumbersOf(e, s, checker), NumbersOf(f, t, checker))
  {
    CountsAppend(e, f, checker);
    CountsAppend(s, t, checker);
    TotalsAppend(s, t, checker);
  }

  /** Theorem: aggregating two batches separately loses and duplicates nothing. */
  lemma AggregateSplits(a: seq<TargetResult>, b: seq<TargetResult>, checker: Checker, commonOnly: bool)
    ensures AggregateOf(a + b, checker, commonOnly).numbers
         == Plus(AggregateOf(a, checker, commonOnly).numbers, AggregateOf(b, checker, commonOnly).numbers)
  {
    EligibleAppend(a, b);
    ScoredAppend(a, b, checker, commonOnly);
    NumbersAppend(Eligible(a), Eligible(b), Scored(a, checker, commonOnly), Scored(b, checker, commonOnly), checker);
  }

  lemma EligibleAppend(a: seq<TargetResult>, b: seq<TargetResult>)
    ensures Eligible(a + b) == Eligible(a) + Eligible(b)
  {
    FilterAppend(a, b, (r: TargetResult) => r.baselineStatus == Ok);
  }

  // ----- every eligible target under one heading

  predicate Listed(r: TargetResult, checker: Checker) {
    checker in r.scores && r.scores[checker].status != InvalidConfig
  }

  function ListedCount(eligible: seq<TargetResult>, checker: Checker): nat {
    StatusCount(eligible, checker, Ok) + StatusCount(eligible, checker, Crash) + StatusCount(eligible, checker, Timeout)
    + StatusCount(eligible, checker, MemoryLimit) + StatusCount(eligible, checker, NoInput)
  }

  lemma {:induction false} ListedCountHolds(eligible: seq<TargetResult>, checker: Checker)
    ensures ListedCount(eligible, checker) <= |eligible|
    ensures ListedCount(eligible, checker) == |eligible| <==> forall r :: r in eligible ==> Listed(r, checker)
  {
    if eligible != [] {
      var init, last := eligible[..|eligible| - 1], eligible[|eligible| - 1];
      ListedCountHolds(init, checker);
      assert eligible == init + [last];
      CountsAppend(init, [last], checker);
      SingleCount(last, checker);
    }
  }

  lemma SingleCount(r: TargetResult, checker: Checker)
    ensures ListedCount([r], checker) == if Listed(r, checker) then 1 else 0
  {
    assert [r][..0] == [];
    assert forall status :: StatusCount([r], checker, status) == if HasStatus(r, checker, status) then 1 else 0;
  }

  /** Theorem: no eligible target is counted under two statuses, and none is left uncounted exactly when each has
      a score whose status has a heading. */
  lemma StatusesPartition(results: seq<TargetResult>, checker: Checker, commonOnly: bool)
    ensures var a := AggregateOf(results, checker, commonOnly).numbers;
            var counted := a.completed + a.crashed + a.timedOut + a.memoryLimited + a.noInput;
            && counted <= a.targets
            && (counted == a.targets <==> forall r :: r in Eligible(results) ==> Listed(r, checker))
  {
    ListedCountHolds(Eligible(results), checker);
  }

  // ----- F1

  lemma CancelProduct(x: real, y: real, a: real, b: real)
    requires a > 0.0 && b > 0.0 && x * (a * b) == y * (a * b)
    ensures x == y
  {
    assert a * b > 0.0;
    assert (x - y) * (a * b) == 0.0;
  }

  /** The harmonic mean of t/a and t/b is 2t/(a + b). */
  lemma HarmonicMeanOf(t: real, a: real, b: real, p: real, r: real, q: real)
    requires t > 0.0 && a > 0.0 && b > 0.0
    requires p * a == t && r * b == t && q * (a + b) == 2.0 * t
    ensures p + r > 0.0 && HarmonicMean(p, r) == q
  {
    assert p > 0.0 && r > 0.0;
    calc {
      (q * (p + r)) * (a * b);
      q * ((p * a) * b + (r * b) * a);
      q * (t * b + t * a);
      (q * (a + b)) * t;
      2.0 * t * t;
      2.0 * (p * a) * (r * b);
      (2.0 * p * r) * (a * b);
    }
    CancelProduct(q * (p + r), 2.0 * p * r, a, b);
    assert (q * (p + r)) / (p + r) == q;
  }

  predicate Between(x: real, y: real, z: real) { y <= x <= z || z <= x <= y }

  /** A weighted mean lies between the two values. */
  lemma WeightedMeanBetween(p: real, r: real, q: real, a: real, b: real)
    requires a > 0.0 && b > 0.0 && q * (a + b) == p * a + r * b
    ensures Between(q, p, r)
  {
    var u, v := q - p, r - q;
    assert Product(u, a) == Product(v, b);
    SignOfProduct(u, a);
    SignOfProduct(v, b);
  }

  /** The closed form of F1: with a = tp + fp and b = tp + fn it is 2tp / (2tp + fp + fn). */
  function ClosedF1(t: real, a: real, b: real): real
    requires a + b > 0.0
  {
    (2.0 * t) / (a + b)
  }

  lemma F1OfReals(t: real, a: real, b: real)
    requires t > 0.0 && a > 0.0 && b > 0.0
    ensures var p, r := t / a, t / b;
            && F1(Some(p), Some(r)) == Some(ClosedF1(t, a, b))
            && Between(ClosedF1(t, a, b), p, r)
  {
    var p, r, q := t / a, t / b, ClosedF1(t, a, b);
    QuotientTimes(t, a);
    QuotientTimes(t, b);
    QuotientTimes(2.0 * t, a + b);
    HarmonicMeanOf(t, a, b, p, r, q);
    WeightedMeanBetween(p, r, q, a, b);
  }

  lemma RatioTimes(part: nat, whole: nat)
    ensures Ratio(part, whole).Some? <==> whole > 0
    ensures whole > 0 ==> Product(Ratio(part, whole).value, whole as real) == part as real
  {
    if whole > 0 {
      QuotientTimes(part as real, whole as real);
    }
  }

  /** Theorem: precision is the share of the reported diagnostics that are right, recall that of the baseline's
      diagnostics that are reported, and each is undefined where there is nothing to take a share of. */
  lemma RatesMean(tp: nat, fp: nat, fn: nat)
    ensures var rates := RatesOf(tp, fp, fn);
            && (rates.precision.Some? <==> tp + fp > 0) && (rates.recall.Some? <==> tp + fn > 0)
            && (tp + fp > 0 ==> Product(rates.precision.value, (tp + fp) as real) == tp as real)
            && (tp + fn > 0 ==> Product(rates.recall.value, (tp + fn) as real) == tp as real)
  {
    RatioTimes(tp, tp + fp);
    RatioTimes(tp, tp + fn);
  }

  function Count(b: bool): nat { if b then 1 else 0 }

  lemma OneTotal(r: TargetResult, checker: Checker, field: CheckerScore -> nat)
    ensures Total([r], checker, field) == if checker in r.scores then field(r.scores[checker]) else 0
  {
    assert [r][..0] == [];
  }

  /** The sums over one result that is scored. */
  lemma NumbersOfScored(r: TargetResult, checker: Checker, eligible: seq<TargetResult>)
    requires checker in r.scores
    ensures var n, s := NumbersOf(eligible, [r], checker), r.scores[checker];
            && (n.tp, n.fp, n.fn, n.outOfProgram, n.unmapped) == (s.tp, s.fp, s.fn, s.outOfProgram, s.unmapped)
            && n.exactTargets == Count(s.fp == 0 && s.fn == 0)
  {
    assert [r][..0] == [];
    OneTotal(r, checker, Tp);
    OneTotal(r, checker, Fp);
    OneTotal(r, checker, Fn);
    OneTotal(r, checker, OutOfProgram);
    OneTotal(r, checker, Unmapped);
  }

  /** `result.scores[checker]?.status`. */
  function StatusOf(r: TargetResult, checker: Checker): Option<Status> {
    if checker in r.scores then Some(r.scores[checker].status) else None
  }

  lemma StatusOfOne(r: TargetResult, checker: Checker, status: Status)
    ensures StatusCount(Eligible([r]), checker, status) == Count(r.baselineStatus == Ok && StatusOf(r, checker) == Some(status))
  {
    assert [r][..0] == [];
  }

  /** A target is scored if its baseline and the checker, or all checkers, completed. */
  predicate IsScored(r: TargetResult, checker: Checker, commonOnly: bool) {
    && r.baselineStatus == Ok
    && if commonOnly then forall c :: StatusOf(r, c) == Some(Ok) else StatusOf(r, checker) == Some(Ok)
  }

  lemma CommonIff(r: TargetResult)
    ensures Common(r) <==> IsScored(r, SurgeTsChecker, true)
    ensures forall checker :: IsScored(r, checker, true) <==> IsScored(r, SurgeTsChecker, true)
  {
    if Common(r) {
      forall c ensures StatusOf(r, c) == Some(Ok) {
        assert c == SurgeTsChecker || c == BoltTsChecker;
      }
    } else if r.baselineStatus == Ok {
      assert StatusOf(r, SurgeTsChecker) != Some(Ok) || StatusOf(r, BoltTsChecker) != Some(Ok);
    }
  }

  lemma ScoredOfOne(r: TargetResult, checker: Checker, commonOnly: bool)
    ensures Scored([r], checker, commonOnly) == if IsScored(r, checker, commonOnly) then [r] else []
  {
    if commonOnly {
      CommonIff(r);
      FilterOne(r, Common);
    } else {
      FilterOne(r, (r: TargetResult) => r.baselineStatus == Ok);
      FilterOne(r, (r: TargetResult) => HasStatus(r, checker, Ok));
    }
  }

  /** Theorem: the aggregate of one target counts it under its status if its baseline completed, and repeats its
      score if it is scored. */
  lemma AggregateOfOne(r: TargetResult, checker: Checker, commonOnly: bool)
    ensures var n := AggregateOf([r], checker, commonOnly).numbers;
            var scored, ok := IsScored(r, checker, commonOnly), r.baselineStatus == Ok;
            && n.targets == Count(ok)
            && n.completed == Count(ok && StatusOf(r, checker) == Some(Ok)) && n.crashed == Count(ok && StatusOf(r, checker) == Some(Crash))
            && n.timedOut == Count(ok && StatusOf(r, checker) == Some(Timeout))
            && n.memoryLimited == Count(ok && StatusOf(r, checker) == Some(MemoryLimit)) && n.noInput == Count(ok && StatusOf(r, checker) == Some(NoInput))
            && (!scored ==> (n.tp, n.fp, n.fn, n.outOfProgram, n.unmapped, n.exactTargets) == (0, 0, 0, 0, 0, 0))
            && (scored ==>
                  && checker in r.scores
                  && var s := r.scores[checker];
                     (n.tp, n.fp, n.fn, n.outOfProgram, n.unmapped, n.exactTargets)
                     == (s.tp, s.fp, s.fn, s.outOfProgram, s.unmapped, Count(s.fp == 0 && s.fn == 0)))
  {
    assert [r][..0] == [];
    ScoredOfOne(r, checker, commonOnly);
    StatusOfOne(r, checker, Ok);
    StatusOfOne(r, checker, Crash);
    StatusOfOne(r, checker, Timeout);
    StatusOfOne(r, checker, MemoryLimit);
    StatusOfOne(r, checker, NoInput);
    if IsScored(r, checker, commonOnly) {
      assert StatusOf(r, checker) == Some(Ok);
      NumbersOfScored(r, checker, Eligible([r]));
    }
  }

  lemma NoF1(fp: nat, fn: nat)
    ensures RatesOf(0, fp, fn).f1 == None
  {
    assert fp > 0 ==> Ratio(0, fp).value == 0.0;
    assert fn > 0 ==> Ratio(0, fn).value == 0.0;
  }

  /** Theorem: F1 is defined exactly when something was found. Then precision and recall are defined too, F1 has
      the closed form, and it lies between the other two. */
  lemma F1Meaning(tp: nat, fp: nat, fn: nat)
    ensures RatesOf(tp, fp, fn).f1.Some? <==> tp > 0
    ensures var rates := RatesOf(tp, fp, fn);
            rates.f1.Some? ==>
              && rates.precision.Some? && rates.recall.Some?
              && rates.f1 == Some(ClosedF1(tp as real, (tp + fp) as real, (tp + fn) as real))
              && Between(rates.f1.value, rates.precision.value, rates.recall.value)
  {
    if tp == 0 {
      NoF1(fp, fn);
    } else {
      F1OfReals(tp as real, (tp + fp) as real, (tp + fn) as real);
    }
  }
}
