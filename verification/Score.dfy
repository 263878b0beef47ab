/** scripts/bench/compare-checkers.ts: scoring one checker's diagnostics against the baseline. */
module Score {
  import opened Sequences
  import opened KeyedLists
  import opened Tallies
  import opened Diagnostics
  import opened Comparisons
  import opened Sweep
  import opened Messages

  datatype DiagnosticScore = DiagnosticScore(tp: nat, fp: nat, fn: nat, fpKeys: seq<string>, fnKeys: seq<string>)

  /** The keys of `s` that `other` does not use up, grouped by first occurrence. */
  function SurplusKeys(s: seq<Diagnostic>, other: seq<Diagnostic>): seq<string> {
    Repeat(Distinct(Map(s, ScoreKey)), Bag(s, ScoreKey) - Bag(other, ScoreKey))
  }

  function ScoreOf(baseline: seq<Diagnostic>, reported: seq<Diagnostic>): DiagnosticScore {
    var fpKeys, fnKeys := SurplusKeys(reported, baseline), SurplusKeys(baseline, reported);
    DiagnosticScore(|Bag(baseline, ScoreKey) * Bag(reported, ScoreKey)|, |fpKeys|, |fnKeys|, fpKeys, fnKeys)
  }

  /** One of the two loops of scoreDiagnostics: the matched count, and the unmatched keys of `s`. */
  method Match(s: Tally<string>, other: Tally<string>, ghost bag: multiset<string>, ghost otherBag: multiset<string>)
    returns (matches: nat, surplus: seq<string>)
    requires forall k :: Get(s.count, k) == bag[k]
    requires forall k :: Get(other.count, k) == otherBag[k]
    ensures matches == |Repeat(s.order, bag * otherBag)|
    ensures surplus == Repeat(s.order, bag - otherBag)
  {
    matches, surplus := 0, [];
    for i := 0 to |s.order|
      invariant matches == |Repeat(s.order[..i], bag * otherBag)|
      invariant surplus == Repeat(s.order[..i], bag - otherBag)
    {
      var key := s.order[i];
      assert s.order[..i + 1][..i] == s.order[..i];
      var count: nat := Get(s.count, key);
      var matched: nat := if count <= Get(other.count, key) then count else Get(other.count, key);
      matches := matches + matched;
      ghost var before := surplus;
      for j := matched to count
        invariant surplus == before + seq(j - matched, _ => key)
      {
        surplus := surplus + [key];
      }
    }
    assert s.order[..|s.order|] == s.order;
  }

  lemma RepeatDistinct(s: seq<Diagnostic>, bag: multiset<string>)
    requires bag <= Bag(s, ScoreKey)
    ensures multiset(Repeat(Distinct(Map(s, ScoreKey)), bag)) == bag
    ensures |Repeat(Distinct(Map(s, ScoreKey)), bag)| == |bag|
  {
    DistinctHolds(Map(s, ScoreKey));
    forall k | k in bag ensures k in Distinct(Map(s, ScoreKey)) {
      assert k in Bag(s, ScoreKey);
    }
    RepeatBag(Distinct(Map(s, ScoreKey)), bag);
  }

  /** scoreDiagnostics. */
  method ScoreDiagnostics(baseline: seq<Diagnostic>, reported: seq<Diagnostic>) returns (score: DiagnosticScore)
    ensures score == ScoreOf(baseline, reported)
  {
    var expected := CountBy(baseline, ScoreKey);
    var actual := CountBy(reported, ScoreKey);
    ghost var e, a := Bag(baseline, ScoreKey), Bag(reported, ScoreKey);
    var tp, fpKeys := Match(actual, expected, a, e);
    var _, fnKeys := Match(expected, actual, e, a);
    RepeatDistinct(reported, a * e);
    assert a * e == e * a;
    score := DiagnosticScore(tp, |fpKeys|, |fnKeys|, fpKeys, fnKeys);
  }

  /** Theorem: the false positives and negatives are the two multiset differences, and the true positives
      complete them to the two lists. */
  lemma ScoreIsExact(baseline: seq<Diagnostic>, reported: seq<Diagnostic>)
    ensures var s := ScoreOf(baseline, reported);
            && multiset(s.fpKeys) == Bag(reported, ScoreKey) - Bag(baseline, ScoreKey)
            && multiset(s.fnKeys) == Bag(baseline, ScoreKey) - Bag(reported, ScoreKey)
            && s.fp == Drift(reported, baseline, ScoreKey) && s.fn == Drift(baseline, reported, ScoreKey)
            && s.tp + s.fp == |reported| && s.tp + s.fn == |baseline|
  {
    var e, a := Bag(baseline, ScoreKey), Bag(reported, ScoreKey);
    RepeatDistinct(reported, a - e);
    RepeatDistinct(baseline, e - a);
    BagSize(baseline, ScoreKey);
    BagSize(reported, ScoreKey);
    CommonAndSurplus(e, a);
  }

  // ----- the benchmark and the oracle count the same drift

  /** The codes of these diagnostics are separable for the benchmark's key and for the oracle's. */
  ghost predicate ComparableCodes(s: seq<Diagnostic>) {
    SeparableCodes(Codes(s)) && ScoreSeparableCodes(Codes(s))
  }

  /** The benchmark's false positives and negatives are the surpluses of the oracle's file/code/line comparison. */
  ghost predicate ToolsAgree(baseline: seq<Diagnostic>, reported: seq<Diagnostic>, leq: Collation) {
    var s, b := ScoreOf(baseline, reported), ComparisonOf(baseline, reported, leq).byFileCodeLine;
    s.fp == OnlySurgeTs(b) && s.fn == OnlyTypeScript(b)
  }

  lemma ToolsAgreeIffDrift(baseline: seq<Diagnostic>, reported: seq<Diagnostic>, leq: Collation)
    ensures ToolsAgree(baseline, reported, leq)
       <==> && Drift(reported, baseline, ScoreKey) == LineDrift(reported, baseline)
            && Drift(baseline, reported, ScoreKey) == LineDrift(baseline, reported)
  {
    ScoreIsExact(baseline, reported);
    DriftIsReported(baseline, reported, leq);
  }

  /** The two keys tell the same diagnostics of `ds` apart. */
  ghost predicate KeysAgreeOn(ds: iset<Diagnostic>) {
    forall d, e :: d in ds && e in ds ==> (ScoreKey(d) == ScoreKey(e) <==> KeyByFileCodeLine(d) == KeyByFileCodeLine(e))
  }

  ghost predicate LocatedSet(ds: iset<Diagnostic>) { forall d :: d in ds ==> HasLineInfo(d) }

  lemma SameDrift(left: seq<Diagnostic>, right: seq<Diagnostic>, ds: iset<Diagnostic>)
    requires DrawnFrom(left, ds) && DrawnFrom(right, ds) && KeysAgreeOn(ds) && LocatedSet(ds)
    ensures Drift(left, right, ScoreKey) == LineDrift(left, right)
  {
    AllLocated(left);
    AllLocated(right);
    KeysDetermine(left + right, ds);
    CoarseSurplus(left, right, ScoreKey, KeyByFileCodeLine);
    CoarseSurplus(left, right, KeyByFileCodeLine, ScoreKey);
  }

  lemma KeysDetermine(s: seq<Diagnostic>, ds: iset<Diagnostic>)
    requires (forall d :: d in s ==> d in ds) && KeysAgreeOn(ds)
    ensures Determines(s, ScoreKey, KeyByFileCodeLine) && Determines(s, KeyByFileCodeLine, ScoreKey)
  {
    forall i, j | 0 <= i < |s| && 0 <= j < |s|
      ensures ScoreKey(s[i]) == ScoreKey(s[j]) <==> KeyByFileCodeLine(s[i]) == KeyByFileCodeLine(s[j]) {
      assert s[i] in s && s[j] in s;
    }
  }

  /** The two tools agree on all lists drawn from `ds`. */
  ghost predicate ToolsAgreeOn(ds: iset<Diagnostic>, leq: Collation) {
    forall baseline, reported :: DrawnFrom(baseline, ds) && DrawnFrom(reported, ds) ==> ToolsAgree(baseline, reported, leq)
  }

  /** Theorem: the benchmark and the oracle count the same drift on all lists drawn from a set of diagnostics exactly
      when each of them is located and the two keys tell the same ones apart. */
  lemma ToolsAgreeOnIff(ds: iset<Diagnostic>, leq: Collation)
    ensures ToolsAgreeOn(ds, leq) <==> LocatedSet(ds) && KeysAgreeOn(ds)
  {
    if LocatedSet(ds) && KeysAgreeOn(ds) {
      forall baseline, reported | DrawnFrom(baseline, ds) && DrawnFrom(reported, ds) ensures ToolsAgree(baseline, reported, leq) {
        SameDrift(baseline, reported, ds);
        SameDrift(reported, baseline, ds);
        ToolsAgreeIffDrift(baseline, reported, leq);
      }
    }
    if ToolsAgreeOn(ds, leq) {
      forall d | d in ds ensures HasLineInfo(d) {
        assert DrawnFrom([], ds) && DrawnFrom([d], ds);
        UnlocatedDisagree(d, leq);
      }
      forall d, e | d in ds && e in ds ensures ScoreKey(d) == ScoreKey(e) <==> KeyByFileCodeLine(d) == KeyByFileCodeLine(e) {
        assert DrawnFrom([d], ds) && DrawnFrom([e], ds);
        AgreeingPair(d, e, leq);
      }
    }
  }

  /** The benchmark counts a diagnostic without a position, and the oracle's line comparison leaves it out. */
  lemma UnlocatedDisagree(d: Diagnostic, leq: Collation)
    ensures ToolsAgree([d], [], leq) ==> HasLineInfo(d)
  {
    if !HasLineInfo(d) {
      UnlocatedAlone(d);
      BagSize([d], ScoreKey);
      assert Bag<Diagnostic, string>([], ScoreKey) == multiset{};
      assert Drift([d], [], ScoreKey) == 1;
      ToolsAgreeIffDrift([d], [], leq);
    }
  }

  lemma SingleDrift<K(!new)>(d: Diagnostic, e: Diagnostic, key: Diagnostic -> K)
    ensures Drift([d], [e], key) == 0 <==> key(d) == key(e)
  {
    assert Map([d], key) == [key(d)] && Map([e], key) == [key(e)];
    assert Bag([d], key) == multiset{key(d)} && Bag([e], key) == multiset{key(e)};
    if key(d) != key(e) {
      assert multiset{key(d)} - multiset{key(e)} == multiset{key(d)};
    } else {
      assert multiset{key(d)} - multiset{key(e)} == multiset{};
    }
  }

  lemma EqualPairDrift(d: Diagnostic, e: Diagnostic)
    requires HasLineInfo(d) && HasLineInfo(e)
    ensures Drift([d], [e], ScoreKey) == LineDrift([d], [e]) ==>
              (ScoreKey(d) == ScoreKey(e) <==> KeyByFileCodeLine(d) == KeyByFileCodeLine(e))
  {
    AllLocated([d]);
    AllLocated([e]);
    SingleDrift(d, e, ScoreKey);
    SingleDrift(d, e, KeyByFileCodeLine);
  }

  lemma AgreeingPair(d: Diagnostic, e: Diagnostic, leq: Collation)
    requires HasLineInfo(d) && HasLineInfo(e)
    ensures ToolsAgree([e], [d], leq) ==> (ScoreKey(d) == ScoreKey(e) <==> KeyByFileCodeLine(d) == KeyByFileCodeLine(e))
  {
    ToolsAgreeIffDrift([e], [d], leq);
    EqualPairDrift(d, e);
  }

  /** Diagnostics over these codes, all located ones among them. */
  ghost predicate OverCodes(ds: iset<Diagnostic>, codes: set<string>) {
    && (forall d :: d in ds ==> d.code in codes)
    && (forall d: Diagnostic :: d.code in codes && HasLineInfo(d) ==> d in ds)
  }

  /** Theorem: over a set of codes, in all files and lines, the two tools agree exactly when the codes are separable
      for both keys and no diagnostic lacks a position. */
  lemma ToolsAgreeIffSeparable(ds: iset<Diagnostic>, codes: set<string>, leq: Collation)
    requires OverCodes(ds, codes)
    ensures ToolsAgreeOn(ds, leq) <==> LocatedSet(ds) && SeparableCodes(codes) && ScoreSeparableCodes(codes)
  {
    ToolsAgreeOnIff(ds, leq);
    if SeparableCodes(codes) && ScoreSeparableCodes(codes) {
      KeysAgreeIffSeparable(codes);
    }
    if KeysAgreeOn(ds) {
      LocatedKeysSeparate(codes);
    }
  }

  /** Theorem: with codes that are separable for both keys, and every diagnostic located, the benchmark's false
      positives and negatives are the oracle's file/code/line surpluses. */
  lemma ScoreMatchesOracle(baseline: seq<Diagnostic>, reported: seq<Diagnostic>, leq: Collation)
    requires ComparableCodes(baseline + reported)
    requires forall d :: d in baseline + reported ==> HasLineInfo(d)
    ensures ToolsAgree(baseline, reported, leq)
  {
    var ds := iset d | d in baseline + reported;
    forall d, e | d in ds && e in ds ensures ScoreKey(d) == ScoreKey(e) <==> KeyByFileCodeLine(d) == KeyByFileCodeLine(e) {
      SeparableKeysAgree(d, e, Codes(baseline + reported));
    }
    assert DrawnFrom(baseline, ds) && DrawnFrom(reported, ds) && LocatedSet(ds);
    ToolsAgreeOnIff(ds, leq);
  }

  /** Theorem: over located diagnostics with such codes, a target is exact in the benchmark exactly when it
      passes the oracle's gate. */
  lemma ExactIffGatePassed(baseline: seq<Diagnostic>, reported: seq<Diagnostic>, leq: Collation)
    requires ComparableCodes(baseline + reported)
    requires forall d :: d in baseline + reported ==> HasLineInfo(d)
    ensures ScoreOf(baseline, reported).fp == 0 && ScoreOf(baseline, reported).fn == 0
       <==> GatePassed(ComparisonOf(baseline, reported, leq))
  {
    ScoreMatchesOracle(baseline, reported, leq);
    ScoreIsExact(baseline, reported);
    ToolsAgreeIffDrift(baseline, reported, leq);
    forall d | d in baseline || d in reported ensures HasLineInfo(d) {
      assert d in baseline + reported;
    }
    AllLocated(baseline);
    AllLocated(reported);
    LocatedGateIsLineParity(baseline, reported, leq);
    NoSurplusIsEqual(Bag(baseline, KeyByFileCodeLine), Bag(reported, KeyByFileCodeLine));
  }

  // ----- scoreRun

  datatype Status = Ok | Crash | Timeout | MemoryLimit | NoInput | InvalidConfig

  /** What a run of a checker left behind: parsed diagnostics, mapped to codes or not, or a failure. */
  datatype Run = Finished(normalized: seq<Diagnostic>, unmapped: seq<Diagnostic>) | Failed(status: Status)

  datatype CheckerScore = CheckerScore(
    status: Status,
    reported: nat,
    tp: nat,
    fp: nat,
    fn: nat,
    outOfProgram: nat,
    unmapped: nat
  )

  function InProgram(programFiles: Option<set<string>>): Diagnostic -> bool {
    (d: Diagnostic) => programFiles.None? || d.fileName == "" || d.fileName in programFiles.value
  }

  method ScoreRun(run: Run, baseline: seq<Diagnostic>, programFiles: Option<set<string>>) returns (score: CheckerScore)
    ensures score == RunScore(run, baseline, programFiles)
  {
    match run {
      case Failed(status) =>
        score := CheckerScore(status, 0, 0, 0, 0, 0, 0);
      case Finished(normalized, unmapped) =>
        var scored := Filter(normalized, InProgram(programFiles));
        var scoredUnmapped := Filter(unmapped, InProgram(programFiles));
        var s := ScoreDiagnostics(baseline, scored);
        score := CheckerScore(Ok, |normalized| + |unmapped|, s.tp, s.fp, s.fn,
                              |normalized| - |scored| + |unmapped| - |scoredUnmapped|, |scoredUnmapped|);
    }
  }

  function RunScore(run: Run, baseline: seq<Diagnostic>, programFiles: Option<set<string>>): CheckerScore {
    match run
    case Failed(status) => CheckerScore(status, 0, 0, 0, 0, 0, 0)
    case Finished(normalized, unmapped) =>
      var scored := Filter(normalized, InProgram(programFiles));
      var scoredUnmapped := Filter(unmapped, InProgram(programFiles));
      var s := ScoreOf(baseline, scored);
      CheckerScore(Ok, |normalized| + |unmapped|, s.tp, s.fp, s.fn,
                   |normalized| - |scored| + |unmapped| - |scoredUnmapped|, |scoredUnmapped|)
  }

  /** The diagnostics that name a file outside the program; without a known program there are none. */
  function Outside(s: seq<Diagnostic>, programFiles: Option<set<string>>): seq<Diagnostic> {
    Filter(s, (d: Diagnostic) => programFiles.Some? && d.fileName != "" && d.fileName !in programFiles.value)
  }

  function Inside(s: seq<Diagnostic>, programFiles: Option<set<string>>): seq<Diagnostic> {
    Filter(s, (d: Diagnostic) => !(programFiles.Some? && d.fileName != "" && d.fileName !in programFiles.value))
  }

  lemma {:induction false} InsideAndOutside(s: seq<Diagnostic>, programFiles: Option<set<string>>)
    ensures Filter(s, InProgram(programFiles)) == Inside(s, programFiles)
    ensures |Inside(s, programFiles)| + |Outside(s, programFiles)| == |s|
  {
    if s != [] {
      InsideAndOutside(s[..|s| - 1], programFiles);
    }
  }

  /** Theorem: only what a run reports inside the program is scored: there the false positives and negatives are the
      two multiset differences with the baseline. What lies outside is counted apart, and so are the diagnostics
      without a code. */
  lemma RunScoreMeans(run: Run, baseline: seq<Diagnostic>, programFiles: Option<set<string>>)
    requires run.Finished?
    ensures var s, inside := RunScore(run, baseline, programFiles), Inside(run.normalized, programFiles);
            && s.status == Ok && s.reported == |run.normalized| + |run.unmapped|
            && s.fp == Drift(inside, baseline, ScoreKey) && s.fn == Drift(baseline, inside, ScoreKey)
            && s.tp == |Bag(baseline, ScoreKey) * Bag(inside, ScoreKey)|
            && s.outOfProgram == |Outside(run.normalized, programFiles)| + |Outside(run.unmapped, programFiles)|
            && s.unmapped == |Inside(run.unmapped, programFiles)|
  {
    InsideAndOutside(run.normalized, programFiles);
    InsideAndOutside(run.unmapped, programFiles);
    ScoreIsExact(baseline, Inside(run.normalized, programFiles));
  }

  /** Theorem: a finished run accounts for every baseline diagnostic and for every diagnostic it reported. */
  lemma RunScoreAccounts(run: Run, baseline: seq<Diagnostic>, programFiles: Option<set<string>>)
    requires run.Finished?
    ensures var s := RunScore(run, baseline, programFiles);
            && s.tp + s.fn == |baseline|
            && s.tp + s.fp + s.outOfProgram + s.unmapped == s.reported
  {
    ScoreIsExact(baseline, Filter(run.normalized, InProgram(programFiles)));
  }
}
