/** scripts/oracle/sweep-presets.ts: the verdict on one target and the summary of a sweep. */
module Sweep {
  import opened Sequences
  import opened KeyedLists
  import opened Decimal
  import opened Text
  import opened Diagnostics
  import opened Oracle
  import opened Messages
  import opened Comparisons

  // ----- deriveSpanMatch

  predicate Placed(f: Fingerprint) { f.line.Some? && f.column.Some? }

  function LineKey(f: Fingerprint): string
    requires Placed(f)
  {
    f.fileName + " :: " + f.code + " :: " + IntText(f.line.value)
  }

  /** The columns at which `entries` report on the line with key `k`. */
  function ColumnsAt(entries: seq<FingerprintCount>, k: string): set<int> {
    set e | e in entries && Placed(e.fingerprint) && LineKey(e.fingerprint) == k :: e.fingerprint.column.value
  }

  /** Another column is reported on this line, but not this one. */
  predicate Drifted(f: Fingerprint, entries: seq<FingerprintCount>) {
    Placed(f) && ColumnsAt(entries, LineKey(f)) != {} && f.column.value !in ColumnsAt(entries, LineKey(f))
  }

  predicate SpanMatch(onlyTs: seq<FingerprintCount>, onlyRust: seq<FingerprintCount>) {
    forall e :: e in onlyTs ==> !Drifted(e.fingerprint, onlyRust)
  }

  function ColumnsIn(columnsByLine: map<string, set<int>>, k: string): set<int> {
    if k in columnsByLine then columnsByLine[k] else {}
  }

  /** The columns collected from `entries`, by line. */
  function ColumnsByLine(entries: seq<FingerprintCount>): map<string, set<int>> {
    if entries == [] then map[]
    else
      var before, f := ColumnsByLine(entries[..|entries| - 1]), entries[|entries| - 1].fingerprint;
      if Placed(f) then before[LineKey(f) := ColumnsIn(before, LineKey(f)) + {f.column.value}] else before
  }

  lemma {:induction false} ColumnsByLineHold(entries: seq<FingerprintCount>, k: string)
    ensures ColumnsIn(ColumnsByLine(entries), k) == ColumnsAt(entries, k)
    ensures k in ColumnsByLine(entries) ==> ColumnsIn(ColumnsByLine(entries), k) != {}
  {
    if entries != [] {
      var init, last := entries[..|entries| - 1], entries[|entries| - 1];
      ColumnsByLineHold(init, k);
      ColumnsAtSnoc(init, last, k);
      assert entries == init + [last];
    }
  }

  lemma ColumnsAtSnoc(entries: seq<FingerprintCount>, e: FingerprintCount, k: string)
    ensures ColumnsAt(entries + [e], k)
         == ColumnsAt(entries, k) + if Placed(e.fingerprint) && LineKey(e.fingerprint) == k then {e.fingerprint.column.value} else {}
  {
  }

  /** The first loop of deriveSpanMatch. */
  method CollectColumns(onlyRust: seq<FingerprintCount>) returns (columnsByLine: map<string, set<int>>)
    ensures columnsByLine == ColumnsByLine(onlyRust)
  {
    columnsByLine := map[];
    for i := 0 to |onlyRust|
      invariant columnsByLine == ColumnsByLine(onlyRust[..i])
    {
      var entry := onlyRust[i].fingerprint;
      assert onlyRust[..i + 1][..i] == onlyRust[..i];
      if entry.line.None? || entry.column.None? {
        continue;
      }
      var columns := ColumnsIn(columnsByLine, LineKey(entry)) + {entry.column.value};
      columnsByLine := columnsByLine[LineKey(entry) := columns];
    }
    assert onlyRust[..|onlyRust|] == onlyRust;
  }

  /** The test of the second loop of deriveSpanMatch. */
  method IsDrifted(entry: Fingerprint, columnsByLine: map<string, set<int>>, ghost onlyRust: seq<FingerprintCount>)
    returns (drifted: bool)
    requires columnsByLine == ColumnsByLine(onlyRust)
    ensures drifted == Drifted(entry, onlyRust)
  {
    if entry.line.None? || entry.column.None? {
      return false;
    }
    ColumnsByLineHold(onlyRust, LineKey(entry));
    return LineKey(entry) in columnsByLine && entry.column.value !in columnsByLine[LineKey(entry)];
  }

  lemma SpanMatchNext(onlyTs: seq<FingerprintCount>, onlyRust: seq<FingerprintCount>, i: nat)
    requires i < |onlyTs| && SpanMatch(onlyTs[..i], onlyRust)
    ensures if Drifted(onlyTs[i].fingerprint, onlyRust) then !SpanMatch(onlyTs, onlyRust)
            else SpanMatch(onlyTs[..i + 1], onlyRust)
  {
    assert onlyTs[..i + 1] == onlyTs[..i] + [onlyTs[i]] && onlyTs[i] in onlyTs;
  }

  /** deriveSpanMatch. */
  method DeriveSpanMatch(onlyTs: seq<FingerprintCount>, onlyRust: seq<FingerprintCount>) returns (result: bool)
    ensures result == SpanMatch(onlyTs, onlyRust)
  {
    var columnsByLine := CollectColumns(onlyRust);
    for i := 0 to |onlyTs|
      invariant SpanMatch(onlyTs[..i], onlyRust)
    {
      SpanMatchNext(onlyTs, onlyRust, i);
      var drifted := IsDrifted(onlyTs[i].fingerprint, columnsByLine, onlyRust);
      if drifted {
        return false;
      }
    }
    assert onlyTs[..|onlyTs|] == onlyTs;
    return true;
  }

  // ----- deriveResult and buildSummary

  datatype SweepOptions = SweepOptions(strictMessages: bool, strictSpans: bool)

  datatype PresetResult = PresetResult(
    passed: bool,
    typescriptDiagnostics: nat,
    rustDiagnostics: nat,
    onlyTsc: int,
    onlyRust: int,
    fileCodeLineMatch: bool,
    codeCountMatch: bool,
    messageMatch: Option<bool>,
    spanMatch: bool
  )

  function GatePassed(c: Comparison): bool {
    var lineMatch := c.summary.byFileCodeLineMatch != Some(false);
    c.summary.byCodeMatch && (c.summary.byFileCodeMatch && lineMatch)
  }

  function DeriveResult(c: Comparison, options: SweepOptions): PresetResult {
    var fileCodeLineMatch := c.summary.byFileCodeMatch && c.summary.byFileCodeLineMatch != Some(false);
    var spanMatch := SpanMatch(c.onlyTypeScript, c.onlySurgeTs);
    PresetResult(
      GatePassed(c)
      && (!options.strictMessages || c.summary.messageMatch != Some(false))
      && (!options.strictSpans || spanMatch),
      c.typescript.total,
      c.surgeTs.total,
      Surplus(c.byCode.onlyTypeScript, TypeScriptExcess),
      Surplus(c.byCode.onlySurgeTs, SurgeTsExcess),
      fileCodeLineMatch,
      c.summary.byCodeMatch,
      c.summary.messageMatch,
      spanMatch)
  }

  /** The result of a target whose comparison could not be read. */
  function ErrorResult(): PresetResult {
    PresetResult(false, 0, 0, 0, 0, false, false, None, false)
  }

  datatype SweepSummary = SweepSummary(
    total: nat,
    passed: nat,
    failed: int,
    typescriptDiagnostics: int,
    rustDiagnostics: int,
    onlyTsc: int,
    onlyRust: int,
    fileCodeLineMismatches: nat,
    codeCountMismatches: nat,
    messageDriftOnly: nat,
    spanDriftOnly: nat,
    exitCode: int
  )

  function TypeScriptCount(r: PresetResult): int { r.typescriptDiagnostics }
  function RustCount(r: PresetResult): int { r.rustDiagnostics }
  function TscSurplus(r: PresetResult): int { r.onlyTsc }
  function RustSurplus(r: PresetResult): int { r.onlyRust }
  predicate Passed(r: PresetResult) { r.passed }
  predicate LineMismatch(r: PresetResult) { !r.fileCodeLineMatch }
  predicate CodeMismatch(r: PresetResult) { !r.codeCountMatch }
  predicate PassedWithMessageDrift(r: PresetResult) { r.passed && r.messageMatch == Some(false) }
  predicate PassedWithSpanDrift(r: PresetResult) { r.passed && !r.spanMatch }

  function HowMany(results: seq<PresetResult>, test: PresetResult -> bool): nat { |Filter(results, test)| }

  function TotalOf(results: seq<PresetResult>, field: PresetResult -> int): int { Sum(Map(results, field)) }

  function BuildSummary(results: seq<PresetResult>): SweepSummary {
    var passed := HowMany(results, Passed);
    var failed := |results| - passed;
    SweepSummary(
      |results|, passed, failed,
      TotalOf(results, TypeScriptCount), TotalOf(results, RustCount), TotalOf(results, TscSurplus), TotalOf(results, RustSurplus),
      HowMany(results, LineMismatch), HowMany(results, CodeMismatch),
      HowMany(results, PassedWithMessageDrift), HowMany(results, PassedWithSpanDrift),
      if failed > 0 then 1 else 0)
  }

  // ----- what the verdict means

  /** Theorem: the reported surpluses are the code-level multiset differences, and both sides have the same
      number of matched diagnostics. */
  lemma ResultConserves(typescript: seq<Diagnostic>, surgeTs: seq<Diagnostic>, leq: Collation, options: SweepOptions)
    ensures var r := DeriveResult(ComparisonOf(typescript, surgeTs, leq), options);
            && r.onlyTsc == Drift(typescript, surgeTs, KeyByCode)
            && r.onlyRust == Drift(surgeTs, typescript, KeyByCode)
            && r.typescriptDiagnostics - r.onlyTsc == r.rustDiagnostics - r.onlyRust
               == |Bag(typescript, KeyByCode) * Bag(surgeTs, KeyByCode)|
  {
    AccountingsAgree(typescript, surgeTs, KeyByCode, leq);
    ResidualConservation(typescript, surgeTs, KeyByCode);
  }

  /** A result of the sweep: one of a comparison, or an error. */
  ghost predicate SweepResult(r: PresetResult) {
    || r == ErrorResult()
    || exists typescript, surgeTs, leq, options :: r == DeriveResult(ComparisonOf(typescript, surgeTs, leq), options)
  }

  lemma {:induction false} SumsConserve(results: seq<PresetResult>)
    requires forall r :: r in results ==> SweepResult(r)
    ensures TotalOf(results, TypeScriptCount) - TotalOf(results, TscSurplus)
         == TotalOf(results, RustCount) - TotalOf(results, RustSurplus)
  {
    if results != [] {
      var init, last := results[..|results| - 1], results[|results| - 1];
      SumsConserve(init);
      assert results == init + [last];
      MapSnoc(init, last, TypeScriptCount);
      MapSnoc(init, last, RustCount);
      MapSnoc(init, last, TscSurplus);
      MapSnoc(init, last, RustSurplus);
      ResultBalance(last);
    }
  }

  lemma ResultBalance(r: PresetResult)
    requires SweepResult(r)
    ensures r.typescriptDiagnostics - r.onlyTsc == r.rustDiagnostics - r.onlyRust
  {
    if r != ErrorResult() {
      var typescript, surgeTs, leq, options :| r == DeriveResult(ComparisonOf(typescript, surgeTs, leq), options);
      ResultConserves(typescript, surgeTs, leq, options);
    }
  }

  /** Theorem: the balance of matched diagnostics survives the summary of any sweep, and the exit code is zero
      exactly when every target passed. */
  lemma SummaryConserves(results: seq<PresetResult>)
    requires forall r :: r in results ==> SweepResult(r)
    ensures var s := BuildSummary(results);
            && s.typescriptDiagnostics - s.onlyTsc == s.rustDiagnostics - s.onlyRust
            && s.passed + s.failed == s.total
            && (s.exitCode == 0 <==> forall r :: r in results ==> r.passed)
  {
    SumsConserve(results);
    FilterSize(results, Passed);
  }

  lemma {:induction false} FilterSize<T(!new)>(s: seq<T>, keep: T -> bool)
    ensures |Filter(s, keep)| == |s| <==> forall x :: x in s ==> keep(x)
  {
    if s != [] {
      FilterSize(s[..|s| - 1], keep);
      assert s == s[..|s| - 1] + [s[|s| - 1]];
    }
  }

  /** A result of a sweep with these options. */
  ghost predicate SweepResultWith(r: PresetResult, options: SweepOptions) {
    || r == ErrorResult()
    || exists c :: r == DeriveResult(c, options)
  }

  lemma PassedMeans(r: PresetResult, options: SweepOptions)
    requires SweepResultWith(r, options) && r.passed
    ensures r.fileCodeLineMatch && r.codeCountMatch
    ensures options.strictMessages ==> r.messageMatch != Some(false)
    ensures options.strictSpans ==> r.spanMatch
  {
  }

  lemma {:induction false} DisjointFilters<T(!new)>(s: seq<T>, p: T -> bool, q: T -> bool)
    requires forall x :: x in s ==> !(p(x) && q(x))
    ensures |Filter(s, p)| + |Filter(s, q)| <= |s|
  {
    if s != [] {
      assert s == s[..|s| - 1] + [s[|s| - 1]];
      DisjointFilters(s[..|s| - 1], p, q);
    }
  }

  /** Theorem: a target with a line or code mismatch is among the failed ones, and a strict option leaves no
      passed target with the drift it forbids. */
  lemma StrictLeavesNoDrift(results: seq<PresetResult>, options: SweepOptions)
    requires forall r :: r in results ==> SweepResultWith(r, options)
    ensures var s := BuildSummary(results);
            && s.fileCodeLineMismatches <= s.failed && s.codeCountMismatches <= s.failed
            && (options.strictMessages ==> s.messageDriftOnly == 0)
            && (options.strictSpans ==> s.spanDriftOnly == 0)
  {
    forall r | r in results && r.passed
      ensures r.fileCodeLineMatch && r.codeCountMatch
      ensures (options.strictMessages ==> r.messageMatch != Some(false)) && (options.strictSpans ==> r.spanMatch) {
      PassedMeans(r, options);
    }
    DisjointFilters(results, Passed, LineMismatch);
    DisjointFilters(results, Passed, CodeMismatch);
    if options.strictMessages {
      FilterNone(results, PassedWithMessageDrift);
    }
    if options.strictSpans {
      FilterNone(results, PassedWithSpanDrift);
    }
  }

  lemma LineMatchIsParity(typescript: seq<Diagnostic>, surgeTs: seq<Diagnostic>, leq: Collation)
    ensures var c := ComparisonOf(typescript, surgeTs, leq);
            && (c.summary.byFileCodeLineMatch != Some(false)
                <==> Bag(Located(typescript), KeyByFileCodeLine) == Bag(Located(surgeTs), KeyByFileCodeLine))
            && (c.summary.byCodeMatch <==> Bag(typescript, KeyByCode) == Bag(surgeTs, KeyByCode))
            && (c.summary.byFileCodeMatch <==> Bag(typescript, KeyByFileCode) == Bag(surgeTs, KeyByFileCode))
  {
    BucketParity(typescript, surgeTs, KeyByCode, leq);
    BucketParity(typescript, surgeTs, KeyByFileCode, leq);
    BucketParity(Located(typescript), Located(surgeTs), KeyByFileCodeLine, leq);
  }

  /** The gate is code parity, file/code parity, and file/code/line parity of the located diagnostics. */
  lemma GateIsThreeParities(typescript: seq<Diagnostic>, surgeTs: seq<Diagnostic>, leq: Collation)
    ensures GatePassed(ComparisonOf(typescript, surgeTs, leq))
       <==> && Bag(typescript, KeyByCode) == Bag(surgeTs, KeyByCode)
            && Bag(typescript, KeyByFileCode) == Bag(surgeTs, KeyByFileCode)
            && Bag(Located(typescript), KeyByFileCodeLine) == Bag(Located(surgeTs), KeyByFileCodeLine)
  {
    LineMatchIsParity(typescript, surgeTs, leq);
  }

  /** Theorem: with separable codes the gate's code-count conjunct adds nothing. */
  lemma GateIsParity(typescript: seq<Diagnostic>, surgeTs: seq<Diagnostic>, leq: Collation)
    requires SeparableCodes(Codes(typescript + surgeTs))
    ensures GatePassed(ComparisonOf(typescript, surgeTs, leq))
       <==> && Bag(typescript, KeyByFileCode) == Bag(surgeTs, KeyByFileCode)
            && Bag(Located(typescript), KeyByFileCodeLine) == Bag(Located(surgeTs), KeyByFileCodeLine)
  {
    GateIsThreeParities(typescript, surgeTs, leq);
    FileCodeDeterminesCode(typescript + surgeTs);
    ParityCoarsens(typescript, surgeTs, KeyByFileCode, KeyByCode);
  }

  /** Located diagnostics agree by file, code and line, and the others by file and code. */
  ghost predicate TwoParities(typescript: seq<Diagnostic>, surgeTs: seq<Diagnostic>) {
    && Bag(Located(typescript), KeyByFileCodeLine) == Bag(Located(surgeTs), KeyByFileCodeLine)
    && Bag(Unlocated(typescript), KeyByFileCode) == Bag(Unlocated(surgeTs), KeyByFileCode)
  }

  lemma CancelBag<K(!new)>(a: multiset<K>, b: multiset<K>, c: multiset<K>)
    ensures a + b == a + c <==> b == c
  {
    if a + b == a + c {
      assert b == (a + b) - a && c == (a + c) - a;
    }
  }

  /** Theorem: for all lists with separable codes, the gate is parity by file, code and line of the located
      diagnostics and parity by file and code of the others. */
  lemma GateIsTwoParities(typescript: seq<Diagnostic>, surgeTs: seq<Diagnostic>, leq: Collation)
    requires SeparableCodes(Codes(typescript + surgeTs))
    ensures GatePassed(ComparisonOf(typescript, surgeTs, leq)) <==> TwoParities(typescript, surgeTs)
  {
    GateIsParity(typescript, surgeTs, leq);
    LineDeterminesFileCode(Located(typescript) + Located(surgeTs));
    ParityCoarsens(Located(typescript), Located(surgeTs), KeyByFileCodeLine, KeyByFileCode);
    BagByLocation(typescript, KeyByFileCode);
    BagByLocation(surgeTs, KeyByFileCode);
    CancelBag(Bag(Located(typescript), KeyByFileCode), Bag(Unlocated(typescript), KeyByFileCode),
              Bag(Unlocated(surgeTs), KeyByFileCode));
  }

  /** The two parities decide the gate for all diagnostics over these codes. */
  ghost predicate TwoParitiesDecideGate(codes: set<string>, leq: Collation) {
    forall typescript, surgeTs :: Codes(typescript) <= codes && Codes(surgeTs) <= codes ==>
      (GatePassed(ComparisonOf(typescript, surgeTs, leq)) <==> TwoParities(typescript, surgeTs))
  }

  /** Theorem: the gate's code-count conjunct is redundant exactly for separable codes. */
  lemma TwoParitiesDecideGateIffSeparable(codes: set<string>, leq: Collation)
    ensures TwoParitiesDecideGate(codes, leq) <==> SeparableCodes(codes)
  {
    if SeparableCodes(codes) {
      forall typescript, surgeTs | Codes(typescript) <= codes && Codes(surgeTs) <= codes
        ensures GatePassed(ComparisonOf(typescript, surgeTs, leq)) <==> TwoParities(typescript, surgeTs) {
        CodesOfBoth(typescript, surgeTs, codes);
        GateIsTwoParities(typescript, surgeTs, leq);
      }
    } else {
      LineParityDecidesGateIffSeparable(codes, leq);
      if TwoParitiesDecideGate(codes, leq) {
        LineParityDecidesTooFor(codes, leq);
      }
    }
  }

  lemma LineParityDecidesTooFor(codes: set<string>, leq: Collation)
    requires TwoParitiesDecideGate(codes, leq)
    ensures LineParityDecidesGate(codes, leq)
  {
    forall typescript, surgeTs | LocatedOver(typescript, codes) && LocatedOver(surgeTs, codes)
      ensures GatePassed(ComparisonOf(typescript, surgeTs, leq))
         <==> Bag(typescript, KeyByFileCodeLine) == Bag(surgeTs, KeyByFileCodeLine) {
      AllLocated(typescript);
      AllLocated(surgeTs);
    }
  }

  lemma AllLocated(s: seq<Diagnostic>)
    requires forall d :: d in s ==> HasLineInfo(d)
    ensures Located(s) == s && Unlocated(s) == []
  {
    FilterAll(s, HasLineInfo);
    FilterNone(s, LacksLineInfo);
  }

  /** Theorem: when every diagnostic has a line and a column, the gate is file/code/line parity alone. */
  lemma LocatedGateIsLineParity(typescript: seq<Diagnostic>, surgeTs: seq<Diagnostic>, leq: Collation)
    requires SeparableCodes(Codes(typescript + surgeTs))
    requires forall d :: d in typescript + surgeTs ==> HasLineInfo(d)
    ensures GatePassed(ComparisonOf(typescript, surgeTs, leq))
       <==> Bag(typescript, KeyByFileCodeLine) == Bag(surgeTs, KeyByFileCodeLine)
  {
    forall d | d in typescript || d in surgeTs ensures HasLineInfo(d) {
      assert d in typescript + surgeTs;
    }
    AllLocated(typescript);
    AllLocated(surgeTs);
    GateIsTwoParities(typescript, surgeTs, leq);
  }

  /** Located diagnostics over these codes. */
  ghost predicate LocatedOver(s: seq<Diagnostic>, codes: set<string>) {
    Codes(s) <= codes && forall d :: d in s ==> HasLineInfo(d)
  }

  /** File/code/line parity decides the gate for all located diagnostics over these codes. */
  ghost predicate LineParityDecidesGate(codes: set<string>, leq: Collation) {
    forall typescript, surgeTs :: LocatedOver(typescript, codes) && LocatedOver(surgeTs, codes) ==>
      (GatePassed(ComparisonOf(typescript, surgeTs, leq))
       <==> Bag(typescript, KeyByFileCodeLine) == Bag(surgeTs, KeyByFileCodeLine))
  }

  /** Theorem: line parity decides the gate for located diagnostics exactly for separable codes. */
  lemma LineParityDecidesGateIffSeparable(codes: set<string>, leq: Collation)
    ensures LineParityDecidesGate(codes, leq) <==> SeparableCodes(codes)
  {
    if SeparableCodes(codes) {
      forall typescript, surgeTs | LocatedOver(typescript, codes) && LocatedOver(surgeTs, codes)
        ensures GatePassed(ComparisonOf(typescript, surgeTs, leq))
           <==> Bag(typescript, KeyByFileCodeLine) == Bag(surgeTs, KeyByFileCodeLine) {
        CodesOfBoth(typescript, surgeTs, codes);
        LocatedGateIsLineParity(typescript, surgeTs, leq);
      }
    } else {
      var c, c' :| c in codes && c' in codes && c != c' && EndsWith(" :: " + c', " :: " + c);
      CollisionFailsGate(codes, leq, c, c');
    }
  }

  lemma CollisionFailsGate(codes: set<string>, leq: Collation, c: string, c': string)
    requires c in codes && c' in codes && c != c' && EndsWith(" :: " + c', " :: " + c)
    ensures !LineParityDecidesGate(codes, leq)
  {
    var d, e := CollidingFiles(c, c');
    LocatedPair(d, codes);
    LocatedPair(e, codes);
    PairMisleads(d, e, leq);
  }

  lemma LocatedPair(d: Diagnostic, codes: set<string>)
    requires d.code in codes && HasLineInfo(d)
    ensures LocatedOver([d], codes)
  {
  }

  lemma PairMisleads(d: Diagnostic, e: Diagnostic, leq: Collation)
    requires KeyByFileCodeLine(d) == KeyByFileCodeLine(e) && d.code != e.code
    ensures Bag([d], KeyByFileCodeLine) == Bag([e], KeyByFileCodeLine)
    ensures !GatePassed(ComparisonOf([d], [e], leq))
  {
    SingletonBags(d, e, KeyByFileCodeLine);
    SingletonBags(d, e, KeyByCode);
    GateIsThreeParities([d], [e], leq);
  }

  lemma NoneLocated(s: seq<Diagnostic>)
    requires forall d :: d in s ==> !HasLineInfo(d)
    ensures Located(s) == []
  {
    FilterNone(s, HasLineInfo);
  }

  /** Theorem: the line check is blind to unlocated diagnostics, whatever their files; the gate then rests on the
      two coarser checks. */
  lemma UnlocatedLineCheckIsBlind(typescript: seq<Diagnostic>, surgeTs: seq<Diagnostic>, leq: Collation)
    requires forall d :: d in typescript || d in surgeTs ==> !HasLineInfo(d)
    ensures ComparisonOf(typescript, surgeTs, leq).summary.byFileCodeLineMatch != Some(false)
    ensures GatePassed(ComparisonOf(typescript, surgeTs, leq))
       <==> Bag(typescript, KeyByCode) == Bag(surgeTs, KeyByCode) && Bag(typescript, KeyByFileCode) == Bag(surgeTs, KeyByFileCode)
  {
    NoneLocated(typescript);
    NoneLocated(surgeTs);
    LineMatchIsParity(typescript, surgeTs, leq);
  }

  // ----- message drift and span drift

  /** File, code, line and column. */
  function Position(d: Diagnostic): (string, string, Option<int>, Option<int>) {
    (d.fileName, d.code, d.line, d.column)
  }

  /** A diagnostic only TypeScript reports has, at its very position, a diagnostic only surge-ts reports. */
  lemma PartnerAtPosition(typescript: seq<Diagnostic>, surgeTs: seq<Diagnostic>, d: Diagnostic) returns (e: Diagnostic)
    requires Bag(typescript, Position) <= Bag(surgeTs, Position)
    requires d in OnlyLeft(typescript, surgeTs)
    ensures e in OnlyLeft(surgeTs, typescript) && Position(e) == Position(d)
  {
    var a, b := OnlyLeft(typescript, surgeTs), OnlyLeft(surgeTs, typescript);
    CoarseSurplus(typescript, surgeTs, KeyByFingerprint, Position);
    BagHolds(a, Position);
    BagHolds(b, Position);
    var i :| 0 <= i < |a| && a[i] == d;
    assert Position(d) in Bag(a, Position);
    assert (Bag(a, Position) - Bag(b, Position))[Position(d)] == 0;
    var j :| 0 <= j < |b| && Position(b[j]) == Position(d);
    e := b[j];
  }

  /** Theorem: drift in message texts alone is never reported as span drift. It is enough that surge-ts reports
      at every position at least as often as TypeScript. */
  lemma MessageDriftIsNotSpanDrift(typescript: seq<Diagnostic>, surgeTs: seq<Diagnostic>, leq: Collation, options: SweepOptions)
    requires Bag(typescript, Position) <= Bag(surgeTs, Position)
    ensures DeriveResult(ComparisonOf(typescript, surgeTs, leq), options).spanMatch
  {
    var c := ComparisonOf(typescript, surgeTs, leq);
    forall g | g in c.onlyTypeScript ensures !Drifted(g.fingerprint, c.onlySurgeTs) {
      FingerprintGroupsHold(OnlyLeft(typescript, surgeTs), FingerprintOrder(leq), g);
      var d :| d in OnlyLeft(typescript, surgeTs) && KeyByFingerprint(d) == g.fingerprint;
      var e := PartnerAtPosition(typescript, surgeTs, d);
      var h := FingerprintCount(KeyByFingerprint(e), Bag(OnlyLeft(surgeTs, typescript), KeyByFingerprint)[KeyByFingerprint(e)]);
      FingerprintGroupsHold(OnlyLeft(surgeTs, typescript), FingerprintOrder(leq), h);
      assert h in c.onlySurgeTs;
      if Placed(g.fingerprint) {
        assert LineKey(h.fingerprint) == LineKey(g.fingerprint);
        assert h.fingerprint.column.value in ColumnsAt(c.onlySurgeTs, LineKey(g.fingerprint));
      }
    }
  }

  /** The line key holds exactly the file/code key and the line. */
  lemma LineKeyParts(f: Fingerprint, g: Fingerprint)
    requires Placed(f) && Placed(g)
    ensures LineKey(f) == LineKey(g) <==> f.fileName + " :: " + f.code == g.fileName + " :: " + g.code && f.line == g.line
  {
    if LineKey(f) == LineKey(g) {
      var a, b := f.fileName + " :: " + f.code, g.fileName + " :: " + g.code;
      var m, n := IntText(f.line.value), IntText(g.line.value);
      assert LineKey(f) == (a + " ::") + [' '] + m && LineKey(g) == (b + " ::") + [' '] + n;
      SplitAtLast(a + " ::", m, b + " ::", n, ' ');
      CancelSuffix(a, b, " ::");
      IntTextInjective(f.line.value, g.line.value);
    }
  }

  /** Located diagnostics of the two sides on one line at different columns; with separable codes they have one
      file and one code. */
  ghost predicate SpanPair(typescript: seq<Diagnostic>, surgeTs: seq<Diagnostic>, d: Diagnostic, e: Diagnostic) {
    && d in typescript && e in surgeTs && HasLineInfo(d) && HasLineInfo(e)
    && KeyByFileCode(d) == KeyByFileCode(e) && d.line == e.line && d.column != e.column
    && (SeparableCodes(Codes(typescript + surgeTs)) ==> d.fileName == e.fileName && d.code == e.code)
  }

  lemma SpanPairOf(typescript: seq<Diagnostic>, surgeTs: seq<Diagnostic>, leq: Collation, g: FingerprintCount, h: FingerprintCount)
    requires g in FingerprintGroups(OnlyLeft(typescript, surgeTs), FingerprintOrder(leq))
    requires h in FingerprintGroups(OnlyLeft(surgeTs, typescript), FingerprintOrder(leq))
    requires Placed(g.fingerprint) && Placed(h.fingerprint)
    requires LineKey(g.fingerprint) == LineKey(h.fingerprint) && g.fingerprint.column != h.fingerprint.column
    ensures exists d, e :: SpanPair(typescript, surgeTs, d, e)
  {
    var d := GroupMember(typescript, surgeTs, leq, g);
    var e := GroupMember(surgeTs, typescript, leq, h);
    LineKeyParts(KeyByFingerprint(d), KeyByFingerprint(e));
    if SeparableCodes(Codes(typescript + surgeTs)) {
      FileCodeKeyParts(d, e, Codes(typescript + surgeTs));
    }
    assert SpanPair(typescript, surgeTs, d, e);
  }

  /** Theorem: a span mismatch means that TypeScript reports at some position more often than surge-ts, while
      surge-ts reports on a line of TypeScript's at another column. */
  lemma SpanDriftIsReal(typescript: seq<Diagnostic>, surgeTs: seq<Diagnostic>, leq: Collation, options: SweepOptions)
    ensures !DeriveResult(ComparisonOf(typescript, surgeTs, leq), options).spanMatch ==>
              && (exists d, e :: SpanPair(typescript, surgeTs, d, e))
              && !(Bag(typescript, Position) <= Bag(surgeTs, Position))
  {
    var only := FingerprintGroups(OnlyLeft(typescript, surgeTs), FingerprintOrder(leq));
    var others := FingerprintGroups(OnlyLeft(surgeTs, typescript), FingerprintOrder(leq));
    if !SpanMatch(only, others) {
      var g, h := DriftWitness(only, others);
      SpanPairOf(typescript, surgeTs, leq, g, h);
      if Bag(typescript, Position) <= Bag(surgeTs, Position) {
        MessageDriftIsNotSpanDrift(typescript, surgeTs, leq, options);
      }
    }
  }

  lemma DriftWitness(onlyTs: seq<FingerprintCount>, onlyRust: seq<FingerprintCount>)
    returns (g: FingerprintCount, h: FingerprintCount)
    requires !SpanMatch(onlyTs, onlyRust)
    ensures g in onlyTs && h in onlyRust && Placed(g.fingerprint) && Placed(h.fingerprint)
    ensures LineKey(g.fingerprint) == LineKey(h.fingerprint) && g.fingerprint.column != h.fingerprint.column
  {
    g :| g in onlyTs && Drifted(g.fingerprint, onlyRust);
    h := SomeHolder(onlyRust, LineKey(g.fingerprint));
    assert h.fingerprint.column.value in ColumnsAt(onlyRust, LineKey(g.fingerprint));
  }

  lemma {:induction false} SomeHolder(entries: seq<FingerprintCount>, k: string) returns (h: FingerprintCount)
    requires ColumnsAt(entries, k) != {}
    ensures h in entries && Placed(h.fingerprint) && LineKey(h.fingerprint) == k
  {
    var init, last := entries[..|entries| - 1], entries[|entries| - 1];
    assert entries == init + [last];
    ColumnsAtSnoc(init, last, k);
    if ColumnsAt(init, k) != {} {
      h := SomeHolder(init, k);
    } else {
      h := last;
    }
  }

  lemma GroupMember(left: seq<Diagnostic>, right: seq<Diagnostic>, leq: Collation, g: FingerprintCount) returns (d: Diagnostic)
    requires g in FingerprintGroups(OnlyLeft(left, right), FingerprintOrder(leq))
    ensures d in left && KeyByFingerprint(d) == g.fingerprint
  {
    FingerprintGroupsHold(OnlyLeft(left, right), FingerprintOrder(leq), g);
    d :| d in OnlyLeft(left, right) && KeyByFingerprint(d) == g.fingerprint;
    ResidualSubset(left, KeyByFingerprint, Bag(right, KeyByFingerprint), d);
  }
}
