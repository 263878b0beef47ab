/** What the verdict of scripts/oracle/sweep-presets.ts on one target means, told over the two lists of diagnostics,
    and what the summary of a sweep adds up. */
module Verdict {
  import opened Sequences
  import opened KeyedLists
  import opened Diagnostics
  import opened Oracle
  import opened Messages
  import opened MessagePairs
  import opened Comparisons
  import opened Sweep

  // ----- span drift

  /** Two located diagnostics with one file/code key on one line. */
  predicate OnOneLine(d: Diagnostic, e: Diagnostic) {
    HasLineInfo(d) && HasLineInfo(e) && KeyByFileCode(d) == KeyByFileCode(e) && d.line == e.line
  }

  /** Others are reported on the line of `d`, but none at its column. */
  ghost predicate DriftsAmong(d: Diagnostic, others: seq<Diagnostic>) {
    && (exists e :: e in others && OnOneLine(d, e))
    && (forall e :: e in others && OnOneLine(d, e) ==> e.column != d.column)
  }

  /** A TypeScript diagnostic that no surge-ts diagnostic equals drifts among the surge-ts diagnostics left over. */
  ghost predicate SpanDrift(typescript: seq<Diagnostic>, surgeTs: seq<Diagnostic>) {
    exists d :: d in OnlyLeft(typescript, surgeTs) && DriftsAmong(d, OnlyLeft(surgeTs, typescript))
  }

  lemma LineKeyOfPair(d: Diagnostic, e: Diagnostic)
    requires HasLineInfo(d) && HasLineInfo(e)
    ensures LineKey(KeyByFingerprint(d)) == LineKey(KeyByFingerprint(e)) <==> OnOneLine(d, e)
  {
    LineKeyParts(KeyByFingerprint(d), KeyByFingerprint(e));
  }

  /** The columns collected for the line of `d` from the groups of a list are those of its diagnostics on that line. */
  lemma ColumnsOnLine(s: seq<Diagnostic>, leq: Collation, d: Diagnostic, column: int)
    requires HasLineInfo(d)
    ensures column in ColumnsAt(FingerprintGroups(s, FingerprintOrder(leq)), LineKey(KeyByFingerprint(d)))
       <==> exists e :: e in s && OnOneLine(d, e) && e.column == Some(column)
  {
    var groups, k := FingerprintGroups(s, FingerprintOrder(leq)), LineKey(KeyByFingerprint(d));
    if column in ColumnsAt(groups, k) {
      var g :| g in groups && Placed(g.fingerprint) && LineKey(g.fingerprint) == k && g.fingerprint.column.value == column;
      FingerprintGroupsHold(s, FingerprintOrder(leq), g);
      var e :| e in s && KeyByFingerprint(e) == g.fingerprint;
      LineKeyOfPair(d, e);
    }
    if e :| e in s && OnOneLine(d, e) && e.column == Some(column) {
      var g := FingerprintCount(KeyByFingerprint(e), Bag(s, KeyByFingerprint)[KeyByFingerprint(e)]);
      FingerprintGroupsHold(s, FingerprintOrder(leq), g);
      LineKeyOfPair(d, e);
    }
  }

  lemma ReportedOnLine(s: seq<Diagnostic>, leq: Collation, d: Diagnostic)
    requires HasLineInfo(d)
    ensures ColumnsAt(FingerprintGroups(s, FingerprintOrder(leq)), LineKey(KeyByFingerprint(d))) != {}
       <==> exists e :: e in s && OnOneLine(d, e)
  {
    var groups, k := FingerprintGroups(s, FingerprintOrder(leq)), LineKey(KeyByFingerprint(d));
    if e :| e in s && OnOneLine(d, e) {
      ColumnsOnLine(s, leq, d, e.column.value);
    }
    if ColumnsAt(groups, k) != {} {
      var h := SomeHolder(groups, k);
      assert h.fingerprint.column.value in ColumnsAt(groups, k);
      ColumnsOnLine(s, leq, d, h.fingerprint.column.value);
    }
  }

  lemma DriftedIff(d: Diagnostic, s: seq<Diagnostic>, leq: Collation)
    ensures Drifted(KeyByFingerprint(d), FingerprintGroups(s, FingerprintOrder(leq))) <==> DriftsAmong(d, s)
  {
    if HasLineInfo(d) {
      ReportedOnLine(s, leq, d);
      ColumnsOnLine(s, leq, d, d.column.value);
    }
  }

  /** Theorem: the span verdict is false exactly when there is span drift. */
  lemma SpanMatchIff(typescript: seq<Diagnostic>, surgeTs: seq<Diagnostic>, leq: Collation, options: SweepOptions)
    ensures DeriveResult(ComparisonOf(typescript, surgeTs, leq), options).spanMatch <==> !SpanDrift(typescript, surgeTs)
  {
    var left, right := OnlyLeft(typescript, surgeTs), OnlyLeft(surgeTs, typescript);
    var groups, others := FingerprintGroups(left, FingerprintOrder(leq)), FingerprintGroups(right, FingerprintOrder(leq));
    if SpanDrift(typescript, surgeTs) {
      var d :| d in left && DriftsAmong(d, right);
      var g := FingerprintCount(KeyByFingerprint(d), Bag(left, KeyByFingerprint)[KeyByFingerprint(d)]);
      FingerprintGroupsHold(left, FingerprintOrder(leq), g);
      DriftedIff(d, right, leq);
      assert g in groups && Drifted(g.fingerprint, others);
    }
    if !SpanMatch(groups, others) {
      var g :| g in groups && Drifted(g.fingerprint, others);
      FingerprintGroupsHold(left, FingerprintOrder(leq), g);
      var d :| d in left && KeyByFingerprint(d) == g.fingerprint;
      DriftedIff(d, right, leq);
    }
  }

  // ----- message parity

  /** At every location one side's texts contain the other's. */
  ghost predicate TextsContained(typescript: seq<Diagnostic>, surgeTs: seq<Diagnostic>) {
    forall k :: OneSideContains(typescript, surgeTs, k)
  }

  /** Theorem: the message verdict is open where no location is shared, and otherwise tells whether at every location
      one side's texts contain the other's. */
  lemma MessageMatchIs(typescript: seq<Diagnostic>, surgeTs: seq<Diagnostic>, leq: Collation)
    ensures ComparisonOf(typescript, surgeTs, leq).summary.messageMatch
         == if NothingShared(typescript, surgeTs) then None else Some(TextsContained(typescript, surgeTs))
  {
    ComparedLocationsHold(typescript, surgeTs, leq);
    NoMismatchIffContained(typescript, surgeTs, leq);
  }

  lemma NothingSharedIsContained(typescript: seq<Diagnostic>, surgeTs: seq<Diagnostic>, leq: Collation)
    requires NothingShared(typescript, surgeTs)
    ensures TextsContained(typescript, surgeTs)
  {
    var keys := SharedKeys(typescript, surgeTs, leq);
    ComparedLocationsHold(typescript, surgeTs, leq);
    forall k ensures OneSideContains(typescript, surgeTs, k) {
      NoMismatchFor(typescript, surgeTs, leq, k);
    }
  }

  /** A key that occurs equally often on both sides has a match bucket. */
  lemma OccurringMatches(left: seq<Diagnostic>, right: seq<Diagnostic>, leq: Collation)
    requires left != [] && Bag(left, KeyByFileCodeLine) == Bag(right, KeyByFileCodeLine)
    ensures BucketsFor(left, right, KeyByFileCodeLine, leq).matches != []
  {
    var k, l := KeyByFileCodeLine(left[0]), Bag(left, KeyByFileCodeLine);
    BucketMatches(left, right, KeyByFileCodeLine, leq);
    assert Map(left, KeyByFileCodeLine)[0] == k && k in l;
    assert Bucket(k, l[k], l[k]) in BucketsFor(left, right, KeyByFileCodeLine, leq).matches;
  }

  lemma EmptyBuckets(left: seq<Diagnostic>, right: seq<Diagnostic>, leq: Collation)
    ensures var b := BucketsFor(left, right, KeyByFileCodeLine, leq);
            b.matches == [] && b.onlyTypeScript == [] && b.onlySurgeTs == [] <==> left == [] && right == []
  {
    BucketParity(left, right, KeyByFileCodeLine, leq);
    BucketMatches(left, right, KeyByFileCodeLine, leq);
    BagSize(left, KeyByFileCodeLine);
    BagSize(right, KeyByFileCodeLine);
    if left != [] && Bag(left, KeyByFileCodeLine) == Bag(right, KeyByFileCodeLine) {
      OccurringMatches(left, right, leq);
    }
    assert left == [] && right == [] ==> BucketsFor(left, right, KeyByFileCodeLine, leq).matches == [] by {
      if left == [] && right == [] {
        NothingMatches(leq);
      }
    }
  }

  lemma NothingMatches(leq: Collation)
    ensures BucketsFor([], [], KeyByFileCodeLine, leq).matches == []
  {
    BucketMatches([], [], KeyByFileCodeLine, leq);
    var b := BucketsFor([], [], KeyByFileCodeLine, leq).matches;
    assert forall x :: x in b ==> x.typescript == Bag<Diagnostic, string>([], KeyByFileCodeLine)[x.key] && x.typescript > 0;
  }

  /** Theorem: the line verdict is open where nothing is located, and otherwise tells whether the located diagnostics
      agree by file, code and line. */
  lemma LineVerdictIs(typescript: seq<Diagnostic>, surgeTs: seq<Diagnostic>, leq: Collation)
    ensures ComparisonOf(typescript, surgeTs, leq).summary.byFileCodeLineMatch
         == if Located(typescript) == [] && Located(surgeTs) == [] then None
            else Some(Bag(Located(typescript), KeyByFileCodeLine) == Bag(Located(surgeTs), KeyByFileCodeLine))
  {
    EmptyBuckets(Located(typescript), Located(surgeTs), leq);
    BucketParity(Located(typescript), Located(surgeTs), KeyByFileCodeLine, leq);
  }

  // ----- the verdict

  /** The three parities of the gate. */
  ghost predicate ThreeParities(typescript: seq<Diagnostic>, surgeTs: seq<Diagnostic>) {
    && Bag(typescript, KeyByCode) == Bag(surgeTs, KeyByCode)
    && Bag(typescript, KeyByFileCode) == Bag(surgeTs, KeyByFileCode)
    && Bag(Located(typescript), KeyByFileCodeLine) == Bag(Located(surgeTs), KeyByFileCodeLine)
  }

  /** Theorem: a target passes exactly when the three parities hold and each strict option that is set finds no drift
      of its kind. */
  lemma PassedIff(typescript: seq<Diagnostic>, surgeTs: seq<Diagnostic>, leq: Collation, options: SweepOptions)
    ensures DeriveResult(ComparisonOf(typescript, surgeTs, leq), options).passed
       <==> && ThreeParities(typescript, surgeTs)
            && (options.strictMessages ==> TextsContained(typescript, surgeTs))
            && (options.strictSpans ==> !SpanDrift(typescript, surgeTs))
  {
    GateIsThreeParities(typescript, surgeTs, leq);
    MessageMatchIs(typescript, surgeTs, leq);
    SpanMatchIff(typescript, surgeTs, leq, options);
    if NothingShared(typescript, surgeTs) {
      NothingSharedIsContained(typescript, surgeTs, leq);
    }
  }

  /** Theorem: what the other parts of a result say about the two lists. */
  lemma ResultMeans(typescript: seq<Diagnostic>, surgeTs: seq<Diagnostic>, leq: Collation, options: SweepOptions)
    ensures var r := DeriveResult(ComparisonOf(typescript, surgeTs, leq), options);
            && r.typescriptDiagnostics == |typescript| && r.rustDiagnostics == |surgeTs|
            && (r.codeCountMatch <==> Bag(typescript, KeyByCode) == Bag(surgeTs, KeyByCode))
            && (r.fileCodeLineMatch
                <==> && Bag(typescript, KeyByFileCode) == Bag(surgeTs, KeyByFileCode)
                     && Bag(Located(typescript), KeyByFileCodeLine) == Bag(Located(surgeTs), KeyByFileCodeLine))
            && r.messageMatch == (if NothingShared(typescript, surgeTs) then None else Some(TextsContained(typescript, surgeTs)))
  {
    LineMatchIsParity(typescript, surgeTs, leq);
    MessageMatchIs(typescript, surgeTs, leq);
  }

  // ----- the summary

  function AddSummaries(x: SweepSummary, y: SweepSummary): SweepSummary {
    SweepSummary(
      x.total + y.total, x.passed + y.passed, x.failed + y.failed,
      x.typescriptDiagnostics + y.typescriptDiagnostics, x.rustDiagnostics + y.rustDiagnostics,
      x.onlyTsc + y.onlyTsc, x.onlyRust + y.onlyRust,
      x.fileCodeLineMismatches + y.fileCodeLineMismatches, x.codeCountMismatches + y.codeCountMismatches,
      x.messageDriftOnly + y.messageDriftOnly, x.spanDriftOnly + y.spanDriftOnly,
      if x.exitCode == 0 && y.exitCode == 0 then 0 else 1)
  }

  lemma {:induction false} SumAppend(a: seq<int>, b: seq<int>)
    ensures Sum(a + b) == Sum(a) + Sum(b)
  {
    if b == [] {
      assert a + b == a;
    } else {
      SumAppend(a, b[..|b| - 1]);
      assert (a + b)[..|a + b| - 1] == a + b[..|b| - 1];
    }
  }

  lemma PartsAdd(a: seq<PresetResult>, b: seq<PresetResult>, test: PresetResult -> bool, field: PresetResult -> int)
    ensures HowMany(a + b, test) == HowMany(a, test) + HowMany(b, test)
    ensures TotalOf(a + b, field) == TotalOf(a, field) + TotalOf(b, field)
  {
    FilterAppend(a, b, test);
    MapAppend(a, b, field);
    SumAppend(Map(a, field), Map(b, field));
  }

  /** Theorem: the summary of two sweeps together is the sum of their summaries, and fails if one of them does. */
  lemma SummarySplits(a: seq<PresetResult>, b: seq<PresetResult>)
    ensures BuildSummary(a + b) == AddSummaries(BuildSummary(a), BuildSummary(b))
  {
    PartsAdd(a, b, Passed, TypeScriptCount);
    PartsAdd(a, b, LineMismatch, RustCount);
    PartsAdd(a, b, CodeMismatch, TscSurplus);
    PartsAdd(a, b, PassedWithMessageDrift, RustSurplus);
    PartsAdd(a, b, PassedWithSpanDrift, RustSurplus);
  }

  function Count(b: bool): nat { if b then 1 else 0 }

  lemma OnePart(r: PresetResult, test: PresetResult -> bool, field: PresetResult -> int)
    ensures HowMany([r], test) == Count(test(r)) && TotalOf([r], field) == field(r)
  {
    assert [r][..0] == [];
    assert Map([r], field) == [field(r)] && [field(r)][..0] == [];
    assert Sum([field(r)]) == Sum([]) + field(r);
  }

  /** Theorem: the summary of one target repeats its result. */
  lemma SummaryOfOne(r: PresetResult)
    ensures BuildSummary([r]) == SweepSummary(
              1, Count(r.passed), Count(!r.passed), r.typescriptDiagnostics, r.rustDiagnostics, r.onlyTsc, r.onlyRust,
              Count(!r.fileCodeLineMatch), Count(!r.codeCountMatch),
              Count(r.passed && r.messageMatch == Some(false)), Count(r.passed && !r.spanMatch), Count(!r.passed))
  {
    OnePart(r, Passed, TypeScriptCount);
    OnePart(r, LineMismatch, RustCount);
    OnePart(r, CodeMismatch, TscSurplus);
    OnePart(r, PassedWithMessageDrift, RustSurplus);
    OnePart(r, PassedWithSpanDrift, RustSurplus);
  }

  /** Theorem: a target whose comparison could not be read fails the sweep, and counts as a line and as a code
      mismatch but as no drift. */
  lemma ErrorCounts()
    ensures BuildSummary([ErrorResult()]) == SweepSummary(1, 0, 1, 0, 0, 0, 0, 1, 1, 0, 0, 1)
  {
    SummaryOfOne(ErrorResult());
  }
}
