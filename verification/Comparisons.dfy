/** compareDiagnostics of scripts/oracle/compare-tsc.ts: all comparisons of one pair of lists together. */
module Comparisons {
  import opened Sequences
  import opened KeyedLists
  import opened Diagnostics
  import opened Oracle
  import opened Messages

  datatype Summary = Summary(
    byCodeMatch: bool,
    byFileCodeMatch: bool,
    byFileCodeLineMatch: Option<bool>,
    messageMatch: Option<bool>
  )

  datatype DiagnosticTotals = DiagnosticTotals(
    total: nat,
    byCode: seq<CountEntry<string>>,
    byFileCode: seq<CountEntry<string>>,
    byFileCodeLine: seq<CountEntry<string>>
  )

  datatype Comparison = Comparison(
    typescript: DiagnosticTotals,
    surgeTs: DiagnosticTotals,
    byCode: Buckets<string>,
    byFileCode: Buckets<string>,
    byFileCodeLine: Buckets<string>,
    messageParity: MessageParity,
    summary: Summary,
    onlyTypeScript: seq<FingerprintCount>,
    onlySurgeTs: seq<FingerprintCount>
  )

  predicate NoSurplus(b: Buckets<string>) { b.onlyTypeScript == [] && b.onlySurgeTs == [] }

  function GroupCount(g: FingerprintCount): int { g.count }
  function GroupFile(g: FingerprintCount): string { g.fingerprint.fileName }
  function GroupLine(g: FingerprintCount): int { g.fingerprint.line.GetOr(-1) }
  function GroupColumn(g: FingerprintCount): int { g.fingerprint.column.GetOr(-1) }
  function GroupCode(g: FingerprintCount): string { g.fingerprint.code }
  function GroupMessage(g: FingerprintCount): string { g.fingerprint.message.GetOr("") }

  function AtLeast(a: int, b: int): bool { a >= b }

  /** By file name, line, column, code and message; an absent position sorts as -1. */
  function FingerprintPlace(leq: Collation): (FingerprintCount, FingerprintCount) -> bool {
    Lex(By(GroupFile, leq), Lex(By(GroupLine, AtMost), Lex(By(GroupColumn, AtMost), Lex(By(GroupCode, leq), By(GroupMessage, leq)))))
  }

  /** Most frequent first, then by place. */
  function FingerprintOrder(leq: Collation): (FingerprintCount, FingerprintCount) -> bool {
    Lex(By(GroupCount, AtLeast), FingerprintPlace(leq))
  }

  lemma FingerprintOrderTotal(leq: Collation)
    requires TotalPreorder(leq)
    ensures TotalPreorder(FingerprintOrder(leq))
  {
    ByTotal(GroupMessage, leq);
    ByTotal(GroupCode, leq);
    ByTotal(GroupColumn, AtMost);
    ByTotal(GroupLine, AtMost);
    ByTotal(GroupFile, leq);
    ByTotal(GroupCount, AtLeast);
    var code := Lex(By(GroupCode, leq), By(GroupMessage, leq));
    LexTotal(By(GroupCode, leq), By(GroupMessage, leq));
    LexTotal(By(GroupColumn, AtMost), code);
    LexTotal(By(GroupLine, AtMost), Lex(By(GroupColumn, AtMost), code));
    LexTotal(By(GroupFile, leq), Lex(By(GroupLine, AtMost), Lex(By(GroupColumn, AtMost), code)));
    LexTotal(By(GroupCount, AtLeast), FingerprintPlace(leq));
  }

  /** By file name, line, column, code and message, told without the comparator. */
  ghost predicate InPlaceOrder(f: Fingerprint, g: Fingerprint, leq: Collation) {
    && leq(f.fileName, g.fileName)
    && (leq(g.fileName, f.fileName) ==>
          && f.line.GetOr(-1) <= g.line.GetOr(-1)
          && (f.line.GetOr(-1) == g.line.GetOr(-1) ==>
                && f.column.GetOr(-1) <= g.column.GetOr(-1)
                && (f.column.GetOr(-1) == g.column.GetOr(-1) ==>
                      leq(f.code, g.code) && (leq(g.code, f.code) ==> leq(f.message.GetOr(""), g.message.GetOr(""))))))
  }

  ghost predicate InGroupOrder(a: FingerprintCount, b: FingerprintCount, leq: Collation) {
    a.count >= b.count && (a.count == b.count ==> InPlaceOrder(a.fingerprint, b.fingerprint, leq))
  }

  lemma FingerprintOrderIs(a: FingerprintCount, b: FingerprintCount, leq: Collation)
    requires TotalPreorder(leq)
    ensures FingerprintOrder(leq)(a, b) <==> InGroupOrder(a, b, leq)
  {
    var file, line, column := By(GroupFile, leq), By(GroupLine, AtMost), By(GroupColumn, AtMost);
    var code, message, count := By(GroupCode, leq), By(GroupMessage, leq), By(GroupCount, AtLeast);
    ByIs(GroupCount, AtLeast, a, b);
    ByIs(GroupFile, leq, a, b);
    ByIs(GroupLine, AtMost, a, b);
    ByIs(GroupColumn, AtMost, a, b);
    ByIs(GroupCode, leq, a, b);
    ByIs(GroupMessage, leq, a, b);
    assert leq(a.fingerprint.fileName, b.fingerprint.fileName) || leq(b.fingerprint.fileName, a.fingerprint.fileName);
    assert leq(a.fingerprint.code, b.fingerprint.code) || leq(b.fingerprint.code, a.fingerprint.code);
    LexIs(code, message, a, b);
    LexIs(column, Lex(code, message), a, b);
    LexIs(line, Lex(column, Lex(code, message)), a, b);
    LexIs(file, Lex(line, Lex(column, Lex(code, message))), a, b);
    LexIs(count, FingerprintPlace(leq), a, b);
  }

  /** Theorem: fingerprint groups stand by falling count, then by file name, line, column, code and message. */
  lemma GroupsSorted(s: seq<Diagnostic>, leq: Collation)
    requires TotalPreorder(leq)
    ensures var groups := FingerprintGroups(s, FingerprintOrder(leq));
            forall i, j :: 0 <= i < j < |groups| ==> InGroupOrder(groups[i], groups[j], leq)
  {
    var groups := FingerprintGroups(s, FingerprintOrder(leq));
    FingerprintOrderTotal(leq);
    var bag := Bag(s, KeyByFingerprint);
    SortSorted(Map(Distinct(Map(s, KeyByFingerprint)), (f: Fingerprint) => FingerprintCount(f, bag[f])), FingerprintOrder(leq));
    forall i, j | 0 <= i < j < |groups| ensures InGroupOrder(groups[i], groups[j], leq) {
      FingerprintOrderIs(groups[i], groups[j], leq);
    }
  }

  function Located(s: seq<Diagnostic>): seq<Diagnostic> { Filter(s, HasLineInfo) }

  predicate LacksLineInfo(d: Diagnostic) { !HasLineInfo(d) }

  function Unlocated(s: seq<Diagnostic>): seq<Diagnostic> { Filter(s, LacksLineInfo) }

  function OnlyLeft(left: seq<Diagnostic>, right: seq<Diagnostic>): seq<Diagnostic> {
    Residual(left, KeyByFingerprint, Bag(right, KeyByFingerprint))
  }

  function SummaryOf(byCode: Buckets<string>, byFileCode: Buckets<string>, byFileCodeLine: Buckets<string>,
                     parity: MessageParity): Summary {
    Summary(
      NoSurplus(byCode),
      NoSurplus(byFileCode),
      if byFileCodeLine.matches != [] || byFileCodeLine.onlyTypeScript != [] || byFileCodeLine.onlySurgeTs != []
      then Some(NoSurplus(byFileCodeLine)) else None,
      if parity.comparedLocations == 0 then None else Some(parity.mismatches == []))
  }

  function TotalsOf(s: seq<Diagnostic>, leq: Collation): DiagnosticTotals {
    DiagnosticTotals(|s|, EntriesOf(s, KeyByCode, leq), EntriesOf(s, KeyByFileCode, leq),
                     EntriesOf(Located(s), KeyByFileCodeLine, leq))
  }

  /** summarizeDiagnostics. */
  method SummarizeDiagnostics(s: seq<Diagnostic>, leq: Collation) returns (totals: DiagnosticTotals)
    ensures totals == TotalsOf(s, leq)
  {
    var byCode := CountEntries(s, KeyByCode, leq);
    var byFileCode := CountEntries(s, KeyByFileCode, leq);
    var byFileCodeLine := CountEntries(Filter(s, HasLineInfo), KeyByFileCodeLine, leq);
    totals := DiagnosticTotals(|s|, byCode, byFileCode, byFileCodeLine);
  }

  function ComparisonOf(typescript: seq<Diagnostic>, surgeTs: seq<Diagnostic>, leq: Collation): Comparison {
    var byCode := BucketsFor(typescript, surgeTs, KeyByCode, leq);
    var byFileCode := BucketsFor(typescript, surgeTs, KeyByFileCode, leq);
    var byFileCodeLine := BucketsFor(Located(typescript), Located(surgeTs), KeyByFileCodeLine, leq);
    var parity := ParityOf(typescript, surgeTs, leq);
    Comparison(TotalsOf(typescript, leq), TotalsOf(surgeTs, leq), byCode, byFileCode, byFileCodeLine, parity,
               SummaryOf(byCode, byFileCode, byFileCodeLine, parity),
               FingerprintGroups(OnlyLeft(typescript, surgeTs), FingerprintOrder(leq)),
               FingerprintGroups(OnlyLeft(surgeTs, typescript), FingerprintOrder(leq)))
  }

  /** compareDiagnostics. */
  method CompareDiagnostics(typescript: seq<Diagnostic>, surgeTs: seq<Diagnostic>, leq: Collation)
    returns (comparison: Comparison)
    ensures comparison == ComparisonOf(typescript, surgeTs, leq)
  {
    var byCode := CompareBuckets(typescript, surgeTs, KeyByCode, leq);
    var byFileCode := CompareBuckets(typescript, surgeTs, KeyByFileCode, leq);
    var byFileCodeLine := CompareBuckets(Located(typescript), Located(surgeTs), KeyByFileCodeLine, leq);
    var onlyTypeScript, onlySurgeTs := SubtractDiagnosticsByKey(typescript, surgeTs, KeyByFingerprint);
    var parity := CompareMessages(typescript, surgeTs, leq);
    var typeScriptGroups := GroupDiagnosticsByFingerprint(onlyTypeScript, FingerprintOrder(leq));
    var surgeTsGroups := GroupDiagnosticsByFingerprint(onlySurgeTs, FingerprintOrder(leq));
    var typeScriptTotals := SummarizeDiagnostics(typescript, leq);
    var surgeTsTotals := SummarizeDiagnostics(surgeTs, leq);
    comparison := Comparison(typeScriptTotals, surgeTsTotals, byCode, byFileCode, byFileCodeLine, parity,
                             SummaryOf(byCode, byFileCode, byFileCodeLine, parity), typeScriptGroups, surgeTsGroups);
  }

  // ----- keys from coarse to fine

  function Codes(s: seq<Diagnostic>): set<string> { set d | d in s :: d.code }

  lemma FileCodeDeterminesCode(s: seq<Diagnostic>)
    requires SeparableCodes(Codes(s))
    ensures Determines(s, KeyByFileCode, KeyByCode)
  {
    forall i, j | 0 <= i < |s| && 0 <= j < |s| && KeyByFileCode(s[i]) == KeyByFileCode(s[j])
      ensures KeyByCode(s[i]) == KeyByCode(s[j]) {
      FileCodeKeyParts(s[i], s[j], Codes(s));
    }
  }

  lemma LineDeterminesFileCode(s: seq<Diagnostic>)
    ensures Determines(s, KeyByFileCodeLine, KeyByFileCode)
  {
    forall i, j | 0 <= i < |s| && 0 <= j < |s| && KeyByFileCodeLine(s[i]) == KeyByFileCodeLine(s[j])
      ensures KeyByFileCode(s[i]) == KeyByFileCode(s[j]) {
      FileCodeLineKeyParts(s[i], s[j]);
    }
  }

  lemma FingerprintDeterminesLine(s: seq<Diagnostic>)
    ensures Determines(s, KeyByFingerprint, KeyByFileCodeLine)
  {
    forall i, j | 0 <= i < |s| && 0 <= j < |s| && KeyByFingerprint(s[i]) == KeyByFingerprint(s[j])
      ensures KeyByFileCodeLine(s[i]) == KeyByFileCodeLine(s[j]) {
      FileCodeLineKeyParts(s[i], s[j]);
    }
  }

  lemma FingerprintDeterminesFileCode(s: seq<Diagnostic>)
    ensures Determines(s, KeyByFingerprint, KeyByFileCode)
  {
    forall i, j | 0 <= i < |s| && 0 <= j < |s| && KeyByFingerprint(s[i]) == KeyByFingerprint(s[j])
      ensures KeyByFileCode(s[i]) == KeyByFileCode(s[j]) {
      assert s[i].fileName == s[j].fileName && s[i].code == s[j].code;
    }
  }

  /** What is left of the left list under `key`. */
  function Drift<K(==)>(left: seq<Diagnostic>, right: seq<Diagnostic>, key: Diagnostic -> K): nat {
    |Bag(left, key) - Bag(right, key)|
  }

  /** Drift by file, code and line, which is looked for among located diagnostics only. */
  function LineDrift(left: seq<Diagnostic>, right: seq<Diagnostic>): nat {
    Drift(Located(left), Located(right), KeyByFileCodeLine)
  }

  /** The file/code drift of the diagnostics that the line comparison leaves out. */
  function UnlocatedDrift(left: seq<Diagnostic>, right: seq<Diagnostic>): nat {
    Drift(Unlocated(left), Unlocated(right), KeyByFileCode)
  }

  function OnlyTypeScript(b: Buckets<string>): int { Surplus(b.onlyTypeScript, TypeScriptExcess) }

  function OnlySurgeTs(b: Buckets<string>): int { Surplus(b.onlySurgeTs, SurgeTsExcess) }

  /** The surpluses of a comparison are the drifts of its lists, each under its own key and over the lists it is
      looked for in. */
  lemma DriftIsReported(left: seq<Diagnostic>, right: seq<Diagnostic>, leq: Collation)
    ensures var c := ComparisonOf(left, right, leq);
            && OnlyTypeScript(c.byCode) == Drift(left, right, KeyByCode)
            && OnlySurgeTs(c.byCode) == Drift(right, left, KeyByCode)
            && OnlyTypeScript(c.byFileCode) == Drift(left, right, KeyByFileCode)
            && OnlySurgeTs(c.byFileCode) == Drift(right, left, KeyByFileCode)
            && OnlyTypeScript(c.byFileCodeLine) == LineDrift(left, right)
            && OnlySurgeTs(c.byFileCodeLine) == LineDrift(right, left)
    ensures |OnlyLeft(left, right)| == Drift(left, right, KeyByFingerprint)
    ensures |OnlyLeft(right, left)| == Drift(right, left, KeyByFingerprint)
  {
    AccountingsAgree(left, right, KeyByCode, leq);
    AccountingsAgree(left, right, KeyByFileCode, leq);
    AccountingsAgree(Located(left), Located(right), KeyByFileCodeLine, leq);
    ResidualSize(left, right);
    ResidualSize(right, left);
  }

  lemma ResidualSize(left: seq<Diagnostic>, right: seq<Diagnostic>)
    ensures |OnlyLeft(left, right)| == Drift(left, right, KeyByFingerprint)
  {
    ResidualBag(left, KeyByFingerprint, Bag(right, KeyByFingerprint));
    BagSize(OnlyLeft(left, right), KeyByFingerprint);
  }

  lemma BagByLocation<K(!new)>(s: seq<Diagnostic>, key: Diagnostic -> K)
    ensures Bag(s, key) == Bag(Located(s), key) + Bag(Unlocated(s), key)
  {
    BagOfParts(s, HasLineInfo, LacksLineInfo, key);
  }

  /** File/code drift shows as line drift, or among the unlocated diagnostics. */
  lemma FileCodeDriftShows(left: seq<Diagnostic>, right: seq<Diagnostic>)
    ensures Drift(left, right, KeyByFileCode) <= LineDrift(left, right) + UnlocatedDrift(left, right)
  {
    BagByLocation(left, KeyByFileCode);
    BagByLocation(right, KeyByFileCode);
    SurplusOfSum(Bag(Located(left), KeyByFileCode), Bag(Unlocated(left), KeyByFileCode),
                 Bag(Located(right), KeyByFileCode), Bag(Unlocated(right), KeyByFileCode));
    LineDeterminesFileCode(Located(left) + Located(right));
    CoarseSurplus(Located(left), Located(right), KeyByFileCodeLine, KeyByFileCode);
  }

  lemma FingerprintsByLocation(s: seq<Diagnostic>, f: Fingerprint)
    ensures f in Bag(Located(s), KeyByFingerprint) ==> f.line.Some? && f.column.Some?
    ensures f in Bag(Unlocated(s), KeyByFingerprint) ==> !(f.line.Some? && f.column.Some?)
  {
    BagHolds(Located(s), KeyByFingerprint);
    BagHolds(Unlocated(s), KeyByFingerprint);
    assert forall i :: 0 <= i < |Located(s)| ==> Located(s)[i] in Located(s);
    assert forall i :: 0 <= i < |Unlocated(s)| ==> Unlocated(s)[i] in Unlocated(s);
  }

  lemma FingerprintDriftByLocation(left: seq<Diagnostic>, right: seq<Diagnostic>)
    ensures Drift(left, right, KeyByFingerprint)
         == Drift(Located(left), Located(right), KeyByFingerprint) + Drift(Unlocated(left), Unlocated(right), KeyByFingerprint)
  {
    var a, b := Bag(Located(left), KeyByFingerprint), Bag(Unlocated(left), KeyByFingerprint);
    var c, d := Bag(Located(right), KeyByFingerprint), Bag(Unlocated(right), KeyByFingerprint);
    BagByLocation(left, KeyByFingerprint);
    BagByLocation(right, KeyByFingerprint);
    forall f ensures f !in a + c || f !in b + d {
      FingerprintsByLocation(left, f);
      FingerprintsByLocation(right, f);
    }
    assert a + c !! b + d;
    SurplusOfSum(a, b, c, d);
  }

  /** Line drift and unlocated drift show as drift of whole diagnostics. */
  lemma LineDriftShows(left: seq<Diagnostic>, right: seq<Diagnostic>)
    ensures LineDrift(left, right) + UnlocatedDrift(left, right) <= Drift(left, right, KeyByFingerprint)
  {
    FingerprintDriftByLocation(left, right);
    FingerprintDeterminesLine(Located(left) + Located(right));
    CoarseSurplus(Located(left), Located(right), KeyByFingerprint, KeyByFileCodeLine);
    FingerprintDeterminesFileCode(Unlocated(left) + Unlocated(right));
    CoarseSurplus(Unlocated(left), Unlocated(right), KeyByFingerprint, KeyByFileCode);
  }

  lemma CodeDriftShows(left: seq<Diagnostic>, right: seq<Diagnostic>)
    requires SeparableCodes(Codes(left + right))
    ensures Drift(left, right, KeyByCode) <= Drift(left, right, KeyByFileCode)
  {
    FileCodeDeterminesCode(left + right);
    CoarseSurplus(left, right, KeyByFileCode, KeyByCode);
  }

  /** Theorem: a finer comparison never hides drift that a coarser one shows, once the file/code drift of unlocated
      diagnostics is added to the line comparison, which leaves them out. Only the step from file/code to code needs
      the codes to be separable. */
  lemma FinerKeysNeverHideDrift(typescript: seq<Diagnostic>, surgeTs: seq<Diagnostic>, leq: Collation)
    ensures var c := ComparisonOf(typescript, surgeTs, leq);
            && (SeparableCodes(Codes(typescript + surgeTs)) ==>
                  OnlyTypeScript(c.byCode) <= OnlyTypeScript(c.byFileCode) && OnlySurgeTs(c.byCode) <= OnlySurgeTs(c.byFileCode))
            && OnlyTypeScript(c.byFileCode) <= OnlyTypeScript(c.byFileCodeLine) + UnlocatedDrift(typescript, surgeTs)
            && OnlySurgeTs(c.byFileCode) <= OnlySurgeTs(c.byFileCodeLine) + UnlocatedDrift(surgeTs, typescript)
            && OnlyTypeScript(c.byFileCodeLine) + UnlocatedDrift(typescript, surgeTs) <= |OnlyLeft(typescript, surgeTs)|
            && OnlySurgeTs(c.byFileCodeLine) + UnlocatedDrift(surgeTs, typescript) <= |OnlyLeft(surgeTs, typescript)|
  {
    DriftIsReported(typescript, surgeTs, leq);
    DriftChain(typescript, surgeTs);
    DriftChain(surgeTs, typescript);
    assert Codes(surgeTs + typescript) == Codes(typescript + surgeTs);
  }

  lemma DriftChain(left: seq<Diagnostic>, right: seq<Diagnostic>)
    ensures SeparableCodes(Codes(left + right)) ==> Drift(left, right, KeyByCode) <= Drift(left, right, KeyByFileCode)
    ensures Drift(left, right, KeyByFileCode) <= LineDrift(left, right) + UnlocatedDrift(left, right)
    ensures LineDrift(left, right) + UnlocatedDrift(left, right) <= Drift(left, right, KeyByFingerprint)
  {
    if SeparableCodes(Codes(left + right)) {
      CodeDriftShows(left, right);
    }
    FileCodeDriftShows(left, right);
    LineDriftShows(left, right);
  }

  ghost predicate DrawnFrom(s: seq<Diagnostic>, ds: iset<Diagnostic>) { forall d :: d in s ==> d in ds }

  /** The line comparison alone shows the file/code drift of these lists. */
  ghost predicate LineShowsDrift(typescript: seq<Diagnostic>, surgeTs: seq<Diagnostic>, leq: Collation) {
    var c := ComparisonOf(typescript, surgeTs, leq);
    OnlyTypeScript(c.byFileCode) <= OnlyTypeScript(c.byFileCodeLine)
  }

  ghost predicate LineDriftSuffices(ds: iset<Diagnostic>, leq: Collation) {
    forall typescript, surgeTs :: DrawnFrom(typescript, ds) && DrawnFrom(surgeTs, ds) ==> LineShowsDrift(typescript, surgeTs, leq)
  }

  /** Theorem: without that addition a finer comparison hides drift exactly where diagnostics are not located. */
  lemma LineDriftSufficesIffLocated(ds: iset<Diagnostic>, leq: Collation)
    ensures LineDriftSuffices(ds, leq) <==> forall d :: d in ds ==> HasLineInfo(d)
  {
    if forall d :: d in ds ==> HasLineInfo(d) {
      forall typescript, surgeTs | DrawnFrom(typescript, ds) && DrawnFrom(surgeTs, ds) ensures LineShowsDrift(typescript, surgeTs, leq) {
        LocatedDriftShows(typescript, surgeTs, leq);
      }
    }
    if LineDriftSuffices(ds, leq) {
      forall d | d in ds ensures HasLineInfo(d) {
        assert DrawnFrom([d], ds) && DrawnFrom([], ds);
        UnlocatedDriftHides(d, leq);
      }
    }
  }

  lemma LocatedDriftShows(typescript: seq<Diagnostic>, surgeTs: seq<Diagnostic>, leq: Collation)
    requires forall d :: d in typescript ==> HasLineInfo(d)
    ensures LineShowsDrift(typescript, surgeTs, leq)
  {
    FilterNone(typescript, LacksLineInfo);
    FileCodeDriftShows(typescript, surgeTs);
    DriftIsReported(typescript, surgeTs, leq);
    assert Bag(Unlocated(typescript), KeyByFileCode) == multiset{};
  }

  lemma UnlocatedDriftHides(d: Diagnostic, leq: Collation)
    ensures LineShowsDrift([d], [], leq) ==> HasLineInfo(d)
  {
    if !HasLineInfo(d) {
      UnlocatedAlone(d);
      DriftIsReported([d], [], leq);
    }
  }

  lemma UnlocatedAlone(d: Diagnostic)
    requires !HasLineInfo(d)
    ensures Drift([d], [], KeyByFileCode) == 1 && LineDrift([d], []) == 0
  {
    FilterNone([d], HasLineInfo);
    BagSize([d], KeyByFileCode);
    assert Bag<Diagnostic, string>([], KeyByFileCode) == multiset{};
  }

  /** File/code parity entails code parity for all lists over these codes. */
  ghost predicate FileCodeParityDecides(codes: set<string>) {
    forall left, right :: Codes(left) <= codes && Codes(right) <= codes && Bag(left, KeyByFileCode) == Bag(right, KeyByFileCode)
      ==> Bag(left, KeyByCode) == Bag(right, KeyByCode)
  }

  /** Theorem: file/code parity entails code parity exactly for separable codes. */
  lemma FileCodeParityDecidesIffSeparable(codes: set<string>)
    ensures FileCodeParityDecides(codes) <==> SeparableCodes(codes)
  {
    if SeparableCodes(codes) {
      forall left, right | Codes(left) <= codes && Codes(right) <= codes && Bag(left, KeyByFileCode) == Bag(right, KeyByFileCode)
        ensures Bag(left, KeyByCode) == Bag(right, KeyByCode) {
        CodesOfBoth(left, right, codes);
        FileCodeDeterminesCode(left + right);
        Projection(left, right, KeyByFileCode, KeyByCode);
      }
    }
    if FileCodeParityDecides(codes) {
      forall c, c' | c in codes && c' in codes && c != c' ensures !EndsWith(" :: " + c', " :: " + c) {
        if EndsWith(" :: " + c', " :: " + c) {
          CollisionMisleads(codes, c, c');
        }
      }
    }
  }

  lemma CollisionMisleads(codes: set<string>, c: string, c': string)
    requires c in codes && c' in codes && c != c' && EndsWith(" :: " + c', " :: " + c)
    ensures !FileCodeParityDecides(codes)
  {
    var d, e := CollidingFiles(c, c');
    assert Codes([d]) <= codes && Codes([e]) <= codes;
    SingletonBags(d, e, KeyByFileCode);
    SingletonBags(d, e, KeyByCode);
  }

  lemma CodesOfBoth(left: seq<Diagnostic>, right: seq<Diagnostic>, codes: set<string>)
    requires Codes(left) <= codes && Codes(right) <= codes && SeparableCodes(codes)
    ensures SeparableCodes(Codes(left + right))
  {
    forall d | d in left + right ensures d.code in codes {
      if d in left {
        assert d.code in Codes(left);
      } else {
        assert d.code in Codes(right);
      }
    }
  }
}
