/** compareMessages of scripts/oracle/compare-tsc.ts: message parity at equal locations. */
module Messages {
  import opened Sequences
  import opened KeyedLists
  import opened Tallies
  import opened Diagnostics

  type Collation = (string, string) -> bool

  function MessageText(d: Diagnostic): string { d.message.GetOr("") }

  datatype MessageMismatch = MessageMismatch(
    fileName: string,
    code: string,
    line: Option<int>,
    column: Option<int>,
    typescript: string,
    surgeTs: string
  )

  datatype MessageParity = MessageParity(comparedLocations: nat, matches: nat, mismatches: seq<MessageMismatch>)

  // ----- what is reported at one location

  /** The texts of `left` that find no equal text in `right`. */
  function UnmatchedLeft(left: seq<Diagnostic>, right: seq<Diagnostic>, leq: Collation): seq<string> {
    Sort(Map(Residual(left, MessageText, Bag(right, MessageText)), MessageText), leq)
  }

  /** The texts of `right` that `left` does not use up. */
  function UnmatchedRight(left: seq<Diagnostic>, right: seq<Diagnostic>, leq: Collation): seq<string> {
    Sort(Repeat(Distinct(Map(right, MessageText)), Bag(right, MessageText) - Bag(left, MessageText)), leq)
  }

  function Pairs(representative: Diagnostic, left: seq<string>, right: seq<string>): seq<MessageMismatch> {
    seq(Min(|left|, |right|), i requires 0 <= i < |left| && i < |right| =>
      MessageMismatch(representative.fileName, representative.code, representative.line, representative.column,
                      left[i], right[i]))
  }

  function MatchesAt(left: seq<Diagnostic>, right: seq<Diagnostic>): nat {
    |Bag(left, MessageText) * Bag(right, MessageText)|
  }

  function MismatchesAt(left: seq<Diagnostic>, right: seq<Diagnostic>, leq: Collation): seq<MessageMismatch> {
    if left == [] then []
    else Pairs(left[0], UnmatchedLeft(left, right, leq), UnmatchedRight(left, right, leq))
  }

  // ----- over all shared locations

  function SharedWith(surgeTs: seq<Diagnostic>): string -> bool {
    var other := Map(surgeTs, KeyByFullLocation);
    k => k in other
  }

  function SharedKeys(typescript: seq<Diagnostic>, surgeTs: seq<Diagnostic>, leq: Collation): seq<string> {
    Sort(Filter(Distinct(Map(typescript, KeyByFullLocation)), SharedWith(surgeTs)), leq)
  }

  datatype Report = Report(matches: nat, mismatches: seq<MessageMismatch>)

  function AddLocation(report: Report, left: seq<Diagnostic>, right: seq<Diagnostic>, leq: Collation): Report {
    Report(report.matches + MatchesAt(left, right), report.mismatches + MismatchesAt(left, right, leq))
  }

  function ReportOver(typescript: seq<Diagnostic>, surgeTs: seq<Diagnostic>, keys: seq<string>, leq: Collation): Report {
    if keys == [] then Report(0, [])
    else
      var k := keys[|keys| - 1];
      AddLocation(ReportOver(typescript, surgeTs, keys[..|keys| - 1], leq),
                  At(typescript, KeyByFullLocation, k), At(surgeTs, KeyByFullLocation, k), leq)
  }

  function MismatchFile(m: MessageMismatch): string { m.fileName }
  function MismatchLine(m: MessageMismatch): int { m.line.GetOr(-1) }
  function MismatchColumn(m: MessageMismatch): int { m.column.GetOr(-1) }
  function MismatchCode(m: MessageMismatch): string { m.code }

  function AtMost(a: int, b: int): bool { a <= b }

  /** By file name, line, column and code; an absent position sorts as -1. */
  function MismatchOrder(leq: Collation): (MessageMismatch, MessageMismatch) -> bool {
    Lex(By(MismatchFile, leq), Lex(By(MismatchLine, AtMost), Lex(By(MismatchColumn, AtMost), By(MismatchCode, leq))))
  }

  lemma MismatchOrderTotal(leq: Collation)
    requires TotalPreorder(leq)
    ensures TotalPreorder(MismatchOrder(leq))
  {
    ByTotal(MismatchFile, leq);
    ByTotal(MismatchLine, AtMost);
    ByTotal(MismatchColumn, AtMost);
    ByTotal(MismatchCode, leq);
    LexTotal(By(MismatchColumn, AtMost), By(MismatchCode, leq));
    LexTotal(By(MismatchLine, AtMost), Lex(By(MismatchColumn, AtMost), By(MismatchCode, leq)));
    LexTotal(By(MismatchFile, leq), Lex(By(MismatchLine, AtMost), Lex(By(MismatchColumn, AtMost), By(MismatchCode, leq))));
  }

  lemma SharedKeysHold(typescript: seq<Diagnostic>, surgeTs: seq<Diagnostic>, leq: Collation)
    ensures forall k :: k in SharedKeys(typescript, surgeTs, leq)
                   <==> At(typescript, KeyByFullLocation, k) != [] && At(surgeTs, KeyByFullLocation, k) != []
    ensures NoDuplicates(SharedKeys(typescript, surgeTs, leq))
  {
    var distinct := Distinct(Map(typescript, KeyByFullLocation));
    DistinctHolds(Map(typescript, KeyByFullLocation));
    var shared := Filter(distinct, SharedWith(surgeTs));
    SortElements(shared, leq);
    FilterNoDuplicates(distinct, SharedWith(surgeTs));
    SortNoDuplicates(shared, leq);
    forall k ensures k in SharedKeys(typescript, surgeTs, leq)
                <==> At(typescript, KeyByFullLocation, k) != [] && At(surgeTs, KeyByFullLocation, k) != [] {
      AtSize(typescript, KeyByFullLocation, k);
      AtSize(surgeTs, KeyByFullLocation, k);
    }
  }

  lemma SharedLocationHolds(typescript: seq<Diagnostic>, surgeTs: seq<Diagnostic>, leq: Collation, k: string)
    requires k in SharedKeys(typescript, surgeTs, leq)
    ensures At(typescript, KeyByFullLocation, k) != [] && At(surgeTs, KeyByFullLocation, k) != []
  {
    SharedKeysHold(typescript, surgeTs, leq);
  }

  /** What compareMessages computes, location by location. */
  function ParityOf(typescript: seq<Diagnostic>, surgeTs: seq<Diagnostic>, leq: Collation): MessageParity {
    var keys := SharedKeys(typescript, surgeTs, leq);
    var report := ReportOver(typescript, surgeTs, keys, leq);
    MessageParity(|keys|, report.matches, Sort(report.mismatches, MismatchOrder(leq)))
  }

  /** By file name, then by line, column and code, told without the comparator. */
  ghost predicate InMismatchOrder(a: MessageMismatch, b: MessageMismatch, leq: Collation) {
    && leq(a.fileName, b.fileName)
    && (leq(b.fileName, a.fileName) ==>
          && a.line.GetOr(-1) <= b.line.GetOr(-1)
          && (a.line.GetOr(-1) == b.line.GetOr(-1) ==>
                && a.column.GetOr(-1) <= b.column.GetOr(-1)
                && (a.column.GetOr(-1) == b.column.GetOr(-1) ==> leq(a.code, b.code))))
  }

  lemma MismatchOrderIs(a: MessageMismatch, b: MessageMismatch, leq: Collation)
    requires TotalPreorder(leq)
    ensures MismatchOrder(leq)(a, b) <==> InMismatchOrder(a, b, leq)
  {
    var file, line, column := By(MismatchFile, leq), By(MismatchLine, AtMost), By(MismatchColumn, AtMost);
    var code := By(MismatchCode, leq);
    ByIs(MismatchFile, leq, a, b);
    ByIs(MismatchLine, AtMost, a, b);
    ByIs(MismatchColumn, AtMost, a, b);
    ByIs(MismatchCode, leq, a, b);
    assert leq(a.fileName, b.fileName) || leq(b.fileName, a.fileName);
    LexIs(column, code, a, b);
    LexIs(line, Lex(column, code), a, b);
    LexIs(file, Lex(line, Lex(column, code)), a, b);
  }

  /** Theorem: the mismatches stand in order of file name, line, column and code. */
  lemma MismatchesSorted(typescript: seq<Diagnostic>, surgeTs: seq<Diagnostic>, leq: Collation)
    requires TotalPreorder(leq)
    ensures var mismatches := ParityOf(typescript, surgeTs, leq).mismatches;
            forall i, j :: 0 <= i < j < |mismatches| ==> InMismatchOrder(mismatches[i], mismatches[j], leq)
  {
    var mismatches := ParityOf(typescript, surgeTs, leq).mismatches;
    MismatchOrderTotal(leq);
    SortSorted(ReportOver(typescript, surgeTs, SharedKeys(typescript, surgeTs, leq), leq).mismatches, MismatchOrder(leq));
    forall i, j | 0 <= i < j < |mismatches| ensures InMismatchOrder(mismatches[i], mismatches[j], leq) {
      MismatchOrderIs(mismatches[i], mismatches[j], leq);
    }
  }

  // ----- the loops

  /** The comparison of the two lists of one location. */
  method CompareLocation(left: seq<Diagnostic>, right: seq<Diagnostic>, leq: Collation)
    returns (matches: nat, leftUnmatched: seq<string>, rightUnmatched: seq<string>)
    ensures matches == MatchesAt(left, right)
    ensures leftUnmatched == UnmatchedLeft(left, right, leq)
    ensures rightUnmatched == UnmatchedRight(left, right, leq)
  {
    var counts := CountBy(right, MessageText);
    var rest, remaining;
    matches, rest, remaining := ConsumeMatches(left, MessageText, counts.count, Bag(right, MessageText));
    rightUnmatched := Leftover(counts, remaining, Map(left, MessageText), Bag(right, MessageText) - Bag(left, MessageText));
    MatchedSize(left, Bag(right, MessageText));
    leftUnmatched, rightUnmatched := Sort(Map(rest, MessageText), leq), Sort(rightUnmatched, leq);
  }

  datatype Consumption<T, K> = Consumption(matches: nat, unmatched: seq<T>, remaining: map<K, nat>)

  /** What the consuming loop has done after `i` rounds. */
  function ConsumedTo<T, K(==)>(s: seq<T>, i: nat, key: T -> K, counts: map<K, nat>, budget: multiset<K>): Consumption<T, K>
    requires i <= |s|
  {
    Consumption(|Matched(s[..i], key, budget)|, Residual(s[..i], key, budget), Consume(counts, Map(s, key)[..i]))
  }

  lemma ConsumedNext<T, K(!new)>(s: seq<T>, i: nat, key: T -> K, counts: map<K, nat>, budget: multiset<K>)
    requires i < |s| && Get(counts, key(s[i])) == budget[key(s[i])]
    ensures var before, k := ConsumedTo(s, i, key, counts, budget), key(s[i]);
            var count := Get(before.remaining, k);
            ConsumedTo(s, i + 1, key, counts, budget)
            == if count > 0 then Consumption(before.matches + 1, before.unmatched, before.remaining[k := count - 1])
               else Consumption(before.matches, before.unmatched + [s[i]], before.remaining)
  {
    ConsumeNext(s, i, key, counts, budget);
  }

  /** The loop that consumes exact matches first. */
  method ConsumeMatches<T, K(==, !new)>(s: seq<T>, key: T -> K, counts: map<K, nat>, ghost budget: multiset<K>)
    returns (matches: nat, unmatched: seq<T>, remaining: map<K, nat>)
    requires forall k :: Get(counts, k) == budget[k]
    ensures matches == |Matched(s, key, budget)|
    ensures unmatched == Residual(s, key, budget)
    ensures remaining == Consume(counts, Map(s, key))
  {
    matches, unmatched, remaining := 0, [], counts;
    for i := 0 to |s|
      invariant Consumption(matches, unmatched, remaining) == ConsumedTo(s, i, key, counts, budget)
    {
      ConsumedNext(s, i, key, counts, budget);
      var count := Get(remaining, key(s[i]));
      if count > 0 {
        remaining := remaining[key(s[i]) := count - 1];
        matches := matches + 1;
      } else {
        unmatched := unmatched + [s[i]];
      }
    }
    assert s[..|s|] == s && Map(s, key)[..|s|] == Map(s, key);
  }

  lemma MatchedSize(left: seq<Diagnostic>, budget: multiset<string>)
    ensures |Matched(left, MessageText, budget)| == |Bag(left, MessageText) * budget|
  {
    ResidualBag(left, MessageText, budget);
    BagSize(Matched(left, MessageText, budget), MessageText);
  }

  /** The loop that unfolds the remaining counts into texts. */
  method Leftover(counts: Tally<string>, remaining: map<string, nat>, ghost used: seq<string>, ghost rest: multiset<string>)
    returns (texts: seq<string>)
    requires remaining == Consume(counts.count, used)
    requires forall k :: Excess(Get(counts.count, k), multiset(used)[k]) == rest[k]
    ensures texts == Repeat(counts.order, rest)
  {
    texts := [];
    for i := 0 to |counts.order|
      invariant texts == Repeat(counts.order[..i], rest)
    {
      var message := counts.order[i];
      assert counts.order[..i + 1][..i] == counts.order[..i];
      ConsumeCount(counts.count, used, message);
      var count := Get(remaining, message);
      ghost var before := texts;
      for index := 0 to count
        invariant texts == before + seq(index, _ => message)
      {
        texts := texts + [message];
      }
    }
    assert counts.order[..|counts.order|] == counts.order;
  }

  /** The first step of compareMessages: the groups of both sides and the sorted keys they share. */
  method SharedLocations(typescript: seq<Diagnostic>, surgeTs: seq<Diagnostic>, leq: Collation)
    returns (keys: seq<string>, left: map<string, seq<Diagnostic>>, right: map<string, seq<Diagnostic>>)
    ensures keys == SharedKeys(typescript, surgeTs, leq)
    ensures forall k :: ListAt(left, k) == At(typescript, KeyByFullLocation, k)
    ensures forall k :: ListAt(right, k) == At(surgeTs, KeyByFullLocation, k)
  {
    var leftGroups := GroupBy(typescript, KeyByFullLocation);
    var rightGroups := GroupBy(surgeTs, KeyByFullLocation);
    left, right := leftGroups.lists, rightGroups.lists;
    forall k ensures k in rightGroups.lists <==> k in Map(surgeTs, KeyByFullLocation) {
      AtSize(surgeTs, KeyByFullLocation, k);
    }
    FilterSame(leftGroups.order, k => k in rightGroups.lists, SharedWith(surgeTs));
    keys := Sort(Filter(leftGroups.order, k => k in rightGroups.lists), leq);
  }

  /** compareMessages. */
  method CompareMessages(typescript: seq<Diagnostic>, surgeTs: seq<Diagnostic>, leq: Collation)
    returns (parity: MessageParity)
    ensures parity == ParityOf(typescript, surgeTs, leq)
  {
    var keys, left, right := SharedLocations(typescript, surgeTs, leq);
    forall k | k in keys ensures ListAt(left, k) != [] {
      SharedLocationHolds(typescript, surgeTs, leq, k);
    }
    var report := ReportLocations(typescript, surgeTs, keys, left, right, leq);
    parity := MessageParity(|keys|, report.matches, Sort(report.mismatches, MismatchOrder(leq)));
  }

  lemma ReportNext(typescript: seq<Diagnostic>, surgeTs: seq<Diagnostic>, keys: seq<string>, i: nat, leq: Collation)
    requires i < |keys|
    ensures ReportOver(typescript, surgeTs, keys[..i + 1], leq)
         == AddLocation(ReportOver(typescript, surgeTs, keys[..i], leq),
                        At(typescript, KeyByFullLocation, keys[i]), At(surgeTs, KeyByFullLocation, keys[i]), leq)
  {
    assert keys[..i + 1][..i] == keys[..i];
  }

  /** The main loop of compareMessages. */
  method ReportLocations(ghost typescript: seq<Diagnostic>, ghost surgeTs: seq<Diagnostic>, keys: seq<string>,
                         left: map<string, seq<Diagnostic>>, right: map<string, seq<Diagnostic>>, leq: Collation)
    returns (report: Report)
    requires forall k :: k in keys ==> ListAt(left, k) == At(typescript, KeyByFullLocation, k) != []
    requires forall k :: k in keys ==> ListAt(right, k) == At(surgeTs, KeyByFullLocation, k)
    ensures report == ReportOver(typescript, surgeTs, keys, leq)
  {
    report := Report(0, []);
    for i := 0 to |keys|
      invariant report == ReportOver(typescript, surgeTs, keys[..i], leq)
    {
      ReportNext(typescript, surgeTs, keys, i, leq);
      assert keys[i] in keys;
      report := ReportLocation(report, ListAt(left, keys[i]), ListAt(right, keys[i]), leq);
    }
    assert keys[..|keys|] == keys;
  }

  /** The loop body of compareMessages. */
  method ReportLocation(report: Report, left: seq<Diagnostic>, right: seq<Diagnostic>, leq: Collation)
    returns (result: Report)
    requires left != []
    ensures result == AddLocation(report, left, right, leq)
  {
    var matches, leftUnmatched, rightUnmatched := CompareLocation(left, right, leq);
    result := Report(report.matches + matches, report.mismatches + Pairs(left[0], leftUnmatched, rightUnmatched));
  }

  // ----- one location

  lemma UnmatchedBags(left: seq<Diagnostic>, right: seq<Diagnostic>, leq: Collation)
    ensures multiset(UnmatchedLeft(left, right, leq)) == Bag(left, MessageText) - Bag(right, MessageText)
    ensures multiset(UnmatchedRight(left, right, leq)) == Bag(right, MessageText) - Bag(left, MessageText)
  {
    ResidualBag(left, MessageText, Bag(right, MessageText));
    var texts, rest := Map(right, MessageText), Bag(right, MessageText) - Bag(left, MessageText);
    DistinctHolds(texts);
    forall k | k in rest ensures k in Distinct(texts) {
      assert k in multiset(texts);
    }
    RepeatBag(Distinct(texts), rest);
  }

  lemma UnmatchedSizes(left: seq<Diagnostic>, right: seq<Diagnostic>, leq: Collation)
    ensures |UnmatchedLeft(left, right, leq)| == |Bag(left, MessageText) - Bag(right, MessageText)|
    ensures |UnmatchedRight(left, right, leq)| == |Bag(right, MessageText) - Bag(left, MessageText)|
  {
    UnmatchedBags(left, right, leq);
    assert |multiset(UnmatchedLeft(left, right, leq))| == |UnmatchedLeft(left, right, leq)|;
    assert |multiset(UnmatchedRight(left, right, leq))| == |UnmatchedRight(left, right, leq)|;
  }

  lemma LocationCounts(left: seq<Diagnostic>, right: seq<Diagnostic>, leq: Collation)
    ensures MatchesAt(left, right) + |MismatchesAt(left, right, leq)| == Min(|left|, |right|)
  {
    var l, r := Bag(left, MessageText), Bag(right, MessageText);
    BagSize(left, MessageText);
    BagSize(right, MessageText);
    UnmatchedSizes(left, right, leq);
    CommonAndSurplus(l, r);
  }

  lemma PairMembers(representative: Diagnostic, left: seq<string>, right: seq<string>, m: MessageMismatch)
    requires m in Pairs(representative, left, right)
    ensures m.typescript in left && m.surgeTs in right
    ensures m == MessageMismatch(representative.fileName, representative.code, representative.line, representative.column,
                                 m.typescript, m.surgeTs)
  {
  }

  /** A mismatch at a location pairs a text only the left side has left over with one only the right side has. */
  lemma LocationMismatch(left: seq<Diagnostic>, right: seq<Diagnostic>, leq: Collation, m: MessageMismatch)
    requires left != [] && m in Pairs(left[0], UnmatchedLeft(left, right, leq), UnmatchedRight(left, right, leq))
    ensures m.typescript != m.surgeTs
    ensures exists d :: d in left && MessageText(d) == m.typescript
    ensures exists e :: e in right && MessageText(e) == m.surgeTs
    ensures m == MessageMismatch(left[0].fileName, left[0].code, left[0].line, left[0].column, m.typescript, m.surgeTs)
  {
    PairMembers(left[0], UnmatchedLeft(left, right, leq), UnmatchedRight(left, right, leq), m);
    UnmatchedText(left, right, leq, m.typescript);
    UnmatchedText(left, right, leq, m.surgeTs);
  }

  lemma UnmatchedText(left: seq<Diagnostic>, right: seq<Diagnostic>, leq: Collation, text: string)
    ensures text in UnmatchedLeft(left, right, leq) ==>
      text !in UnmatchedRight(left, right, leq) && exists d :: d in left && MessageText(d) == text
    ensures text in UnmatchedRight(left, right, leq) ==> exists e :: e in right && MessageText(e) == text
  {
    UnmatchedBags(left, right, leq);
    assert text in UnmatchedLeft(left, right, leq) <==> text in multiset(UnmatchedLeft(left, right, leq));
    assert text in UnmatchedRight(left, right, leq) <==> text in multiset(UnmatchedRight(left, right, leq));
    TextHolder(left, text);
    TextHolder(right, text);
  }

  lemma TextHolder(s: seq<Diagnostic>, text: string)
    ensures text in Bag(s, MessageText) ==> exists d :: d in s && MessageText(d) == text
  {
    BagHolds(s, MessageText);
    if text in Bag(s, MessageText) {
      var p :| 0 <= p < |s| && MessageText(s[p]) == text;
      assert s[p] in s;
    }
  }

  lemma NoLocationMismatch(left: seq<Diagnostic>, right: seq<Diagnostic>, leq: Collation)
    ensures MismatchesAt(left, right, leq) == []
       <==> Bag(left, MessageText) <= Bag(right, MessageText) || Bag(right, MessageText) <= Bag(left, MessageText)
  {
    var l, r := Bag(left, MessageText), Bag(right, MessageText);
    UnmatchedSizes(left, right, leq);
    assert |l - r| == 0 <==> l <= r by { DifferenceEmpty(l, r); }
    assert |r - l| == 0 <==> r <= l by { DifferenceEmpty(r, l); }
  }

  lemma DifferenceEmpty<K(!new)>(l: multiset<K>, r: multiset<K>)
    ensures |l - r| == 0 <==> l <= r
  {
    if |l - r| == 0 {
      assert l - r == multiset{};
      forall k ensures l[k] <= r[k] {
        assert (l - r)[k] == 0;
      }
    } else {
      assert l - r != multiset{};
    }
  }

  // ----- all locations

  /** Location and message text together. */
  function LocatedText(d: Diagnostic): (string, string) { (KeyByFullLocation(d), d.message.GetOr("")) }

  lemma {:induction false} ReportSizes(typescript: seq<Diagnostic>, surgeTs: seq<Diagnostic>, keys: seq<string>, leq: Collation)
    ensures var report := ReportOver(typescript, surgeTs, keys, leq);
            && report.matches == SizeOver(Matched(typescript, LocatedText, Bag(surgeTs, LocatedText)), KeyByFullLocation, keys)
            && report.matches + |report.mismatches|
               == SizeOver(Matched(typescript, KeyByFullLocation, Bag(surgeTs, KeyByFullLocation)), KeyByFullLocation, keys)
  {
    if keys != [] {
      var k := keys[|keys| - 1];
      ReportSizes(typescript, surgeTs, keys[..|keys| - 1], leq);
      LocationCounts(At(typescript, KeyByFullLocation, k), At(surgeTs, KeyByFullLocation, k), leq);
      MatchedTextsAt(typescript, surgeTs, k);
      MatchedLocationsAt(typescript, surgeTs, k);
    }
  }

  lemma MatchedTextsAt(typescript: seq<Diagnostic>, surgeTs: seq<Diagnostic>, k: string)
    ensures |At(Matched(typescript, LocatedText, Bag(surgeTs, LocatedText)), KeyByFullLocation, k)|
         == MatchesAt(At(typescript, KeyByFullLocation, k), At(surgeTs, KeyByFullLocation, k))
  {
    var matched := Matched(typescript, LocatedText, Bag(surgeTs, LocatedText));
    ResidualBag(typescript, LocatedText, Bag(surgeTs, LocatedText));
    var here := At(matched, KeyByFullLocation, k);
    var l, r := Bag(At(typescript, KeyByFullLocation, k), MessageText), Bag(At(surgeTs, KeyByFullLocation, k), MessageText);
    forall m ensures Bag(here, MessageText)[m] == (l * r)[m] {
      AtBag(matched, KeyByFullLocation, MessageText, LocatedText, k, m);
      AtBag(typescript, KeyByFullLocation, MessageText, LocatedText, k, m);
      AtBag(surgeTs, KeyByFullLocation, MessageText, LocatedText, k, m);
    }
    assert Bag(here, MessageText) == l * r;
    BagSize(here, MessageText);
  }

  lemma MatchedLocationsAt(typescript: seq<Diagnostic>, surgeTs: seq<Diagnostic>, k: string)
    ensures |At(Matched(typescript, KeyByFullLocation, Bag(surgeTs, KeyByFullLocation)), KeyByFullLocation, k)|
         == Min(|At(typescript, KeyByFullLocation, k)|, |At(surgeTs, KeyByFullLocation, k)|)
  {
    var matched := Matched(typescript, KeyByFullLocation, Bag(surgeTs, KeyByFullLocation));
    ResidualBag(typescript, KeyByFullLocation, Bag(surgeTs, KeyByFullLocation));
    AtSize(matched, KeyByFullLocation, k);
    AtSize(typescript, KeyByFullLocation, k);
    AtSize(surgeTs, KeyByFullLocation, k);
  }

  /** The location of a matched element is shared. */
  lemma MatchedKeyShared<K(!new)>(typescript: seq<Diagnostic>, surgeTs: seq<Diagnostic>, key: Diagnostic -> K, leq: Collation,
                                  d: Diagnostic)
    requires forall e, f :: key(e) == key(f) ==> KeyByFullLocation(e) == KeyByFullLocation(f)
    requires d in Matched(typescript, key, Bag(surgeTs, key))
    ensures KeyByFullLocation(d) in SharedKeys(typescript, surgeTs, leq)
  {
    var e := MatchedPartner(typescript, surgeTs, key, d);
    var k := KeyByFullLocation(d);
    AtHolds(typescript, KeyByFullLocation, k);
    AtHolds(surgeTs, KeyByFullLocation, k);
    assert d in At(typescript, KeyByFullLocation, k) && e in At(surgeTs, KeyByFullLocation, k);
    SharedKeysHold(typescript, surgeTs, leq);
  }

  lemma MatchedPartner<K(!new)>(left: seq<Diagnostic>, right: seq<Diagnostic>, key: Diagnostic -> K, d: Diagnostic)
    returns (e: Diagnostic)
    requires d in Matched(left, key, Bag(right, key))
    ensures d in left && e in right && key(d) == key(e)
  {
    var matched := Matched(left, key, Bag(right, key));
    ResidualSubset(left, key, Bag(right, key), d);
    var i :| 0 <= i < |matched| && matched[i] == d;
    assert key(d) in Bag(right, key) by {
      assert Map(matched, key)[i] == key(d);
      assert key(d) in Bag(matched, key);
      ResidualBag(left, key, Bag(right, key));
    }
    BagHolds(right, key);
    var j :| 0 <= j < |right| && key(right[j]) == key(d);
    e := right[j];
  }

  /** Theorem: the matches are the diagnostics the two lists share by location and text, and together with the
      mismatches they are the diagnostics the two lists share by location. */
  lemma MessageParityIsExact(typescript: seq<Diagnostic>, surgeTs: seq<Diagnostic>, leq: Collation)
    ensures var p := ParityOf(typescript, surgeTs, leq);
            && p.matches == |Bag(typescript, LocatedText) * Bag(surgeTs, LocatedText)|
            && p.matches + |p.mismatches| == |Bag(typescript, KeyByFullLocation) * Bag(surgeTs, KeyByFullLocation)|
  {
    var keys := SharedKeys(typescript, surgeTs, leq);
    SharedKeysHold(typescript, surgeTs, leq);
    ReportSizes(typescript, surgeTs, keys, leq);
    SortElements(ReportOver(typescript, surgeTs, keys, leq).mismatches, MismatchOrder(leq));
    SharedSize(typescript, surgeTs, LocatedText, leq);
    SharedSize(typescript, surgeTs, KeyByFullLocation, leq);
  }

  lemma SharedSize<K(!new)>(typescript: seq<Diagnostic>, surgeTs: seq<Diagnostic>, key: Diagnostic -> K, leq: Collation)
    requires forall d, e :: key(d) == key(e) ==> KeyByFullLocation(d) == KeyByFullLocation(e)
    ensures SizeOver(Matched(typescript, key, Bag(surgeTs, key)), KeyByFullLocation, SharedKeys(typescript, surgeTs, leq))
         == |Bag(typescript, key) * Bag(surgeTs, key)|
  {
    var matched := Matched(typescript, key, Bag(surgeTs, key));
    forall d | d in matched ensures KeyByFullLocation(d) in SharedKeys(typescript, surgeTs, leq) {
      MatchedKeyShared(typescript, surgeTs, key, leq, d);
    }
    SharedKeysHold(typescript, surgeTs, leq);
    SizeOverAll(matched, KeyByFullLocation, SharedKeys(typescript, surgeTs, leq));
    ResidualBag(typescript, key, Bag(surgeTs, key));
    BagSize(matched, key);
  }

  /** The mismatches of one location. */
  function MismatchesFor(typescript: seq<Diagnostic>, surgeTs: seq<Diagnostic>, k: string, leq: Collation): seq<MessageMismatch> {
    MismatchesAt(At(typescript, KeyByFullLocation, k), At(surgeTs, KeyByFullLocation, k), leq)
  }

  lemma {:induction false} ReportMismatch(typescript: seq<Diagnostic>, surgeTs: seq<Diagnostic>, keys: seq<string>, leq: Collation,
                                          m: MessageMismatch) returns (k: string)
    requires m in ReportOver(typescript, surgeTs, keys, leq).mismatches
    ensures k in keys && m in MismatchesFor(typescript, surgeTs, k, leq)
  {
    var init, last := keys[..|keys| - 1], keys[|keys| - 1];
    if m in ReportOver(typescript, surgeTs, init, leq).mismatches {
      k := ReportMismatch(typescript, surgeTs, init, leq, m);
    } else {
      k := last;
    }
  }

  lemma {:induction false} ReportKeeps(typescript: seq<Diagnostic>, surgeTs: seq<Diagnostic>, keys: seq<string>, leq: Collation,
                                       k: string)
    requires k in keys
    ensures |ReportOver(typescript, surgeTs, keys, leq).mismatches| >= |MismatchesFor(typescript, surgeTs, k, leq)|
  {
    var init, last := keys[..|keys| - 1], keys[|keys| - 1];
    if k != last {
      ReportKeeps(typescript, surgeTs, init, leq, k);
    }
  }

  /** Diagnostics of the two sides at one location, with the two different texts of `m`, which stands at that location.
      With separable codes its file and code are those of the diagnostics too. */
  ghost predicate Witnesses(typescript: seq<Diagnostic>, surgeTs: seq<Diagnostic>, m: MessageMismatch, d: Diagnostic, e: Diagnostic) {
    && d in typescript && e in surgeTs && KeyByFullLocation(d) == KeyByFullLocation(e)
    && d.message.GetOr("") == m.typescript != m.surgeTs == e.message.GetOr("")
    && d.line == e.line == m.line && d.column == e.column == m.column
    && (SeparableCodes(set x | x in typescript + surgeTs :: x.code)
        ==> d.code == e.code == m.code && d.fileName == e.fileName == m.fileName)
  }

  lemma MismatchWitnesses(typescript: seq<Diagnostic>, surgeTs: seq<Diagnostic>, leq: Collation, k: string, m: MessageMismatch)
    ensures m in MismatchesFor(typescript, surgeTs, k, leq) ==> exists d, e :: Witnesses(typescript, surgeTs, m, d, e)
  {
    if m in MismatchesFor(typescript, surgeTs, k, leq) {
      var left, right := At(typescript, KeyByFullLocation, k), At(surgeTs, KeyByFullLocation, k);
      LocationMismatch(left, right, leq, m);
      AtHolds(typescript, KeyByFullLocation, k);
      AtHolds(surgeTs, KeyByFullLocation, k);
      var d :| d in left && MessageText(d) == m.typescript;
      var e :| e in right && MessageText(e) == m.surgeTs;
      assert left[0] in left;
      SameLocation(d, left[0], typescript + surgeTs);
      SameLocation(e, left[0], typescript + surgeTs);
      assert Witnesses(typescript, surgeTs, m, d, e);
    }
  }

  /** Theorem: every reported mismatch pairs two different texts, found on the two sides at one location. */
  lemma MismatchIsReal(typescript: seq<Diagnostic>, surgeTs: seq<Diagnostic>, leq: Collation, m: MessageMismatch)
    ensures m in ParityOf(typescript, surgeTs, leq).mismatches ==> exists d, e :: Witnesses(typescript, surgeTs, m, d, e)
  {
    var keys := SharedKeys(typescript, surgeTs, leq);
    SortElements(ReportOver(typescript, surgeTs, keys, leq).mismatches, MismatchOrder(leq));
    if m in ReportOver(typescript, surgeTs, keys, leq).mismatches {
      var k := ReportMismatch(typescript, surgeTs, keys, leq, m);
      MismatchWitnesses(typescript, surgeTs, leq, k, m);
    }
  }

  lemma SameLocation(d: Diagnostic, e: Diagnostic, s: seq<Diagnostic>)
    requires d in s && e in s && KeyByFullLocation(d) == KeyByFullLocation(e)
    ensures d.line == e.line && d.column == e.column
    ensures SeparableCodes(set x | x in s :: x.code) ==> d.code == e.code && d.fileName == e.fileName
  {
    FullLocationKeyParts(d, e);
    if SeparableCodes(set x | x in s :: x.code) {
      FileCodeKeyParts(d, e, set x | x in s :: x.code);
    }
  }

  /** At location `k` every text occurs in `left` at most as often as in `right`. */
  ghost predicate ContainedAt(left: seq<Diagnostic>, right: seq<Diagnostic>, k: string) {
    forall text: string :: Bag(left, LocatedText)[(k, text)] <= Bag(right, LocatedText)[(k, text)]
  }

  /** At location `k` the texts of one side contain those of the other. */
  ghost predicate OneSideContains(typescript: seq<Diagnostic>, surgeTs: seq<Diagnostic>, k: string) {
    ContainedAt(typescript, surgeTs, k) || ContainedAt(surgeTs, typescript, k)
  }

  lemma ContainedIsSubBag(left: seq<Diagnostic>, right: seq<Diagnostic>, k: string)
    ensures ContainedAt(left, right, k)
       <==> Bag(At(left, KeyByFullLocation, k), MessageText) <= Bag(At(right, KeyByFullLocation, k), MessageText)
  {
    var l, r := Bag(At(left, KeyByFullLocation, k), MessageText), Bag(At(right, KeyByFullLocation, k), MessageText);
    forall text: string ensures l[text] == Bag(left, LocatedText)[(k, text)] && r[text] == Bag(right, LocatedText)[(k, text)] {
      AtBag(left, KeyByFullLocation, MessageText, LocatedText, k, text);
      AtBag(right, KeyByFullLocation, MessageText, LocatedText, k, text);
    }
  }

  lemma NoMismatchFor(typescript: seq<Diagnostic>, surgeTs: seq<Diagnostic>, leq: Collation, k: string)
    ensures MismatchesFor(typescript, surgeTs, k, leq) == [] <==> OneSideContains(typescript, surgeTs, k)
    ensures k !in SharedKeys(typescript, surgeTs, leq) ==> MismatchesFor(typescript, surgeTs, k, leq) == []
  {
    NoLocationMismatch(At(typescript, KeyByFullLocation, k), At(surgeTs, KeyByFullLocation, k), leq);
    ContainedIsSubBag(typescript, surgeTs, k);
    ContainedIsSubBag(surgeTs, typescript, k);
    LocationCounts(At(typescript, KeyByFullLocation, k), At(surgeTs, KeyByFullLocation, k), leq);
    SharedKeysHold(typescript, surgeTs, leq);
  }

  /** Theorem: nothing is reported exactly when, at every location, one side's texts contain the other's. */
  lemma NoMismatchIffContained(typescript: seq<Diagnostic>, surgeTs: seq<Diagnostic>, leq: Collation)
    ensures ParityOf(typescript, surgeTs, leq).mismatches == [] <==> forall k :: OneSideContains(typescript, surgeTs, k)
  {
    var keys := SharedKeys(typescript, surgeTs, leq);
    var mismatches := ReportOver(typescript, surgeTs, keys, leq).mismatches;
    assert |ParityOf(typescript, surgeTs, leq).mismatches| == |mismatches| by {
      SortElements(mismatches, MismatchOrder(leq));
    }
    if mismatches == [] {
      forall k ensures OneSideContains(typescript, surgeTs, k) {
        NoMismatchFor(typescript, surgeTs, leq, k);
        if k in keys {
          ReportKeeps(typescript, surgeTs, keys, leq, k);
        }
      }
    } else {
      var k := ReportMismatch(typescript, surgeTs, keys, leq, mismatches[0]);
      NoMismatchFor(typescript, surgeTs, leq, k);
    }
  }
}
