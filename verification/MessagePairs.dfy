/** What compareMessages reports, location by location, told without how it computes it. */
module MessagePairs {
  import opened Sequences
  import opened KeyedLists
  import opened Tallies
  import opened Diagnostics
  import opened Messages

  /** The location a mismatch stands at. */
  function MismatchKey(m: MessageMismatch): string {
    KeyByFullLocation(Diagnostic(TypeScript, m.code, m.fileName, m.line, m.column, None))
  }

  // ----- the mismatches of one location

  lemma {:induction false} AtAll<T, K(!new)>(s: seq<T>, key: T -> K, k: K, j: K)
    requires forall i :: 0 <= i < |s| ==> key(s[i]) == j
    ensures At(s, key, k) == if j == k then s else []
  {
    if s != [] {
      AtAll(s[..|s| - 1], key, k, j);
      assert s == s[..|s| - 1] + [s[|s| - 1]];
    }
  }

  /** All mismatches of a location stand there, in one file and under one code. */
  lemma MismatchesStandHere(typescript: seq<Diagnostic>, surgeTs: seq<Diagnostic>, k: string, leq: Collation)
    returns (d: Diagnostic)
    ensures var here := MismatchesFor(typescript, surgeTs, k, leq);
            forall i :: 0 <= i < |here| ==>
              && MismatchKey(here[i]) == k
              && (here[i].fileName, here[i].code, here[i].line, here[i].column) == (d.fileName, d.code, d.line, d.column)
  {
    var left := At(typescript, KeyByFullLocation, k);
    AtHolds(typescript, KeyByFullLocation, k);
    d := if left == [] then Diagnostic(TypeScript, "", "", None, None, None) else left[0];
    assert left != [] ==> left[0] in left;
  }

  lemma ReportAtNext(typescript: seq<Diagnostic>, surgeTs: seq<Diagnostic>, before: seq<MessageMismatch>, last: string,
                     leq: Collation, k: string)
    ensures At(before + MismatchesFor(typescript, surgeTs, last, leq), MismatchKey, k)
         == At(before, MismatchKey, k) + if last == k then MismatchesFor(typescript, surgeTs, k, leq) else []
  {
    var here := MismatchesFor(typescript, surgeTs, last, leq);
    var d := MismatchesStandHere(typescript, surgeTs, last, leq);
    AtAppend(before, here, MismatchKey, k);
    AtAll(here, MismatchKey, k, last);
  }

  lemma ReportGrows(typescript: seq<Diagnostic>, surgeTs: seq<Diagnostic>, keys: seq<string>, leq: Collation)
    requires keys != []
    ensures ReportOver(typescript, surgeTs, keys, leq).mismatches
         == ReportOver(typescript, surgeTs, keys[..|keys| - 1], leq).mismatches
            + MismatchesFor(typescript, surgeTs, keys[|keys| - 1], leq)
  {
  }

  lemma {:induction false} ReportAt(typescript: seq<Diagnostic>, surgeTs: seq<Diagnostic>, keys: seq<string>, leq: Collation,
                                    k: string)
    requires NoDuplicates(keys)
    ensures At(ReportOver(typescript, surgeTs, keys, leq).mismatches, MismatchKey, k)
         == if k in keys then MismatchesFor(typescript, surgeTs, k, leq) else []
  {
    if keys != [] {
      var n := |keys| - 1;
      ReportAt(typescript, surgeTs, keys[..n], leq, k);
      ReportGrows(typescript, surgeTs, keys, leq);
      ReportAtNext(typescript, surgeTs, ReportOver(typescript, surgeTs, keys[..n], leq).mismatches, keys[n], leq, k);
      assert k in keys <==> k in keys[..n] || k == keys[n];
      assert keys[n] !in keys[..n];
    }
  }

  lemma OneLocationTied(s: seq<MessageMismatch>, here: seq<MessageMismatch>, d: Diagnostic, leq: Collation, k: string)
    requires TotalPreorder(leq) && At(s, MismatchKey, k) == here
    requires forall i :: 0 <= i < |here| ==>
               (here[i].fileName, here[i].code, here[i].line, here[i].column) == (d.fileName, d.code, d.line, d.column)
    ensures Tied(s, MismatchOrder(leq), MismatchKey, k)
  {
    AtHolds(s, MismatchKey, k);
    forall x, y | x in s && y in s && MismatchKey(x) == k && MismatchKey(y) == k ensures MismatchOrder(leq)(x, y) {
      assert x in here && y in here;
      assert leq(x.fileName, x.fileName) && leq(x.code, x.code);
      MismatchOrderIs(x, y, leq);
    }
  }

  /** The mismatches reported at location `k`, in the order they are reported. */
  lemma ReportedAt(typescript: seq<Diagnostic>, surgeTs: seq<Diagnostic>, leq: Collation, k: string)
    requires TotalPreorder(leq)
    ensures At(ParityOf(typescript, surgeTs, leq).mismatches, MismatchKey, k) == MismatchesFor(typescript, surgeTs, k, leq)
  {
    var keys := SharedKeys(typescript, surgeTs, leq);
    var mismatches := ReportOver(typescript, surgeTs, keys, leq).mismatches;
    SharedKeysHold(typescript, surgeTs, leq);
    ReportAt(typescript, surgeTs, keys, leq, k);
    NoMismatchFor(typescript, surgeTs, leq, k);
    var d := MismatchesStandHere(typescript, surgeTs, k, leq);
    OneLocationTied(mismatches, MismatchesFor(typescript, surgeTs, k, leq), d, leq, k);
    SortKeepsAt(mismatches, MismatchOrder(leq), MismatchKey, k);
  }

  // ----- the pairs

  /** The texts that `left` has at location `k` beyond those of `right`, in collation order. */
  ghost predicate LeftOverAt(texts: seq<string>, left: seq<Diagnostic>, right: seq<Diagnostic>, k: string, leq: Collation) {
    && SortedBy(texts, leq)
    && forall text :: multiset(texts)[text] == (Bag(left, LocatedText) - Bag(right, LocatedText))[(k, text)]
  }

  lemma LeftOverOf(texts: seq<string>, left: seq<Diagnostic>, right: seq<Diagnostic>, k: string, leq: Collation)
    requires SortedBy(texts, leq)
    requires multiset(texts) == Bag(At(left, KeyByFullLocation, k), MessageText) - Bag(At(right, KeyByFullLocation, k), MessageText)
    ensures LeftOverAt(texts, left, right, k, leq)
  {
    forall text: string
      ensures multiset(texts)[text] == (Bag(left, LocatedText) - Bag(right, LocatedText))[(k, text)] {
      AtBag(left, KeyByFullLocation, MessageText, LocatedText, k, text);
      AtBag(right, KeyByFullLocation, MessageText, LocatedText, k, text);
    }
  }

  lemma UnmatchedSorted(l: seq<Diagnostic>, r: seq<Diagnostic>, leq: Collation)
    requires TotalPreorder(leq)
    ensures SortedBy(UnmatchedLeft(l, r, leq), leq) && SortedBy(UnmatchedRight(l, r, leq), leq)
  {
    SortSorted(Map(Residual(l, MessageText, Bag(r, MessageText)), MessageText), leq);
    SortSorted(Repeat(Distinct(Map(r, MessageText)), Bag(r, MessageText) - Bag(l, MessageText)), leq);
  }

  /** `here` pairs the texts of the two lists, index by index, until one of them runs out. */
  predicate PairUp(here: seq<MessageMismatch>, left: seq<string>, right: seq<string>) {
    && (|here| == |left| <= |right| || |here| == |right| <= |left|)
    && forall i :: 0 <= i < |here| ==> here[i].typescript == left[i] && here[i].surgeTs == right[i]
  }

  lemma PairsPairUp(d: Diagnostic, left: seq<string>, right: seq<string>)
    ensures PairUp(Pairs(d, left, right), left, right)
  {
  }

  lemma NothingUnmatched(r: seq<Diagnostic>, leq: Collation)
    ensures UnmatchedLeft([], r, leq) == []
  {
    assert |UnmatchedLeft([], r, leq)| == 0 by {
      UnmatchedSizes([], r, leq);
      assert Bag<Diagnostic, string>([], MessageText) == multiset{};
    }
  }

  lemma LocationPairs(l: seq<Diagnostic>, r: seq<Diagnostic>, leq: Collation)
    ensures PairUp(MismatchesAt(l, r, leq), UnmatchedLeft(l, r, leq), UnmatchedRight(l, r, leq))
  {
    if l == [] {
      NothingUnmatched(r, leq);
    } else {
      PairsPairUp(l[0], UnmatchedLeft(l, r, leq), UnmatchedRight(l, r, leq));
    }
  }

  /** Theorem: at each location the i-th mismatch reported pairs the i-th text left over on each side, in collation
      order, until one side runs out. */
  lemma MismatchesPairLeftOvers(typescript: seq<Diagnostic>, surgeTs: seq<Diagnostic>, leq: Collation, k: string)
    returns (left: seq<string>, right: seq<string>)
    requires TotalPreorder(leq)
    ensures LeftOverAt(left, typescript, surgeTs, k, leq) && LeftOverAt(right, surgeTs, typescript, k, leq)
    ensures PairUp(At(ParityOf(typescript, surgeTs, leq).mismatches, MismatchKey, k), left, right)
  {
    var l, r := At(typescript, KeyByFullLocation, k), At(surgeTs, KeyByFullLocation, k);
    left, right := UnmatchedLeft(l, r, leq), UnmatchedRight(l, r, leq);
    assert LeftOverAt(left, typescript, surgeTs, k, leq) && LeftOverAt(right, surgeTs, typescript, k, leq) by {
      UnmatchedSorted(l, r, leq);
      UnmatchedBags(l, r, leq);
      LeftOverOf(left, typescript, surgeTs, k, leq);
      LeftOverOf(right, surgeTs, typescript, k, leq);
    }
    ReportedAt(typescript, surgeTs, leq, k);
    LocationPairs(l, r, leq);
  }

  function TypeScriptText(m: MessageMismatch): string { m.typescript }
  function SurgeTsText(m: MessageMismatch): string { m.surgeTs }
  function LocatedTypeScript(m: MessageMismatch): (string, string) { (MismatchKey(m), m.typescript) }
  function LocatedSurgeTs(m: MessageMismatch): (string, string) { (MismatchKey(m), m.surgeTs) }

  lemma PrefixBag<T(!new)>(texts: seq<T>, n: nat)
    requires n <= |texts|
    ensures multiset(texts[..n]) <= multiset(texts)
  {
    assert texts == texts[..n] + texts[n..];
  }

  lemma TextsOfPairs(here: seq<MessageMismatch>, left: seq<string>, right: seq<string>, text: string)
    requires PairUp(here, left, right)
    ensures Bag(here, TypeScriptText)[text] <= multiset(left)[text] && Bag(here, SurgeTsText)[text] <= multiset(right)[text]
  {
    assert Map(here, TypeScriptText) == left[..|here|] && Map(here, SurgeTsText) == right[..|here|];
    PrefixBag(left, |here|);
    PrefixBag(right, |here|);
  }

  lemma TextWithin(typescript: seq<Diagnostic>, surgeTs: seq<Diagnostic>, leq: Collation, k: string, text: string)
    requires TotalPreorder(leq)
    ensures var mismatches := ParityOf(typescript, surgeTs, leq).mismatches;
            && Bag(mismatches, LocatedTypeScript)[(k, text)] <= (Bag(typescript, LocatedText) - Bag(surgeTs, LocatedText))[(k, text)]
            && Bag(mismatches, LocatedSurgeTs)[(k, text)] <= (Bag(surgeTs, LocatedText) - Bag(typescript, LocatedText))[(k, text)]
  {
    var mismatches := ParityOf(typescript, surgeTs, leq).mismatches;
    var left, right := MismatchesPairLeftOvers(typescript, surgeTs, leq, k);
    TextsOfPairs(At(mismatches, MismatchKey, k), left, right, text);
    AtBag(mismatches, MismatchKey, TypeScriptText, LocatedTypeScript, k, text);
    AtBag(mismatches, MismatchKey, SurgeTsText, LocatedSurgeTs, k, text);
  }

  /** Theorem: no left-over text is reported more often than it is left over at its location. */
  lemma MismatchTextsWithin(typescript: seq<Diagnostic>, surgeTs: seq<Diagnostic>, leq: Collation)
    requires TotalPreorder(leq)
    ensures Bag(ParityOf(typescript, surgeTs, leq).mismatches, LocatedTypeScript)
         <= Bag(typescript, LocatedText) - Bag(surgeTs, LocatedText)
    ensures Bag(ParityOf(typescript, surgeTs, leq).mismatches, LocatedSurgeTs)
         <= Bag(surgeTs, LocatedText) - Bag(typescript, LocatedText)
  {
    var mismatches := ParityOf(typescript, surgeTs, leq).mismatches;
    forall p: (string, string)
      ensures Bag(mismatches, LocatedTypeScript)[p] <= (Bag(typescript, LocatedText) - Bag(surgeTs, LocatedText))[p]
      ensures Bag(mismatches, LocatedSurgeTs)[p] <= (Bag(surgeTs, LocatedText) - Bag(typescript, LocatedText))[p] {
      TextWithin(typescript, surgeTs, leq, p.0, p.1);
    }
  }

  // ----- the shared locations

  /** The two lists share no location. */
  ghost predicate NothingShared(typescript: seq<Diagnostic>, surgeTs: seq<Diagnostic>) {
    forall d, e :: d in typescript && e in surgeTs ==> KeyByFullLocation(d) != KeyByFullLocation(e)
  }

  lemma SharedByTwo(typescript: seq<Diagnostic>, surgeTs: seq<Diagnostic>, leq: Collation, d: Diagnostic, e: Diagnostic)
    requires d in typescript && e in surgeTs && KeyByFullLocation(d) == KeyByFullLocation(e)
    ensures KeyByFullLocation(d) in SharedKeys(typescript, surgeTs, leq)
  {
    var k := KeyByFullLocation(d);
    AtHolds(typescript, KeyByFullLocation, k);
    AtHolds(surgeTs, KeyByFullLocation, k);
    assert d in At(typescript, KeyByFullLocation, k) && e in At(surgeTs, KeyByFullLocation, k);
    SharedKeysHold(typescript, surgeTs, leq);
  }

  lemma TwoAtShared(typescript: seq<Diagnostic>, surgeTs: seq<Diagnostic>, leq: Collation, k: string)
    requires k in SharedKeys(typescript, surgeTs, leq)
    ensures !NothingShared(typescript, surgeTs)
  {
    var left, right := At(typescript, KeyByFullLocation, k), At(surgeTs, KeyByFullLocation, k);
    SharedLocationHolds(typescript, surgeTs, leq, k);
    AtHolds(typescript, KeyByFullLocation, k);
    AtHolds(surgeTs, KeyByFullLocation, k);
    assert left[0] in left && right[0] in right;
  }

  /** Theorem: no location is compared exactly when no diagnostic of one side stands where one of the other does. */
  lemma ComparedLocationsHold(typescript: seq<Diagnostic>, surgeTs: seq<Diagnostic>, leq: Collation)
    ensures ParityOf(typescript, surgeTs, leq).comparedLocations == 0 <==> NothingShared(typescript, surgeTs)
  {
    var keys := SharedKeys(typescript, surgeTs, leq);
    if !NothingShared(typescript, surgeTs) {
      var d, e :| d in typescript && e in surgeTs && KeyByFullLocation(d) == KeyByFullLocation(e);
      SharedByTwo(typescript, surgeTs, leq, d, e);
    }
    if keys != [] {
      assert keys[0] in keys;
      TwoAtShared(typescript, surgeTs, leq, keys[0]);
    }
  }
}
