/** scripts/oracle/compare-tsc.ts: the comparison of two diagnostic lists under one key. */
module Oracle {
  import opened Sequences
  import opened KeyedLists
  import opened Tallies
  import opened Diagnostics

  datatype Bucket<K> = Bucket(key: K, typescript: nat, surgeTs: nat)

  datatype Buckets<K> = Buckets(
    matches: seq<Bucket<K>>,
    onlyTypeScript: seq<Bucket<K>>,
    onlySurgeTs: seq<Bucket<K>>
  )

  datatype Verdict = Match | OnlyTypeScript | OnlySurgeTs

  function VerdictOf(left: nat, right: nat): Verdict {
    if left == right then Match else if left > right then OnlyTypeScript else OnlySurgeTs
  }

  /** `b` with the bucket of one more key. */
  function Place<K>(b: Buckets<K>, k: K, left: nat, right: nat): Buckets<K> {
    match VerdictOf(left, right)
    case Match => b.(matches := b.matches + [Bucket(k, left, right)])
    case OnlyTypeScript => b.(onlyTypeScript := b.onlyTypeScript + [Bucket(k, left, right)])
    case OnlySurgeTs => b.(onlySurgeTs := b.onlySurgeTs + [Bucket(k, left, right)])
  }

  /** The buckets of `keys`, in that order. */
  function BucketsOf<K(==)>(keys: seq<K>, left: multiset<K>, right: multiset<K>): Buckets<K> {
    if keys == [] then Buckets([], [], [])
    else
      var k := keys[|keys| - 1];
      Place(BucketsOf(keys[..|keys| - 1], left, right), k, left[k], right[k])
  }

  /** Every key of the two lists, once, sorted. */
  function SortedKeys<K(==)>(left: seq<Diagnostic>, right: seq<Diagnostic>, key: Diagnostic -> K,
                             leq: (K, K) -> bool): seq<K> {
    Sort(Distinct(Distinct(Map(left, key)) + Distinct(Map(right, key))), leq)
  }

  function BucketsFor<K(==)>(left: seq<Diagnostic>, right: seq<Diagnostic>, key: Diagnostic -> K,
                             leq: (K, K) -> bool): Buckets<K> {
    BucketsOf(SortedKeys(left, right, key, leq), Bag(left, key), Bag(right, key))
  }

  lemma BucketsOfNext<K>(keys: seq<K>, i: int, left: multiset<K>, right: multiset<K>)
    requires 0 <= i < |keys|
    ensures BucketsOf(keys[..i + 1], left, right)
         == Place(BucketsOf(keys[..i], left, right), keys[i], left[keys[i]], right[keys[i]])
  {
    assert keys[..i + 1][..i] == keys[..i];
  }

  /** compareBuckets. `leq` is the collation `localeCompare` sorts by. */
  method CompareBuckets<K(==, !new)>(left: seq<Diagnostic>, right: seq<Diagnostic>, key: Diagnostic -> K,
                               leq: (K, K) -> bool)
    returns (result: Buckets<K>)
    ensures result == BucketsFor(left, right, key, leq)
  {
    var leftCounts := CountBy(left, key);
    var rightCounts := CountBy(right, key);
    var keys := Sort(Distinct(leftCounts.order + rightCounts.order), leq);
    SortedKeysHold(left, right, key, leq);
    result := FillBuckets(keys, leftCounts.count, rightCounts.count, Bag(left, key), Bag(right, key));
  }

  /** The loop of compareBuckets. */
  method FillBuckets<K(==, !new)>(keys: seq<K>, leftCounts: map<K, nat>, rightCounts: map<K, nat>,
                                  ghost left: multiset<K>, ghost right: multiset<K>)
    returns (result: Buckets<K>)
    requires forall k :: Get(leftCounts, k) == left[k]
    requires forall k :: Get(rightCounts, k) == right[k]
    requires forall k :: k in keys ==> k in left + right
    ensures result == BucketsOf(keys, left, right)
  {
    result := Buckets([], [], []);
    for i := 0 to |keys|
      invariant result == BucketsOf(keys[..i], left, right)
    {
      BucketsOfNext(keys, i, left, right);
      assert keys[i] in keys && left[keys[i]] + right[keys[i]] > 0;
      result := AddBucket(result, keys[i], Get(leftCounts, keys[i]), Get(rightCounts, keys[i]));
    }
    assert keys[..|keys|] == keys;
  }

  /** The loop body of compareBuckets. */
  method AddBucket<K>(b: Buckets<K>, key: K, leftCount: nat, rightCount: nat) returns (result: Buckets<K>)
    ensures leftCount + rightCount > 0 ==> result == Place(b, key, leftCount, rightCount)
    ensures leftCount + rightCount == 0 ==> result == b
  {
    result := b;
    if leftCount == rightCount {
      if leftCount > 0 {
        result := b.(matches := b.matches + [Bucket(key, leftCount, rightCount)]);
      }
      return;
    }
    if leftCount > 0 && rightCount == 0 {
      result := b.(onlyTypeScript := b.onlyTypeScript + [Bucket(key, leftCount, 0)]);
      return;
    }
    if rightCount > 0 && leftCount == 0 {
      result := b.(onlySurgeTs := b.onlySurgeTs + [Bucket(key, 0, rightCount)]);
      return;
    }
    if leftCount > rightCount {
      result := b.(onlyTypeScript := b.onlyTypeScript + [Bucket(key, leftCount, rightCount)]);
    } else {
      result := b.(onlySurgeTs := b.onlySurgeTs + [Bucket(key, leftCount, rightCount)]);
    }
  }

  /** subtractDiagnosticsByKey. */
  method SubtractDiagnosticsByKey<K(==, !new)>(left: seq<Diagnostic>, right: seq<Diagnostic>, key: Diagnostic -> K)
    returns (onlyLeft: seq<Diagnostic>, onlyRight: seq<Diagnostic>)
    ensures onlyLeft == Residual(left, key, Bag(right, key))
    ensures onlyRight == Residual(right, key, Bag(left, key))
    ensures Bag(onlyLeft, key) == Bag(left, key) - Bag(right, key)
    ensures Bag(onlyRight, key) == Bag(right, key) - Bag(left, key)
  {
    var leftCounts := CountBy(left, key);
    var rightCounts := CountBy(right, key);
    onlyLeft := Subtract(left, key, rightCounts.count, Bag(right, key));
    onlyRight := Subtract(right, key, leftCounts.count, Bag(left, key));
    ResidualBag(left, key, Bag(right, key));
    ResidualBag(right, key, Bag(left, key));
  }

  /** One of the two counting-down loops of subtractDiagnosticsByKey. */
  method Subtract<T, K(==, !new)>(s: seq<T>, key: T -> K, counts: map<K, nat>, ghost budget: multiset<K>)
    returns (rest: seq<T>)
    requires forall k :: Get(counts, k) == budget[k]
    ensures rest == Residual(s, key, budget)
  {
    ghost var keys := Map(s, key);
    var remaining := counts;
    rest := [];
    for i := 0 to |s|
      invariant remaining == Consume(counts, keys[..i])
      invariant rest == Residual(s[..i], key, budget)
    {
      var k := key(s[i]);
      ConsumeNext(s, i, key, counts, budget);
      var left := Get(remaining, k);
      if left > 0 {
        remaining := remaining[k := left - 1];
      } else {
        rest := rest + [s[i]];
      }
    }
    assert s[..|s|] == s;
  }

  // ----- counts by key

  datatype CountEntry<K> = CountEntry(key: K, count: nat)

  function EntryKey<K>(e: CountEntry<K>): K { e.key }

  function EntryIn<K>(bag: multiset<K>): K -> CountEntry<K> { (k: K) => CountEntry(k, bag[k]) }

  function EntriesOf<K(==)>(s: seq<Diagnostic>, key: Diagnostic -> K, leq: (K, K) -> bool): seq<CountEntry<K>> {
    Sort(Map(Distinct(Map(s, key)), EntryIn(Bag(s, key))), By(EntryKey, leq))
  }

  /** countEntriesFromCounts of countDiagnostics. */
  method CountEntries<K(==, !new)>(s: seq<Diagnostic>, key: Diagnostic -> K, leq: (K, K) -> bool)
    returns (entries: seq<CountEntry<K>>)
    ensures entries == EntriesOf(s, key, leq)
  {
    var counts := CountBy(s, key);
    var order := counts.order;
    entries := seq(|order|, i requires 0 <= i < |order| => CountEntry(order[i], Get(counts.count, order[i])));
    assert entries == Map(order, EntryIn(Bag(s, key)));
    entries := Sort(entries, By(EntryKey, leq));
  }

  /** Theorem: the entries are exactly the occurring keys with their multiplicities, in collation order. */
  lemma EntriesHold<K(!new)>(s: seq<Diagnostic>, key: Diagnostic -> K, leq: (K, K) -> bool)
    ensures forall e :: e in EntriesOf(s, key, leq) <==> e.count == Bag(s, key)[e.key] && e.count > 0
    ensures TotalPreorder(leq) ==> SortedBy(EntriesOf(s, key, leq), By(EntryKey, leq))
  {
    var keys := Distinct(Map(s, key));
    var entries := Map(keys, EntryIn(Bag(s, key)));
    SortElements(entries, By(EntryKey, leq));
    MapHolds(keys, EntryIn(Bag(s, key)));
    DistinctHolds(Map(s, key));
    forall e ensures e in entries <==> e.count == Bag(s, key)[e.key] && e.count > 0 {
      assert e.key in keys <==> e.key in Bag(s, key);
      assert EntryIn(Bag(s, key))(e.key) == CountEntry(e.key, Bag(s, key)[e.key]);
    }
    if TotalPreorder(leq) {
      ByTotal(EntryKey, leq);
      SortSorted(entries, By(EntryKey, leq));
    }
  }

  datatype FingerprintCount = FingerprintCount(fingerprint: Fingerprint, count: nat)

  function FingerprintGroups(s: seq<Diagnostic>, leq: (FingerprintCount, FingerprintCount) -> bool)
    : seq<FingerprintCount>
  {
    var bag := Bag(s, KeyByFingerprint);
    Sort(Map(Distinct(Map(s, KeyByFingerprint)), (f: Fingerprint) => FingerprintCount(f, bag[f])), leq)
  }

  /** groupDiagnosticsByFingerprint. */
  method GroupDiagnosticsByFingerprint(s: seq<Diagnostic>, leq: (FingerprintCount, FingerprintCount) -> bool)
    returns (groups: seq<FingerprintCount>)
    ensures groups == FingerprintGroups(s, leq)
  {
    ghost var keys := Map(s, KeyByFingerprint);
    var order: seq<Fingerprint>, count: map<Fingerprint, nat> := [], map[];
    for i := 0 to |s|
      invariant Tally(order, count) == TallyFor(keys[..i])
    {
      var f := KeyByFingerprint(s[i]);
      assert keys[..i + 1][..i] == keys[..i];
      if f in count {
        count := count[f := count[f] + 1];
      } else {
        order := order + [f];
        count := count[f := 1];
      }
    }
    assert keys[..|s|] == keys;
    TallyOrder(keys);
    forall f ensures Get(count, f) == Bag(s, KeyByFingerprint)[f] {
      TallyCount(keys, f);
    }
    groups := Sort(seq(|order|, i requires 0 <= i < |order| => FingerprintCount(order[i], Get(count, order[i]))), leq);
    ghost var bag := Bag(s, KeyByFingerprint);
    assert Map(order, (f: Fingerprint) => FingerprintCount(f, bag[f]))
        == seq(|order|, i requires 0 <= i < |order| => FingerprintCount(order[i], Get(count, order[i])));
  }

  lemma MapHolds<T(!new), R(!new)>(s: seq<T>, f: T -> R)
    ensures forall r :: r in Map(s, f) <==> exists x :: x in s && f(x) == r
  {
    forall r ensures r in Map(s, f) <==> exists x :: x in s && f(x) == r {
      if r in Map(s, f) {
        var i :| 0 <= i < |s| && Map(s, f)[i] == r;
        assert s[i] in s && f(s[i]) == r;
      }
      if x :| x in s && f(x) == r {
        var i :| 0 <= i < |s| && s[i] == x;
        assert Map(s, f)[i] == r;
      }
    }
  }

  /** The groups hold exactly the fingerprints of the list, each with its multiplicity. */
  lemma FingerprintGroupsHold(s: seq<Diagnostic>, leq: (FingerprintCount, FingerprintCount) -> bool, g: FingerprintCount)
    ensures g in FingerprintGroups(s, leq)
       <==> (exists d :: d in s && KeyByFingerprint(d) == g.fingerprint) && g.count == Bag(s, KeyByFingerprint)[g.fingerprint]
  {
    var bag := Bag(s, KeyByFingerprint);
    var entry := (f: Fingerprint) => FingerprintCount(f, bag[f]);
    SortElements(Map(Distinct(Map(s, KeyByFingerprint)), entry), leq);
    MapHolds(Distinct(Map(s, KeyByFingerprint)), entry);
    DistinctHolds(Map(s, KeyByFingerprint));
    MapHolds(s, KeyByFingerprint);
    assert entry(g.fingerprint) == FingerprintCount(g.fingerprint, bag[g.fingerprint]);
  }

  // ----- what the buckets say

  ghost predicate CountsOf<K(!new)>(b: Bucket<K>, keys: seq<K>, l: multiset<K>, r: multiset<K>) {
    b.key in keys && b.typescript == l[b.key] && b.surgeTs == r[b.key]
  }

  lemma {:induction false} BucketsOfHold<K(!new)>(keys: seq<K>, l: multiset<K>, r: multiset<K>)
    ensures var bs := BucketsOf(keys, l, r);
            && (forall b :: b in bs.matches <==> CountsOf(b, keys, l, r) && b.typescript == b.surgeTs)
            && (forall b :: b in bs.onlyTypeScript <==> CountsOf(b, keys, l, r) && b.typescript > b.surgeTs)
            && (forall b :: b in bs.onlySurgeTs <==> CountsOf(b, keys, l, r) && b.typescript < b.surgeTs)
  {
    if keys != [] {
      BucketsOfHold(keys[..|keys| - 1], l, r);
      assert keys == keys[..|keys| - 1] + [keys[|keys| - 1]];
    }
  }

  lemma SortedKeysHold<K(!new)>(left: seq<Diagnostic>, right: seq<Diagnostic>, key: Diagnostic -> K, leq: (K, K) -> bool)
    ensures forall k :: k in SortedKeys(left, right, key, leq) <==> k in Bag(left, key) + Bag(right, key)
    ensures NoDuplicates(SortedKeys(left, right, key, leq))
  {
    var keys := Distinct(Distinct(Map(left, key)) + Distinct(Map(right, key)));
    SortElements(keys, leq);
    DistinctHolds(Map(left, key));
    DistinctHolds(Map(right, key));
    DistinctHolds(Distinct(Map(left, key)) + Distinct(Map(right, key)));
    SortNoDuplicates(keys, leq);
  }

  function KeyOf<K>(b: Bucket<K>): K { b.key }

  /** Buckets of earlier keys, and then one of a later key. */
  lemma BucketSnoc<K(!new)>(buckets: seq<Bucket<K>>, keys: seq<K>, b: Bucket<K>, leq: (K, K) -> bool)
    requires SortedBy(buckets, By(KeyOf, leq)) && SortedBy(keys + [b.key], leq)
    requires forall c :: c in buckets ==> c.key in keys
    ensures SortedBy(buckets + [b], By(KeyOf, leq))
  {
    forall c | c in buckets ensures By(KeyOf, leq)(c, b) {
      var i :| 0 <= i < |keys| && keys[i] == c.key;
      assert (keys + [b.key])[i] == c.key && (keys + [b.key])[|keys|] == b.key;
      assert leq(KeyOf(c), KeyOf(b));
    }
    SortedSnoc(buckets, b, By(KeyOf, leq));
  }

  ghost predicate InOrder<K(!new)>(bs: Buckets<K>, leq: (K, K) -> bool) {
    && SortedBy(bs.matches, By(KeyOf, leq))
    && SortedBy(bs.onlyTypeScript, By(KeyOf, leq))
    && SortedBy(bs.onlySurgeTs, By(KeyOf, leq))
  }

  lemma {:induction false} BucketsInOrder<K(!new)>(keys: seq<K>, l: multiset<K>, r: multiset<K>, leq: (K, K) -> bool)
    requires SortedBy(keys, leq)
    ensures InOrder(BucketsOf(keys, l, r), leq)
  {
    if keys != [] {
      var init, k := keys[..|keys| - 1], keys[|keys| - 1];
      assert keys == init + [k];
      BucketsInOrder(init, l, r, leq);
      BucketsOfHold(init, l, r);
      var before, b := BucketsOf(init, l, r), Bucket(k, l[k], r[k]);
      match VerdictOf(l[k], r[k]) {
        case Match => BucketSnoc(before.matches, init, b, leq);
        case OnlyTypeScript => BucketSnoc(before.onlyTypeScript, init, b, leq);
        case OnlySurgeTs => BucketSnoc(before.onlySurgeTs, init, b, leq);
      }
    }
  }

  /** Theorem: all three bucket lists stand in collation order. */
  lemma BucketsSorted<K(!new)>(left: seq<Diagnostic>, right: seq<Diagnostic>, key: Diagnostic -> K, leq: (K, K) -> bool)
    requires TotalPreorder(leq)
    ensures InOrder(BucketsFor(left, right, key, leq), leq)
  {
    SortSorted(Distinct(Distinct(Map(left, key)) + Distinct(Map(right, key))), leq);
    BucketsInOrder(SortedKeys(left, right, key, leq), Bag(left, key), Bag(right, key), leq);
  }

  /** sumBucketSurplus of the two lists of one-sided buckets. */
  function Surplus<K>(buckets: seq<Bucket<K>>, pick: Bucket<K> -> int): int {
    if buckets == [] then 0
    else Surplus(buckets[..|buckets| - 1], pick) + Max(0, pick(buckets[|buckets| - 1]))
  }

  function TypeScriptExcess<K>(b: Bucket<K>): int { b.typescript - b.surgeTs }

  function SurgeTsExcess<K>(b: Bucket<K>): int { b.surgeTs - b.typescript }

  lemma {:induction false} BucketsOfSame<K(!new)>(keys: seq<K>, l: multiset<K>, l': multiset<K>, r: multiset<K>, r': multiset<K>)
    requires forall k :: k in keys ==> l[k] == l'[k] && r[k] == r'[k]
    ensures BucketsOf(keys, l, r) == BucketsOf(keys, l', r')
  {
    if keys != [] {
      BucketsOfSame(keys[..|keys| - 1], l, l', r, r');
    }
  }

  lemma DifferenceWithout<K(!new)>(l: multiset<K>, r: multiset<K>, k: K)
    ensures |l - r| == |l[k := 0] - r[k := 0]| + Excess(l[k], r[k])
  {
    assert l[k := 0] - r[k := 0] == (l - r)[k := 0];
  }

  lemma PlaceSurplus<K(!new)>(b: Buckets<K>, k: K, l: nat, r: nat)
    ensures Surplus(Place(b, k, l, r).onlyTypeScript, TypeScriptExcess) == Surplus(b.onlyTypeScript, TypeScriptExcess) + Excess(l, r)
    ensures Surplus(Place(b, k, l, r).onlySurgeTs, SurgeTsExcess) == Surplus(b.onlySurgeTs, SurgeTsExcess) + Excess(r, l)
  {
    var p := Place(b, k, l, r);
    if l > r {
      assert p.onlyTypeScript[..|b.onlyTypeScript|] == b.onlyTypeScript;
    } else if r > l {
      assert p.onlySurgeTs[..|b.onlySurgeTs|] == b.onlySurgeTs;
    }
  }

  /** Over keys that cover both sides, the surplus of the one-sided buckets is the size of the multiset difference. */
  lemma {:induction false} SurplusOfBuckets<K(!new)>(keys: seq<K>, l: multiset<K>, r: multiset<K>)
    requires NoDuplicates(keys) && forall k :: k in l + r ==> k in keys
    ensures Surplus(BucketsOf(keys, l, r).onlyTypeScript, TypeScriptExcess) == |l - r|
    ensures Surplus(BucketsOf(keys, l, r).onlySurgeTs, SurgeTsExcess) == |r - l|
  {
    if keys == [] {
      assert l - r == multiset{} && r - l == multiset{};
    } else {
      var init, k := keys[..|keys| - 1], keys[|keys| - 1];
      assert keys == init + [k];
      var l', r' := l[k := 0], r[k := 0];
      forall k' | k' in l' + r' ensures k' in init {
        assert k' in l + r && k' != k;
      }
      SurplusOfBuckets(init, l', r');
      BucketsOfSame(init, l, l', r, r');
      PlaceSurplus(BucketsOf(init, l, r), k, l[k], r[k]);
      DifferenceWithout(l, r, k);
      DifferenceWithout(r, l, k);
    }
  }

  /** Theorem: the bucket surpluses, the residual lengths and the multiset differences are the same numbers,
      and both lists have the same number of matched diagnostics. */
  lemma AccountingsAgree<K(!new)>(left: seq<Diagnostic>, right: seq<Diagnostic>, key: Diagnostic -> K, leq: (K, K) -> bool)
    ensures var b := BucketsFor(left, right, key, leq);
            var onlyLeft, onlyRight := Residual(left, key, Bag(right, key)), Residual(right, key, Bag(left, key));
            && Surplus(b.onlyTypeScript, TypeScriptExcess) == |onlyLeft| == |Bag(left, key) - Bag(right, key)|
            && Surplus(b.onlySurgeTs, SurgeTsExcess) == |onlyRight| == |Bag(right, key) - Bag(left, key)|
            && |left| - Surplus(b.onlyTypeScript, TypeScriptExcess) == |right| - Surplus(b.onlySurgeTs, SurgeTsExcess)
  {
    SortedKeysHold(left, right, key, leq);
    SurplusOfBuckets(SortedKeys(left, right, key, leq), Bag(left, key), Bag(right, key));
    ResidualBag(left, key, Bag(right, key));
    ResidualBag(right, key, Bag(left, key));
    BagSize(Residual(left, key, Bag(right, key)), key);
    BagSize(Residual(right, key, Bag(left, key)), key);
    ResidualConservation(left, right, key);
  }

  /** Theorem: the two one-sided bucket lists are both empty exactly when the multisets of keys are equal. */
  lemma BucketParity<K(!new)>(left: seq<Diagnostic>, right: seq<Diagnostic>, key: Diagnostic -> K, leq: (K, K) -> bool)
    ensures var b := BucketsFor(left, right, key, leq);
            (b.onlyTypeScript == [] && b.onlySurgeTs == []) <==> Bag(left, key) == Bag(right, key)
  {
    var b := BucketsFor(left, right, key, leq);
    AccountingsAgree(left, right, key, leq);
    NoSurplusIsEqual(Bag(left, key), Bag(right, key));
    BucketsOfHold(SortedKeys(left, right, key, leq), Bag(left, key), Bag(right, key));
    SurplusPositive(b.onlyTypeScript, TypeScriptExcess);
    SurplusPositive(b.onlySurgeTs, SurgeTsExcess);
  }

  /** Buckets that all have an excess add up to a surplus. */
  lemma {:induction false} SurplusPositive<K(!new)>(buckets: seq<Bucket<K>>, pick: Bucket<K> -> int)
    requires forall b :: b in buckets ==> pick(b) > 0
    ensures Surplus(buckets, pick) >= |buckets|
  {
    if buckets != [] {
      SurplusPositive(buckets[..|buckets| - 1], pick);
      assert buckets[|buckets| - 1] in buckets;
    }
  }

  /** The match buckets are the keys with equal counts that occur at all. */
  lemma BucketMatches<K(!new)>(left: seq<Diagnostic>, right: seq<Diagnostic>, key: Diagnostic -> K, leq: (K, K) -> bool)
    ensures forall b :: b in BucketsFor(left, right, key, leq).matches
                   <==> b.typescript == b.surgeTs == Bag(left, key)[b.key] == Bag(right, key)[b.key] && b.typescript > 0
  {
    SortedKeysHold(left, right, key, leq);
    BucketsOfHold(SortedKeys(left, right, key, leq), Bag(left, key), Bag(right, key));
  }
}
