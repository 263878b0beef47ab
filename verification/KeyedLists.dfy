/** Lists compared by a key: the multiset of keys, what is left of a list after another one's
    keys are used up, and what a finer key says about a coarser one. */
module KeyedLists {
  import opened Sequences

  /** The keys of `s`, with their multiplicities. */
  function Bag<T, K>(s: seq<T>, key: T -> K): multiset<K> {
    multiset(Map(s, key))
  }

  lemma BagAppend<T, K(!new)>(a: seq<T>, b: seq<T>, key: T -> K)
    ensures Bag(a + b, key) == Bag(a, key) + Bag(b, key)
  {
    MapAppend(a, b, key);
  }

  lemma SnocBag<T, K(!new)>(s: seq<T>, x: T, key: T -> K)
    ensures Bag(s + [x], key) == Bag(s, key) + multiset{key(x)}
  {
    BagAppend(s, [x], key);
    assert Map([x], key) == [key(x)];
  }

  lemma BagSnoc<T, K(!new)>(s: seq<T>, key: T -> K)
    requires s != []
    ensures Bag(s, key) == Bag(s[..|s| - 1], key) + multiset{key(s[|s| - 1])}
  {
    assert s == s[..|s| - 1] + [s[|s| - 1]];
    SnocBag(s[..|s| - 1], s[|s| - 1], key);
  }

  lemma SingletonBags<T, K(!new)>(x: T, y: T, key: T -> K)
    ensures Bag([x], key) == Bag([y], key) <==> key(x) == key(y)
  {
    assert Map([x], key) == [key(x)] && Map([y], key) == [key(y)];
    assert key(x) in multiset{key(x)};
  }

  lemma BagSize<T, K(!new)>(s: seq<T>, key: T -> K)
    ensures |Bag(s, key)| == |s|
  {
  }

  lemma BagHolds<T, K(!new)>(s: seq<T>, key: T -> K)
    ensures forall k :: k in Bag(s, key) <==> exists i :: 0 <= i < |s| && key(s[i]) == k
  {
    forall k ensures k in Bag(s, key) <==> exists i :: 0 <= i < |s| && key(s[i]) == k {
      assert k in Bag(s, key) <==> k in Map(s, key);
      if k in Map(s, key) {
        var i :| 0 <= i < |s| && Map(s, key)[i] == k;
        assert key(s[i]) == k;
      }
      if i :| 0 <= i < |s| && key(s[i]) == k {
        assert Map(s, key)[i] == k;
      }
    }
  }

  // ----- what is left of a list, and what is used up

  /** `s` without the first `budget[k]` elements of each key `k`, in order. */
  function Residual<T, K(==)>(s: seq<T>, key: T -> K, budget: multiset<K>): (r: seq<T>) {
    if s == [] then []
    else
      var init, x := s[..|s| - 1], s[|s| - 1];
      var r := Residual(init, key, budget);
      if Bag(init, key)[key(x)] >= budget[key(x)] then r + [x] else r
  }

  /** The elements `Residual` drops. */
  function Matched<T, K(==)>(s: seq<T>, key: T -> K, budget: multiset<K>): (r: seq<T>) {
    if s == [] then []
    else
      var init, x := s[..|s| - 1], s[|s| - 1];
      var r := Matched(init, key, budget);
      if Bag(init, key)[key(x)] >= budget[key(x)] then r else r + [x]
  }

  /** The residual holds exactly the surplus of each key, and the matched part the rest. */
  lemma {:induction false} ResidualBag<T, K(!new)>(s: seq<T>, key: T -> K, budget: multiset<K>)
    ensures Bag(Residual(s, key, budget), key) == Bag(s, key) - budget
    ensures Bag(Matched(s, key, budget), key) == Bag(s, key) * budget
  {
    if s != [] {
      var init, x := s[..|s| - 1], s[|s| - 1];
      ResidualBag(init, key, budget);
      BagSnoc(s, key);
      if Bag(init, key)[key(x)] >= budget[key(x)] {
        SnocBag(Residual(init, key, budget), x, key);
      } else {
        SnocBag(Matched(init, key, budget), x, key);
      }
    }
  }

  lemma {:induction false} ResidualPartition<T, K(!new), J(!new)>(s: seq<T>, key: T -> K, budget: multiset<K>, other: T -> J)
    ensures Bag(s, other) == Bag(Matched(s, key, budget), other) + Bag(Residual(s, key, budget), other)
  {
    if s != [] {
      var init, x := s[..|s| - 1], s[|s| - 1];
      ResidualPartition(init, key, budget, other);
      BagSnoc(s, other);
      if Bag(init, key)[key(x)] >= budget[key(x)] {
        SnocBag(Residual(init, key, budget), x, other);
      } else {
        SnocBag(Matched(init, key, budget), x, other);
      }
    }
  }

  lemma {:induction false} ResidualSubset<T, K(!new)>(s: seq<T>, key: T -> K, budget: multiset<K>, x: T)
    requires x in Matched(s, key, budget) || x in Residual(s, key, budget)
    ensures x in s
  {
    var init := s[..|s| - 1];
    if x != s[|s| - 1] {
      ResidualSubset(init, key, budget, x);
      assert x in init;
    }
  }

  /** Element `i` is beyond the first `budget[k]` elements of its own key `k`. */
  predicate Kept<T, K(==)>(s: seq<T>, key: T -> K, budget: multiset<K>, i: nat)
    requires i < |s|
  {
    Bag(s[..i], key)[key(s[i])] >= budget[key(s[i])]
  }

  /** The kept indices, increasing. */
  function KeptIndices<T, K(==)>(s: seq<T>, key: T -> K, budget: multiset<K>, n: nat): (kept: seq<nat>)
    requires n <= |s|
    ensures forall a, b :: 0 <= a < b < |kept| ==> kept[a] < kept[b]
    ensures forall i :: i in kept <==> 0 <= i < n && Kept(s, key, budget, i)
  {
    if n == 0 then []
    else
      var kept := KeptIndices(s, key, budget, n - 1);
      assert forall a :: 0 <= a < |kept| ==> kept[a] in kept;
      if Kept(s, key, budget, n - 1) then kept + [n - 1] else kept
  }

  lemma {:induction false} KeptIndicesInit<T, K(!new)>(s: seq<T>, key: T -> K, budget: multiset<K>, m: nat, n: nat)
    requires n <= m <= |s|
    ensures KeptIndices(s[..m], key, budget, n) == KeptIndices(s, key, budget, n)
  {
    if n > 0 {
      KeptIndicesInit(s, key, budget, m, n - 1);
      assert s[..m][..n - 1] == s[..n - 1];
    }
  }

  /** The residual is an order-preserving subsequence: it holds the kept indices' elements and no other. */
  lemma {:induction false} ResidualIndices<T, K(!new)>(s: seq<T>, key: T -> K, budget: multiset<K>)
    ensures var kept := KeptIndices(s, key, budget, |s|);
            |Residual(s, key, budget)| == |kept| &&
            forall a :: 0 <= a < |kept| ==> kept[a] in kept && Residual(s, key, budget)[a] == s[kept[a]]
  {
    if s != [] {
      var n := |s| - 1;
      ResidualIndices(s[..n], key, budget);
      KeptIndicesInit(s, key, budget, n, n);
    }
  }

  /** The two residuals of a comparison: `|left| - |onlyLeft|` and `|right| - |onlyRight|` are both the
      number of matches, and no key is left over on both sides. */
  lemma ResidualConservation<T, K(!new)>(left: seq<T>, right: seq<T>, key: T -> K)
    ensures var onlyLeft, onlyRight := Residual(left, key, Bag(right, key)), Residual(right, key, Bag(left, key));
            && |left| - |onlyLeft| == |Bag(left, key) * Bag(right, key)| == |right| - |onlyRight|
            && Bag(onlyLeft, key) !! Bag(onlyRight, key)
  {
    var l, r := Bag(left, key), Bag(right, key);
    ResidualBag(left, key, r);
    ResidualBag(right, key, l);
    BagSize(left, key);
    BagSize(right, key);
    BagSize(Residual(left, key, r), key);
    BagSize(Residual(right, key, l), key);
    CommonAndSurplus(l, r);
  }

  /** A multiset is what it has in common with another one and what it has beyond it. */
  lemma CommonAndSurplus<K>(l: multiset<K>, r: multiset<K>)
    ensures |l| == |l * r| + |l - r| && |r| == |l * r| + |r - l|
  {
    assert l == (l - r) + (l * r) && r == (r - l) + (l * r);
  }

  // ----- the elements of one key

  /** The elements of `s` whose key is `k`, in order. */
  function At<T, K(==)>(s: seq<T>, key: T -> K, k: K): seq<T> {
    if s == [] then []
    else if key(s[|s| - 1]) == k then At(s[..|s| - 1], key, k) + [s[|s| - 1]]
    else At(s[..|s| - 1], key, k)
  }

  lemma {:induction false} AtSize<T, K(!new)>(s: seq<T>, key: T -> K, k: K)
    ensures |At(s, key, k)| == Bag(s, key)[k]
  {
    if s != [] {
      AtSize(s[..|s| - 1], key, k);
      BagSnoc(s, key);
    }
  }

  lemma {:induction false} AtHolds<T(!new), K(!new)>(s: seq<T>, key: T -> K, k: K)
    ensures forall x :: x in At(s, key, k) <==> x in s && key(x) == k
  {
    if s != [] {
      AtHolds(s[..|s| - 1], key, k);
      assert s == s[..|s| - 1] + [s[|s| - 1]];
    }
  }

  /** Within the elements of one key, a second key counts as the pair of both keys does in the whole list. */
  lemma {:induction false} AtBag<T, K(!new), J(!new)>(s: seq<T>, key: T -> K, sub: T -> J, both: T -> (K, J), k: K, j: J)
    requires forall i :: 0 <= i < |s| ==> both(s[i]) == (key(s[i]), sub(s[i]))
    ensures Bag(At(s, key, k), sub)[j] == Bag(s, both)[(k, j)]
  {
    if s != [] {
      var init, x := s[..|s| - 1], s[|s| - 1];
      AtBag(init, key, sub, both, k, j);
      BagSnoc(s, both);
      SnocBag(At(init, key, k), x, sub);
    }
  }

  lemma {:induction false} AtAppend<T, K(!new)>(s: seq<T>, t: seq<T>, key: T -> K, k: K)
    ensures At(s + t, key, k) == At(s, key, k) + At(t, key, k)
  {
    if t == [] {
      assert s + t == s;
    } else {
      assert (s + t)[..|s + t| - 1] == s + t[..|t| - 1];
      AtAppend(s, t[..|t| - 1], key, k);
    }
  }

  lemma AtSnoc<T, K(!new)>(s: seq<T>, x: T, key: T -> K, k: K)
    ensures At(s + [x], key, k) == if key(x) == k then At(s, key, k) + [x] else At(s, key, k)
  {
    assert (s + [x])[..|s|] == s;
  }

  /** All elements with key `k` are equal for the order. */
  ghost predicate Tied<T, K>(s: seq<T>, leq: (T, T) -> bool, key: T -> K, k: K) {
    forall x, y :: x in s && y in s && key(x) == k && key(y) == k ==> leq(x, y)
  }

  lemma {:induction false} InsertKeepsAt<T(!new), K(!new)>(s: seq<T>, x: T, leq: (T, T) -> bool, key: T -> K, k: K)
    requires Tied(s + [x], leq, key, k)
    ensures At(Insert(s, x, leq), key, k) == At(s + [x], key, k)
  {
    if s != [] && !leq(s[|s| - 1], x) {
      var init, last := s[..|s| - 1], s[|s| - 1];
      assert s == init + [last];
      assert forall y :: y in init + [x] ==> y in s + [x];
      InsertKeepsAt(init, x, leq, key, k);
      AtSnoc(Insert(init, x, leq), last, key, k);
      AtSnoc(init, x, key, k);
      AtSnoc(s, x, key, k);
      assert last in s + [x] && x in s + [x];
    }
  }

  /** Sorting is stable: elements that tie keep their order. */
  lemma {:induction false} SortKeepsAt<T(!new), K(!new)>(s: seq<T>, leq: (T, T) -> bool, key: T -> K, k: K)
    requires Tied(s, leq, key, k)
    ensures At(Sort(s, leq), key, k) == At(s, key, k)
  {
    if s != [] {
      var init, last := s[..|s| - 1], s[|s| - 1];
      assert s == init + [last];
      assert forall y :: y in init ==> y in s;
      SortKeepsAt(init, leq, key, k);
      SortElements(init, leq);
      InsertKeepsAt(Sort(init, leq), last, leq, key, k);
      AtSnoc(Sort(init, leq), last, key, k);
    }
  }

  /** How many elements of `s` have a key in `keys`, counted key by key. */
  function SizeOver<T, K(==)>(s: seq<T>, key: T -> K, keys: seq<K>): nat {
    if keys == [] then 0
    else SizeOver(s, key, keys[..|keys| - 1]) + |At(s, key, keys[|keys| - 1])|
  }

  lemma {:induction false} SizeOverSnoc<T, K(!new)>(s: seq<T>, x: T, key: T -> K, keys: seq<K>)
    requires NoDuplicates(keys)
    ensures SizeOver(s + [x], key, keys) == SizeOver(s, key, keys) + if key(x) in keys then 1 else 0
  {
    if keys != [] {
      var init, last := keys[..|keys| - 1], keys[|keys| - 1];
      SizeOverSnoc(s, x, key, init);
      assert (s + [x])[..|s|] == s;
      assert keys == init + [last] && last !in init;
    }
  }

  lemma {:induction false} SizeOverAll<T(!new), K(!new)>(s: seq<T>, key: T -> K, keys: seq<K>)
    requires NoDuplicates(keys) && forall x :: x in s ==> key(x) in keys
    ensures SizeOver(s, key, keys) == |s|
  {
    if s == [] {
      SizeOverNone(s, key, keys);
    } else {
      SizeOverAll(s[..|s| - 1], key, keys);
      SizeOverSnoc(s[..|s| - 1], s[|s| - 1], key, keys);
      assert s == s[..|s| - 1] + [s[|s| - 1]];
    }
  }

  lemma {:induction false} SizeOverNone<T, K>(s: seq<T>, key: T -> K, keys: seq<K>)
    requires s == []
    ensures SizeOver(s, key, keys) == 0
  {
    if keys != [] {
      SizeOverNone(s, key, keys[..|keys| - 1]);
    }
  }

  // ----- a list in two parts

  /** The keys of a list are those of the elements that pass a test and of those that do not. */
  lemma {:induction false} BagOfParts<T(!new), K(!new)>(s: seq<T>, keep: T -> bool, drop: T -> bool, key: T -> K)
    requires forall x :: x in s ==> drop(x) == !keep(x)
    ensures Bag(s, key) == Bag(Filter(s, keep), key) + Bag(Filter(s, drop), key)
  {
    if s != [] {
      var init, x := s[..|s| - 1], s[|s| - 1];
      BagOfParts(init, keep, drop, key);
      BagSnoc(s, key);
      SnocBag(Filter(init, keep), x, key);
      SnocBag(Filter(init, drop), x, key);
    }
  }

  /** The surplus of a sum is at most the sum of the surpluses, and exactly that when the parts share nothing. */
  lemma SurplusOfSum<K(!new)>(a: multiset<K>, b: multiset<K>, c: multiset<K>, d: multiset<K>)
    ensures |(a + b) - (c + d)| <= |a - c| + |b - d|
    ensures a + c !! b + d ==> |(a + b) - (c + d)| == |a - c| + |b - d|
  {
    SubBagSize((a + b) - (c + d), (a - c) + (b - d));
    if a + c !! b + d {
      forall k ensures ((a + b) - (c + d))[k] == ((a - c) + (b - d))[k] {
        assert k !in a + c || k !in b + d;
      }
      assert (a + b) - (c + d) == (a - c) + (b - d);
    }
  }

  lemma SubBagSize<K(!new)>(a: multiset<K>, b: multiset<K>)
    requires a <= b
    ensures |a| <= |b|
  {
    assert b == a + (b - a);
  }

  // ----- finer and coarser keys

  /** Elements of `s` that `fine` takes for equal are equal for `coarse` too. */
  ghost predicate Determines<T, K, J>(s: seq<T>, fine: T -> K, coarse: T -> J) {
    forall i, j :: 0 <= i < |s| && 0 <= j < |s| && fine(s[i]) == fine(s[j]) ==> coarse(s[i]) == coarse(s[j])
  }

  lemma DeterminesSubset<T, K(!new), J(!new)>(s: seq<T>, t: seq<T>, fine: T -> K, coarse: T -> J)
    requires Determines(t, fine, coarse)
    requires forall x :: x in s ==> x in t
    ensures Determines(s, fine, coarse)
  {
    forall i, j | 0 <= i < |s| && 0 <= j < |s| && fine(s[i]) == fine(s[j]) ensures coarse(s[i]) == coarse(s[j]) {
      assert s[i] in t && s[j] in t;
      var a :| 0 <= a < |t| && t[a] == s[i];
      var b :| 0 <= b < |t| && t[b] == s[j];
    }
  }

  lemma BagRemove<T, K(!new)>(s: seq<T>, i: nat, key: T -> K)
    requires i < |s|
    ensures Bag(s, key) == Bag(s[..i] + s[i + 1..], key) + multiset{key(s[i])}
  {
    assert s == s[..i] + [s[i]] + s[i + 1..];
    BagAppend(s[..i] + [s[i]], s[i + 1..], key);
    BagAppend(s[..i], [s[i]], key);
    BagAppend(s[..i], s[i + 1..], key);
    assert Map([s[i]], key) == [key(s[i])];
  }

  /** Somewhere in a list with the same keys there is a partner for the last element. */
  lemma LastPartner<T, K(!new)>(s: seq<T>, t: seq<T>, key: T -> K) returns (i: nat)
    requires s != [] && Bag(s, key) == Bag(t, key)
    ensures i < |t| && key(t[i]) == key(s[|s| - 1])
    ensures Bag(s[..|s| - 1], key) == Bag(t[..i] + t[i + 1..], key)
  {
    var k := key(s[|s| - 1]);
    BagSnoc(s, key);
    assert k in Bag(t, key);
    BagHolds(t, key);
    i :| 0 <= i < |t| && key(t[i]) == k;
    BagRemove(t, i, key);
    assert Bag(s[..|s| - 1], key) == Bag(s, key) - multiset{k};
  }

  /** The projection lemma: equal multisets of fine keys have equal multisets of coarse keys. */
  lemma {:induction false} Projection<T, K(!new), J(!new)>(s: seq<T>, t: seq<T>, fine: T -> K, coarse: T -> J)
    requires Determines(s + t, fine, coarse)
    requires Bag(s, fine) == Bag(t, fine)
    ensures Bag(s, coarse) == Bag(t, coarse)
    decreases |s|
  {
    if s == [] {
      BagSize(s, fine);
      BagSize(t, fine);
    } else {
      var i := LastPartner(s, t, fine);
      var init, rest := s[..|s| - 1], t[..i] + t[i + 1..];
      assert coarse(s[|s| - 1]) == coarse(t[i]) by {
        assert (s + t)[|s| - 1] == s[|s| - 1] && (s + t)[|s| + i] == t[i];
      }
      assert Bag(init, coarse) == Bag(rest, coarse) by {
        DeterminesSubset(init + rest, s + t, fine, coarse);
        Projection(init, rest, fine, coarse);
      }
      BagSnoc(s, coarse);
      BagRemove(t, i, coarse);
    }
  }

  lemma CancelCommon<K(!new)>(common: multiset<K>, a: multiset<K>, b: multiset<K>)
    ensures (common + a) - (common + b) == a - b <= a
    ensures |a - b| <= |a|
  {
    assert a == (a - b) + (a * b);
  }

  /** What the coarse keys leave over is found among the coarse keys of what the fine keys leave over. */
  lemma CoarseSurplus<T(!new), K(!new), J(!new)>(left: seq<T>, right: seq<T>, fine: T -> K, coarse: T -> J)
    requires Determines(left + right, fine, coarse)
    ensures var a := Bag(Residual(left, fine, Bag(right, fine)), coarse);
            var b := Bag(Residual(right, fine, Bag(left, fine)), coarse);
            Bag(left, coarse) - Bag(right, coarse) == a - b <= a
    ensures |Bag(left, coarse) - Bag(right, coarse)| <= |Bag(left, fine) - Bag(right, fine)|
  {
    var l, r := Bag(left, fine), Bag(right, fine);
    var matchedLeft, matchedRight := Matched(left, fine, r), Matched(right, fine, l);
    var a, b := Bag(Residual(left, fine, r), coarse), Bag(Residual(right, fine, l), coarse);
    assert Bag(left, coarse) == Bag(matchedLeft, coarse) + a && Bag(right, coarse) == Bag(matchedRight, coarse) + b by {
      ResidualPartition(left, fine, r, coarse);
      ResidualPartition(right, fine, l, coarse);
    }
    assert Bag(matchedLeft, coarse) == Bag(matchedRight, coarse) by {
      MatchedAgree(left, right, fine, coarse);
    }
    CancelCommon(Bag(matchedLeft, coarse), a, b);
    assert |a| == |l - r| by {
      ResidualBag(left, fine, r);
      BagSize(Residual(left, fine, r), coarse);
      BagSize(Residual(left, fine, r), fine);
    }
  }

  lemma MatchedAgree<T(!new), K(!new), J(!new)>(left: seq<T>, right: seq<T>, fine: T -> K, coarse: T -> J)
    requires Determines(left + right, fine, coarse)
    ensures Bag(Matched(left, fine, Bag(right, fine)), coarse) == Bag(Matched(right, fine, Bag(left, fine)), coarse)
  {
    var l, r := Bag(left, fine), Bag(right, fine);
    var a, b := Matched(left, fine, r), Matched(right, fine, l);
    assert Bag(a, fine) == Bag(b, fine) by {
      ResidualBag(left, fine, r);
      ResidualBag(right, fine, l);
      assert l * r == r * l;
    }
    assert Determines(a + b, fine, coarse) by {
      forall x | x in a + b ensures x in left + right {
        if x in a {
          ResidualSubset(left, fine, r, x);
        } else {
          ResidualSubset(right, fine, l, x);
        }
      }
      DeterminesSubset(a + b, left + right, fine, coarse);
    }
    Projection(a, b, fine, coarse);
  }

  /** Parity under a fine key is parity under every coarser one. */
  lemma ParityCoarsens<T, K(!new), J(!new)>(left: seq<T>, right: seq<T>, fine: T -> K, coarse: T -> J)
    requires Determines(left + right, fine, coarse)
    ensures Bag(left, fine) == Bag(right, fine) ==> Bag(left, coarse) == Bag(right, coarse)
  {
    if Bag(left, fine) == Bag(right, fine) {
      Projection(left, right, fine, coarse);
    }
  }

  /** Whether two multisets differ, told from their two differences. */
  lemma NoSurplusIsEqual<K(!new)>(l: multiset<K>, r: multiset<K>)
    ensures l == r <==> |l - r| == 0 && |r - l| == 0
  {
    if |l - r| == 0 && |r - l| == 0 {
      assert l - r == multiset{} && r - l == multiset{};
      forall k ensures l[k] == r[k] {
        assert (l - r)[k] == 0 && (r - l)[k] == 0;
      }
    }
  }
}
