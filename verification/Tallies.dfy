/** Counting by key: a JavaScript `Map<K, number>` with its insertion order. */
module Tallies {
  import opened Sequences
  import opened KeyedLists

  datatype Tally<K> = Tally(order: seq<K>, count: map<K, nat>)

  /** `counts.get(key) ?? 0`. */
  function Get<K(==)>(count: map<K, nat>, k: K): nat {
    if k in count then count[k] else 0
  }

  /** The tally of `keys`, which iterates in order of first occurrence. */
  function TallyFor<K(==)>(keys: seq<K>): Tally<K> {
    if keys == [] then Tally([], map[]) else Add(TallyFor(keys[..|keys| - 1]), keys[|keys| - 1])
  }

  function Add<K(==)>(t: Tally<K>, k: K): Tally<K> {
    Tally(if k in t.count then t.order else t.order + [k], t.count[k := Get(t.count, k) + 1])
  }

  lemma {:induction false} TallyCount<K(!new)>(keys: seq<K>, k: K)
    ensures Get(TallyFor(keys).count, k) == multiset(keys)[k]
    ensures k in TallyFor(keys).count <==> k in keys
  {
    if keys != [] {
      TallyCount(keys[..|keys| - 1], k);
      assert keys == keys[..|keys| - 1] + [keys[|keys| - 1]];
    }
  }

  lemma {:induction false} TallyOrder<K(!new)>(keys: seq<K>)
    ensures TallyFor(keys).order == Distinct(keys)
  {
    if keys != [] {
      var init, last := keys[..|keys| - 1], keys[|keys| - 1];
      TallyOrder(init);
      TallyCount(init, last);
      DistinctHolds(init);
    }
  }

  /** countDiagnostics and toMultiset. */
  method CountBy<T, K(==, !new)>(s: seq<T>, key: T -> K) returns (t: Tally<K>)
    ensures t == TallyFor(Map(s, key))
    ensures t.order == Distinct(Map(s, key))
    ensures forall k :: Get(t.count, k) == Bag(s, key)[k]
  {
    ghost var keys := Map(s, key);
    t := Tally([], map[]);
    for i := 0 to |s|
      invariant t == TallyFor(keys[..i])
    {
      var k := key(s[i]);
      assert keys[..i + 1][..i] == keys[..i];
      t := Tally(if k in t.count then t.order else t.order + [k], t.count[k := Get(t.count, k) + 1]);
    }
    assert keys[..|s|] == keys;
    TallyOrder(keys);
    forall k ensures Get(t.count, k) == Bag(s, key)[k] {
      TallyCount(keys, k);
    }
  }

  /** The counts left after taking away one for each of `keys` that is still counted. */
  function Consume<K(==)>(counts: map<K, nat>, keys: seq<K>): map<K, nat> {
    if keys == [] then counts
    else
      var before, k := Consume(counts, keys[..|keys| - 1]), keys[|keys| - 1];
      if Get(before, k) > 0 then before[k := Get(before, k) - 1] else before
  }

  lemma {:induction false} ConsumeCount<K(!new)>(counts: map<K, nat>, keys: seq<K>, k: K)
    ensures Get(Consume(counts, keys), k) == Excess(Get(counts, k), multiset(keys)[k])
  {
    if keys != [] {
      ConsumeCount(counts, keys[..|keys| - 1], k);
      assert keys == keys[..|keys| - 1] + [keys[|keys| - 1]];
    }
  }

  /** One round of a counting-down loop: the element is matched if its key is still counted, and left over if not. */
  lemma ConsumeNext<T, K(!new)>(s: seq<T>, i: nat, key: T -> K, counts: map<K, nat>, budget: multiset<K>)
    requires i < |s| && Get(counts, key(s[i])) == budget[key(s[i])]
    ensures var k, keys := key(s[i]), Map(s, key);
            var before, after := Consume(counts, keys[..i]), Consume(counts, keys[..i + 1]);
            if Get(before, k) > 0 then
              && after == before[k := Get(before, k) - 1]
              && Matched(s[..i + 1], key, budget) == Matched(s[..i], key, budget) + [s[i]]
              && Residual(s[..i + 1], key, budget) == Residual(s[..i], key, budget)
            else
              && after == before
              && Matched(s[..i + 1], key, budget) == Matched(s[..i], key, budget)
              && Residual(s[..i + 1], key, budget) == Residual(s[..i], key, budget) + [s[i]]
  {
    var keys := Map(s, key);
    assert s[..i + 1][..i] == s[..i] && keys[..i + 1][..i] == keys[..i] && keys[..i] == Map(s[..i], key);
    ConsumeCount(counts, keys[..i], key(s[i]));
  }

  /** Each of `keys` as often as `bag` holds it. */
  function Repeat<K(==)>(keys: seq<K>, bag: multiset<K>): seq<K> {
    if keys == [] then []
    else
      var k := keys[|keys| - 1];
      Repeat(keys[..|keys| - 1], bag) + seq(bag[k], _ => k)
  }

  lemma {:induction false} CopiesBag<K(!new)>(n: nat, k: K)
    ensures multiset(seq(n, _ => k)) == multiset{}[k := n]
  {
    if n > 0 {
      CopiesBag(n - 1, k);
      assert seq(n, _ => k) == seq(n - 1, _ => k) + [k];
    }
  }

  lemma {:induction false} RepeatCount<K(!new)>(keys: seq<K>, bag: multiset<K>)
    requires NoDuplicates(keys)
    ensures forall k :: multiset(Repeat(keys, bag))[k] == if k in keys then bag[k] else 0
  {
    if keys != [] {
      var init, last := keys[..|keys| - 1], keys[|keys| - 1];
      RepeatCount(init, bag);
      CopiesBag(bag[last], last);
      assert keys == init + [last];
    }
  }

  /** Repeating every key of `keys` that `bag` can hold gives `bag` back. */
  lemma RepeatBag<K(!new)>(keys: seq<K>, bag: multiset<K>)
    requires NoDuplicates(keys) && forall k :: k in bag ==> k in keys
    ensures multiset(Repeat(keys, bag)) == bag && |Repeat(keys, bag)| == |bag|
  {
    RepeatCount(keys, bag);
    forall k ensures multiset(Repeat(keys, bag))[k] == bag[k] {
      assert k !in keys ==> k !in bag;
    }
    assert |multiset(Repeat(keys, bag))| == |Repeat(keys, bag)|;
  }

  // ----- grouping by key

  datatype Groups<T, K> = Groups(order: seq<K>, lists: map<K, seq<T>>)

  function ListAt<T, K(==)>(lists: map<K, seq<T>>, k: K): seq<T> {
    if k in lists then lists[k] else []
  }

  function GroupsFor<T, K(==)>(s: seq<T>, key: T -> K): Groups<T, K> {
    if s == [] then Groups([], map[])
    else
      var g, k := GroupsFor(s[..|s| - 1], key), key(s[|s| - 1]);
      Groups(if k in g.lists then g.order else g.order + [k], g.lists[k := ListAt(g.lists, k) + [s[|s| - 1]]])
  }

  lemma {:induction false} GroupsHold<T, K(!new)>(s: seq<T>, key: T -> K, k: K)
    ensures ListAt(GroupsFor(s, key).lists, k) == At(s, key, k)
    ensures k in GroupsFor(s, key).lists <==> At(s, key, k) != []
  {
    if s != [] {
      GroupsHold(s[..|s| - 1], key, k);
    }
  }

  lemma {:induction false} GroupsOrder<T, K(!new)>(s: seq<T>, key: T -> K)
    ensures GroupsFor(s, key).order == Distinct(Map(s, key))
  {
    if s != [] {
      var init, k := s[..|s| - 1], key(s[|s| - 1]);
      GroupsOrder(init, key);
      GroupsHold(init, key, k);
      AtSize(init, key, k);
      DistinctHolds(Map(init, key));
      assert Map(s, key)[..|s| - 1] == Map(init, key);
    }
  }

  /** groupByLocation, for any key. */
  method GroupBy<T, K(==, !new)>(s: seq<T>, key: T -> K) returns (g: Groups<T, K>)
    ensures g.order == Distinct(Map(s, key))
    ensures forall k :: ListAt(g.lists, k) == At(s, key, k)
    ensures forall k :: k in g.lists <==> At(s, key, k) != []
  {
    g := Groups([], map[]);
    for i := 0 to |s|
      invariant g == GroupsFor(s[..i], key)
    {
      var k := key(s[i]);
      assert s[..i + 1][..i] == s[..i];
      if k in g.lists {
        g := g.(lists := g.lists[k := g.lists[k] + [s[i]]]);
      } else {
        g := Groups(g.order + [k], g.lists[k := [s[i]]]);
        assert g.lists[k] == [] + [s[i]];
      }
    }
    assert s[..|s|] == s;
    GroupsOrder(s, key);
    forall k ensures ListAt(g.lists, k) == At(s, key, k) && (k in g.lists <==> At(s, key, k) != []) {
      GroupsHold(s, key, k);
    }
  }
}
