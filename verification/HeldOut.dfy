/** boltTestSuite and selectHeldOutCases of scripts/bench/upstream-cases.ts. */
module HeldOut {
  import opened Sequences
  import opened KeyedLists
  import opened Tallies
  import opened Text
  import opened Diagnostics
  import opened UpstreamCases

  // ----- from a bolt-ts test directory to the upstream case it was made from

  /** `prefix` is `entry` itself or `entry` cut off before one of its underscores. */
  predicate Truncation(prefix: string, entry: string) {
    prefix <= entry && (prefix == entry || entry[|prefix|] == '_')
  }

  /** The last index of `c`, or -1. */
  function LastIndexOf(s: string, c: char): (i: int)
    ensures -1 <= i < |s|
    ensures i >= 0 ==> s[i] == c
    ensures forall k :: i < k < |s| ==> s[k] != c
  {
    if s == "" then -1 else if s[|s| - 1] == c then |s| - 1 else LastIndexOf(s[..|s| - 1], c)
  }

  /** The name boltTestSuite records for a directory entry: its longest truncation that is a known case, or the
      entry itself if there is none. */
  method CaseNameOf(entry: string, caseNames: set<string>) returns (result: string)
    ensures result in caseNames ==> Truncation(result, entry)
    ensures result in caseNames ==> forall p :: Truncation(p, entry) && p in caseNames ==> |p| <= |result|
    ensures result !in caseNames ==> result == entry && forall p :: Truncation(p, entry) ==> p !in caseNames
  {
    var name := entry;
    while name !in caseNames && '_' in name
      invariant Truncation(name, entry)
      invariant forall p :: Truncation(p, entry) && |p| > |name| ==> p !in caseNames
      decreases |name|
    {
      var cut := LastIndexOf(name, '_');
      assert exists k :: 0 <= k < |name| && name[k] == '_';
      forall p | Truncation(p, entry) && |p| > cut ensures p !in caseNames {
        OtherTruncation(p, name, entry, cut);
      }
      name := name[..cut];
    }
    if name !in caseNames {
      forall p | Truncation(p, entry) ensures p !in caseNames {
        OtherTruncation(p, name, entry, -1);
      }
    }
    result := if name in caseNames then name else entry;
  }

  /** Between the last underscore of a truncation and its end there is no other truncation. */
  lemma OtherTruncation(p: string, name: string, entry: string, cut: int)
    requires Truncation(p, entry) && Truncation(name, entry)
    requires -1 <= cut < |p| && forall k :: cut < k < |name| ==> name[k] != '_'
    ensures |p| > |name| || p == name
  {
    assert forall k :: 0 <= k < |name| ==> entry[k] == name[k];
    if |p| == |name| {
      assert p == entry[..|p|] == name;
    }
  }

  // ----- selectHeldOutCases

  /** A case of the pool, with its text. */
  datatype Case = Case(name: string, text: string)

  datatype Suite<H> = Suite(title: string, names: set<string>, fingerprints: set<H>)

  datatype Selection = Selection(cases: seq<Case>, pool: nat, excluded: map<string, nat>, sampled: nat)

  predicate Owns<H(==)>(suite: Suite<H>, c: Case, hash: string -> H) {
    c.name in suite.names || hash(Body(c.text)) in suite.fingerprints
  }

  /** The label of the first suite that owns the case. */
  function OwnerTitle<H(==)>(suites: seq<Suite<H>>, hash: string -> H, c: Case): Option<string> {
    if suites == [] then None
    else if Owns(suites[0], c, hash) then Some(suites[0].title)
    else OwnerTitle(suites[1..], hash, c)
  }

  lemma {:induction false} OwnerTitleHolds<H>(suites: seq<Suite<H>>, hash: string -> H, c: Case)
    ensures OwnerTitle(suites, hash, c).None? <==> forall suite :: suite in suites ==> !Owns(suite, c, hash)
    ensures OwnerTitle(suites, hash, c).Some? ==>
              exists suite :: suite in suites && Owns(suite, c, hash) && suite.title == OwnerTitle(suites, hash, c).value
  {
    if suites != [] && !Owns(suites[0], c, hash) {
      OwnerTitleHolds(suites[1..], hash, c);
      assert suites == [suites[0]] + suites[1..];
    }
  }

  /** `suites.find(...)`. */
  method FindOwner<H(==)>(suites: seq<Suite<H>>, hash: string -> H, c: Case) returns (owner: Option<string>)
    ensures owner == OwnerTitle(suites, hash, c)
  {
    for i := 0 to |suites|
      invariant OwnerTitle(suites, hash, c) == OwnerTitle(suites[i..], hash, c)
    {
      if Owns(suites[i], c, hash) {
        return Some(suites[i].title);
      }
      assert suites[i..][1..] == suites[i + 1..];
    }
    return None;
  }

  function Free<H(==)>(suites: seq<Suite<H>>, hash: string -> H): Case -> bool {
    (c: Case) => OwnerTitle(suites, hash, c).None?
  }

  function Title<H>(suite: Suite<H>): string { suite.title }

  function Owner<H(==)>(suites: seq<Suite<H>>, hash: string -> H): Case -> Option<string> {
    (c: Case) => OwnerTitle(suites, hash, c)
  }

  /** The free cases, in hash order: `leq` compares the hashed names. */
  function Ordered<H(==)>(pool: seq<Case>, suites: seq<Suite<H>>, hash: string -> H, leq: (Case, Case) -> bool): seq<Case> {
    Sort(Filter(pool, Free(suites, hash)), leq)
  }

  function Sample(ordered: seq<Case>, limit: int): seq<Case> {
    if 0 < limit < |ordered| then ordered[..limit] else ordered
  }

  method SelectHeldOutCases<H(==, !new)>(pool: seq<Case>, suites: seq<Suite<H>>, limit: int, hash: string -> H,
                                         leq: (Case, Case) -> bool) returns (selection: Selection)
    ensures selection.cases == Sample(Ordered(pool, suites, hash, leq), limit)
    ensures selection.pool == |pool| && selection.sampled == |selection.cases|
    ensures selection.excluded.Keys == set suite | suite in suites :: suite.title
    ensures forall title :: title in selection.excluded ==>
              selection.excluded[title] == |At(pool, Owner(suites, hash), Some(title))|
  {
    var excluded: map<string, nat> := map suite | suite in suites :: suite.title := 0;
    var kept: seq<Case> := [];
    ghost var owner := Owner(suites, hash);
    for i := 0 to |pool|
      invariant kept == Filter(pool[..i], Free(suites, hash))
      invariant excluded.Keys == set suite | suite in suites :: suite.title
      invariant forall title :: title in excluded ==> excluded[title] == |At(pool[..i], owner, Some(title))|
    {
      assert pool[..i + 1][..i] == pool[..i];
      var found := FindOwner(suites, hash, pool[i]);
      OwnerTitleHolds(suites, hash, pool[i]);
      assert owner(pool[i]) == found;
      if found.Some? {
        excluded := excluded[found.value := excluded[found.value] + 1];
      } else {
        kept := kept + [pool[i]];
      }
    }
    assert pool[..|pool|] == pool;
    var ordered := Sort(kept, leq);
    var cases := if 0 < limit < |ordered| then ordered[..limit] else ordered;
    selection := Selection(cases, |pool|, excluded, |cases|);
  }

  // ----- what the selection is

  /** How many cases of the pool the suites with this label own first. */
  function Excluded<H(==)>(pool: seq<Case>, suites: seq<Suite<H>>, hash: string -> H): string -> nat {
    (title: string) => |At(pool, Owner(suites, hash), Some(title))|
  }

  function TotalOver(titles: seq<string>, count: string -> nat): nat {
    if titles == [] then 0 else TotalOver(titles[..|titles| - 1], count) + count(titles[|titles| - 1])
  }

  /** The sum of the exclusion counts of all labels. */
  function TotalExcluded<H(==)>(pool: seq<Case>, suites: seq<Suite<H>>, hash: string -> H): nat {
    TotalOver(Distinct(Map(suites, Title)), Excluded(pool, suites, hash))
  }

  lemma {:induction false} TotalOverBump(titles: seq<string>, before: string -> nat, after: string -> nat, hit: Option<string>)
    requires NoDuplicates(titles)
    requires forall title :: after(title) == before(title) + if hit == Some(title) then 1 else 0
    ensures TotalOver(titles, after) == TotalOver(titles, before) + if hit.Some? && hit.value in titles then 1 else 0
  {
    if titles != [] {
      var init, last := titles[..|titles| - 1], titles[|titles| - 1];
      TotalOverBump(init, before, after, hit);
      assert titles == init + [last] && last !in init;
    }
  }

  lemma {:induction false} TotalOverNone(titles: seq<string>, count: string -> nat)
    requires forall title :: count(title) == 0
    ensures TotalOver(titles, count) == 0
  {
    if titles != [] {
      TotalOverNone(titles[..|titles| - 1], count);
    }
  }

  lemma ExcludedSnoc<H(!new)>(pool: seq<Case>, c: Case, suites: seq<Suite<H>>, hash: string -> H, title: string)
    ensures Excluded(pool + [c], suites, hash)(title)
         == Excluded(pool, suites, hash)(title) + if OwnerTitle(suites, hash, c) == Some(title) then 1 else 0
  {
    assert (pool + [c])[..|pool|] == pool;
  }

  lemma OwnersAreLabels<H(!new)>(suites: seq<Suite<H>>, hash: string -> H, c: Case)
    ensures OwnerTitle(suites, hash, c).Some? ==> OwnerTitle(suites, hash, c).value in Distinct(Map(suites, Title))
    ensures NoDuplicates(Distinct(Map(suites, Title)))
  {
    DistinctHolds(Map(suites, Title));
    OwnerTitleHolds(suites, hash, c);
    if OwnerTitle(suites, hash, c).Some? {
      var suite :| suite in suites && suite.title == OwnerTitle(suites, hash, c).value;
      var i :| 0 <= i < |suites| && suites[i] == suite;
      assert Map(suites, Title)[i] == suite.title;
    }
  }

  lemma FreeSnoc<H(!new)>(pool: seq<Case>, c: Case, suites: seq<Suite<H>>, hash: string -> H)
    ensures |Filter(pool + [c], Free(suites, hash))|
         == |Filter(pool, Free(suites, hash))| + if OwnerTitle(suites, hash, c).None? then 1 else 0
  {
    assert (pool + [c])[..|pool|] == pool;
  }

  /** The cases that are kept or counted as excluded. */
  function Placed<H(==)>(pool: seq<Case>, suites: seq<Suite<H>>, hash: string -> H): nat {
    |Filter(pool, Free(suites, hash))| + TotalExcluded(pool, suites, hash)
  }

  lemma PlacedSnoc<H(!new)>(pool: seq<Case>, c: Case, suites: seq<Suite<H>>, hash: string -> H)
    ensures Placed(pool + [c], suites, hash) == Placed(pool, suites, hash) + 1
  {
    OwnersAreLabels(suites, hash, c);
    FreeSnoc(pool, c, suites, hash);
    forall title ensures Excluded(pool + [c], suites, hash)(title)
                      == Excluded(pool, suites, hash)(title) + if OwnerTitle(suites, hash, c) == Some(title) then 1 else 0 {
      ExcludedSnoc(pool, c, suites, hash, title);
    }
    TotalOverBump(Distinct(Map(suites, Title)), Excluded(pool, suites, hash), Excluded(pool + [c], suites, hash),
                  OwnerTitle(suites, hash, c));
  }

  lemma NonePlaced<H(!new)>(suites: seq<Suite<H>>, hash: string -> H)
    ensures Placed([], suites, hash) == 0
  {
    TotalOverNone(Distinct(Map(suites, Title)), Excluded([], suites, hash));
  }

  /** Theorem: the kept cases and the exclusion counts of all labels add up to the pool. */
  lemma {:induction false} SelectionIsAPartition<H(!new)>(pool: seq<Case>, suites: seq<Suite<H>>, hash: string -> H)
    ensures Placed(pool, suites, hash) == |pool|
  {
    if pool == [] {
      NonePlaced(suites, hash);
    } else {
      var n := |pool| - 1;
      assert pool[..n] + [pool[n]] == pool;
      SelectionIsAPartition(pool[..n], suites, hash);
      PlacedSnoc(pool[..n], pool[n], suites, hash);
    }
  }

  /** Theorem: a selected case is in the pool and no suite owns it by name or by fingerprint; without a limit
      every such case is selected. */
  lemma SelectedAreFree<H(!new)>(pool: seq<Case>, suites: seq<Suite<H>>, limit: int, hash: string -> H,
                                 leq: (Case, Case) -> bool, c: Case)
    ensures var cases := Sample(Ordered(pool, suites, hash, leq), limit);
            && (c in cases ==> c in pool && UnknownTo(suites, c, hash))
            && (limit <= 0 && c in pool && UnknownTo(suites, c, hash) ==> c in cases)
  {
    SortElements(Filter(pool, Free(suites, hash)), leq);
    OwnerTitleHolds(suites, hash, c);
  }

  /** No suite has the case's name, and none has its fingerprint. */
  ghost predicate UnknownTo<H>(suites: seq<Suite<H>>, c: Case, hash: string -> H) {
    forall suite :: suite in suites ==> c.name !in suite.names && hash(Body(c.text)) !in suite.fingerprints
  }

  /** Theorem: the selected cases are the first of all free cases in hash order. */
  lemma SelectedAreLeast<H(!new)>(pool: seq<Case>, suites: seq<Suite<H>>, limit: int, hash: string -> H,
                                  leq: (Case, Case) -> bool)
    requires TotalPreorder(leq)
    ensures SortedBy(Ordered(pool, suites, hash, leq), leq)
    ensures multiset(Ordered(pool, suites, hash, leq)) == multiset(Filter(pool, Free(suites, hash)))
    ensures Sample(Ordered(pool, suites, hash, leq), limit) <= Ordered(pool, suites, hash, leq)
  {
    SortSorted(Filter(pool, Free(suites, hash)), leq);
  }

  /** Theorem: a smaller positive limit selects a prefix of what a larger one selects. */
  lemma SmallerLimitIsPrefix(ordered: seq<Case>, limit: int, limit': int)
    requires 0 < limit && (limit <= limit' || limit' <= 0)
    ensures Sample(ordered, limit) <= Sample(ordered, limit')
    ensures |Sample(ordered, limit)| == Min(limit, |ordered|)
  {
  }
}
