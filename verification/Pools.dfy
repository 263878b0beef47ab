/** runPool (scripts/bench/compare-checkers.ts) and runSweep (scripts/oracle/sweep-presets.ts): worker pools
    whose lanes interleave at their awaits, as state machines. */
module Pools {
  import opened Sequences
  import opened Diagnostics

  /** What the promise of one worker call settles to. */
  datatype Outcome<+R> = Resolved(value: R) | Rejected

  datatype Lane = Idle | Busy(index: nat) | Finished | Crashed

  /** `calls` logs the indices the worker was called with. */
  datatype State<R> = State(next: nat, lanes: seq<Lane>, results: seq<Option<R>>, calls: seq<nat>)

  datatype Pool<!T, R> = Pool(items: seq<T>, jobs: int, worker: (T, nat) -> Outcome<R>) {
    function LaneCount(): nat { Max(1, Min(jobs, |items|)) }

    function Answer(i: nat): Outcome<R>
      requires i < |items|
    {
      worker(items[i], i)
    }

    ghost predicate Start(s: State<R>) {
      s == State(0, seq(LaneCount(), _ => Idle), seq(|items|, _ => None), [])
    }

    /** An idle lane tests the loop condition and, in the same turn, claims the next index. */
    ghost predicate Claim(s: State<R>, s': State<R>, l: nat) {
      && l < |s.lanes| && s.lanes[l] == Idle && s.next < |items|
      && s' == s.(next := s.next + 1, lanes := s.lanes[l := Busy(s.next)], calls := s.calls + [s.next])
    }

    ghost predicate Leave(s: State<R>, s': State<R>, l: nat) {
      && l < |s.lanes| && s.lanes[l] == Idle && s.next >= |items|
      && s' == s.(lanes := s.lanes[l := Finished])
    }

    /** The awaited worker call settles: a value is stored, a rejection ends the lane. */
    ghost predicate Settle(s: State<R>, s': State<R>, l: nat) {
      && l < |s.lanes| && s.lanes[l].Busy? && s.lanes[l].index < |items| && |s.results| == |items|
      && var i := s.lanes[l].index;
         s' == match Answer(i)
               case Resolved(v) => s.(results := s.results[i := Some(v)], lanes := s.lanes[l := Idle])
               case Rejected => s.(lanes := s.lanes[l := Crashed])
    }

    ghost predicate Step(s: State<R>, s': State<R>, l: nat) {
      Claim(s, s', l) || Leave(s, s', l) || Settle(s, s', l)
    }

    ghost predicate Next(s: State<R>, s': State<R>) { exists l :: Step(s, s', l) }

    /** Any interleaving of the lanes. */
    ghost predicate Execution(run: seq<State<R>>) {
      && run != [] && Start(run[0])
      && forall k :: 0 <= k < |run| - 1 ==> Next(run[k], run[k + 1])
    }

    // ----- the invariant

    ghost predicate InFlight(s: State<R>, i: nat) { Busy(i) in s.lanes }

    /** Index `i` was claimed, and its result is what its worker call makes it. */
    ghost predicate Accounted(s: State<R>, i: nat)
      requires i < |items| == |s.results|
    {
      if i >= s.next || InFlight(s, i) then s.results[i] == None
      else match Answer(i)
           case Resolved(v) => s.results[i] == Some(v)
           case Rejected => s.results[i] == None && Crashed in s.lanes
    }

    ghost predicate Inv(s: State<R>) {
      && s.next <= |items| == |s.results| && |s.lanes| == LaneCount()
      && s.calls == seq(s.next, i => i)
      && (forall l :: 0 <= l < |s.lanes| && s.lanes[l].Busy? ==> s.lanes[l].index < s.next)
      && (forall l, m :: 0 <= l < m < |s.lanes| && s.lanes[l].Busy? ==> s.lanes[l] != s.lanes[m])
      && (Finished in s.lanes ==> s.next == |items|)
      && (Crashed in s.lanes ==> exists i :: 0 <= i < s.next && Answer(i).Rejected?)
      && (forall i :: 0 <= i < |items| ==> Accounted(s, i))
    }

    lemma StartInv(s: State<R>)
      requires Start(s)
      ensures Inv(s)
    {
    }

    lemma ClaimInv(s: State<R>, s': State<R>, l: nat)
      requires Inv(s) && Claim(s, s', l)
      ensures Inv(s')
    {
      LanesAfter(s.lanes, l, Busy(s.next));
      assert s'.calls == seq(s'.next, i => i);
      forall i | 0 <= i < |items| ensures Accounted(s', i) {
        assert Accounted(s, i);
        assert i != s.next ==> (InFlight(s', i) <==> InFlight(s, i));
      }
      if Crashed in s'.lanes {
        var i :| 0 <= i < s.next && Answer(i).Rejected?;
        assert i < s'.next;
      }
    }

    lemma LeaveInv(s: State<R>, s': State<R>, l: nat)
      requires Inv(s) && Leave(s, s', l)
      ensures Inv(s')
    {
      LanesAfter(s.lanes, l, Finished);
      forall i | 0 <= i < |items| ensures Accounted(s', i) {
        assert Accounted(s, i);
        assert InFlight(s', i) <==> InFlight(s, i);
      }
    }

    lemma SettleInv(s: State<R>, s': State<R>, l: nat)
      requires Inv(s) && Settle(s, s', l)
      ensures Inv(s')
    {
      var j := s.lanes[l].index;
      LanesAfter(s.lanes, l, s'.lanes[l]);
      forall i | 0 <= i < |items| ensures Accounted(s', i) {
        assert Accounted(s, i);
        assert InFlight(s', i) <==> InFlight(s, i) && i != j;
        assert InFlight(s, j);
      }
      assert Answer(j).Rejected? ==> j < s'.next;
    }

    /** What changes when one lane does. */
    lemma LanesAfter(lanes: seq<Lane>, l: nat, lane: Lane)
      requires l < |lanes|
      ensures var after := lanes[l := lane];
              forall x :: x in after <==> x == lane || exists m :: 0 <= m < |lanes| && m != l && lanes[m] == x
    {
      var after := lanes[l := lane];
      forall x ensures x in after <==> x == lane || exists m :: 0 <= m < |lanes| && m != l && lanes[m] == x {
        assert after[l] == lane;
        if m :| 0 <= m < |lanes| && m != l && lanes[m] == x {
          assert after[m] == x;
        }
      }
    }

    lemma StepInv(s: State<R>, s': State<R>, l: nat)
      requires Inv(s) && Step(s, s', l)
      ensures Inv(s')
    {
      if Claim(s, s', l) {
        ClaimInv(s, s', l);
      } else if Leave(s, s', l) {
        LeaveInv(s, s', l);
      } else {
        SettleInv(s, s', l);
      }
    }

    lemma {:induction false} ExecutionInv(run: seq<State<R>>, k: nat)
      requires Execution(run) && k < |run|
      ensures Inv(run[k])
    {
      if k == 0 {
        StartInv(run[0]);
      } else {
        ExecutionInv(run, k - 1);
        var l: nat :| Step(run[k - 1], run[(k - 1) + 1], l);
        StepInv(run[k - 1], run[k], l);
      }
    }

    // ----- what every run keeps

    /** The indices whose worker call has not settled. */
    ghost function Pending(s: State<R>): set<nat> {
      set i | 0 <= i < |items| && InFlight(s, i)
    }

    /** Theorem: in every reachable state the worker was called once for each claimed index, in order, and never
        with more calls pending than there are jobs. */
    lemma ClaimsOnce(run: seq<State<R>>, k: nat)
      requires Execution(run) && k < |run|
      ensures run[k].calls == seq(run[k].next, i => i) && run[k].next <= |items|
      ensures |Pending(run[k])| <= Max(1, Min(jobs, |items|)) == |run[k].lanes|
    {
      ExecutionInv(run, k);
      BusyBound(run[k].lanes, Pending(run[k]));
    }

    lemma {:induction false} BusyBound(lanes: seq<Lane>, busy: set<nat>)
      requires forall i :: i in busy ==> Busy(i) in lanes
      ensures |busy| <= |lanes|
    {
      if lanes != [] {
        var init, last := lanes[..|lanes| - 1], lanes[|lanes| - 1];
        var rest := if last.Busy? then busy - {last.index} else busy;
        forall i | i in rest ensures Busy(i) in init {
          assert lanes == init + [last];
        }
        BusyBound(init, rest);
        assert last.Busy? ==> busy <= rest + {last.index};
        if last.Busy? && last.index in busy {
          assert busy == rest + {last.index};
        } else {
          assert busy == rest;
        }
      } else {
        assert busy == {};
      }
    }

    /** The state in which each of the first `n` lanes has claimed one index. */
    ghost function Filled(n: nat): State<R> {
      State(n, seq(LaneCount(), l requires 0 <= l => if l < n then Busy(l) else Idle), seq(|items|, _ => None), seq(n, i => i))
    }

    lemma FillNext(n: nat)
      requires n < LaneCount() && n < |items|
      ensures Claim(Filled(n), Filled(n + 1), n)
    {
      assert Filled(n).lanes[n := Busy(n)] == Filled(n + 1).lanes;
      assert Filled(n).calls + [n] == Filled(n + 1).calls;
    }

    static lemma {:induction false} FirstNats(s: set<nat>, n: nat)
      requires forall i: nat :: i in s <==> i < n
      ensures |s| == n
    {
      if n == 0 {
        assert s == {};
      } else {
        FirstNats(s - {n - 1}, n - 1);
        assert s == (s - {n - 1}) + {n - 1};
      }
    }

    lemma FilledPending(n: nat)
      requires n <= LaneCount() && n <= |items|
      ensures |Pending(Filled(n))| == n
    {
      forall i: nat ensures i in Pending(Filled(n)) <==> i < n {
        if i < n {
          assert Filled(n).lanes[i] == Busy(i);
        }
      }
      FirstNats(Pending(Filled(n)), n);
    }

    /** Theorem: the bound is reached. Some interleaving has as many calls pending at once as there are jobs, or as
        many as there are items if they are fewer, or one if no more than that is asked for. */
    lemma BoundIsReached() returns (run: seq<State<R>>)
      requires items != []
      ensures Execution(run) && |Pending(run[|run| - 1])| == Max(1, Min(jobs, |items|))
    {
      var n: nat := LaneCount();
      run := seq(n + 1, k requires 0 <= k < n + 1 => Filled(k));
      assert Start(run[0]) by {
        assert Filled(0).lanes == seq(LaneCount(), _ => Idle) && Filled(0).calls == [];
      }
      forall k | 0 <= k < |run| - 1 ensures Next(run[k], run[k + 1]) {
        FillNext(k);
        assert Step(run[k], run[k + 1], k);
      }
      FilledPending(n);
    }

    // ----- termination

    ghost predicate Terminal(s: State<R>) {
      forall l :: 0 <= l < |s.lanes| ==> s.lanes[l].Finished? || s.lanes[l].Crashed?
    }

    static function LaneWeight(lane: Lane): nat {
      match lane
      case Idle => 1
      case Busy(_) => 2
      case Finished => 0
      case Crashed => 0
    }

    static function Weight(lanes: seq<Lane>): nat {
      if lanes == [] then 0 else Weight(lanes[..|lanes| - 1]) + LaneWeight(lanes[|lanes| - 1])
    }

    /** How many steps are still possible at most. */
    ghost function Measure(s: State<R>): int { 2 * (|items| - s.next) + Weight(s.lanes) }

    static lemma {:induction false} WeightAfter(lanes: seq<Lane>, l: nat, lane: Lane)
      requires l < |lanes|
      ensures Weight(lanes[l := lane]) == Weight(lanes) - LaneWeight(lanes[l]) + LaneWeight(lane)
    {
      var n := |lanes| - 1;
      if l < n {
        WeightAfter(lanes[..n], l, lane);
        assert lanes[l := lane][..n] == lanes[..n][l := lane];
      } else {
        assert lanes[l := lane][..n] == lanes[..n];
      }
    }

    static lemma {:induction false} WeightIdle(n: nat)
      ensures Weight(seq(n, _ => Idle)) == n
    {
      if n > 0 {
        WeightIdle(n - 1);
        assert seq(n, _ => Idle)[..n - 1] == seq(n - 1, _ => Idle);
      }
    }

    /** Every step makes progress. */
    lemma StepDecreases(s: State<R>, s': State<R>, l: nat)
      requires Inv(s) && Step(s, s', l)
      ensures 0 <= Measure(s') < Measure(s)
    {
      WeightAfter(s.lanes, l, s'.lanes[l]);
      StepInv(s, s', l);
    }

    /** Theorem: a pool over n items takes at most 2n steps and one for each lane, whatever the interleaving. */
    lemma {:induction false} ExecutionsEnd(run: seq<State<R>>, k: nat)
      requires Execution(run) && k < |run|
      ensures 0 <= Measure(run[k]) && k + Measure(run[k]) <= 2 * |items| + Max(1, Min(jobs, |items|))
    {
      ExecutionInv(run, k);
      if k == 0 {
        WeightIdle(LaneCount());
      } else {
        ExecutionsEnd(run, k - 1);
        ExecutionInv(run, k - 1);
        var l: nat :| Step(run[k - 1], run[(k - 1) + 1], l);
        StepDecreases(run[k - 1], run[k], l);
      }
    }

    /** Theorem: a pool never gets stuck before all its lanes have ended. */
    lemma NeverStuck(run: seq<State<R>>, k: nat)
      requires Execution(run) && k < |run| && !Terminal(run[k])
      ensures exists s' :: Next(run[k], s')
    {
      ExecutionInv(run, k);
      var s := run[k];
      var l: nat :| l < |s.lanes| && !s.lanes[l].Finished? && !s.lanes[l].Crashed?;
      var s': State<R> := if s.lanes[l].Busy? then
                  (match Answer(s.lanes[l].index)
                   case Resolved(v) => s.(results := s.results[s.lanes[l].index := Some(v)], lanes := s.lanes[l := Idle])
                   case Rejected => s.(lanes := s.lanes[l := Crashed]))
                else if s.next < |items| then
                  s.(next := s.next + 1, lanes := s.lanes[l := Busy(s.next)], calls := s.calls + [s.next])
                else s.(lanes := s.lanes[l := Finished]);
      assert Step(s, s', l);
      assert Next(run[k], s');
    }

    // ----- the result

    /** No worker call is rejected. */
    ghost predicate AllResolve() { forall i :: 0 <= i < |items| ==> Answer(i).Resolved? }

    /** The items mapped one after the other. */
    function SerialMap(): seq<Option<R>>
      requires AllResolve()
    {
      seq(|items|, i requires 0 <= i < |items| => Some(Answer(i).value))
    }

    /** Theorem: when all lanes have ended, no lane has crashed exactly when no worker call rejects, and then
        every index was claimed exactly once and the results are the serial map, in input order. */
    lemma PoolIsSerialMap(run: seq<State<R>>, k: nat)
      requires Execution(run) && k < |run| && Terminal(run[k])
      ensures Crashed !in run[k].lanes <==> AllResolve()
      ensures AllResolve() ==> run[k].results == SerialMap() && run[k].calls == seq(|items|, i => i)
    {
      ExecutionInv(run, k);
      var s := run[k];
      assert forall lane :: lane in s.lanes ==> lane.Finished? || lane.Crashed?;
      assert s.lanes[0] in s.lanes;
      forall i | 0 <= i < |items| ensures !InFlight(s, i) && Accounted(s, i) {
        assert Accounted(s, i);
      }
      if Crashed !in s.lanes {
        assert s.lanes[0] == Finished;
        forall i | 0 <= i < |items| ensures Answer(i).Resolved? && s.results[i] == Some(Answer(i).value) {
          assert Accounted(s, i);
        }
      } else {
        assert exists i :: 0 <= i < s.next && Answer(i).Rejected?;
      }
    }
  }

  // ----- runSweep

  /** runSweep's lanes take the next index first and test it afterwards, so that the shared index runs past the
      end. Its worker never rejects: a failed target is a result of its own. */
  datatype Sweep<!T, R> = Sweep(items: seq<T>, jobs: int, run: T -> R) {

    /** The same work as a pool. */
    function AsPool(): Pool<T, R> { Pool(items, jobs, (item, index) => Resolved(run(item))) }

    function LaneCount(): nat { Max(1, Min(jobs, |items|)) }

    ghost predicate Start(s: State<R>) {
      s == State(0, seq(LaneCount(), _ => Idle), seq(|items|, _ => None), [])
    }

    ghost predicate Take(s: State<R>, s': State<R>, l: nat) {
      && l < |s.lanes| && s.lanes[l] == Idle
      && var index := s.next;
         s' == if index >= |items| then s.(next := s.next + 1, lanes := s.lanes[l := Finished])
               else s.(next := s.next + 1, lanes := s.lanes[l := Busy(index)], calls := s.calls + [index])
    }

    ghost predicate Settle(s: State<R>, s': State<R>, l: nat) {
      && l < |s.lanes| && s.lanes[l].Busy? && s.lanes[l].index < |items| && |s.results| == |items|
      && var i := s.lanes[l].index;
         s' == s.(results := s.results[i := Some(run(items[i]))], lanes := s.lanes[l := Idle])
    }

    ghost predicate Next(s: State<R>, s': State<R>) { exists l :: Take(s, s', l) || Settle(s, s', l) }

    ghost predicate Execution(states: seq<State<R>>) {
      && states != [] && Start(states[0])
      && forall k :: 0 <= k < |states| - 1 ==> Next(states[k], states[k + 1])
    }

    /** The state with the shared index held at the end of the items. */
    ghost function Clamped(s: State<R>): State<R> {
      s.(next := if s.next <= |items| then s.next else |items|)
    }

    ghost function ClampedRun(states: seq<State<R>>): seq<State<R>> {
      seq(|states|, k requires 0 <= k < |states| => Clamped(states[k]))
    }

    lemma StepRefines(s: State<R>, s': State<R>, l: nat)
      requires Take(s, s', l) || Settle(s, s', l)
      ensures AsPool().Step(Clamped(s), Clamped(s'), l)
    {
      var pool := AsPool();
      if Take(s, s', l) {
        if s.next < |items| {
          assert pool.Claim(Clamped(s), Clamped(s'), l);
        } else {
          assert pool.Leave(Clamped(s), Clamped(s'), l);
        }
      } else {
        assert pool.Answer(s.lanes[l].index) == Resolved(run(items[s.lanes[l].index]));
        assert pool.Settle(Clamped(s), Clamped(s'), l);
      }
    }

    /** Theorem: every sweep is a run of the pool. */
    lemma Refines(states: seq<State<R>>)
      requires Execution(states)
      ensures AsPool().Execution(ClampedRun(states))
    {
      var pool, clamped := AsPool(), ClampedRun(states);
      forall k | 0 <= k < |clamped| - 1 ensures pool.Next(clamped[k], clamped[k + 1]) {
        var l: nat :| Take(states[k], states[k + 1], l) || Settle(states[k], states[k + 1], l);
        StepRefines(states[k], states[k + 1], l);
      }
    }

    /** Theorem: a sweep too ends after at most two steps for each target and one for each lane, and is never
        stuck before. */
    lemma SweepEnds(states: seq<State<R>>, k: nat)
      requires Execution(states) && k < |states|
      ensures k <= 2 * |items| + Max(1, Min(jobs, |items|))
      ensures !AsPool().Terminal(states[k]) ==> exists s' :: Next(states[k], s')
    {
      var pool := AsPool();
      Refines(states);
      pool.ExecutionsEnd(ClampedRun(states), k);
      pool.ExecutionInv(ClampedRun(states), k);
      if !pool.Terminal(states[k]) {
        var s := states[k];
        var l: nat :| l < |s.lanes| && !s.lanes[l].Finished? && !s.lanes[l].Crashed?;
        var s': State<R> := if s.lanes[l].Busy? then
                              var i := s.lanes[l].index;
                              s.(results := s.results[i := Some(run(items[i]))], lanes := s.lanes[l := Idle])
                            else if s.next >= |items| then s.(next := s.next + 1, lanes := s.lanes[l := Finished])
                            else s.(next := s.next + 1, lanes := s.lanes[l := Busy(s.next)], calls := s.calls + [s.next]);
        assert Take(s, s', l) || Settle(s, s', l);
        assert Next(states[k], s');
      }
    }

    /** Theorem: a sweep too never has more targets running than there are jobs. */
    lemma SweepBound(states: seq<State<R>>, k: nat)
      requires Execution(states) && k < |states|
      ensures |AsPool().Pending(states[k])| <= Max(1, Min(jobs, |items|)) == |states[k].lanes|
    {
      var pool := AsPool();
      Refines(states);
      pool.ClaimsOnce(ClampedRun(states), k);
      assert pool.Pending(states[k]) == pool.Pending(Clamped(states[k]));
    }

    /** Theorem: and some interleaving has that many running at once. */
    lemma SweepBoundIsReached() returns (states: seq<State<R>>)
      requires items != []
      ensures Execution(states) && |AsPool().Pending(states[|states| - 1])| == Max(1, Min(jobs, |items|))
    {
      var pool, n: nat := AsPool(), LaneCount();
      states := seq(n + 1, k requires 0 <= k < n + 1 => pool.Filled(k));
      assert Start(states[0]) by {
        assert pool.Filled(0).lanes == seq(LaneCount(), _ => Idle) && pool.Filled(0).calls == [];
      }
      forall k | 0 <= k < |states| - 1 ensures Next(states[k], states[k + 1]) {
        pool.FillNext(k);
        assert Take(states[k], states[k + 1], k);
      }
      pool.FilledPending(n);
    }

    static function FinishedCount(lanes: seq<Lane>): nat {
      if lanes == [] then 0
      else FinishedCount(lanes[..|lanes| - 1]) + if lanes[|lanes| - 1].Finished? then 1 else 0
    }

    static lemma {:induction false} FinishedAfter(lanes: seq<Lane>, l: nat, lane: Lane)
      requires l < |lanes| && !lanes[l].Finished?
      ensures FinishedCount(lanes[l := lane]) == FinishedCount(lanes) + if lane.Finished? then 1 else 0
    {
      var n := |lanes| - 1;
      if l < n {
        FinishedAfter(lanes[..n], l, lane);
        assert lanes[l := lane][..n] == lanes[..n][l := lane];
      } else {
        assert lanes[l := lane][..n] == lanes[..n];
      }
    }

    static lemma {:induction false} NoneFinished(lanes: seq<Lane>)
      requires forall l :: 0 <= l < |lanes| ==> lanes[l] == Idle
      ensures FinishedCount(lanes) == 0
    {
      if lanes != [] {
        NoneFinished(lanes[..|lanes| - 1]);
      }
    }

    static lemma {:induction false} AllFinished(lanes: seq<Lane>)
      requires forall l :: 0 <= l < |lanes| ==> lanes[l].Finished?
      ensures FinishedCount(lanes) == |lanes|
    {
      if lanes != [] {
        AllFinished(lanes[..|lanes| - 1]);
      }
    }

    /** The shared index counts the calls and the lanes that ran past the end, and no lane crashes. */
    lemma {:induction false} IndexCounts(states: seq<State<R>>, k: nat)
      requires Execution(states) && k < |states|
      ensures states[k].next == |states[k].calls| + FinishedCount(states[k].lanes)
      ensures Crashed !in states[k].lanes && |states[k].lanes| == LaneCount()
    {
      if k == 0 {
        NoneFinished(states[0].lanes);
      } else {
        IndexCounts(states, k - 1);
        var s, s' := states[k - 1], states[(k - 1) + 1];
        var l: nat :| Take(s, s', l) || Settle(s, s', l);
        FinishedAfter(s.lanes, l, s'.lanes[l]);
      }
    }

    /** Theorem: when all lanes of a sweep have ended, each target ran exactly once, the outcomes stand in input
        order, and the shared index has overshot the targets by exactly the number of lanes. */
    lemma SweepIsSerialMap(states: seq<State<R>>, k: nat)
      requires Execution(states) && k < |states| && AsPool().Terminal(states[k])
      ensures states[k].calls == seq(|items|, i => i)
      ensures states[k].results == seq(|items|, i requires 0 <= i < |items| => Some(run(items[i])))
      ensures states[k].next == |items| + Max(1, Min(jobs, |items|))
    {
      var pool := AsPool();
      Refines(states);
      assert pool.AllResolve();
      pool.PoolIsSerialMap(ClampedRun(states), k);
      IndexCounts(states, k);
      forall l | 0 <= l < |states[k].lanes| ensures states[k].lanes[l].Finished? {
        assert states[k].lanes[l] in states[k].lanes;
      }
      AllFinished(states[k].lanes);
      assert pool.SerialMap() == seq(|items|, i requires 0 <= i < |items| => Some(run(items[i])));
    }
  }
}
