/** The locating thread: merges batches of triggers into its queue and consumes the queue greedily,
    pooling the triggers of up to eight stations around the head and looking for the combination the
    solver fits best. */
module Locator {
  import opened GpsTime
  import opened Trigger
  import opened Tuples
  import opened LigTools
  import opened PlainList
  import opened TriggerQueue
  import opened LocatorRun
  import opened QueueSorting
  import opened StationPool
  import opened Candidates

  /** A location was accepted: the full pool around the head has 5 to 8 stations, the search of it
      ended with a pool whose best candidate fits below the threshold, its triggers are those at the
      chosen positions, and the indices erased are the ones it carries. */
  ghost predicate Accepted(q: Queue, baseLine: real, c: Criteria, a: Action, full: Pool, at: seq<seq<nat>>, n: nat,
                           pools: seq<Pool>, comb: Triggers)
  {
    && a.Locate? && a.idx == Indices(comb)
    && FullPool(q, baseLine, c.travel, full, at, n) && 5 <= |full| && Tries(c, full, pools)
    && BestOf(c, pools[|pools| - 1], comb) && Candidate(c, pools[|pools| - 1], comb) && c.solve(comb) < c.threshold
    && |a.chosen| == |comb|
    && forall i: nat | i < |comb| :: a.chosen[i] < |q| && KeyOf(comb[i]) == KeyOf(q[a.chosen[i]])
  }

  /** A search of the full pool around the head fails: it has fewer than five stations, or no pool that
      is tried has a fit. */
  ghost predicate Rejected(q: Queue, baseLine: real, c: Criteria, full: Pool, at: seq<seq<nat>>, n: nat,
                           pools: seq<Pool>)
  {
    && FullPool(q, baseLine, c.travel, full, at, n)
    && (|full| < 5 || (Tries(c, full, pools) && forall k: nat | k < |pools| :: !HasFit(c, pools[k])))
  }

  // ---- The thread ----

  class LocatingThread {
    const baseLine: real
    const criteria: Criteria
    const tooRecent: (nat, TriggerInfo) -> bool

    var allTriggers: Queue
    var currentProcessingTime: GPSTime

    /** The run so far. */
    ghost var states: seq<State>
    ghost var actions: seq<Action>

    constructor (baseLine: real, criteria: Criteria, tooRecent: (nat, TriggerInfo) -> bool, startTime: GPSTime)
      requires baseLine >= 0.0 && criteria.threshold < FLOAT_MAX
      ensures Recorded(Waiting) && states == [State(Waiting, [], startTime)] && actions == []
      ensures this.baseLine == baseLine && this.criteria == criteria && this.tooRecent == tooRecent
    {
      this.baseLine, this.criteria, this.tooRecent := baseLine, criteria, tooRecent;
      allTriggers, currentProcessingTime := [], startTime;
      states, actions := [State(Waiting, [], startTime)], [];
    }

    ghost predicate Configured() {
      baseLine >= 0.0 && criteria.threshold < FLOAT_MAX
    }

    /** The recorded run ends in the thread's present state. */
    ghost predicate Recorded(phase: Phase)
      reads this
    {
      && Configured()
      && IsRun(baseLine, states, actions) && Inv(baseLine, states[0], {})
      && states[|actions|] == State(phase, allTriggers, currentProcessingTime)
    }

    ghost method Record(a: Action, s: State)
      requires Configured() && IsRun(baseLine, states, actions) && Inv(baseLine, states[0], {})
      requires Step(baseLine, states[|actions|], a, s)
      requires s == State(s.phase, allTriggers, currentProcessingTime)
      modifies this`states, this`actions
      ensures Recorded(s.phase) && states == old(states) + [s] && actions == old(actions) + [a]
    {
      states := states + [s];
      actions := actions + [a];
    }

    /** The pool loop: files the triggers around the head, up to the first that is out of the window. */
    method BuildPool() returns (pool: Pool, ghost pos: seq<seq<nat>>, ghost n: nat)
      requires allTriggers != [] && Ascending(allTriggers) && Timed(allTriggers)
      ensures FullPool(allTriggers, baseLine, criteria.travel, pool, pos, n)
      ensures HoldsCompanions(allTriggers, baseLine, criteria.travel, pool, pos)
    {
      hide Pooled, Complete, Position, Minus, Ascending, Timed, HoldsCompanions;
      ghost var travel := criteria.travel;
      pool, pos := [], [];
      NothingFiled(allTriggers, baseLine, travel);
      var j: nat := 0;
      while j < |allTriggers|
        invariant j <= |allTriggers|
        invariant Pooled(allTriggers, baseLine, pool, pos) && Complete(allTriggers, travel, pool, pos, j)
        invariant forall i: nat | i < j :: !StopsAt(allTriggers, baseLine, i)
      {
        var base, oneTrig := allTriggers[0], allTriggers[j];
        if base.value * oneTrig.value < 0.0 {
          NotFiled(allTriggers, travel, pool, pos, j);
          j := j + 1;
          continue;
        }
        var diffTime := Minus(base.time, oneTrig.time);
        if diffTime < -baseLine || diffTime > 0.0 {
          break;
        }
        if Abs(diffTime) <= criteria.travel(base.stationID, oneTrig.stationID) + 0.0001 {
          var g := Position(pool, oneTrig.stationID);
          if g == |pool| {
            PooledSizes(allTriggers, baseLine, pool, pos);
            if |pool| >= MAX_STATIONS {
              PoolCrowded(allTriggers, baseLine, travel, pool, pos, j);
              NotFiled(allTriggers, travel, pool, pos, j);
              j := j + 1;
              continue;
            }
            OpenFile(allTriggers, baseLine, travel, pool, pos, j);
            pool, pos := pool + [Pair(oneTrig.stationID, [oneTrig.(trigIdx := j)])], pos + [[j]];
          } else {
            AddToFile(allTriggers, baseLine, travel, pool, pos, j);
            PooledSizes(allTriggers, baseLine, pool, pos);
            pool, pos := pool[g := Pair(oneTrig.stationID, pool[g].value + [oneTrig])], pos[g := pos[g] + [j]];
          }
        } else {
          NotFiled(allTriggers, travel, pool, pos, j);
        }
        j := j + 1;
      }
      n := j;
      PoolExact(allTriggers, baseLine, travel, pool, pos, n);
    }

    /** The candidate combinations of a pool and their minimum; with no candidate, the earlier minimum
        stays. */
    method Combine(pool: Pool, minSq0: real, finalCombIdx0: nat)
      returns (locCombinationPool: seq<Triggers>, minSq: real, finalCombIdx: nat)
      requires |pool| >= 5 && minSq0 > criteria.threshold
      ensures Searched(criteria, pool, locCombinationPool, minSq, finalCombIdx)
      ensures locCombinationPool == [] ==> minSq == minSq0 && finalCombIdx == finalCombIdx0
    {
      hide Searched, FirstLeast, Score;
      locCombinationPool := GetLocationPoolP(Lists(pool), criteria.travel, |pool|);
      AllStations(criteria.travel, Lists(pool));
      minSq, finalCombIdx := minSq0, finalCombIdx0;
      if |locCombinationPool| > 0 {
        minSq, finalCombIdx := ProcessCombinationPool(criteria.solve, locCombinationPool);
      }
      FoundBest(criteria, pool, locCombinationPool, minSq, finalCombIdx);
    }

    /** Takes the station that fits worst out of the pool. */
    method DropWorst(pool0: Pool, ghost pos0: seq<seq<nat>>, comb: Triggers)
      returns (pool: Pool, ghost pos: seq<seq<nat>>)
      requires Timed(allTriggers) && Pooled(allTriggers, baseLine, pool0, pos0)
      requires comb != [] && BestOf(criteria, pool0, comb) && Candidate(criteria, pool0, comb)
      ensures Pooled(allTriggers, baseLine, pool, pos) && |pool| == |pool0| - 1
      ensures LosesWorst(criteria, pool0, pool)
    {
      hide BestOf, Candidate, Product;
      CandidateInProduct(criteria, pool0, comb);
      ghost var chosen := Origins(allTriggers, baseLine, pool0, pos0, comb);
      var station := WorstStation(criteria.residual, comb);
      ghost var i: nat :| FitsWorst(criteria.residual, comb, i) && comb[i].stationID == station;
      assert pool0[i].key == station;
      PositionUnique(pool0, i);
      var p := Position(pool0, station);
      pool, pos := RemoveAt(pool0, p), RemoveAt(pos0, p);
      FileRemoved(allTriggers, baseLine, pool0, pos0, p);
    }

    /** Looks for a combination of the pool that fits below the threshold, giving up the worst station
        up to twice while more than six are left.  A combination is found exactly when one of the pools
        tried has a fit; it is the best one of the last pool. */
    method TryCombinations(pool0: Pool, ghost pos0: seq<seq<nat>>)
      returns (accepted: bool, comb: Triggers, ghost pools: seq<Pool>, ghost pos: seq<seq<nat>>)
      requires Configured() && Timed(allTriggers) && Pooled(allTriggers, baseLine, pool0, pos0) && |pool0| >= 5
      ensures Tries(criteria, pool0, pools) && 5 <= |pools[|pools| - 1]|
      ensures accepted <==> exists k: nat :: k < |pools| && HasFit(criteria, pools[k])
      ensures accepted ==>
        && Pooled(allTriggers, baseLine, pools[|pools| - 1], pos) && BestOf(criteria, pools[|pools| - 1], comb)
        && Candidate(criteria, pools[|pools| - 1], comb) && criteria.solve(comb) < criteria.threshold
    {
      hide Pooled, BestOf, Candidate, Combinations, HasFit, GivesUp, LosesWorst;
      var pool := pool0;
      pos, pools := pos0, [pool0];
      var minSq := FLOAT_MAX;
      var finalCombIdx: nat := 0;
      var locCombinationPool: seq<Triggers> := [];
      if minSq > criteria.threshold {
        locCombinationPool, minSq, finalCombIdx := Combine(pool, minSq, finalCombIdx);
      }
      for i := 0 to 2
        invariant 1 <= |pools| <= i + 1 && pools[0] == pool0 && pools[|pools| - 1] == pool && |pool| >= 5
        invariant forall k: nat | k + 1 < |pools| ::
          GivesUp(criteria, pools[k]) && LosesWorst(criteria, pools[k], pools[k + 1])
        invariant |pools| <= i ==> !GivesUp(criteria, pool)
        invariant Pooled(allTriggers, baseLine, pool, pos)
        invariant Searched(criteria, pool, locCombinationPool, minSq, finalCombIdx)
      {
        GivesUpExact(criteria, pool, locCombinationPool, minSq, finalCombIdx);
        if minSq > criteria.threshold && |pool| > 6 {
          if |locCombinationPool| > 0 {
            CandidateSize(criteria, pool, locCombinationPool[finalCombIdx]);
            pool, pos := DropWorst(pool, pos, locCombinationPool[finalCombIdx]);
            TryNext(criteria, pool0, pools, pool);
            pools := pools + [pool];
          }
          locCombinationPool, minSq, finalCombIdx := Combine(pool, minSq, finalCombIdx);
        }
      }
      accepted := minSq < criteria.threshold;
      GivesUpExact(criteria, pool, locCombinationPool, minSq, finalCombIdx);
      OnlyLastFits(criteria, pool0, pools);
      comb := if accepted then locCombinationPool[finalCombIdx] else [];
    }

    /** Erases the indices of a combination from the queue, from the back to the front. */
    method EraseIndices(order: seq<nat>)
      requires Erasable(|allTriggers|, order)
      modifies this`allTriggers
      ensures allTriggers == EraseEach(old(allTriggers), order)
    {
      assert order[0..] == order;
      for i := 0 to |order|
        invariant Erasable(|allTriggers|, order[i..])
        invariant EraseEach(allTriggers, order[i..]) == EraseEach(old(allTriggers), order)
      {
        assert order[i..][0] == order[i] && order[i..][1..] == order[i + 1..];
        allTriggers := allTriggers[..order[i]] + allTriggers[order[i] + 1..];
      }
    }

    /** How a pass at the time of the tick-th look at the clock may go in state s: it skips the head
        before a gap; otherwise it waits exactly when the head is too recent, and it takes
        a location or drops the head as the search of the full pool around it succeeds or fails. */
    ghost predicate Decides(tick: nat, s: State, a: Action) {
      match a
      case SkipHead => Gap(s.queue, baseLine)
      case Defer => s.queue != [] && !Gap(s.queue, baseLine) && tooRecent(tick, s.queue[0])
      case Locate(_, _, _) =>
        && s.queue != [] && !Gap(s.queue, baseLine) && !tooRecent(tick, s.queue[0])
        && exists full: Pool, at: seq<seq<nat>>, n: nat, pools: seq<Pool>, comb: Triggers ::
             Accepted(s.queue, baseLine, criteria, a, full, at, n, pools, comb)
      case DropHead =>
        && s.queue != [] && !Gap(s.queue, baseLine) && !tooRecent(tick, s.queue[0])
        && exists full: Pool, at: seq<seq<nat>>, n: nat, pools: seq<Pool> ::
             Rejected(s.queue, baseLine, criteria, full, at, n, pools)
      case _ => true
    }

    /** The action is one the code takes in state s, whatever the clock says. */
    ghost predicate Coded(s: State, a: Action) {
      exists tick: nat :: Decides(tick, s, a)
    }

    /** One pass of the inner loop: skip the head before a gap, or make it the base trigger, and then
        wait, take a located combination, or drop the head.  Each is a step of the state machine. */
    method Pass(tick: nat) returns (wait: bool)
      requires Recorded(Processing) && allTriggers != []
      modifies this
      ensures Recorded(if wait then Waiting else Processing)
      ensures Extended(old(states), old(actions)) && TurnOf(actions[|actions| - 1]) == []
      ensures if wait then allTriggers == old(allTriggers) else |allTriggers| < |old(allTriggers)|
      ensures wait <==> actions[|actions| - 1].Defer?
      ensures Decides(tick, State(Processing, old(allTriggers), old(currentProcessingTime)), actions[|actions| - 1])
    {
      if |allTriggers| > 1 && Minus(allTriggers[1].time, allTriggers[0].time) > baseLine {
        hide Inv, IsRun, FullPool, Accepted;
        allTriggers := allTriggers[1..];
        Record(SkipHead, State(Processing, allTriggers, currentProcessingTime));
        return false;
      }
      wait := TryBase(tick);
    }

    /** One state and one action have been added to a run. */
    ghost predicate Extended(states0: seq<State>, actions0: seq<Action>)
      reads `states, `actions
    {
      && |states| == |states0| + 1 && states == states0 + [states[|states0|]]
      && |actions| == |actions0| + 1 && actions == actions0 + [actions[|actions0|]]
    }

    /** The part of a pass that makes the head the base trigger. */
    method TryBase(tick: nat) returns (wait: bool)
      requires Recorded(Processing) && allTriggers != [] && !Gap(allTriggers, baseLine)
      modifies this
      ensures Recorded(if wait then Waiting else Processing)
      ensures Extended(old(states), old(actions)) && TurnOf(actions[|actions| - 1]) == []
      ensures if wait then allTriggers == old(allTriggers) else |allTriggers| < |old(allTriggers)|
      ensures wait <==> actions[|actions| - 1].Defer?
      ensures Decides(tick, State(Processing, old(allTriggers), old(currentProcessingTime)), actions[|actions| - 1])
    {
      hide *;
      StartBase();
      ghost var s := State(Processing, allTriggers, currentProcessingTime);
      currentProcessingTime := AddActPointSec(allTriggers[0].time, baseLine);
      BaseIsChosen(s);
      wait := tooRecent(tick, allTriggers[0]);
      if wait {
        DeferBase(s, tick);
      } else {
        LocateOrDrop(s, tick);
      }
    }

    lemma StartBase()
      requires Recorded(Processing) && allTriggers != [] && !Gap(allTriggers, baseLine)
      ensures var s := State(Processing, allTriggers, currentProcessingTime);
        && Valid(allTriggers[0].time) && BaseOf(s, states, actions)
    {
      hide Ascending, Inv, IsRun;
      QueueOrdered(baseLine, states, actions);
      BaseReady(allTriggers, baseLine);
    }

    /** The recorded run ends in s, whose head can be made the base trigger. */
    ghost predicate BaseOf(s: State, run: seq<State>, taken: seq<Action>) {
      && Configured() && IsRun(baseLine, run, taken) && Inv(baseLine, run[0], {})
      && run[|taken|] == s && BasePass(baseLine, s) && Ascending(s.queue) && Timed(s.queue)
    }

    lemma BaseIsChosen(s: State)
      requires BaseOf(s, states, actions) && allTriggers == s.queue && s.queue != []
      requires currentProcessingTime == FromInstant(Instant(s.queue[0].time) + baseLine)
      ensures BaseChosen(s)
    {
      hide Inv, IsRun, Ascending, Valid, Instant, FromInstant, Gap;
    }

    /** The base trigger is too recent. */
    ghost method DeferBase(s: State, tick: nat)
      requires BaseChosen(s) && tooRecent(tick, s.queue[0])
      modifies this`states, this`actions
      ensures Recorded(Waiting) && Extended(old(states), old(actions))
      ensures actions[|actions| - 1] == Defer && TurnOf(Defer) == [] && Decides(tick, s, Defer)
    {
      hide Inv, IsRun, Ascending, Valid, Instant, FromInstant, Gap, FullPool, Accepted;
      Record(Defer, State(Waiting, allTriggers, currentProcessingTime));
    }

    /** A pass has made the head of s the base trigger and has not changed the queue yet. */
    ghost predicate BaseChosen(s: State)
      reads this
    {
      && BaseOf(s, states, actions)
      && allTriggers == s.queue && currentProcessingTime == Later(s.queue[0].time, baseLine)
    }

    /** The rest of a pass: take a located combination, or drop the head. */
    method LocateOrDrop(ghost s: State, ghost tick: nat)
      requires BaseChosen(s) && !tooRecent(tick, s.queue[0])
      modifies this
      ensures Recorded(Processing) && Extended(old(states), old(actions))
      ensures |allTriggers| < |s.queue|
      ensures TurnOf(actions[|actions| - 1]) == [] && !actions[|actions| - 1].Defer?
      ensures Decides(tick, s, actions[|actions| - 1])
    {
      hide Inv, IsRun, Ascending, Pooled, Located, Less, Complete, StopsAt, InWindow, BestOf, Candidate, EraseEach;
      hide HasFit, Gap, Accepted, Rejected, FullPool, Instant, FromInstant, Valid, Tries, HoldsCompanions, Originates;
      var pool0, pos0, n0 := BuildPool();
      FullIsPooled(s.queue, pool0, pos0, n0);
      ghost var tried: seq<Pool> := [];
      if |pool0| >= 5 {
        var accepted, comb, pools, pos := TryCombinations(pool0, pos0);
        tried := pools;
        if accepted {
          var order := SortFalling(Indices(comb));
          ghost var chosen := CanErasePicks(pools[|pools| - 1], pos, comb, order);
          ghost var size := LocatedSize(allTriggers, baseLine, chosen, Indices(comb), order);
          EraseIndices(order);
          ghost var a := Locate(chosen, Indices(comb), order);
          IsAccepted(s.queue, a, pool0, pos0, n0, pools, comb);
          Record(a, State(Processing, allTriggers, currentProcessingTime));
          return;
        }
      }
      allTriggers := allTriggers[1..];
      IsRejected(s.queue, pool0, pos0, n0, tried);
      Record(DropHead, State(Processing, allTriggers, currentProcessingTime));
    }

    lemma FullIsPooled(q: Queue, pool: Pool, pos: seq<seq<nat>>, n: nat)
      requires FullPool(q, baseLine, criteria.travel, pool, pos, n)
      ensures Pooled(q, baseLine, pool, pos)
    {
    }

    lemma CanErasePicks(pool: Pool, pos: seq<seq<nat>>, comb: Triggers, order: seq<nat>) returns (chosen: seq<nat>)
      requires Ascending(allTriggers) && Timed(allTriggers) && Pooled(allTriggers, baseLine, pool, pos)
      requires |pool| >= 5 && Candidate(criteria, pool, comb)
      requires multiset(order) == multiset(Indices(comb)) && NonRising(order)
      ensures Located(allTriggers, baseLine, chosen, Indices(comb), order) && |chosen| == |comb|
      ensures forall i: nat | i < |comb| ::
        chosen[i] < |allTriggers| && KeyOf(comb[i]) == KeyOf(allTriggers[chosen[i]])
    {
      hide Candidate, Located, Pooled, Product;
      CandidateInProduct(criteria, pool, comb);
      chosen := CanErase(allTriggers, baseLine, pool, pos, comb, order);
      PicksAreAsMany(allTriggers, baseLine, chosen, Indices(comb), order);
      assert forall i: nat | i < |comb| ::
        pool[i].value != [] && Originates(allTriggers, baseLine, pool[i].key, pool[i].value[0], comb[i], chosen[i]);
    }

    lemma IsAccepted(q: Queue, a: Action, full: Pool, at: seq<seq<nat>>, n: nat, pools: seq<Pool>, comb: Triggers)
      requires a.Locate? && a.idx == Indices(comb)
      requires FullPool(q, baseLine, criteria.travel, full, at, n) && 5 <= |full| && Tries(criteria, full, pools)
      requires BestOf(criteria, pools[|pools| - 1], comb) && Candidate(criteria, pools[|pools| - 1], comb)
      requires criteria.solve(comb) < criteria.threshold && |a.chosen| == |comb|
      requires forall i: nat | i < |comb| :: a.chosen[i] < |q| && KeyOf(comb[i]) == KeyOf(q[a.chosen[i]])
      ensures Accepted(q, baseLine, criteria, a, full, at, n, pools, comb)
    {
    }

    lemma IsRejected(q: Queue, full: Pool, at: seq<seq<nat>>, n: nat, pools: seq<Pool>)
      requires FullPool(q, baseLine, criteria.travel, full, at, n)
      requires |full| < 5 ||
        (Tries(criteria, full, pools) && !exists k: nat :: k < |pools| && HasFit(criteria, pools[k]))
      ensures Rejected(q, baseLine, criteria, full, at, n, pools)
    {
      hide Tries, HasFit;
    }

    /** The merge at the top of the outer loop. */
    method MergeBatch(transTriggers: Queue)
      requires Recorded(Waiting) && Timed(transTriggers)
      modifies this
      ensures Recorded(Processing)
      ensures Extended(old(states), old(actions)) && actions == old(actions) + [Merge(transTriggers)]
      ensures currentProcessingTime == old(currentProcessingTime) && Ascending(allTriggers)
      ensures forall k: Key :: k in Keys(allTriggers) <==> (k in Keys(old(allTriggers)) ||
        exists t :: t in transTriggers && Less(old(currentProcessingTime), t.time) && KeyOf(t) == k)
      ensures forall t | t in allTriggers ::
        t in old(allTriggers) || (t in transTriggers && Less(old(currentProcessingTime), t.time))
    {
      hide Inv, IsRun, Ascending, Keys, Less, Valid, Accepted, FullPool, Minus;
      ghost var s := State(Waiting, allTriggers, currentProcessingTime);
      ghost var q := allTriggers;
      assert transTriggers[..0] == [];
      for i := 0 to |transTriggers|
        invariant allTriggers == q + Admitted(transTriggers[..i], currentProcessingTime)
        invariant currentProcessingTime == old(currentProcessingTime)
        invariant states == old(states) && actions == old(actions)
      {
        assert transTriggers[..i + 1][..i] == transTriggers[..i];
        if Less(currentProcessingTime, transTriggers[i].time) {
          allTriggers := allTriggers + [transTriggers[i]];
        }
      }
      assert transTriggers[..|transTriggers|] == transTriggers;
      ghost var all := allTriggers;
      allTriggers := SortTriggers(allTriggers);
      ghost var sorted := allTriggers;
      allTriggers := Unique(allTriggers);
      SortedMerges(all, sorted, allTriggers);
      MergeExact(all, q, currentProcessingTime, transTriggers, allTriggers);
      Record(Merge(transTriggers), State(Processing, allTriggers, currentProcessingTime));
    }

    /** Since the run had actions0 it has taken these batches, by actions the code takes. */
    ghost predicate Went(run: seq<State>, taken: seq<Action>, actions0: seq<Action>, batches: seq<Queue>) {
      && |run| == |taken| + 1 && actions0 <= taken && Turns(taken[|actions0|..]) == batches
      && forall i: nat | |actions0| <= i < |taken| :: Coded(run[i], taken[i])
    }

    lemma StartsOut(run: seq<State>, taken: seq<Action>)
      requires |run| == |taken| + 1
      ensures Went(run, taken, taken, [])
    {
    }

    lemma GoesOn(run: seq<State>, taken: seq<Action>, actions0: seq<Action>, batches: seq<Queue>,
                 s: State, a: Action)
      requires Went(run, taken, actions0, batches) && Coded(run[|taken|], a)
      ensures Went(run + [s], taken + [a], actions0, batches + TurnOf(a))
    {
      hide Coded, Turns, TurnOf;
      TurnsGrow(taken, |actions0|, a);
    }

    lemma Present(phase: Phase)
      requires Recorded(phase)
      ensures |states| == |actions| + 1 && states[|actions|] == State(phase, allTriggers, currentProcessingTime)
    {
    }

    lemma Guaranteed()
      requires Recorded(Waiting)
      ensures NoneReturns(states) && TimeAdvances(states)
      ensures NoneMissed(states, actions) && TimeFollows(baseLine, states, actions)
    {
      hide Inv, IsRun, NoneReturns, TimeAdvances, NoneMissed, TimeFollows;
      RunGuarantees(baseLine, states, actions);
    }

    /** The end of a turn of the outer loop: it has found no batch, or the queue is consumed. */
    ghost method RecordTurn(a: Action)
      requires if a == Idle then Recorded(Waiting) else a == Finish && Recorded(Processing) && allTriggers == []
      modifies this`states, this`actions
      ensures Recorded(Waiting) && Extended(old(states), old(actions)) && actions == old(actions) + [a]
    {
      hide Inv, IsRun, Ascending;
      Record(a, State(Waiting, allTriggers, currentProcessingTime));
    }

    lemma IsCoded(tick: nat, s: State, a: Action)
      requires Decides(tick, s, a) || a.Idle? || a.Finish? || a.Merge?
      ensures Coded(s, a)
    {
      assert Decides(tick, s, a);
    }

    /** ThreadLoc over the batches found at each turn of the outer loop (none is an idle turn).  The
        thread makes a run of the state machine that takes exactly these batches in turn, each action
        being one the code takes.  In it every later trigger of a batch is queued at its merge, no
        trigger that has left the queue returns, and the processing time is always the base line after
        the last base trigger and never goes back. */
    method ThreadLoc(batches: seq<Queue>)
      requires Recorded(Waiting) && forall b: nat | b < |batches| :: Timed(batches[b])
      modifies this
      ensures Recorded(Waiting) && old(states) <= states && Went(states, actions, old(actions), batches)
      ensures NoneReturns(states) && TimeAdvances(states)
      ensures NoneMissed(states, actions) && TimeFollows(baseLine, states, actions)
    {
      hide NoneMissed, TimeFollows, Recorded, Went, Coded, Turns, IsRun, Inv, Timed, NoneReturns, TimeAdvances;
      ghost var actions0 := actions;
      var tick: nat := 0;
      Present(Waiting);
      StartsOut(states, actions);
      assert batches[..0] == [];
      for b := 0 to |batches|
        invariant Recorded(Waiting) && old(states) <= states && Went(states, actions, actions0, batches[..b])
      {
        assert batches[..b + 1] == batches[..b] + [batches[b]];
        tick := Turn(batches[b], tick, actions0, batches[..b]);
      }
      assert batches[..|batches|] == batches;
      Guaranteed();
    }

    /** One turn of the outer loop. */
    method Turn(batch: Queue, tick0: nat, ghost actions0: seq<Action>, ghost batches: seq<Queue>) returns (tick: nat)
      requires Recorded(Waiting) && Timed(batch) && Went(states, actions, actions0, batches)
      modifies this
      ensures Recorded(Waiting) && old(states) <= states && Went(states, actions, actions0, batches + [batch])
    {
      hide Recorded, Went, Coded, Decides, Turns, IsRun, Inv, Timed;
      tick := tick0;
      ghost var states1, actions1 := states, actions;
      Present(Waiting);
      if |batch| == 0 {
        RecordTurn(Idle);
        IsCoded(0, states1[|actions1|], Idle);
        GoesOn(states1, actions1, actions0, batches, states[|states1|], Idle);
        return;
      }
      MergeBatch(batch);
      IsCoded(0, states1[|actions1|], Merge(batch));
      GoesOn(states1, actions1, actions0, batches, states[|states1|], Merge(batch));
      var wait := false;
      while !wait && |allTriggers| > 0
        invariant Recorded(if wait then Waiting else Processing) && old(states) <= states
        invariant Went(states, actions, actions0, batches + [batch])
        decreases !wait, |allTriggers|
      {
        wait := PassOn(tick, actions0, batches + [batch]);
        tick := tick + 1;
      }
      if !wait {
        states1, actions1 := states, actions;
        Present(Processing);
        RecordTurn(Finish);
        IsCoded(0, states1[|actions1|], Finish);
        GoesOn(states1, actions1, actions0, batches + [batch], states[|states1|], Finish);
        assert batches + [batch] + [] == batches + [batch];
      }
    }

    /** A pass as part of a turn. */
    method PassOn(tick: nat, ghost actions0: seq<Action>, ghost batches: seq<Queue>) returns (wait: bool)
      requires Recorded(Processing) && allTriggers != [] && Went(states, actions, actions0, batches)
      modifies this
      ensures Recorded(if wait then Waiting else Processing) && old(states) <= states
      ensures if wait then allTriggers == old(allTriggers) else |allTriggers| < |old(allTriggers)|
      ensures Went(states, actions, actions0, batches)
    {
      hide Recorded, Went, Coded, Decides, TurnOf, IsRun, Inv;
      ghost var states1, actions1, s := states, actions, State(Processing, allTriggers, currentProcessingTime);
      Present(Processing);
      wait := Pass(tick);
      IsCoded(tick, s, actions[|actions1|]);
      GoesOn(states1, actions1, actions0, batches, states[|states1|], actions[|actions1|]);
      assert batches + [] == batches;
    }
  }

  lemma QueueOrdered(baseLine: real, states: seq<State>, actions: seq<Action>)
    requires baseLine >= 0.0 && IsRun(baseLine, states, actions) && Inv(baseLine, states[0], {})
    ensures var q := states[|actions|].queue; Ascending(q) && Timed(q)
  {
    RunKeeps(baseLine, states, actions, |actions|);
  }

  lemma PicksAreAsMany(q: Queue, baseLine: real, chosen: seq<nat>, idx: seq<nat>, order: seq<nat>)
    requires Located(q, baseLine, chosen, idx, order)
    ensures |chosen| == |idx|
  {
  }

  lemma BaseReady(q: Queue, baseLine: real)
    requires Timed(q) && q != [] && baseLine >= 0.0
    ensures Valid(q[0].time)
    ensures Later(q[0].time, baseLine) == FromInstant(Instant(q[0].time) + baseLine)
  {
  }

  lemma LocatedSize(q: Queue, baseLine: real, chosen: seq<nat>, idx: seq<nat>, order: seq<nat>) returns (n: nat)
    requires Ascending(q) && Timed(q) && Located(q, baseLine, chosen, idx, order)
    ensures Erasable(|q|, order) && n == |EraseEach(q, order)| < |q|
  {
    var falling, k, w := LocatedEffect(q, baseLine, chosen, idx, order);
    n := |EraseEach(q, order)|;
  }

  lemma SortedMerges(all: Queue, sorted: Queue, q: Queue)
    requires multiset(sorted) == multiset(all) && Ascending(q)
    requires (forall i: nat | i < |q| :: q[i] in sorted) && Keys(q) == Keys(sorted)
    ensures Merged(all, q)
  {
    forall i: nat | i < |q| ensures q[i] in all {
      assert q[i] in sorted;
      assert q[i] in multiset(sorted);
    }
    forall i: nat | i < |all| ensures KeyOf(all[i]) in Keys(q) {
      assert all[i] in multiset(sorted);
      var j: nat :| j < |sorted| && sorted[j] == all[i];
      KeyIn(sorted, j);
    }
  }
}
