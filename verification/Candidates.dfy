/** The candidate combinations of a station pool, the one the solver fits best, and the pools tried one
    after the other while none fits. */
module Candidates {
  import opened GpsTime
  import opened Trigger
  import opened Tuples
  import opened LigTools
  import opened PlainList
  import opened StationPool

  const FLOAT_MAX: real := 1000000000000.0

  /** What ProcessCombinationPool minimises. */
  function Score(solve: Triggers -> real, comb: Triggers): real {
    if |comb| < 5 then FLOAT_MAX else solve(comb)
  }

  ghost predicate FirstLeast(solve: Triggers -> real, combs: seq<Triggers>, i: nat) {
    && i < |combs|
    && (forall j: nat | j < |combs| :: Score(solve, combs[i]) <= Score(solve, combs[j]))
    && (forall j: nat | j < i :: Score(solve, combs[i]) < Score(solve, combs[j]))
  }

  /** What a search for a location goes by: the travel times between the stations, the solver's score
      of a combination, the misfit of each of its triggers, and the threshold a score must stay below. */
  datatype Criteria = Criteria(travel: TravelTimes, solve: Triggers -> real, residual: (Triggers, TriggerInfo) -> real,
                               threshold: real)

  ghost function Combinations(c: Criteria, pool: Pool): seq<Triggers> {
    Matching(Reach(c.travel), [], Product(Lists(pool)))
  }

  /** The combination is the first among the pool's best-fitting ones. */
  ghost predicate BestOf(c: Criteria, pool: Pool, comb: Triggers) {
    exists i: nat :: FirstLeast(c.solve, Combinations(c, pool), i) && Combinations(c, pool)[i] == comb
  }

  /** One trigger of each station of the pool, every two no further apart than the travel time between
      their stations and a tenth of a millisecond. */
  ghost predicate Candidate(c: Criteria, pool: Pool, comb: Triggers) {
    && |comb| == |pool| && (forall i: nat | i < |comb| :: comb[i] in pool[i].value)
    && forall i: nat, j: nat | i < j < |comb| ::
         var r := c.travel(comb[i].stationID, comb[j].stationID) + 1.0 / 10000.0;
         -r <= Minus(comb[j].time, comb[i].time) <= r
  }

  /** Some candidate of the pool fits below the threshold. */
  ghost predicate HasFit(c: Criteria, pool: Pool) {
    exists comb :: Candidate(c, pool, comb) && c.solve(comb) < c.threshold
  }

  /** The search gives up a station of the pool: it has more than six, there are candidates, and all of
      them fit worse than the threshold. */
  ghost predicate GivesUp(c: Criteria, pool: Pool) {
    && |pool| > 6 && (exists comb :: Candidate(c, pool, comb))
    && forall comb | Candidate(c, pool, comb) :: c.solve(comb) > c.threshold
  }

  /** The second pool is the first without the station whose trigger fits worst in the best candidate. */
  ghost predicate LosesWorst(c: Criteria, pool: Pool, pool': Pool) {
    exists comb: Triggers, i: nat ::
      && BestOf(c, pool, comb) && FitsWorst(c.residual, comb, i) && i < |pool|
      && pool' == pool[..i] + pool[i + 1..]
  }

  /** The pools a search of the full pool goes through: up to twice the worst station is given up. */
  ghost predicate Tries(c: Criteria, full: Pool, pools: seq<Pool>) {
    && 1 <= |pools| <= 3 && pools[0] == full
    && (forall k: nat | k + 1 < |pools| :: GivesUp(c, pools[k]) && LosesWorst(c, pools[k], pools[k + 1]))
    && (|pools| < 3 ==> !GivesUp(c, pools[|pools| - 1]))
  }

  /** Only the last pool of a search can have a fit. */
  lemma OnlyLastFits(c: Criteria, full: Pool, pools: seq<Pool>)
    requires Tries(c, full, pools)
    ensures HasFit(c, pools[|pools| - 1]) <==> exists k: nat :: k < |pools| && HasFit(c, pools[k])
    ensures forall k: nat | k + 1 < |pools| :: !HasFit(c, pools[k])
  {
    hide Candidate, LosesWorst;
    assert forall k: nat | k + 1 < |pools| :: GivesUp(c, pools[k]);
  }

  lemma {:induction false} CandidatesExact(c: Criteria, pool: Pool, comb: Triggers)
    ensures comb in Combinations(c, pool) <==> Candidate(c, pool, comb)
  {
    hide Minus, Product, Matching;
    MatchingFromNothing(Reach(c.travel), Product(Lists(pool)), comb);
    FromEachStation(Lists(pool), comb);
    if |comb| == |pool| { CompatibleExact(c, pool, comb); }
  }

  lemma CompatibleExact(c: Criteria, pool: Pool, comb: Triggers)
    requires |comb| == |pool|
    ensures Compatible(Reach(c.travel), comb) <==>
      (forall i: nat, j: nat | i < j < |comb| ::
        var r := c.travel(comb[i].stationID, comb[j].stationID) + 1.0 / 10000.0;
        -r <= Minus(comb[j].time, comb[i].time) <= r)
  {
    hide Minus;
    forall i: nat, j: nat | i < j < |comb|
      ensures var r := c.travel(comb[i].stationID, comb[j].stationID) + 1.0 / 10000.0;
        Reach(c.travel)(comb[i], comb[j]) <==> -r <= Minus(comb[j].time, comb[i].time) <= r
    {
    }
  }

  lemma CandidateInProduct(c: Criteria, pool: Pool, comb: Triggers)
    requires Candidate(c, pool, comb)
    ensures comb in Product(Lists(pool))
  {
    hide Product, Minus;
    FromEachStation(Lists(pool), comb);
  }

  /** What a search of a pool of at least five stations has found: its combinations, which are the
      candidates, and the first one with the least score. */
  ghost predicate Searched(c: Criteria, pool: Pool, combs: seq<Triggers>, minSq: real, i: nat) {
    && combs == Combinations(c, pool)
    && (combs == [] ==> minSq > c.threshold && forall comb :: !Candidate(c, pool, comb))
    && (combs != [] ==>
          && i < |combs| && BestOf(c, pool, combs[i]) && Candidate(c, pool, combs[i]) && minSq == c.solve(combs[i])
          && forall comb | Candidate(c, pool, comb) :: minSq <= c.solve(comb))
  }

  lemma FoundBest(c: Criteria, pool: Pool, combs: seq<Triggers>, minSq: real, i: nat)
    requires combs == Combinations(c, pool) && |pool| >= 5
    requires if combs == [] then minSq > c.threshold
             else FirstLeast(c.solve, combs, i) && minSq == Score(c.solve, combs[i])
    ensures Searched(c, pool, combs, minSq, i)
  {
    hide Combinations, Candidate;
    forall comb ensures comb in combs <==> Candidate(c, pool, comb) { CandidatesExact(c, pool, comb); }
    forall comb | Candidate(c, pool, comb) ensures |comb| >= 5 { CandidateSize(c, pool, comb); }
  }

  lemma CandidateSize(c: Criteria, pool: Pool, comb: Triggers)
    requires Candidate(c, pool, comb)
    ensures |comb| == |pool|
  {
  }

  /** The search gives up a station exactly when its least score is above the threshold. */
  lemma GivesUpExact(c: Criteria, pool: Pool, combs: seq<Triggers>, minSq: real, i: nat)
    requires Searched(c, pool, combs, minSq, i)
    ensures GivesUp(c, pool) <==> |pool| > 6 && combs != [] && minSq > c.threshold
    ensures HasFit(c, pool) <==> minSq < c.threshold
  {
    hide Combinations, Candidate, BestOf;
  }

  /** One more pool is tried. */
  lemma TryNext(c: Criteria, full: Pool, pools: seq<Pool>, pool': Pool)
    requires |pools| >= 1 && pools[0] == full && GivesUp(c, pools[|pools| - 1])
    requires forall k: nat | k + 1 < |pools| :: GivesUp(c, pools[k]) && LosesWorst(c, pools[k], pools[k + 1])
    requires LosesWorst(c, pools[|pools| - 1], pool')
    ensures var pools' := pools + [pool'];
      && pools'[0] == full
      && forall k: nat | k + 1 < |pools'| :: GivesUp(c, pools'[k]) && LosesWorst(c, pools'[k], pools'[k + 1])
  {
    hide GivesUp, LosesWorst;
  }

  method ProcessCombinationPool(solve: Triggers -> real, combs: seq<Triggers>) returns (minSq: real, finalCombIdx: nat)
    requires combs != []
    ensures FirstLeast(solve, combs, finalCombIdx) && minSq == Score(solve, combs[finalCombIdx])
    ensures minSq == if |combs[finalCombIdx]| < 5 then 1000000000000.0 else solve(combs[finalCombIdx])
    ensures forall j: nat | j < |combs| && |combs[j]| >= 5 :: minSq <= solve(combs[j])
  {
    var sqList := new real[|combs|];
    for m := 0 to |combs|
      invariant forall i: nat | i < m :: sqList[i] == Score(solve, combs[i])
    {
      if |combs[m]| < 5 {
        sqList[m] := FLOAT_MAX;
        continue;
      }
      sqList[m] := solve(combs[m]);
    }
    finalCombIdx := 0;
    for m := 1 to |combs|
      invariant finalCombIdx < m
      invariant forall j: nat | j < m :: sqList[finalCombIdx] <= sqList[j]
      invariant forall j: nat | j < finalCombIdx :: sqList[finalCombIdx] < sqList[j]
    {
      if sqList[m] < sqList[finalCombIdx] {
        finalCombIdx := m;
      }
    }
    minSq := sqList[finalCombIdx];
    assert forall j: nat | j < |combs| :: sqList[j] == Score(solve, combs[j]);
  }

  /** comb[i] fits worst; of equal residuals, its station has the smallest number. */
  ghost predicate FitsWorst(residual: (Triggers, TriggerInfo) -> real, comb: Triggers, i: nat) {
    i < |comb| && forall j: nat | j < |comb| ::
      residual(comb, comb[j]) < residual(comb, comb[i])
      || (residual(comb, comb[j]) == residual(comb, comb[i]) && comb[i].stationID <= comb[j].stationID)
  }

  /** The station whose trigger fits worst.  The residuals are kept in a map ordered by station, so of
      equal ones the station with the smallest number comes first. */
  method WorstStation(residual: (Triggers, TriggerInfo) -> real, comb: Triggers) returns (station: int)
    requires comb != []
    ensures exists i: nat :: (
      && FitsWorst(residual, comb, i) && comb[i].stationID == station
      && forall j: nat | j < |comb| :: (
           && residual(comb, comb[j]) <= residual(comb, comb[i])
           && (residual(comb, comb[j]) == residual(comb, comb[i]) ==> station <= comb[j].stationID)))
  {
    var w := 0;
    for i := 1 to |comb|
      invariant w < i
      invariant forall j: nat | j < i ::
        residual(comb, comb[j]) < residual(comb, comb[w])
        || (residual(comb, comb[j]) == residual(comb, comb[w]) && comb[w].stationID <= comb[j].stationID)
    {
      if residual(comb, comb[i]) > residual(comb, comb[w])
         || (residual(comb, comb[i]) == residual(comb, comb[w]) && comb[i].stationID < comb[w].stationID) {
        w := i;
      }
    }
    station := comb[w].stationID;
    assert FitsWorst(residual, comb, w);
  }
}
