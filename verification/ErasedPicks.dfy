/** Which triggers an accepted location really erases: the ones it chose exactly when each of them is
    the first of its station in the pool. */
module ErasedPicks {
  import opened GpsTime
  import opened Trigger
  import opened Tuples
  import opened LigTools
  import opened PlainList
  import opened TriggerQueue
  import opened LocatorRun
  import opened Locator
  import opened StationPool
  import opened Candidates

  /** A pick that carries index 0 without being at the front has an earlier trigger of its station. */
  ghost predicate LatePicks(q: Queue, chosen: seq<nat>, idx: seq<nat>) {
    |idx| == |chosen| && forall i: nat | i < |chosen| && chosen[i] < |q| && idx[i] != chosen[i] ::
      idx[i] == 0 && exists e: nat :: e < chosen[i] && q[e].stationID == q[chosen[i]].stationID
  }

  lemma {:induction false} WithoutGone(q: Queue, at: seq<nat>, c: nat)
    requires Ascending(q) && c in at && c < |q|
    ensures q[c] !in Without(q, at)
    decreases |q|
  {
    hide Before;
    var n := |q| - 1;
    assert forall i: nat | i < n :: q[..n][i] == q[i];
    WithoutMembers(q[..n], at);
    if c < n {
      WithoutGone(q[..n], at, c);
      Differ(q, c, n);
    } else {
      forall i: nat | i < n ensures q[i] != q[c] { Differ(q, i, c); }
    }
  }

  lemma Differ(q: Queue, i: nat, j: nat)
    requires Ascending(q) && i < j < |q|
    ensures q[i] != q[j]
  {
    assert Before(q[i], q[j]);
    KeyOrder(KeyOf(q[i]), KeyOf(q[j]), KeyOf(q[i]));
  }

  /** The element at position c, if it is not left out, comes right after what is left of those before. */
  lemma {:induction false} WithoutAt<T>(s: seq<T>, at: seq<nat>, c: nat)
    requires c < |s| && c !in at
    ensures var before := Without(s[..c], at);
      |before| < |Without(s, at)| && Without(s, at)[..|before|] == before && Without(s, at)[|before|] == s[c]
    decreases |s|
  {
    var n := |s| - 1;
    if c < n {
      WithoutAt(s[..n], at, c);
      assert s[..n][..c] == s[..c];
    }
  }

  /** A trigger of the same station before a late pick would have to be erased with it. */
  lemma LateKept(q: Queue, f: seq<nat>, k: nat, e: nat, c: nat)
    requires Ascending(q) && Timed(q) && e < c < |q| && e !in f && c !in f && k <= |Without(q, f)|
    ensures q[c] in Without(q, f)[k..] || q[e] !in Without(q, f)[k..]
  {
    hide Before;
    var r := Without(q, f);
    WithoutAt(q, f, e);
    WithoutAt(q, f, c);
    WithoutHas(q[..c], f, e);
    WithoutAscending(q, f);
    assert q[..c][e] == q[e];
    var d, g := |Without(q[..c], f)|, |Without(q[..e], f)|;
    assert r[..d] == Without(q[..c], f);
    if d >= k {
      assert r[k..][d - k] == q[c];
    } else {
      var j: nat :| j < d && r[..d][j] == q[e];
      forall i: nat | k <= i < |r| ensures r[i] != q[e] { Differ(r, j, i); }
    }
  }

  /** The erased triggers are the chosen ones exactly when every pick carries its place. */
  lemma ErasesChosen(q: Queue, baseLine: real, chosen: seq<nat>, idx: seq<nat>, order: seq<nat>)
    requires Ascending(q) && Timed(q) && Located(q, baseLine, chosen, idx, order) && LatePicks(q, chosen, idx)
    ensures EraseEach(q, order) == Without(q, chosen) <==> idx == chosen
  {
    if idx == chosen {
      FirstPicksOnly(q, baseLine, chosen, idx, order);
    } else {
      var i: nat :| i < |chosen| && idx[i] != chosen[i];
      LatePickBreaks(q, baseLine, chosen, idx, order, i);
    }
  }

  lemma LatePickBreaks(q: Queue, baseLine: real, chosen: seq<nat>, idx: seq<nat>, order: seq<nat>, i: nat)
    requires Ascending(q) && Timed(q) && Located(q, baseLine, chosen, idx, order) && LatePicks(q, chosen, idx)
    requires i < |chosen| && idx[i] != chosen[i]
    ensures EraseEach(q, order) != Without(q, chosen)
  {
    hide Ascending, Timed, InWindow, EraseEach, Without;
    var c := chosen[i];
    var e: nat :| e < c && q[e].stationID == q[c].stationID;
    ChosenDiffer(q, baseLine, chosen, idx, order);
    var f, k := SplitOrder(chosen, idx, order, |q|);
    EraseExact(q, f, k, |q|);
    assert q[..|q|] == q && q[|q|..] == [];
    NotPicked(q, chosen, i, e);
    NotOrdered(chosen, idx, order, f, k, i);
    if EraseEach(q, order) == Without(q, chosen) {
      WithoutHas(q, chosen, e);
      WithoutGone(q, chosen, c);
      LateKept(q, f, k, e, c);
      assert false;
    }
  }

  lemma NotPicked(q: Queue, chosen: seq<nat>, i: nat, e: nat)
    requires i < |chosen| && chosen[i] < |q| && e < chosen[i] && q[e].stationID == q[chosen[i]].stationID
    requires forall j: nat | j < |chosen| :: chosen[j] < |q|
    requires forall j: nat, k: nat | j < k < |chosen| :: q[chosen[j]].stationID != q[chosen[k]].stationID
    ensures e !in chosen
  {
  }

  /** A late pick's place is not among the positive indices. */
  lemma NotOrdered(chosen: seq<nat>, idx: seq<nat>, order: seq<nat>, f: seq<nat>, k: nat, i: nat)
    requires NoRepeats(chosen) && Picks(chosen, idx) && multiset(order) == multiset(idx) && order == f + Zeros(k)
    requires i < |chosen| && idx[i] != chosen[i]
    ensures chosen[i] !in f
  {
    assert idx[i] == 0;
    forall j: nat | j < |idx| ensures idx[j] != chosen[i] {
      assert j != i ==> chosen[j] != chosen[i];
    }
    assert chosen[i] !in multiset(idx);
    assert forall j: nat | j < |f| :: order[j] == f[j] && order[j] in multiset(order);
  }

  // ---- Combinations of a pool ----

  /** Every pick is the first of its station's list. */
  predicate FirstOfEach(pool: Pool, comb: Triggers) {
    |comb| == |pool| && forall i: nat | i < |comb| :: pool[i].value != [] && comb[i] == pool[i].value[0]
  }

  /** Whatever combination of a pool is accepted: the triggers erased are those chosen if and only if
      every pick is the first of its station's list. */
  lemma ErasesItsPicks(q: Queue, baseLine: real, pool: Pool, pos: seq<seq<nat>>, comb: Triggers, order: seq<nat>)
    returns (chosen: seq<nat>)
    requires Ascending(q) && Timed(q) && Pooled(q, baseLine, pool, pos) && |pool| >= 5
    requires comb in Product(Lists(pool))
    requires multiset(order) == multiset(Indices(comb)) && NonRising(order)
    ensures Located(q, baseLine, chosen, Indices(comb), order) && |comb| == |pool|
    ensures forall i: nat | i < |comb| :: KeyOf(comb[i]) == KeyOf(q[chosen[i]])
    ensures EraseEach(q, order) == Without(q, chosen) <==> FirstOfEach(pool, comb)
  {
    hide Ascending, Timed, Pooled, Product, EraseEach, Without, InWindow, Originates;
    chosen := CanErase(q, baseLine, pool, pos, comb, order);
    forall i: nat | i < |comb|
      ensures KeyOf(comb[i]) == KeyOf(q[chosen[i]])
      ensures comb[i].trigIdx == chosen[i] <==> comb[i] == pool[i].value[0]
      ensures comb[i].trigIdx != chosen[i] ==>
        comb[i].trigIdx == 0 && exists e: nat :: e < chosen[i] && q[e].stationID == q[chosen[i]].stationID
    {
      PickIsFirst(q, baseLine, pool[i].key, pool[i].value[0], comb[i], chosen[i]);
    }
    ErasesChosen(q, baseLine, chosen, Indices(comb), order);
  }

  lemma PickIsFirst(q: Queue, baseLine: real, station: int, first: TriggerInfo, t: TriggerInfo, c: nat)
    requires Ascending(q) && Originates(q, baseLine, station, first, t, c)
    ensures KeyOf(t) == KeyOf(q[c])
    ensures t.trigIdx == c <==> t == first
    ensures t.trigIdx != c ==> t.trigIdx == 0 && exists e: nat :: e < c && q[e].stationID == q[c].stationID
  {
    if t.trigIdx != c {
      var e: nat :| e < c && KeyOf(q[e]) == KeyOf(first) && first.stationID == station;
      assert Before(q[e], q[c]);
      KeyOrder(KeyOf(q[e]), KeyOf(q[c]), KeyOf(q[e]));
      assert q[e].stationID == q[c].stationID;
    }
  }

  // ---- A location that erases a trigger it did not choose ----

  /** Detections a millisecond apart, the second and third at the same station. */
  function Detection(i: nat): TriggerInfo {
    TriggerInfo(GPSTime(0, 1, 1, 0, 0, 0, i as real * 0.001), if i < 2 then i + 1 else i, 1.0, 0)
  }

  function Detections(): (q: Queue)
    ensures |q| == 6
  {
    [Detection(0), Detection(1), Detection(2), Detection(3), Detection(4), Detection(5)]
  }

  function First(i: nat): TriggerInfo {
    Detection(i).(trigIdx := i)
  }

  function PoolOfFive(): Pool {
    [Pair(1, [First(0)]), Pair(2, [First(1), Detection(2)]), Pair(3, [First(3)]), Pair(4, [First(4)]),
     Pair(5, [First(5)])]
  }

  /** The second detection of station 2 fits best. */
  function Best(): Triggers {
    [First(0), Detection(2), First(3), First(4), First(5)]
  }

  lemma DetectionTimes(i: nat, j: nat)
    requires i < 6 && j < 6
    ensures Minus(Detection(i).time, Detection(j).time) == (i - j) as real * 0.001
    ensures Valid(Detection(i).time) && (i < j ==> Before(Detection(i), Detection(j)))
  {
    assert i as real * 0.001 - j as real * 0.001 == (i - j) as real * 0.001;
  }

  lemma DetectionsQueue()
    ensures Ascending(Detections()) && Timed(Detections())
    ensures forall i: nat | i < 6 :: Detections()[i] == Detection(i)
  {
    hide Before, Valid;
    var q := Detections();
    assert forall i: nat | i < 6 :: q[i] == Detection(i);
    forall i: nat, j: nat | i < j < 6 ensures Before(q[i], q[j]) { DetectionTimes(i, j); }
    forall i: nat | i < 6 ensures Valid(q[i].time) { DetectionTimes(i, i); }
  }

  function Origin(): seq<seq<nat>> {
    [[0], [1, 2], [3], [4], [5]]
  }

  /** Any two stations a second apart. */
  function Everywhere(): TravelTimes {
    (a, b) => 1.0
  }

  lemma Near(i: nat)
    requires i < 6
    ensures InWindow(1.0, Detections()[0], Detections()[i]) && Eligible(Detections(), Everywhere(), i)
  {
    DetectionTimes(0, i);
    assert Detections()[i] == Detection(i);
  }

  lemma OneFiled(i: nat)
    requires i < 6
    ensures Filed(Detections(), 1.0, Detection(i).stationID, [First(i)], [i])
  {
    Near(i);
    hide InWindow;
    assert Detections()[i] == Detection(i);
  }

  lemma TwoFiled()
    ensures Filed(Detections(), 1.0, 2, [First(1), Detection(2)], [1, 2])
  {
    Near(1);
    Near(2);
    hide InWindow;
  }

  lemma PoolFiled()
    ensures Pooled(Detections(), 1.0, PoolOfFive(), Origin())
  {
    hide Filed, Detection, First;
    OneFiled(0);
    TwoFiled();
    OneFiled(3);
    OneFiled(4);
    OneFiled(5);
    Stations();
  }

  lemma Stations()
    ensures forall i: nat | i < 6 :: Detection(i).stationID == if i < 2 then i + 1 else i
  {
  }

  lemma PoolComplete()
    ensures Complete(Detections(), Everywhere(), PoolOfFive(), Origin(), 6)
  {
    hide Eligible, Position, First;
    var q, pool := Detections(), PoolOfFive();
    forall i: nat | i < 6 ensures Eligible(q, Everywhere(), i) { Near(i); }
    forall j: nat | j < 6
      ensures Position(pool, q[j].stationID) < |pool| && j in Origin()[Position(pool, q[j].stationID)]
    {
      var g := if j < 2 then j else j - 1;
      Stations();
      assert q[j] == Detection(j) && pool[g].key == Detection(j).stationID;
      PositionUnique(pool, g);
    }
  }

  lemma PoolFull()
    ensures FullPool(Detections(), 1.0, Everywhere(), PoolOfFive(), Origin(), 6)
  {
    hide Eligible, InWindow, Pooled, Complete, Detections, Detection, PoolOfFive, Origin;
    PoolFiled();
    PoolComplete();
    DetectionsQueue();
    forall j: nat | j < 6 ensures !StopsAt(Detections(), 1.0, j) { Near(j); }
  }

  // ---- The solver and the erasure ----

  function Solver(): Triggers -> real {
    t => if t == Best() then 0.0 else 1.0
  }

  /** Where the threshold is a half. */
  function Terms(): Criteria {
    Criteria(Everywhere(), Solver(), (comb, t) => 0.0, 0.5)
  }

  lemma {:induction false} Leading<T>(s: seq<T>, x: T) returns (i: nat)
    requires x in s
    ensures i < |s| && s[i] == x && forall j: nat | j < i :: s[j] != x
    decreases |s|
  {
    if s[0] == x {
      i := 0;
    } else {
      assert x in s[1..];
      i := Leading(s[1..], x);
      i := i + 1;
      forall j: nat | j < i ensures s[j] != x { assert j > 0 ==> s[j] == s[1..][j - 1]; }
    }
  }

  lemma BestIsCandidate()
    ensures |Best()| == 5 && Best() in Combinations(Terms(), PoolOfFive())
  {
    hide Detection, Product, Matching;
    var pool, comb := PoolOfFive(), Best();
    forall i: nat | i < 5 ensures comb[i] in Lists(pool)[i] {
      assert comb[i] == pool[i].value[if i == 1 then 1 else 0];
    }
    FromEachStation(Lists(pool), comb);
    BestIsCompatible();
    MatchingFromNothing(Reach(Everywhere()), Product(Lists(pool)), comb);
  }

  lemma BestIsCompatible()
    ensures Compatible(Reach(Everywhere()), Best())
  {
    forall i: nat, j: nat | i < j < 5 ensures Reach(Everywhere())(Best()[i], Best()[j]) {
      var m, n := if i == 0 then 0 else i + 1, j + 1;
      assert Best()[i].time == Detection(m).time && Best()[j].time == Detection(n).time;
      DetectionTimes(n, m);
    }
  }

  lemma BestIsBest()
    ensures BestOf(Terms(), PoolOfFive(), Best()) && Candidate(Terms(), PoolOfFive(), Best())
    ensures Terms().solve(Best()) < Terms().threshold && Tries(Terms(), PoolOfFive(), [PoolOfFive()])
  {
    hide Best, Combinations, Candidate;
    BestIsCandidate();
    CandidatesExact(Terms(), PoolOfFive(), Best());
    var i := Leading(Combinations(Terms(), PoolOfFive()), Best());
    assert FirstLeast(Solver(), Combinations(Terms(), PoolOfFive()), i);
  }

  /** The places of its triggers in the queue, and the indices it carries in the order of erasure. */
  function Chosen(): (c: seq<nat>)
    ensures |c| == 5 && forall i: nat | i < 5 :: c[i] == if i == 0 then 0 else i + 1
  {
    [0, 2, 3, 4, 5]
  }

  function Order(): (o: seq<nat>)
    ensures |o| == 5 && NonRising(o)
  {
    [5, 4, 3, 0, 0]
  }

  function KeptOne<T>(i: nat, x: T, at: seq<nat>): seq<T> {
    if i in at then [] else [x]
  }

  lemma WithoutSnoc<T>(s: seq<T>, x: T, at: seq<nat>)
    ensures Without(s + [x], at) == Without(s, at) + KeptOne(|s|, x, at)
  {
    assert (s + [x])[..|s|] == s;
  }

  lemma WithoutSix<T>(a: T, b: T, c: T, d: T, e: T, f: T, at: seq<nat>)
    ensures Without([a, b, c, d, e, f], at)
         == KeptOne(0, a, at) + KeptOne(1, b, at) + KeptOne(2, c, at)
            + KeptOne(3, d, at) + KeptOne(4, e, at) + KeptOne(5, f, at)
  {
    hide Without, KeptOne;
    var none: seq<T> := [];
    WithoutNone(none);
    WithoutNothing(none, at);
    assert none + [a] == [a] && [a] + [b] == [a, b] && [a, b] + [c] == [a, b, c];
    assert [a, b, c] + [d] == [a, b, c, d] && [a, b, c, d] + [e] == [a, b, c, d, e];
    assert [a, b, c, d, e] + [f] == [a, b, c, d, e, f];
    WithoutSnoc(none, a, at);
    WithoutSnoc([a], b, at);
    WithoutSnoc([a, b], c, at);
    WithoutSnoc([a, b, c], d, at);
    WithoutSnoc([a, b, c, d], e, at);
    WithoutSnoc([a, b, c, d, e], f, at);
    assert none + KeptOne(0, a, at) == KeptOne(0, a, at);
  }

  lemma WithoutNothing<T>(s: seq<T>, at: seq<nat>)
    requires s == []
    ensures Without(s, at) == []
  {
  }

  lemma ChosenGone<T>(a: T, b: T, c: T, d: T, e: T, f: T)
    ensures Without([a, b, c, d, e, f], Chosen()) == [b]
  {
    hide Without;
    WithoutSix(a, b, c, d, e, f, Chosen());
  }

  lemma ErasedInOrder<T>(s: seq<T>, a: T, b: T, c: T, d: T, e: T, f: T)
    requires s == [a, b, c, d, e, f]
    ensures Erasable(6, Order()) && EraseEach(s, Order()) == [c]
  {
    hide Without, EraseEach, Erasable;
    var falling: seq<nat> := [5, 4, 3];
    EraseExact(s, falling, 2, 6);
    assert Zeros(2) == [0, 0] && falling + Zeros(2) == Order();
    WithoutSix(a, b, c, d, e, f, falling);
    assert Without(s, falling) == [a, b, c];
    assert s[..6] == s;
  }

  lemma PicksCarried()
    ensures Picks(Chosen(), Indices(Best())) && multiset(Order()) == multiset(Indices(Best()))
  {
    FirstIndex();
    hide Detection, First;
    var idx := Indices(Best());
    assert idx == [0, 0, 3, 4, 5];
  }

  lemma ChosenStations()
    ensures forall i: nat | i < 5 :: Detections()[Chosen()[i]].stationID == i + 1
  {
    hide Detection, Detections;
    DetectionsQueue();
    Stations();
  }

  lemma ChosenNear()
    ensures forall i: nat | i < 5 :: InWindow(1.0, Detections()[0], Detections()[Chosen()[i]])
  {
    hide Detections, InWindow;
    DetectionsQueue();
    forall i: nat | i < 5 ensures InWindow(1.0, Detections()[0], Detections()[Chosen()[i]]) { Near(Chosen()[i]); }
  }

  lemma FirstIndex()
    ensures Detection(2).trigIdx == 0 && forall i: nat :: First(i).trigIdx == i
  {
  }

  lemma IsLocated()
    ensures Located(Detections(), 1.0, Chosen(), Indices(Best()), Order())
  {
    hide Detections, Detection, InWindow, Chosen, Order, Best, Erasable, Picks, NonRising;
    DetectionsQueue();
    ChosenNear();
    ChosenStations();
    PicksCarried();
    SixDetections();
    ErasedInOrder(Detections(), Detection(0), Detection(1), Detection(2), Detection(3), Detection(4), Detection(5));
  }

  lemma SixDetections()
    ensures Detections() == [Detection(0), Detection(1), Detection(2), Detection(3), Detection(4), Detection(5)]
  {
  }

  lemma SecondPick()
    ensures !FirstOfEach(PoolOfFive(), Best())
  {
    FirstIndex();
    hide Detection, First;
    assert Best()[1] == Detection(2) && PoolOfFive()[1].value[0] == First(1);
  }

  lemma PicksKeys()
    ensures |Best()| == 5 && forall i: nat | i < 5 :: KeyOf(Best()[i]) == KeyOf(Detections()[Chosen()[i]])
  {
    SixDetections();
    hide Detection;
  }

  lemma IsTaken()
    ensures Accepted(Detections(), 1.0, Terms(), Locate(Chosen(), Indices(Best()), Order()), PoolOfFive(), Origin(), 6,
                     [PoolOfFive()], Best())
  {
    hide Detection, Detections, Chosen, Order, Best, Indices, FullPool, BestOf, Candidate, Tries, Terms;
    PoolFull();
    BestIsBest();
    PicksKeys();
    assert Terms().travel == Everywhere() && |PoolOfFive()| == 5 by { TermsAre(); }
  }

  lemma TermsAre()
    ensures Terms().travel == Everywhere() && |PoolOfFive()| == 5
  {
  }

  /** The locating loop builds this pool and, with a solver that this combination fits best, takes it.
      It then erases the first detection of station 2 and leaves the one it located in the queue. */
  lemma WrongTriggerGoes()
    ensures var q, pool, comb := Detections(), PoolOfFive(), Best();
      && Ascending(q) && Timed(q) && FullPool(q, 1.0, Everywhere(), pool, Origin(), 6)
      && Accepted(q, 1.0, Terms(), Locate(Chosen(), Indices(comb), Order()), pool, Origin(), 6, [pool], comb)
      && Located(q, 1.0, Chosen(), Indices(comb), Order()) && Erasable(|q|, Order())
      && EraseEach(q, Order()) == [Detection(2)] && Without(q, Chosen()) == [Detection(1)]
      && !FirstOfEach(pool, comb)
  {
    hide Ascending, Timed, FullPool, Accepted, Located, EraseEach, Erasable, Without, Terms, Everywhere;
    hide Detection, First, Detections, Chosen, Order, Best, Indices, FirstOfEach, PoolOfFive, Origin;
    DetectionsQueue();
    SixDetections();
    PoolFull();
    IsTaken();
    IsLocated();
    SecondPick();
    ErasedInOrder(Detections(), Detection(0), Detection(1), Detection(2), Detection(3), Detection(4), Detection(5));
    ChosenGone(Detection(0), Detection(1), Detection(2), Detection(3), Detection(4), Detection(5));
  }
}
