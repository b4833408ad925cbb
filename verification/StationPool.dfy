/** The station pool of the locating loop: which triggers around the head of the queue it holds, and
    where in the queue they come from. */
module StationPool {
  import opened GpsTime
  import opened Trigger
  import opened Tuples
  import opened LigTools
  import opened PlainList
  import opened TriggerQueue
  import opened LocatorRun

  const MAX_STATIONS: nat := 8

  /** The station pool: per station, in order of first appearance, its triggers.  It is kept in an
      ordered hash table, which stands for this list. */
  type Pool = seq<Pair<int, Triggers>>

  function Lists(pool: Pool): (r: seq<Triggers>)
    ensures |r| == |pool| && forall i: nat | i < |r| :: r[i] == pool[i].value
  {
    seq(|pool|, i requires 0 <= i < |pool| => pool[i].value)
  }

  /** The pool holds copies of queue triggers in the window of the head, filed under their stations in
      queue order, the stations in the order in which they first came: pos says where in the queue each
      came from.  The first of each station carries its position, the later ones keep index 0. */
  ghost predicate Pooled(q: Queue, baseLine: real, pool: Pool, pos: seq<seq<nat>>) {
    && q != [] && Distinct(pool) && |pos| == |pool| <= MAX_STATIONS
    && (forall g: nat | g < |pool| :: Filed(q, baseLine, pool[g].key, pool[g].value, pos[g])) && Opened(pos)
  }

  /** The files were opened in this order. */
  ghost predicate Opened(pos: seq<seq<nat>>) {
    && (forall g: nat | g < |pos| :: pos[g] != [])
    && forall g: nat, h: nat | g < h < |pos| :: pos[g][0] < pos[h][0]
  }

  ghost predicate Filed(q: Queue, baseLine: real, station: int, triggers: Triggers, at: seq<nat>) {
    && q != [] && |at| == |triggers| > 0
    && (forall m: nat, k: nat | m < k < |at| :: at[m] < at[k])
    && forall m: nat | m < |at| ::
         && at[m] < |q| && q[at[m]].stationID == station && InWindow(baseLine, q[0], q[at[m]])
         && triggers[m] == q[at[m]].(trigIdx := if m == 0 then at[m] else q[at[m]].trigIdx)
  }

  /** The trigger at position j is one the pool loop takes: not of opposite polarity, and within
      reach of the head. */
  predicate Eligible(q: Queue, travel: TravelTimes, j: nat)
    requires j < |q|
  {
    && !(q[0].value * q[j].value < 0.0)
    && Abs(Minus(q[0].time, q[j].time)) <= travel(q[0].stationID, q[j].stationID) + 0.0001
  }

  /** The pool loop stops at position j. */
  predicate StopsAt(q: Queue, baseLine: real, j: nat)
    requires j < |q|
  {
    !(q[0].value * q[j].value < 0.0) && !InWindow(baseLine, q[0], q[j])
  }

  /** Every eligible trigger before n is filed, but for those of stations that came when the pool was
      full, and no other is. */
  ghost predicate Complete(q: Queue, travel: TravelTimes, pool: Pool, pos: seq<seq<nat>>, n: nat) {
    && n <= |q| && |pos| == |pool| && OnlyEligible(q, travel, pos, n)
    && forall j: nat | j < n && Eligible(q, travel, j) ::
         var g := Position(pool, q[j].stationID);
         if g < |pool| then j in pos[g] else CrowdedOut(pos, j)
  }

  /** Files of the full number of stations were opened before position j. */
  ghost predicate CrowdedOut(pos: seq<seq<nat>>, j: nat) {
    |pos| == MAX_STATIONS && forall g: nat | g < |pos| :: pos[g] != [] && pos[g][0] < j
  }

  ghost predicate OnlyEligible(q: Queue, travel: TravelTimes, pos: seq<seq<nat>>, n: nat)
    requires n <= |q|
  {
    forall g: nat, m: nat | g < |pos| && m < |pos[g]| :: pos[g][m] < n && Eligible(q, travel, pos[g][m])
  }

  /** The pool the pool loop builds around the head. */
  ghost predicate FullPool(q: Queue, baseLine: real, travel: TravelTimes, pool: Pool, pos: seq<seq<nat>>, n: nat) {
    && Pooled(q, baseLine, pool, pos) && Complete(q, travel, pool, pos, n)
    && (forall j: nat | j < n :: !StopsAt(q, baseLine, j))
    && (n < |q| ==> StopsAt(q, baseLine, n))
  }

  // ---- Which triggers a full pool holds ----

  predicate InFile(pool: Pool, pos: seq<seq<nat>>, station: int, j: nat)
    requires |pos| == |pool|
  {
    exists g: nat :: g < |pool| && pool[g].key == station && j in pos[g]
  }

  /** Eight stations, and not this one, had a trigger in the pool before position j. */
  predicate EightBefore(pool: Pool, pos: seq<seq<nat>>, station: int, j: nat)
    requires |pos| == |pool|
  {
    |pool| == 8 && forall g: nat | g < 8 :: pool[g].key != station && pos[g] != [] && pos[g][0] < j
  }

  /** The trigger does not have the opposite polarity of the base trigger, comes in its minute, not
      before it, and within both the base line and the travel time and a tenth of a millisecond. */
  predicate Companion(baseLine: real, travel: TravelTimes, base: TriggerInfo, t: TriggerInfo)
    requires Valid(base.time) && Valid(t.time)
  {
    && base.value * t.value >= 0.0 && SameMinute(base.time, t.time)
    && 0.0 <= Instant(t.time) - Instant(base.time) <= baseLine
    && 10000.0 * (Instant(t.time) - Instant(base.time) - travel(base.stationID, t.stationID)) <= 1.0
  }

  /** The pool around the head: a trigger whose station is up to 39 seconds away is in it exactly when
      it is a companion of the head and its station did not come after eight others. */
  ghost predicate HoldsCompanions(q: Queue, baseLine: real, travel: TravelTimes, pool: Pool, pos: seq<seq<nat>>)
    requires Timed(q)
  {
    && q != [] && |pos| == |pool| <= 8
    && (forall g: nat, m: nat | g < |pool| && m < |pos[g]| ::
          pos[g][m] < |q| && q[pos[g][m]].stationID == pool[g].key && q[0].value * q[pos[g][m]].value >= 0.0)
    && forall j: nat | j < |q| && travel(q[0].stationID, q[j].stationID) <= 39.0 ::
         InFile(pool, pos, q[j].stationID, j)
         <==> (Companion(baseLine, travel, q[0], q[j]) && !EightBefore(pool, pos, q[j].stationID, j))
  }

  lemma PoolExact(q: Queue, baseLine: real, travel: TravelTimes, pool: Pool, pos: seq<seq<nat>>, n: nat)
    requires Ascending(q) && Timed(q) && FullPool(q, baseLine, travel, pool, pos, n)
    ensures HoldsCompanions(q, baseLine, travel, pool, pos)
  {
    hide Ascending, Valid, InWindow, Eligible, Companion, EightBefore, InFile, Complete, Opened;
    FiledFacts(q, baseLine, travel, pool, pos, n);
    forall j: nat | j < |q| && travel(q[0].stationID, q[j].stationID) <= 39.0
      ensures InFile(pool, pos, q[j].stationID, j)
              <==> (Companion(baseLine, travel, q[0], q[j]) && !EightBefore(pool, pos, q[j].stationID, j))
    {
      if InFile(pool, pos, q[j].stationID, j) {
        InFileIsCompanion(q, baseLine, travel, pool, pos, n, j);
      } else if Companion(baseLine, travel, q[0], q[j]) {
        CompanionInFile(q, baseLine, travel, pool, pos, n, j);
      }
    }
  }

  lemma FiledFacts(q: Queue, baseLine: real, travel: TravelTimes, pool: Pool, pos: seq<seq<nat>>, n: nat)
    requires FullPool(q, baseLine, travel, pool, pos, n)
    ensures q != [] && |pos| == |pool| <= 8
    ensures forall g: nat, m: nat | g < |pool| && m < |pos[g]| ::
      pos[g][m] < |q| && q[pos[g][m]].stationID == pool[g].key && q[0].value * q[pos[g][m]].value >= 0.0
  {
    hide InWindow, Opened, Position, CrowdedOut;
    forall g: nat, m: nat | g < |pool| && m < |pos[g]|
      ensures pos[g][m] < |q| && q[pos[g][m]].stationID == pool[g].key && q[0].value * q[pos[g][m]].value >= 0.0
    {
      assert Filed(q, baseLine, pool[g].key, pool[g].value, pos[g]);
      assert Eligible(q, travel, pos[g][m]);
    }
  }

  lemma InFileIsCompanion(q: Queue, baseLine: real, travel: TravelTimes, pool: Pool, pos: seq<seq<nat>>, n: nat,
                          j: nat)
    requires Timed(q) && FullPool(q, baseLine, travel, pool, pos, n) && j < |q|
    requires InFile(pool, pos, q[j].stationID, j) && travel(q[0].stationID, q[j].stationID) <= 39.0
    ensures Companion(baseLine, travel, q[0], q[j]) && !EightBefore(pool, pos, q[j].stationID, j)
  {
    hide Valid, Companion, Opened, Position, CrowdedOut, InWindow, Eligible;
    var g: nat :| g < |pool| && pool[g].key == q[j].stationID && j in pos[g];
    var m: nat :| m < |pos[g]| && pos[g][m] == j;
    assert Filed(q, baseLine, pool[g].key, pool[g].value, pos[g]);
    assert Eligible(q, travel, pos[g][m]);
    EligibleNear(q, baseLine, travel, j);
  }

  lemma EligibleNear(q: Queue, baseLine: real, travel: TravelTimes, j: nat)
    requires Timed(q) && j < |q| && InWindow(baseLine, q[0], q[j]) && Eligible(q, travel, j)
    requires travel(q[0].stationID, q[j].stationID) <= 39.0
    ensures Companion(baseLine, travel, q[0], q[j])
  {
    hide SameMinute, Instant, Minus, Less, Valid;
    WindowBound(baseLine, q[0], q[j]);
    MinusOpposite(q[0].time, q[j].time);
    SmallDifferenceExact(q[j].time, q[0].time);
    SameMinuteBack(q[0].time, q[j].time);
  }

  lemma CompanionInFile(q: Queue, baseLine: real, travel: TravelTimes, pool: Pool, pos: seq<seq<nat>>, n: nat,
                        j: nat)
    requires Ascending(q) && Timed(q) && FullPool(q, baseLine, travel, pool, pos, n) && j < |q|
    requires Companion(baseLine, travel, q[0], q[j])
    ensures InFile(pool, pos, q[j].stationID, j) || EightBefore(pool, pos, q[j].stationID, j)
  {
    hide Ascending, Timed, InWindow, Eligible, Companion, Opened, Filed;
    CompanionEligible(q, baseLine, travel, j, j);
    if n <= j { CompanionEligible(q, baseLine, travel, n, j); }
    var g := Position(pool, q[j].stationID);
    if g == |pool| { assert forall h: nat | h < |pool| :: pool[h].key != q[j].stationID; }
  }

  /** In an ascending queue whatever lies between the head and a companion is in the window. */
  lemma CompanionEligible(q: Queue, baseLine: real, travel: TravelTimes, k: nat, j: nat)
    requires Ascending(q) && Timed(q) && k <= j < |q| && Companion(baseLine, travel, q[0], q[j])
    ensures InWindow(baseLine, q[0], q[k]) && (k == j ==> Eligible(q, travel, j))
  {
    hide Instant, Minus, Ascending;
    TimesAscend(q, 0, k);
    TimesAscend(q, k, j);
    OrderAgrees(q[k].time, q[0].time);
    OrderAgrees(q[j].time, q[k].time);
    assert SameMinute(q[0].time, q[k].time);
    ExactWithinMinute(q[k].time, q[0].time);
    MinusOpposite(q[0].time, q[k].time);
    SameMinuteBack(q[0].time, q[k].time);
  }

  // ---- The pool ----

  lemma PositionAppend<K, V>(s: seq<Pair<K, V>>, x: Pair<K, V>, key: K)
    ensures Position(s + [x], key) ==
      if Position(s, key) < |s| then Position(s, key) else if x.key == key then |s| else |s| + 1
  {
    var t, p := s + [x], Position(s, key);
    assert t[|s|] == x;
    assert forall i: nat | i < |s| :: t[i] == s[i];
    if p < |s| { assert t[p].key == key; }
  }

  lemma PositionSameKeys<K, V>(s: seq<Pair<K, V>>, t: seq<Pair<K, V>>, key: K)
    requires |s| == |t| && forall i: nat | i < |s| :: s[i].key == t[i].key
    ensures Position(s, key) == Position(t, key)
  {
    var p, r := Position(s, key), Position(t, key);
    if p < |s| { assert t[p].key == key; }
    if r < |t| { assert s[r].key == key; }
  }

  /** A trigger of a new station opens a file. */
  lemma OpenFile(q: Queue, baseLine: real, travel: TravelTimes, pool: Pool, pos: seq<seq<nat>>, j: nat)
    requires Pooled(q, baseLine, pool, pos) && j < |q| && Complete(q, travel, pool, pos, j)
    requires InWindow(baseLine, q[0], q[j]) && Eligible(q, travel, j) && |pool| < MAX_STATIONS
    requires Position(pool, q[j].stationID) == |pool|
    ensures var pool' := pool + [Pair(q[j].stationID, [q[j].(trigIdx := j)])];
      Pooled(q, baseLine, pool', pos + [[j]]) && Complete(q, travel, pool', pos + [[j]], j + 1)
  {
    hide InWindow, Eligible, OnlyEligible, Filed, Pooled, Position;
    PooledSizes(q, baseLine, pool, pos);
    AllBefore(q, travel, pos, j);
    var x := Pair(q[j].stationID, [q[j].(trigIdx := j)]);
    var pool', pos' := pool + [x], pos + [[j]];
    assert pool'[|pool|] == x && pos'[|pool|] == [j];
    EligibleOpened(q, travel, pos, j);
    PoolOpened(q, baseLine, pool, pos, j);
    forall i: nat | i < j + 1 && Eligible(q, travel, i)
      ensures var g := Position(pool', q[i].stationID);
              if g < |pool'| then i in pos'[g] else CrowdedOut(pos', i)
    {
      PositionAppend(pool, x, q[i].stationID);
    }
  }

  lemma NothingFiled(q: Queue, baseLine: real, travel: TravelTimes)
    requires q != []
    ensures Pooled(q, baseLine, [], []) && Complete(q, travel, [], [], 0)
  {
  }

  /** A trigger that is not eligible, or whose station comes too late, is passed over. */
  lemma NotFiled(q: Queue, travel: TravelTimes, pool: Pool, pos: seq<seq<nat>>, j: nat)
    requires j < |q| && Complete(q, travel, pool, pos, j)
    requires !Eligible(q, travel, j) || (Position(pool, q[j].stationID) == |pool| && CrowdedOut(pos, j))
    ensures Complete(q, travel, pool, pos, j + 1)
  {
    hide Eligible, Position, CrowdedOut;
  }

  lemma PooledSizes(q: Queue, baseLine: real, pool: Pool, pos: seq<seq<nat>>)
    requires Pooled(q, baseLine, pool, pos)
    ensures q != [] && |pos| == |pool| <= MAX_STATIONS
  {
  }

  lemma PoolOpened(q: Queue, baseLine: real, pool: Pool, pos: seq<seq<nat>>, j: nat)
    requires Pooled(q, baseLine, pool, pos) && j < |q| && InWindow(baseLine, q[0], q[j]) && |pool| < MAX_STATIONS
    requires Position(pool, q[j].stationID) == |pool| && forall g: nat | g < |pos| && pos[g] != [] :: pos[g][0] < j
    ensures Pooled(q, baseLine, pool + [Pair(q[j].stationID, [q[j].(trigIdx := j)])], pos + [[j]])
  {
    hide InWindow, Position, Filed;
    var x := Pair(q[j].stationID, [q[j].(trigIdx := j)]);
    var pool', pos' := pool + [x], pos + [[j]];
    assert pool'[|pool|] == x && pos'[|pool|] == [j];
    assert forall g: nat | g < |pool| :: pool'[g] == pool[g] && pos'[g] == pos[g];
    FiledAlone(q, baseLine, j);
    assert forall g: nat | g < Position(pool, x.key) :: pool[g].key != x.key;
  }

  lemma AllBefore(q: Queue, travel: TravelTimes, pos: seq<seq<nat>>, j: nat)
    requires j <= |q| && OnlyEligible(q, travel, pos, j)
    ensures forall g: nat | g < |pos| && pos[g] != [] :: pos[g][0] < j
  {
  }

  lemma PoolCrowded(q: Queue, baseLine: real, travel: TravelTimes, pool: Pool, pos: seq<seq<nat>>, j: nat)
    requires Pooled(q, baseLine, pool, pos) && Complete(q, travel, pool, pos, j) && |pool| == MAX_STATIONS
    ensures CrowdedOut(pos, j)
  {
    hide Eligible, Position, Filed;
  }

  lemma FiledAlone(q: Queue, baseLine: real, j: nat)
    requires j < |q| && InWindow(baseLine, q[0], q[j])
    ensures Filed(q, baseLine, q[j].stationID, [q[j].(trigIdx := j)], [j])
  {
    hide InWindow;
  }

  lemma EligibleOpened(q: Queue, travel: TravelTimes, pos: seq<seq<nat>>, j: nat)
    requires j < |q| && OnlyEligible(q, travel, pos, j) && Eligible(q, travel, j)
    ensures OnlyEligible(q, travel, pos + [[j]], j + 1)
  {
    hide Eligible;
  }

  lemma EligibleAdded(q: Queue, travel: TravelTimes, pos: seq<seq<nat>>, j: nat, g: nat)
    requires j < |q| && OnlyEligible(q, travel, pos, j) && Eligible(q, travel, j) && g < |pos|
    ensures OnlyEligible(q, travel, pos[g := pos[g] + [j]], j + 1)
    ensures forall m: nat | m < |pos[g]| :: pos[g][m] < j
  {
    hide Eligible;
  }

  lemma FiledMore(q: Queue, baseLine: real, station: int, triggers: Triggers, at: seq<nat>, j: nat)
    requires Filed(q, baseLine, station, triggers, at) && j < |q| && q[j].stationID == station
    requires InWindow(baseLine, q[0], q[j]) && forall m: nat | m < |at| :: at[m] < j
    ensures Filed(q, baseLine, station, triggers + [q[j]], at + [j])
  {
    hide InWindow;
  }

  lemma Refiled(q: Queue, baseLine: real, pool: Pool, pos: seq<seq<nat>>, g: nat, j: nat)
    requires Pooled(q, baseLine, pool, pos) && j < |q| && g < |pool|
    requires InWindow(baseLine, q[0], q[j]) && pool[g].key == q[j].stationID
    requires forall m: nat | m < |pos[g]| :: pos[g][m] < j
    ensures Pooled(q, baseLine, pool[g := Pair(q[j].stationID, pool[g].value + [q[j]])], pos[g := pos[g] + [j]])
  {
    hide InWindow, Filed;
    OpenedStays(pos, g, j);
    var pool' := pool[g := Pair(q[j].stationID, pool[g].value + [q[j]])];
    var pos' := pos[g := pos[g] + [j]];
    assert Filed(q, baseLine, pool[g].key, pool[g].value, pos[g]);
    FiledMore(q, baseLine, pool[g].key, pool[g].value, pos[g], j);
    forall k: nat | k < |pool'| ensures Filed(q, baseLine, pool'[k].key, pool'[k].value, pos'[k]) {
      assert k != g ==> Filed(q, baseLine, pool[k].key, pool[k].value, pos[k]);
    }
  }

  lemma OpenedStays(pos: seq<seq<nat>>, g: nat, j: nat)
    requires g < |pos| && Opened(pos)
    ensures Opened(pos[g := pos[g] + [j]])
  {
    assert forall h: nat | h < |pos| :: pos[g := pos[g] + [j]][h][0] == pos[h][0];
  }

  lemma CrowdedStays(pos: seq<seq<nat>>, g: nat, j: nat, i: nat)
    requires g < |pos| && CrowdedOut(pos, i)
    ensures CrowdedOut(pos[g := pos[g] + [j]], i)
  {
    assert forall h: nat | h < |pos| :: pos[g := pos[g] + [j]][h][0] == pos[h][0];
  }

  /** A trigger of a station already there is added to its file. */
  lemma AddToFile(q: Queue, baseLine: real, travel: TravelTimes, pool: Pool, pos: seq<seq<nat>>, j: nat)
    requires Pooled(q, baseLine, pool, pos) && j < |q| && Complete(q, travel, pool, pos, j)
    requires InWindow(baseLine, q[0], q[j]) && Eligible(q, travel, j)
    requires Position(pool, q[j].stationID) < |pool|
    ensures var g := Position(pool, q[j].stationID);
      var pool' := pool[g := Pair(q[j].stationID, pool[g].value + [q[j]])];
      var pos' := pos[g := pos[g] + [j]];
      Pooled(q, baseLine, pool', pos') && Complete(q, travel, pool', pos', j + 1)
  {
    hide InWindow, Eligible, OnlyEligible, Filed, CrowdedOut, Opened;
    var g := Position(pool, q[j].stationID);
    EligibleAdded(q, travel, pos, j, g);
    Refiled(q, baseLine, pool, pos, g, j);
    var pool' := pool[g := Pair(q[j].stationID, pool[g].value + [q[j]])];
    var pos' := pos[g := pos[g] + [j]];
    forall i: nat | i < j + 1 && Eligible(q, travel, i)
      ensures var k := Position(pool', q[i].stationID);
              if k < |pool'| then i in pos'[k] else CrowdedOut(pos', i)
    {
      PositionSameKeys(pool, pool', q[i].stationID);
      if CrowdedOut(pos, i) { CrowdedStays(pos, g, j, i); }
    }
  }

  lemma OpenedRemoved(pos: seq<seq<nat>>, p: nat)
    requires p < |pos| && Opened(pos)
    ensures Opened(RemoveAt(pos, p))
  {
    var pos' := RemoveAt(pos, p);
    assert forall g: nat | g < |pos'| :: pos'[g] == pos[if g < p then g else g + 1];
  }

  lemma FileRemoved(q: Queue, baseLine: real, pool: Pool, pos: seq<seq<nat>>, p: nat)
    requires Pooled(q, baseLine, pool, pos) && p < |pool|
    ensures Pooled(q, baseLine, RemoveAt(pool, p), RemoveAt(pos, p))
  {
    hide Filed, Opened;
    OpenedRemoved(pos, p);
    var pool', pos' := RemoveAt(pool, p), RemoveAt(pos, p);
    forall i: nat, j: nat | i < j < |pool'| ensures pool'[i].key != pool'[j].key {
      assert pool'[i] == pool[if i < p then i else i + 1];
      assert pool'[j] == pool[if j < p then j else j + 1];
    }
    forall g: nat | g < |pool'| ensures Filed(q, baseLine, pool'[g].key, pool'[g].value, pos'[g]) {
      assert pool'[g] == pool[if g < p then g else g + 1] && pos'[g] == pos[if g < p then g else g + 1];
    }
  }

  ghost function IndexIn<T>(s: seq<T>, x: T): (i: nat)
    requires x in s
    ensures i < |s| && s[i] == x
  {
    var i: nat :| i < |s| && s[i] == x; i
  }

  /** Where in the queue the triggers of a combination come from: different stations, all in the
      window.  The index a trigger carries is its place exactly when it is the first of its station;
      otherwise it is 0, and an earlier trigger of the station is in the queue. */
  lemma Origins(q: Queue, baseLine: real, pool: Pool, pos: seq<seq<nat>>, comb: Triggers)
    returns (chosen: seq<nat>)
    requires Timed(q) && Pooled(q, baseLine, pool, pos) && comb in Product(Lists(pool))
    ensures |chosen| == |comb| == |pool|
    ensures forall i: nat | i < |comb| ::
      && pool[i].value != [] && Originates(q, baseLine, pool[i].key, pool[i].value[0], comb[i], chosen[i])
  {
    FromEachStation(Lists(pool), comb);
    assert forall g: nat | g < |comb| :: comb[g] in pool[g].value;
    chosen := seq(|comb|, g requires 0 <= g < |comb| => pos[g][IndexIn(pool[g].value, comb[g])]);
    forall g: nat | g < |comb|
      ensures pool[g].value != [] && Originates(q, baseLine, pool[g].key, pool[g].value[0], comb[g], chosen[g])
    {
      FiledOrigin(q, baseLine, pool[g].key, pool[g].value, pos[g], IndexIn(pool[g].value, comb[g]));
    }
  }

  /** t is a copy of the queue's trigger at c; first is the first trigger of its station's file. */
  ghost predicate Originates(q: Queue, baseLine: real, station: int, first: TriggerInfo, t: TriggerInfo, c: nat) {
    && c < |q| && InWindow(baseLine, q[0], q[c]) && KeyOf(t) == KeyOf(q[c]) && t.stationID == station
    && (t.trigIdx == c ==> t == first)
    && (t.trigIdx != c ==>
          t.trigIdx == 0 && exists e: nat :: e < c && KeyOf(q[e]) == KeyOf(first) && first.stationID == station)
  }

  lemma FiledOrigin(q: Queue, baseLine: real, station: int, triggers: Triggers, at: seq<nat>, m: nat)
    requires Timed(q) && Filed(q, baseLine, station, triggers, at) && m < |at|
    ensures Originates(q, baseLine, station, triggers[0], triggers[m], at[m])
  {
    hide InWindow;
    if m > 0 {
      assert KeyOf(q[at[0]]) == KeyOf(triggers[0]) && at[0] < at[m];
    }
  }

  function Indices(comb: Triggers): (idx: seq<nat>)
    ensures |idx| == |comb| && forall i: nat | i < |comb| :: idx[i] == comb[i].trigIdx
  {
    seq(|comb|, i requires 0 <= i < |comb| => comb[i].trigIdx)
  }

  /** A combination accepted from the pool can be erased: the erasures are in range. */
  lemma CanErase(q: Queue, baseLine: real, pool: Pool, pos: seq<seq<nat>>, comb: Triggers, order: seq<nat>)
    returns (chosen: seq<nat>)
    requires Ascending(q) && Timed(q) && Pooled(q, baseLine, pool, pos) && |pool| >= 5
    requires comb in Product(Lists(pool))
    requires multiset(order) == multiset(Indices(comb)) && NonRising(order)
    ensures Located(q, baseLine, chosen, Indices(comb), order) && |comb| == |pool|
    ensures forall i: nat | i < |comb| ::
      pool[i].value != [] && Originates(q, baseLine, pool[i].key, pool[i].value[0], comb[i], chosen[i])
  {
    chosen := Origins(q, baseLine, pool, pos, comb);
    var idx := Indices(comb);
    forall i: nat, j: nat | i < j < |chosen|
      ensures chosen[i] != chosen[j] && q[chosen[i]].stationID != q[chosen[j]].stationID
    {
      assert pool[i].key != pool[j].key;
      assert Originates(q, baseLine, pool[i].key, pool[i].value[0], comb[i], chosen[i]);
      assert Originates(q, baseLine, pool[j].key, pool[j].value[0], comb[j], chosen[j]);
    }
    assert forall i: nat | i < |comb| :: Originates(q, baseLine, pool[i].key, pool[i].value[0], comb[i], chosen[i]);
    var falling, k := SplitOrder(chosen, idx, order, |q|);
    EraseExact(q, falling, k, |q|);
  }
}
