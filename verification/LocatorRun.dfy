/** The locator as a state machine over its trigger queue: what each step may do, what every step
    keeps, and what holds over whole runs. */
module LocatorRun {
  import opened GpsTime
  import opened Trigger
  import opened TriggerQueue

  datatype Phase = Waiting | Processing

  datatype State = State(phase: Phase, queue: Queue, current: GPSTime)

  datatype Action =
    | Merge(batch: Queue)
    | Idle
    | SkipHead
    | Defer
    | Locate(chosen: seq<nat>, idx: seq<nat>, order: seq<nat>)
    | DropHead
    | Finish

  /** CurrentProcessingTime after a base trigger: the base line added to its time. */
  function Later(t: GPSTime, baseLine: real): (r: GPSTime)
    requires Valid(t) && baseLine >= 0.0
    ensures Valid(r) && Instant(r) == Instant(t) + baseLine
  {
    FromInstant(Instant(t) + baseLine)
  }

  function Admitted(batch: Queue, current: GPSTime): Queue {
    if batch == [] then []
    else Admitted(batch[..|batch| - 1], current)
         + if Less(current, batch[|batch| - 1].time) then [batch[|batch| - 1]] else []
  }

  /** The result of sorting and removing duplicates; which of several equal triggers survives is left
      open. */
  ghost predicate Merged(all: Queue, q: Queue) {
    && Ascending(q)
    && (forall i: nat | i < |q| :: q[i] in all)
    && (forall i: nat | i < |all| :: KeyOf(all[i]) in Keys(q))
  }

  predicate Gap(q: Queue, baseLine: real) {
    |q| > 1 && Minus(q[1].time, q[0].time) > baseLine
  }

  /** For base lines of up to 40 seconds the gap test finds exactly the gaps longer than the base line
      and the minute boundaries. */
  lemma GapExact(q: Queue, baseLine: real)
    requires Ascending(q) && Timed(q) && |q| > 1 && 0.0 <= baseLine <= 40.0
    ensures Gap(q, baseLine) <==>
      !SameMinute(q[0].time, q[1].time) || Instant(q[1].time) - Instant(q[0].time) > baseLine
  {
    hide Less, SameMinute, Instant, Minus, Ascending;
    TimesAscend(q, 0, 1);
    OrderAgrees(q[1].time, q[0].time);
    ExactWithinMinute(q[1].time, q[0].time);
    if Minus(q[1].time, q[0].time) <= 40.0 { SmallDifferenceExact(q[1].time, q[0].time); }
    SameMinuteBack(q[0].time, q[1].time);
  }

  /** The picks of an accepted location: 5 to 8 different stations, all in the window of the base
      trigger; each index to erase is the pick's position or 0, and they are erased in falling order. */
  ghost predicate Located(q: Queue, baseLine: real, chosen: seq<nat>, idx: seq<nat>, order: seq<nat>) {
    && q != [] && 5 <= |chosen| <= 8
    && (forall i: nat | i < |chosen| :: chosen[i] < |q| && InWindow(baseLine, q[0], q[chosen[i]]))
    && (forall i: nat, j: nat | i < j < |chosen| :: q[chosen[i]].stationID != q[chosen[j]].stationID)
    && Picks(chosen, idx) && multiset(order) == multiset(idx) && NonRising(order)
    && Erasable(|q|, order)
  }

  ghost predicate GoodBatch(batch: Queue) {
    Timed(batch)
  }

  ghost predicate Step(baseLine: real, s: State, a: Action, s': State)
    requires baseLine >= 0.0
  {
    match a
    case Merge(batch) =>
      && s.phase.Waiting? && GoodBatch(batch)
      && s'.phase.Processing? && s'.current == s.current
      && Merged(s.queue + Admitted(batch, s.current), s'.queue)
    case Idle => s.phase.Waiting? && s' == s
    case Finish => s.phase.Processing? && s.queue == [] && s' == s.(phase := Waiting)
    case SkipHead => s.phase.Processing? && Gap(s.queue, baseLine) && s' == s.(queue := s.queue[1..])
    case Defer => BasePass(baseLine, s) && s' == State(Waiting, s.queue, Later(s.queue[0].time, baseLine))
    case DropHead => BasePass(baseLine, s) && s' == State(Processing, s.queue[1..], Later(s.queue[0].time, baseLine))
    case Locate(chosen, idx, order) =>
      && BasePass(baseLine, s) && Located(s.queue, baseLine, chosen, idx, order)
      && s' == State(Processing, EraseEach(s.queue, order), Later(s.queue[0].time, baseLine))
  }

  ghost predicate BasePass(baseLine: real, s: State) {
    s.phase.Processing? && s.queue != [] && Valid(s.queue[0].time) && !Gap(s.queue, baseLine)
  }

  // ---- The invariant ----

  predicate NotAfter(a: GPSTime, b: GPSTime) {
    !Less(b, a)
  }

  /** gone are the keys removed so far: none is in the queue, each is at or before the current
      processing time, or at least before the head while a run of gap-skipped heads is under way. */
  ghost predicate Inv(baseLine: real, s: State, gone: set<Key>)
    requires baseLine >= 0.0
  {
    && Ascending(s.queue) && Timed(s.queue)
    && (forall i: nat | i < |s.queue| :: NotAfter(s.current, Later(s.queue[i].time, baseLine)))
    && gone !! Keys(s.queue)
    && (forall g | g in gone :: Valid(g.time) && Settled(s, g))
  }

  predicate Settled(s: State, g: Key) {
    NotAfter(g.time, s.current) || (s.phase.Processing? && s.queue != [] && Less(g.time, s.queue[0].time))
  }

  lemma NotAfterTransitive(a: GPSTime, b: GPSTime, c: GPSTime)
    requires NotAfter(a, b) && NotAfter(b, c)
    ensures NotAfter(a, c)
  {
    LessTotal(a, b);
    LessTotal(b, c);
    if Less(c, a) {
      LessTransitive(c, a, b);
    }
  }

  lemma LaterOrder(a: GPSTime, b: GPSTime, baseLine: real)
    requires Valid(a) && Valid(b) && baseLine >= 0.0
    requires Instant(a) <= Instant(b)
    ensures NotAfter(a, Later(a, baseLine)) && NotAfter(Later(a, baseLine), Later(b, baseLine))
  {
    OrderAgrees(Later(a, baseLine), a);
    OrderAgrees(Later(b, baseLine), Later(a, baseLine));
  }

  lemma KeyIn(q: Queue, i: nat)
    requires i < |q|
    ensures KeyOf(q[i]) in Keys(q)
  {
  }

  lemma NotHead(q: Queue)
    requires Ascending(q) && q != []
    ensures KeyOf(q[0]) !in Keys(q[1..]) && Keys(q) == Keys(q[1..]) + {KeyOf(q[0])}
    ensures Ascending(q[1..])
  {
    forall i: nat | i < |q[1..]| ensures KeyOf(q[1..][i]) != KeyOf(q[0]) {
      assert Before(q[0], q[i + 1]);
      KeyOrder(KeyOf(q[0]), KeyOf(q[i + 1]), KeyOf(q[0]));
    }
    forall k | k in Keys(q) ensures k in Keys(q[1..]) + {KeyOf(q[0])} {
      var i: nat :| i < |q| && KeyOf(q[i]) == k;
      if i > 0 { assert q[1..][i - 1] == q[i]; }
    }
    forall k | k in Keys(q[1..]) ensures k in Keys(q) {
      var i: nat :| i < |q[1..]| && KeyOf(q[1..][i]) == k;
      assert q[i + 1] == q[1..][i];
    }
  }

  // ---- An accepted location ----

  lemma ChosenDiffer(q: Queue, baseLine: real, chosen: seq<nat>, idx: seq<nat>, order: seq<nat>)
    requires Located(q, baseLine, chosen, idx, order)
    ensures NoRepeats(chosen)
  {
    forall i: nat, j: nat | i < j < |chosen| ensures chosen[i] != chosen[j] {
      assert q[chosen[i]].stationID != q[chosen[j]].stationID;
    }
  }

  /** However many of the indices are 0, an accepted location takes exactly as many triggers as it has
      stations, all of them within the base line after the base trigger; everything later stays. */
  lemma LocatedEffect(q: Queue, baseLine: real, chosen: seq<nat>, idx: seq<nat>, order: seq<nat>)
    returns (falling: seq<nat>, k: nat, w: nat)
    requires Ascending(q) && Timed(q) && Located(q, baseLine, chosen, idx, order)
    ensures w == Prefix(q, Instant(q[0].time) + baseLine)
    ensures |falling| + k == |chosen| <= w && k <= |Without(q[..w], falling)|
    ensures EraseEach(q, order) == Without(q[..w], falling)[k..] + q[w..]
    ensures |EraseEach(q, order)| == |q| - |chosen|
    ensures forall i: nat | i < |falling| :: falling[i] in chosen
  {
    w := Prefix(q, Instant(q[0].time) + baseLine);
    ChosenDiffer(q, baseLine, chosen, idx, order);
    forall i: nat | i < |chosen| ensures chosen[i] < w {
      WindowBound(baseLine, q[0], q[chosen[i]]);
      PrefixHolds(q, Instant(q[0].time) + baseLine, chosen[i]);
    }
    falling, k := SplitOrder(chosen, idx, order, w);
    EraseExact(q, falling, k, w);
  }

  /** When every pick is the first of its station, exactly the chosen positions are taken and the
      other triggers keep their order. */
  lemma FirstPicksOnly(q: Queue, baseLine: real, chosen: seq<nat>, idx: seq<nat>, order: seq<nat>)
    requires Ascending(q) && Timed(q) && Located(q, baseLine, chosen, idx, order) && idx == chosen
    ensures EraseEach(q, order) == Without(q, chosen)
  {
    hide EraseEach, Without, Ascending, Timed, InWindow, Erasable;
    ChosenDiffer(q, baseLine, chosen, idx, order);
    var f, z := SplitOrder(chosen, idx, order, |q|);
    OneZero(chosen, order, f, z);
    EraseExact(q, f, z, |q|);
    assert q[..|q|] == q && q[|q|..] == [];
    SameMembers(order, chosen);
    if z == 0 {
      assert f + Zeros(0) == f;
      WithoutSame(q, f, chosen);
    } else {
      assert Zeros(1) == [0];
      FrontIsZero(q, f);
      WithoutSame(q, f + [0], chosen);
    }
  }

  lemma SameMembers(a: seq<nat>, b: seq<nat>)
    requires multiset(a) == multiset(b)
    ensures forall i: nat :: i in a <==> i in b
  {
    assert forall i: nat :: i in a <==> i in multiset(a);
  }

  /** At most one pick is at position 0. */
  lemma OneZero(chosen: seq<nat>, order: seq<nat>, f: seq<nat>, z: nat)
    requires NoRepeats(chosen) && multiset(order) == multiset(chosen) && order == f + Zeros(z)
    ensures z <= 1
  {
    NoRepeatsCount(chosen, 0);
    if z >= 2 {
      RepeatsCount(order, |f|, |f| + 1);
    }
  }

  /** Taking positive positions and then the front is leaving those positions and position 0 out. */
  lemma {:induction false} FrontIsZero<T>(s: seq<T>, f: seq<nat>)
    requires s != [] && 0 !in f && |Without(s, f)| > 0
    ensures Without(s, f)[1..] == Without(s, f + [0]) && Without(s, f)[0] == s[0]
    decreases |s|
  {
    var n := |s| - 1;
    var fz := f + [0];
    if n == 0 {
      assert s[..0] == [];
      assert 0 in fz;
    } else {
      WithoutHas(s[..n], f, 0);
      FrontIsZero(s[..n], f);
      assert n in f <==> n in fz;
    }
  }

  lemma {:induction false} WithoutMembers<T>(s: seq<T>, at: seq<nat>)
    ensures forall i: nat | i < |Without(s, at)| :: Without(s, at)[i] in s
    decreases |s|
  {
    if s != [] {
      var n := |s| - 1;
      WithoutMembers(s[..n], at);
      assert s == s[..n] + [s[n]];
    }
  }

  lemma AscendingParts(q: Queue, n: nat)
    requires Ascending(q) && Timed(q) && n < |q|
    ensures Ascending(q[..n]) && Timed(q[..n])
    ensures forall x :: x in q[..n] ==> Before(x, q[n])
  {
    forall x | x in q[..n] ensures Before(x, q[n]) {
      var j: nat :| j < n && q[..n][j] == x;
      assert Before(q[j], q[n]);
    }
  }

  lemma AscendingSnoc(r: Queue, x: TriggerInfo)
    requires Ascending(r) && Timed(r) && Valid(x.time) && x.trigIdx == 0
    requires forall i: nat | i < |r| :: Before(r[i], x)
    ensures Ascending(r + [x]) && Timed(r + [x])
  {
    hide Before, Valid;
  }

  lemma {:induction false} WithoutAscending(q: Queue, at: seq<nat>)
    requires Ascending(q) && Timed(q)
    ensures Ascending(Without(q, at)) && Timed(Without(q, at))
    ensures forall i: nat | i < |Without(q, at)| :: Without(q, at)[i] in q
    decreases |q|
  {
    hide Before, Ascending, Valid;
    WithoutMembers(q, at);
    if q != [] {
      var n := |q| - 1;
      AscendingParts(q, n);
      WithoutAscending(q[..n], at);
      var r := Without(q[..n], at);
      AscendingSnoc(r, q[n]);
      assert r + [] == r;
    }
  }

  /** The queue after an accepted location: still ascending, a part of the old one, and what it lost
      is within the window. */
  lemma LocatedQueue(q: Queue, baseLine: real, chosen: seq<nat>, idx: seq<nat>, order: seq<nat>)
    requires Ascending(q) && Timed(q) && Located(q, baseLine, chosen, idx, order)
    ensures var r := EraseEach(q, order);
      && Ascending(r) && Timed(r) && |r| < |q|
      && (forall i: nat | i < |r| :: r[i] in q)
      && (forall i: nat | i < |q| && KeyOf(q[i]) !in Keys(r) :: Instant(q[i].time) <= Instant(q[0].time) + baseLine)
  {
    hide Before, Prefix, Without, EraseEach, Less, InWindow;
    var falling, k, w := LocatedEffect(q, baseLine, chosen, idx, order);
    var a := Without(q[..w], falling);
    WithoutAscending(q[..w], falling);
    var r := EraseEach(q, order);
    assert r == a[k..] + q[w..];
    JoinedQueue(q, w, a, k);
    forall i: nat | w <= i < |q| ensures KeyOf(q[i]) in Keys(r) {
      assert r[i - w + |a| - k] == q[i];
      KeyIn(r, i - w + |a| - k);
    }
  }

  lemma JoinedQueue(q: Queue, w: nat, a: Queue, k: nat)
    requires Ascending(q) && w <= |q| && k <= |a| && Ascending(a)
    requires forall i: nat | i < |a| :: a[i] in q[..w]
    ensures var r := a[k..] + q[w..];
      Ascending(r) && forall i: nat | i < |r| :: r[i] in q
  {
    hide Before;
    var r, n := a[k..] + q[w..], |a| - k;
    assert forall i: nat | i < n :: r[i] == a[i + k] && a[i + k] in q[..w];
    assert forall i: nat | n <= i < |r| :: r[i] == q[w + i - n];
    forall i: nat, j: nat | i < n <= j < |r| ensures Before(r[i], r[j]) {
      var p: nat :| p < w && q[..w][p] == r[i];
      assert Before(q[p], q[w + j - n]);
    }
  }

  lemma {:induction false} AdmittedLater(batch: Queue, current: GPSTime)
    requires Timed(batch)
    ensures Timed(Admitted(batch, current))
    ensures forall i: nat | i < |Admitted(batch, current)| :: Less(current, Admitted(batch, current)[i].time)
    decreases |batch|
  {
    if batch != [] { AdmittedLater(batch[..|batch| - 1], current); }
  }

  lemma {:induction false} AdmittedExact(batch: Queue, current: GPSTime, t: TriggerInfo)
    ensures t in Admitted(batch, current) <==> t in batch && Less(current, t.time)
    decreases |batch|
  {
    hide Less;
    if batch != [] {
      var n := |batch| - 1;
      AdmittedExact(batch[..n], current, t);
      assert batch == batch[..n] + [batch[n]];
    }
  }

  // ---- What one step does ----

  /** The queue r holds exactly the keys of q and those of the triggers of the batch later than the
      processing time, and every trigger in it is one of q or such a one. */
  ghost predicate TakesIn(q: Queue, current: GPSTime, batch: Queue, r: Queue) {
    && (forall k: Key :: k in Keys(r) <==>
          (k in Keys(q) || exists t :: t in batch && Less(current, t.time) && KeyOf(t) == k))
    && forall t | t in r :: t in q || (t in batch && Less(current, t.time))
  }

  /** Every merge takes in all later triggers of its batch, and nothing else. */
  lemma MergeExact(all: Queue, q: Queue, current: GPSTime, batch: Queue, r: Queue)
    requires all == q + Admitted(batch, current) && Merged(all, r)
    ensures TakesIn(q, current, batch, r)
  {
    hide Less, Ascending, Admitted;
    forall t ensures t in Admitted(batch, current) <==> t in batch && Less(current, t.time) {
      AdmittedExact(batch, current, t);
    }
    forall k: Key | k in Keys(r)
      ensures k in Keys(q) || exists t :: t in batch && Less(current, t.time) && KeyOf(t) == k
    {
      var i: nat :| i < |r| && KeyOf(r[i]) == k;
      assert r[i] in all;
      if r[i] in q {
        var j: nat :| j < |q| && q[j] == r[i];
        KeyIn(q, j);
      }
    }
    forall t | t in all ensures KeyOf(t) in Keys(r) {
      var i: nat :| i < |all| && all[i] == t;
    }
    forall k: Key | k in Keys(q) ensures k in Keys(r) {
      var i: nat :| i < |q| && KeyOf(q[i]) == k;
      assert q[i] in all;
    }
  }

  /** A base trigger sets the processing time to the base line after its own time. */
  lemma BaseTime(baseLine: real, s: State, a: Action, s': State)
    requires baseLine >= 0.0 && Step(baseLine, s, a, s') && (a.Defer? || a.DropHead? || a.Locate?)
    ensures s.queue != [] && Valid(s.queue[0].time) && Valid(s'.current)
    ensures Instant(s'.current) == Instant(s.queue[0].time) + baseLine
  {
    hide Located, EraseEach, Gap;
  }

  // ---- What one step keeps ----

  /** Every trigger of a merged queue comes from the queue or from what was admitted. */
  lemma MergedFrom(baseLine: real, s: State, added: Queue, t: TriggerInfo, gone: set<Key>)
    requires baseLine >= 0.0 && Inv(baseLine, s, gone) && s.phase.Waiting? && t in s.queue + added && Timed(added)
    requires forall i: nat | i < |added| :: Less(s.current, added[i].time)
    ensures Valid(t.time) && t.trigIdx == 0 && NotAfter(s.current, Later(t.time, baseLine)) && KeyOf(t) !in gone
  {
    hide Less, Later, Ascending, Instant, Valid;
    if t in s.queue {
      var j: nat :| j < |s.queue| && s.queue[j] == t;
      KeyIn(s.queue, j);
    } else {
      var j: nat :| j < |added| && added[j] == t;
      LessTotal(s.current, t.time);
      LaterOrder(t.time, t.time, baseLine);
      NotAfterTransitive(s.current, t.time, Later(t.time, baseLine));
      forall g | g in gone ensures g != KeyOf(t) { assert Settled(s, g); }
    }
  }

  lemma MergeKeeps(baseLine: real, s: State, batch: Queue, s': State, gone: set<Key>)
    requires baseLine >= 0.0 && Inv(baseLine, s, gone) && Step(baseLine, s, Merge(batch), s')
    ensures Inv(baseLine, s', gone) && Keys(s.queue) <= Keys(s'.queue)
  {
    hide Less, Later, Ascending, Admitted, Valid;
    var added := Admitted(batch, s.current);
    AdmittedLater(batch, s.current);
    var all := s.queue + added;
    forall g | g in gone ensures NotAfter(g.time, s.current) { assert Settled(s, g); }
    forall i: nat | i < |s'.queue|
      ensures Valid(s'.queue[i].time) && s'.queue[i].trigIdx == 0
      ensures NotAfter(s.current, Later(s'.queue[i].time, baseLine)) && KeyOf(s'.queue[i]) !in gone
    {
      MergedFrom(baseLine, s, added, s'.queue[i], gone);
    }
    forall k | k in Keys(s.queue) ensures k in Keys(s'.queue) {
      var i: nat :| i < |s.queue| && KeyOf(s.queue[i]) == k;
      assert all[i] == s.queue[i];
    }
    forall k | k in Keys(s'.queue) ensures k !in gone {
      var i: nat :| i < |s'.queue| && KeyOf(s'.queue[i]) == k;
    }
  }

  lemma SkipKeeps(baseLine: real, s: State, s': State, gone: set<Key>)
    requires baseLine >= 0.0 && Inv(baseLine, s, gone) && Step(baseLine, s, SkipHead, s')
    ensures Inv(baseLine, s', gone + (Keys(s.queue) - Keys(s'.queue)))
  {
    hide Less, Instant;
    var q := s.queue;
    NotHead(q);
    assert Keys(q) - Keys(q[1..]) == {KeyOf(q[0])};
    MinusOpposite(q[1].time, q[0].time);
    OrderAgrees(q[0].time, q[1].time);
    assert Less(q[0].time, q[1].time);
    assert q[1..][0] == q[1];
    forall g | g in gone ensures Settled(s', g) {
      assert Settled(s, g);
      if Less(g.time, q[0].time) { LessTransitive(g.time, q[0].time, q[1].time); }
    }
  }

  /** After a base pass the processing time is at or after every key removed before, and at or before
      the base-line shift of everything in the queue. */
  lemma BaseAdvances(baseLine: real, s: State, gone: set<Key>)
    requires baseLine >= 0.0 && Inv(baseLine, s, gone) && BasePass(baseLine, s)
    ensures var c := Later(s.queue[0].time, baseLine);
      && NotAfter(s.current, c)
      && (forall g | g in gone :: NotAfter(g.time, c))
      && (forall i: nat | i < |s.queue| :: NotAfter(c, Later(s.queue[i].time, baseLine)))
  {
    var base := s.queue[0].time;
    var c := Later(base, baseLine);
    LaterOrder(base, base, baseLine);
    forall g | g in gone ensures NotAfter(g.time, c) {
      assert Settled(s, g);
      if NotAfter(g.time, s.current) {
        NotAfterTransitive(g.time, s.current, c);
      } else {
        LessTotal(g.time, base);
        NotAfterTransitive(g.time, base, c);
      }
    }
    forall i: nat | i < |s.queue| ensures NotAfter(c, Later(s.queue[i].time, baseLine)) {
      TimesAscend(s.queue, 0, i);
      LaterOrder(base, s.queue[i].time, baseLine);
    }
  }

  /** A base pass that leaves part of the queue and takes only what is within the window. */
  lemma BasePassKeeps(baseLine: real, s: State, s': State, gone: set<Key>)
    requires baseLine >= 0.0 && Inv(baseLine, s, gone) && BasePass(baseLine, s)
    requires s'.current == Later(s.queue[0].time, baseLine)
    requires Ascending(s'.queue) && Timed(s'.queue) && forall i: nat | i < |s'.queue| :: s'.queue[i] in s.queue
    requires forall i: nat | i < |s.queue| && KeyOf(s.queue[i]) !in Keys(s'.queue) ::
      Instant(s.queue[i].time) <= Instant(s.queue[0].time) + baseLine
    ensures Inv(baseLine, s', gone + (Keys(s.queue) - Keys(s'.queue)))
    ensures forall g | g in gone + (Keys(s.queue) - Keys(s'.queue)) :: NotAfter(g.time, s'.current)
  {
    hide Before, Less, Instant, Ascending, Later, Gap, FromInstant;
    BaseAdvances(baseLine, s, gone);
    forall g | g in Keys(s.queue) - Keys(s'.queue) ensures Valid(g.time) && NotAfter(g.time, s'.current) {
      var i: nat :| i < |s.queue| && KeyOf(s.queue[i]) == g;
      OrderAgrees(s'.current, g.time);
    }
    forall i: nat | i < |s'.queue| ensures NotAfter(s'.current, Later(s'.queue[i].time, baseLine)) {
      assert s'.queue[i] in s.queue;
    }
    PartKeys(s.queue, s'.queue);
  }

  lemma PartKeys(q: Queue, r: Queue)
    requires forall i: nat | i < |r| :: r[i] in q
    ensures Keys(r) <= Keys(q)
  {
    forall k | k in Keys(r) ensures k in Keys(q) {
      var i: nat :| i < |r| && KeyOf(r[i]) == k;
      assert r[i] in q;
      var j: nat :| j < |q| && q[j] == r[i];
      KeyIn(q, j);
    }
  }

  lemma QuietKeeps(baseLine: real, s: State, a: Action, s': State, gone: set<Key>)
    requires baseLine >= 0.0 && Inv(baseLine, s, gone) && (a.Idle? || a.Finish?) && Step(baseLine, s, a, s')
    ensures Inv(baseLine, s', gone) && s'.queue == s.queue && s'.current == s.current
  {
  }

  lemma DeferKeeps(baseLine: real, s: State, s': State, gone: set<Key>)
    requires baseLine >= 0.0 && Inv(baseLine, s, gone) && Step(baseLine, s, Defer, s')
    ensures Inv(baseLine, s', gone + (Keys(s.queue) - Keys(s'.queue))) && NotAfter(s.current, s'.current)
  {
    hide Ascending, Keys, NotAfter, Later, Gap, Instant, Valid, Settled, Before;
    forall i: nat | i < |s.queue| ensures KeyOf(s.queue[i]) in Keys(s'.queue) { KeyIn(s.queue, i); }
    BasePassKeeps(baseLine, s, s', gone);
    BaseAdvances(baseLine, s, gone);
  }

  lemma DropKeeps(baseLine: real, s: State, s': State, gone: set<Key>)
    requires baseLine >= 0.0 && Inv(baseLine, s, gone) && Step(baseLine, s, DropHead, s')
    ensures Inv(baseLine, s', gone + (Keys(s.queue) - Keys(s'.queue))) && NotAfter(s.current, s'.current)
  {
    hide Ascending, Keys, NotAfter, Later, Gap, Instant, Valid, Settled, Before;
    NotHead(s.queue);
    assert Timed(s.queue[1..]);
    forall i: nat | 0 < i < |s.queue| ensures KeyOf(s.queue[i]) in Keys(s'.queue) {
      KeyIn(s.queue[1..], i - 1);
    }
    BasePassKeeps(baseLine, s, s', gone);
    BaseAdvances(baseLine, s, gone);
  }

  lemma LocateKeeps(baseLine: real, s: State, a: Action, s': State, gone: set<Key>)
    requires baseLine >= 0.0 && Inv(baseLine, s, gone) && a.Locate? && Step(baseLine, s, a, s')
    ensures Inv(baseLine, s', gone + (Keys(s.queue) - Keys(s'.queue))) && NotAfter(s.current, s'.current)
  {
    hide Ascending, Keys, NotAfter, Later, Gap, Located, EraseEach, Timed, Instant, Valid, Settled;
    LocatedQueue(s.queue, baseLine, a.chosen, a.idx, a.order);
    BasePassKeeps(baseLine, s, s', gone);
    BaseAdvances(baseLine, s, gone);
  }

  /** Every step keeps the invariant, with what it removed among the removed, and never sets the
      processing time back. */
  lemma StepKeeps(baseLine: real, s: State, a: Action, s': State, gone: set<Key>)
    requires baseLine >= 0.0 && Inv(baseLine, s, gone) && Step(baseLine, s, a, s')
    ensures Inv(baseLine, s', gone + (Keys(s.queue) - Keys(s'.queue)))
    ensures NotAfter(s.current, s'.current)
  {
    hide Inv, Less, Located, EraseEach, Merged, Keys;
    LessTotal(s.current, s.current);
    var lost := Keys(s.queue) - Keys(s'.queue);
    match a
    case Merge(batch) =>
      MergeKeeps(baseLine, s, batch, s', gone);
      assert gone + lost == gone;
    case Idle =>
      QuietKeeps(baseLine, s, a, s', gone);
      assert gone + lost == gone;
    case Finish =>
      QuietKeeps(baseLine, s, a, s', gone);
      assert gone + lost == gone;
    case SkipHead =>
      SkipKeeps(baseLine, s, s', gone);
    case Defer => DeferKeeps(baseLine, s, s', gone);
    case DropHead => DropKeeps(baseLine, s, s', gone);
    case Locate(_, _, _) => LocateKeeps(baseLine, s, a, s', gone);
  }

  /** Every step but waiting, deferring and merging takes at least one trigger from the queue. */
  lemma StepShrinks(baseLine: real, s: State, a: Action, s': State)
    requires baseLine >= 0.0 && Ascending(s.queue) && Timed(s.queue) && Step(baseLine, s, a, s')
    ensures a.SkipHead? || a.DropHead? ==> |s'.queue| == |s.queue| - 1
    ensures a.Locate? ==> |s'.queue| == |s.queue| - |a.chosen|
  {
    if a.Locate? {
      var falling, k, w := LocatedEffect(s.queue, baseLine, a.chosen, a.idx, a.order);
    }
  }

  // ---- Whole runs ----

  ghost predicate IsRun(baseLine: real, states: seq<State>, actions: seq<Action>)
    requires baseLine >= 0.0
  {
    |states| == |actions| + 1 && forall i: nat | i < |actions| :: Step(baseLine, states[i], actions[i], states[i + 1])
  }

  /** The keys that have left the queue in the first n steps. */
  ghost function Removed(states: seq<State>, n: nat): set<Key>
    requires n < |states|
    decreases n
  {
    if n == 0 then {} else Removed(states, n - 1) + (Keys(states[n - 1].queue) - Keys(states[n].queue))
  }

  /** Every state of a run keeps the invariant with respect to everything removed before it.  In
      particular the queue is strictly increasing, and when a merge comes every key removed so far is
      at or before the processing time. */
  lemma {:induction false} RunKeeps(baseLine: real, states: seq<State>, actions: seq<Action>, n: nat)
    requires baseLine >= 0.0 && IsRun(baseLine, states, actions) && n < |states| && Inv(baseLine, states[0], {})
    ensures Inv(baseLine, states[n], Removed(states, n))
    ensures states[n].phase.Waiting? ==> forall g | g in Removed(states, n) :: NotAfter(g.time, states[n].current)
    decreases n
  {
    if n > 0 {
      RunKeeps(baseLine, states, actions, n - 1);
      assert Step(baseLine, states[n - 1], actions[n - 1], states[n]);
      StepKeeps(baseLine, states[n - 1], actions[n - 1], states[n], Removed(states, n - 1));
    }
    assert forall g | g in Removed(states, n) :: Settled(states[n], g);
  }

  lemma {:induction false} RemovedGrows(states: seq<State>, m: nat, n: nat)
    requires m <= n < |states|
    ensures Removed(states, m) <= Removed(states, n)
    decreases n
  {
    if m < n { RemovedGrows(states, m, n - 1); }
  }

  lemma {:induction false} LostIsRemoved(states: seq<State>, i: nat, j: nat, key: Key)
    requires i <= j < |states| && key in Keys(states[i].queue) && key !in Keys(states[j].queue)
    ensures key in Removed(states, j)
    decreases j
  {
    if i < j && key !in Keys(states[j - 1].queue) { LostIsRemoved(states, i, j - 1, key); }
  }

  /** Over a whole run, whatever the batches, the solver and the clock do: a trigger that has left the
      queue never enters it again. */
  lemma NeverReturns(baseLine: real, states: seq<State>, actions: seq<Action>, i: nat, j: nat, k: nat, key: Key)
    requires baseLine >= 0.0 && IsRun(baseLine, states, actions) && Inv(baseLine, states[0], {})
    requires i <= j <= k < |states|
    requires key in Keys(states[i].queue) && key !in Keys(states[j].queue)
    ensures key !in Keys(states[k].queue)
  {
    LostIsRemoved(states, i, j, key);
    RemovedGrows(states, j, k);
    RunKeeps(baseLine, states, actions, k);
  }

  /** The processing time never goes back. */
  lemma {:induction false} TimeNeverDecreases(baseLine: real, states: seq<State>, actions: seq<Action>, m: nat, n: nat)
    requires baseLine >= 0.0 && IsRun(baseLine, states, actions) && Inv(baseLine, states[0], {})
    requires m <= n < |states|
    ensures NotAfter(states[m].current, states[n].current)
    decreases n
  {
    hide Less, Inv, Step;
    LessTotal(states[m].current, states[m].current);
    if m < n {
      TimeNeverDecreases(baseLine, states, actions, m, n - 1);
      RunKeeps(baseLine, states, actions, n - 1);
      assert Step(baseLine, states[n - 1], actions[n - 1], states[n]);
      StepKeeps(baseLine, states[n - 1], actions[n - 1], states[n], Removed(states, n - 1));
      NotAfterTransitive(states[m].current, states[n - 1].current, states[n].current);
    }
  }

  // ---- What a run as a whole guarantees ----

  /** A trigger that has left the queue is in it in no later state. */
  ghost predicate NoneReturns(states: seq<State>) {
    forall i: nat, j: nat, k: nat, key: Key | i <= j <= k < |states| ::
      key in Keys(states[i].queue) && key !in Keys(states[j].queue) ==> key !in Keys(states[k].queue)
  }

  ghost predicate TimeAdvances(states: seq<State>) {
    forall m: nat, n: nat | m <= n < |states| :: NotAfter(states[m].current, states[n].current)
  }

  /** After every merge the later triggers of its batch are in the queue. */
  ghost predicate NoneMissed(states: seq<State>, actions: seq<Action>) {
    |states| == |actions| + 1 && forall i: nat | i < |actions| && actions[i].Merge? ::
      TakesIn(states[i].queue, states[i].current, actions[i].batch, states[i + 1].queue)
  }

  /** After every base trigger the processing time is the base line after it. */
  ghost predicate TimeFollows(baseLine: real, states: seq<State>, actions: seq<Action>) {
    |states| == |actions| + 1
    && forall i: nat | i < |actions| && (actions[i].Defer? || actions[i].DropHead? || actions[i].Locate?) ::
      && states[i].queue != [] && Valid(states[i].queue[0].time) && Valid(states[i + 1].current)
      && Instant(states[i + 1].current) == Instant(states[i].queue[0].time) + baseLine
  }

  lemma RunTakesIn(baseLine: real, states: seq<State>, actions: seq<Action>)
    requires baseLine >= 0.0 && IsRun(baseLine, states, actions)
    ensures NoneMissed(states, actions) && TimeFollows(baseLine, states, actions)
  {
    hide Step, TakesIn, Instant;
    forall i: nat | i < |actions| && actions[i].Merge?
      ensures TakesIn(states[i].queue, states[i].current, actions[i].batch, states[i + 1].queue)
    {
      MergeStep(baseLine, states[i], actions[i], states[i + 1]);
    }
    forall i: nat | i < |actions| && (actions[i].Defer? || actions[i].DropHead? || actions[i].Locate?)
      ensures states[i].queue != [] && Valid(states[i].queue[0].time) && Valid(states[i + 1].current)
      ensures Instant(states[i + 1].current) == Instant(states[i].queue[0].time) + baseLine
    {
      assert Step(baseLine, states[i], actions[i], states[i + 1]);
      BaseTime(baseLine, states[i], actions[i], states[i + 1]);
    }
  }

  lemma MergeStep(baseLine: real, s: State, a: Action, s': State)
    requires baseLine >= 0.0 && a.Merge? && Step(baseLine, s, a, s')
    ensures TakesIn(s.queue, s.current, a.batch, s'.queue)
  {
    hide TakesIn, Merged, Admitted;
    MergeExact(s.queue + Admitted(a.batch, s.current), s.queue, s.current, a.batch, s'.queue);
  }

  lemma RunGuarantees(baseLine: real, states: seq<State>, actions: seq<Action>)
    requires baseLine >= 0.0 && IsRun(baseLine, states, actions) && Inv(baseLine, states[0], {})
    ensures NoneReturns(states) && TimeAdvances(states)
    ensures NoneMissed(states, actions) && TimeFollows(baseLine, states, actions)
  {
    hide Inv, IsRun, Keys, NotAfter, NoneMissed, TimeFollows;
    RunTakesIn(baseLine, states, actions);
    forall i: nat, j: nat, k: nat, key: Key
      | i <= j <= k < |states| && key in Keys(states[i].queue) && key !in Keys(states[j].queue)
      ensures key !in Keys(states[k].queue)
    {
      NeverReturns(baseLine, states, actions, i, j, k, key);
    }
    forall m: nat, n: nat | m <= n < |states| ensures NotAfter(states[m].current, states[n].current) {
      TimeNeverDecreases(baseLine, states, actions, m, n);
    }
  }

  /** The batch an action takes from the outer loop, if it starts a turn of that loop. */
  function TurnOf(a: Action): seq<Queue> {
    match a
    case Merge(batch) => [batch]
    case Idle => [[]]
    case _ => []
  }

  /** The batches of a run, in order; an idle turn is an empty one. */
  function Turns(actions: seq<Action>): seq<Queue> {
    if actions == [] then [] else Turns(actions[..|actions| - 1]) + TurnOf(actions[|actions| - 1])
  }

  lemma TurnsGrow(actions: seq<Action>, from: nat, a: Action)
    requires from <= |actions|
    ensures Turns((actions + [a])[from..]) == Turns(actions[from..]) + TurnOf(a)
  {
    hide TurnOf;
    assert (actions + [a])[from..] == actions[from..] + [a];
  }
}
