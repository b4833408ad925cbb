/** The sweep over the buckets that erase(first, last) makes: it clears or renumbers each bucket in
    turn, shifting back as it goes.  It is right when no probe chain wraps past the last bucket. */
module RangeSweep {
  import opened RobinHood
  import opened Directory
  import opened Placement
  import opened BitMask

  predicate InRange(v: nat, start: nat, end: nat) {
    start <= v < end
  }

  ghost function Filled(b: seq<Bucket>): nat {
    |multiset(b)[Empty := 0]|
  }

  lemma ClearLessens(b: seq<Bucket>, ib: nat, r: nat)
    requires ib < |b| && b[ib].Entry? && r < |b|
    ensures Filled(ShiftRun(b[ib := Empty], ib, r)) < Filled(b)
  {
    ShiftRunKeeps(b[ib := Empty], ib, r);
    assert multiset(b[ib := Empty]) == multiset(b) - multiset{b[ib]} + multiset{Empty};
    assert b[ib] in multiset(b);
  }

  lemma RenumberLessensNot(b: seq<Bucket>, ib: nat, e: Bucket)
    requires ib < |b| && b[ib].Entry? && e.Entry?
    ensures Filled(b[ib := e]) == Filled(b)
  {
    assert multiset(b[ib := e]) == multiset(b) - multiset{b[ib]} + multiset{e};
    assert b[ib] in multiset(b);
  }

  /** One pass of the loop: the buckets and the bucket to look at next. */
  function SweepStep(b: seq<Bucket>, ib: nat, start: nat, end: nat): (r: (seq<Bucket>, nat))
    requires ib < |b| && start < end
    ensures |r.0| == |b| && r.1 <= |b|
    ensures Filled(r.0) < Filled(b) || (Filled(r.0) == Filled(b) && r.1 > ib)
  {
    if b[ib].Empty? then (b, ib + 1)
    else if start <= b[ib].index < end then
      var c := b[ib := Empty];
      ClearLessens(b, ib, Run(c, ib, 0));
      (ShiftRun(c, ib, Run(c, ib, 0)), ib)
    else if b[ib].index >= end then
      var e := Entry(b[ib].index - (end - start), b[ib].hash);
      RenumberLessensNot(b, ib, e);
      (b[ib := e], ib + 1)
    else (b, ib + 1)
  }

  /** The buckets after the sweep from bucket ib on. */
  ghost function Sweep(b: seq<Bucket>, ib: nat, start: nat, end: nat): (c: seq<Bucket>)
    requires ib <= |b| && start < end
    ensures |c| == |b|
    decreases Filled(b), |b| - ib
  {
    if ib == |b| then b
    else
      var (c, jb) := SweepStep(b, ib, start, end);
      Sweep(c, jb, start, end)
  }

  /** Clearing bucket ib would move a renumbered entry, or one that falls into the range again, from
      bucket 0 to the last bucket, where the sweep meets it a second time. */
  predicate MovesBack(b: seq<Bucket>, ib: nat, start: nat, end: nat)
    requires ib < |b|
  {
    && b[ib].Entry? && InRange(b[ib].index, start, end)
    && ib + Run(b[ib := Empty], ib, 0) >= |b|
    && b[0].Entry? && b[0].index >= start
  }

  /** No pass of the sweep does that. */
  predicate SweepSafe(b: seq<Bucket>, ib: nat, start: nat, end: nat)
    requires ib <= |b| && start < end
    decreases Filled(b), |b| - ib
  {
    ib == |b| ||
    (var (c, jb) := SweepStep(b, ib, start, end);
     !MovesBack(b, ib, start, end) && SweepSafe(c, jb, start, end))
  }

  /** Bucket 0 is empty or holds an entry that is at home: no chain wraps. */
  ghost predicate NoWrap(b: seq<Bucket>) {
    b != [] ==> Free(b, 0)
  }

  /** Half way: d is b with the positions of the buckets before ib as they were; it lists part of m
      and has lost only positions in the range. */
  ghost predicate Sweeping(b: seq<Bucket>, d: seq<Bucket>, m: Listing, mm: Listing, ib: nat, start: nat, end: nat) {
    && |d| == |b| && ib <= |b| && start < end
    && Represents(d, mm)
    && (forall v | v in mm :: v in m && m[v] == mm[v])
    && (forall v | v in m && !InRange(v, start, end) :: v in mm)
    && (forall i: nat | i < ib :: b[i] == Shifted(d[i], end, start - end))
    && (forall i: nat | i < ib && d[i].Entry? :: !InRange(d[i].index, start, end))
    && (forall i: nat | ib <= i < |b| :: b[i] == d[i])
  }

  lemma StartSweep(b: seq<Bucket>, m: Listing, start: nat, end: nat)
    requires Represents(b, m) && start < end
    ensures Sweeping(b, b, m, m, 0, start, end)
  {
  }

  lemma SweepClears(b: seq<Bucket>, d: seq<Bucket>, m: Listing, mm: Listing, ib: nat, start: nat, end: nat)
    returns (d': seq<Bucket>, mm': Listing)
    requires Sweeping(b, d, m, mm, ib, start, end)
    requires ib < |b| && b[ib].Entry? && InRange(b[ib].index, start, end) && !MovesBack(b, ib, start, end)
    ensures Sweeping(ShiftRun(b[ib := Empty], ib, Run(b[ib := Empty], ib, 0)), d', m, mm', ib, start, end)
  {
    var r := Run(b[ib := Empty], ib, 0);
    var c := d[ib := Empty];
    mm' := mm - {b[ib].index};
    d' := ShiftRun(c, ib, r);
    Forget(d, mm, ib);
    ShiftRunLists(c, mm', ib, r);
    SweepShifts(b, d, ib, r, start, end);
  }

  lemma SweepShifts(b: seq<Bucket>, d: seq<Bucket>, ib: nat, r: nat, start: nat, end: nat)
    requires |d| == |b| && ib < |b| && r < |b| && start < end
    requires ib + r < |b| || (b[0].Entry? ==> b[0].index < start)
    requires forall i: nat | i < ib :: b[i] == Shifted(d[i], end, start - end)
    requires forall i: nat | i < ib && d[i].Entry? :: !InRange(d[i].index, start, end)
    requires forall i: nat | ib <= i < |b| :: b[i] == d[i]
    ensures var b', d' := ShiftRun(b[ib := Empty], ib, r), ShiftRun(d[ib := Empty], ib, r);
      && (forall i: nat | i < ib :: b'[i] == Shifted(d'[i], end, start - end))
      && (forall i: nat | i < ib && d'[i].Entry? :: !InRange(d'[i].index, start, end))
      && (forall i: nat | ib <= i < |b| :: b'[i] == d'[i])
  {
    assert ib > 0 ==> b[0] == Shifted(d[0], end, start - end);
  }

  lemma SweepPasses(b: seq<Bucket>, d: seq<Bucket>, m: Listing, mm: Listing, ib: nat, start: nat, end: nat)
    requires Sweeping(b, d, m, mm, ib, start, end)
    requires ib < |b| && (b[ib].Entry? ==> !InRange(b[ib].index, start, end))
    ensures Sweeping(b[ib := Shifted(b[ib], end, start - end)], d, m, mm, ib + 1, start, end)
  {
  }

  /** A finished sweep lists exactly the positions outside the range, renumbered. */
  lemma SweepEnds(b: seq<Bucket>, d: seq<Bucket>, m: Listing, mm: Listing, m': Listing, start: nat, end: nat)
    requires Sweeping(b, d, m, mm, |b|, start, end)
    requires forall v | v in m && !InRange(v, start, end) ::
      var w := ShiftPos(v, end, start - end); w in m' && m'[w] == m[v] && UnshiftPos(w, end, start - end) == v
    requires forall w | w in m' ::
      var v := UnshiftPos(w, end, start - end);
      v in m && !InRange(v, start, end) && ShiftPos(v, end, start - end) == w
    ensures Represents(b, m')
  {
    forall v | v in mm ensures !InRange(v, start, end) {
      assert Lists(d, v, mm[v]);
    }
    ShiftListing(d, mm, b, m', end, start - end);
  }

  /** From a half-way state on, a safe sweep ends well. */
  lemma {:induction false} SafeSweeps(b: seq<Bucket>, d: seq<Bucket>, m: Listing, mm: Listing, ib: nat,
                                      start: nat, end: nat)
    returns (d': seq<Bucket>, mm': Listing)
    requires Sweeping(b, d, m, mm, ib, start, end) && SweepSafe(b, ib, start, end)
    ensures Sweeping(Sweep(b, ib, start, end), d', m, mm', |b|, start, end)
    decreases Filled(b), |b| - ib
  {
    hide ShiftRun, Run, Filled, Represents, MovesBack;
    d', mm' := d, mm;
    if ib < |b| {
      var (c, jb) := SweepStep(b, ib, start, end);
      if b[ib].Entry? && InRange(b[ib].index, start, end) {
        d', mm' := SweepClears(b, d, m, mm, ib, start, end);
      } else {
        SweepPasses(b, d, m, mm, ib, start, end);
        assert c == b[ib := Shifted(b[ib], end, start - end)];
      }
      d', mm' := SafeSweeps(c, d', m, mm', jb, start, end);
    }
  }

  // ---- An unsafe sweep loses weight ----

  /** What position v counts: its number after the erasure, plus one, and nothing in the range; an
      entry already looked at counts as it stands. */
  function Weight(v: nat, done: bool, start: nat, end: nat): nat
    requires start < end
  {
    if done || v < start then v + 1 else if v < end then 0 else v - (end - start) + 1
  }

  function BucketWeight(e: Bucket, done: bool, start: nat, end: nat): nat
    requires start < end
  {
    if e.Empty? then 0 else Weight(e.index, done, start, end)
  }

  /** The buckets before ib have been looked at. */
  function Weights(b: seq<Bucket>, ib: nat, start: nat, end: nat): (w: seq<nat>)
    requires start < end
    ensures |w| == |b| && forall i: nat | i < |b| :: w[i] == BucketWeight(b[i], i < ib, start, end)
  {
    seq(|b|, i requires 0 <= i < |b| => BucketWeight(b[i], i < ib, start, end))
  }

  function Sum(w: seq<nat>): nat {
    if w == [] then 0 else Sum(w[..|w| - 1]) + w[|w| - 1]
  }

  lemma {:induction false} SumUpdate(w: seq<nat>, i: nat, x: nat)
    requires i < |w|
    ensures Sum(w[i := x]) + w[i] == Sum(w) + x
    decreases |w|
  {
    var n := |w| - 1;
    if i < n {
      SumUpdate(w[..n], i, x);
      assert w[i := x][..n] == w[..n][i := x];
    } else {
      assert w[i := x][..n] == w[..n];
    }
  }

  lemma {:induction false} SumZero(w: seq<nat>)
    requires forall i: nat | i < |w| :: w[i] == 0
    ensures Sum(w) == 0
    decreases |w|
  {
    if w != [] { SumZero(w[..|w| - 1]); }
  }

  ghost function Total(b: seq<Bucket>, ib: nat, start: nat, end: nat): nat
    requires start < end
  {
    Sum(Weights(b, ib, start, end))
  }

  lemma TotalUpdate(b: seq<Bucket>, ib: nat, i: nat, e: Bucket, start: nat, end: nat)
    requires i < |b| && start < end
    ensures Total(b[i := e], ib, start, end) + BucketWeight(b[i], i < ib, start, end)
         == Total(b, ib, start, end) + BucketWeight(e, i < ib, start, end)
  {
    hide BucketWeight;
    var w := Weights(b, ib, start, end);
    var x := BucketWeight(e, i < ib, start, end);
    SumUpdate(w, i, x);
    assert Weights(b[i := e], ib, start, end) == w[i := x];
  }

  lemma TotalAdvance(b: seq<Bucket>, ib: nat, start: nat, end: nat)
    requires ib < |b| && start < end
    ensures Total(b, ib + 1, start, end) + BucketWeight(b[ib], false, start, end)
         == Total(b, ib, start, end) + BucketWeight(b[ib], true, start, end)
  {
    hide BucketWeight;
    var w := Weights(b, ib, start, end);
    var x := BucketWeight(b[ib], true, start, end);
    SumUpdate(w, ib, x);
    assert Weights(b, ib + 1, start, end) == w[ib := x];
  }

  /** A backward shift changes the total only where it moves bucket 0 to the last bucket. */
  lemma {:induction false} ShiftTotal(c: seq<Bucket>, ib: nat, r: nat, start: nat, end: nat)
    requires ib < |c| && r < |c| && c[ib].Empty? && start < end
    ensures Total(ShiftRun(c, ib, r), ib, start, end)
            + (if ib + r < |c| then 0 else BucketWeight(c[0], true, start, end))
         == Total(c, ib, start, end) + if ib + r < |c| then 0 else BucketWeight(c[0], false, start, end)
    decreases r
  {
    hide ShiftRun, Total, Weight;
    if r == 0 {
      ShiftRunStarts(c, ib);
    } else {
      ShiftTotal(c, ib, r - 1, start, end);
      ShiftRunStep(c, ib, r - 1);
      var p, s := At(|c|, ib, r - 1), At(|c|, ib, r);
      var before := ShiftRun(c, ib, r - 1);
      var moved := before[p := before[s]];
      TotalUpdate(before, ib, p, before[s], start, end);
      TotalUpdate(moved, ib, s, Empty, start, end);
    }
  }

  lemma StepTotal(b: seq<Bucket>, ib: nat, start: nat, end: nat)
    requires ib < |b| && start < end
    ensures var (c, jb) := SweepStep(b, ib, start, end);
      && Total(c, jb, start, end) <= Total(b, ib, start, end)
      && (MovesBack(b, ib, start, end) ==> Total(c, jb, start, end) < Total(b, ib, start, end))
  {
    hide Total, Run, ShiftRun;
    if b[ib].Entry? && InRange(b[ib].index, start, end) {
      var c := b[ib := Empty];
      TotalUpdate(b, ib, ib, Empty, start, end);
      ShiftTotal(c, ib, Run(c, ib, 0), start, end);
    } else {
      var e := Shifted(b[ib], end, start - end);
      TotalUpdate(b, ib, ib, e, start, end);
      TotalAdvance(b[ib := e], ib, start, end);
      assert b[ib := b[ib]] == b;
    }
  }

  lemma {:induction false} SweepTotal(b: seq<Bucket>, ib: nat, start: nat, end: nat)
    requires ib <= |b| && start < end
    ensures Total(Sweep(b, ib, start, end), |b|, start, end) <= Total(b, ib, start, end)
    ensures !SweepSafe(b, ib, start, end) ==>
      Total(Sweep(b, ib, start, end), |b|, start, end) < Total(b, ib, start, end)
    decreases Filled(b), |b| - ib
  {
    hide Total, SweepStep, MovesBack;
    if ib < |b| {
      var (c, jb) := SweepStep(b, ib, start, end);
      StepTotal(b, ib, start, end);
      SweepTotal(c, jb, start, end);
    }
  }

  /** The total of the positions below n. */
  function PositionTotal(n: nat, done: bool, start: nat, end: nat): nat
    requires start < end
  {
    if n == 0 then 0 else PositionTotal(n - 1, done, start, end) + Weight(n - 1, done, start, end)
  }

  /** A bucket array that lists exactly the positions below n has their total. */
  lemma {:induction false} ListedTotal(b: seq<Bucket>, m: Listing, n: nat, done: bool, start: nat, end: nat)
    requires Represents(b, m) && (forall v: nat :: v in m <==> v < n) && start < end
    ensures Total(b, if done then |b| else 0, start, end) == PositionTotal(n, done, start, end)
    decreases n
  {
    var ib := if done then |b| else 0;
    if n == 0 {
      SumZero(Weights(b, ib, start, end));
    } else {
      assert Lists(b, n - 1, m[n - 1]);
      var i: nat :| i < |b| && b[i] == Entry(n - 1, m[n - 1]);
      Forget(b, m, i);
      ListedTotal(b[i := Empty], m - {n - 1}, n - 1, done, start, end);
      TotalUpdate(b, ib, i, Empty, start, end);
    }
  }

  lemma {:induction false} ErasedTotal(n: nat, start: nat, end: nat)
    requires start < end
    ensures PositionTotal(n, false, start, end)
         == PositionTotal(if n <= start then n else if n <= end then start else n - (end - start), true, start, end)
  {
    if n > 0 { ErasedTotal(n - 1, start, end); }
  }

  /** The sweep leaves the listing of the shortened list exactly when it is safe. */
  lemma SweepExact(b: seq<Bucket>, m: Listing, n: nat, m': Listing, start: nat, end: nat)
    requires Represents(b, m) && start < end <= n
    requires (forall v: nat :: v in m <==> v < n) && forall w: nat :: w in m' <==> w < n - (end - start)
    requires forall v | v in m && !InRange(v, start, end) :: m'[ShiftPos(v, end, start - end)] == m[v]
    ensures Represents(Sweep(b, 0, start, end), m') <==> SweepSafe(b, 0, start, end)
  {
    hide Sweep, SweepSafe, SweepStep, Total, PositionTotal, Represents;
    var c := Sweep(b, 0, start, end);
    if SweepSafe(b, 0, start, end) {
      StartSweep(b, m, start, end);
      var d, mm := SafeSweeps(b, b, m, m, 0, start, end);
      SweepEnds(c, d, m, mm, m', start, end);
    } else if Represents(c, m') {
      SweepTotal(b, 0, start, end);
      ListedTotal(b, m, n, false, start, end);
      ListedTotal(c, m', n - (end - start), true, start, end);
      ErasedTotal(n, start, end);
      assert false;
    }
  }

  // ---- Without a wrapped chain the sweep is safe ----

  /** The whole backward shift restores the order; it stops before bucket 0 when that is free. */
  lemma ShiftOrders(b: seq<Bucket>, hole: nat, z: nat)
    requires Hollow(b, hole) && z < |b| && Stop(b, hole, z)
    ensures var r := Run(b, hole, 0);
      && Ordered(ShiftRun(b, hole, r)) && Anchored(ShiftRun(b, hole, r))
      && (z == 0 ==> hole + r < |b| && Free(ShiftRun(b, hole, r), 0))
  {
    hide ShiftRun, Run, Hollow, Stop, Ordered, Anchored;
    var c, r: nat := b, 0;
    StartShift(b, hole, z);
    while !Free(c, Next(|b|, At(|b|, hole, r)))
      invariant Shifting(b, hole, z, r, c) && |c| == |b|
      decreases |b| - r
    {
      var p := At(|b|, hole, r);
      var s := Next(|b|, p);
      ShiftOne(b, hole, z, r, c);
      c, r := c[p := c[s]][s := Empty], r + 1;
    }
    EndShift(b, hole, z, r, c);
  }

  /** Renumbering one bucket leaves the order as it was. */
  lemma Renumbered(b: seq<Bucket>, ib: nat, e: Bucket)
    requires ib < |b| && Ordered(b)
    requires b[ib].Entry? == e.Entry? && (e.Entry? ==> b[ib].hash == e.hash)
    ensures Ordered(b[ib := e]) && (Anchored(b) ==> Anchored(b[ib := e])) && (NoWrap(b) ==> NoWrap(b[ib := e]))
  {
    Reindexed(b, b[ib := e]);
    assert Free(b, 0) ==> Free(b[ib := e], 0);
  }

  lemma StepNoWrap(b: seq<Bucket>, ib: nat, start: nat, end: nat)
    requires Ordered(b) && NoWrap(b) && ib < |b| && start < end
    ensures var (c, jb) := SweepStep(b, ib, start, end);
      Ordered(c) && NoWrap(c) && !MovesBack(b, ib, start, end)
  {
    hide Ordered, Run, ShiftRun;
    if b[ib].Entry? && InRange(b[ib].index, start, end) {
      ClearMakesHollow(b, ib, 0);
      ShiftOrders(b[ib := Empty], ib, 0);
    } else {
      Renumbered(b, ib, Shifted(b[ib], end, start - end));
      assert b[ib := b[ib]] == b;
    }
  }

  lemma {:induction false} NoWrapIsSafe(b: seq<Bucket>, ib: nat, start: nat, end: nat)
    requires Ordered(b) && NoWrap(b) && ib <= |b| && start < end
    ensures SweepSafe(b, ib, start, end) && NoWrap(Sweep(b, ib, start, end))
    decreases Filled(b), |b| - ib
  {
    hide Ordered, NoWrap, SweepStep, MovesBack, Filled;
    if ib < |b| {
      StepNoWrap(b, ib, start, end);
      var (c, jb) := SweepStep(b, ib, start, end);
      NoWrapIsSafe(c, jb, start, end);
    }
  }

  // ---- A check of the buckets before the call ----

  /** Of the entries that sit before their home bucket, those already looked at precede the range and
      the others precede its end. */
  ghost predicate WrappedBelow(b: seq<Bucket>, ib: nat, start: nat, end: nat) {
    forall i: nat | i < |b| && b[i].Entry? && i < Ideal(|b|, b[i].hash) :: b[i].index < if i < ib then start else end
  }

  lemma {:induction false} RunIsAway(b: seq<Bucket>, hole: nat, k: nat, o: nat)
    requires hole < |b| && k < |b| && k < o <= Run(b, hole, k)
    ensures var i := At(|b|, hole, o); b[i].Entry? && Dist(b, i) > 0
    decreases |b| - k
  {
    if k + 1 < o { RunIsAway(b, hole, k + 1, o); }
  }

  lemma ClearWrappedBelow(b: seq<Bucket>, ib: nat, start: nat, end: nat)
    requires WrappedBelow(b, ib, start, end) && ib < |b| && b[ib].Entry? && start < end
    ensures var c := b[ib := Empty]; WrappedBelow(ShiftRun(c, ib, Run(c, ib, 0)), ib, start, end)
    ensures !MovesBack(b, ib, start, end)
  {
    var n, c := |b|, b[ib := Empty];
    var r := Run(c, ib, 0);
    var d := ShiftRun(c, ib, r);
    hide Run, Dist;
    forall i: nat | i < n && d[i].Entry? && i < Ideal(n, d[i].hash) ensures d[i].index < if i < ib then start else end {
      var k := Offset(n, ib, i);
      if k < r {
        ShiftedFrom(c, ib, k);
        RunIsAway(c, ib, 0, k + 1);
        AwayFromHome(c, Next(n, i));
        assert d[i] == b[Next(n, i)];
      }
    }
    if ib + r >= n {
      assert At(n, ib, n - ib) == 0;
      RunIsAway(c, ib, 0, n - ib);
      AwayFromHome(c, 0);
    }
  }

  lemma ShiftedFrom(c: seq<Bucket>, ib: nat, k: nat)
    requires ib < |c| && k + 1 < |c|
    ensures var i := At(|c|, ib, k); At(|c|, ib, k + 1) == Next(|c|, i) && i != ib - 1
  {
  }

  lemma AwayFromHome(c: seq<Bucket>, i: nat)
    requires i < |c| && c[i].Entry? && Dist(c, i) > 0
    ensures Ideal(|c|, c[i].hash) != i
  {
  }

  /** When no entry numbered at or above end sits before its home bucket, the sweep is safe; so in
      particular at the end of the list. */
  lemma {:induction false} WrappedBelowIsSafe(b: seq<Bucket>, ib: nat, start: nat, end: nat)
    requires WrappedBelow(b, ib, start, end) && ib <= |b| && start < end
    ensures SweepSafe(b, ib, start, end)
    decreases Filled(b), |b| - ib
  {
    hide Run, ShiftRun, Filled, Ideal, MovesBack;
    if ib < |b| {
      var (c, jb) := SweepStep(b, ib, start, end);
      if b[ib].Entry? && InRange(b[ib].index, start, end) {
        ClearWrappedBelow(b, ib, start, end);
      } else {
        OutsideStays(b, ib, start, end);
      }
      WrappedBelowIsSafe(c, jb, start, end);
    }
  }

  lemma OutsideStays(b: seq<Bucket>, ib: nat, start: nat, end: nat)
    requires ib < |b| && !(b[ib].Entry? && InRange(b[ib].index, start, end)) && start < end
    ensures !MovesBack(b, ib, start, end)
  {
  }

  ghost function Wrapped(): seq<Bucket> {
    [Entry(2, 3), Entry(1, 1), Empty, Entry(0, 3)]
  }

  lemma WrappedIsTable()
    ensures var b := Wrapped();
      Represents(b, map[0 := 3, 1 := 1, 2 := 3]) && Ordered(b) && Anchored(b) && !NoWrap(b)
  {
    var b := Wrapped();
    assert And(3, 3) == 3 && And(1, 3) == 1;
    assert b[0] == Entry(2, 3) && b[1] == Entry(1, 1) && b[3] == Entry(0, 3);
    assert Lists(b, 0, 3) && Lists(b, 1, 1) && Lists(b, 2, 3);
    assert Free(b, 1);
  }

  /** Where a chain wraps the sweep can go wrong: here the entry of bucket 0 is renumbered, and erasing
      the position in bucket 3 moves it back there. */
  lemma WrapBreaksSweep()
    ensures var b := Wrapped();
      && Represents(b, map[0 := 3, 1 := 1, 2 := 3]) && Ordered(b) && Anchored(b)
      && !SweepSafe(b, 0, 0, 1)
  {
    WrappedIsTable();
    hide Ordered, Anchored, Represents, SweepSafe, MovesBack, SweepStep;
    var b := Wrapped();
    var b1 := b[0 := Entry(1, 3)];
    var b2 := b1[1 := Entry(0, 1)];
    WrappedPass(b, 0, b1);
    WrappedPass(b1, 1, b2);
    WrappedPass(b2, 2, b2);
    WrappedMove(b2);
  }

  lemma WrappedPass(b: seq<Bucket>, ib: nat, c: seq<Bucket>)
    requires |b| == 4 && ib < 3
    requires if b[ib].Empty? then c == b else b[ib].index >= 1 && c == b[ib := Entry(b[ib].index - 1, b[ib].hash)]
    requires |c| == 4
    ensures SweepSafe(b, ib, 0, 1) == SweepSafe(c, ib + 1, 0, 1)
  {
    assert SweepStep(b, ib, 0, 1) == (c, ib + 1);
  }

  lemma WrappedMove(b: seq<Bucket>)
    requires |b| == 4 && b[0] == Entry(1, 3) && b[3] == Entry(0, 3)
    ensures !SweepSafe(b, 3, 0, 1)
  {
    var c := b[3 := Empty];
    assert And(3, 3) == 3;
    assert At(4, 3, 1) == 0 && Dist(c, 0) == 1;
    assert Run(c, 3, 0) >= 1;
    assert MovesBack(b, 3, 0, 1);
  }
}
