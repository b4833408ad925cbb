/** Placing one pending entry by displacement: what holds before each probe step, and what the step
    leaves.  Shared by insertion and by rehashing. */
module Placement {
  import opened RobinHood
  import opened Directory

  /** The entry (index, hash) has reached bucket ib, dist steps from home; the array lists
      everything in m but that entry; bucket e is empty. */
  ghost predicate Pending(b: seq<Bucket>, m: Listing, ib: nat, dist: nat, index: nat, hash: nat, e: nat) {
    && Ordered(b)
    && index in m && m[index] == hash && Represents(b, m - {index})
    && ib < |b| && dist == Offset(|b|, Ideal(|b|, hash), ib) && Reaches(b, ib, dist)
    && e < |b| && b[e].Empty?
  }

  lemma NextHome(n: nat, s: nat, i: nat)
    requires s < n && i < n && Offset(n, s, i) < n - 1
    ensures Offset(n, s, Next(n, i)) == Offset(n, s, i) + 1
  {
  }

  lemma Nearer(n: nat, i: nat, e: nat)
    requires i < n && e < n && i != e
    ensures Offset(n, Next(n, i), e) < Offset(n, i, e)
  {
  }

  /** The pending entry takes the bucket; the one displaced becomes pending at the next bucket. */
  lemma TakeBucket(b: seq<Bucket>, m: Listing, ib: nat, dist: nat, index: nat, hash: nat, e: nat)
    requires Pending(b, m, ib, dist, index, hash, e) && b[ib].Entry? && dist > Dist(b, ib)
    ensures Pending(b[ib := Entry(index, hash)], m, Next(|b|, ib), Dist(b, ib) + 1,
                    b[ib].index, b[ib].hash, e)
    ensures Offset(|b|, Next(|b|, ib), e) < Offset(|b|, ib, e)
  {
    RoomBoundsDist(b, ib);
    Displace(b, ib, Entry(index, hash), dist);
    Exchange(b, m, ib, index);
    NextHome(|b|, Ideal(|b|, b[ib].hash), ib);
    Nearer(|b|, ib, e);
  }

  lemma LeaveBucket(b: seq<Bucket>, m: Listing, ib: nat, dist: nat, index: nat, hash: nat, e: nat)
    requires Pending(b, m, ib, dist, index, hash, e) && b[ib].Entry? && dist <= Dist(b, ib)
    ensures Pending(b, m, Next(|b|, ib), dist + 1, index, hash, e)
    ensures Offset(|b|, Next(|b|, ib), e) < Offset(|b|, ib, e)
  {
    RoomBoundsDist(b, ib);
    PassOver(b, ib, dist);
    NextHome(|b|, Ideal(|b|, hash), ib);
    Nearer(|b|, ib, e);
  }

  lemma Settle(b: seq<Bucket>, m: Listing, ib: nat, dist: nat, index: nat, hash: nat, e: nat)
    requires Pending(b, m, ib, dist, index, hash, e) && b[ib].Empty?
    ensures var c := b[ib := Entry(index, hash)];
            Ordered(c) && Anchored(c) && Represents(c, m)
  {
    Fill(b, ib, Entry(index, hash), dist);
    Put(b, m, ib, index);
  }

  /** Placing an entry that is d steps from home from bucket ib on, within k buckets it or an entry it
      displaces comes to be more than 128 steps from home. */
  function GoesFar(b: seq<Bucket>, ib: nat, d: nat, k: nat): bool
    requires ib < |b|
    decreases k
  {
    k > 0 && b[ib].Entry? &&
    (var d' := 1 + if d > Dist(b, ib) then Dist(b, ib) else d;
     d' > 128 || GoesFar(b, Next(|b|, ib), d', k - 1))
  }

  lemma {:induction false} FarAhead(b: seq<Bucket>, c: seq<Bucket>, ib: nat, d: nat, k: nat)
    requires ib < |b| == |c| && k <= |b|
    requires forall o: nat | o < k :: c[At(|b|, ib, o)] == b[At(|b|, ib, o)]
    ensures GoesFar(c, ib, d, k) == GoesFar(b, ib, d, k)
    decreases k
  {
    hide Ideal, Offset;
    if k > 0 {
      assert At(|b|, ib, 0) == ib && c[At(|b|, ib, 0)] == b[At(|b|, ib, 0)];
    }
    if k > 0 && b[ib].Entry? {
      forall o: nat | o < k - 1 ensures c[At(|b|, Next(|b|, ib), o)] == b[At(|b|, Next(|b|, ib), o)] {
        assert At(|b|, Next(|b|, ib), o) == At(|b|, ib, o + 1);
      }
      FarAhead(b, c, Next(|b|, ib), 1 + if d > Dist(b, ib) then Dist(b, ib) else d, k - 1);
    }
  }

  /** An empty bucket bounds how far to look. */
  lemma {:induction false} FarEnough(b: seq<Bucket>, ib: nat, d: nat, k: nat, l: nat)
    requires ib < |b| && k < |b| && k <= l && b[At(|b|, ib, k)].Empty?
    ensures GoesFar(b, ib, d, l) == GoesFar(b, ib, d, k)
    decreases k
  {
    if k > 0 && b[ib].Entry? {
      assert At(|b|, Next(|b|, ib), k - 1) == At(|b|, ib, k);
      FarEnough(b, Next(|b|, ib), 1 + if d > Dist(b, ib) then Dist(b, ib) else d, k - 1, l - 1);
    } else if k == 0 {
      assert At(|b|, ib, 0) == ib;
    }
  }

  lemma FarEnds(b: seq<Bucket>, ib: nat, d: nat, k: nat)
    requires ib < |b| && b[ib].Empty?
    ensures !GoesFar(b, ib, d, k)
  {
  }

  /** One turn of the displacement loop, which changes at most the bucket it is at. */
  lemma FarStep(b: seq<Bucket>, ib: nat, d: nat, e: nat, c: seq<Bucket>)
    requires ib < |b| == |c| && e < |b| && b[ib].Entry? && b[e].Empty?
    requires forall i: nat | i < |b| && i != ib :: c[i] == b[i]
    ensures var d' := 1 + if d > Dist(b, ib) then Dist(b, ib) else d;
      GoesFar(b, ib, d, Offset(|b|, ib, e))
      == (d' > 128 || GoesFar(c, Next(|b|, ib), d', Offset(|b|, Next(|b|, ib), e)))
  {
    var n, k := |b|, Offset(|b|, ib, e);
    var d' := 1 + if d > Dist(b, ib) then Dist(b, ib) else d;
    assert k > 0 && Offset(n, Next(n, ib), e) == k - 1;
    forall o: nat | o < k - 1 ensures At(n, Next(n, ib), o) != ib {}
    FarAhead(b, c, Next(n, ib), d', k - 1);
  }

  /** A backward shift of b under way: r buckets have moved back, giving c; the shift must stop
      before it comes round to z. */
  ghost predicate Shifting(b: seq<Bucket>, hole: nat, z: nat, r: nat, c: seq<Bucket>) {
    && hole < |b| && r < |b| && z < |b| && b[hole].Empty? && c == ShiftRun(b, hole, r)
    && Hollow(c, At(|b|, hole, r)) && Stop(c, At(|b|, hole, r), z)
    && r + Fuel(|b|, At(|b|, hole, r), z) <= |b|
    && Run(b, hole, 0) == Run(b, hole, r)
    && (z == 0 ==> hole + r < |b|)
  }

  function Fuel(n: nat, hole: nat, z: nat): (f: nat)
    requires hole < n && z < n
    ensures f > 0
  {
    if z == hole then n else Offset(n, hole, z)
  }

  lemma StartShift(b: seq<Bucket>, hole: nat, z: nat)
    requires Hollow(b, hole) && z < |b| && Stop(b, hole, z)
    ensures Shifting(b, hole, z, 0, b) && At(|b|, hole, 0) == hole
  {
    ShiftRunStarts(b, hole);
  }

  lemma ShiftOne(b: seq<Bucket>, hole: nat, z: nat, r: nat, c: seq<Bucket>)
    requires Shifting(b, hole, z, r, c)
    requires var s := Next(|b|, At(|b|, hole, r)); c[s].Entry? && Dist(c, s) > 0
    ensures r + 1 < |b|
    ensures var p := At(|b|, hole, r); var s := Next(|b|, p);
            c[p].Empty? && p != s && s == At(|b|, hole, r + 1) && Shifting(b, hole, z, r + 1, c[p := c[s]][s := Empty])
  {
    var n := |b|;
    var p := At(n, hole, r);
    AtStep(n, hole, r);
    var s := Next(n, p);
    ShiftBack(c, p, z);
    ShiftRunStep(b, hole, r);
    assert Dist(b, s) == Dist(c, s);
  }

  lemma EndShift(b: seq<Bucket>, hole: nat, z: nat, r: nat, c: seq<Bucket>)
    requires Shifting(b, hole, z, r, c) && Free(c, Next(|b|, At(|b|, hole, r)))
    ensures Ordered(c) && Anchored(c) && c == ShiftRun(b, hole, Run(b, hole, 0))
    ensures z == 0 ==> hole + Run(b, hole, 0) < |b| && Free(c, 0)
  {
    var n := |b|;
    var p := At(n, hole, r);
    HollowEnds(c, p);
    AtStep(n, hole, r);
    var s := At(n, hole, r + 1);
    if r + 1 < n {
      ShiftRunStep(b, hole, r);
      assert b[s].Entry? ==> Dist(b, s) == Dist(c, s);
    }
  }

  /** The shift leaves the listing as it was. */
  lemma {:induction false} ShiftRunLists(b: seq<Bucket>, m: Listing, hole: nat, r: nat)
    requires Represents(b, m) && hole < |b| && r < |b| && b[hole].Empty?
    ensures Represents(ShiftRun(b, hole, r), m)
    decreases r
  {
    hide ShiftRun, Represents, At, Next;
    if r == 0 {
      ShiftRunStarts(b, hole);
    } else {
      ShiftRunLists(b, m, hole, r - 1);
      ShiftRunStep(b, hole, r - 1);
      var c := ShiftRun(b, hole, r - 1);
      var p, s := At(|b|, hole, r - 1), At(|b|, hole, r);
      if c[s].Entry? {
        Move(c, m, p, s);
      } else {
        assert c[p := c[s]][s := Empty] == c;
      }
    }
  }
}
