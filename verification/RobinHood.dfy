/** The bucket array of the ordered hash table as a sequence: probe distances around the wrap, the
    Robin Hood invariant, and the effect on both of one displacement, one fill and one backward
    shift. */
module RobinHood {
  import opened BitMask

  /** A bucket is empty or holds the position of a value and that value's truncated hash. */
  datatype Bucket = Empty | Entry(index: nat, hash: nat)

  function Mask(n: nat): nat {
    if n > 0 then n - 1 else 0
  }

  /** bucket_for_hash. */
  function Ideal(n: nat, hash: nat): (i: nat)
    ensures n > 0 ==> i < n
  {
    And(hash, Mask(n))
  }

  /** next_bucket. */
  function Next(n: nat, i: nat): nat {
    if i + 1 < n then i + 1 else 0
  }

  function Prev(n: nat, i: nat): nat
    requires i < n
  {
    if i == 0 then n - 1 else i - 1
  }

  /** The number of steps from s to i, wrapping at n. */
  function Offset(n: nat, s: nat, i: nat): (d: nat)
    requires s < n && i < n
    ensures d < n
  {
    if i >= s then i - s else n + i - s
  }

  /** The bucket d steps after s, wrapping at n. */
  function At(n: nat, s: nat, d: nat): (i: nat)
    requires s < n && d <= n
    ensures i < n
  {
    if s + d < n then s + d else s + d - n
  }

  /** distance_from_ideal_bucket. */
  function Dist(b: seq<Bucket>, i: nat): (d: nat)
    requires i < |b| && b[i].Entry?
    ensures d < |b|
  {
    Offset(|b|, Ideal(|b|, b[i].hash), i)
  }

  /** The home of a hash is its remainder, and distances are counted round the table. */
  lemma HomeAndDistance(b: seq<Bucket>, i: nat, h: nat)
    requires i < |b| && IsPow2(|b|)
    ensures Ideal(|b|, h) == h % |b| && Next(|b|, i) == (i + 1) % |b|
    ensures b[i].Entry? ==> Dist(b, i) == (i + |b| - b[i].hash % |b|) % |b|
  {
    var k: nat :| |b| == Pow2(k);
    MaskIsModulo(h, k);
    if b[i].Entry? {
      MaskIsModulo(b[i].hash, k);
      Around(i, b[i].hash % |b|, |b|);
    }
    Around(i + 1, 0, |b|);
  }

  lemma Around(i: nat, s: nat, n: nat)
    requires s < n && i <= n
    ensures (i + n - s) % n == if i >= s then (if i - s == n then 0 else i - s) else i + n - s
    ensures i % n == if i == n then 0 else i
  {
    if i >= s && i - s < n { DivModUnique(i + n - s, n, 1, i - s); }
    if i - s == n { DivModUnique(i + n - s, n, 2, 0); }
    if i < s { DivModUnique(i + n - s, n, 0, i + n - s); }
    if i == n { DivModUnique(i, n, 1, 0); } else { DivModUnique(i, n, 0, i); }
  }

  /** An entry away from its ideal bucket follows an entry at most one step closer to its own. */
  ghost predicate Follows(b: seq<Bucket>, i: nat)
    requires i < |b|
  {
    b[i].Entry? && Dist(b, i) > 0 ==>
      b[Prev(|b|, i)].Entry? && Dist(b, Prev(|b|, i)) >= Dist(b, i) - 1
  }

  ghost predicate Ordered(b: seq<Bucket>) {
    forall i: nat | i < |b| :: Follows(b, i)
  }

  /** No probe sequence crosses into bucket i. */
  ghost predicate Free(b: seq<Bucket>, i: nat)
    requires i < |b|
  {
    b[i].Empty? || Dist(b, i) == 0
  }

  ghost predicate Anchored(b: seq<Bucket>) {
    b == [] || exists i: nat :: i < |b| && Free(b, i)
  }

  ghost predicate HasRoom(b: seq<Bucket>) {
    Empty in b
  }

  /** A probe that is d steps from its ideal bucket may stop at bucket i. */
  ghost predicate Reaches(b: seq<Bucket>, i: nat, d: nat)
    requires i < |b|
  {
    d == 0 || (b[Prev(|b|, i)].Entry? && Dist(b, Prev(|b|, i)) >= d - 1)
  }

  lemma AtStep(n: nat, s: nat, d: nat)
    requires s < n && d < n
    ensures Next(n, At(n, s, d)) == At(n, s, d + 1)
    ensures Prev(n, At(n, s, d + 1)) == At(n, s, d)
    ensures Offset(n, s, At(n, s, d)) == d
  {
  }

  lemma AtOffset(n: nat, s: nat, i: nat)
    requires s < n && i < n
    ensures At(n, s, Offset(n, s, i)) == i
  {
  }

  /** Every bucket between the ideal bucket of an entry and the entry holds an entry that is at
      least as far from home as the bucket is from that ideal bucket. */
  lemma {:induction false} Chain(b: seq<Bucket>, p: nat, k: nat)
    requires Ordered(b) && p < |b| && b[p].Entry? && k <= Dist(b, p)
    ensures var q := At(|b|, Ideal(|b|, b[p].hash), k); b[q].Entry? && Dist(b, q) >= k
    decreases Dist(b, p) - k
  {
    var s := Ideal(|b|, b[p].hash);
    if k == Dist(b, p) {
      AtOffset(|b|, s, p);
    } else {
      Chain(b, p, k + 1);
      AtStep(|b|, s, k);
      assert Follows(b, At(|b|, s, k + 1));
    }
  }

  /** What a probe for hash h has seen after d steps without finding room or an excuse to stop. */
  ghost predicate Passed(b: seq<Bucket>, h: nat, d: nat)
    requires |b| > 0 && d <= |b|
  {
    forall k: nat | k < d ::
      var q := At(|b|, Ideal(|b|, h), k); b[q].Entry? && Dist(b, q) >= k
  }

  /** find_key may stop at an empty bucket or at an entry closer to its home than the probe: an
      entry with the probed ideal bucket lies among the buckets already passed. */
  lemma StopsInTime(b: seq<Bucket>, h: nat, d: nat, p: nat)
    requires Ordered(b) && p < |b| && d <= |b| && b[p].Entry?
    requires Ideal(|b|, b[p].hash) == Ideal(|b|, h)
    requires var q := At(|b|, Ideal(|b|, h), d); b[q].Empty? || Dist(b, q) < d
    ensures Dist(b, p) < d && p == At(|b|, Ideal(|b|, h), Dist(b, p))
  {
    AtOffset(|b|, Ideal(|b|, h), p);
    if d <= Dist(b, p) {
      Chain(b, p, d);
    }
  }

  /** A probe that is still going has not come round to an empty bucket. */
  lemma PassedLeavesRoom(b: seq<Bucket>, h: nat, d: nat)
    requires |b| > 0 && d <= |b| && Passed(b, h, d) && HasRoom(b)
    ensures d < |b|
  {
    var e: nat :| e < |b| && b[e] == Empty;
    var k := Offset(|b|, Ideal(|b|, h), e);
    AtOffset(|b|, Ideal(|b|, h), e);
    assert d <= k;
  }

  /** With room left no entry is as far from home as the table is long. */
  lemma RoomBoundsDist(b: seq<Bucket>, i: nat)
    requires Ordered(b) && HasRoom(b) && i < |b| && b[i].Entry?
    ensures Dist(b, i) < |b| - 1
  {
    if Dist(b, i) == |b| - 1 {
      var s := Ideal(|b|, b[i].hash);
      var e: nat :| e < |b| && b[e] == Empty;
      AtOffset(|b|, s, e);
      Chain(b, i, Offset(|b|, s, e));
    }
  }

  /** Displacing an entry that is closer to home keeps the order; the displaced entry may be put
      in the next bucket. */
  lemma Displace(b: seq<Bucket>, i: nat, e: Bucket, d: nat)
    requires Ordered(b) && i < |b| && b[i].Entry? && e.Entry?
    requires d == Offset(|b|, Ideal(|b|, e.hash), i) && d > Dist(b, i) && Reaches(b, i, d)
    ensures Ordered(b[i := e])
    ensures Reaches(b[i := e], Next(|b|, i), Dist(b, i) + 1)
  {
    var c := b[i := e];
    var n := |b|;
    assert Dist(c, i) == d;
    assert Prev(n, Next(n, i)) == i;
    forall j: nat | j < n ensures Follows(c, j) {
      assert Follows(b, j);
      assert forall k: nat | k < n && k != i && b[k].Entry? :: Dist(c, k) == Dist(b, k);
    }
  }

  /** Passing over an entry that is at least as far from home. */
  lemma PassOver(b: seq<Bucket>, i: nat, d: nat)
    requires i < |b| && b[i].Entry? && d <= Dist(b, i)
    ensures Reaches(b, Next(|b|, i), d + 1)
  {
    assert Prev(|b|, Next(|b|, i)) == i;
  }

  /** Filling the empty bucket a probe has reached keeps the order, and the bucket after it is not
      crossed by any probe. */
  lemma Fill(b: seq<Bucket>, i: nat, e: Bucket, d: nat)
    requires Ordered(b) && i < |b| && b[i].Empty? && e.Entry?
    requires d == Offset(|b|, Ideal(|b|, e.hash), i) && Reaches(b, i, d)
    ensures Ordered(b[i := e]) && Anchored(b[i := e])
  {
    var c := b[i := e];
    var n := |b|;
    var s := Next(n, i);
    assert Prev(n, s) == i;
    assert Follows(b, s);
    assert Free(c, s);
    forall j: nat | j < n ensures Follows(c, j) {
      assert Follows(b, j);
      assert forall k: nat | k < n && k != i && b[k].Entry? :: Dist(c, k) == Dist(b, k);
    }
  }

  /** The order with an empty bucket at hole that its successors have not yet moved into: only the
      bucket after the hole may break the order, and by no more than the hole accounts for. */
  ghost predicate Hollow(b: seq<Bucket>, hole: nat) {
    && hole < |b| && b[hole].Empty?
    && (forall i: nat | i < |b| && i != Next(|b|, hole) :: Follows(b, i))
    && (var s := Next(|b|, hole); b[s].Entry? && Dist(b, s) >= 2 ==>
          b[Prev(|b|, hole)].Entry? && Dist(b, Prev(|b|, hole)) >= Dist(b, s) - 2)
  }

  /** The bucket at which the backward shift must stop: free, or about to be so. */
  ghost predicate Stop(b: seq<Bucket>, hole: nat, z: nat)
    requires hole < |b| && z < |b|
  {
    if z == hole then
      var s := Next(|b|, hole); b[s].Entry? ==> Dist(b, s) <= 1
    else Free(b, z)
  }

  ghost function AnchorOf(b: seq<Bucket>): (z: nat)
    requires Anchored(b) && b != []
    ensures z < |b| && Free(b, z)
  {
    var z: nat :| z < |b| && Free(b, z); z
  }

  lemma ClearMakesHollow(b: seq<Bucket>, p: nat, z: nat)
    requires Ordered(b) && p < |b| && b[p].Entry? && z < |b| && Free(b, z)
    ensures Hollow(b[p := Empty], p) && Stop(b[p := Empty], p, z)
  {
    var c := b[p := Empty];
    var n := |b|;
    assert forall k: nat | k < n && k != p && b[k].Entry? :: Dist(c, k) == Dist(b, k);
    forall j: nat | j < n && j != Next(n, p) ensures Follows(c, j) {
      assert Follows(b, j);
    }
    var s := Next(n, p);
    assert Prev(n, s) == p;
    assert Follows(b, s) && Follows(b, p);
  }

  /** One swap of backward_shift. */
  lemma ShiftBack(b: seq<Bucket>, hole: nat, z: nat)
    requires Hollow(b, hole) && z < |b| && Stop(b, hole, z)
    requires var s := Next(|b|, hole); b[s].Entry? && Dist(b, s) > 0
    ensures var s := Next(|b|, hole);
            var c := b[hole := b[s]][s := Empty];
            Hollow(c, s) && Stop(c, s, z) && z != s &&
            (z == hole || Offset(|b|, s, z) < Offset(|b|, hole, z))
  {
    HollowMoves(b, hole);
    NearerStop(b, hole, z);
  }

  lemma HollowMoves(b: seq<Bucket>, hole: nat)
    requires Hollow(b, hole)
    requires var s := Next(|b|, hole); b[s].Entry? && Dist(b, s) > 0
    ensures var s := Next(|b|, hole); Hollow(b[hole := b[s]][s := Empty], s)
  {
    hide Dist;
    var n := |b|;
    var s := Next(n, hole);
    var c := b[hole := b[s]][s := Empty];
    assert s != hole && Prev(n, s) == hole;
    OneCloser(b, hole);
    forall k: nat | k < n && k != s && k != hole && b[k].Entry? ensures Dist(c, k) == Dist(b, k) { DistSame(b, c, k); }
    var t := Next(n, s);
    assert Prev(n, t) == s;
    forall j: nat | j < n && j != t ensures Follows(c, j) {
      if j != s { assert Follows(b, j); }
    }
    assert t != s ==> Follows(b, t);
  }

  lemma DistSame(b: seq<Bucket>, c: seq<Bucket>, k: nat)
    requires |b| == |c| && k < |b| && b[k].Entry? && c[k] == b[k]
    ensures Dist(c, k) == Dist(b, k)
  {
  }

  lemma OneCloser(b: seq<Bucket>, hole: nat)
    requires hole < |b| && b[hole].Empty?
    requires var s := Next(|b|, hole); b[s].Entry? && Dist(b, s) > 0
    ensures var s := Next(|b|, hole); var c := b[hole := b[s]][s := Empty];
      s != hole && c[hole] == b[s] && Dist(c, hole) == Dist(b, s) - 1
  {
  }

  lemma NearerStop(b: seq<Bucket>, hole: nat, z: nat)
    requires hole < |b| && b[hole].Empty? && z < |b| && Stop(b, hole, z)
    requires var s := Next(|b|, hole); b[s].Entry? && Dist(b, s) > 0
    ensures var s := Next(|b|, hole); var c := b[hole := b[s]][s := Empty];
      Stop(c, s, z) && z != s && (z == hole || Offset(|b|, s, z) < Offset(|b|, hole, z))
  {
    OneCloser(b, hole);
  }

  /** The array after the r buckets following an empty one have each moved back by one. */
  function ShiftRun(b: seq<Bucket>, hole: nat, r: nat): (c: seq<Bucket>)
    requires hole < |b| && r < |b|
    ensures |c| == |b|
  {
    seq(|b|, i requires 0 <= i < |b| =>
      var k := Offset(|b|, hole, i);
      if k < r then b[Next(|b|, i)] else if k == r then Empty else b[i])
  }

  /** How many buckets from the k-th on backward_shift moves: up to the first free one. */
  function Run(b: seq<Bucket>, hole: nat, k: nat): (r: nat)
    requires hole < |b| && k < |b|
    ensures k <= r < |b|
    decreases |b| - k
  {
    if k + 1 == |b| then k
    else
      var i := At(|b|, hole, k + 1);
      if b[i].Empty? || Dist(b, i) == 0 then k else Run(b, hole, k + 1)
  }

  lemma ShiftRunStarts(b: seq<Bucket>, hole: nat)
    requires hole < |b| && b[hole].Empty?
    ensures ShiftRun(b, hole, 0) == b
  {
  }

  lemma ShiftRunStep(b: seq<Bucket>, hole: nat, r: nat)
    requires hole < |b| && r + 1 < |b|
    ensures var p, s := At(|b|, hole, r), At(|b|, hole, r + 1);
      var c := ShiftRun(b, hole, r);
      p != s && c[p].Empty? && c[s] == b[s] && s == Next(|b|, p)
      && ShiftRun(b, hole, r + 1) == c[p := c[s]][s := Empty]
  {
    var n := |b|;
    var p, s := At(n, hole, r), At(n, hole, r + 1);
    var c, d := ShiftRun(b, hole, r), ShiftRun(b, hole, r + 1);
    forall i: nat | i < n ensures d[i] == c[p := c[s]][s := Empty][i] {
      AtOffset(n, hole, i);
    }
  }

  lemma SwapKeeps(c: seq<Bucket>, p: nat, s: nat)
    requires p < |c| && s < |c| && p != s && c[p].Empty?
    ensures multiset(c[p := c[s]][s := Empty]) == multiset(c)
  {
    assert multiset(c[p := c[s]]) == multiset(c) - multiset{Empty} + multiset{c[s]};
  }

  /** Moving buckets back neither adds nor loses an entry. */
  lemma {:induction false} ShiftRunKeeps(b: seq<Bucket>, hole: nat, r: nat)
    requires hole < |b| && r < |b| && b[hole].Empty?
    ensures multiset(ShiftRun(b, hole, r)) == multiset(b)
    decreases r
  {
    hide ShiftRun, At, Next;
    if r == 0 {
      ShiftRunStarts(b, hole);
    } else {
      ShiftRunKeeps(b, hole, r - 1);
      ShiftRunStep(b, hole, r - 1);
      SwapKeeps(ShiftRun(b, hole, r - 1), At(|b|, hole, r - 1), At(|b|, hole, r));
    }
  }

  /** When the bucket after the hole is free the whole array is ordered again. */
  lemma HollowEnds(b: seq<Bucket>, hole: nat)
    requires Hollow(b, hole) && Free(b, Next(|b|, hole))
    ensures Ordered(b) && Anchored(b)
  {
    assert Free(b, hole);
    forall j: nat | j < |b| ensures Follows(b, j) {
      if j == Next(|b|, hole) {}
    }
  }

  /** The order depends only on which buckets are filled and on the hashes. */
  ghost predicate SameHashes(b: seq<Bucket>, c: seq<Bucket>) {
    |b| == |c| && forall i: nat | i < |b| ::
      b[i].Entry? == c[i].Entry? && (b[i].Entry? ==> b[i].hash == c[i].hash)
  }

  lemma Reindexed(b: seq<Bucket>, c: seq<Bucket>)
    requires SameHashes(b, c)
    ensures Ordered(b) ==> Ordered(c)
    ensures Anchored(b) ==> Anchored(c)
    ensures HasRoom(b) ==> HasRoom(c)
    ensures forall i: nat, d: nat | i < |b| && Reaches(b, i, d) :: Reaches(c, i, d)
  {
    assert forall i: nat | i < |b| && b[i].Entry? :: Dist(c, i) == Dist(b, i);
    if Ordered(b) {
      forall j: nat | j < |c| ensures Follows(c, j) { assert Follows(b, j); }
    }
    if Anchored(b) && b != [] {
      var i: nat :| i < |b| && Free(b, i);
      assert Free(c, i);
    }
    if HasRoom(b) {
      var i: nat :| i < |b| && b[i] == Empty;
      assert c[i] == Empty;
    }
  }
}
