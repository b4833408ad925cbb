/** Facts relating the list of values, the hash function and the bucket array: the listing a table
    must have, and what each operation on the list does to it. */
module TableFacts {
  import opened BitMask
  import opened RobinHood
  import opened Directory
  import opened Placement
  import opened PlainList
  import opened RangeSweep

  /** The largest number of values: the index type less its reserved empty marker. */
  const MAX_SIZE: nat := HASH_RANGE - 2
  const MANY_PROBES: nat := 128

  /** The limit is 2^32 - 2, and no table of at most 2^31 buckets reaches it. */
  lemma SizeLimit<K, V>(hash: K -> nat, b: seq<Bucket>, vs: seq<Pair<K, V>>)
    requires Represents(b, Index(hash, vs))
    ensures MAX_SIZE == 0xFFFF_FFFE
    ensures |b| <= 0x8000_0000 ==> |vs| < MAX_SIZE
  {
    Census(b, Index(hash, vs));
  }

  datatype Outcome = Inserted(pos: nat) | Present(pos: nat) | LengthError

  function Truncate(hash: nat): (t: nat)
    ensures t < HASH_RANGE
  {
    hash % HASH_RANGE
  }

  /** The listing a table over these values must have. */
  ghost function Index<K, V>(hash: K -> nat, values: seq<Pair<K, V>>): (m: Listing)
    ensures |m| == |values|
  {
    var m := map v: nat | v < |values| :: Truncate(hash(values[v].key));
    assert m.Keys == Range(|values|);
    m
  }

  ghost function Range(n: nat): (s: set<nat>)
    ensures |s| == n
    ensures forall v: nat :: v in s <==> v < n
  {
    if n == 0 then {} else Range(n - 1) + {n - 1}
  }

  /** The load threshold for n buckets. */
  function Threshold(n: nat, factor: real): (t: int)
  {
    (n as real * factor).Floor
  }

  lemma ThresholdInRange(n: nat, factor: real)
    requires factor >= 0.0
    ensures Threshold(n, factor) >= 0
  {
    assert n as real * factor >= 0.0;
  }

  /** The threshold is the largest integer that is at most the factor's part of the buckets; for a
      factor of 3/4, three quarters of them rounded down. */
  lemma ThresholdExact(n: nat, factor: real, t: int)
    ensures Threshold(n, factor) == t <==> t as real <= n as real * factor < (t + 1) as real
    ensures Threshold(n, 0.75) == 3 * n / 4
  {
    var y := n as real * 0.75;
    assert 4.0 * y == (3 * n) as real;
    var q := 3 * n / 4;
    assert (4 * q) as real <= 4.0 * y < (4 * (q + 1)) as real;
  }

  /** needed buckets are enough for the values, and fewer are not. */
  lemma NeededExact(size: nat, factor: real, c: int)
    requires factor > 0.0
    ensures c >= Needed(size, factor) <==> c as real * factor >= size as real
  {
    var q := size as real / factor;
    assert q * factor == size as real;
    Scaled(factor, c as real, q);
    assert Needed(size, factor) as real >= q > Needed(size, factor) as real - 1.0;
    assert factor * c as real == c as real * factor && factor * q == q * factor;
  }

  lemma ThresholdBelow(n: nat, factor: real)
    requires 0.0 <= factor <= 1.0
    ensures Threshold(n, factor) <= n
  {
    assert n as real * factor <= n as real * 1.0;
  }

  /** Among tables of at most 2^top buckets the threshold never exceeds the number of buckets exactly
      for load factors below 1 + 2^-top; the setter lets larger ones through. */
  lemma LoadFactorLeavesRoom(factor: real, top: nat)
    requires factor > 0.0 && top < WORD_BITS
    ensures (forall n: nat | GoodCount(n) && n <= Pow2(top) :: Threshold(n, factor) <= n)
       <==> factor < 1.0 + Inverse(Pow2(top))
  {
    hide Threshold, GoodCount, Inverse;
    TopCount(top);
    Overfull(Pow2(top), factor);
    if factor < 1.0 + Inverse(Pow2(top)) {
      forall n: nat | GoodCount(n) && n <= Pow2(top) ensures Threshold(n, factor) <= n {
        if n > 0 {
          InverseFalls(n, Pow2(top));
          Overfull(n, factor);
        } else {
          NoThreshold(factor);
        }
      }
    }
  }

  function Inverse(n: nat): real
    requires n > 0
  {
    1.0 / n as real
  }

  lemma Scaled(c: real, x: real, y: real)
    requires c > 0.0
    ensures c * x < c * y <==> x < y
  {
    var d := y - x;
    assert c * y == c * x + c * d;
    if d > 0.0 {
      assert c * d > 0.0;
    } else {
      assert c * -d >= 0.0;
      assert c * d == -(c * -d);
    }
  }

  lemma InverseFalls(n: nat, p: nat)
    requires 0 < n <= p
    ensures Inverse(p) <= Inverse(n)
  {
    var x, y := n as real, p as real;
    assert y * Inverse(p) == 1.0 && x * Inverse(n) == 1.0;
    assert y * Inverse(n) == x * Inverse(n) + (y - x) * Inverse(n);
    assert (y - x) * Inverse(n) >= 0.0;
    Scaled(y, Inverse(n), Inverse(p));
  }

  /** A table of n buckets can fill up: its threshold lies above them. */
  lemma Overfull(n: nat, factor: real)
    requires n > 0
    ensures Threshold(n, factor) > n <==> factor >= 1.0 + Inverse(n)
  {
    hide Inverse;
    var c := n as real;
    InverseStep(n);
    Scaled(c, factor, 1.0 + Inverse(n));
    FloorAbove(c * factor, n);
  }

  lemma InverseStep(n: nat)
    requires n > 0
    ensures n as real * (1.0 + Inverse(n)) == (n + 1) as real
  {
    var c := n as real;
    assert c * Inverse(n) == 1.0;
    assert c * (1.0 + Inverse(n)) == c * 1.0 + c * Inverse(n);
  }

  lemma FloorAbove(x: real, n: nat)
    ensures x.Floor > n <==> x >= (n + 1) as real
  {
  }

  lemma NoThreshold(factor: real)
    ensures Threshold(0, factor) == 0
  {
    assert 0.0 * factor == 0.0;
  }

  lemma TopCount(top: nat)
    requires top < WORD_BITS
    ensures GoodCount(Pow2(top))
  {
    WordPower();
    var w := WORD_BITS;
    assert Pow2(w) == 2 * Pow2(w - 1);
    Pow2Monotone(top, w - 1);
  }

  /** No buckets, or a power of two that fits the word rounding it. */
  ghost predicate GoodCount(n: nat) {
    n == 0 || (IsPow2(n) && n <= WORD / 2)
  }

  /** Among n buckets the truncated hash leads to the same one as the full hash. */
  predicate AtHome(n: nat, h: nat) {
    Ideal(n, Truncate(h)) == Ideal(n, h)
  }

  lemma SmallIsHome(n: nat, h: nat)
    requires GoodCount(n) && n <= HASH_RANGE
    ensures AtHome(n, h)
  {
    if n > 0 {
      var k: nat :| n == Pow2(k);
      TruncationAgrees(k);
    } else {
      assert And(h, 0) == 0 && And(Truncate(h), 0) == 0;
    }
  }

  /** The table of n buckets that holds one value with hash h. */
  function Lone(n: nat, h: nat): (b: seq<Bucket>)
    requires n > 0
  {
    seq(n, i requires 0 <= i < n => if i == Ideal(n, Truncate(h)) then Entry(0, Truncate(h)) else Empty)
  }

  /** A search that starts from the full hash needs this: otherwise it ends at an empty bucket at once
      in a sound table that holds the value. */
  lemma LookupNeedsHome(n: nat, h: nat)
    requires n > 0
    ensures Represents(Lone(n, h), map[0 := Truncate(h)]) && Ordered(Lone(n, h)) && Anchored(Lone(n, h))
    ensures AtHome(n, h) <==> Lone(n, h)[Ideal(n, h)].Entry?
  {
    var b, i := Lone(n, h), Ideal(n, Truncate(h));
    assert b[i] == Entry(0, Truncate(h)) && Dist(b, i) == 0;
    assert Lists(b, 0, Truncate(h));
    assert Free(b, i);
  }

  lemma RangeDistinct<K, V>(vs: seq<Pair<K, V>>, first: nat, last: nat)
    requires Distinct(vs) && first <= last <= |vs|
    ensures Distinct(RemoveRange(vs, first, last))
    ensures first == last ==> RemoveRange(vs, first, last) == vs
  {
    var r := RemoveRange(vs, first, last);
    forall i: nat, j: nat | i < j < |r| ensures r[i].key != r[j].key {
      assert r[i] == vs[if i < first then i else i + (last - first)];
      assert r[j] == vs[if j < first then j else j + (last - first)];
    }
  }

  lemma RangePositions<K, V>(hash: K -> nat, vs: seq<Pair<K, V>>, first: nat, last: nat)
    requires first < last <= |vs|
    ensures var m, m' := Index(hash, vs), Index(hash, RemoveRange(vs, first, last));
      && (forall v: nat :: v in m <==> v < |vs|) && (forall w: nat :: w in m' <==> w < |vs| - (last - first))
      && (forall v | v in m && !InRange(v, first, last) ::
            var w := ShiftPos(v, last, first - last);
            w in m' && m'[w] == m[v] && UnshiftPos(w, last, first - last) == v)
      && (forall w | w in m' ::
            var v := UnshiftPos(w, last, first - last);
            v in m && !InRange(v, first, last) && ShiftPos(v, last, first - last) == w)
  {
  }

  /** The listing with the positions from first up to it vacant. */
  ghost function Gap<K, V>(hash: K -> nat, vs: seq<Pair<K, V>>, first: nat, it: nat): (m: Listing) {
    map v: nat | v < |vs| && !(first <= v < it) :: Truncate(hash(vs[v].key))
  }

  /** erase_if has decided the elements of orig before it: the kept ones are in front, and the
      buckets list exactly the kept positions and those still to be decided. */
  ghost predicate Compacting<K, V>(hash: K -> nat, b: seq<Bucket>, vs: seq<Pair<K, V>>, orig: seq<Pair<K, V>>,
                                   drop: Pair<K, V> -> bool, first: nat, it: nat)
  {
    && first <= it <= |vs| == |orig|
    && vs[..first] == Keep(orig[..it], drop)
    && vs[it..] == orig[it..]
    && Distinct(orig)
    && Represents(b, Gap(hash, vs, first, it)) && Ordered(b) && Anchored(b)
  }

  lemma StartCompacting<K, V>(hash: K -> nat, b: seq<Bucket>, vs: seq<Pair<K, V>>, drop: Pair<K, V> -> bool, first: nat)
    requires Represents(b, Index(hash, vs)) && Ordered(b) && Anchored(b) && Distinct(vs)
    requires first <= |vs| && forall i: nat | i < first :: !drop(vs[i])
    ensures Compacting(hash, b, vs, vs, drop, first, first)
    ensures first == |vs| ==> Keep(vs, drop) == vs
  {
    KeepAll(vs[..first], drop);
    assert Gap(hash, vs, first, first) == Index(hash, vs);
    assert vs[..|vs|] == vs;
  }

  lemma GapSound<K, V>(hash: K -> nat, b: seq<Bucket>, vs: seq<Pair<K, V>>, orig: seq<Pair<K, V>>,
                       drop: Pair<K, V> -> bool, first: nat, it: nat)
    requires Compacting(hash, b, vs, orig, drop, first, it)
    ensures forall i: nat | i < |b| && b[i].Entry? ::
      b[i].index < |vs| && b[i].hash == Truncate(hash(vs[b[i].index].key))
  {
  }

  /** No kept or undecided element but the one at position it has its key. */
  lemma GapDistinct<K, V>(vs: seq<Pair<K, V>>, orig: seq<Pair<K, V>>, drop: Pair<K, V> -> bool,
                          first: nat, it: nat, v: nat)
    requires first <= it < |vs| == |orig| && Distinct(orig)
    requires vs[..first] == Keep(orig[..it], drop) && vs[it..] == orig[it..]
    requires v < |vs| && !(first <= v <= it)
    ensures vs[v].key != vs[it].key
  {
    assert vs[it] == vs[it..][0] == orig[it];
    if v < first {
      var w := KeepOrigin(orig[..it], drop, v);
      assert vs[v] == vs[..first][v] == orig[w];
    } else {
      assert vs[v] == vs[it..][v - it] == orig[v];
    }
  }

  /** A search for the key of the element at position it finds that element's bucket. */
  lemma GapBucket<K, V>(hash: K -> nat, b: seq<Bucket>, vs: seq<Pair<K, V>>, orig: seq<Pair<K, V>>,
                        drop: Pair<K, V> -> bool, first: nat, it: nat, ib: nat)
    requires Compacting(hash, b, vs, orig, drop, first, it) && it < |vs| && ib <= |b|
    requires ib < |b| ==> b[ib].Entry? && b[ib].index < |vs| && vs[b[ib].index].key == vs[it].key
    requires ib == |b| ==>
      forall i: nat | i < |b| && b[i].Entry? :: b[i].index < |vs| ==> vs[b[i].index].key != vs[it].key
    ensures ib < |b| && b[ib].index == it
  {
    var m := Gap(hash, vs, first, it);
    assert it in m;
    assert Lists(b, it, m[it]);
    var i: nat :| i < |b| && b[i] == Entry(it, m[it]);
    if ib < |b| && b[ib].index != it {
      assert b[ib].index in m;
      GapDistinct(vs, orig, drop, first, it, b[ib].index);
    }
  }

  lemma DropNext<K, V>(hash: K -> nat, b: seq<Bucket>, vs: seq<Pair<K, V>>, orig: seq<Pair<K, V>>,
                       drop: Pair<K, V> -> bool, first: nat, it: nat)
    requires first <= it < |vs| == |orig| && Distinct(orig)
    requires vs[..first] == Keep(orig[..it], drop) && vs[it..] == orig[it..] && drop(vs[it])
    requires Represents(b, Gap(hash, vs, first, it) - {it}) && Ordered(b) && Anchored(b)
    ensures Compacting(hash, b, vs, orig, drop, first, it + 1)
  {
    assert vs[it] == vs[it..][0] == orig[it];
    KeepStep(orig, drop, it);
    assert vs[it + 1..] == vs[it..][1..] == orig[it + 1..];
    assert Gap(hash, vs, first, it) - {it} == Gap(hash, vs, first, it + 1);
  }

  lemma KeepNext<K, V>(hash: K -> nat, b: seq<Bucket>, vs: seq<Pair<K, V>>, orig: seq<Pair<K, V>>,
                       drop: Pair<K, V> -> bool, first: nat, it: nat, ib: nat, c: seq<Bucket>, ws: seq<Pair<K, V>>)
    requires Compacting(hash, b, vs, orig, drop, first, it) && first < it < |vs| && !drop(vs[it])
    requires ib < |b| && b[ib].Entry? && b[ib].index == it
    requires c == b[ib := Entry(first, b[ib].hash)]
    requires |ws| == |vs| && ws[first] == vs[it]
    requires forall i: nat | i < |vs| && i != first && i != it :: ws[i] == vs[i]
    ensures Compacting(hash, c, ws, orig, drop, first + 1, it + 1)
  {
    hide Represents, Ordered, Anchored, Distinct, Keep, Gap;
    KeptNext(vs, orig, drop, first, it, ws);
    KeptBucket(hash, b, vs, first, it, ib, c, ws);
  }

  /** The list part of keeping the element at position it. */
  lemma KeptNext<K, V>(vs: seq<Pair<K, V>>, orig: seq<Pair<K, V>>, drop: Pair<K, V> -> bool, first: nat, it: nat,
                       ws: seq<Pair<K, V>>)
    requires first < it < |vs| == |orig| == |ws| && !drop(vs[it]) && ws[first] == vs[it]
    requires vs[..first] == Keep(orig[..it], drop) && vs[it..] == orig[it..]
    requires forall i: nat | i < |vs| && i != first && i != it :: ws[i] == vs[i]
    ensures ws[..first + 1] == Keep(orig[..it + 1], drop) && ws[it + 1..] == orig[it + 1..]
  {
    hide Keep;
    assert vs[it] == vs[it..][0] == orig[it];
    KeepStep(orig, drop, it);
    assert ws[..first + 1] == vs[..first] + [vs[it]];
    assert ws[it + 1..] == vs[it..][1..] == orig[it + 1..];
  }

  /** The bucket part. */
  lemma KeptBucket<K, V>(hash: K -> nat, b: seq<Bucket>, vs: seq<Pair<K, V>>, first: nat, it: nat, ib: nat,
                         c: seq<Bucket>, ws: seq<Pair<K, V>>)
    requires Represents(b, Gap(hash, vs, first, it)) && Ordered(b) && Anchored(b)
    requires ib < |b| && b[ib].Entry? && b[ib].index == it && c == b[ib := Entry(first, b[ib].hash)]
    requires first < it < |vs| == |ws| && ws[first] == vs[it]
    requires forall i: nat | i < |vs| && i != first && i != it :: ws[i] == vs[i]
    ensures Represents(c, Gap(hash, ws, first + 1, it + 1)) && Ordered(c) && Anchored(c)
  {
    hide Represents, Ordered, Anchored;
    ListedHash(b, Gap(hash, vs, first, it), ib);
    GapCloses(hash, vs, first, it, ws);
    Rename(b, Gap(hash, vs, first, it), ib, first);
    Reindexed(b, c);
  }

  lemma GapCloses<K, V>(hash: K -> nat, vs: seq<Pair<K, V>>, first: nat, it: nat, ws: seq<Pair<K, V>>)
    requires first < it < |vs| == |ws| && ws[first] == vs[it]
    requires forall i: nat | i < |vs| && i != first && i != it :: ws[i] == vs[i]
    ensures var m := Gap(hash, vs, first, it);
      it in m && (m - {it})[first := m[it]] == Gap(hash, ws, first + 1, it + 1)
  {
  }

  lemma FinishCompacting<K, V>(hash: K -> nat, b: seq<Bucket>, vs: seq<Pair<K, V>>, orig: seq<Pair<K, V>>,
                               drop: Pair<K, V> -> bool, first: nat)
    requires Compacting(hash, b, vs, orig, drop, first, |vs|)
    ensures vs[..first] == Keep(orig, drop) && Distinct(vs[..first])
    ensures Represents(b, Index(hash, vs[..first])) && Ordered(b) && Anchored(b)
  {
    assert orig[..|vs|] == orig;
    KeepDistinct(orig, drop);
    assert Gap(hash, vs, first, |vs|) == Index(hash, vs[..first]);
  }

  /** ceil(size / factor). */
  function Needed(size: nat, factor: real): int
    requires factor > 0.0
  {
    -(-(size as real / factor)).Floor
  }

  lemma NeededCovers(size: nat, factor: real)
    requires 0.0 < factor <= 1.0
    ensures Needed(size, factor) >= size
  {
    var q := size as real / factor;
    assert q * factor == size as real;
    assert q >= 0.0;
    assert q * (1.0 - factor) >= 0.0;
  }

  lemma ListedSound<K, V>(hash: K -> nat, b: seq<Bucket>, vs: seq<Pair<K, V>>)
    requires Represents(b, Index(hash, vs))
    ensures forall i: nat | i < |b| && b[i].Entry? ::
      b[i].index < |vs| && b[i].hash == Truncate(hash(vs[b[i].index].key))
  {
  }

  lemma TailWrappedBelow<K, V>(hash: K -> nat, b: seq<Bucket>, vs: seq<Pair<K, V>>, first: nat)
    requires Represents(b, Index(hash, vs))
    ensures WrappedBelow(b, 0, first, |vs|)
  {
    ListedSound(hash, b, vs);
  }

  lemma SameKeys<K, V>(hash: K -> nat, vs: seq<Pair<K, V>>, ws: seq<Pair<K, V>>)
    requires |vs| == |ws| && forall i: nat | i < |vs| :: vs[i].key == ws[i].key
    ensures Index(hash, ws) == Index(hash, vs) && (Distinct(vs) ==> Distinct(ws))
  {
  }

  lemma SwappedValues<K, V>(hash: K -> nat, vs: seq<Pair<K, V>>, p: nat, q: nat, e: Bucket, f: Bucket,
                            ws: seq<Pair<K, V>>)
    requires Distinct(vs) && p < |vs| && q < |vs| && p != q
    requires ws == vs[p := vs[q]][q := vs[p]]
    requires e == Entry(p, Index(hash, vs)[p]) && f == Entry(q, Index(hash, vs)[q])
    ensures Index(hash, ws) == SwapListing(Index(hash, vs), e, f) && Distinct(ws)
  {
    forall i: nat, j: nat | i < j < |ws| ensures ws[i].key != ws[j].key {
      assert ws[i] == vs[if i == p then q else if i == q then p else i];
      assert ws[j] == vs[if j == p then q else if j == q then p else j];
    }
  }

  lemma Swapped<K, V>(hash: K -> nat, b: seq<Bucket>, vs: seq<Pair<K, V>>, ib: nat, lb: nat,
                      c: seq<Bucket>, ws: seq<Pair<K, V>>)
    requires Represents(b, Index(hash, vs)) && Ordered(b) && Anchored(b) && Distinct(vs)
    requires ib < |b| && lb < |b| && b[ib].Entry? && b[lb].Entry? && ib != lb
    requires b[ib].index < |vs| && b[lb].index < |vs|
    requires c == b[ib := Entry(b[lb].index, b[ib].hash)][lb := Entry(b[ib].index, b[lb].hash)]
    requires ws == vs[b[ib].index := vs[b[lb].index]][b[lb].index := vs[b[ib].index]]
    ensures Represents(c, Index(hash, ws)) && Ordered(c) && Anchored(c) && Distinct(ws)
  {
    hide Represents, Ordered, Anchored, Distinct;
    ListedHash(b, Index(hash, vs), ib);
    ListedHash(b, Index(hash, vs), lb);
    SwapIndexes(b, Index(hash, vs), ib, lb);
    SwappedValues(hash, vs, b[ib].index, b[lb].index, b[ib], b[lb], ws);
    Reindexed(b, c);
  }

  datatype Place = Taken(pos: nat) | TooMany | Spot(ib: nat, dist: nat)

  /** An entry with this hash may be put at bucket ib, dist steps from its home. */
  ghost predicate Landing(b: seq<Bucket>, h: nat, ib: nat, dist: nat) {
    ib < |b| && dist == Offset(|b|, Ideal(|b|, h), ib) && Reaches(b, ib, dist)
  }

  lemma HasSpare<K, V>(hash: K -> nat, b: seq<Bucket>, vs: seq<Pair<K, V>>)
    requires Represents(b, Index(hash, vs)) && |vs| < |b|
    ensures HasRoom(b)
  {
    Census(b, Index(hash, vs));
  }

  lemma InsertedPositions<K, V>(hash: K -> nat, vs: seq<Pair<K, V>>, pos: nat, p: Pair<K, V>)
    requires pos <= |vs|
    ensures var m, m' := Index(hash, vs), Index(hash, InsertAt(vs, pos, p));
      && pos in m' && m'[pos] == Truncate(hash(p.key))
      && (forall v | v in m ::
            var w := ShiftPos(v, pos, 1); w in m' - {pos} && m'[w] == m[v] && UnshiftPos(w, pos, 1) == v)
      && (forall w | w in m' - {pos} ::
            var v := UnshiftPos(w, pos, 1); v in m && ShiftPos(v, pos, 1) == w)
  {
  }

  lemma InsertedDistinct<K, V>(vs: seq<Pair<K, V>>, pos: nat, p: Pair<K, V>)
    requires Distinct(vs) && pos <= |vs| && Position(vs, p.key) == |vs|
    ensures Distinct(InsertAt(vs, pos, p))
  {
    hide Position, InsertAt;
    var r := InsertAt(vs, pos, p);
    assert forall v: nat | v < Position(vs, p.key) :: vs[v].key != p.key;
    forall i: nat, j: nat | i < j < |r| ensures r[i].key != r[j].key {
      InsertedAt(vs, pos, p, i);
      InsertedAt(vs, pos, p, j);
    }
  }

  /** With the new pair in the list and the positions from pos on moved up, its entry is the one
      the table still lacks. */
  lemma OpenFor<K, V>(hash: K -> nat, b: seq<Bucket>, vs: seq<Pair<K, V>>, pos: nat, p: Pair<K, V>,
                      c: seq<Bucket>, ib: nat, dist: nat) returns (e: nat)
    requires Represents(b, Index(hash, vs)) && Ordered(b) && Distinct(vs) && |vs| < |b|
    requires pos <= |vs| && Position(vs, p.key) == |vs|
    requires Landing(b, Truncate(hash(p.key)), ib, dist)
    requires |c| == |b|
    requires if pos == |vs| then c == b else forall i: nat | i < |b| :: c[i] == Shifted(b[i], pos, 1)
    ensures Pending(c, Index(hash, InsertAt(vs, pos, p)), ib, dist, pos, Truncate(hash(p.key)), e)
    ensures Distinct(InsertAt(vs, pos, p))
  {
    var m, m' := Index(hash, vs), Index(hash, InsertAt(vs, pos, p));
    assert forall i: nat | i < |b| :: c[i] == Shifted(b[i], pos, 1);
    InsertedPositions(hash, vs, pos, p);
    ShiftListing(b, m, c, m' - {pos}, pos, 1);
    ShiftKeepsHashes(b, c, pos, 1);
    Reindexed(b, c);
    InsertedDistinct(vs, pos, p);
    HasSpare(hash, b, vs);
    e :| e < |c| && c[e] == Empty;
  }

  function Clamp(v: real, lo: real, hi: real): real {
    var atLeast := if lo < v then v else lo;
    if atLeast < hi then atLeast else hi
  }

  lemma EmptyTable<K, V>(hash: K -> nat, b: seq<Bucket>, vs: seq<Pair<K, V>>)
    requires vs == [] && forall i: nat | i < |b| :: b[i].Empty?
    ensures Represents(b, Index(hash, vs)) && Ordered(b) && Anchored(b)
  {
    if b != [] { assert Free(b, 0); }
  }

  /** The number of buckets a table gets when count are asked for. */
  function Rounded(count: nat): (n: nat)
  {
    if count == 0 then 0 else LeastPower(count)
  }

  lemma RoundedUp(count: nat)
    ensures count <= Rounded(count)
    ensures count <= WORD / 2 ==> GoodCount(Rounded(count))
  {
    LeastPowerIs(count);
    WordPower();
    var w := WORD_BITS;
    assert Pow2(w) == 2 * Pow2(w - 1);
  }

  /** It is none for none, and otherwise the power of two that is at least the count and less than
      twice the count. */
  lemma RoundedExact(count: nat, n: nat)
    ensures Rounded(count) == n <==> if count == 0 then n == 0 else IsPow2(n) && count <= n < 2 * count
  {
    hide Pow2;
    if count > 0 {
      LeastPowerIs(count);
      LeastIsBelowTwice(count, Rounded(count));
      if IsPow2(n) && count <= n < 2 * count {
        BelowTwiceIsLeast(count, n);
        LeastPowerOnly(count, n);
      }
    }
  }

  /** The rounding of what rehash settles on is enough for the count and the values, and no smaller
      power of two is. */
  lemma RehashExact(count: nat, size: nat, factor: real, settled: int)
    requires factor > 0.0
    requires settled == if count < Needed(size, factor) then Needed(size, factor) else count
    ensures count <= Rounded(settled) && size as real <= Rounded(settled) as real * factor
    ensures forall k: nat :: count <= Pow2(k) && size as real <= Pow2(k) as real * factor ==>
      Rounded(settled) <= Pow2(k)
  {
    hide Needed, LeastPower, Pow2, GoodCount;
    RoundedUp(settled);
    CoversBoth(count, size, factor, settled, Rounded(settled));
    LeastPowerIs(settled);
    forall k: nat | count <= Pow2(k) && size as real <= Pow2(k) as real * factor ensures Rounded(settled) <= Pow2(k) {
      CoversBoth(count, size, factor, settled, Pow2(k));
    }
  }

  lemma CoversBoth(count: nat, size: nat, factor: real, settled: int, c: nat)
    requires factor > 0.0
    requires settled == if count < Needed(size, factor) then Needed(size, factor) else count
    ensures settled <= c <==> count <= c && size as real <= c as real * factor
  {
    hide Needed;
    NeededExact(size, factor, c);
  }

  lemma LeastIsBelowTwice(v: nat, r: nat)
    requires v > 0 && LeastPowerFrom(v, r)
    ensures r < 2 * v
  {
    var k: nat :| r == Pow2(k);
    if k > 0 { assert r == 2 * Pow2(k - 1); }
  }

  lemma BelowTwiceIsLeast(v: nat, r: nat)
    requires IsPow2(r) && v <= r < 2 * v
    ensures LeastPowerFrom(v, r)
  {
    var j: nat :| r == Pow2(j);
    forall k: nat | v <= Pow2(k) ensures r <= Pow2(k) {
      if k < j {
        assert Pow2(k + 1) == 2 * Pow2(k);
        Pow2Monotone(k + 1, j);
      } else {
        Pow2Monotone(j, k);
      }
    }
  }

  /** When no bucket leads to a value with the key, no value has it. */
  lemma NotListed<K, V>(hash: K -> nat, b: seq<Bucket>, vs: seq<Pair<K, V>>, key: K)
    requires Represents(b, Index(hash, vs))
    requires forall i: nat | i < |b| && b[i].Entry? :: b[i].index < |vs| ==> vs[b[i].index].key != key
    ensures forall v: nat | v < |vs| :: vs[v].key != key
  {
    var m := Index(hash, vs);
    forall v: nat | v < |vs| ensures vs[v].key != key {
      assert v in m;
      assert Lists(b, v, m[v]);
      var i: nat :| i < |b| && b[i] == Entry(v, m[v]);
    }
  }

  /** A probe for the key has passed dist buckets that hold other keys and has reached bucket ib. */
  ghost predicate Probed<K, V>(hash: K -> nat, b: seq<Bucket>, vs: seq<Pair<K, V>>, key: K, ib: nat, dist: nat) {
    && b != [] && dist <= |b|
    && ib == At(|b|, Ideal(|b|, hash(key)), dist)
    && Passed(b, hash(key), dist) && Reaches(b, ib, dist)
    && forall k: nat | k < dist ::
         var i := At(|b|, Ideal(|b|, hash(key)), k); b[i].index < |vs| && vs[b[i].index].key != key
  }

  lemma ProbeStep<K, V>(hash: K -> nat, b: seq<Bucket>, vs: seq<Pair<K, V>>, key: K, ib: nat, dist: nat)
    requires Probed(hash, b, vs, key, ib, dist)
    requires b[ib].Entry? && dist <= Dist(b, ib)
    requires b[ib].index < |vs| && b[ib].hash == Truncate(hash(vs[b[ib].index].key))
    requires !(b[ib].hash == Truncate(hash(key)) && vs[b[ib].index].key == key)
    ensures dist < |b| && Probed(hash, b, vs, key, Next(|b|, ib), dist + 1)
  {
    AtStep(|b|, Ideal(|b|, hash(key)), dist);
  }

  /** A probe that stops without finding the key has missed nothing, and stops where an entry for
      the key belongs. */
  lemma ProbeEnds<K, V>(hash: K -> nat, b: seq<Bucket>, vs: seq<Pair<K, V>>, key: K, ib: nat, dist: nat)
    requires Represents(b, Index(hash, vs)) && Ordered(b) && AtHome(|b|, hash(key))
    requires Probed(hash, b, vs, key, ib, dist)
    requires b[ib].Empty? || Dist(b, ib) < dist
    ensures forall v: nat | v < |vs| :: vs[v].key != key
    ensures HasRoom(b) ==> dist == Offset(|b|, Ideal(|b|, Truncate(hash(key))), ib)
  {
    var h := hash(key);
    forall i: nat | i < |b| && b[i].Entry? ensures b[i].index < |vs| && vs[b[i].index].key != key {
      if vs[b[i].index].key == key {
        StopsInTime(b, h, dist, i);
      }
    }
    NotListed(hash, b, vs, key);
    if HasRoom(b) {
      PassedLeavesRoom(b, h, dist);
      AtStep(|b|, Ideal(|b|, h), dist);
    }
  }

  lemma RoomLeft(b: seq<Bucket>, sub: Listing, m: Listing) returns (e: nat)
    requires Represents(b, sub) && |sub| < |m| <= |b|
    ensures e < |b| && b[e].Empty?
  {
    Census(b, sub);
    e :| e < |b| && b[e] == Empty;
  }

  /** The number of buckets after growing. */
  function Doubled(n: nat): nat {
    if n == 0 then 1 else 2 * n
  }

  lemma DoubledIsRounded(n: nat)
    requires GoodCount(n)
    ensures Rounded(Doubled(n)) == Doubled(n)
  {
    if n > 0 {
      var k: nat :| n == Pow2(k);
      assert 2 * n == Pow2(k + 1);
      LeastPowerOnly(2 * n, 2 * n);
    }
  }

  lemma ReadyToShift(b: seq<Bucket>, at: nat, c: seq<Bucket>)
    requires |c| == |b| && Anchored(b)
    requires c == b || forall i: nat | i < |b| :: c[i] == Shifted(b[i], at + 1, -1)
    ensures Anchored(c)
  {
    if c != b {
      ShiftKeepsHashes(b, c, at + 1, -1);
      Reindexed(b, c);
    }
  }

  /** After the positions above the erased one have moved down, clearing its bucket leaves a hole
      in a table that otherwise lists the shorter list. */
  lemma ReadyToClose<K, V>(hash: K -> nat, b: seq<Bucket>, vs: seq<Pair<K, V>>, ib: nat, c: seq<Bucket>, z: nat)
    requires Represents(b, Index(hash, vs)) && Ordered(b) && Anchored(b) && Distinct(vs)
    requires ib < |b| && b[ib].Entry? && |c| == |b|
    requires b[ib].index < |vs|
    requires if b[ib].index == |vs| - 1 then c == b
             else forall i: nat | i < |b| :: c[i] == Shifted(b[i], b[ib].index + 1, -1)
    requires z < |c| && Free(c, z)
    ensures Represents(c[ib := Empty], Index(hash, RemoveAt(vs, b[ib].index)))
    ensures Hollow(c[ib := Empty], ib) && Stop(c[ib := Empty], ib, z)
    ensures Distinct(RemoveAt(vs, b[ib].index))
  {
    var at := b[ib].index;
    assert forall i: nat | i < |b| :: c[i] == Shifted(b[i], at + 1, -1);
    RemovedListing(hash, b, vs, ib, c);
    ShiftKeepsHashes(b, c, at + 1, -1);
    Reindexed(b, c);
    ClearMakesHollow(c, ib, z);
    RemovedDistinct(vs, at);
  }

  lemma RemovedDistinct<K, V>(vs: seq<Pair<K, V>>, at: nat)
    requires Distinct(vs) && at < |vs|
    ensures Distinct(RemoveAt(vs, at))
  {
    var r := RemoveAt(vs, at);
    forall i: nat, j: nat | i < j < |r| ensures r[i].key != r[j].key {
      assert r[i] == vs[if i < at then i else i + 1];
      assert r[j] == vs[if j < at then j else j + 1];
    }
  }

  lemma RemovedPositions<K, V>(hash: K -> nat, vs: seq<Pair<K, V>>, at: nat)
    requires at < |vs|
    ensures var m, m' := Index(hash, vs) - {at}, Index(hash, RemoveAt(vs, at));
      && (forall v | v in m ::
            var w := ShiftPos(v, at + 1, -1); w in m' && m'[w] == m[v] && UnshiftPos(w, at + 1, -1) == v)
      && (forall w | w in m' ::
            var v := UnshiftPos(w, at + 1, -1); v in m && ShiftPos(v, at + 1, -1) == w)
  {
  }

  /** Shifting the positions above the removed one and clearing its bucket gives the listing of the
      shorter list. */
  lemma RemovedListing<K, V>(hash: K -> nat, b: seq<Bucket>, vs: seq<Pair<K, V>>, ib: nat, c: seq<Bucket>)
    requires Represents(b, Index(hash, vs)) && ib < |b| && b[ib].Entry? && |c| == |b|
    requires b[ib].index < |vs|
    requires forall i: nat | i < |b| :: c[i] == Shifted(b[i], b[ib].index + 1, -1)
    ensures Represents(c[ib := Empty], Index(hash, RemoveAt(vs, b[ib].index)))
  {
    var at := b[ib].index;
    RemovedPositions(hash, vs, at);
    Forget(b, Index(hash, vs), ib);
    ShiftListing(b[ib := Empty], Index(hash, vs) - {at}, c[ib := Empty], Index(hash, RemoveAt(vs, at)), at + 1, -1);
  }
}
