/** The insertion-ordered Robin Hood hash table. */
module OrderedHashTable {
  import opened BitMask
  import opened RobinHood
  import opened Directory
  import opened Placement
  import opened PlainList
  import opened RangeSweep
  import opened TableFacts

  class OrderedHash<K(==), V> {
    const hash: K -> nat
    var buckets: array<Bucket>
    var mask: nat
    var values: seq<Pair<K, V>>
    var loadThreshold: nat
    var maxLoadFactor: real
    var growOnNextInsert: bool

    constructor (hash: K -> nat, bucketCount: nat, factor: real)
      requires bucketCount <= WORD / 2 && factor > 0.0
      ensures Valid() && values == [] && this.hash == hash && fresh(buckets)
      ensures buckets.Length == Rounded(bucketCount) && maxLoadFactor == factor && !growOnNextInsert
    {
      var n := bucketCount;
      RoundedUp(bucketCount);
      if n > 0 {
        n := RoundUpToPowerOfTwo(n);
        LeastPowerOnly(bucketCount, n);
      }
      this.hash := hash;
      buckets := new Bucket[n](_ => Empty);
      mask := Mask(n);
      values := [];
      growOnNextInsert := false;
      maxLoadFactor := factor;
      ThresholdInRange(n, factor);
      loadThreshold := Threshold(n, factor);
      new;
      EmptyTable(hash, buckets[..], values);
    }

    ghost predicate Shaped()
      reads `buckets, `mask, `maxLoadFactor, `loadThreshold
    {
      && mask == Mask(buckets.Length) && GoodCount(buckets.Length)
      && maxLoadFactor > 0.0
      && loadThreshold == Threshold(buckets.Length, maxLoadFactor)
    }

    /** Every occupied bucket names a value and that value's hash. */
    ghost predicate Sound(b: seq<Bucket>)
      reads `values
    {
      forall i: nat | i < |b| && b[i].Entry? ::
        b[i].index < |values| && b[i].hash == Truncate(hash(values[b[i].index].key))
    }

    ghost predicate Valid()
      reads `buckets, `mask, `maxLoadFactor, `loadThreshold, `values, buckets
    {
      && Shaped()
      && Represents(buckets[..], Index(hash, values))
      && Ordered(buckets[..])
      && Anchored(buckets[..])
      && Distinct(values)
    }

    /** The bucket of the key's hash is that of its truncated hash, as it always is among up to 2^32
        buckets; a search for the key needs this. */
    predicate Findable(key: K)
      reads `buckets
    {
      AtHome(buckets.Length, hash(key))
    }

    /** The next insertion will grow the table first. */
    predicate Grows()
      reads `values, `loadThreshold, `growOnNextInsert
    {
      growOnNextInsert || |values| >= loadThreshold
    }

    /** There is a bucket to spare for one more value, or there will be after growing. */
    predicate HasSpace()
      reads `buckets, `values, `loadThreshold, `growOnNextInsert
    {
      if Grows() then Doubled(buckets.Length) <= WORD / 2 else |values| < buckets.Length
    }

    /** The key can be looked up, and can be inserted if it has to be. */
    predicate Insertable(key: K)
      reads `buckets, `values, `loadThreshold, `growOnNextInsert
    {
      && Findable(key)
      && (Position(values, key) == |values| < MAX_SIZE ==>
            HasSpace() && (Grows() ==> AtHome(Doubled(buckets.Length), hash(key))))
    }

    /** A table of up to 2^31 buckets with a load factor of at most 1 takes any key, and rehashes to
        any count. */
    lemma Ordinary(key: K, count: nat)
      requires Valid() && maxLoadFactor <= 1.0 && 2 * buckets.Length <= HASH_RANGE
      ensures Insertable(key) && |values| <= Rounded(RehashCount(count))
    {
      hide Represents, Ordered, Anchored, Distinct;
      DoubledIsRounded(buckets.Length);
      RoundedUp(Doubled(buckets.Length));
      SmallIsHome(buckets.Length, hash(key));
      SmallIsHome(Doubled(buckets.Length), hash(key));
      ThresholdBelow(buckets.Length, maxLoadFactor);
      NeededCovers(|values|, maxLoadFactor);
      RoundedUp(RehashCount(count));
    }

    function BucketForHash(h: nat): (ib: nat)
      reads `mask
      ensures ib <= mask
    {
      And(h, mask)
    }

    function DistanceFromIdealBucket(ib: nat): (d: nat)
      requires ib < buckets.Length && buckets[ib].Entry?
      requires mask < buckets.Length
      reads `mask, `buckets, buckets
      ensures mask == Mask(buckets.Length) ==> d == Dist(buckets[..], ib)
    {
      var idealBucket := BucketForHash(buckets[ib].hash);
      if ib >= idealBucket then ib - idealBucket else buckets.Length + ib - idealBucket
    }

    /** max_load_factor(ml): the clamped value is overwritten at once. */
    method SetMaxLoadFactor(ml: real)
      requires ml >= 0.0
      modifies this`maxLoadFactor, this`loadThreshold
      ensures maxLoadFactor == ml && loadThreshold == Threshold(buckets.Length, ml)
    {
      maxLoadFactor := Clamp(ml, 0.1, 0.95);
      maxLoadFactor := ml;
      ThresholdInRange(buckets.Length, ml);
      loadThreshold := Threshold(buckets.Length, maxLoadFactor);
    }

    /** The bucket holding the key, or the number of buckets when there is none. */
    method FindKey(key: K, h: nat) returns (ib: nat)
      requires Shaped() && Ordered(buckets[..]) && Sound(buckets[..]) && h == hash(key) && Findable(key)
      ensures ib <= buckets.Length
      ensures ib < buckets.Length ==>
        buckets[ib].Entry? && buckets[ib].index < |values| && values[buckets[ib].index].key == key
      ensures ib == buckets.Length ==>
        forall i: nat | i < buckets.Length && buckets[i].Entry? :: values[buckets[i].index].key != key
    {
      if buckets.Length == 0 {
        return 0;
      }
      ghost var b, n := buckets[..], buckets.Length;
      ib := BucketForHash(h);
      var dist := 0;
      while true
        invariant dist <= n && ib == At(n, Ideal(n, h), dist)
        invariant Passed(b, h, dist)
        invariant forall k: nat | k < dist :: values[b[At(n, Ideal(n, h), k)].index].key != key
        decreases n - dist
      {
        if buckets[ib].Empty? {
          break;
        } else if buckets[ib].hash == Truncate(h) && values[buckets[ib].index].key == key {
          return ib;
        } else if dist > DistanceFromIdealBucket(ib) {
          break;
        }
        AtStep(n, Ideal(n, h), dist);
        ib := Next(buckets.Length, ib);
        dist := dist + 1;
      }
      forall i: nat | i < n && b[i].Entry? ensures values[b[i].index].key != key {
        if values[b[i].index].key == key {
          StopsInTime(b, h, dist, i);
        }
      }
      ib := buckets.Length;
    }

    /** The displacement loop: puts an entry that has reached bucket ib, dist steps from home. */
    method InsertIndex(ib0: nat, dist0: nat, index0: nat, hash0: nat, ghost m: Listing, ghost e: nat)
      requires mask == Mask(buckets.Length) && Pending(buckets[..], m, ib0, dist0, index0, hash0, e)
      modifies buckets, this`growOnNextInsert
      ensures Represents(buckets[..], m) && Ordered(buckets[..]) && Anchored(buckets[..])
      ensures growOnNextInsert <==>
        (old(growOnNextInsert)
         || (GoesFar(old(buckets[..]), ib0, dist0, buckets.Length) && 20 * |values| >= 3 * buckets.Length))
    {
      hide Represents, Ordered, Anchored, Reaches, GoesFar, Offset, Ideal, Dist, At, Next, DistanceFromIdealBucket;
      var ib: nat, dist: nat, index: nat, hash: nat := ib0, dist0, index0, hash0;
      ghost var n, far := buckets.Length, false;
      AtOffset(n, ib, e);
      FarEnough(buckets[..], ib, dist, Offset(n, ib, e), n);
      while !buckets[ib].Empty?
        invariant Pending(buckets[..], m, ib, dist, index, hash, e)
        invariant growOnNextInsert <==> old(growOnNextInsert) || (far && 20 * |values| >= 3 * buckets.Length)
        invariant GoesFar(old(buckets[..]), ib0, dist0, n) == (far || GoesFar(buckets[..], ib, dist, Offset(n, ib, e)))
        decreases Offset(buckets.Length, ib, e)
      {
        ghost var b, ib1, dist1 := buckets[..], ib, dist;
        var distance := DistanceFromIdealBucket(ib);
        if dist > distance {
          TakeBucket(b, m, ib, dist, index, hash, e);
          var displaced := buckets[ib];
          buckets[ib] := Entry(index, hash);
          assert buckets[..] == b[ib := Entry(index, hash)];
          index, hash := displaced.index, displaced.hash;
          dist := distance;
        } else {
          LeaveBucket(b, m, ib, dist, index, hash, e);
        }
        ib := Next(buckets.Length, ib);
        dist := dist + 1;
        FarStep(b, ib1, dist1, e, buckets[..]);
        far := far || dist > 128;
        if dist > MANY_PROBES && !growOnNextInsert && 20 * |values| >= 3 * buckets.Length {
          growOnNextInsert := true;
        }
      }
      ghost var b := buckets[..];
      FarEnds(b, ib, dist, Offset(n, ib, e));
      Settle(b, m, ib, dist, index, hash, e);
      buckets[ib] := Entry(index, hash);
      assert buckets[..] == b[ib := Entry(index, hash)];
    }

    /** The placement loop of rehash_impl: probes for one old entry from its ideal bucket. */
    method Reinsert(index0: nat, hash0: nat, ghost m: Listing, ghost e: nat)
      requires mask == Mask(buckets.Length)
      requires Ordered(buckets[..]) && e < buckets.Length && buckets[e].Empty?
      requires index0 in m && m[index0] == hash0 && Represents(buckets[..], m - {index0})
      modifies buckets
      ensures Represents(buckets[..], m) && Ordered(buckets[..]) && Anchored(buckets[..])
    {
      var index: nat, hash: nat := index0, hash0;
      var ib: nat, dist: nat := BucketForHash(hash), 0;
      while true
        invariant Pending(buckets[..], m, ib, dist, index, hash, e)
        decreases Offset(buckets.Length, ib, e)
      {
        ghost var b := buckets[..];
        if buckets[ib].Empty? {
          Settle(b, m, ib, dist, index, hash, e);
          buckets[ib] := Entry(index, hash);
          assert buckets[..] == b[ib := Entry(index, hash)];
          return;
        }
        var distance := DistanceFromIdealBucket(ib);
        if dist > distance {
          TakeBucket(b, m, ib, dist, index, hash, e);
          var displaced := buckets[ib];
          buckets[ib] := Entry(index, hash);
          assert buckets[..] == b[ib := Entry(index, hash)];
          index, hash := displaced.index, displaced.hash;
          dist := distance;
        } else {
          LeaveBucket(b, m, ib, dist, index, hash, e);
        }
        ib := Next(buckets.Length, ib);
        dist := dist + 1;
      }
    }

    /** rehash_impl: to any count whose rounding has room for the values. */
    method RehashImpl(count: nat)
      requires Valid() && count <= WORD / 2 && |values| <= Rounded(count)
      modifies this
      ensures Valid() && values == old(values) && maxLoadFactor == old(maxLoadFactor)
      ensures buckets.Length == Rounded(count)
      ensures if buckets.Length == old(buckets.Length)
              then buckets == old(buckets) && growOnNextInsert == old(growOnNextInsert)
              else fresh(buckets) && !growOnNextInsert
    {
      hide Represents, Ordered, Anchored, Distinct, Index, LeastPowerFrom;
      var n := count;
      RoundedUp(count);
      if n > 0 {
        n := RoundUpToPowerOfTwo(n);
        LeastPowerOnly(count, n);
      }
      if n == buckets.Length {
        return;
      }
      var oldBuckets := buckets;
      ghost var b, m := oldBuckets[..], Index(hash, values);
      buckets := new Bucket[n](_ => Empty);
      mask := Mask(n);
      SetMaxLoadFactor(maxLoadFactor);
      growOnNextInsert := false;
      Refill(oldBuckets, m);
    }

    /** The loop of rehash_impl over the old buckets. */
    method Refill(oldBuckets: array<Bucket>, ghost m: Listing)
      requires buckets != oldBuckets && mask == Mask(buckets.Length)
      requires forall i: nat | i < buckets.Length :: buckets[i].Empty?
      requires Represents(oldBuckets[..], m) && |m| <= buckets.Length
      modifies buckets
      ensures Represents(buckets[..], m) && Ordered(buckets[..]) && Anchored(buckets[..])
    {
      hide *;
      ghost var b := oldBuckets[..];
      ghost var sub: Listing := map[];
      EmptyTable<K, V>(hash, buckets[..], []);
      EmptyTable<K, V>(hash, b[..0], []);
      assert Index<K, V>(hash, []) == map[];
      for i := 0 to oldBuckets.Length
        invariant Represents(b[..i], sub) && sub.Keys <= m.Keys && forall v | v in sub :: sub[v] == m[v]
        invariant Represents(buckets[..], sub) && Ordered(buckets[..]) && Anchored(buckets[..])
      {
        ReadNext(b, m, i, sub);
        if oldBuckets[i].Empty? {
          continue;
        }
        ghost var e := RoomLeft(buckets[..], sub, m);
        ghost var sub' := sub[oldBuckets[i].index := oldBuckets[i].hash];
        assert sub' - {oldBuckets[i].index} == sub;
        Reinsert(oldBuckets[i].index, oldBuckets[i].hash, sub', e);
        sub := sub';
      }
      assert b[..|b|] == b;
      OneListing(b, m, sub);
    }

    /** grow_on_high_load: afterwards there is a bucket to spare. */
    method GrowOnHighLoad() returns (grew: bool)
      requires Valid() && HasSpace()
      modifies this
      ensures Valid() && values == old(values) && maxLoadFactor == old(maxLoadFactor)
      ensures |values| < buckets.Length
      ensures grew <==> old(growOnNextInsert || |values| >= loadThreshold)
      ensures !grew ==> buckets == old(buckets)
      ensures grew ==>
        fresh(buckets) && buckets.Length == if old(buckets.Length) == 0 then 1 else 2 * old(buckets.Length)
      ensures !growOnNextInsert
    {
      Census(buckets[..], Index(hash, values));
      if growOnNextInsert || |values| >= loadThreshold {
        DoubledIsRounded(buckets.Length);
        RehashImpl(if 1 < 2 * buckets.Length then 2 * buckets.Length else 1);
        growOnNextInsert := false;
        return true;
      }
      return false;
    }

    /** The probe that opens insert_impl and insert_at_position_impl: the bucket of the key, or the
        bucket at which its entry would have to be put. */
    method Probe(key: K, h: nat) returns (found: bool, ib: nat, dist: nat)
      requires Valid() && h == hash(key) && Findable(key)
      ensures found ==> ib < buckets.Length && buckets[ib].Entry? && buckets[ib].index < |values|
                        && values[buckets[ib].index].key == key
      ensures !found ==> forall v: nat | v < |values| :: values[v].key != key
      ensures !found && HasRoom(buckets[..]) ==>
        && ib < buckets.Length && Reaches(buckets[..], ib, dist)
        && dist == Offset(buckets.Length, Ideal(buckets.Length, Truncate(h)), ib)
    {
      hide Represents, Ordered, Anchored, Distinct;
      ib, dist, found := BucketForHash(h), 0, false;
      if buckets.Length == 0 {
        NotListed(hash, buckets[..], values, key);
        return;
      }
      ghost var b := buckets[..];
      ListedSound(hash, b, values);
      while !buckets[ib].Empty? && dist <= DistanceFromIdealBucket(ib)
        invariant Probed(hash, b, values, key, ib, dist)
        decreases |b| - dist
      {
        if buckets[ib].hash == Truncate(h) && values[buckets[ib].index].key == key {
          found := true;
          return;
        }
        ProbeStep(hash, b, values, key, ib, dist);
        ib := Next(buckets.Length, ib);
        dist := dist + 1;
      }
      ProbeEnds(hash, b, values, key, ib, dist);
    }

    /** backward_shift: the buckets after the empty one, up to the first free one, move back. */
    method BackwardShift(hole: nat, ghost z: nat)
      requires mask == Mask(buckets.Length) && Hollow(buckets[..], hole)
      requires z < buckets.Length && Stop(buckets[..], hole, z)
      modifies buckets
      ensures Ordered(buckets[..]) && Anchored(buckets[..])
      ensures buckets[..] == ShiftRun(old(buckets[..]), hole, Run(old(buckets[..]), hole, 0))
    {
      hide ShiftRun, Run, Hollow, Stop, Ordered, Anchored, Fuel, At;
      ghost var b := buckets[..];
      StartShift(b, hole, z);
      ghost var r: nat := 0;
      var previous: nat := hole;
      var current: nat := Next(buckets.Length, previous);
      while !buckets[current].Empty? && DistanceFromIdealBucket(current) > 0
        invariant Shifting(b, hole, z, r, buckets[..])
        invariant previous == At(buckets.Length, hole, r) && current == Next(buckets.Length, previous)
        decreases buckets.Length - r
      {
        ghost var c := buckets[..];
        ShiftOne(b, hole, z, r, c);
        buckets[current], buckets[previous] := buckets[previous], buckets[current];
        assert buckets[..] == c[previous := c[current]][current := Empty];
        r := r + 1;
        previous := current;
        current := Next(buckets.Length, current);
      }
      EndShift(b, hole, z, r, buckets[..]);
    }

    /** Adds delta to every bucket index at or above a position. */
    method ShiftIndexesInBuckets(from: nat, delta: int)
      requires delta == 1 || (delta == -1 && from > 0)
      modifies buckets
      ensures forall i: nat | i < buckets.Length :: buckets[i] == Shifted(old(buckets[i]), from, delta)
    {
      for i := 0 to buckets.Length
        invariant forall j: nat | j < i :: buckets[j] == Shifted(old(buckets[j]), from, delta)
        invariant forall j: nat | i <= j < buckets.Length :: buckets[j] == old(buckets[j])
      {
        if !buckets[i].Empty? && buckets[i].index >= from {
          buckets[i] := Entry(buckets[i].index + delta, buckets[i].hash);
        }
      }
    }

    /** erase_value_from_bucket: removes the value, closes the gap in the positions, then clears the
        bucket and shifts its followers back. */
    method EraseValueFromBucket(ib: nat)
      requires Valid() && ib < buckets.Length && buckets[ib].Entry?
      modifies buckets, this`values
      ensures Valid() && values == RemoveAt(old(values), old(buckets[ib].index))
    {
      hide Represents, Ordered, Anchored, Distinct, Hollow, Stop, ShiftRun, Run, Index, GoodCount, Threshold;
      ghost var b, vs := buckets[..], values;
      ListedSound(hash, b, vs);
      var at := buckets[ib].index;
      values := RemoveAt(values, at);
      if at != |values| {
        ShiftIndexesInBuckets(at + 1, -1);
      }
      ghost var c := buckets[..];
      ReadyToShift(b, at, c);
      ghost var z := AnchorOf(c);
      ReadyToClose(hash, b, vs, ib, c, z);
      buckets[ib] := Empty;
      ghost var d := buckets[..];
      assert d == c[ib := Empty];
      BackwardShift(ib, z);
      ShiftRunLists(d, Index(hash, values), ib, Run(d, ib, 0));
    }

    /** The part insert_impl and insert_at_position_impl have in common: look for the key, make
        room, and find where the entry for the key goes. */
    method FindPlace(key: K, h: nat) returns (r: Place)
      requires Valid() && Insertable(key) && h == hash(key)
      modifies this
      ensures Valid() && values == old(values) && maxLoadFactor == old(maxLoadFactor)
      ensures r.Spot? ==> !growOnNextInsert && (if old(Grows()) then fresh(buckets) else buckets == old(buckets))
      ensures r.Spot? ==> buckets.Length == if old(Grows()) then Doubled(old(buckets.Length)) else old(buckets.Length)
      ensures !r.Spot? ==> buckets == old(buckets) && growOnNextInsert == old(growOnNextInsert)
      ensures match r
        case Taken(p) => p < |values| && values[p].key == key
        case TooMany => |values| >= MAX_SIZE && Position(values, key) == |values|
        case Spot(ib, dist) => |values| < MAX_SIZE && |values| < buckets.Length
                               && Position(values, key) == |values|
                               && Landing(buckets[..], Truncate(h), ib, dist)
    {
      var found, ib, dist := Probe(key, h);
      if found {
        return Taken(buckets[ib].index);
      }
      PositionAbsent(values, key);
      if |values| >= MAX_SIZE {
        return TooMany;
      }
      var grew := GrowOnHighLoad();
      if grew {
        ib, dist := BucketForHash(h), 0;
      }
      HasSpare(hash, buckets[..], values);
      return Spot(ib, dist);
    }

    /** The part of both insertions that follows: put the pair in the list, move the later positions
        up, and place the entry. */
    method Emplace(pos: nat, pair: Pair<K, V>, ib: nat, dist: nat)
      requires Valid() && pos <= |values| < buckets.Length && Position(values, pair.key) == |values|
      requires Landing(buckets[..], Truncate(hash(pair.key)), ib, dist)
      modifies buckets, this`values, this`growOnNextInsert
      ensures Valid() && values == InsertAt(old(values), pos, pair)
      ensures old(growOnNextInsert) ==> growOnNextInsert
      ensures growOnNextInsert ==> old(growOnNextInsert) || 20 * |values| >= 3 * buckets.Length
    {
      hide Represents, Ordered, Anchored, Distinct;
      ghost var vs, b := values, buckets[..];
      values := InsertAt(values, pos, pair);
      if pos != |values| - 1 {
        ShiftIndexesInBuckets(pos, 1);
      }
      ghost var e := OpenFor(hash, b, vs, pos, pair, buckets[..], ib, dist);
      InsertIndex(ib, dist, pos, Truncate(hash(pair.key)), Index(hash, values), e);
    }

    /** insert_impl: appends the pair unless its key is present. */
    method Insert(key: K, value: V) returns (r: Outcome)
      requires Valid() && Insertable(key)
      modifies this, buckets
      ensures Valid() && (buckets == old(buckets) || fresh(buckets)) && maxLoadFactor == old(maxLoadFactor)
      ensures r.Inserted? ==>
        buckets.Length == if old(Grows()) then Doubled(old(buckets.Length)) else old(buckets.Length)
      ensures !r.Inserted? ==> buckets == old(buckets) && growOnNextInsert == old(growOnNextInsert)
      ensures r == LengthError ==> |old(values)| >= 0xFFFF_FFFE && old(buckets.Length) > 0x8000_0000
      ensures var p := Position(old(values), key);
        if p < |old(values)| then r == Present(p) && values == old(values)
        else if |old(values)| >= 0xFFFF_FFFE then r == LengthError && values == old(values)
        else r == Inserted(|old(values)|) && values == old(values) + [Pair(key, value)]
    {
      AppendIsInsert(values, Pair(key, value));
      r := InsertAtPosition(|values|, key, value);
    }

    /** insert_at_position_impl. */
    method InsertAtPosition(pos: nat, key: K, value: V) returns (r: Outcome)
      requires Valid() && Insertable(key) && pos <= |values|
      modifies this, buckets
      ensures Valid() && (buckets == old(buckets) || fresh(buckets)) && maxLoadFactor == old(maxLoadFactor)
      ensures r.Inserted? ==>
        buckets.Length == if old(Grows()) then Doubled(old(buckets.Length)) else old(buckets.Length)
      ensures !r.Inserted? ==> buckets == old(buckets) && growOnNextInsert == old(growOnNextInsert)
      ensures r == LengthError ==> |old(values)| >= 0xFFFF_FFFE && old(buckets.Length) > 0x8000_0000
      ensures var p := Position(old(values), key);
        if p < |old(values)| then r == Present(p) && values == old(values)
        else if |old(values)| >= 0xFFFF_FFFE then r == LengthError && values == old(values)
        else r == Inserted(pos) && values == InsertAt(old(values), pos, Pair(key, value))
    {
      hide Represents, Ordered, Anchored, Distinct, Index;
      SizeLimit(hash, buckets[..], values);
      var place := FindPlace(key, hash(key));
      if place.Taken? {
        PositionUnique(values, place.pos);
        r := Present(place.pos);
      } else if place.TooMany? {
        r := LengthError;
      } else {
        Emplace(pos, Pair(key, value), place.ib, place.dist);
        r := Inserted(pos);
      }
    }

    /** find_key on a whole table. */
    method Locate(key: K) returns (ib: nat)
      requires Valid() && Findable(key)
      ensures ib <= buckets.Length
      ensures if ib == buckets.Length then Position(values, key) == |values|
              else buckets[ib].Entry? && buckets[ib].index < |values| && buckets[ib].index == Position(values, key)
    {
      ListedSound(hash, buckets[..], values);
      ib := FindKey(key, hash(key));
      if ib < buckets.Length {
        PositionUnique(values, buckets[ib].index);
      } else {
        NotListed(hash, buckets[..], values, key);
        PositionAbsent(values, key);
      }
    }

    /** find. */
    method Find(key: K) returns (p: nat)
      requires Valid() && Findable(key)
      ensures p == Position(values, key)
    {
      var ib := Locate(key);
      p := if ib < buckets.Length then buckets[ib].index else |values|;
    }

    /** insert_or_assign, as operator[] followed by an assignment does it. */
    method InsertOrAssign(key: K, value: V) returns (r: Outcome)
      requires Valid() && Insertable(key)
      modifies this, buckets
      ensures Valid() && (buckets == old(buckets) || fresh(buckets)) && maxLoadFactor == old(maxLoadFactor)
      ensures r.Inserted? ==>
        buckets.Length == if old(Grows()) then Doubled(old(buckets.Length)) else old(buckets.Length)
      ensures !r.Inserted? ==> buckets == old(buckets) && growOnNextInsert == old(growOnNextInsert)
      ensures r == LengthError ==> |old(values)| >= 0xFFFF_FFFE && old(buckets.Length) > 0x8000_0000
      ensures var p := Position(old(values), key);
        if p < |old(values)| then r == Present(p) && values == old(values)[p := Pair(key, value)]
        else if |old(values)| >= 0xFFFF_FFFE then r == LengthError && values == old(values)
        else r == Inserted(|old(values)|) && values == old(values) + [Pair(key, value)]
    {
      r := Insert(key, value);
      if r.Present? {
        ghost var vs := values;
        values := values[r.pos := Pair(key, value)];
        SameKeys(hash, vs, values);
      }
    }

    /** erase(key): the number of pairs removed. */
    method Erase(key: K) returns (count: nat)
      requires Valid() && Findable(key)
      modifies buckets, this`values
      ensures Valid()
      ensures var p := Position(old(values), key);
        if p < |old(values)| then count == 1 && values == RemoveAt(old(values), p)
        else count == 0 && values == old(values)
    {
      var ib := Locate(key);
      if ib < buckets.Length {
        EraseValueFromBucket(ib);
        count := 1;
      } else {
        count := 0;
      }
    }

    /** erase(iterator): the position of the element after the one removed. */
    method EraseAt(pos: nat) returns (next: nat)
      requires Valid() && pos < |values| && Findable(values[pos].key)
      modifies buckets, this`values
      ensures Valid() && values == RemoveAt(old(values), pos) && next == pos
    {
      PositionUnique(values, pos);
      var count := Erase(values[pos].key);
      next := pos;
    }

    /** unordered_erase(key). */
    method UnorderedErase(key: K) returns (count: nat)
      requires Valid() && Findable(key)
      requires Position(values, key) < |values| ==> Findable(values[|values| - 1].key)
      modifies buckets, this`values
      ensures Valid()
      ensures var p := Position(old(values), key);
        if p < |old(values)| then count == 1 && values == SwapRemove(old(values), p)
        else count == 0 && values == old(values)
    {
      hide Represents, Ordered, Anchored, Distinct, RemoveAt, SwapRemove, Index, GoodCount, Threshold, Ideal, Truncate;
      ghost var vs := values;
      var ib := Locate(key);
      if ib == buckets.Length {
        return 0;
      }
      SwapThenDrop(vs, buckets[ib].index);
      PositionUnique(vs, |vs| - 1);
      if key != values[|values| - 1].key {
        SwapWithLast(ib);
      }
      EraseValueFromBucket(ib);
      count := 1;
    }

    /** The exchange with the last value that unordered_erase makes. */
    method SwapWithLast(ib: nat)
      requires Valid() && ib < buckets.Length && buckets[ib].Entry?
      requires buckets[ib].index < |values| - 1 && Findable(values[|values| - 1].key)
      modifies buckets, this`values
      ensures Valid()
      ensures buckets[ib].Entry? && buckets[ib].index == |values| - 1
      ensures var p := old(buckets[ib].index);
        values == old(values)[p := old(values)[|old(values)| - 1]][|old(values)| - 1 := old(values)[p]]
    {
      hide Represents, Ordered, Anchored, Distinct;
      ghost var b, vs := buckets[..], values;
      var last := |values| - 1;
      PositionUnique(values, last);
      var lb := Locate(values[last].key);
      var p := buckets[ib].index;
      values := values[p := values[last]][last := values[p]];
      buckets[ib], buckets[lb] := Entry(last, buckets[ib].hash), Entry(p, buckets[lb].hash);
      assert buckets[..] == b[ib := Entry(last, b[ib].hash)][lb := Entry(p, b[lb].hash)];
      Swapped(hash, b, vs, ib, lb, buckets[..], values);
    }

    /** clear. */
    method Clear()
      requires Valid()
      modifies buckets, this`values, this`growOnNextInsert
      ensures Valid() && values == [] && !growOnNextInsert
    {
      hide Represents, Ordered, Anchored, Index, GoodCount;
      for i := 0 to buckets.Length
        invariant forall j: nat | j < i :: buckets[j].Empty?
      {
        buckets[i] := Empty;
      }
      values := [];
      growOnNextInsert := false;
      EmptyTable(hash, buckets[..], values);
    }

    /** The count rehash settles on: never fewer buckets than the load factor calls for. */
    function RehashCount(count: nat): nat
      requires maxLoadFactor > 0.0
      reads `values, `maxLoadFactor
    {
      if count < Needed(|values|, maxLoadFactor) then Needed(|values|, maxLoadFactor) else count
    }

    /** rehash(count).  Up to a load factor of 1 the values always fit. */
    method Rehash(count: nat)
      requires Valid() && RehashCount(count) <= WORD / 2 && |values| <= Rounded(RehashCount(count))
      modifies this
      ensures Valid() && values == old(values) && maxLoadFactor == old(maxLoadFactor)
      ensures buckets.Length == Rounded(old(RehashCount(count)))
      ensures count <= buckets.Length && |values| as real <= buckets.Length as real * maxLoadFactor
      ensures forall k: nat :: count <= Pow2(k) && |values| as real <= Pow2(k) as real * maxLoadFactor ==>
        buckets.Length <= Pow2(k)
      ensures if buckets.Length == old(buckets.Length)
              then buckets == old(buckets) && growOnNextInsert == old(growOnNextInsert)
              else fresh(buckets) && !growOnNextInsert
    {
      hide Rounded, Needed, Represents, Ordered, Anchored, Distinct, Index, Pow2;
      RehashExact(count, |values|, maxLoadFactor, RehashCount(count));
      RehashImpl(RehashCount(count));
    }

    /** The bucket of the value at position it, while erase_if compacts the list: positions from
        first up to it are vacant. */
    method BucketOf(ghost orig: seq<Pair<K, V>>, ghost drop: Pair<K, V> -> bool, ghost first: nat, it: nat)
      returns (ib: nat)
      requires Shaped() && it < |values| && Findable(values[it].key)
      requires Compacting(hash, buckets[..], values, orig, drop, first, it)
      ensures ib < buckets.Length && buckets[ib].Entry? && buckets[ib].index == it
    {
      GapSound(hash, buckets[..], values, orig, drop, first, it);
      ib := FindKey(values[it].key, hash(values[it].key));
      GapBucket(hash, buckets[..], values, orig, drop, first, it, ib);
    }

    /** Empties a bucket without touching the list, and shifts its followers back. */
    method ClearBucket(ib: nat, ghost m: Listing)
      requires mask == Mask(buckets.Length) && ib < buckets.Length && buckets[ib].Entry?
      requires Represents(buckets[..], m) && Ordered(buckets[..]) && Anchored(buckets[..])
      modifies buckets
      ensures Represents(buckets[..], m - {old(buckets[ib].index)}) && Ordered(buckets[..]) && Anchored(buckets[..])
    {
      ghost var b, v := buckets[..], buckets[ib].index;
      Forget(b, m, ib);
      ghost var z := AnchorOf(b);
      ClearMakesHollow(b, ib, z);
      buckets[ib] := Empty;
      ghost var c := buckets[..];
      assert c == b[ib := Empty];
      BackwardShift(ib, z);
      ShiftRunLists(c, m - {v}, ib, Run(c, ib, 0));
    }

    /** erase_if: compacts the list in place while it looks up and clears or renumbers buckets.
        movedFrom is whatever a moved-from value is left as. */
    method EraseIf(drop: Pair<K, V> -> bool, movedFrom: Pair<K, V>) returns (deleted: nat)
      requires Valid() && forall v: nat | v < |values| :: Findable(values[v].key)
      modifies buckets, this`values
      ensures Valid()
      ensures values == Keep(old(values), drop) && deleted == |old(values)| - |values|
    {
      hide Compacting, Represents, Ordered, Anchored, Distinct, Keep, Gap, Index, AtHome, GoodCount, Threshold, Mask;
      ghost var orig := values;
      var last := |values|;
      var first: nat := 0;
      while first < last && !drop(values[first])
        invariant first <= last && forall i: nat | i < first :: !drop(values[i])
      {
        first := first + 1;
      }
      StartCompacting(hash, buckets[..], values, drop, first);
      if first == last {
        return 0;
      }
      var ib := BucketOf(orig, drop, first, first);
      ClearBucket(ib, Gap(hash, values, first, first));
      DropNext(hash, buckets[..], values, orig, drop, first, first);
      var it: nat := first + 1;
      while it < last
        invariant first < it <= last == |values| && Shaped()
        invariant forall v: nat | it <= v < last :: Findable(values[v].key)
        invariant Compacting(hash, buckets[..], values, orig, drop, first, it)
      {
        var keep := Decide(orig, drop, first, it, movedFrom);
        if keep {
          first := first + 1;
        }
        it := it + 1;
      }
      deleted := last - first;
      FinishCompacting(hash, buckets[..], values, orig, drop, first);
      values := values[..first];
    }

    /** One pass of the loop of erase_if. */
    method Decide(ghost orig: seq<Pair<K, V>>, drop: Pair<K, V> -> bool, first: nat, it: nat, movedFrom: Pair<K, V>)
      returns (keep: bool)
      requires Shaped() && first < it < |values| && Findable(values[it].key)
      requires Compacting(hash, buckets[..], values, orig, drop, first, it)
      modifies buckets, this`values
      ensures |values| == old(|values|) && forall v: nat | it < v < |values| :: values[v] == old(values[v])
      ensures keep ==> Compacting(hash, buckets[..], values, orig, drop, first + 1, it + 1)
      ensures !keep ==> Compacting(hash, buckets[..], values, orig, drop, first, it + 1)
    {
      var ib := BucketOf(orig, drop, first, it);
      keep := !drop(values[it]);
      ghost var b, vs := buckets[..], values;
      if keep {
        buckets[ib] := Entry(first, buckets[ib].hash);
        values := values[first := values[it]][it := movedFrom];
        assert buckets[..] == b[ib := Entry(first, b[ib].hash)];
        KeepNext(hash, b, vs, orig, drop, first, it, ib, buckets[..], values);
      } else {
        ClearBucket(ib, Gap(hash, values, first, it));
        DropNext(hash, buckets[..], vs, orig, drop, first, it);
      }
    }

    /** erase(first, last): the list loses the range whatever the buckets look like; the table is
        whole again exactly when no pass of the sweep moves an entry back that it has already seen.
        That is so when no entry numbered at or above last sat before its home bucket, as at the end
        of the list, or when no probe chain wrapped to begin with. */
    method EraseRange(first: nat, last: nat) returns (next: nat)
      requires Valid() && first <= last <= |values|
      modifies buckets, this`values
      ensures values == RemoveRange(old(values), first, last) && next == first
      ensures Shaped() && Ordered(buckets[..]) && Anchored(buckets[..]) && Distinct(values)
      ensures buckets[..] == if first == last then old(buckets[..]) else Sweep(old(buckets[..]), 0, first, last)
      ensures Valid() <==> first == last || SweepSafe(old(buckets[..]), 0, first, last)
      ensures WrappedBelow(old(buckets[..]), 0, first, last) || last == |old(values)| ==> Valid()
      ensures NoWrap(old(buckets[..])) ==> Valid() && NoWrap(buckets[..])
    {
      hide Represents, Ordered, Anchored, Distinct, Sweep, SweepSafe, SweepStep, Filled, NoWrap, WrappedBelow;
      next := first;
      RangeDistinct(values, first, last);
      if first == last {
        return;
      }
      ghost var b, m := buckets[..], Index(hash, values);
      RangePositions(hash, values, first, last);
      values := RemoveRange(values, first, last);
      SweepBuckets(first, last);
      SweepExact(b, m, |old(values)|, Index(hash, values), first, last);
      if last == |old(values)| { TailWrappedBelow(hash, b, old(values), first); }
      if WrappedBelow(b, 0, first, last) { WrappedBelowIsSafe(b, 0, first, last); }
      if NoWrap(b) { NoWrapIsSafe(b, 0, first, last); }
    }

    /** The loop of erase(first, last) over the buckets. */
    method SweepBuckets(first: nat, last: nat)
      requires mask == Mask(buckets.Length) && first < last
      requires Ordered(buckets[..]) && Anchored(buckets[..])
      modifies buckets
      ensures Ordered(buckets[..]) && Anchored(buckets[..])
      ensures buckets[..] == Sweep(old(buckets[..]), 0, first, last)
    {
      hide Ordered, Anchored, SweepStep, Filled;
      var ib: nat := 0;
      while ib < buckets.Length
        invariant ib <= buckets.Length && Ordered(buckets[..]) && Anchored(buckets[..])
        invariant Sweep(buckets[..], ib, first, last) == Sweep(old(buckets[..]), 0, first, last)
        decreases Filled(buckets[..]), buckets.Length - ib
      {
        ib := SweepBucket(ib, first, last);
      }
    }

    /** One pass of that loop. */
    method SweepBucket(ib: nat, first: nat, last: nat) returns (ib': nat)
      requires mask == Mask(buckets.Length) && ib < buckets.Length && first < last
      requires Ordered(buckets[..]) && Anchored(buckets[..])
      modifies buckets
      ensures Ordered(buckets[..]) && Anchored(buckets[..])
      ensures (buckets[..], ib') == SweepStep(old(buckets[..]), ib, first, last)
    {
      hide Ordered, Anchored;
      ghost var b := buckets[..];
      ib' := ib;
      if buckets[ib].Empty? {
        ib' := ib + 1;
      } else if first <= buckets[ib].index < last {
        ghost var z := AnchorOf(b);
        ClearMakesHollow(b, ib, z);
        buckets[ib] := Empty;
        assert buckets[..] == b[ib := Empty];
        BackwardShift(ib, z);
      } else if buckets[ib].index >= last {
        var e := Entry(buckets[ib].index - (last - first), buckets[ib].hash);
        Renumbered(b, ib, e);
        buckets[ib] := e;
        assert buckets[..] == b[ib := e];
        ib' := ib + 1;
      } else {
        ib' := ib + 1;
      }
    }
  }
}
