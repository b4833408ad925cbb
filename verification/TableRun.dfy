/** Whole runs of table operations: the table goes through exactly the lists that the plain
    operations produce, and as a dictionary it does not matter how those lists are ordered. */
module TableRun {
  import opened BitMask
  import opened RobinHood
  import opened Directory
  import opened PlainList
  import opened RangeSweep
  import opened TableFacts
  import opened OrderedHashTable

  datatype Op<!K, !V> =
    | Append(key: K, value: V)
    | Place(pos: nat, key: K, value: V)
    | Assign(key: K, value: V)
    | Remove(key: K)
    | RemoveUnordered(key: K)
    | RemoveIf(drop: Pair<K, V> -> bool)
    | RemovePosition(pos: nat)
    | RemovePositions(first: nat, last: nat)
    | Resize(count: nat)
    | LoadFactor(factor: real)
    | Reset

  /** The list after one operation. */
  function Step<K(==), V>(s: seq<Pair<K, V>>, op: Op<K, V>): seq<Pair<K, V>> {
    match op
    case Append(k, v) => if Position(s, k) < |s| || |s| >= MAX_SIZE then s else s + [Pair(k, v)]
    case Place(i, k, v) =>
      if Position(s, k) < |s| || |s| >= MAX_SIZE || i > |s| then s else InsertAt(s, i, Pair(k, v))
    case Assign(k, v) =>
      var p := Position(s, k);
      if p < |s| then s[p := Pair(k, v)] else if |s| >= MAX_SIZE then s else s + [Pair(k, v)]
    case Remove(k) => var p := Position(s, k); if p < |s| then RemoveAt(s, p) else s
    case RemoveUnordered(k) => var p := Position(s, k); if p < |s| then SwapRemove(s, p) else s
    case RemoveIf(drop) => Keep(s, drop)
    case RemovePosition(i) => if i < |s| then RemoveAt(s, i) else s
    case RemovePositions(i, j) => if i <= j <= |s| then RemoveRange(s, i, j) else s
    case Resize(_) => s
    case LoadFactor(_) => s
    case Reset => []
  }

  function Replay<K(==), V>(s: seq<Pair<K, V>>, ops: seq<Op<K, V>>): seq<Pair<K, V>>
    decreases |ops|
  {
    if ops == [] then s else Step(Replay(s, ops[..|ops| - 1]), ops[|ops| - 1])
  }

  /** Whether the table can carry an operation out: keys are found, insertions and rehashes have room,
      and a range erase is safe.  Up to 2^31 buckets and a load factor of 1 only the last can fail. */
  predicate Admissible<K(==), V>(t: OrderedHash<K, V>, op: Op<K, V>)
    requires t.maxLoadFactor > 0.0
    reads t, t.buckets
  {
    match op
    case Append(k, _) => t.Insertable(k)
    case Place(_, k, _) => t.Insertable(k)
    case Assign(k, _) => t.Insertable(k)
    case Remove(k) => t.Findable(k)
    case RemoveUnordered(k) =>
      t.Findable(k) && (Position(t.values, k) < |t.values| ==> t.Findable(t.values[|t.values| - 1].key))
    case RemoveIf(_) => forall v: nat | v < |t.values| :: t.Findable(t.values[v].key)
    case RemovePosition(i) => i < |t.values| && t.Findable(t.values[i].key)
    case RemovePositions(i, j) => i <= j <= |t.values| && (i == j || SweepSafe(t.buckets[..], 0, i, j))
    case Resize(count) => t.RehashCount(count) <= WORD / 2 && |t.values| <= Rounded(t.RehashCount(count))
    case LoadFactor(factor) => factor > 0.0
    case Reset => true
  }

  method Perform<K(==), V>(t: OrderedHash<K, V>, op: Op<K, V>, movedFrom: Pair<K, V>)
    requires t.Valid() && Admissible(t, op)
    modifies t, t.buckets
    ensures t.Valid() && t.values == Step(old(t.values), op)
    ensures t.buckets == old(t.buckets) || fresh(t.buckets)
  {
    hide Represents, Ordered, Anchored, Distinct, Position, RemoveAt, SwapRemove, InsertAt, RemoveRange, Keep;
    hide Threshold, GoodCount, AtHome, Rounded, Sweep, SweepSafe, WrappedBelow, Index;
    match op
    case Append(k, v) => var r := t.Insert(k, v);
    case Place(i, k, v) => if i <= |t.values| { var r := t.InsertAtPosition(i, k, v); }
    case Assign(k, v) => var r := t.InsertOrAssign(k, v);
    case Remove(k) => var n := t.Erase(k);
    case RemoveUnordered(k) => var n := t.UnorderedErase(k);
    case RemoveIf(drop) => var n := t.EraseIf(drop, movedFrom);
    case RemovePosition(i) => var n := t.EraseAt(i);
    case RemovePositions(i, j) => var n := t.EraseRange(i, j);
    case Resize(count) => t.Rehash(count);
    case LoadFactor(factor) => t.SetMaxLoadFactor(factor);
    case Reset => t.Clear();
  }

  /** A run of operations, stopping only at one that is not admissible.  Whatever the operations and
      the hash function, the table stays valid and its list is the replay of the plain operations. */
  method Run<K(==), V>(t: OrderedHash<K, V>, ops: seq<Op<K, V>>, movedFrom: Pair<K, V>) returns (done: nat)
    requires t.Valid()
    modifies t, t.buckets
    ensures t.Valid() && done <= |ops| && t.values == Replay(old(t.values), ops[..done])
    ensures done < |ops| ==> !Admissible(t, ops[done])
  {
    done := 0;
    ghost var b0 := t.buckets;
    assert ops[..0] == [];
    while done < |ops| && Admissible(t, ops[done])
      invariant done <= |ops| && t.Valid() && (t.buckets == b0 || fresh(t.buckets))
      invariant t.values == Replay(old(t.values), ops[..done])
    {
      assert ops[..done + 1][..done] == ops[..done];
      Perform(t, ops[done], movedFrom);
      done := done + 1;
    }
  }

  /** The dictionary a list of pairs with distinct keys stands for. */
  ghost function Dict<K(!new), V>(s: seq<Pair<K, V>>): (m: map<K, V>)
    requires Distinct(s)
    ensures forall k :: k in m <==> Position(s, k) < |s|
    ensures forall k | k in m :: m[k] == s[Position(s, k)].value
  {
    map k | k in (set p | p in s :: p.key) :: s[Position(s, k)].value
  }

  /** The operations that name keys or none; the others name positions. */
  predicate ByKey<K, V>(op: Op<K, V>) {
    !op.RemovePosition? && !op.RemovePositions?
  }

  /** The dictionary after one of these; the order of the list plays no part. */
  ghost function Effect<K, V>(m: map<K, V>, op: Op<K, V>): map<K, V>
    requires ByKey(op)
  {
    match op
    case Append(k, v) => if k in m || |m| >= MAX_SIZE then m else m[k := v]
    case Place(i, k, v) => if k in m || |m| >= MAX_SIZE || i > |m| then m else m[k := v]
    case Assign(k, v) => if k in m || |m| < MAX_SIZE then m[k := v] else m
    case Remove(k) => m - {k}
    case RemoveUnordered(k) => m - {k}
    case RemoveIf(drop) => map k | k in m && !drop(Pair(k, m[k])) :: m[k]
    case Resize(_) => m
    case LoadFactor(_) => m
    case Reset => map[]
  }

  lemma DictMember<K(!new), V>(s: seq<Pair<K, V>>, i: nat)
    requires Distinct(s) && i < |s|
    ensures s[i].key in Dict(s) && Dict(s)[s[i].key] == s[i].value
  {
    PositionUnique(s, i);
  }

  /** A list with distinct keys is determined as a dictionary by its pairs. */
  lemma DictFrom<K(!new), V>(s: seq<Pair<K, V>>, m: map<K, V>)
    requires Distinct(s)
    requires forall i: nat | i < |s| :: s[i].key in m && m[s[i].key] == s[i].value
    requires forall k | k in m :: exists i: nat :: i < |s| && s[i].key == k
    ensures Dict(s) == m
  {
    forall k | k in m ensures k in Dict(s) && Dict(s)[k] == m[k] {
      var i: nat :| i < |s| && s[i].key == k;
      DictMember(s, i);
    }
  }

  lemma DictGrows<K(!new), V>(s: seq<Pair<K, V>>, p: Pair<K, V>)
    requires Distinct(s) && Distinct(s + [p])
    ensures p.key !in Dict(s) && Dict(s + [p]) == Dict(s)[p.key := p.value]
  {
    var t := s + [p];
    assert t[|s|] == p;
    var m := Dict(s)[p.key := p.value];
    assert forall i: nat | i < |s| :: t[i] == s[i] && t[i].key != p.key;
    forall i: nat | i < |t| ensures t[i].key in m && m[t[i].key] == t[i].value {
      if i < |s| { DictMember(s, i); assert t[i] == s[i]; }
    }
    forall k | k in m ensures exists i: nat :: i < |t| && t[i].key == k {
      if k == p.key { assert t[|s|].key == k; } else { assert t[Position(s, k)].key == k; }
    }
    DictFrom(t, m);
  }

  lemma DistinctPrefix<K, V>(s: seq<Pair<K, V>>, n: nat)
    requires Distinct(s) && n <= |s|
    ensures Distinct(s[..n])
  {
  }

  lemma {:induction false} DictSize<K(!new), V>(s: seq<Pair<K, V>>)
    requires Distinct(s)
    ensures |Dict(s)| == |s|
    decreases |s|
  {
    hide Position, Distinct;
    if s == [] {
      assert Dict(s).Keys == {};
    } else {
      var n := |s| - 1;
      DistinctPrefix(s, n);
      DictSize(s[..n]);
      assert s == s[..n] + [s[n]];
      DictGrows(s[..n], s[n]);
      GrownSize(Dict(s[..n]), s[n].key, s[n].value);
    }
  }

  lemma GrownSize<K, V>(m: map<K, V>, k: K, v: V)
    requires k !in m
    ensures |m[k := v]| == |m| + 1
  {
    assert m[k := v].Keys == m.Keys + {k};
  }

  /** A list in which the pair at position i is replaced, removed, or joined by another. */
  lemma DictAssigned<K(!new), V>(s: seq<Pair<K, V>>, i: nat, v: V)
    requires Distinct(s) && i < |s|
    ensures var t := s[i := Pair(s[i].key, v)];
      Distinct(t) && Dict(t) == Dict(s)[s[i].key := v]
  {
    var t := s[i := Pair(s[i].key, v)];
    var m := Dict(s)[s[i].key := v];
    forall j: nat | j < |t| ensures t[j].key in m && m[t[j].key] == t[j].value { DictMember(s, j); }
    forall k | k in m ensures exists j: nat :: j < |t| && t[j].key == k {
      var j := if k == s[i].key then i else Position(s, k);
      assert t[j].key == k;
    }
    DictFrom(t, m);
  }

  /** Two lists with the same pairs but for the one at position i of the first. */
  lemma DictWithout<K(!new), V>(s: seq<Pair<K, V>>, i: nat, t: seq<Pair<K, V>>)
    requires Distinct(s) && Distinct(t) && i < |s|
    requires forall j: nat | j < |t| :: t[j] in s && t[j].key != s[i].key
    requires forall j: nat | j < |s| && j != i :: s[j] in t
    ensures Dict(t) == Dict(s) - {s[i].key}
  {
    var m := Dict(s) - {s[i].key};
    forall j: nat | j < |t| ensures t[j].key in m && m[t[j].key] == t[j].value {
      var k: nat :| k < |s| && s[k] == t[j];
      DictMember(s, k);
    }
    forall k | k in m ensures exists j: nat :: j < |t| && t[j].key == k {
      var p := Position(s, k);
      assert s[p] in t;
    }
    DictFrom(t, m);
  }

  lemma DictKept<K(!new), V>(s: seq<Pair<K, V>>, drop: Pair<K, V> -> bool)
    requires Distinct(s)
    ensures Distinct(Keep(s, drop))
    ensures Dict(Keep(s, drop)) == map k | k in Dict(s) && !drop(Pair(k, Dict(s)[k])) :: Dict(s)[k]
  {
    KeepDistinct(s, drop);
    var t := Keep(s, drop);
    var m := map k | k in Dict(s) && !drop(Pair(k, Dict(s)[k])) :: Dict(s)[k];
    forall j: nat | j < |t| ensures t[j].key in m && m[t[j].key] == t[j].value {
      var w := KeepOrigin(s, drop, j);
      DictMember(s, w);
    }
    forall k | k in m ensures exists j: nat :: j < |t| && t[j].key == k {
      var p := Position(s, k);
      assert s[p] == Pair(k, m[k]);
      KeepHas(s, drop, p);
    }
    DictFrom(t, m);
  }

  lemma RemovedDict<K(!new), V>(s: seq<Pair<K, V>>, i: nat)
    requires Distinct(s) && i < |s|
    ensures Distinct(RemoveAt(s, i)) && Dict(RemoveAt(s, i)) == Dict(s) - {s[i].key}
  {
    RemovedDistinct(s, i);
    var t := RemoveAt(s, i);
    forall j: nat | j < |t| ensures t[j] in s && t[j].key != s[i].key {
      assert t[j] == s[if j < i then j else j + 1];
    }
    forall j: nat | j < |s| && j != i ensures s[j] in t {
      assert s[j] == t[if j < i then j else j - 1];
    }
    DictWithout(s, i, t);
  }

  lemma SwapRemovedDict<K(!new), V>(s: seq<Pair<K, V>>, i: nat)
    requires Distinct(s) && i < |s|
    ensures Distinct(SwapRemove(s, i)) && Dict(SwapRemove(s, i)) == Dict(s) - {s[i].key}
  {
    var t := SwapRemove(s, i);
    var n := |s| - 1;
    forall j: nat, k: nat | j < k < |t| ensures t[j].key != t[k].key {
      assert t[j] == s[if j == i then n else j] && t[k] == s[if k == i then n else k];
    }
    forall j: nat | j < |t| ensures t[j] in s && t[j].key != s[i].key {
      assert t[j] == s[if j == i then n else j];
    }
    forall j: nat | j < |s| && j != i ensures s[j] in t {
      if j == n { assert t[i] == s[n]; } else { assert t[j] == s[j]; }
    }
    DictWithout(s, i, t);
  }

  lemma InsertedDict<K(!new), V>(s: seq<Pair<K, V>>, i: nat, p: Pair<K, V>)
    requires Distinct(s) && i <= |s| && Position(s, p.key) == |s|
    ensures Distinct(InsertAt(s, i, p)) && Dict(InsertAt(s, i, p)) == Dict(s)[p.key := p.value]
  {
    InsertedDistinct(s, i, p);
    hide Position, Distinct;
    var t := InsertAt(s, i, p);
    InsertThenRemove(s, i, p);
    RemovedDict(t, i);
    DictMember(t, i);
    MapRestored(Dict(t), p.key);
  }

  lemma MapRestored<K, V>(m: map<K, V>, k: K)
    requires k in m
    ensures (m - {k})[k := m[k]] == m
  {
  }

  lemma MapWithout<K, V>(m: map<K, V>, k: K)
    requires k !in m
    ensures m - {k} == m
  {
  }

  lemma InsertEffect<K(!new), V>(s: seq<Pair<K, V>>, i: nat, op: Op<K, V>)
    requires Distinct(s) && (op.Append? || (op.Place? && op.pos == i))
    ensures Distinct(Step(s, op)) && Dict(Step(s, op)) == Effect(Dict(s), op)
  {
    hide Distinct, Position, Dict, InsertAt;
    DictSize(s);
    var p := Pair(op.key, op.value);
    if Position(s, p.key) == |s| {
      AppendIsInsert(s, p);
      InsertedDict(s, if op.Append? || i > |s| then |s| else i, p);
    }
  }

  lemma AssignEffect<K(!new), V>(s: seq<Pair<K, V>>, k: K, v: V)
    requires Distinct(s)
    ensures Distinct(Step(s, Assign(k, v))) && Dict(Step(s, Assign(k, v))) == Effect(Dict(s), Assign(k, v))
  {
    hide Distinct, Position, Dict, InsertAt;
    DictSize(s);
    var p := Position(s, k);
    if p == |s| {
      AppendIsInsert(s, Pair(k, v));
      InsertedDict(s, |s|, Pair(k, v));
    } else {
      DictAssigned(s, p, v);
    }
  }

  lemma RemoveEffect<K(!new), V>(s: seq<Pair<K, V>>, op: Op<K, V>)
    requires Distinct(s) && (op.Remove? || op.RemoveUnordered?)
    ensures Distinct(Step(s, op)) && Dict(Step(s, op)) == Effect(Dict(s), op)
  {
    hide Distinct, Position, Dict, RemoveAt, SwapRemove;
    var p := Position(s, op.key);
    if p < |s| {
      RemovedDict(s, p);
      SwapRemovedDict(s, p);
    } else {
      MapWithout(Dict(s), op.key);
    }
  }

  /** Every such operation acts on the dictionary as its name says, and keeps the keys distinct. */
  lemma StepEffect<K(!new), V>(s: seq<Pair<K, V>>, op: Op<K, V>)
    requires Distinct(s) && ByKey(op)
    ensures Distinct(Step(s, op)) && Dict(Step(s, op)) == Effect(Dict(s), op)
  {
    match op
    case Append(k, v) => InsertEffect(s, 0, op);
    case Place(i, k, v) => InsertEffect(s, i, op);
    case Assign(k, v) => AssignEffect(s, k, v);
    case Remove(k) => RemoveEffect(s, op);
    case RemoveUnordered(k) => RemoveEffect(s, op);
    case RemoveIf(drop) => DictKept(s, drop);
    case Resize(_) =>
    case LoadFactor(_) =>
    case Reset => assert Dict(Step(s, op)) == map[];
  }

  ghost function KeysIn<K, V>(s: seq<Pair<K, V>>, first: nat, last: nat): set<K>
    requires first <= last <= |s|
  {
    set i: nat | first <= i < last :: s[i].key
  }

  lemma KeysInStep<K, V>(s: seq<Pair<K, V>>, first: nat, last: nat)
    requires first < last <= |s|
    ensures KeysIn(s, first, last) == KeysIn(s, first, last - 1) + {s[last - 1].key}
  {
  }

  lemma RangeStep<T>(s: seq<T>, first: nat, last: nat)
    requires first < last <= |s|
    ensures var t := RemoveRange(s, first, last - 1);
      first < |t| && t[first] == s[last - 1] && RemoveAt(t, first) == RemoveRange(s, first, last)
  {
  }

  /** Erasing positions removes exactly the keys that stood there. */
  lemma {:induction false} PositionsEffect<K(!new), V>(s: seq<Pair<K, V>>, first: nat, last: nat)
    requires Distinct(s) && first <= last <= |s|
    ensures Distinct(RemoveRange(s, first, last))
    ensures Dict(RemoveRange(s, first, last)) == Dict(s) - KeysIn(s, first, last)
    decreases last
  {
    hide Distinct, Position, RemoveAt, RemoveRange, Dict;
    RangeDistinct(s, first, last);
    if first < last {
      var t := RemoveRange(s, first, last - 1);
      PositionsEffect(s, first, last - 1);
      RangeStep(s, first, last);
      RemovedDict(t, first);
      KeysInStep(s, first, last);
      TwiceWithout(Dict(s), KeysIn(s, first, last - 1), s[last - 1].key);
    } else {
      assert KeysIn(s, first, last) == {};
      NoneWithout(Dict(s));
    }
  }

  lemma TwiceWithout<K, V>(m: map<K, V>, ks: set<K>, k: K)
    ensures (m - ks) - {k} == m - (ks + {k})
  {
  }

  lemma NoneWithout<K, V>(m: map<K, V>)
    ensures m - {} == m
  {
  }

  /** The dictionary after a whole run. */
  ghost function Effects<K, V>(m: map<K, V>, ops: seq<Op<K, V>>): map<K, V>
    requires forall i: nat | i < |ops| :: ByKey(ops[i])
    decreases |ops|
  {
    if ops == [] then m else Effect(Effects(m, ops[..|ops| - 1]), ops[|ops| - 1])
  }

  lemma {:induction false} RunEffect<K(!new), V>(s: seq<Pair<K, V>>, ops: seq<Op<K, V>>)
    requires Distinct(s) && forall i: nat | i < |ops| :: ByKey(ops[i])
    ensures Distinct(Replay(s, ops)) && Dict(Replay(s, ops)) == Effects(Dict(s), ops)
    decreases |ops|
  {
    if ops != [] {
      RunEffect(s, ops[..|ops| - 1]);
      StepEffect(Replay(s, ops[..|ops| - 1]), ops[|ops| - 1]);
    }
  }
}
