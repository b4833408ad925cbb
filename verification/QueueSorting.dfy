/** The sorting and deduplication the locator asks of the standard library. */
module QueueSorting {
  import opened Trigger
  import opened TriggerQueue
  import opened LocatorRun

  /** std::sort with std::greater. */
  method SortFalling(indices: seq<nat>) returns (order: seq<nat>)
    ensures multiset(order) == multiset(indices) && NonRising(order)
  {
    order := [];
    for i := 0 to |indices|
      invariant multiset(order) == multiset(indices[..i]) && NonRising(order)
    {
      var p := 0;
      while p < |order| && order[p] >= indices[i]
        invariant p <= |order| && forall j: nat | j < p :: order[j] >= indices[i]
      {
        p := p + 1;
      }
      InsertedIndex(order, p, indices[i]);
      assert indices[..i + 1] == indices[..i] + [indices[i]];
      order := order[..p] + [indices[i]] + order[p..];
    }
    assert indices[..|indices|] == indices;
  }

  lemma InsertedIndex(r: seq<nat>, p: nat, x: nat)
    requires NonRising(r) && p <= |r|
    requires (forall j: nat | j < p :: r[j] >= x) && (p < |r| ==> r[p] < x)
    ensures var s := r[..p] + [x] + r[p..];
      NonRising(s) && multiset(s) == multiset(r) + multiset{x}
  {
    InsertedOnce(r, p, x);
    InsertedOrder(r, p, x);
  }

  lemma InsertedOnce<T>(r: seq<T>, p: nat, x: T)
    requires p <= |r|
    ensures multiset(r[..p] + [x] + r[p..]) == multiset(r) + multiset{x}
  {
    assert r == r[..p] + r[p..];
  }

  lemma InsertedOrder(r: seq<nat>, p: nat, x: nat)
    requires NonRising(r) && p <= |r|
    requires (forall j: nat | j < p :: r[j] >= x) && (p < |r| ==> r[p] < x)
    ensures NonRising(r[..p] + [x] + r[p..])
  {
  }

  ghost predicate NonFalling(q: Queue) {
    forall i: nat, j: nat | i < j < |q| :: !Before(q[j], q[i])
  }

  /** std::sort of the triggers: some ascending permutation. */
  method SortTriggers(q: Queue) returns (r: Queue)
    ensures multiset(r) == multiset(q) && NonFalling(r)
  {
    r := [];
    for i := 0 to |q|
      invariant multiset(r) == multiset(q[..i]) && NonFalling(r)
    {
      var x := q[i];
      var p := 0;
      while p < |r| && !Before(x, r[p])
        invariant p <= |r| && forall j: nat | j < p :: !Before(x, r[j])
      {
        p := p + 1;
      }
      ghost var r0 := r;
      assert r == r[..p] + r[p..];
      assert q[..i + 1] == q[..i] + [x];
      r := r[..p] + [x] + r[p..];
      Inserted(r0, p, x, r);
    }
    assert q[..|q|] == q;
  }

  lemma Inserted(r: Queue, p: nat, x: TriggerInfo, s: Queue)
    requires NonFalling(r) && p <= |r| && s == r[..p] + [x] + r[p..]
    requires forall j: nat | j < p :: !Before(x, r[j])
    requires p < |r| ==> Before(x, r[p])
    ensures NonFalling(s)
  {
    forall i: nat, j: nat | i < j < |s| ensures !Before(s[j], s[i]) {
      if i == p {
        assert s[j] == r[j - 1];
        KeyOrder(KeyOf(x), KeyOf(r[p]), KeyOf(x));
        KeyOrder(KeyOf(r[j - 1]), KeyOf(x), KeyOf(r[p]));
      }
    }
  }

  /** std::unique and erase on a sorted queue: the first of each run of equal triggers stays. */
  method Unique(q: Queue) returns (r: Queue)
    requires NonFalling(q)
    ensures Ascending(r) && (forall i: nat | i < |r| :: r[i] in q) && Keys(r) == Keys(q)
  {
    r := [];
    for i := 0 to |q|
      invariant Ascending(r) && (forall j: nat | j < |r| :: r[j] in q[..i]) && Keys(r) == Keys(q[..i])
      invariant r != [] <==> i > 0
      invariant i > 0 ==> KeyOf(r[|r| - 1]) == KeyOf(q[i - 1])
    {
      hide Before, Keys;
      ghost var r0 := r;
      if r == [] || KeyOf(r[|r| - 1]) != KeyOf(q[i]) {
        if r != [] { UniqueOrder(q, i, r); }
        r := r + [q[i]];
      }
      UniqueMembers(q, i, r0, r);
    }
    assert q[..|q|] == q;
  }

  lemma UniqueMembers(q: Queue, i: nat, r0: Queue, r: Queue)
    requires i < |q|
    requires (forall j: nat | j < |r0| :: r0[j] in q[..i]) && Keys(r0) == Keys(q[..i])
    requires r == r0 + [q[i]] || (r == r0 && r0 != [] && KeyOf(r0[|r0| - 1]) == KeyOf(q[i]))
    ensures (forall j: nat | j < |r| :: r[j] in q[..i + 1]) && Keys(r) == Keys(q[..i + 1])
  {
    assert q[..i + 1] == q[..i] + [q[i]];
    KeysSnoc(q[..i], q[i]);
    KeysSnoc(r0, q[i]);
    if r == r0 { KeyIn(r0, |r0| - 1); }
  }

  lemma UniqueOrder(q: Queue, i: nat, r0: Queue)
    requires NonFalling(q) && i < |q| && Ascending(r0) && r0 != []
    requires i > 0 && KeyOf(r0[|r0| - 1]) == KeyOf(q[i - 1]) && KeyOf(r0[|r0| - 1]) != KeyOf(q[i])
    ensures Ascending(r0 + [q[i]])
  {
    var last := KeyOf(r0[|r0| - 1]);
    assert !Before(q[i], q[i - 1]);
    KeyOrder(last, KeyOf(q[i]), last);
    NewLast(r0, q[i]);
  }

  lemma NewLast(r: Queue, x: TriggerInfo)
    requires Ascending(r) && (r != [] ==> Before(r[|r| - 1], x))
    ensures Ascending(r + [x])
  {
    hide KeyLess;
    forall j: nat | j < |r| ensures Before(r[j], x) {
      if j < |r| - 1 {
        assert Before(r[j], r[|r| - 1]);
        KeyOrder(KeyOf(r[j]), KeyOf(r[|r| - 1]), KeyOf(x));
      }
    }
  }

  lemma KeysSnoc(q: Queue, t: TriggerInfo)
    ensures Keys(q + [t]) == Keys(q) + {KeyOf(t)}
  {
    var r := q + [t];
    forall k | k in Keys(r) ensures k in Keys(q) + {KeyOf(t)} {
      var i: nat :| i < |r| && KeyOf(r[i]) == k;
      if i < |q| { assert q[i] == r[i]; }
    }
    forall k | k in Keys(q) ensures k in Keys(r) {
      var i: nat :| i < |q| && KeyOf(q[i]) == k;
      assert r[i] == q[i];
    }
    assert r[|q|] == t;
  }
}
