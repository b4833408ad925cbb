/** The unpruned pool is the cartesian product as a multiset, and exactly when. */
module PoolProduct {
  import opened Tuples
  import opened LigTools

  /** One tuple extended by each of xs. */
  function Extended<T>(t: seq<T>, xs: seq<T>): (r: seq<seq<T>>)
    ensures |r| == |xs| && forall i: nat | i < |r| :: r[i] == t + [xs[i]]
  {
    seq(|xs|, i requires 0 <= i < |xs| => t + [xs[i]])
  }

  function ExtendAll<T>(pool: seq<seq<T>>, xs: seq<T>): seq<seq<T>> {
    if pool == [] then [] else Extended(pool[0], xs) + ExtendAll(pool[1..], xs)
  }

  lemma {:induction false} ExtendConcat<T>(a: seq<seq<T>>, b: seq<seq<T>>, xs: seq<T>)
    ensures ExtendAll(a + b, xs) == ExtendAll(a, xs) + ExtendAll(b, xs)
    decreases |a|
  {
    if a == [] {
      assert a + b == b;
    } else {
      assert (a + b)[1..] == a[1..] + b;
      ExtendConcat(a[1..], b, xs);
    }
  }

  lemma PrependConcat<T>(x: T, a: seq<seq<T>>, b: seq<seq<T>>)
    ensures Prepend(x, a + b) == Prepend(x, a) + Prepend(x, b)
  {
  }

  lemma {:induction false} ExtendPrepend<T>(x: T, rest: seq<seq<T>>, xs: seq<T>)
    ensures ExtendAll(Prepend(x, rest), xs) == Prepend(x, ExtendAll(rest, xs))
    decreases |rest|
  {
    if rest != [] {
      var p := Prepend(x, rest);
      assert p[1..] == Prepend(x, rest[1..]);
      ExtendPrepend(x, rest[1..], xs);
      PrependConcat(x, Extended(rest[0], xs), ExtendAll(rest[1..], xs));
      forall i: nat | i < |xs| ensures Extended(p[0], xs)[i] == Prepend(x, Extended(rest[0], xs))[i] {
        assert ([x] + rest[0]) + [xs[i]] == [x] + (rest[0] + [xs[i]]);
      }
      assert Extended(p[0], xs) == Prepend(x, Extended(rest[0], xs));
    }
  }

  lemma {:induction false} ExtendPrependEach<T>(l: seq<T>, rest: seq<seq<T>>, xs: seq<T>)
    ensures ExtendAll(PrependEach(l, rest), xs) == PrependEach(l, ExtendAll(rest, xs))
    decreases |l|
  {
    if l != [] {
      ExtendPrependEach(l[1..], rest, xs);
      ExtendPrepend(l[0], rest, xs);
      ExtendConcat(Prepend(l[0], rest), PrependEach(l[1..], rest), xs);
    }
  }

  lemma {:induction false} PrependEachUnit<T>(l: seq<T>)
    ensures PrependEach(l, [[]]) == Extended([], l)
    decreases |l|
  {
    if l != [] {
      PrependEachUnit(l[1..]);
      assert [l[0]] + [] == [l[0]];
      assert Prepend(l[0], [[]]) == [[l[0]]];
      forall i: nat | i < |l| ensures Extended([], l)[i] == ([[l[0]]] + Extended([], l[1..]))[i] {
        assert [] + [l[i]] == [l[i]];
      }
      assert Extended([], l) == [[l[0]]] + Extended([], l[1..]);
    }
  }

  /** A product grows at its end: the last list varies fastest. */
  lemma {:induction false} ProductSnoc<T>(lists: seq<seq<T>>, xs: seq<T>)
    ensures Product(lists + [xs]) == ExtendAll(Product(lists), xs)
    decreases |lists|
  {
    var all := lists + [xs];
    if lists == [] {
      assert all[0] == xs && all[1..] == [];
      PrependEachUnit(xs);
      assert ExtendAll([[]], xs) == Extended([], xs) + ExtendAll([[]][1..], xs);
    } else {
      assert all[0] == lists[0] && all[1..] == lists[1..] + [xs];
      ProductSnoc(lists[1..], xs);
      ExtendPrependEach(lists[0], Product(lists[1..]), xs);
    }
  }

  lemma {:induction false} ExtendLast<T>(pool: seq<seq<T>>, xs: seq<T>, x: T)
    ensures multiset(ExtendAll(pool, xs + [x])) == multiset(ExtendAll(pool, xs)) + multiset(Append(pool, x))
    decreases |pool|
  {
    if pool != [] {
      ExtendLast(pool[1..], xs, x);
      assert Extended(pool[0], xs + [x]) == Extended(pool[0], xs) + [pool[0] + [x]];
      assert Append(pool, x) == [pool[0] + [x]] + Append(pool[1..], x);
    }
  }

  /** The in-place growth of a pool adds the same tuples as extending each by each trigger. */
  lemma {:induction false} GrownIsExtended<T>(pool: seq<seq<T>>, xs: seq<T>)
    requires xs != []
    ensures multiset(Grown(pool, xs)) == multiset(ExtendAll(pool, xs))
    decreases |xs|
  {
    var n := |xs| - 1;
    var x := xs[n];
    assert xs == xs[..n] + [x];
    ExtendLast(pool, xs[..n], x);
    if n == 0 {
      ExtendNone(pool);
      assert Grown(pool, xs) == Append(pool, x) + [];
    } else {
      GrownIsExtended(pool, xs[..n]);
      assert xs[..n][0] == xs[0];
    }
  }

  lemma {:induction false} ExtendNone<T>(pool: seq<seq<T>>)
    ensures ExtendAll(pool, []) == []
    decreases |pool|
  {
    if pool != [] { ExtendNone(pool[1..]); }
  }

  lemma CountCons<T>(t: T, r: seq<T>, u: T)
    ensures multiset([t] + r)[u] == multiset(r)[u] + if t == u then 1 else 0
  {
  }

  lemma EndsWith<T>(t: seq<T>, x: T, u: seq<T>)
    ensures t + [x] == u <==> u != [] && u[|u| - 1] == x && u[..|u| - 1] == t
  {
    if u != [] { assert u == u[..|u| - 1] + [u[|u| - 1]]; }
    assert (t + [x])[..|t|] == t;
  }

  lemma AppendCons<T>(pool: seq<seq<T>>, x: T)
    requires pool != []
    ensures Append(pool, x) == [pool[0] + [x]] + Append(pool[1..], x)
  {
  }

  lemma {:induction false} AppendCount<T>(pool: seq<seq<T>>, x: T, u: seq<T>)
    ensures multiset(Append(pool, x))[u]
         == if u != [] && u[|u| - 1] == x then multiset(pool)[u[..|u| - 1]] else 0
    decreases |pool|
  {
    hide Append;
    if pool == [] {
      assert Append(pool, x) == [];
    } else {
      var t, rest := pool[0], pool[1..];
      AppendCount(rest, x, u);
      AppendCons(pool, x);
      assert pool == [t] + rest;
      CountCons(t + [x], Append(rest, x), u);
      EndsWith(t, x, u);
      if u != [] { CountCons(t, rest, u[..|u| - 1]); }
    }
  }

  lemma AppendSame<T>(a: seq<seq<T>>, b: seq<seq<T>>, x: T)
    requires multiset(a) == multiset(b)
    ensures multiset(Append(a, x)) == multiset(Append(b, x))
  {
    forall u: seq<T> | u in multiset(Append(a, x)) || u in multiset(Append(b, x))
      ensures multiset(Append(a, x))[u] == multiset(Append(b, x))[u]
    {
      AppendCount(a, x, u);
      AppendCount(b, x, u);
    }
  }

  lemma {:induction false} ExtendSame<T>(a: seq<seq<T>>, b: seq<seq<T>>, xs: seq<T>)
    requires multiset(a) == multiset(b)
    ensures multiset(ExtendAll(a, xs)) == multiset(ExtendAll(b, xs))
    decreases |xs|
  {
    if xs == [] {
      ExtendNone(a);
      ExtendNone(b);
    } else {
      var n := |xs| - 1;
      assert xs == xs[..n] + [xs[n]];
      ExtendLast(a, xs[..n], xs[n]);
      ExtendLast(b, xs[..n], xs[n]);
      ExtendSame(a, b, xs[..n]);
      AppendSame(a, b, xs[n]);
    }
  }

  lemma {:induction false} SinglesReversed<T>(xs: seq<T>)
    ensures multiset(Singles(xs)) == multiset(Extended([], xs)) && |Singles(xs)| == |xs|
    decreases |xs|
  {
    if xs != [] {
      var n := |xs| - 1;
      SinglesReversed(xs[..n]);
      assert [] + [xs[n]] == [xs[n]];
      assert Extended([], xs) == Extended([], xs[..n]) + [[xs[n]]];
    }
  }

  lemma FirstIsProduct<T>(lists: seq<seq<T>>)
    requires lists != []
    ensures multiset(PoolAfter(lists, 1)) == multiset(ExtendAll(Product(lists[..0]), lists[0]))
  {
    SinglesReversed(lists[0]);
    assert lists[..0] == [];
    var one: seq<seq<T>> := [[]];
    assert ExtendAll(one, lists[0]) == Extended([], lists[0]) + ExtendAll(one[1..], lists[0]);
  }

  lemma PoolGrows<T>(lists: seq<seq<T>>, m: nat)
    requires 1 < m <= |lists| && PoolAfter(lists, m - 1) != []
    ensures PoolAfter(lists, m) == Grown(PoolAfter(lists, m - 1), lists[m - 1])
  {
  }

  /** From the first station on, a pool over non-empty lists holds the product of the lists so far. */
  lemma {:induction false} PoolIsProduct<T>(lists: seq<seq<T>>, m: nat)
    requires 1 <= m <= |lists| && forall i: nat | i < m :: lists[i] != []
    ensures multiset(PoolAfter(lists, m)) == multiset(Product(lists[..m]))
    decreases m
  {
    hide Product, PoolAfter, Grown, ExtendAll;
    assert lists[..m] == lists[..m - 1] + [lists[m - 1]];
    ProductSnoc(lists[..m - 1], lists[m - 1]);
    if m == 1 {
      FirstIsProduct(lists);
    } else {
      PoolIsProduct(lists, m - 1);
      PoolNotEmpty(lists, m - 1);
      PoolGrows(lists, m);
      GrownIsExtended(PoolAfter(lists, m - 1), lists[m - 1]);
      ExtendSame(PoolAfter(lists, m - 1), Product(lists[..m - 1]), lists[m - 1]);
    }
  }

  lemma {:induction false} PoolNotEmpty<T>(lists: seq<seq<T>>, m: nat)
    requires 1 <= m <= |lists| && lists[0] != []
    ensures PoolAfter(lists, m) != []
    decreases m
  {
    if m == 1 {
      SinglesReversed(lists[0]);
    } else {
      PoolNotEmpty(lists, m - 1);
    }
  }

  lemma {:induction false} EmptyListEmptiesProduct<T>(lists: seq<seq<T>>, i: nat)
    requires i < |lists| && lists[i] == []
    ensures Product(lists) == []
    decreases |lists|
  {
    ProductSize(lists);
    if i > 0 {
      EmptyListEmptiesProduct(lists[1..], i - 1);
      ProductSize(lists[1..]);
    }
  }

  /** getLocationPool returns the product of the trigger lists exactly when there is a station and
      either no station has an empty list or the first one has. */
  lemma PoolExactlyWhen<T>(lists: seq<seq<T>>)
    ensures multiset(PoolAfter(lists, |lists|)) == multiset(Product(lists))
       <==> lists != [] && (lists[0] == [] || forall i: nat | i < |lists| :: lists[i] != [])
    ensures lists != [] && (forall i: nat | i < |lists| :: lists[i] != []) ==>
      |PoolAfter(lists, |lists|)| == Volume(lists)
  {
    var n := |lists|;
    assert lists[..n] == lists;
    if lists == [] {
      assert multiset(Product(lists))[[]] == 1;
    } else if lists[0] == [] {
      EmptyListEmptiesProduct(lists, 0);
      EmptyPoolStays(lists, 1, n);
    } else if i: nat :| i < n && lists[i] == [] {
      EmptyListEmptiesProduct(lists, i);
      PoolNotEmpty(lists, n);
      assert |multiset(PoolAfter(lists, n))| > 0;
    } else {
      PoolIsProduct(lists, n);
      ProductSize(lists);
      assert |multiset(PoolAfter(lists, n))| == |multiset(Product(lists))|;
    }
  }
}
