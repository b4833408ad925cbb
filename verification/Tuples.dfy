/** Reference definitions for the enumerators: the cartesian product of a list of lists, the
    k-element selections from a range, and the tuples of a product whose entries go together. */
module Tuples {

  /** Each tuple of rest with x in front. */
  function Prepend<T>(x: T, rest: seq<seq<T>>): (r: seq<seq<T>>)
    ensures |r| == |rest| && forall i: nat | i < |r| :: r[i] == [x] + rest[i]
  {
    seq(|rest|, i requires 0 <= i < |rest| => [x] + rest[i])
  }

  function PrependEach<T>(xs: seq<T>, rest: seq<seq<T>>): seq<seq<T>> {
    if xs == [] then [] else Prepend(xs[0], rest) + PrependEach(xs[1..], rest)
  }

  /** All tuples with one entry from each list, the first list varying slowest. */
  function Product<T>(lists: seq<seq<T>>): seq<seq<T>> {
    if lists == [] then [[]] else PrependEach(lists[0], Product(lists[1..]))
  }

  /** x may follow every entry of cur. */
  predicate Fits<T>(ok: (T, T) -> bool, cur: seq<T>, x: T) {
    forall i: nat | i < |cur| :: ok(cur[i], x)
  }

  /** Every pair of entries of t, the earlier first, goes together. */
  ghost predicate Compatible<T>(ok: (T, T) -> bool, t: seq<T>) {
    forall i: nat, j: nat | i < j < |t| :: ok(t[i], t[j])
  }

  /** The pairs of cur + t whose later entry is in t go together. */
  ghost predicate Continues<T>(ok: (T, T) -> bool, cur: seq<T>, t: seq<T>) {
    (forall j: nat | j < |t| :: Fits(ok, cur, t[j])) && Compatible(ok, t)
  }

  /** cur followed by each tuple that continues it, in order. */
  ghost function Matching<T>(ok: (T, T) -> bool, cur: seq<T>, tuples: seq<seq<T>>): seq<seq<T>> {
    if tuples == [] then []
    else (if Continues(ok, cur, tuples[0]) then [cur + tuples[0]] else []) + Matching(ok, cur, tuples[1..])
  }

  /** The pruned depth-first search: cur is extended by an entry of the first list that fits. */
  function Search<T>(ok: (T, T) -> bool, cur: seq<T>, lists: seq<seq<T>>): seq<seq<T>>
    decreases |lists|, 0
  {
    if lists == [] then [cur] else SearchFrom(ok, cur, lists[0], lists[1..])
  }

  function SearchFrom<T>(ok: (T, T) -> bool, cur: seq<T>, xs: seq<T>, lists: seq<seq<T>>): seq<seq<T>>
    decreases |lists|, |xs| + 1
  {
    if xs == [] then []
    else (if Fits(ok, cur, xs[0]) then Search(ok, cur + [xs[0]], lists) else [])
         + SearchFrom(ok, cur, xs[1..], lists)
  }

  lemma {:induction false} MatchingConcat<T>(ok: (T, T) -> bool, cur: seq<T>, a: seq<seq<T>>, b: seq<seq<T>>)
    ensures Matching(ok, cur, a + b) == Matching(ok, cur, a) + Matching(ok, cur, b)
    decreases |a|
  {
    hide Continues;
    if a == [] {
      assert a + b == b;
    } else {
      assert (a + b)[1..] == a[1..] + b;
      MatchingConcat(ok, cur, a[1..], b);
    }
  }

  lemma ContinuesCons<T>(ok: (T, T) -> bool, cur: seq<T>, x: T, t: seq<T>)
    ensures Continues(ok, cur, [x] + t) <==> Fits(ok, cur, x) && Continues(ok, cur + [x], t)
  {
    var xt := [x] + t;
    assert forall j: nat | j < |t| :: xt[j + 1] == t[j];
    if Continues(ok, cur, xt) {
      assert Fits(ok, cur, xt[0]);
      forall j: nat | j < |t| ensures Fits(ok, cur + [x], t[j]) {
        assert Fits(ok, cur, xt[j + 1]) && ok(xt[0], xt[j + 1]);
      }
      forall i: nat, j: nat | i < j < |t| ensures ok(t[i], t[j]) { assert ok(xt[i + 1], xt[j + 1]); }
    }
    if Fits(ok, cur, x) && Continues(ok, cur + [x], t) {
      forall j: nat | j < |xt| ensures Fits(ok, cur, xt[j]) {
        if j > 0 {
          assert Fits(ok, cur + [x], t[j - 1]);
          assert forall i: nat | i < |cur| :: (cur + [x])[i] == cur[i];
        }
      }
      forall i: nat, j: nat | i < j < |xt| ensures ok(xt[i], xt[j]) {
        assert Fits(ok, cur + [x], t[j - 1]);
        if i == 0 { assert (cur + [x])[|cur|] == x; } else { assert ok(t[i - 1], t[j - 1]); }
      }
    }
  }

  lemma {:induction false} MatchingPrepend<T>(ok: (T, T) -> bool, cur: seq<T>, x: T, rest: seq<seq<T>>)
    ensures Matching(ok, cur, Prepend(x, rest))
         == if Fits(ok, cur, x) then Matching(ok, cur + [x], rest) else []
    decreases |rest|
  {
    if rest != [] {
      var p := Prepend(x, rest);
      assert p[1..] == Prepend(x, rest[1..]);
      MatchingPrepend(ok, cur, x, rest[1..]);
      ContinuesCons(ok, cur, x, rest[0]);
      assert cur + ([x] + rest[0]) == (cur + [x]) + rest[0];
    }
  }

  /** Pruning is sound and complete: the search returns exactly the tuples of the product that
      continue cur, in product order. */
  lemma {:induction false} SearchIsMatching<T>(ok: (T, T) -> bool, cur: seq<T>, lists: seq<seq<T>>)
    ensures Search(ok, cur, lists) == Matching(ok, cur, Product(lists))
    decreases |lists|, 0
  {
    if lists == [] {
      assert Matching(ok, cur, [[]]) == [cur + []] + Matching(ok, cur, [[]][1..]);
      assert cur + [] == cur;
    } else {
      SearchFromIsMatching(ok, cur, lists[0], lists[1..]);
    }
  }

  lemma {:induction false} SearchFromIsMatching<T>(ok: (T, T) -> bool, cur: seq<T>, xs: seq<T>, lists: seq<seq<T>>)
    ensures SearchFrom(ok, cur, xs, lists) == Matching(ok, cur, PrependEach(xs, Product(lists)))
    decreases |lists|, |xs| + 1
  {
    if xs != [] {
      SearchIsMatching(ok, cur + [xs[0]], lists);
      SearchFromIsMatching(ok, cur, xs[1..], lists);
      MatchingPrepend(ok, cur, xs[0], Product(lists));
      MatchingConcat(ok, cur, Prepend(xs[0], Product(lists)), PrependEach(xs[1..], Product(lists)));
    }
  }

  lemma ContinuesNothing<T>(ok: (T, T) -> bool, t: seq<T>)
    ensures Continues(ok, [], t) <==> Compatible(ok, t)
  {
  }

  /** From the empty tuple, the matches are the compatible tuples. */
  lemma {:induction false} MatchingFromNothing<T>(ok: (T, T) -> bool, tuples: seq<seq<T>>, t: seq<T>)
    ensures t in Matching(ok, [], tuples) <==> t in tuples && Compatible(ok, t)
    decreases |tuples|
  {
    hide Continues, Compatible;
    if tuples != [] {
      MatchingFromNothing(ok, tuples[1..], t);
      assert [] + tuples[0] == tuples[0];
      ContinuesNothing(ok, tuples[0]);
      assert tuples == [tuples[0]] + tuples[1..];
    }
  }

  // ---- The order of a product ----

  predicate LexLess(a: seq<nat>, b: seq<nat>)
  {
    b != [] && (a == [] || a[0] < b[0] || (a[0] == b[0] && LexLess(a[1..], b[1..])))
  }

  ghost predicate LexSorted(s: seq<seq<nat>>) {
    forall i: nat, j: nat | i < j < |s| :: LexLess(s[i], s[j])
  }

  /** Positions 0 .. n-1. */
  function Upto(n: nat): (s: seq<nat>)
    ensures |s| == n && forall i: nat | i < n :: s[i] == i
  {
    seq(n, i requires 0 <= i < n => i)
  }

  /** The tuple of entries at the given positions. */
  function Pick<T>(lists: seq<seq<T>>, at: seq<nat>): seq<T>
    requires |at| == |lists| && forall i: nat | i < |at| :: at[i] < |lists[i]|
  {
    seq(|at|, i requires 0 <= i < |at| => lists[i][at[i]])
  }

  ghost predicate Addresses<T>(lists: seq<seq<T>>, at: seq<nat>) {
    |at| == |lists| && forall i: nat | i < |at| :: at[i] < |lists[i]|
  }

  lemma {:induction false} PrependEachAt<T>(xs: seq<T>, rest: seq<seq<T>>, a: nat, b: nat)
    requires a < |xs| && b < |rest|
    ensures a * |rest| + b < |PrependEach(xs, rest)|
    ensures PrependEach(xs, rest)[a * |rest| + b] == [xs[a]] + rest[b]
    decreases |xs|
  {
    PrependEachSize(xs, rest);
    if a > 0 {
      PrependEachAt(xs[1..], rest, a - 1, b);
      assert a * |rest| + b == |rest| + ((a - 1) * |rest| + b) by { Distribute(a, |rest|); }
    } else {
      assert 0 * |rest| == 0;
    }
  }

  lemma Distribute(a: int, n: int)
    ensures a * n == n + (a - 1) * n
  {
  }

  lemma {:induction false} PrependEachSize<T>(xs: seq<T>, rest: seq<seq<T>>)
    ensures |PrependEach(xs, rest)| == |xs| * |rest|
    decreases |xs|
  {
    if xs != [] {
      PrependEachSize(xs[1..], rest);
      Distribute(|xs|, |rest|);
    }
  }

  /** The number of tuples. */
  function Volume<T>(lists: seq<seq<T>>): nat {
    if lists == [] then 1 else |lists[0]| * Volume(lists[1..])
  }

  lemma {:induction false} ProductSize<T>(lists: seq<seq<T>>)
    ensures |Product(lists)| == Volume(lists)
    decreases |lists|
  {
    if lists != [] {
      ProductSize(lists[1..]);
      PrependEachSize(lists[0], Product(lists[1..]));
    }
  }

  /** The place of an address in the lexicographic order. */
  function Rank<T>(lists: seq<seq<T>>, at: seq<nat>): (r: nat)
    requires Addresses(lists, at)
    decreases |lists|
  {
    if lists == [] then 0 else at[0] * Volume(lists[1..]) + Rank(lists[1..], at[1..])
  }

  /** The tuple at the rank of an address is the one picked by that address. */
  lemma {:induction false} ProductAtRank<T>(lists: seq<seq<T>>, at: seq<nat>)
    requires Addresses(lists, at)
    ensures Rank(lists, at) < |Product(lists)|
    ensures Product(lists)[Rank(lists, at)] == Pick(lists, at)
    decreases |lists|
  {
    if lists == [] {
      assert Pick(lists, at) == [];
    } else {
      var l', at' := lists[1..], at[1..];
      ProductAtRank(l', at');
      ProductSize(l');
      PrependEachAt(lists[0], Product(l'), at[0], Rank(l', at'));
      assert Pick(lists, at) == [lists[0][at[0]]] + Pick(l', at');
    }
  }

  /** Ranks follow the lexicographic order of addresses, so different addresses have different
      ranks. */
  lemma {:induction false} RankMonotone<T>(lists: seq<seq<T>>, a: seq<nat>, b: seq<nat>)
    requires Addresses(lists, a) && Addresses(lists, b) && LexLess(a, b)
    ensures Rank(lists, a) < Rank(lists, b)
    decreases |lists|
  {
    var l' := lists[1..];
    ProductAtRank(l', a[1..]);
    ProductSize(l');
    if a[0] == b[0] {
      RankMonotone(l', a[1..], b[1..]);
    } else {
      ScaleGap(a[0], b[0], Volume(l'));
    }
  }

  lemma {:induction false} ScaleGap(a: nat, b: nat, v: nat)
    requires a < b
    ensures a * v + v <= b * v
    decreases b
  {
    Distribute(b, v);
    if a < b - 1 { ScaleGap(a, b - 1, v); }
  }

  /** Every rank is the rank of an address. */
  lemma {:induction false} AddressOf<T>(lists: seq<seq<T>>, r: nat) returns (at: seq<nat>)
    requires r < Volume(lists)
    ensures Addresses(lists, at) && Rank(lists, at) == r
    decreases |lists|
  {
    if lists == [] {
      at := [];
    } else {
      var q, m := Quotient(r, Volume(lists[1..]), |lists[0]|);
      var rest := AddressOf(lists[1..], m);
      at := [q] + rest;
      assert at[1..] == rest;
    }
  }

  lemma {:induction false} Quotient(r: nat, v: nat, n: nat) returns (q: nat, m: nat)
    requires r < n * v
    ensures q < n && m < v && r == q * v + m
    decreases n
  {
    Distribute(n, v);
    if r < (n - 1) * v {
      q, m := Quotient(r, v, n - 1);
    } else {
      q, m := n - 1, r - (n - 1) * v;
    }
  }

  // ---- Selections ----

  /** The k-element increasing selections from start .. n-1. */
  function Subsets(start: nat, n: nat, k: nat): seq<seq<nat>>
    requires start <= n
    decreases n - start
  {
    if k == 0 then [[]]
    else if start == n then []
    else Prepend(start, Subsets(start + 1, n, k - 1)) + Subsets(start + 1, n, k)
  }

  ghost predicate Selection(t: seq<nat>, start: nat, n: nat, k: nat) {
    && |t| == k
    && (forall i: nat | i < |t| :: start <= t[i] < n)
    && (forall i: nat, j: nat | i < j < |t| :: t[i] < t[j])
  }

  function Choose(n: nat, k: nat): nat {
    if k == 0 then 1 else if n == 0 then 0 else Choose(n - 1, k - 1) + Choose(n - 1, k)
  }

  lemma {:induction false} SubsetsCount(start: nat, n: nat, k: nat)
    requires start <= n
    ensures |Subsets(start, n, k)| == Choose(n - start, k)
    decreases n - start
  {
    if k > 0 && start < n {
      SubsetsCount(start + 1, n, k - 1);
      SubsetsCount(start + 1, n, k);
    }
  }

  /** A list contains exactly the increasing selections. */
  lemma {:induction false} SubsetsExact(start: nat, n: nat, k: nat, t: seq<nat>)
    requires start <= n
    ensures t in Subsets(start, n, k) <==> Selection(t, start, n, k)
    decreases n - start
  {
    hide Prepend;
    if k == 0 {
      assert t in Subsets(start, n, 0) <==> t == [];
      hide Subsets;
    } else if start < n {
      hide Selection;
      SubsetsExact(start + 1, n, k, t);
      var rest := Subsets(start + 1, n, k - 1);
      if t != [] {
        SubsetsExact(start + 1, n, k - 1, t[1..]);
        InPrepend(start, rest, t);
        SelectionSplit(t, start, n, k);
        InConcat(Prepend(start, rest), Subsets(start + 1, n, k), t);
      } else {
        NotEmptyTuple(start, rest, Subsets(start + 1, n, k), t);
      }
    } else {
      NoSelection(t, n, k);
    }
  }

  lemma NoSelection(t: seq<nat>, n: nat, k: nat)
    requires k > 0
    ensures !Selection(t, n, n, k)
  {
    if t != [] { var first := t[0]; }
  }

  lemma InConcat<T>(a: seq<T>, b: seq<T>, t: T)
    ensures t in a + b <==> t in a || t in b
  {
  }

  lemma NotEmptyTuple<T>(x: T, rest: seq<seq<T>>, b: seq<seq<T>>, t: seq<T>)
    requires t == [] && t !in b
    ensures t !in Prepend(x, rest) + b
  {
    var p := Prepend(x, rest);
    assert forall i: nat | i < |p| :: |p[i]| > 0;
  }

  lemma InPrepend<T>(x: T, rest: seq<seq<T>>, t: seq<T>)
    requires t != []
    ensures t in Prepend(x, rest) <==> t[0] == x && t[1..] in rest
  {
    var p := Prepend(x, rest);
    if t in p {
      var i: nat :| i < |p| && p[i] == t;
      assert t[1..] == rest[i];
    }
    if t[0] == x && t[1..] in rest {
      var i: nat :| i < |rest| && rest[i] == t[1..];
      assert p[i] == t;
    }
  }

  lemma SelectionSplit(t: seq<nat>, start: nat, n: nat, k: nat)
    requires t != [] && start < n && k > 0
    ensures Selection(t, start, n, k) <==>
      (t[0] == start && Selection(t[1..], start + 1, n, k - 1)) || Selection(t, start + 1, n, k)
  {
    if t[0] == start && Selection(t[1..], start + 1, n, k - 1) {
      assert forall i: nat | 0 < i < |t| :: t[i] == t[1..][i - 1];
    }
  }

  lemma {:induction false} SubsetsSorted(start: nat, n: nat, k: nat)
    requires start <= n
    ensures LexSorted(Subsets(start, n, k))
    decreases n - start
  {
    if k > 0 && start < n {
      SubsetsSorted(start + 1, n, k - 1);
      SubsetsSorted(start + 1, n, k);
      var s, a, b := Subsets(start, n, k), Prepend(start, Subsets(start + 1, n, k - 1)), Subsets(start + 1, n, k);
      forall i: nat, j: nat | i < j < |s| ensures LexLess(s[i], s[j]) {
        if j < |a| {
          assert s[i] == a[i] && s[j] == a[j];
          assert a[i][1..] == Subsets(start + 1, n, k - 1)[i] && a[j][1..] == Subsets(start + 1, n, k - 1)[j];
        } else if i >= |a| {
          assert s[i] == b[i - |a|] && s[j] == b[j - |a|];
        } else {
          assert s[i] == a[i] && s[j] == b[j - |a|];
          assert b[j - |a|] in b;
          SubsetsExact(start + 1, n, k, b[j - |a|]);
        }
      }
    }
  }

  /** Choosing all n of n leaves one selection. */
  lemma {:induction false} ChooseAll(start: nat, n: nat)
    requires start <= n
    ensures Subsets(start, n, n - start) == [seq(n - start, i requires 0 <= i < n - start => start + i)]
    ensures forall k: nat | k > n - start :: Subsets(start, n, k) == []
    decreases n - start
  {
    var t := seq(n - start, i requires 0 <= i < n - start => start + i);
    if start < n {
      ChooseAll(start + 1, n);
      var t' := seq(n - (start + 1), i requires 0 <= i < n - (start + 1) => start + 1 + i);
      assert t == [start] + t';
      assert Prepend(start, [t']) == [t];
    } else {
      assert t == [];
    }
  }
}
