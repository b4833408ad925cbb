/** The enumerators of candidate trigger combinations. */
module LigTools {
  import opened GpsTime
  import opened Trigger
  import opened Tuples

  type Triggers = seq<TriggerInfo>

  function Reach(travel: TravelTimes): (TriggerInfo, TriggerInfo) -> bool {
    (a, b) => WithinReach(travel, a, b)
  }

  /** The vectors permuteVector works on: the tuple being built and the tuples found. */
  class CombinationSearch {
    var current: Triggers
    var pool: seq<Triggers>

    constructor ()
      ensures current == [] && pool == []
    {
      current, pool := [], [];
    }

    /** The test of one trigger against every trigger already chosen. */
    method IsValid(tri: TriggerInfo, travel: TravelTimes) returns (valid: bool)
      ensures valid <==> Fits(Reach(travel), current, tri)
    {
      valid := true;
      for e := 0 to |current|
        invariant valid && forall j: nat | j < e :: WithinReach(travel, current[j], tri)
      {
        if Abs(Minus(tri.time, current[e].time)) > travel(current[e].stationID, tri.stationID) + 0.0001 {
          valid := false;
          assert !Reach(travel)(current[e], tri);
          break;
        }
      }
    }

    /** permuteVector: appends every completion of current by one trigger from each remaining list
        whose pairs are within reach, and leaves current as it was. */
    method PermuteVector(triggers: seq<Triggers>, index: nat, travel: TravelTimes)
      requires index <= |triggers|
      modifies this
      ensures current == old(current)
      ensures pool == old(pool) + Search(Reach(travel), old(current), triggers[index..])
      decreases |triggers| - index
    {
      if index == |triggers| {
        pool := pool + [current];
        return;
      }
      ghost var ok, cur, found := Reach(travel), current, pool;
      ghost var xs, rest := triggers[index], triggers[index + 1..];
      assert triggers[index..][0] == xs && triggers[index..][1..] == rest;
      assert xs[0..] == xs;
      for i := 0 to |triggers[index]|
        invariant current == cur
        invariant pool + SearchFrom(ok, cur, xs[i..], rest) == found + SearchFrom(ok, cur, xs, rest)
      {
        var tri := triggers[index][i];
        var valid := IsValid(tri, travel);
        ghost var before := pool;
        if valid {
          current := current + [tri];
          PermuteVector(triggers, index + 1, travel);
          current := current[..|current| - 1];
        }
        SearchStep(ok, cur, xs, i, rest, before, pool);
      }
      assert xs[|xs|..] == [];
    }
  }

  lemma SearchStep(ok: (TriggerInfo, TriggerInfo) -> bool, cur: Triggers, xs: Triggers, i: nat, rest: seq<Triggers>,
                   before: seq<Triggers>, after: seq<Triggers>)
    requires i < |xs|
    requires after == if Fits(ok, cur, xs[i]) then before + Search(ok, cur + [xs[i]], rest) else before
    ensures before + SearchFrom(ok, cur, xs[i..], rest) == after + SearchFrom(ok, cur, xs[i + 1..], rest)
  {
    assert xs[i..][0] == xs[i] && xs[i..][1..] == xs[i + 1..];
    var f := Search(ok, cur + [xs[i]], rest);
    var g := SearchFrom(ok, cur, xs[i + 1..], rest);
    assert before + (f + g) == (before + f) + g;
    assert before + ([] + g) == before + g;
  }

  /** The vectors generateCombinations works on. */
  class SelectionSearch {
    var current: seq<int>
    var combinations: seq<seq<int>>

    constructor ()
      ensures current == [] && combinations == []
    {
      current, combinations := [], [];
    }

    /** generateCombinations: appends every way of completing current to k numbers by numbers at
        increasing positions from start on, and leaves current as it was. */
    method GenerateCombinations(nums: seq<int>, k: nat, start: nat)
      requires start <= |nums|
      modifies this
      ensures current == old(current)
      ensures combinations == old(combinations) + Completions(old(current), nums, start, k)
      decreases |nums| - start
    {
      hide Completions;
      if |current| == k {
        combinations := combinations + [current];
        CompletionsWhole(current, nums, start);
        return;
      }
      ghost var cur, found := current, combinations;
      var i := start;
      while i < |nums|
        invariant start <= i <= |nums| && current == cur
        invariant combinations + Completions(cur, nums, i, k) == found + Completions(cur, nums, start, k)
      {
        ghost var before := combinations;
        current := current + [nums[i]];
        GenerateCombinations(nums, k, i + 1);
        current := current[..|current| - 1];
        CompletionsStep(cur, nums, i, k, before, combinations);
        i := i + 1;
      }
      CompletionsNone(cur, nums, k);
    }
  }

  /** The ways to complete cur to k numbers by numbers at increasing positions from start on. */
  function Completions(cur: seq<int>, nums: seq<int>, start: nat, k: nat): seq<seq<int>>
    requires start <= |nums|
  {
    if |cur| > k then [] else Completed(cur, nums, Subsets(start, |nums|, k - |cur|))
  }

  ghost predicate PositionsIn(t: seq<nat>, n: nat) {
    forall i: nat | i < |t| :: t[i] < n
  }

  function Values(nums: seq<int>, t: seq<nat>): seq<int> {
    seq(|t|, i requires 0 <= i < |t| => if t[i] < |nums| then nums[t[i]] else 0)
  }

  /** cur followed by the numbers at each of the selected positions. */
  function Completed(cur: seq<int>, nums: seq<int>, sel: seq<seq<nat>>): seq<seq<int>> {
    seq(|sel|, i requires 0 <= i < |sel| => cur + Values(nums, sel[i]))
  }

  lemma CompletionsWhole(cur: seq<int>, nums: seq<int>, start: nat)
    requires start <= |nums|
    ensures Completions(cur, nums, start, |cur|) == [cur]
  {
    assert cur + Values(nums, []) == cur;
  }

  lemma CompletionsNone(cur: seq<int>, nums: seq<int>, k: nat)
    requires |cur| != k
    ensures Completions(cur, nums, |nums|, k) == []
  {
  }

  lemma CompletionsStep(cur: seq<int>, nums: seq<int>, i: nat, k: nat, before: seq<seq<int>>, after: seq<seq<int>>)
    requires i < |nums| && |cur| != k
    requires after == before + Completions(cur + [nums[i]], nums, i + 1, k)
    ensures before + Completions(cur, nums, i, k) == after + Completions(cur, nums, i + 1, k)
  {
    hide Subsets, Completed;
    if |cur| < k {
      CompletedSplits(cur, nums, i, k - |cur|);
      var f := Completed(cur + [nums[i]], nums, Subsets(i + 1, |nums|, k - |cur| - 1));
      var g := Completed(cur, nums, Subsets(i + 1, |nums|, k - |cur|));
      assert before + (f + g) == (before + f) + g;
    }
  }

  lemma CompletedSplits(cur: seq<int>, nums: seq<int>, i: nat, k: nat)
    requires i < |nums| && k > 0
    ensures Completed(cur, nums, Subsets(i, |nums|, k))
         == Completed(cur + [nums[i]], nums, Subsets(i + 1, |nums|, k - 1))
            + Completed(cur, nums, Subsets(i + 1, |nums|, k))
  {
    var a, b := Subsets(i + 1, |nums|, k - 1), Subsets(i + 1, |nums|, k);
    hide Subsets;
    var p := Prepend(i, a);
    var lhs, c, d := Completed(cur, nums, p + b), Completed(cur + [nums[i]], nums, a), Completed(cur, nums, b);
    assert |lhs| == |c + d|;
    forall j: nat | j < |lhs| ensures lhs[j] == (c + d)[j] {
      if j < |a| {
        ValuesCons(cur, nums, i, a[j]);
      }
    }
  }

  lemma ValuesCons(cur: seq<int>, nums: seq<int>, i: nat, t: seq<nat>)
    requires i < |nums|
    ensures cur + Values(nums, [i] + t) == (cur + [nums[i]]) + Values(nums, t)
  {
    assert Values(nums, [i] + t) == [nums[i]] + Values(nums, t);
  }

  method GetCombinations(nums: seq<int>, k: nat) returns (combinations: seq<seq<int>>)
    ensures combinations == Completed([], nums, Subsets(0, |nums|, k))
  {
    var s := new SelectionSearch();
    s.GenerateCombinations(nums, k, 0);
    combinations := s.combinations;
  }

  /** The lists at the selected positions. */
  function Selected(lists: seq<Triggers>, t: seq<nat>): seq<Triggers> {
    seq(|t|, i requires 0 <= i < |t| => if t[i] < |lists| then lists[t[i]] else [])
  }

  /** The searches over each selection of lists, one after the other. */
  ghost function SearchEach(travel: TravelTimes, lists: seq<Triggers>, sel: seq<seq<nat>>): seq<Triggers> {
    if sel == [] then []
    else SearchEach(travel, lists, sel[..|sel| - 1]) + Search(Reach(travel), [], Selected(lists, sel[|sel| - 1]))
  }

  method SelectLists(lists: seq<Triggers>, combination: seq<int>, ghost t: seq<nat>) returns (selected: seq<Triggers>)
    requires |combination| == |t| && PositionsIn(t, |lists|)
    requires forall i: nat | i < |t| :: combination[i] == t[i]
    ensures selected == Selected(lists, t)
  {
    selected := [];
    for i := 0 to |combination|
      invariant selected == Selected(lists, t)[..i]
    {
      selected := selected + [lists[combination[i]]];
    }
  }

  lemma CombinationAt(n: nat, k: nat, c: nat)
    requires c < |Subsets(0, n, k)|
    ensures var t := Subsets(0, n, k)[c];
      var combination := Completed([], Upto(n), Subsets(0, n, k))[c];
      PositionsIn(t, n) && |combination| == |t| && forall i: nat | i < |t| :: combination[i] == t[i]
  {
    var t := Subsets(0, n, k)[c];
    assert t in Subsets(0, n, k);
    SubsetsExact(0, n, k, t);
    assert [] + Values(Upto(n), t) == Values(Upto(n), t);
  }

  /** getLocationPool_p over the trigger lists of the stations in the pool. */
  method GetLocationPoolP(lists: seq<Triggers>, travel: TravelTimes, nCombStas: nat) returns (pool: seq<Triggers>)
    ensures pool == SearchEach(travel, lists, Subsets(0, |lists|, nCombStas))
  {
    hide Subsets, Search, Selected, Values;
    var stationIndices: seq<int> := Upto(|lists|);
    var combinations := GetCombinations(stationIndices, nCombStas);
    ghost var sel := Subsets(0, |lists|, nCombStas);
    var s := new CombinationSearch();
    assert sel[..0] == [];
    for c := 0 to |combinations|
      invariant |combinations| == |sel| && combinations == Completed([], Upto(|lists|), sel)
      invariant s.current == [] && s.pool == SearchEach(travel, lists, sel[..c])
    {
      CombinationAt(|lists|, nCombStas, c);
      var selectedTriggers := SelectLists(lists, combinations[c], sel[c]);
      assert selectedTriggers[0..] == selectedTriggers;
      s.PermuteVector(selectedTriggers, 0, travel);
      assert sel[..c + 1][..c] == sel[..c];
    }
    assert sel[..|sel|] == sel;
    pool := s.pool;
  }

  /** With every station taken, the pool is a single filtered product: the compatible tuples of the
      product of all the lists, in product order. */
  lemma AllStations(travel: TravelTimes, lists: seq<Triggers>)
    ensures SearchEach(travel, lists, Subsets(0, |lists|, |lists|)) == Matching(Reach(travel), [], Product(lists))
  {
    hide Subsets, Search, Matching, Product;
    var n := |lists|;
    ChooseAll(0, n);
    var t: seq<nat> := seq(n, i requires 0 <= i < n => 0 + i);
    SearchOne(travel, lists, t);
    assert Selected(lists, t) == lists;
    SearchIsMatching(Reach(travel), [], lists);
  }

  lemma SearchOne(travel: TravelTimes, lists: seq<Triggers>, t: seq<nat>)
    ensures SearchEach(travel, lists, [t]) == Search(Reach(travel), [], Selected(lists, t))
  {
    assert [t][..0] == [];
  }

  /** Every tuple of the pool has one trigger of each station's list, in station order, every two
      within reach of each other. */
  lemma {:induction false} FromEachStation<T>(lists: seq<seq<T>>, t: seq<T>)
    ensures t in Product(lists) <==> |t| == |lists| && forall i: nat | i < |t| :: t[i] in lists[i]
    decreases |lists|
  {
    if lists == [] {
      assert Product(lists) == [[]];
    } else {
      InPrependEach(lists[0], Product(lists[1..]), t);
      if t != [] {
        FromEachStation(lists[1..], t[1..]);
        if |t| == |lists| && t[0] in lists[0] {
          assert forall i: nat | 0 < i < |t| :: t[i] == t[1..][i - 1] && lists[i] == lists[1..][i - 1];
          assert forall i: nat | i < |t[1..]| :: t[1..][i] == t[i + 1] && lists[1..][i] == lists[i + 1];
        }
      }
    }
  }

  lemma {:induction false} InPrependEach<T>(xs: seq<T>, rest: seq<seq<T>>, t: seq<T>)
    ensures t in PrependEach(xs, rest) <==> t != [] && t[0] in xs && t[1..] in rest
    decreases |xs|
  {
    if xs != [] {
      InPrependEach(xs[1..], rest, t);
      InConcat(Prepend(xs[0], rest), PrependEach(xs[1..], rest), t);
      assert xs == [xs[0]] + xs[1..];
      if t != [] {
        InPrepend(xs[0], rest, t);
      } else {
        NotEmptyTuple(xs[0], rest, PrependEach(xs[1..], rest), t);
      }
    }
  }

  // ---- The unpruned pool ----

  /** Each tuple of the pool with x at its end. */
  function Append<T>(pool: seq<seq<T>>, x: T): (r: seq<seq<T>>)
    ensures |r| == |pool| && forall i: nat | i < |r| :: r[i] == pool[i] + [x]
  {
    seq(|pool|, i requires 0 <= i < |pool| => pool[i] + [x])
  }

  /** Copies of the first tuples extended by each of xs but the first, the last of xs first. */
  function Copies<T>(pool: seq<seq<T>>, xs: seq<T>): seq<seq<T>> {
    if |xs| <= 1 then [] else Append(pool, xs[|xs| - 1]) + Copies(pool, xs[..|xs| - 1])
  }

  function Singles<T>(xs: seq<T>): seq<seq<T>> {
    if xs == [] then [] else [[xs[|xs| - 1]]] + Singles(xs[..|xs| - 1])
  }

  /** The pool after one more station. */
  function Grown<T>(pool: seq<seq<T>>, xs: seq<T>): seq<seq<T>> {
    if xs == [] then pool else Append(pool, xs[0]) + Copies(pool, xs)
  }

  /** The pool after the first m stations; an empty pool after the first station stays empty. */
  function PoolAfter<T>(lists: seq<seq<T>>, m: nat): seq<seq<T>>
    requires m <= |lists|
    decreases m
  {
    if m == 0 then []
    else if m == 1 then Singles(lists[0])
    else if PoolAfter(lists, m - 1) == [] then []
    else Grown(PoolAfter(lists, m - 1), lists[m - 1])
  }

  /** Pushes a copy of each of the first nPool tuples, extended by x. */
  method PushCopies(pool0: seq<Triggers>, nPool: nat, x: TriggerInfo) returns (pool: seq<Triggers>)
    requires nPool <= |pool0|
    ensures pool == pool0 + Append(pool0[..nPool], x)
  {
    pool := pool0;
    for p := 0 to nPool
      invariant pool == pool0 + Append(pool0[..nPool], x)[..p]
    {
      pool := pool + [pool[p] + [x]];
    }
  }

  /** Pushes x onto each of the first nPool tuples, the last first. */
  method PushOntoFirst(pool0: seq<Triggers>, nPool: nat, x: TriggerInfo) returns (pool: seq<Triggers>)
    requires nPool <= |pool0|
    ensures pool == Append(pool0[..nPool], x) + pool0[nPool..]
  {
    pool := pool0;
    for p := nPool downto 0
      invariant |pool| == |pool0|
      invariant forall i: nat | i < p :: pool[i] == pool0[i]
      invariant forall i: nat | p <= i < nPool :: pool[i] == pool0[i] + [x]
      invariant forall i: nat | nPool <= i < |pool| :: pool[i] == pool0[i]
    {
      pool := pool[p := pool[p] + [x]];
    }
  }

  /** The branch of getLocationPool for a station after the first: copies for every trigger but the
      first, which is then pushed onto the tuples that were there. */
  method ExtendPool(pool0: seq<Triggers>, triggers: Triggers) returns (pool: seq<Triggers>)
    ensures pool == Grown(pool0, triggers)
  {
    hide Copies, Append;
    var nPool := |pool0|;
    pool := pool0;
    if triggers == [] {
      return;
    }
    var k := |triggers| - 1;
    assert triggers[..|triggers|] == triggers;
    while k > 0
      invariant 0 <= k < |triggers|
      invariant pool + Copies(pool0, triggers[..k + 1]) == pool0 + Copies(pool0, triggers)
    {
      PrefixKept(pool0, pool, triggers, k);
      ghost var before := pool;
      pool := PushCopies(pool, nPool, triggers[k]);
      CopiesStep(pool0, triggers, k, before, pool);
      k := k - 1;
    }
    CopiesEnd(pool0, triggers, pool);
    pool := PushOntoFirst(pool, nPool, triggers[0]);
  }

  lemma {:induction false} CopiesSize<T>(pool: seq<seq<T>>, xs: seq<T>)
    ensures |xs| >= 1 ==> |Copies(pool, xs)| == (|xs| - 1) * |pool|
    decreases |xs|
  {
    if |xs| > 1 {
      CopiesSize(pool, xs[..|xs| - 1]);
      Distribute(|xs| - 1, |pool|);
    }
  }

  lemma PrefixKept<T>(pool0: seq<seq<T>>, pool: seq<seq<T>>, xs: seq<T>, k: nat)
    requires k < |xs|
    requires pool + Copies(pool0, xs[..k + 1]) == pool0 + Copies(pool0, xs)
    ensures |pool| >= |pool0| && pool[..|pool0|] == pool0
  {
    var c := Copies(pool0, xs[..k + 1]);
    CopiesSize(pool0, xs);
    CopiesSize(pool0, xs[..k + 1]);
    if k + 1 < |xs| { ScaleGap(k, |xs| - 1, |pool0|); }
    assert |pool| >= |pool0|;
    hide Copies;
    forall i: nat | i < |pool0| ensures pool[i] == pool0[i] {
      assert (pool + c)[i] == (pool0 + Copies(pool0, xs))[i];
    }
  }

  lemma CopiesStep<T>(pool0: seq<seq<T>>, xs: seq<T>, k: nat, before: seq<seq<T>>, after: seq<seq<T>>)
    requires 0 < k < |xs| && after == before + Append(pool0, xs[k])
    ensures before + Copies(pool0, xs[..k + 1]) == after + Copies(pool0, xs[..k])
  {
    assert xs[..k + 1][..k] == xs[..k];
    assert before + (Append(pool0, xs[k]) + Copies(pool0, xs[..k])) == after + Copies(pool0, xs[..k]);
  }

  lemma CopiesEnd<T>(pool0: seq<seq<T>>, xs: seq<T>, pool: seq<seq<T>>)
    requires xs != [] && pool + Copies(pool0, xs[..1]) == pool0 + Copies(pool0, xs)
    ensures pool == pool0 + Copies(pool0, xs)
    ensures pool[..|pool0|] == pool0 && pool[|pool0|..] == Copies(pool0, xs)
  {
    assert pool + [] == pool;
  }

  /** getLocationPool over the trigger lists of the stations. */
  method GetLocationPool(lists: seq<Triggers>) returns (pool: seq<Triggers>)
    ensures pool == PoolAfter(lists, |lists|)
  {
    pool := [];
    var m := 0;
    while m < |lists|
      invariant 0 <= m <= |lists| && pool == PoolAfter(lists, m)
    {
      if m > 0 {
        if |pool| == 0 {
          EmptyPoolStays(lists, m, |lists|);
          break;
        }
        pool := ExtendPool(pool, lists[m]);
      } else {
        assert lists[0][..|lists[0]|] == lists[0];
        for k := |lists[0]| downto 0
          invariant pool + Singles(lists[0][..k]) == Singles(lists[0])
        {
          assert lists[0][..k + 1][..k] == lists[0][..k];
          assert pool + ([[lists[0][k]]] + Singles(lists[0][..k])) == (pool + [[lists[0][k]]]) + Singles(lists[0][..k]);
          pool := pool + [[lists[0][k]]];
        }
        assert Singles(lists[0][..0]) == [];
      }
      m := m + 1;
    }
  }

  lemma {:induction false} EmptyPoolStays<T>(lists: seq<seq<T>>, m: nat, n: nat)
    requires 0 < m <= n <= |lists| && PoolAfter(lists, m) == []
    ensures PoolAfter(lists, n) == []
    decreases n
  {
    if m < n { EmptyPoolStays(lists, m, n - 1); }
  }
}
