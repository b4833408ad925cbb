/** The queue of triggers: its order, the windows in it, and the erasure of a list of indices. */
module TriggerQueue {
  import opened GpsTime
  import opened Trigger

  type Queue = seq<TriggerInfo>

  ghost predicate Ascending(q: Queue) {
    forall i: nat, j: nat | i < j < |q| :: Before(q[i], q[j])
  }

  ghost predicate Timed(q: Queue) {
    forall i: nat | i < |q| :: Valid(q[i].time) && q[i].trigIdx == 0
  }

  ghost function Keys(q: Queue): set<Key> {
    set i: nat | i < |q| :: KeyOf(q[i])
  }

  // ---- Erasing indices one after the other ----

  ghost predicate Erasable(n: nat, order: seq<nat>)
    decreases |order|
  {
    order == [] || (order[0] < n && Erasable(n - 1, order[1..]))
  }

  function EraseEach<T>(q: seq<T>, order: seq<nat>): (r: seq<T>)
    requires Erasable(|q|, order)
    decreases |order|
  {
    if order == [] then q else EraseEach(q[..order[0]] + q[order[0] + 1..], order[1..])
  }

  /** What is left of s, in order, without the elements at the given positions. */
  function Without<T>(s: seq<T>, at: seq<nat>): (r: seq<T>)
    decreases |s|
  {
    if s == [] then []
    else Without(s[..|s| - 1], at) + if |s| - 1 in at then [] else [s[|s| - 1]]
  }

  ghost predicate NoRepeats(s: seq<nat>) {
    forall i: nat, j: nat | i < j < |s| :: s[i] != s[j]
  }

  ghost predicate Falling(s: seq<nat>) {
    forall i: nat, j: nat | i < j < |s| :: s[i] > s[j]
  }

  ghost predicate NonRising(s: seq<nat>) {
    forall i: nat, j: nat | i < j < |s| :: s[i] >= s[j]
  }

  function Zeros(k: nat): (z: seq<nat>)
    ensures |z| == k && forall i: nat | i < k :: z[i] == 0
  {
    seq(k, i requires 0 <= i < k => 0)
  }

  lemma {:induction false} WithoutBelow<T>(a: seq<T>, b: seq<T>, at: seq<nat>)
    requires forall i: nat | i < |at| :: at[i] < |a|
    ensures Without(a + b, at) == Without(a, at) + b
    decreases |b|
  {
    if b == [] {
      assert a + b == a;
    } else {
      var n := |b| - 1;
      assert (a + b)[..|a + b| - 1] == a + b[..n];
      WithoutBelow(a, b[..n], at);
      assert |a + b| - 1 !in at;
    }
  }

  lemma {:induction false} WithoutSame<T>(s: seq<T>, at: seq<nat>, bt: seq<nat>)
    requires forall i: nat | i < |s| :: i in at <==> i in bt
    ensures Without(s, at) == Without(s, bt)
    decreases |s|
  {
    if s != [] { WithoutSame(s[..|s| - 1], at, bt); }
  }

  /** Erasing position d first, then lower ones, is leaving all of them out. */
  lemma WithoutHead<T>(s: seq<T>, d: nat, at: seq<nat>)
    requires d < |s| && forall i: nat | i < |at| :: at[i] < d
    ensures Without(s[..d] + s[d + 1..], at) == Without(s, [d] + at)
  {
    var all := [d] + at;
    var a, b, c := s[..d], s[d + 1..], s[..d + 1];
    WithoutBelow(a, b, at);
    assert s == c + b;
    assert forall i: nat | i < |all| :: all[i] < |c|;
    WithoutBelow(c, b, all);
    WithoutLast(s, d, all);
    WithoutSame(a, all, at);
  }

  lemma WithoutLast<T>(s: seq<T>, d: nat, all: seq<nat>)
    requires d < |s| && d in all
    ensures Without(s[..d + 1], all) == Without(s[..d], all)
  {
    assert s[..d + 1][..d] == s[..d];
  }

  lemma {:induction false} EraseZeros<T>(q: seq<T>, k: nat)
    requires k <= |q|
    ensures Erasable(|q|, Zeros(k)) && EraseEach(q, Zeros(k)) == q[k..]
    decreases k
  {
    if k > 0 {
      assert Zeros(k)[1..] == Zeros(k - 1);
      EraseZeros(q[1..], k - 1);
      assert q[..0] + q[1..] == q[1..];
    }
  }

  /** Erasing falling positions below w and then k times the front takes those positions and the
      first k others of the first w elements, and nothing else. */
  lemma {:induction false} EraseExact<T>(q: seq<T>, falling: seq<nat>, k: nat, w: nat)
    requires Falling(falling) && w <= |q| && |falling| + k <= w
    requires forall i: nat | i < |falling| :: falling[i] < w
    ensures Erasable(|q|, falling + Zeros(k))
    ensures |Without(q[..w], falling)| == w - |falling|
    ensures EraseEach(q, falling + Zeros(k)) == Without(q[..w], falling)[k..] + q[w..]
    decreases |falling|
  {
    if falling == [] {
      EraseFront(q, k, w);
      assert falling + Zeros(k) == Zeros(k);
    } else {
      var d, rest := falling[0], falling[1..];
      var q' := q[..d] + q[d + 1..];
      assert forall i: nat | i < |rest| :: rest[i] == falling[i + 1] && rest[i] < d;
      EraseExact(q', rest, k, w - 1);
      EraseFirst(q, falling, k, w);
    }
  }

  lemma EraseFront<T>(q: seq<T>, k: nat, w: nat)
    requires k <= w <= |q|
    ensures Erasable(|q|, Zeros(k))
    ensures Without(q[..w], []) == q[..w] && EraseEach(q, Zeros(k)) == q[..w][k..] + q[w..]
  {
    hide Without, EraseEach, Erasable, Zeros;
    EraseZeros(q, k);
    WithoutNone(q[..w]);
    assert q[k..] == q[..w][k..] + q[w..];
  }

  lemma EraseFirst<T>(q: seq<T>, falling: seq<nat>, k: nat, w: nat)
    requires falling != [] && falling[0] < w <= |q| && |falling| + k <= w
    requires forall i: nat | 0 < i < |falling| :: falling[i] < falling[0]
    requires var d, rest := falling[0], falling[1..];
      var q' := q[..d] + q[d + 1..];
      Erasable(|q'|, rest + Zeros(k)) && |Without(q'[..w - 1], rest)| == w - 1 - |rest|
      && EraseEach(q', rest + Zeros(k)) == Without(q'[..w - 1], rest)[k..] + q'[w - 1..]
    ensures Erasable(|q|, falling + Zeros(k))
    ensures |Without(q[..w], falling)| == w - |falling|
    ensures EraseEach(q, falling + Zeros(k)) == Without(q[..w], falling)[k..] + q[w..]
  {
    var d, rest, order := falling[0], falling[1..], falling + Zeros(k);
    assert order[0] == d && order[1..] == rest + Zeros(k);
    assert Erasable(|q|, order) && EraseEach(q, order) == EraseEach(q[..d] + q[d + 1..], rest + Zeros(k));
    hide Without, EraseEach, Erasable;
    CutAt(q, d, w);
    WithoutHead(q[..w], d, rest);
    assert falling == [d] + rest;
  }

  lemma CutAt<T>(q: seq<T>, d: nat, w: nat)
    requires d < w <= |q|
    ensures var q' := q[..d] + q[d + 1..];
      q'[..w - 1] == q[..w][..d] + q[..w][d + 1..] && q'[w - 1..] == q[w..]
  {
  }

  lemma {:induction false} WithoutNone<T>(s: seq<T>)
    ensures Without(s, []) == s
    decreases |s|
  {
    if s != [] {
      WithoutNone(s[..|s| - 1]);
      assert s == s[..|s| - 1] + [s[|s| - 1]];
    }
  }

  /** Elements are left out only at the given positions. */
  lemma {:induction false} WithoutHas<T>(s: seq<T>, at: seq<nat>, i: nat)
    requires i < |s| && i !in at
    ensures s[i] in Without(s, at)
    decreases |s|
  {
    if i < |s| - 1 { WithoutHas(s[..|s| - 1], at, i); }
  }

  // ---- Counting positions ----

  lemma {:induction false} NoRepeatsCount(s: seq<nat>, v: nat)
    ensures NoRepeats(s) ==> multiset(s)[v] <= 1
    decreases |s|
  {
    if s != [] {
      var n := |s| - 1;
      NoRepeatsCount(s[..n], v);
      assert s == s[..n] + [s[n]];
      if s[n] == v && NoRepeats(s) { assert v !in s[..n]; }
    }
  }

  lemma RepeatsCount(s: seq<nat>, i: nat, j: nat)
    requires i < j < |s| && s[i] == s[j]
    ensures multiset(s)[s[i]] >= 2
  {
    assert s == s[..j] + [s[j]] + s[j + 1..];
    assert s[..j][i] == s[i];
    assert s[i] in s[..j];
  }

  lemma {:induction false} Pigeons(s: seq<nat>, w: nat)
    requires NoRepeats(s) && forall i: nat | i < |s| :: s[i] < w
    ensures |s| <= w
    decreases w
  {
    if s == [] {
      return;
    }
    assert s[0] < w;
    if i: nat :| i < |s| && s[i] == w - 1 {
      var t := s[..i] + s[i + 1..];
      assert forall j: nat | j < |t| :: t[j] == s[if j < i then j else j + 1];
      Pigeons(t, w - 1);
    } else {
      Pigeons(s, w - 1);
    }
  }

  /** The indices to erase: each is the position chosen or zero. */
  ghost predicate Picks(chosen: seq<nat>, idx: seq<nat>) {
    |idx| == |chosen| && forall i: nat | i < |idx| :: idx[i] == chosen[i] || idx[i] == 0
  }

  /** Sorted downwards, such indices are falling positions followed by zeros. */
  lemma SplitOrder(chosen: seq<nat>, idx: seq<nat>, order: seq<nat>, w: nat) returns (falling: seq<nat>, k: nat)
    requires NoRepeats(chosen) && Picks(chosen, idx)
    requires multiset(order) == multiset(idx) && NonRising(order)
    requires forall i: nat | i < |chosen| :: chosen[i] < w
    ensures order == falling + Zeros(k) && Falling(falling) && |falling| + k == |chosen| <= w
    ensures forall i: nat | i < |falling| :: 0 < falling[i] < w && falling[i] in chosen
  {
    Pigeons(chosen, w);
    assert |order| == |multiset(order)| == |idx|;
    var d := Positives(order);
    falling, k := order[..d], |order| - d;
    assert order[d..] == Zeros(k);
    assert order == order[..d] + order[d..];
    forall i: nat | i < d ensures falling[i] in chosen && falling[i] < w {
      Traced(chosen, idx, order, i);
    }
    forall i: nat, j: nat | i < j < d ensures falling[i] > falling[j] {
      OnceChosen(chosen, idx, order[i]);
      if falling[i] == falling[j] { RepeatsCount(order, i, j); }
    }
  }

  ghost function Positives(order: seq<nat>): (d: nat)
    ensures d <= |order| && forall i: nat | i < d :: order[i] > 0
    ensures d < |order| ==> order[d] == 0
  {
    if order == [] || order[0] == 0 then 0
    else
      var d := Positives(order[1..]);
      assert forall i: nat | 0 < i < 1 + d :: order[i] == order[1..][i - 1];
      1 + d
  }

  lemma Traced(chosen: seq<nat>, idx: seq<nat>, order: seq<nat>, i: nat)
    requires Picks(chosen, idx) && multiset(order) == multiset(idx) && i < |order| && order[i] > 0
    ensures order[i] in chosen
  {
    assert order[i] in multiset(order);
    assert order[i] in idx;
    var j: nat :| j < |idx| && idx[j] == order[i];
    assert idx[j] == chosen[j];
  }

  lemma {:induction false} OnceChosen(chosen: seq<nat>, idx: seq<nat>, v: nat)
    requires NoRepeats(chosen) && Picks(chosen, idx) && v > 0
    ensures multiset(idx)[v] <= multiset(chosen)[v] <= 1
    decreases |idx|
  {
    NoRepeatsCount(chosen, v);
    if idx != [] {
      var n := |idx| - 1;
      OnceChosen(chosen[..n], idx[..n], v);
      assert idx == idx[..n] + [idx[n]] && chosen == chosen[..n] + [chosen[n]];
    }
  }

  // ---- The window of a base trigger ----

  /** The number of leading elements not later than an instant. */
  ghost function Prefix(q: Queue, bound: real): (w: nat)
    requires Timed(q)
    ensures w <= |q| && forall i: nat | i < w :: Instant(q[i].time) <= bound
    ensures w < |q| ==> Instant(q[w].time) > bound
  {
    if q == [] || Instant(q[0].time) > bound then 0
    else
      var w := Prefix(q[1..], bound);
      assert forall i: nat | 0 < i < 1 + w :: q[i] == q[1..][i - 1];
      1 + w
  }

  lemma TimesAscend(q: Queue, i: nat, j: nat)
    requires Ascending(q) && Timed(q) && i <= j < |q|
    ensures Instant(q[i].time) <= Instant(q[j].time)
  {
    if i < j {
      assert Before(q[i], q[j]);
      OrderAgrees(q[i].time, q[j].time);
    }
  }

  lemma PrefixHolds(q: Queue, bound: real, p: nat)
    requires Ascending(q) && Timed(q) && p < |q| && Instant(q[p].time) <= bound
    ensures p < Prefix(q, bound)
  {
    var w := Prefix(q, bound);
    if w <= p { TimesAscend(q, w, p); }
  }

  /** The test of the pool loop on a trigger's time against the base trigger's. */
  predicate InWindow(baseLine: real, base: TriggerInfo, t: TriggerInfo) {
    var diffTime := Minus(base.time, t.time);
    !(diffTime < -baseLine || diffTime > 0.0)
  }

  /** A trigger in the window really is no later than the base line after the base trigger. */
  lemma WindowBound(baseLine: real, base: TriggerInfo, t: TriggerInfo)
    requires Valid(base.time) && Valid(t.time) && InWindow(baseLine, base, t)
    ensures Instant(base.time) <= Instant(t.time) <= Instant(base.time) + baseLine
  {
    OrderAgrees(base.time, t.time);
    MinusOpposite(base.time, t.time);
    if Less(base.time, t.time) { NeverUnderstates(t.time, base.time); }
  }

  /** For base lines of up to 40 seconds the test is exact within a minute, and holds of nothing in
      another minute, however close. */
  lemma WindowExact(baseLine: real, base: TriggerInfo, t: TriggerInfo)
    requires Valid(base.time) && Valid(t.time) && baseLine <= 40.0
    ensures InWindow(baseLine, base, t) <==>
      SameMinute(base.time, t.time) && Instant(base.time) <= Instant(t.time) <= Instant(base.time) + baseLine
  {
    hide Less, SameMinute, Instant, Minus;
    OrderAgrees(base.time, t.time);
    MinusOpposite(base.time, t.time);
    ExactWithinMinute(t.time, base.time);
    if 0.0 <= Minus(t.time, base.time) <= 40.0 { SmallDifferenceExact(t.time, base.time); }
    SameMinuteBack(base.time, t.time);
  }
}
