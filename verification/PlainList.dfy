/** The list of key/value pairs the ordered hash table stands for, and what each operation means
    on it. */
module PlainList {

  datatype Pair<K, V> = Pair(key: K, value: V)

  ghost predicate Distinct<K, V>(s: seq<Pair<K, V>>) {
    forall i: nat, j: nat | i < j < |s| :: s[i].key != s[j].key
  }

  /** The position of the first pair with the key, or the length when there is none. */
  function Position<K(==), V>(s: seq<Pair<K, V>>, key: K): (p: nat)
    ensures p <= |s|
    ensures p < |s| ==> s[p].key == key
    ensures forall i: nat | i < p :: s[i].key != key
  {
    if s == [] then 0 else if s[0].key == key then 0 else
      var p := Position(s[1..], key);
      assert forall i: nat | 0 < i < p + 1 :: s[i] == s[1..][i - 1];
      1 + p
  }

  lemma PositionUnique<K, V>(s: seq<Pair<K, V>>, i: nat)
    requires Distinct(s) && i < |s|
    ensures Position(s, s[i].key) == i
  {
  }

  lemma PositionAbsent<K, V>(s: seq<Pair<K, V>>, key: K)
    requires forall i: nat | i < |s| :: s[i].key != key
    ensures Position(s, key) == |s|
  {
  }

  function RemoveAt<T>(s: seq<T>, i: nat): (r: seq<T>)
    requires i < |s|
  {
    s[..i] + s[i + 1..]
  }

  function InsertAt<T>(s: seq<T>, i: nat, x: T): (r: seq<T>)
    requires i <= |s|
    ensures |r| == |s| + 1
  {
    s[..i] + [x] + s[i..]
  }

  lemma InsertedAt<T>(s: seq<T>, i: nat, x: T, j: nat)
    requires i <= |s| && j <= |s|
    ensures InsertAt(s, i, x)[j] == if j < i then s[j] else if j == i then x else s[j - 1]
  {
  }

  lemma RemovedAt<T>(s: seq<T>, i: nat, j: nat)
    requires i < |s| && j < |s| - 1
    ensures |RemoveAt(s, i)| == |s| - 1 && RemoveAt(s, i)[j] == s[if j < i then j else j + 1]
  {
  }

  lemma AppendIsInsert<T>(s: seq<T>, x: T)
    ensures InsertAt(s, |s|, x) == s + [x]
  {
  }

  lemma InsertThenRemove<T>(s: seq<T>, i: nat, x: T)
    requires i <= |s|
    ensures InsertAt(s, i, x)[i] == x && RemoveAt(InsertAt(s, i, x), i) == s
  {
  }

  /** The last element takes the place of the one removed. */
  function SwapRemove<T>(s: seq<T>, i: nat): (r: seq<T>)
    requires i < |s|
  {
    s[i := s[|s| - 1]][..|s| - 1]
  }

  lemma SwapThenDrop<T>(s: seq<T>, i: nat)
    requires i < |s|
    ensures RemoveAt(s[i := s[|s| - 1]][|s| - 1 := s[i]], |s| - 1) == SwapRemove(s, i)
    ensures i == |s| - 1 ==> RemoveAt(s, i) == SwapRemove(s, i)
  {
  }

  lemma SwapRemovedAt<T>(s: seq<T>, i: nat, j: nat)
    requires i < |s| && j < |s| - 1
    ensures |SwapRemove(s, i)| == |s| - 1 && SwapRemove(s, i)[j] == s[if j == i then |s| - 1 else j]
  {
  }

  function Keep<T>(s: seq<T>, drop: T -> bool): (r: seq<T>)
    ensures |r| <= |s|
  {
    if s == [] then []
    else Keep(s[..|s| - 1], drop) + if drop(s[|s| - 1]) then [] else [s[|s| - 1]]
  }

  function RemoveRange<T>(s: seq<T>, first: nat, last: nat): (r: seq<T>)
    requires first <= last <= |s|
  {
    s[..first] + s[last..]
  }

  lemma RangeRemovedAt<T>(s: seq<T>, first: nat, last: nat, j: nat)
    requires first <= last <= |s| && j < |s| - (last - first)
    ensures |RemoveRange(s, first, last)| == |s| - (last - first)
    ensures RemoveRange(s, first, last)[j] == s[if j < first then j else j + (last - first)]
  {
  }

  lemma {:induction false} KeepOrigin<T>(s: seq<T>, drop: T -> bool, v: nat) returns (w: nat)
    requires v < |Keep(s, drop)|
    ensures w < |s| && s[w] == Keep(s, drop)[v] && !drop(s[w])
  {
    var n := |s| - 1;
    if v < |Keep(s[..n], drop)| {
      w := KeepOrigin(s[..n], drop, v);
    } else {
      w := n;
    }
  }

  lemma {:induction false} KeepHas<T>(s: seq<T>, drop: T -> bool, w: nat)
    requires w < |s| && !drop(s[w])
    ensures s[w] in Keep(s, drop)
  {
    if w < |s| - 1 { KeepHas(s[..|s| - 1], drop, w); }
  }

  /** An element that is not dropped comes right after what is kept of those before it. */
  lemma {:induction false} KeepAt<T>(s: seq<T>, drop: T -> bool, w: nat)
    requires w < |s| && !drop(s[w])
    ensures Keep(s[..w], drop) + [s[w]] <= Keep(s, drop)
    decreases |s|
  {
    var n := |s| - 1;
    if w < n {
      KeepAt(s[..n], drop, w);
      assert s[..n][..w] == s[..w];
    }
  }

  lemma {:induction false} KeepDistinct<K, V>(s: seq<Pair<K, V>>, drop: Pair<K, V> -> bool)
    requires Distinct(s)
    ensures Distinct(Keep(s, drop))
    decreases |s|
  {
    if s != [] {
      var n := |s| - 1;
      KeepDistinct(s[..n], drop);
      var r := Keep(s[..n], drop);
      forall v: nat | v < |r| ensures r[v].key != s[n].key {
        var w := KeepOrigin(s[..n], drop, v);
      }
    }
  }

  /** Nothing is dropped from a list none of whose elements the predicate selects. */
  lemma {:induction false} KeepAll<T>(s: seq<T>, drop: T -> bool)
    requires forall x | x in s :: !drop(x)
    ensures Keep(s, drop) == s
  {
    if s != [] {
      KeepAll(s[..|s| - 1], drop);
      assert s == s[..|s| - 1] + [s[|s| - 1]];
    }
  }

  lemma {:induction false} KeepStep<T>(s: seq<T>, drop: T -> bool, i: nat)
    requires i < |s|
    ensures Keep(s[..i + 1], drop) == Keep(s[..i], drop) + if drop(s[i]) then [] else [s[i]]
  {
    assert s[..i + 1][..i] == s[..i];
  }
}
