/** Bytes and occurrences of one byte string in another. */
module Bytes {

  newtype byte = x: int | 0 <= x < 256

  datatype Option<T> = None | Some(value: T)

  const CR: byte := 13
  const LF: byte := 10
  const DASH: byte := 45
  const CRLF: seq<byte> := [CR, LF]

  /** s stands in w at position k. */
  ghost predicate OccursAt(w: seq<byte>, s: seq<byte>, k: nat) {
    k + |s| <= |w| && w[k..k + |s|] == s
  }

  ghost predicate Occurs(w: seq<byte>, s: seq<byte>) {
    exists k: nat :: OccursAt(w, s, k)
  }

  /** k is the first position at which s stands in w. */
  ghost predicate FirstAt(w: seq<byte>, s: seq<byte>, k: nat) {
    OccursAt(w, s, k) && forall j: nat | j < k :: !OccursAt(w, s, j)
  }

  function Concat<T>(parts: seq<seq<T>>): (all: seq<T>)
  {
    if parts == [] then [] else Concat(parts[..|parts| - 1]) + parts[|parts| - 1]
  }

  lemma {:induction false} ConcatCons<T>(parts: seq<seq<T>>)
    requires parts != []
    ensures Concat(parts) == parts[0] + Concat(parts[1..])
    decreases |parts|
  {
    var n := |parts| - 1;
    if n > 0 {
      ConcatCons(parts[..n]);
      assert parts[..n][1..] == parts[1..][..n - 1];
      assert parts[1..][n - 1] == parts[n];
    } else {
      assert parts[..0] == [] && parts[1..] == [];
    }
  }

  lemma {:induction false} ConcatPrefix<T>(parts: seq<seq<T>>, n: nat)
    requires n <= |parts|
    ensures Concat(parts[..n]) <= Concat(parts)
    decreases |parts| - n
  {
    if n < |parts| {
      assert parts[..n + 1][..n] == parts[..n];
      ConcatPrefix(parts, n + 1);
    } else {
      assert parts[..n] == parts;
    }
  }

  /** Where s stands within a prefix of w it stands in w, and the other way round. */
  lemma PrefixOccurs(p: seq<byte>, w: seq<byte>, s: seq<byte>, k: nat)
    requires p <= w && k + |s| <= |p|
    ensures OccursAt(p, s, k) <==> OccursAt(w, s, k)
  {
    assert p[k..k + |s|] == w[k..k + |s|];
  }

  /** The first occurrence in a prefix is the first occurrence. */
  lemma FirstInPrefix(p: seq<byte>, w: seq<byte>, s: seq<byte>, k: nat)
    requires p <= w && FirstAt(p, s, k)
    ensures FirstAt(w, s, k)
  {
    PrefixOccurs(p, w, s, k);
    forall j: nat | j < k ensures !OccursAt(w, s, j) {
      PrefixOccurs(p, w, s, j);
    }
  }

  lemma Subslice<T>(s: seq<T>, a: nat, b: nat, i: nat, j: nat)
    requires a <= b <= |s| && i <= j <= b - a
    ensures s[a..b][i..j] == s[a + i..a + j]
  {
    var u, v := s[a..b][i..j], s[a + i..a + j];
    forall k: nat | k < |v| ensures u[k] == v[k] {
      assert u[k] == s[a..b][i + k] == s[a + (i + k)];
    }
  }

  lemma Regroup<T>(a: seq<T>, b: seq<T>, c: seq<T>)
    ensures (a + b) + c == a + (b + c)
  {
  }
}
