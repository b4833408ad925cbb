/** What a bucket array says: which value positions it lists and under which truncated hash.  The
    listing is a map from positions to hashes, and a bucket array represents it when the occupied
    buckets and the entries of the map are in bijection. */
module Directory {
  import opened RobinHood

  type Listing = map<nat, nat>

  ghost predicate Lists(b: seq<Bucket>, v: nat, h: nat) {
    exists i: nat :: i < |b| && b[i] == Entry(v, h)
  }

  ghost predicate Represents(b: seq<Bucket>, m: Listing) {
    && (forall i: nat | i < |b| && b[i].Entry? :: b[i].index in m && m[b[i].index] == b[i].hash)
    && (forall i: nat, j: nat | i < j < |b| && b[i].Entry? && b[j].Entry? :: b[i].index != b[j].index)
    && (forall v | v in m :: Lists(b, v, m[v]))
  }

  lemma ListedHash(b: seq<Bucket>, m: Listing, i: nat)
    requires Represents(b, m) && i < |b| && b[i].Entry?
    ensures b[i].index in m && m[b[i].index] == b[i].hash
  {
  }

  /** Placing a pending entry in an empty bucket. */
  lemma Put(b: seq<Bucket>, m: Listing, i: nat, v: nat)
    requires v in m && Represents(b, m - {v}) && i < |b| && b[i].Empty?
    ensures Represents(b[i := Entry(v, m[v])], m)
  {
    var c := b[i := Entry(v, m[v])];
    forall w | w in m ensures Lists(c, w, m[w]) {
      if w == v {
        assert c[i] == Entry(v, m[v]);
      } else {
        assert Lists(b, w, (m - {v})[w]);
        var j: nat :| j < |b| && b[j] == Entry(w, m[w]);
        assert c[j] == Entry(w, m[w]);
      }
    }
  }

  /** Exchanging a pending entry with the content of an occupied bucket. */
  lemma Exchange(b: seq<Bucket>, m: Listing, i: nat, v: nat)
    requires v in m && Represents(b, m - {v}) && i < |b| && b[i].Entry?
    ensures var w := b[i].index;
            w in m && m[w] == b[i].hash && Represents(b[i := Entry(v, m[v])], m - {w})
  {
    var w := b[i].index;
    var c := b[i := Entry(v, m[v])];
    forall u | u in m - {w} ensures Lists(c, u, (m - {w})[u]) {
      if u == v {
        assert c[i] == Entry(v, m[v]);
      } else {
        assert Lists(b, u, (m - {v})[u]);
        var j: nat :| j < |b| && b[j] == Entry(u, m[u]);
        assert c[j] == Entry(u, m[u]);
      }
    }
  }

  /** Clearing a bucket forgets the position it held. */
  lemma Forget(b: seq<Bucket>, m: Listing, i: nat)
    requires Represents(b, m) && i < |b| && b[i].Entry?
    ensures Represents(b[i := Empty], m - {b[i].index})
  {
    var v := b[i].index;
    var c := b[i := Empty];
    forall u | u in m - {v} ensures Lists(c, u, (m - {v})[u]) {
      assert Lists(b, u, m[u]);
      var j: nat :| j < |b| && b[j] == Entry(u, m[u]);
      assert c[j] == Entry(u, m[u]);
    }
  }

  /** Moving an entry into an empty bucket changes nothing that is listed. */
  lemma Move(b: seq<Bucket>, m: Listing, i: nat, j: nat)
    requires Represents(b, m) && i < |b| && j < |b| && b[i].Empty? && b[j].Entry?
    ensures Represents(b[i := b[j]][j := Empty], m)
  {
    var c := b[i := b[j]][j := Empty];
    forall u | u in m ensures Lists(c, u, m[u]) {
      assert Lists(b, u, m[u]);
      var k: nat :| k < |b| && b[k] == Entry(u, m[u]);
      assert c[if k == j then i else k] == Entry(u, m[u]);
    }
  }

  /** set_index: the bucket of position v now says w, a position not listed before. */
  lemma Rename(b: seq<Bucket>, m: Listing, i: nat, w: nat)
    requires Represents(b, m) && i < |b| && b[i].Entry?
    requires w !in m - {b[i].index}
    ensures Represents(b[i := Entry(w, b[i].hash)], (m - {b[i].index})[w := b[i].hash])
  {
    var v := b[i].index;
    var c := b[i := Entry(w, b[i].hash)];
    var m' := (m - {v})[w := b[i].hash];
    forall u | u in m' ensures Lists(c, u, m'[u]) {
      if u == w {
        assert c[i] == Entry(w, b[i].hash);
      } else {
        assert Lists(b, u, m[u]);
        var j: nat :| j < |b| && b[j] == Entry(u, m[u]);
        assert c[j] == Entry(u, m[u]);
      }
    }
  }

  ghost function SwapListing(m: Listing, e: Bucket, f: Bucket): Listing
    requires e.Entry? && f.Entry?
  {
    m[f.index := e.hash][e.index := f.hash]
  }

  /** swap(index_ref, index_ref): two buckets exchange the positions they hold. */
  lemma SwapIndexes(b: seq<Bucket>, m: Listing, i: nat, j: nat)
    requires Represents(b, m) && i < |b| && j < |b| && i != j && b[i].Entry? && b[j].Entry?
    ensures b[i].index != b[j].index
    ensures Represents(b[i := Entry(b[j].index, b[i].hash)][j := Entry(b[i].index, b[j].hash)],
                       SwapListing(m, b[i], b[j]))
  {
    var v, w := b[i].index, b[j].index;
    assert v != w;
    var c := b[i := Entry(w, b[i].hash)][j := Entry(v, b[j].hash)];
    var m' := SwapListing(m, b[i], b[j]);
    forall u | u in m' ensures Lists(c, u, m'[u]) {
      if u == w {
        assert c[i] == Entry(w, m'[w]);
      } else if u == v {
        assert c[j] == Entry(v, m'[v]);
      } else {
        assert Lists(b, u, m[u]);
        var k: nat :| k < |b| && b[k] == Entry(u, m[u]);
        assert c[k] == Entry(u, m'[u]);
      }
    }
  }

  lemma DropLast(b: seq<Bucket>, m: Listing) returns (m': Listing)
    requires Represents(b, m) && b != []
    ensures Represents(b[..|b| - 1], m')
    ensures |m| == |m'| + if b[|b| - 1].Entry? then 1 else 0
  {
    hide Represents;
    var n := |b| - 1;
    assert b == b[..n] + [b[n]];
    if b[n].Empty? {
      m' := m;
      OneNotLost(b[..n], m);
    } else {
      m' := m - {b[n].index};
      ListedHash(b, m, n);
      OneLess(m, b[n].index);
      OneLost(b[..n], m, b[n]);
    }
  }

  lemma OneNotLost(c: seq<Bucket>, m: Listing)
    requires Represents(c + [Empty], m)
    ensures Represents(c, m)
  {
    var b := c + [Empty];
    assert forall i: nat | i < |c| :: b[i] == c[i];
    forall u | u in m ensures Lists(c, u, m[u]) {
      assert Lists(b, u, m[u]);
      var k: nat :| k < |b| && b[k] == Entry(u, m[u]);
      assert c[k] == Entry(u, m[u]);
    }
  }

  lemma OneLost(c: seq<Bucket>, m: Listing, e: Bucket)
    requires e.Entry? && Represents(c + [e], m)
    ensures Represents(c, m - {e.index})
  {
    var b := c + [e];
    assert b[|c|] == e && forall i: nat | i < |c| :: b[i] == c[i];
    forall u | u in m - {e.index} ensures Lists(c, u, m[u]) {
      assert Lists(b, u, m[u]);
      var k: nat :| k < |b| && b[k] == Entry(u, m[u]);
      assert c[k] == Entry(u, m[u]);
    }
  }

  lemma OneLess(m: Listing, v: nat)
    requires v in m
    ensures |m| == |m - {v}| + 1
  {
    assert (m - {v}).Keys == m.Keys - {v};
  }

  /** A bucket array lists no more positions than it has buckets, and as many only when full. */
  lemma {:induction false} Census(b: seq<Bucket>, m: Listing)
    requires Represents(b, m)
    ensures |m| <= |b|
    ensures |m| < |b| <==> HasRoom(b)
    decreases |b|
  {
    hide HasRoom;
    if b == [] {
      NothingListed(b, m);
    } else {
      var n := |b| - 1;
      var m' := DropLast(b, m);
      Census(b[..n], m');
      RoomInFront(b);
    }
  }

  lemma NothingListed(b: seq<Bucket>, m: Listing)
    requires Represents(b, m) && b == []
    ensures |m| == 0 && !HasRoom(b)
  {
    assert m.Keys == {};
  }

  lemma RoomInFront(b: seq<Bucket>)
    requires b != []
    ensures HasRoom(b) <==> HasRoom(b[..|b| - 1]) || b[|b| - 1].Empty?
  {
    var c := b[..|b| - 1];
    if HasRoom(c) {
      var i: nat :| i < |c| && c[i] == Empty;
      assert b[i] == Empty;
    }
    if HasRoom(b) {
      var i: nat :| i < |b| && b[i] == Empty;
      assert i < |c| ==> c[i] == Empty;
    }
  }

  /** Moving the positions at or above from by delta, and moving them back. */
  function ShiftPos(v: nat, from: nat, delta: int): nat
    requires from + delta >= 0
  {
    if v >= from then v + delta else v
  }

  function UnshiftPos(w: nat, from: nat, delta: int): nat
    requires from + delta >= 0
  {
    if w >= from + delta then w - delta else w
  }

  function Shifted(e: Bucket, from: nat, delta: int): Bucket
    requires from + delta >= 0
  {
    if e.Entry? then Entry(ShiftPos(e.index, from, delta), e.hash) else e
  }

  /** Shifting every bucket index turns the listing m into m' when the two correspond under the
      shift. */
  lemma ShiftListing(b: seq<Bucket>, m: Listing, c: seq<Bucket>, m': Listing, from: nat, delta: int)
    requires from + delta >= 0
    requires Represents(b, m) && |c| == |b|
    requires forall i: nat | i < |b| :: c[i] == Shifted(b[i], from, delta)
    requires forall v | v in m ::
      var w := ShiftPos(v, from, delta); w in m' && m'[w] == m[v] && UnshiftPos(w, from, delta) == v
    requires forall w | w in m' ::
      var v := UnshiftPos(w, from, delta); v in m && ShiftPos(v, from, delta) == w
    ensures Represents(c, m')
  {
    forall w | w in m' ensures Lists(c, w, m'[w]) {
      var v := UnshiftPos(w, from, delta);
      assert Lists(b, v, m[v]);
      var i: nat :| i < |b| && b[i] == Entry(v, m[v]);
      assert c[i] == Entry(w, m'[w]);
    }
    forall i: nat, j: nat | i < j < |c| && c[i].Entry? && c[j].Entry? ensures c[i].index != c[j].index {
      assert b[i].index in m && b[j].index in m;
    }
  }

  lemma ShiftKeepsHashes(b: seq<Bucket>, c: seq<Bucket>, from: nat, delta: int)
    requires from + delta >= 0
    requires |c| == |b| && forall i: nat | i < |b| :: c[i] == Shifted(b[i], from, delta)
    ensures SameHashes(b, c)
  {
  }

  /** Reading the buckets one by one: the listing of the first i of them grows by bucket i. */
  lemma ReadNext(b: seq<Bucket>, m: Listing, i: nat, sub: Listing)
    requires Represents(b, m) && i < |b|
    requires Represents(b[..i], sub) && sub.Keys <= m.Keys && forall v | v in sub :: sub[v] == m[v]
    ensures b[i].Empty? ==> Represents(b[..i + 1], sub)
    ensures b[i].Entry? ==>
      && b[i].index !in sub && b[i].index in m && m[b[i].index] == b[i].hash
      && |sub| < |m|
      && Represents(b[..i + 1], sub[b[i].index := b[i].hash])
  {
    hide Represents;
    assert b[..i + 1] == b[..i] + [b[i]];
    if b[i].Entry? {
      NotYetRead(b, m, i, sub);
      ListedHash(b, m, i);
      SmallerKeys(sub, m, b[i].index);
      OneMore(b[..i], sub, b[i]);
    } else {
      NoneMore(b[..i], sub);
    }
  }

  lemma NoneMore(c: seq<Bucket>, sub: Listing)
    requires Represents(c, sub)
    ensures Represents(c + [Empty], sub)
  {
    forall u | u in sub ensures Lists(c + [Empty], u, sub[u]) { ListsMore(c, c + [Empty], u, sub[u]); }
  }

  lemma OneMore(c: seq<Bucket>, sub: Listing, e: Bucket)
    requires Represents(c, sub) && e.Entry? && e.index !in sub
    ensures Represents(c + [e], sub[e.index := e.hash])
  {
    var d, sub' := c + [e], sub[e.index := e.hash];
    assert forall i: nat | i < |c| :: d[i] == c[i];
    forall u | u in sub' ensures Lists(d, u, sub'[u]) {
      if u == e.index {
        assert d[|c|] == Entry(u, sub'[u]);
      } else {
        ListsMore(c, d, u, sub[u]);
      }
    }
  }

  lemma NotYetRead(b: seq<Bucket>, m: Listing, i: nat, sub: Listing)
    requires Represents(b, m) && i < |b| && Represents(b[..i], sub) && b[i].Entry?
    ensures b[i].index !in sub
  {
    forall v | v in sub ensures v != b[i].index {
      assert Lists(b[..i], v, sub[v]);
      var j: nat :| j < i && b[..i][j] == Entry(v, sub[v]);
      assert b[j] == Entry(v, sub[v]);
    }
  }

  lemma ListsMore(c: seq<Bucket>, d: seq<Bucket>, v: nat, h: nat)
    requires Lists(c, v, h) && c <= d
    ensures Lists(d, v, h)
  {
    var j: nat :| j < |c| && c[j] == Entry(v, h);
    assert d[j] == Entry(v, h);
  }

  lemma SmallerKeys(s: Listing, t: Listing, v: nat)
    requires s.Keys <= t.Keys && v in t && v !in s
    ensures |s| < |t|
  {
    SubsetSize(s.Keys, t.Keys - {v});
    assert |s| == |s.Keys| && |t| == |t.Keys|;
  }

  lemma {:induction false} SubsetSize(s: set<nat>, t: set<nat>)
    requires s <= t
    ensures |s| <= |t|
  {
    if s != {} {
      var x :| x in s;
      SubsetSize(s - {x}, t - {x});
    }
  }

  /** A bucket array has only one listing. */
  lemma OneListing(b: seq<Bucket>, m: Listing, m': Listing)
    requires Represents(b, m) && Represents(b, m')
    ensures m == m'
  {
    forall v | v in m ensures v in m' && m'[v] == m[v] { assert Lists(b, v, m[v]); }
    forall v | v in m' ensures v in m { assert Lists(b, v, m'[v]); }
  }
}
