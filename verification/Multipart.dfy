/** The body state of the incremental multipart parser: bytes come in pieces of any size, the content
    before the delimiter goes out as soon as it is certain. */
module Multipart {
  import opened Bytes

  const BODY: nat := 3
  const BOUNDARY: nat := 4

  class BodyParser {
    /** CRLF, two dashes and the boundary. */
    const crlfDashBoundary: seq<byte>
    /** Whether the content callback takes a piece, given what it has taken before. */
    const takes: (seq<byte>, seq<byte>) -> bool

    var buf: seq<byte>
    var bufSpos: nat
    var bufEpos: nat
    var state: nat
    var isValid: bool
    /** What the content callback has been given. */
    var delivered: seq<byte>

    /** A parser that has just read the header of a part; rest is what it has in its buffer. */
    constructor (boundary: seq<byte>, takes: (seq<byte>, seq<byte>) -> bool, rest: seq<byte>)
      ensures Valid() && state == BODY && delivered == [] && Window() == rest
      ensures crlfDashBoundary == CRLF + [DASH, DASH] + boundary && this.takes == takes
    {
      crlfDashBoundary := CRLF + [DASH, DASH] + boundary;
      this.takes := takes;
      buf, bufSpos, bufEpos := rest, 0, |rest|;
      state, isValid, delivered := BODY, false, [];
    }

    ghost predicate Valid()
      reads `buf, `bufSpos, `bufEpos
    {
      bufSpos <= bufEpos <= |buf| && |crlfDashBoundary| >= 4
    }

    /** The bytes waiting in the buffer. */
    ghost function Window(): (w: seq<byte>)
      requires Valid()
      reads `buf, `bufSpos, `bufEpos
      ensures |w| == bufEpos - bufSpos
    {
      buf[bufSpos..bufEpos]
    }

    lemma WindowFront(n: nat)
      requires Valid() && n <= |Window()|
      ensures buf[bufSpos..bufSpos + n] == Window()[..n]
    {
    }

    function BufSize(): nat
      requires bufSpos <= bufEpos
      reads this
    {
      bufEpos - bufSpos
    }

    method StartWith(spos: nat, epos: nat, b: seq<byte>) returns (r: bool)
      requires spos <= epos <= |buf|
      ensures r <==> |b| <= epos - spos && buf[spos..spos + |b|] == b
    {
      if epos - spos < |b| { return false; }
      for i := 0 to |b|
        invariant forall j: nat | j < i :: buf[j + spos] == b[j]
      {
        if buf[i + spos] != b[i] {
          assert buf[spos..spos + |b|][i] != b[i];
          return false;
        }
      }
      assert buf[spos..spos + |b|] == b;
      return true;
    }

    /** The offset of the first occurrence of s in the window, or the window's size. */
    method BufFind(s: seq<byte>) returns (r: nat)
      requires Valid() && s != []
      ensures r <= |Window()|
      ensures r < |Window()| ==> FirstAt(Window(), s, r)
      ensures r == |Window()| ==> !Occurs(Window(), s)
    {
      hide OccursAt;
      var c := s[0];
      ghost var w := Window();
      var off := bufSpos;
      while off < bufEpos
        invariant bufSpos <= off <= bufEpos
        invariant forall k: nat | k < off - bufSpos :: !OccursAt(w, s, k)
      {
        var pos := off;
        while true
          invariant off <= pos <= bufEpos
          invariant forall k: nat | k < pos - bufSpos :: !OccursAt(w, s, k)
          decreases bufEpos - pos
        {
          if pos == bufEpos {
            TooLong(w, s, |w|);
            return BufSize();
          }
          if buf[pos] == c { break; }
          HeadDiffers(w, s, pos - bufSpos);
          pos := pos + 1;
        }
        var remainingSize := bufEpos - pos;
        if |s| > remainingSize {
          TooLong(w, s, pos - bufSpos);
          return BufSize();
        }
        var here := StartWith(pos, bufEpos, s);
        StandsAt(buf, bufSpos, bufEpos, s, pos - bufSpos);
        if here { return pos - bufSpos; }
        off := pos + 1;
      }
      TooLong(w, s, |w|);
      return BufSize();
    }

    /** The first loop of buf_append. */
    method MoveToFront(remainingSize: nat)
      requires Valid() && remainingSize == |Window()|
      modifies `buf
      ensures |buf| == |old(buf)| && forall j: nat | j < remainingSize :: buf[j] == old(Window())[j]
    {
      ghost var w, b := Window(), buf;
      if remainingSize > 0 && bufSpos > 0 {
        for i := 0 to remainingSize
          invariant bufSpos == old(bufSpos) && bufEpos == old(bufEpos) && |buf| == |b|
          invariant forall j: nat | j < i :: buf[j] == w[j]
          invariant forall j: nat | bufSpos + i <= j < |buf| :: buf[j] == b[j]
        {
          buf := buf[i := buf[bufSpos + i]];
        }
      }
    }

    /** Moves the window to the front of the buffer and puts the data after it. */
    method BufAppend(data: seq<byte>)
      requires Valid()
      modifies `buf, `bufSpos, `bufEpos
      ensures Valid() && Window() == old(Window()) + data
    {
      ghost var w := Window();
      var remainingSize := BufSize();
      MoveToFront(remainingSize);
      bufSpos := 0;
      bufEpos := remainingSize;
      if remainingSize + |data| > |buf| {
        buf := buf + seq(remainingSize + |data| - |buf|, _ => 0 as byte);
      }
      for i := 0 to |data|
        invariant bufSpos == 0 && bufEpos == remainingSize && |buf| >= remainingSize + |data|
        invariant forall j: nat | j < remainingSize :: buf[j] == w[j]
        invariant forall j: nat | j < i :: buf[remainingSize + j] == data[j]
      {
        buf := buf[bufEpos + i := data[i]];
      }
      bufEpos := bufEpos + |data|;
      Pieced(buf, w, data);
    }

    method BufErase(size: nat)
      requires Valid() && size <= |Window()|
      modifies `bufSpos
      ensures Valid() && Window() == old(Window())[size..]
    {
      bufSpos := bufSpos + size;
    }

    /** The content callback. */
    method Deliver(piece: seq<byte>) returns (taken: bool)
      modifies `delivered
      ensures taken == takes(old(delivered), piece)
      ensures delivered == old(delivered) + piece
    {
      taken := takes(delivered, piece);
      delivered := delivered + piece;
    }

    /** In the body state: the bytes seen so far are what has been delivered and what is in the
        buffer, the delimiter has not come, and enough is held back for one that has begun. */
    ghost predicate InBody(stream: seq<byte>)
      reads this
    {
      && Valid() && state == BODY
      && delivered + Window() == stream
      && !Occurs(stream, crlfDashBoundary)
      && |Window()| <= |crlfDashBoundary|
      && (delivered != [] ==> |Window()| == |crlfDashBoundary|)
    }

    /** In the boundary state: the delimiter first stands at end; everything before it has been
        delivered, and what came after it is in the buffer. */
    ghost predicate AtBoundary(stream: seq<byte>, end: nat)
      reads this
    {
      && Valid() && state == BOUNDARY
      && FirstAt(stream, crlfDashBoundary, end)
      && delivered == stream[..end] && Window() == stream[end + |crlfDashBoundary|..]
    }

    /** The pieces of the body state's progress: the stream is what has been delivered and what waits,
        and the delimiter was not in its part before the last data. */
    ghost predicate Received(before: seq<byte>, data: seq<byte>)
      reads this
    {
      && Valid() && state == BODY
      && delivered + Window() == before + data && !Occurs(before, crlfDashBoundary)
      && (delivered != [] ==> |Window()| == |data| + |crlfDashBoundary|)
    }

    /** The callback has refused the piece that was delivered after taken.  What it has been given is
        all from before the first delimiter. */
    ghost predicate GaveUp(stream: seq<byte>, taken: seq<byte>)
      reads this
    {
      && !isValid && taken <= delivered && !takes(taken, delivered[|taken|..])
      && Before(stream, crlfDashBoundary, delivered)
    }

    /** The callback has taken what was delivered after before, if anything was. */
    ghost predicate Took(before: seq<byte>)
      reads this
    {
      before <= delivered && (delivered == before || takes(before, delivered[|before|..]))
    }

    /** The delimiter stands at pos in the window: what precedes it goes out. */
    method DeliverLast(pos: nat, ghost before: seq<byte>, ghost data: seq<byte>) returns (ok: bool, ghost end: nat)
      requires Received(before, data) && pos < |Window()| && FirstAt(Window(), crlfDashBoundary, pos)
      modifies this
      ensures ok ==> AtBoundary(before + data, end) && Took(old(delivered))
      ensures !ok ==> GaveUp(before + data, old(delivered))
    {
      hide Occurs, FirstAt, Before, Window;
      end := |delivered| + pos;
      FoundFirst(before, data, crlfDashBoundary, delivered, Window(), pos);
      FitsWindow(Window(), crlfDashBoundary, pos);
      WindowFront(pos);
      ok := Deliver(buf[bufSpos..bufSpos + pos]);
      Rejoined(old(delivered), buf[bufSpos..bufSpos + pos]);
      if !ok {
        isValid := false;
        BeforeFirst(before + data, crlfDashBoundary, end);
        return;
      }
      BufErase(pos + |crlfDashBoundary|);
      state := BOUNDARY;
    }

    /** The delimiter is not in the window: all but its own length goes out. */
    method DeliverSafe(ghost before: seq<byte>, ghost data: seq<byte>) returns (ok: bool)
      requires Received(before, data) && !Occurs(Window(), crlfDashBoundary) && |Window()| >= |crlfDashBoundary|
      modifies this
      ensures ok ==> InBody(before + data) && Took(old(delivered))
      ensures !ok ==> GaveUp(before + data, old(delivered))
    {
      hide Occurs, Before, Window;
      NotFound(before, data, crlfDashBoundary, delivered, Window());
      ok := true;
      var len := BufSize() - |crlfDashBoundary|;
      if len > 0 {
        WindowFront(len);
        Cut(delivered, Window(), len);
        ok := Deliver(buf[bufSpos..bufSpos + len]);
        Rejoined(old(delivered), buf[bufSpos..bufSpos + len]);
        if !ok {
          isValid := false;
          BeforeNone(before + data, crlfDashBoundary, |delivered|);
          return;
        }
        BufErase(len);
      }
    }

    /** parse, as long as the parser is in the body state. */
    method ParseBody(data: seq<byte>, ghost before: seq<byte>) returns (ok: bool, ghost end: nat)
      requires InBody(before)
      modifies this
      ensures ok && state == BODY ==> InBody(before + data)
      ensures ok && state != BODY ==> AtBoundary(before + data, end)
      ensures ok ==> Took(old(delivered))
      ensures !ok ==> GaveUp(before + data, old(delivered))
    {
      hide Occurs;
      BufAppend(data);
      assert delivered + Window() == before + data;
      ok, end := ScanBody(before, data);
    }

    /** The loop of parse in the body state, over whatever waits in the buffer. */
    method ScanBody(ghost before: seq<byte>, ghost data: seq<byte>) returns (ok: bool, ghost end: nat)
      requires Received(before, data)
      modifies this
      ensures ok && state == BODY ==> InBody(before + data)
      ensures ok && state != BODY ==> AtBoundary(before + data, end)
      ensures ok ==> Took(old(delivered))
      ensures !ok ==> GaveUp(before + data, old(delivered))
    {
      hide Occurs, FirstAt, Before;
      end := 0;
      if BufSize() > 0 {
        if |crlfDashBoundary| > BufSize() {
          StillAbsent(before, data, crlfDashBoundary, delivered, Window());
          return true, 0;
        }
        var pos := BufFind(crlfDashBoundary);
        if pos < BufSize() {
          ok, end := DeliverLast(pos, before, data);
        } else {
          ok := DeliverSafe(before, data);
        }
        return;
      }
      StillAbsent(before, data, crlfDashBoundary, delivered, Window());
      return true, 0;
    }
  }

  lemma Pieced<T>(b: seq<T>, w: seq<T>, data: seq<T>)
    requires |w| + |data| <= |b|
    requires forall j: nat | j < |w| :: b[j] == w[j]
    requires forall j: nat | j < |data| :: b[|w| + j] == data[j]
    ensures b[0..|w| + |data|] == w + data
  {
  }

  lemma Rejoined<T>(a: seq<T>, b: seq<T>)
    ensures a <= a + b && (a + b)[|a|..] == b
  {
  }

  lemma Cut<T>(a: seq<T>, w: seq<T>, n: nat)
    requires n <= |w|
    ensures (a + w[..n]) + w[n..] == a + w && a + w[..n] == (a + w)[..|a| + n]
  {
  }

  /** out begins the stream, and before its end no delimiter has begun. */
  ghost predicate Before(stream: seq<byte>, d: seq<byte>, out: seq<byte>) {
    && |out| + |d| <= |stream| && out <= stream
    && forall k: nat | k < |out| :: !OccursAt(stream, d, k)
  }

  lemma BeforeFirst(stream: seq<byte>, d: seq<byte>, end: nat)
    requires FirstAt(stream, d, end)
    ensures end + |d| <= |stream| && Before(stream, d, stream[..end])
  {
  }

  lemma BeforeNone(stream: seq<byte>, d: seq<byte>, n: nat)
    requires !Occurs(stream, d) && n + |d| <= |stream|
    ensures Before(stream, d, stream[..n])
  {
  }

  /** What precedes the delimiter in what has come so far precedes it in the whole stream. */
  lemma BeforeMore(stream: seq<byte>, whole: seq<byte>, d: seq<byte>, out: seq<byte>)
    requires stream <= whole && Before(stream, d, out)
    ensures Before(whole, d, out)
  {
    forall k: nat | k < |out| ensures !OccursAt(whole, d, k) { PrefixOccurs(stream, whole, d, k); }
  }

  lemma FitsWindow(w: seq<byte>, d: seq<byte>, pos: nat)
    requires FirstAt(w, d, pos)
    ensures pos + |d| <= |w|
  {
  }

  lemma TooLong(w: seq<byte>, s: seq<byte>, from: nat)
    requires from <= |w| < from + |s|
    ensures forall k: nat | k >= from :: !OccursAt(w, s, k)
  {
  }

  lemma StandsAt(buf: seq<byte>, a: nat, b: nat, s: seq<byte>, k: nat)
    requires a <= b <= |buf| && k + |s| <= b - a
    ensures OccursAt(buf[a..b], s, k) <==> buf[a + k..a + k + |s|] == s
  {
    Subslice(buf, a, b, k, k + |s|);
  }

  lemma HeadDiffers(w: seq<byte>, s: seq<byte>, k: nat)
    requires k < |w| && s != [] && w[k] != s[0]
    ensures !OccursAt(w, s, k)
  {
    if k + |s| <= |w| { assert w[k..k + |s|][0] == w[k]; }
  }

  /** An occurrence in the stream so far cannot begin among the bytes already delivered. */
  lemma NotDelivered(stream: seq<byte>, data: seq<byte>, d: seq<byte>, out: seq<byte>, w: seq<byte>, k: nat)
    requires out + w == stream + data && !Occurs(stream, d)
    requires out != [] ==> |w| == |data| + |d|
    requires OccursAt(stream + data, d, k)
    ensures k >= |out|
  {
    if k < |out| {
      assert k + |d| <= |stream|;
      PrefixOccurs(stream, stream + data, d, k);
    }
  }

  lemma WindowOccurs(out: seq<byte>, w: seq<byte>, d: seq<byte>, k: nat)
    ensures OccursAt(w, d, k) <==> OccursAt(out + w, d, |out| + k)
  {
    var all := out + w;
    if k + |d| <= |w| {
      assert all[|out| + k..|out| + k + |d|] == w[k..k + |d|];
    }
  }

  lemma StillAbsent(stream: seq<byte>, data: seq<byte>, d: seq<byte>, out: seq<byte>, w: seq<byte>)
    requires out + w == stream + data && !Occurs(stream, d) && |d| > |w|
    requires out != [] ==> |w| == |data| + |d|
    ensures !Occurs(stream + data, d) && out == []
  {
  }

  lemma FoundFirst(stream: seq<byte>, data: seq<byte>, d: seq<byte>, out: seq<byte>, w: seq<byte>, pos: nat)
    requires out + w == stream + data && !Occurs(stream, d) && FirstAt(w, d, pos)
    requires out != [] ==> |w| == |data| + |d|
    ensures FirstAt(stream + data, d, |out| + pos)
    ensures out + w[..pos] == (stream + data)[..|out| + pos]
    ensures w[pos + |d|..] == (stream + data)[|out| + pos + |d|..]
  {
    WindowOccurs(out, w, d, pos);
    forall k: nat | k < |out| + pos ensures !OccursAt(stream + data, d, k) {
      if OccursAt(stream + data, d, k) {
        NotDelivered(stream, data, d, out, w, k);
        WindowOccurs(out, w, d, k - |out|);
      }
    }
  }

  lemma NotFound(stream: seq<byte>, data: seq<byte>, d: seq<byte>, out: seq<byte>, w: seq<byte>)
    requires out + w == stream + data && !Occurs(stream, d) && !Occurs(w, d)
    requires out != [] ==> |w| == |data| + |d|
    ensures !Occurs(stream + data, d)
  {
    forall k: nat ensures !OccursAt(stream + data, d, k) {
      if OccursAt(stream + data, d, k) {
        NotDelivered(stream, data, d, out, w, k);
        WindowOccurs(out, w, d, k - |out|);
      }
    }
  }

  /** How parsing a part body has ended. */
  datatype Ending = Delimited | Pending(held: seq<byte>) | Refused

  /** The content of a part does not depend on how the stream is cut into pieces, the first of which may
      wait in the buffer already: what is delivered is the bytes before the first delimiter; without a
      delimiter, all but the bytes still held back; and after a refusal, some of those bytes, the last
      of them refused. */
  method ParseAll(boundary: seq<byte>, takes: (seq<byte>, seq<byte>) -> bool, rest: seq<byte>, pieces: seq<seq<byte>>)
    returns (delivered: seq<byte>, ending: Ending)
    ensures var d := [13, 10, 45, 45] + boundary;
      var stream := rest + Concat(pieces);
      match ending
      case Delimited => exists end: nat :: FirstAt(stream, d, end) && delivered == stream[..end]
      case Pending(held) => !Occurs(stream, d) && delivered + held == stream && |held| <= |d|
      case Refused =>
        Before(stream, d, delivered) && exists n: nat :: n <= |delivered| && !takes(delivered[..n], delivered[n..])
  {
    hide Concat, Occurs, FirstAt, Before;
    var p := new BodyParser(boundary, takes, rest);
    ghost var whole := rest + Concat(pieces);
    NoOccurrence(p.crlfDashBoundary);
    assert p.crlfDashBoundary == [13, 10, 45, 45] + boundary;
    assert [] + p.Window() == [] + rest;
    var ok;
    ghost var end;
    ok, end := p.ScanBody([], rest);
    assert [] + rest == rest;
    if !ok {
      BeforeMore(rest, whole, p.crlfDashBoundary, p.delivered);
      return p.delivered, Refused;
    }
    if p.state != BODY {
      FoundInWhole(rest, whole, p.crlfDashBoundary, end);
      return p.delivered, Delimited;
    }
    FirstPieces(rest, pieces, 0);
    for i := 0 to |pieces|
      invariant p.InBody(rest + Concat(pieces[..i])) && fresh(p)
    {
      ghost var stream := rest + Concat(pieces[..i]);
      FirstPieces(rest, pieces, i + 1);
      OnePiece(rest, pieces, i);
      ghost var taken := p.delivered;
      ok, end := p.ParseBody(pieces[i], stream);
      if !ok {
        BeforeMore(stream + pieces[i], whole, p.crlfDashBoundary, p.delivered);
        assert p.delivered[..|taken|] == taken;
        return p.delivered, Refused;
      }
      if p.state != BODY {
        FoundInWhole(stream + pieces[i], whole, p.crlfDashBoundary, end);
        return p.delivered, Delimited;
      }
    }
    assert pieces[..|pieces|] == pieces;
    return p.delivered, Pending(p.buf[p.bufSpos..p.bufEpos]);
  }

  lemma FoundInWhole(part: seq<byte>, whole: seq<byte>, d: seq<byte>, end: nat)
    requires part <= whole && FirstAt(part, d, end)
    ensures FirstAt(whole, d, end) && end <= |part| && part[..end] == whole[..end]
  {
    FirstInPrefix(part, whole, d, end);
  }

  lemma NoOccurrence(d: seq<byte>)
    ensures d != [] ==> !Occurs([], d)
  {
  }

  lemma FirstPieces(rest: seq<byte>, pieces: seq<seq<byte>>, i: nat)
    requires i <= |pieces|
    ensures rest + Concat(pieces[..i]) <= rest + Concat(pieces)
    ensures rest <= rest + Concat(pieces) && (i == 0 ==> rest + Concat(pieces[..i]) == rest)
  {
    ConcatPrefix(pieces, i);
  }

  lemma OnePiece(rest: seq<byte>, pieces: seq<seq<byte>>, i: nat)
    requires i < |pieces|
    ensures rest + Concat(pieces[..i + 1]) == (rest + Concat(pieces[..i])) + pieces[i]
  {
    assert pieces[..i + 1][..i] == pieces[..i];
  }
}
