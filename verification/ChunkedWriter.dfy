/** The writer of the chunked transfer coding, and what the reader makes of what it emits. */
module ChunkedWriter {
  import opened Bytes
  import opened Hex
  import opened Chunked

  /** What a content provider may do with its sink. */
  datatype SinkOp = Write(d: seq<byte>) | Done

  // ---- What goes out ----

  function EmittedBy(op: SinkOp): seq<byte> {
    match op
    case Write(d) => if d == [] then [] else Chunk(d)
    case Done => LAST_CHUNK
  }

  function Emitted(ops: seq<SinkOp>): seq<byte> {
    if ops == [] then [] else Emitted(ops[..|ops| - 1]) + EmittedBy(ops[|ops| - 1])
  }

  /** Whether there is more to come after one call of the provider: its last operation decides. */
  predicate GoesOn(call: seq<SinkOp>) {
    call == [] || (call[|call| - 1].Write? && call[|call| - 1].d != [])
  }

  /** How many of these calls are made: up to the first that ends the content. */
  function CallsMade(calls: seq<seq<SinkOp>>): (n: nat)
    ensures n <= |calls| && forall i: nat | i + 1 < n :: GoesOn(calls[i])
    ensures n < |calls| ==> n > 0 && !GoesOn(calls[n - 1])
  {
    if calls == [] then 0
    else if !GoesOn(calls[0]) then 1
    else
      var n := CallsMade(calls[1..]);
      assert forall i: nat | 0 < i && i + 1 < 1 + n :: calls[i] == calls[1..][i - 1];
      1 + n
  }

  /** The sink of write_content_chunked, over a stream that is always writable, without compression. */
  class ChunkedSink {
    var out: seq<byte>
    var offset: nat
    var dataAvailable: bool

    constructor ()
      ensures out == [] && offset == 0 && dataAvailable
    {
      out, offset, dataAvailable := [], 0, true;
    }

    /** data_sink.write: nothing goes out for an empty write, but it ends the content. */
    method Write(d: seq<byte>)
      modifies this
      ensures out == old(out) + EmittedBy(SinkOp.Write(d))
      ensures offset == old(offset) + |d| && dataAvailable == (d != [])
    {
      dataAvailable := |d| > 0;
      offset := offset + |d|;
      if |d| > 0 {
        var hex := FromIToHex(|d|);
        out := out + (hex + CRLF + d + CRLF);
      }
    }

    /** data_sink.done. */
    method Done()
      modifies this
      ensures out == old(out) + LAST_CHUNK && !dataAvailable && offset == old(offset)
    {
      dataAvailable := false;
      out := out + [48, CR, LF];
      out := out + CRLF;
      assert out == old(out) + LAST_CHUNK;
    }

    /** One call of the provider. */
    method Provide(call: seq<SinkOp>)
      requires dataAvailable
      modifies this
      ensures out == old(out) + Emitted(call) && dataAvailable == GoesOn(call)
    {
      hide EmittedBy;
      for i := 0 to |call|
        invariant out == old(out) + Emitted(call[..i]) && dataAvailable == GoesOn(call[..i])
      {
        assert call[..i + 1][..i] == call[..i];
        Regroup(old(out), Emitted(call[..i]), EmittedBy(call[i]));
        match call[i]
        case Write(d) => Write(d);
        case Done =>
          DoneEmits();
          Done();
      }
      assert call[..|call|] == call;
    }
  }

  lemma DoneEmits()
    ensures EmittedBy(Done) == LAST_CHUNK
  {
  }

  lemma {:induction false} EmittedJoins(a: seq<SinkOp>, b: seq<SinkOp>)
    ensures Emitted(a + b) == Emitted(a) + Emitted(b)
    decreases |b|
  {
    hide EmittedBy;
    if b == [] {
      assert a + b == a;
    } else {
      var n := |b| - 1;
      assert (a + b)[..|a| + n] == a + b[..n];
      EmittedJoins(a, b[..n]);
      Regroup(Emitted(a), Emitted(b[..n]), EmittedBy(b[n]));
    }
  }

  /** write_content_chunked, with a provider that does calls[i] with the sink when called for the i-th
      time and fails after that: what goes out is what the operations of the calls made emit, and it
      succeeds when a call has ended the content. */
  method WriteContentChunked(calls: seq<seq<SinkOp>>) returns (ok: bool, out: seq<byte>)
    ensures out == Emitted(Concat(calls[..CallsMade(calls)]))
    ensures ok <==> exists i: nat :: i < |calls| && !GoesOn(calls[i])
  {
    hide Emitted, GoesOn, Concat, CallsMade;
    var sink := new ChunkedSink();
    ghost var n := CallsMade(calls);
    var i := 0;
    NothingEmitted(calls);
    while sink.dataAvailable
      invariant fresh(sink) && i <= n && sink.out == Emitted(Concat(calls[..i]))
      invariant sink.dataAvailable ==> forall j: nat | j < i :: GoesOn(calls[j])
      invariant !sink.dataAvailable ==> i == n && i > 0 && !GoesOn(calls[i - 1])
      decreases sink.dataAvailable, |calls| - i
    {
      if i == |calls| {
        return false, sink.out;
      }
      MadeNext(calls, i);
      sink.Provide(calls[i]);
      i := i + 1;
    }
    return true, sink.out;
  }

  lemma NothingEmitted(calls: seq<seq<SinkOp>>)
    ensures Emitted(Concat(calls[..0])) == []
  {
  }

  lemma MadeNext(calls: seq<seq<SinkOp>>, i: nat)
    requires i < |calls| && i <= CallsMade(calls) && forall j: nat | j < i :: GoesOn(calls[j])
    ensures i < CallsMade(calls) && (!GoesOn(calls[i]) ==> CallsMade(calls) == i + 1)
    ensures Emitted(Concat(calls[..i + 1])) == Emitted(Concat(calls[..i])) + Emitted(calls[i])
  {
    hide GoesOn, Emitted, CallsMade;
    assert calls[..i + 1][..i] == calls[..i];
    EmittedJoins(Concat(calls[..i]), calls[i]);
  }

  // ---- Reading it back ----

  function Chunks(writes: seq<seq<byte>>): seq<byte> {
    if writes == [] then [] else Chunks(writes[..|writes| - 1]) + Chunk(writes[|writes| - 1])
  }

  /** The writes before the first done that are not empty. */
  function Payloads(ops: seq<SinkOp>): (writes: seq<seq<byte>>)
    ensures forall i: nat | i < |writes| :: writes[i] != []
  {
    if ops == [] || ops[0].Done? then [] else (if ops[0].d == [] then [] else [ops[0].d]) + Payloads(ops[1..])
  }

  /** What goes out after them: nothing, unless there is a done. */
  function Tail(ops: seq<SinkOp>): seq<byte> {
    if ops == [] then []
    else if ops[0].Done? then LAST_CHUNK + Emitted(ops[1..])
    else Tail(ops[1..])
  }

  lemma EmittedCons(ops: seq<SinkOp>)
    requires ops != []
    ensures Emitted(ops) == EmittedBy(ops[0]) + Emitted(ops[1..])
  {
    var first := [ops[0]];
    assert first[..0] == [];
    assert Emitted(first) == [] + EmittedBy(ops[0]) == EmittedBy(ops[0]);
    assert ops == first + ops[1..];
    EmittedJoins(first, ops[1..]);
  }

  lemma {:induction false} ChunksJoin(a: seq<seq<byte>>, b: seq<seq<byte>>)
    ensures Chunks(a + b) == Chunks(a) + Chunks(b)
    decreases |b|
  {
    hide Chunk;
    if b == [] {
      assert a + b == a;
    } else {
      var n := |b| - 1;
      assert (a + b)[..|a| + n] == a + b[..n];
      ChunksJoin(a, b[..n]);
      Regroup(Chunks(a), Chunks(b[..n]), Chunk(b[n]));
    }
  }

  lemma ChunksOne(w: seq<byte>)
    ensures Chunks([w]) == Chunk(w)
  {
    hide Chunk;
    assert [w][..0] == [];
    assert [] + Chunk(w) == Chunk(w);
  }

  lemma ChunksCons(writes: seq<seq<byte>>)
    requires writes != []
    ensures Chunks(writes) == Chunk(writes[0]) + Chunks(writes[1..])
  {
    assert writes == [writes[0]] + writes[1..];
    ChunksOne(writes[0]);
    ChunksJoin([writes[0]], writes[1..]);
  }

  /** What goes out is the chunks of the payloads and the tail. */
  lemma {:induction false} EmittedSplits(ops: seq<SinkOp>)
    ensures Emitted(ops) == Chunks(Payloads(ops)) + Tail(ops)
    ensures Tail(ops) == [] || LAST_CHUNK <= Tail(ops)
    ensures Tail(ops) != [] <==> Done in ops
    decreases |ops|
  {
    hide Emitted, Chunks, Chunk;
    if ops == [] {
      NoOps();
    } else {
      EmittedCons(ops);
      assert ops == [ops[0]] + ops[1..];
      match ops[0]
      case Done =>
        NoOps();
        assert EmittedBy(Done) + Emitted(ops[1..]) == [] + (LAST_CHUNK + Emitted(ops[1..]));
      case Write(d) =>
        EmittedSplits(ops[1..]);
        if d == [] {
          assert [] + Payloads(ops[1..]) == Payloads(ops[1..]);
          assert EmittedBy(Write(d)) + Emitted(ops[1..]) == Emitted(ops[1..]);
        } else {
          PayloadFirst(d, Payloads(ops[1..]));
          Regroup(Chunk(d), Chunks(Payloads(ops[1..])), Tail(ops[1..]));
        }
    }
  }

  lemma NoOps()
    ensures Emitted([]) == [] && Chunks([]) == []
  {
  }

  lemma PayloadFirst(d: seq<byte>, writes: seq<seq<byte>>)
    ensures Chunks([d] + writes) == Chunk(d) + Chunks(writes)
  {
    ChunksOne(d);
    ChunksJoin([d], writes);
  }

  predicate AllFit(writes: seq<seq<byte>>, max: nat) {
    forall i: nat | i < |writes| :: |writes[i]| < max
  }

  /** Chunks that stand at pos are read back: the content starts with the concatenation of the writes,
      and what follows them decides the rest. */
  lemma {:induction false} ReadsBack(data: seq<byte>, pos: nat, writes: seq<seq<byte>>, tail: seq<byte>, max: nat)
    requires AllFit(writes, max) && forall i: nat | i < |writes| :: writes[i] != []
    requires SliceIs(data, pos, Chunks(writes) + tail)
    ensures var end := pos + |Chunks(writes)|;
      end <= |data| && SliceIs(data, end, tail)
      && Decode(data, pos, max) == Join(Concat(writes), Decode(data, end, max))
    decreases |writes|
  {
    hide Chunk, Decode, Join, SliceIs, Concat, Chunks;
    if writes == [] {
      ReadsNone(data, pos, tail, max);
    } else {
      ReadsFirst(data, pos, writes, tail, max);
      var p := pos + |Chunk(writes[0])|;
      ReadsBack(data, p, writes[1..], tail, max);
      JoinJoin(writes[0], Concat(writes[1..]), Decode(data, p + |Chunks(writes[1..])|, max));
    }
  }

  lemma ReadsNone(data: seq<byte>, pos: nat, tail: seq<byte>, max: nat)
    requires SliceIs(data, pos, Chunks([]) + tail)
    ensures Chunks([]) == [] && Concat<byte>([]) == []
    ensures pos <= |data| && SliceIs(data, pos, tail) && Decode(data, pos, max) == Join([], Decode(data, pos, max))
  {
    hide Decode;
    assert Chunks([]) + tail == tail;
    var d := Decode(data, pos, max);
    if d.Body? { assert [] + d.content == d.content; }
  }

  /** The first chunk read, the rest still to be read. */
  lemma ReadsFirst(data: seq<byte>, pos: nat, writes: seq<seq<byte>>, tail: seq<byte>, max: nat)
    requires writes != [] && writes[0] != [] && |writes[0]| < max
    requires SliceIs(data, pos, Chunks(writes) + tail)
    ensures var p := pos + |Chunk(writes[0])|;
      && SliceIs(data, p, Chunks(writes[1..]) + tail) && p <= |data|
      && |Chunks(writes)| == |Chunk(writes[0])| + |Chunks(writes[1..])|
      && Concat(writes) == writes[0] + Concat(writes[1..])
      && Decode(data, pos, max) == Join(writes[0], Decode(data, p, max))
  {
    hide *;
    ChunksCons(writes);
    ConcatCons(writes);
    var c := Chunk(writes[0]);
    Regroup(c, Chunks(writes[1..]), tail);
    SliceSplits(data, pos, c, Chunks(writes[1..]) + tail);
    ReadsChunk(data, pos, writes[0], max);
  }

  /** A write that is too long ends the reading. */
  lemma RejectsLong(data: seq<byte>, writes: seq<seq<byte>>, k: nat, tail: seq<byte>, max: nat)
    requires data == Chunks(writes) + tail && forall i: nat | i < |writes| :: writes[i] != []
    requires k < |writes| && |writes[k]| >= max && AllFit(writes[..k], max)
    ensures Decode(data, 0, max) == Malformed
  {
    hide Chunk, Chunks, Decode, SliceIs, Concat;
    var a, b, c := writes[..k], writes[k], writes[k + 1..];
    assert writes == a + ([b] + c);
    ChunksJoin(a, [b] + c);
    PayloadFirst(b, c);
    Regroup(Chunk(b), Chunks(c), tail);
    Regroup(Chunks(a), Chunk(b) + Chunks(c), tail);
    WholeSlice(data);
    ReadsBack(data, 0, a, Chunk(b) + (Chunks(c) + tail), max);
    SliceSplits(data, |Chunks(a)|, Chunk(b), Chunks(c) + tail);
    RejectsChunk(data, |Chunks(a)|, b, max);
  }

  lemma WholeSlice(data: seq<byte>)
    ensures SliceIs(data, 0, data)
  {
    assert data[0..|data|] == data;
  }

  /** What the writer emits for any operations, read back: the concatenation of the writes before the
      first done, exactly when there is a done and none of these writes is too long. */
  lemma ReadsEmitted(ops: seq<SinkOp>, max: nat)
    requires max > 0
    ensures Decode(Emitted(ops), 0, max) ==
      if Done in ops && AllFit(Payloads(ops), max) then Body(Concat(Payloads(ops)), |Chunks(Payloads(ops))| + 5)
      else Malformed
  {
    hide Emitted, Chunks, Chunk, Decode, Concat, Payloads, Tail, SliceIs;
    var data, writes, tail := Emitted(ops), Payloads(ops), Tail(ops);
    EmittedSplits(ops);
    if AllFit(writes, max) {
      WholeSlice(data);
      ReadsBack(data, 0, writes, tail, max);
      if tail == [] {
        DecodeNothing(data, |Chunks(writes)|, max);
      } else {
        assert tail == LAST_CHUNK + tail[|LAST_CHUNK|..];
        SliceSplits(data, |Chunks(writes)|, LAST_CHUNK, tail[|LAST_CHUNK|..]);
        ReadsLastChunk(data, |Chunks(writes)|, max);
        assert Concat(writes) + [] == Concat(writes);
      }
    } else {
      var k := FirstLong(writes, max);
      RejectsLong(data, writes, k, tail, max);
    }
  }

  lemma DecodeNothing(data: seq<byte>, end: nat, max: nat)
    requires end == |data|
    ensures Decode(data, end, max) == Malformed
  {
  }

  lemma {:induction false} FirstLong(writes: seq<seq<byte>>, max: nat) returns (k: nat)
    requires !AllFit(writes, max)
    ensures k < |writes| && |writes[k]| >= max && AllFit(writes[..k], max)
    decreases |writes|
  {
    var n := |writes| - 1;
    if AllFit(writes[..n], max) {
      k := n;
    } else {
      k := FirstLong(writes[..n], max);
      assert writes[..n][..k] == writes[..k];
    }
  }

  /** Whatever the provider does, whatever sizes the stream's reads return and whatever the largest
      unsigned long is: reading what the writer emits yields the concatenation of the writes, exactly
      when the content is ended by a done and no write is too long. */
  method RoundTrip(calls: seq<seq<SinkOp>>, ready: nat -> nat, max: nat) returns (ok: bool, content: seq<byte>)
    requires max > 0
    ensures var ops := Concat(calls[..CallsMade(calls)]);
      && (ok <==> Done in ops && AllFit(Payloads(ops), max))
      && (ok ==> content == Concat(Payloads(ops)))
  {
    hide Decode, Concat, Chunks, Payloads, CallsMade, Emitted, AllFit, GoesOn;
    var written, data := WriteContentChunked(calls);
    ReadsEmitted(Concat(calls[..CallsMade(calls)]), max);
    var strm := new Stream(data, ready);
    var out := new Receiver();
    ok := ReadContentChunked(strm, out, max);
    content := out.content;
    assert forall s: seq<byte> :: [] + s == s;
  }

  /** A provider that makes one write per call and then ends the content. */
  function OneByOne(writes: seq<seq<byte>>): seq<seq<SinkOp>> {
    if writes == [] then [[Done]] else [[Write(writes[0])]] + OneByOne(writes[1..])
  }

  /** With non-empty writes all of it is carried out, and they are the content. */
  lemma {:induction false} OneByOneWrites(writes: seq<seq<byte>>)
    requires forall i: nat | i < |writes| :: writes[i] != []
    ensures var calls := OneByOne(writes);
      var ops := Concat(calls[..CallsMade(calls)]);
      CallsMade(calls) == |calls| && Done in ops && Payloads(ops) == writes
    decreases |writes|
  {
    hide Concat;
    var calls := OneByOne(writes);
    assert calls[..|calls|] == calls;
    if writes == [] {
      JustDone();
    } else {
      hide Payloads, CallsMade;
      OneByOneWrites(writes[1..]);
      var rest := OneByOne(writes[1..]);
      assert calls == [[Write(writes[0])]] + rest && rest[..|rest|] == rest;
      FirstCall(writes[0], rest);
      assert [writes[0]] + writes[1..] == writes;
    }
  }

  lemma JustDone()
    ensures Concat([[Done]]) == [Done] && CallsMade([[Done]]) == 1 && Payloads([Done]) == []
  {
    assert [[Done]][..0] == [];
  }

  lemma FirstCall(w: seq<byte>, rest: seq<seq<SinkOp>>)
    requires w != []
    ensures var calls := [[Write(w)]] + rest;
      && CallsMade(calls) == 1 + CallsMade(rest) && (Done in Concat(calls) <==> Done in Concat(rest))
      && Payloads(Concat(calls)) == [w] + Payloads(Concat(rest))
  {
    var calls := [[Write(w)]] + rest;
    assert calls[1..] == rest;
    ConcatCons(calls);
    hide Concat;
    var ops := Concat(calls);
    assert ops == [Write(w)] + Concat(rest) && ops[1..] == Concat(rest);
  }
}
