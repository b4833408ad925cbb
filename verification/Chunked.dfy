/** The chunked transfer coding: what a body says, and the reader over a stream that returns as much or
    as little per read as it likes.  The largest unsigned long is a parameter, max. */
module Chunked {
  import opened Bytes
  import opened Hex

  const RECV_BUFSIZ: nat := 4096
  const HEADER_MAX_LENGTH: nat := 8192
  const LINE_BUFSIZ: nat := 16

  /** A chunked body: its content and where it ends. */
  datatype Decoded = Malformed | Body(content: seq<byte>, end: nat)

  // ---- What a chunked body says ----

  /** One past the first line feed of data from pos on, or the end of the data. */
  function LineEnd(data: seq<byte>, pos: nat): (e: nat)
    requires pos < |data|
    ensures pos < e <= |data|
    ensures forall i: nat | pos <= i < e - 1 :: data[i] != LF
    ensures data[e - 1] == LF || e == |data|
    decreases |data| - pos
  {
    if data[pos] == LF || pos + 1 == |data| then pos + 1 else LineEnd(data, pos + 1)
  }

  /** The end of the trailer section that starts at pos: just after an empty line. */
  function TrailerEnd(data: seq<byte>, pos: nat): Option<nat>
    requires pos <= |data|
    decreases |data| - pos
  {
    if pos == |data| then None
    else
      var e := LineEnd(data, pos);
      if data[pos..e] == CRLF then Some(e)
      else if e - pos > HEADER_MAX_LENGTH then None
      else TrailerEnd(data, e)
  }

  /** The content of a chunked body that starts at pos, and where the body ends. */
  function Decode(data: seq<byte>, pos: nat, max: nat): Decoded
    requires pos <= |data|
    decreases |data| - pos
  {
    if pos == |data| then Malformed
    else
      var e := LineEnd(data, pos);
      var (len, number) := StrToUL(data[pos..e], max);
      if !number || len == max then Malformed
      else if len == 0 then
        (match TrailerEnd(data, e) case None => Malformed case Some(z) => Body([], z))
      else if e + len >= |data| then Malformed
      else
        var f := LineEnd(data, e + len);
        if data[e + len..f] != CRLF then Malformed
        else
          match Decode(data, f, max)
          case Malformed => Malformed
          case Body(rest, z) => Body(data[e..e + len] + rest, z)
  }

  /** One chunk. */
  function Chunk(payload: seq<byte>): seq<byte> {
    Numeral(|payload|) + CRLF + payload + CRLF
  }

  const LAST_CHUNK: seq<byte> := [48, CR, LF, CR, LF]

  // ---- The stream and the line reader ----

  lemma SliceGrows(data: seq<byte>, a: nat, b: nat, got: seq<byte>)
    requires a <= b < |data| && |got| == 1 && got == data[b..b + 1]
    ensures got[0] == data[b] && data[a..b + 1] == data[a..b] + [got[0]]
  {
  }

  /** A stream whose reads return at least one byte while there is one, and otherwise as many as the
      schedule has ready. */
  class Stream {
    const data: seq<byte>
    const ready: nat -> nat
    var pos: nat

    constructor (data: seq<byte>, ready: nat -> nat)
      ensures this.data == data && this.ready == ready && pos == 0
    {
      this.data, this.ready, pos := data, ready, 0;
    }

    method Read(size: nat) returns (got: seq<byte>)
      requires pos <= |data|
      modifies this`pos
      ensures pos == old(pos) + |got| <= |data| && |got| <= size && got == data[old(pos)..pos]
      ensures size > 0 && old(pos) < |data| ==> |got| > 0
    {
      var n := if ready(pos) < 1 then 1 else ready(pos);
      n := if n < size then n else size;
      n := if n < |data| - pos then n else |data| - pos;
      got := data[pos..pos + n];
      pos := pos + n;
    }
  }

  /** stream_line_reader: short lines live in a fixed buffer, longer ones move to a growable one. */
  class LineReader {
    const strm: Stream
    const fixedBuffer: array<byte>
    var fixedBufferUsedSize: nat
    var glowableBuffer: seq<byte>

    constructor (strm: Stream, size: nat)
      requires size > 1
      ensures this.strm == strm && fresh(fixedBuffer) && fixedBuffer.Length == size && Valid()
    {
      this.strm := strm;
      fixedBuffer := new byte[size];
      fixedBufferUsedSize, glowableBuffer := 0, [];
    }

    ghost predicate Valid()
      reads this, fixedBuffer
    {
      && fixedBuffer.Length > 1 && fixedBufferUsedSize < fixedBuffer.Length
      && (fixedBufferUsedSize > 0 ==> fixedBuffer[fixedBufferUsedSize] == 0)
      && (glowableBuffer != [] ==> fixedBufferUsedSize == fixedBuffer.Length - 1)
    }

    /** The current line: ptr() and size(). */
    function Line(): seq<byte>
      requires Valid()
      reads this, fixedBuffer
    {
      if glowableBuffer == [] then fixedBuffer[..fixedBufferUsedSize] else glowableBuffer
    }

    method Append(c: byte)
      requires Valid()
      modifies this`fixedBufferUsedSize, this`glowableBuffer, fixedBuffer
      ensures Valid() && Line() == old(Line()) + [c]
    {
      if fixedBufferUsedSize < fixedBuffer.Length - 1 {
        fixedBuffer[fixedBufferUsedSize] := c;
        fixedBufferUsedSize := fixedBufferUsedSize + 1;
        fixedBuffer[fixedBufferUsedSize] := 0;
      } else {
        if glowableBuffer == [] {
          assert fixedBuffer[fixedBufferUsedSize] == 0;
          glowableBuffer := fixedBuffer[..fixedBufferUsedSize];
        }
        glowableBuffer := glowableBuffer + [c];
      }
    }

    /** The start of getline. */
    method Clear()
      requires Valid()
      modifies this`fixedBufferUsedSize, this`glowableBuffer
      ensures Valid() && Line() == []
    {
      fixedBufferUsedSize := 0;
      glowableBuffer := [];
    }

    /** getline: whatever the length of the line, the two buffers together hold the plain line. */
    method GetLine() returns (ok: bool)
      requires Valid() && strm.pos <= |strm.data|
      modifies this`fixedBufferUsedSize, this`glowableBuffer, fixedBuffer, strm`pos
      ensures Valid() && strm.pos <= |strm.data|
      ensures ok <==> old(strm.pos) < |strm.data|
      ensures ok ==> strm.pos == LineEnd(strm.data, old(strm.pos)) && Line() == strm.data[old(strm.pos)..strm.pos]
      ensures !ok ==> strm.pos == old(strm.pos)
    {
      hide *;
      Clear();
      ghost var data, start := strm.data, strm.pos;
      var i := 0;
      while true
        invariant Valid() && strm.pos == start + i <= |data| && Line() == data[start..strm.pos]
        invariant forall j: nat | start <= j < strm.pos :: data[j] != LF
        decreases |data| - strm.pos
      {
        var got := strm.Read(1);
        if |got| == 0 {
          if i == 0 {
            return false;
          } else {
            break;
          }
        }
        var byte := got[0];
        SliceGrows(data, start, start + i, got);
        Append(byte);
        i := i + 1;
        if byte == LF { break; }
      }
      LineEndAt(data, start, strm.pos);
      return true;
    }
  }

  // ---- The reader ----

  /** The receiver of the content; it takes everything. */
  class Receiver {
    var content: seq<byte>

    constructor ()
      ensures content == []
    {
      content := [];
    }
  }

  /** read_content_with_length: len bytes, in reads of any size. */
  method ReadContentWithLength(strm: Stream, len: nat, out: Receiver) returns (ok: bool)
    requires strm.pos <= |strm.data|
    modifies strm`pos, out
    ensures strm.pos <= |strm.data|
    ensures ok <==> old(strm.pos) + len <= |strm.data|
    ensures ok ==> strm.pos == old(strm.pos) + len
                   && out.content == old(out.content) + strm.data[old(strm.pos)..strm.pos]
  {
    var r: nat := 0;
    while r < len
      invariant r <= len && strm.pos == old(strm.pos) + r <= |strm.data|
      invariant out.content == old(out.content) + strm.data[old(strm.pos)..strm.pos]
    {
      var readLen := len - r;
      var got := strm.Read(if readLen < RECV_BUFSIZ then readLen else RECV_BUFSIZ);
      if |got| == 0 { return false; }
      out.content := out.content + got;
      r := r + |got|;
    }
    return true;
  }

  /** The end of read_content_chunked: trailer lines up to an empty one. */
  method ReadTrailer(lineReader: LineReader) returns (ok: bool)
    requires lineReader.Valid() && lineReader.strm.pos <= |lineReader.strm.data|
    modifies lineReader, lineReader.fixedBuffer, lineReader.strm`pos
    ensures lineReader.strm.pos <= |lineReader.strm.data|
    ensures match TrailerEnd(lineReader.strm.data, old(lineReader.strm.pos))
      case None => !ok
      case Some(z) => ok && lineReader.strm.pos == z
  {
    ghost var data, start := lineReader.strm.data, lineReader.strm.pos;
    ok := lineReader.GetLine();
    if !ok { return false; }
    ghost var p := start;
    while lineReader.Line() != CRLF
      invariant lineReader.Valid() && p < |data| && lineReader.strm.pos == LineEnd(data, p)
      invariant lineReader.Line() == data[p..LineEnd(data, p)]
      invariant TrailerEnd(data, p) == TrailerEnd(data, start)
      decreases |data| - p
    {
      if |lineReader.Line()| > HEADER_MAX_LENGTH { return false; }
      p := lineReader.strm.pos;
      ok := lineReader.GetLine();
      if !ok { return false; }
    }
    return true;
  }

  /** A body decoded with some content received before. */
  function Join(before: seq<byte>, d: Decoded): Decoded {
    match d
    case Malformed => Malformed
    case Body(rest, z) => Body(before + rest, z)
  }

  /** The part of the loop of read_content_chunked after a chunk size: the chunk's data, its line end,
      and the next line. */
  method ReadChunk(lineReader: LineReader, chunkLen: nat, out: Receiver, ghost p: nat, max: nat)
    returns (ok: bool, ghost f: nat)
    requires lineReader.Valid() && 0 < chunkLen < max
    requires var data := lineReader.strm.data;
      && p < |data| && lineReader.strm.pos == LineEnd(data, p)
      && StrToUL(data[p..LineEnd(data, p)], max) == (chunkLen, true)
    modifies lineReader, lineReader.fixedBuffer, lineReader.strm`pos, out
    ensures lineReader.Valid() && lineReader.strm.pos <= |lineReader.strm.data|
    ensures !ok ==> Decode(lineReader.strm.data, p, max) == Malformed
    ensures var data := lineReader.strm.data;
      ok ==> p < f < |data| && lineReader.strm.pos == LineEnd(data, f) && lineReader.Line() == data[f..LineEnd(data, f)]
             && Join(out.content, Decode(data, f, max)) == Join(old(out.content), Decode(data, p, max))
  {
    hide *;
    ghost var data, e := lineReader.strm.data, lineReader.strm.pos;
    f := e;
    NoChunk(data, p, e, chunkLen, max);
    ok := ReadContentWithLength(lineReader.strm, chunkLen, out);
    if !ok { return; }
    ok := lineReader.GetLine();
    if !ok { return; }
    if lineReader.Line() != CRLF { return false, f; }
    f := lineReader.strm.pos;
    ChunkRead(data, p, e, chunkLen, f, old(out.content), max);
    ok := lineReader.GetLine();
  }

  /** read_content_chunked: for every stream, whatever its reads return, the content and the end that
      the data themselves say, or failure when they are malformed. */
  method ReadContentChunked(strm: Stream, out: Receiver, max: nat) returns (ok: bool)
    requires strm.pos <= |strm.data|
    modifies strm`pos, out
    ensures strm.pos <= |strm.data|
    ensures match Join(old(out.content), Decode(strm.data, old(strm.pos), max))
      case Malformed => !ok
      case Body(content, z) => ok && out.content == content && strm.pos == z
  {
    hide StrToUL;
    ghost var data, start, content0 := strm.data, strm.pos, out.content;
    var lineReader := new LineReader(strm, LINE_BUFSIZ);
    ok := lineReader.GetLine();
    if !ok { return false; }
    ghost var p := start;
    while true
      invariant lineReader.Valid() && lineReader.strm == strm && fresh(lineReader) && fresh(lineReader.fixedBuffer)
      invariant p < |data| && strm.pos == LineEnd(data, p) && lineReader.Line() == data[p..LineEnd(data, p)]
      invariant Join(out.content, Decode(data, p, max)) == Join(content0, Decode(data, start, max))
      decreases |data| - p
    {
      var (chunkLen, number) := StrToUL(lineReader.Line(), max);
      if !number || chunkLen == max {
        return false;
      }
      if chunkLen == 0 { break; }
      ok, p := ReadChunk(lineReader, chunkLen, out, p, max);
      if !ok { return; }
    }
    ok := ReadTrailer(lineReader);
    assert out.content + [] == out.content;
  }

  /** A line data[p..e] with a chunk size, that many bytes data[e..d] and a line end data[d..f]. */
  ghost predicate ChunkAt(data: seq<byte>, p: nat, e: nat, d: nat, f: nat, line: seq<byte>, payload: seq<byte>,
                          max: nat)
  {
    && p < |data| && e == LineEnd(data, p) && data[p..e] == line && StrToUL(line, max) == (|payload|, true)
    && 0 < |payload| != max && d == e + |payload| < |data| && data[e..d] == payload
    && f == LineEnd(data, d) && data[d..f] == CRLF
  }

  lemma DecodeStep(data: seq<byte>, p: nat, e: nat, len: nat, f: nat, max: nat)
    requires p < |data| && e == LineEnd(data, p) && StrToUL(data[p..e], max) == (len, true) && 0 < len != max
    requires e + len < |data| && f == LineEnd(data, e + len) && data[e + len..f] == CRLF
    ensures Decode(data, p, max) == Join(data[e..e + len], Decode(data, f, max))
  {
    hide StrToUL, LineEnd, TrailerEnd;
  }

  lemma ChunkDecode(data: seq<byte>, p: nat, e: nat, d: nat, f: nat, line: seq<byte>, payload: seq<byte>, max: nat)
    requires ChunkAt(data, p, e, d, f, line, payload, max)
    ensures p < |data| && f <= |data| && Decode(data, p, max) == Join(payload, Decode(data, f, max))
  {
    hide StrToUL, LineEnd, TrailerEnd, Decode, Join;
    DecodeStep(data, p, e, |payload|, f, max);
  }

  /** Too little data, or no line end after them, make the body malformed. */
  lemma NoChunk(data: seq<byte>, p: nat, e: nat, len: nat, max: nat)
    requires p < |data| && e == LineEnd(data, p) && StrToUL(data[p..e], max) == (len, true) && 0 < len != max
    ensures e + len >= |data| || data[e + len..LineEnd(data, e + len)] != CRLF ==> Decode(data, p, max) == Malformed
  {
    hide StrToUL, LineEnd, TrailerEnd;
  }

  lemma ChunkRead(data: seq<byte>, p: nat, e: nat, len: nat, f: nat, before: seq<byte>, max: nat)
    requires p < |data| && e == LineEnd(data, p) && StrToUL(data[p..e], max) == (len, true) && 0 < len != max
    requires e + len < |data| && f == LineEnd(data, e + len) && data[e + len..f] == CRLF
    ensures f == |data| ==> Decode(data, p, max) == Malformed
    ensures Join(before + data[e..e + len], Decode(data, f, max)) == Join(before, Decode(data, p, max))
  {
    hide StrToUL, LineEnd, TrailerEnd;
    DecodeStep(data, p, e, len, f, max);
    JoinJoin(before, data[e..e + len], Decode(data, f, max));
  }

  lemma JoinJoin(a: seq<byte>, b: seq<byte>, d: Decoded)
    ensures Join(a + b, d) == Join(a, Join(b, d))
  {
    if d.Body? { assert (a + b) + d.content == a + (b + d.content); }
  }

  // ---- Where a chunk stands in the data ----

  lemma {:induction false} LineEndAt(data: seq<byte>, pos: nat, e: nat)
    requires pos < e <= |data| && (data[e - 1] == LF || e == |data|)
    requires forall i: nat | pos <= i < e - 1 :: data[i] != LF
    ensures LineEnd(data, pos) == e
    decreases e - pos
  {
    if pos + 1 < e { LineEndAt(data, pos + 1, e); }
  }

  ghost predicate SliceIs(data: seq<byte>, pos: nat, s: seq<byte>) {
    pos + |s| <= |data| && data[pos..pos + |s|] == s
  }

  lemma SliceSplits(data: seq<byte>, pos: nat, s: seq<byte>, t: seq<byte>)
    requires SliceIs(data, pos, s + t)
    ensures SliceIs(data, pos, s) && SliceIs(data, pos + |s|, t)
  {
    var st := s + t;
    assert data[pos..pos + |s|] == data[pos..pos + |st|][..|s|] == st[..|s|] == s;
    assert data[pos + |s|..pos + |st|] == data[pos..pos + |st|][|s|..] == st[|s|..] == t;
  }

  /** A line feed at its end and nowhere else makes a slice a line. */
  lemma LineOf(data: seq<byte>, pos: nat, s: seq<byte>)
    requires SliceIs(data, pos, s + [LF]) && LF !in s
    ensures LineEnd(data, pos) == pos + |s| + 1
  {
    hide LineEnd;
    var line := s + [LF];
    forall i: nat | i < |line| ensures data[pos + i] == line[i] {
      assert data[pos + i] == data[pos..pos + |line|][i];
    }
    assert data[pos + |s|] == LF;
    forall i: nat | pos <= i < pos + |s| ensures data[i] != LF {
      assert data[pos + (i - pos)] == line[i - pos];
    }
    LineEndAt(data, pos, pos + |line|);
  }

  /** A chunk at pos is read as one. */
  lemma ReadsChunk(data: seq<byte>, pos: nat, payload: seq<byte>, max: nat)
    requires payload != [] && |payload| < max && SliceIs(data, pos, Chunk(payload))
    ensures pos + |Chunk(payload)| <= |data|
    ensures Decode(data, pos, max) == Join(payload, Decode(data, pos + |Chunk(payload)|, max))
  {
    hide *;
    var hex := Numeral(|payload|);
    ChunkSplit(payload);
    NumeralLine(|payload|, max);
    var e, d, f := ChunkLines(data, pos, hex + [CR], payload, max);
    ChunkDecode(data, pos, e, d, f, (hex + [CR]) + [LF], payload, max);
  }

  /** A size line, as many bytes as it says and a line end are a chunk. */
  lemma ChunkLines(data: seq<byte>, pos: nat, size: seq<byte>, payload: seq<byte>, max: nat)
    returns (e: nat, d: nat, f: nat)
    requires SliceIs(data, pos, (size + [LF]) + (payload + CRLF)) && 0 < |payload| < max
    requires StrToUL(size + [LF], max) == (|payload|, true) && LF !in size
    ensures ChunkAt(data, pos, e, d, f, size + [LF], payload, max) && f == pos + |size| + 1 + |payload| + 2
  {
    hide LineEnd, StrToUL;
    e := pos + |size| + 1;
    d := e + |payload|;
    f := d + 2;
    SliceSplits(data, pos, size + [LF], payload + CRLF);
    SliceSplits(data, e, payload, CRLF);
    assert CRLF == [CR] + [LF];
    LineOf(data, pos, size);
    LineOf(data, d, [CR]);
  }

  lemma ChunkSplit(payload: seq<byte>)
    ensures Chunk(payload) == (Numeral(|payload|) + CRLF) + (payload + CRLF)
    ensures Numeral(|payload|) + CRLF == (Numeral(|payload|) + [CR]) + [LF]
    ensures |Chunk(payload)| == |Numeral(|payload|)| + 2 + |payload| + 2
  {
    hide Numeral;
    Regroup(Numeral(|payload|) + CRLF, payload, CRLF);
  }

  lemma NumeralLine(n: nat, max: nat)
    ensures StrToUL(Numeral(n) + CRLF, max) == (if n < max then n else max, true)
    ensures LF !in Numeral(n) + [CR]
  {
    hide Numeral, StrToUL;
    NumeralDigits(n);
    ReadsNumeral(n, max);
    assert forall i: nat | i < |Numeral(n)| :: HexByte(Numeral(n)[i]);
  }

  /** A chunk of max bytes or more is not. */
  lemma RejectsChunk(data: seq<byte>, pos: nat, payload: seq<byte>, max: nat)
    requires |payload| >= max && SliceIs(data, pos, Chunk(payload))
    ensures pos <= |data| && Decode(data, pos, max) == Malformed
  {
    hide Numeral, StrToUL, LineEnd, SliceIs;
    var hex := Numeral(|payload|);
    ChunkSplit(payload);
    NumeralLine(|payload|, max);
    SliceSplits(data, pos, hex + CRLF, payload + CRLF);
    LineOf(data, pos, hex + [CR]);
    LineSlice(data, pos, hex + CRLF);
  }

  lemma LineSlice(data: seq<byte>, pos: nat, line: seq<byte>)
    requires SliceIs(data, pos, line) && line != []
    ensures pos < |data| && pos + |line| <= |data| && data[pos..pos + |line|] == line
  {
  }

  lemma ReadsLastChunk(data: seq<byte>, pos: nat, max: nat)
    requires SliceIs(data, pos, LAST_CHUNK) && max > 0
    ensures Decode(data, pos, max) == Body([], pos + 5)
  {
    hide Numeral, StrToUL, LineEnd, SliceIs;
    NumeralDigits(0);
    ReadsNumeral(0, max);
    var line := [48] + CRLF;
    assert LAST_CHUNK == line + CRLF;
    SliceSplits(data, pos, line, CRLF);
    assert line == [48, CR] + [LF] && CRLF == [CR] + [LF];
    LineOf(data, pos, [48, CR]);
    LineOf(data, pos + 3, [CR]);
    assert TrailerEnd(data, pos + 3) == Some(pos + 5);
    hide TrailerEnd;
  }
}
