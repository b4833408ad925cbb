/** Chunked bodies as any peer may write them: sizes in either case, with leading blanks, zeros and
    prefixes, extensions, trailer lines.  What the reader makes of them. */
module PeerChunks {
  import opened Bytes
  import opened Hex
  import opened Chunked

  /** A hexadecimal digit and the case in which it is written. */
  datatype Digit = Digit(value: nat, upper: bool)

  predicate IsDigit(d: Digit) {
    d.value < 16
  }

  function DigitChar(d: Digit): byte
    requires IsDigit(d)
  {
    if d.value < 10 then (48 + d.value) as byte
    else if d.upper then (55 + d.value) as byte
    else (87 + d.value) as byte
  }

  function Chars(digits: seq<Digit>): (s: seq<byte>)
    requires forall i: nat | i < |digits| :: IsDigit(digits[i])
    ensures |s| == |digits| && forall i: nat | i < |s| :: s[i] == DigitChar(digits[i])
  {
    seq(|digits|, i requires 0 <= i < |digits| => DigitChar(digits[i]))
  }

  /** The number written. */
  function Number(digits: seq<Digit>): nat {
    if digits == [] then 0 else 16 * Number(digits[..|digits| - 1]) + digits[|digits| - 1].value
  }

  datatype Sign = Unsigned | Plus | Negative

  function SignChars(sign: Sign): seq<byte> {
    match sign
    case Unsigned => []
    case Plus => [43]
    case Negative => [45]
  }

  predicate IsBlank(space: seq<byte>) {
    forall i: nat | i < |space| :: space[i] == 32 || 9 <= space[i] <= 13
  }

  predicate IsPrefix(prefix: seq<byte>) {
    prefix == [] || prefix == [48, 120] || prefix == [48, 88]
  }

  /** What follows the digits of a number neither goes on with another nor makes a 0x prefix of a zero. */
  predicate EndsDigits(rest: seq<byte>) {
    rest != [] ==>
      !(48 <= rest[0] <= 57) && !(65 <= rest[0] <= 70) && !(97 <= rest[0] <= 102) && rest[0] != 88 && rest[0] != 120
  }

  predicate AreDigits(digits: seq<Digit>) {
    digits != [] && forall i: nat | i < |digits| :: IsDigit(digits[i])
  }

  /** A size as it may be written, and what stands between it and the line feed: a carriage return, or
      an extension. */
  datatype Size = Size(space: seq<byte>, plus: bool, prefix: seq<byte>, digits: seq<Digit>, rest: seq<byte>)

  predicate IsSize(s: Size) {
    && IsBlank(s.space) && IsPrefix(s.prefix) && AreDigits(s.digits) && EndsDigits(s.rest)
    && 10 !in s.space && 10 !in s.rest
  }

  function SizeChars(s: Size): seq<byte>
    requires IsSize(s)
  {
    s.space + (SignChars(if s.plus then Plus else Unsigned) + (s.prefix + (Chars(s.digits) + s.rest)))
  }

  function SizeLine(s: Size): seq<byte>
    requires IsSize(s)
  {
    SizeChars(s) + [10]
  }

  datatype PeerChunk = PeerChunk(size: Size, payload: seq<byte>)

  predicate IsChunk(c: PeerChunk) {
    IsSize(c.size) && c.payload != [] && Number(c.size.digits) == |c.payload|
  }

  predicate AreChunks(chunks: seq<PeerChunk>) {
    forall i: nat | i < |chunks| :: IsChunk(chunks[i])
  }

  function ChunkBytes(c: PeerChunk): seq<byte>
    requires IsChunk(c)
  {
    SizeLine(c.size) + (c.payload + [13, 10])
  }

  function AllBytes(chunks: seq<PeerChunk>): seq<byte>
    requires AreChunks(chunks)
  {
    if chunks == [] then [] else ChunkBytes(chunks[0]) + AllBytes(chunks[1..])
  }

  function Payload(chunks: seq<PeerChunk>): seq<byte> {
    if chunks == [] then [] else chunks[0].payload + Payload(chunks[1..])
  }

  /** A trailer line: not the empty line, which ends the trailer. */
  predicate IsTrailerLine(t: seq<byte>) {
    t != [] && t[|t| - 1] == 10 && 10 !in t[..|t| - 1] && t != [13, 10]
  }

  predicate IsTrailer(lines: seq<seq<byte>>) {
    forall i: nat | i < |lines| :: IsTrailerLine(lines[i])
  }

  function Lines(lines: seq<seq<byte>>): seq<byte> {
    if lines == [] then [] else lines[0] + Lines(lines[1..])
  }

  /** The end of a body: a size of zero, trailer lines and an empty line. */
  function Ending(last: Size, trailer: seq<seq<byte>>): seq<byte>
    requires IsSize(last)
  {
    SizeLine(last) + (Lines(trailer) + [13, 10])
  }

  function PeerBody(chunks: seq<PeerChunk>, last: Size, trailer: seq<seq<byte>>): seq<byte>
    requires AreChunks(chunks) && IsSize(last)
  {
    AllBytes(chunks) + Ending(last, trailer)
  }

  /** The reader can take the body: no chunk has as many bytes as the largest unsigned long, and no
      trailer line is longer than 8192 bytes with its end. */
  predicate Readable(chunks: seq<PeerChunk>, trailer: seq<seq<byte>>, max: nat) {
    (forall i: nat | i < |chunks| :: |chunks[i].payload| < max) && AllShort(trailer)
  }

  predicate AllShort(lines: seq<seq<byte>>) {
    forall i: nat | i < |lines| :: |lines[i]| <= 8192
  }

  // ---- Sizes ----

  /** A digit of either case is read as its value. */
  lemma DigitRead(d: Digit)
    requires IsDigit(d)
    ensures DigitValue(DigitChar(d)) == d.value && HexByte(DigitChar(d)) && (DigitChar(d) == 48 <==> d.value == 0)
    ensures DigitChar(d) != 120 && DigitChar(d) != 88
  {
  }

  lemma {:induction false} NumberRead(digits: seq<Digit>)
    requires forall i: nat | i < |digits| :: IsDigit(digits[i])
    ensures DigitsValue(Chars(digits)) == Number(digits)
    ensures forall i: nat | i < |digits| :: HexByte(Chars(digits)[i])
    decreases |digits|
  {
    hide HexByte, DigitChar, DigitValue;
    if digits != [] {
      var n := |digits| - 1;
      NumberRead(digits[..n]);
      DigitRead(digits[n]);
      assert Chars(digits)[..n] == Chars(digits[..n]);
    }
  }

  lemma NoDigit(b: byte)
    requires !(48 <= b <= 57) && !(65 <= b <= 70) && !(97 <= b <= 102)
    ensures DigitValue(b) == 16
  {
  }

  lemma NotSpecial(b: byte)
    requires HexByte(b)
    ensures !IsSpace(b) && b != 43 && b != 45 && DigitValue(b) < 16
  {
  }

  lemma {:induction false} BlankCount(space: seq<byte>, t: seq<byte>)
    requires IsBlank(space) && (t != [] ==> !IsSpace(t[0]))
    ensures SpaceCount(space + t) == |space|
    decreases |space|
  {
    if space == [] {
      assert space + t == t;
    } else {
      assert (space + t)[1..] == space[1..] + t;
      BlankCount(space[1..], t);
    }
  }

  /** The number written with any blanks, sign and prefix before digits of either case is that of the
      digits, or the largest one when it does not fit; a minus sign negates it modulo one more. */
  lemma NumberExact(space: seq<byte>, sign: Sign, prefix: seq<byte>, digits: seq<Digit>, rest: seq<byte>, max: nat)
    requires IsBlank(space) && IsPrefix(prefix) && AreDigits(digits) && EndsDigits(rest)
    ensures var n := Number(digits);
      StrToUL(space + (SignChars(sign) + (prefix + (Chars(digits) + rest))), max)
      == (if n > max then max else if sign.Negative? && n > 0 then max + 1 - n else n, true)
  {
    hide IsDigit, DigitChar, DigitsValue, Number, IsBlank, IsPrefix, SignChars, EndsDigits, Chars, StrToUL, IsSpace;
    hide SpaceCount, DigitCount, DigitValue;
    var a := Chars(digits);
    var t := SignChars(sign) + (prefix + (a + rest));
    DigitsCounted(digits, rest);
    SignAndPrefix(sign, prefix, digits, rest);
    BlankCount(space, t);
    Behind(space, t);
    Behind(a, rest);
    Read(space + t, |space|, sign, prefix, a + rest, |a|, max);
  }

  lemma Behind<T>(a: seq<T>, b: seq<T>)
    ensures (a + b)[|a|..] == b && (a + b)[..|a|] == a
  {
  }

  lemma DigitsCounted(digits: seq<Digit>, rest: seq<byte>)
    requires AreDigits(digits) && EndsDigits(rest)
    ensures DigitCount(Chars(digits) + rest) == |Chars(digits)| > 0
    ensures DigitsValue(Chars(digits)) == Number(digits)
  {
    hide DigitChar, HexByte;
    NumberRead(digits);
    if rest != [] { NoDigit(rest[0]); }
    CountStops(Chars(digits), rest);
  }

  /** What the characters before the digits are taken for. */
  lemma SignAndPrefix(sign: Sign, prefix: seq<byte>, digits: seq<Digit>, rest: seq<byte>)
    requires IsPrefix(prefix) && AreDigits(digits) && EndsDigits(rest)
    ensures var v := Chars(digits) + rest;
      var u := prefix + v;
      var t := SignChars(sign) + u;
      && t != [] && !IsSpace(t[0])
      && ((t[0] == 43 || t[0] == 45) <==> sign != Unsigned) && (t[0] == 45 <==> sign.Negative?)
      && (if sign == Unsigned then t == u else t[1..] == u)
      && (|u| > 2 && u[0] == 48 && (u[1] == 120 || u[1] == 88) && DigitValue(u[2]) < 16 <==> prefix != [])
      && (if prefix == [] then u == v else u[2..] == v)
  {
    hide DigitChar, HexByte, DigitValue;
    var v := Chars(digits) + rest;
    var u := prefix + v;
    DigitRead(digits[0]);
    assert HexByte(v[0]);
    NotSpecial(v[0]);
    SecondChar(digits, rest, v);
    assert prefix != [] ==> u[2..] == v && u[2] == v[0] && u[0] == 48 && (u[1] == 120 || u[1] == 88);
    assert sign != Unsigned ==> (SignChars(sign) + u)[1..] == u;
  }

  lemma Read(s: seq<byte>, k: nat, sign: Sign, prefix: seq<byte>, v: seq<byte>, c: nat, max: nat)
    requires k == SpaceCount(s) && c == DigitCount(v) > 0
    requires var u := prefix + v;
      var t := SignChars(sign) + u;
      && s[k..] == t && t != []
      && ((t[0] == 43 || t[0] == 45) <==> sign != Unsigned) && (t[0] == 45 <==> sign.Negative?)
      && (if sign == Unsigned then t == u else t[1..] == u)
      && (|u| > 2 && u[0] == 48 && (u[1] == 120 || u[1] == 88) && DigitValue(u[2]) < 16 <==> prefix != [])
      && (if prefix == [] then u == v else u[2..] == v)
    ensures var n := DigitsValue(v[..c]);
      StrToUL(s, max) == (if n > max then max else if sign.Negative? && n > 0 then max + 1 - n else n, true)
  {
    hide DigitsValue, SpaceCount, DigitCount, DigitValue;
  }

  /** No prefix where there is none. */
  lemma SecondChar(digits: seq<Digit>, rest: seq<byte>, v: seq<byte>)
    requires AreDigits(digits) && EndsDigits(rest) && v == Chars(digits) + rest
    ensures |v| > 1 ==> v[1] != 120 && v[1] != 88
  {
    hide DigitChar;
    if |digits| > 1 { DigitRead(digits[1]); }
  }

  /** Without a digit there is no number. */
  lemma NoNumber(space: seq<byte>, sign: Sign, rest: seq<byte>, max: nat)
    requires IsBlank(space) && EndsDigits(rest)
    requires rest != [] && sign == Unsigned ==> rest[0] != 43 && rest[0] != 45 && rest[0] != 32 && !(9 <= rest[0] <= 13)
    ensures StrToUL(space + (SignChars(sign) + rest), max) == (0, false)
  {
    hide SpaceCount;
    var t := SignChars(sign) + rest;
    BlankCount(space, t);
    assert (space + t)[|space|..] == t;
    assert sign != Unsigned ==> t[1..] == rest;
    assert sign == Unsigned ==> t == rest;
  }

  /** A size line has the value of its digits, or the largest one. */
  lemma SizeRead(s: Size, max: nat)
    requires IsSize(s)
    ensures StrToUL(SizeLine(s), max) == (if Number(s.digits) < max then Number(s.digits) else max, true)
    ensures 10 !in SizeChars(s)
  {
    hide StrToUL, Number, DigitChar, IsBlank;
    var sign := if s.plus then Plus else Unsigned;
    NumberExact(s.space, sign, s.prefix, s.digits, s.rest + [10], max);
    NestedSnoc(s.space, SignChars(sign), s.prefix, Chars(s.digits), s.rest, 10);
    forall i: nat | i < |s.digits| ensures Chars(s.digits)[i] != 10 { DigitRead(s.digits[i]); }
  }

  lemma NestedSnoc(a: seq<byte>, b: seq<byte>, c: seq<byte>, d: seq<byte>, e: seq<byte>, x: byte)
    ensures (a + (b + (c + (d + e)))) + [x] == a + (b + (c + (d + (e + [x]))))
  {
    Regroup(d, e, [x]);
    Regroup(c, d + e, [x]);
    Regroup(b, c + (d + e), [x]);
    Regroup(a, b + (c + (d + e)), [x]);
  }

  // ---- The writer is such a peer ----

  /** The digits of n, in lower case and without leading zeros. */
  lemma {:induction false} NumeralIsNumber(n: nat) returns (digits: seq<Digit>)
    ensures digits != [] && (digits[0].value == 0 ==> n == 0 && |digits| == 1)
    ensures forall i: nat | i < |digits| :: IsDigit(digits[i]) && !digits[i].upper
    ensures Number(digits) == n && Chars(digits) == Numeral(n)
    decreases n
  {
    var last := Digit(n % 16, false);
    if n < 16 {
      digits := [last];
      assert digits[..0] == [];
    } else {
      var front := NumeralIsNumber(n / 16);
      digits := front + [last];
      assert digits[..|digits| - 1] == front;
      assert Chars(digits) == Chars(front) + [DigitChar(last)];
    }
  }

  /** What the writer sends for a payload is its size in lower-case digits without leading zeros, a line
      end, the payload and a line end; its last chunk is a zero size and an empty trailer. */
  lemma WriterIsPeer(payload: seq<byte>) returns (c: PeerChunk)
    requires payload != []
    ensures IsChunk(c) && c.payload == payload && ChunkBytes(c) == Chunk(payload)
    ensures c.size == Size([], false, [], c.size.digits, [13]) && c.size.digits[0].value != 0
    ensures forall i: nat | i < |c.size.digits| :: !c.size.digits[i].upper
    ensures var zero := Size([], false, [], [Digit(0, false)], [13]); IsSize(zero) && Ending(zero, []) == LAST_CHUNK
  {
    hide Number, Numeral;
    var digits := NumeralIsNumber(|payload|);
    c := PeerChunk(Size([], false, [], digits, [13]), payload);
    ChunkSplit(payload);
    assert forall s: seq<byte> :: [] + s == s;
    ZeroNumber();
  }

  lemma ZeroNumber()
    ensures Chars([Digit(0, false)]) == [48]
  {
  }

  // ---- Bodies ----

  /** One chunk of a peer is read as one, or is too long. */
  lemma ChunkIsRead(data: seq<byte>, pos: nat, c: PeerChunk, max: nat)
    requires IsChunk(c) && SliceIs(data, pos, ChunkBytes(c))
    ensures pos + |ChunkBytes(c)| <= |data|
    ensures Decode(data, pos, max) ==
      if |c.payload| < max then Join(c.payload, Decode(data, pos + |ChunkBytes(c)|, max)) else Malformed
  {
    hide StrToUL, Decode, Join, LineEnd, Number, IsSize, SizeChars;
    var size := SizeChars(c.size);
    SizeRead(c.size, max);
    if |c.payload| < max {
      var e, d, f := ChunkLines(data, pos, size, c.payload, max);
      ChunkDecode(data, pos, e, d, f, SizeLine(c.size), c.payload, max);
    } else {
      SliceSplits(data, pos, SizeLine(c.size), c.payload + CRLF);
      LineOf(data, pos, size);
      TooLong(data, pos, SizeLine(c.size), max);
    }
  }

  lemma TooLong(data: seq<byte>, pos: nat, line: seq<byte>, max: nat)
    requires line != [] && SliceIs(data, pos, line) && LineEnd(data, pos) == pos + |line|
    requires StrToUL(line, max) == (max, true)
    ensures Decode(data, pos, max) == Malformed
  {
    hide StrToUL, LineEnd;
  }

  /** The trailer ends at its empty line, unless a line is too long. */
  lemma {:induction false} TrailerIsRead(data: seq<byte>, pos: nat, lines: seq<seq<byte>>)
    requires IsTrailer(lines) && SliceIs(data, pos, Lines(lines) + [13, 10])
    ensures pos <= |data|
    ensures TrailerEnd(data, pos) ==
      if AllShort(lines) then Some(pos + |Lines(lines)| + 2) else None
    decreases |lines|
  {
    hide LineEnd, TrailerEnd, AllShort, SliceIs;
    if lines == [] {
      NoLines();
      assert Lines(lines) + [13, 10] == [13, 10] == [13] + [10];
      LineOf(data, pos, [13]);
      TrailerStep(data, pos, [13, 10]);
    } else {
      var t, more := lines[0], Lines(lines[1..]) + [13, 10];
      assert Lines(lines) + [13, 10] == t + more by { Regroup(t, Lines(lines[1..]), [13, 10]); }
      SliceSplits(data, pos, t, more);
      assert t == t[..|t| - 1] + [10];
      LineOf(data, pos, t[..|t| - 1]);
      TrailerStep(data, pos, t);
      ShortFirst(lines);
      TrailerIsRead(data, pos + |t|, lines[1..]);
    }
  }

  lemma ShortFirst(lines: seq<seq<byte>>)
    requires lines != []
    ensures AllShort(lines) <==> |lines[0]| <= 8192 && AllShort(lines[1..])
  {
    assert lines == [lines[0]] + lines[1..];
  }

  lemma NoLines()
    ensures Lines([]) == [] && AllShort([])
  {
  }

  lemma TrailerStep(data: seq<byte>, pos: nat, t: seq<byte>)
    requires t != [] && SliceIs(data, pos, t) && LineEnd(data, pos) == pos + |t|
    ensures pos + |t| <= |data| && TrailerEnd(data, pos) ==
      if t == [13, 10] then Some(pos + |t|) else if |t| > 8192 then None else TrailerEnd(data, pos + |t|)
  {
    hide LineEnd;
  }

  lemma EndingIsRead(data: seq<byte>, pos: nat, last: Size, trailer: seq<seq<byte>>, max: nat)
    requires IsSize(last) && Number(last.digits) == 0 && max > 0 && IsTrailer(trailer)
    requires SliceIs(data, pos, Ending(last, trailer))
    ensures pos <= |data|
    ensures Decode(data, pos, max) == if AllShort(trailer)
      then Body([], pos + |Ending(last, trailer)|) else Malformed
  {
    hide StrToUL, Decode, LineEnd, TrailerEnd, Number, IsSize, SizeChars;
    var line := SizeLine(last);
    SizeRead(last, max);
    SliceSplits(data, pos, line, Lines(trailer) + [13, 10]);
    LineOf(data, pos, SizeChars(last));
    TrailerIsRead(data, pos + |line|, trailer);
    ZeroSize(data, pos, line, max);
  }

  lemma ZeroSize(data: seq<byte>, pos: nat, line: seq<byte>, max: nat)
    requires line != [] && SliceIs(data, pos, line) && LineEnd(data, pos) == pos + |line|
    requires StrToUL(line, max) == (0, true) && max > 0
    ensures pos + |line| <= |data| && Decode(data, pos, max) ==
      match TrailerEnd(data, pos + |line|)
      case None => Malformed
      case Some(z) => Body([], z)
  {
    hide StrToUL, LineEnd, TrailerEnd;
  }

  /** The body of any peer is read as the concatenation of its chunks, if and only if the reader can
      take it; whatever follows the body is left. */
  lemma {:induction false} BodyIsRead(data: seq<byte>, pos: nat, chunks: seq<PeerChunk>, last: Size,
                                      trailer: seq<seq<byte>>, max: nat)
    requires AreChunks(chunks) && IsSize(last) && Number(last.digits) == 0 && max > 0 && IsTrailer(trailer)
    requires SliceIs(data, pos, PeerBody(chunks, last, trailer))
    ensures pos <= |data|
    ensures Decode(data, pos, max) == if Readable(chunks, trailer, max)
      then Body(Payload(chunks), pos + |PeerBody(chunks, last, trailer)|) else Malformed
    decreases |chunks|
  {
    hide Decode, SliceIs, ChunkBytes, Ending, IsSize, IsChunk, Number, IsTrailer;
    var ending := Ending(last, trailer);
    if chunks == [] {
      assert AllBytes(chunks) + ending == ending;
      EndingIsRead(data, pos, last, trailer, max);
    } else {
      var c, more := ChunkBytes(chunks[0]), AllBytes(chunks[1..]) + ending;
      assert PeerBody(chunks, last, trailer) == c + more by { Regroup(c, AllBytes(chunks[1..]), ending); }
      SliceSplits(data, pos, c, more);
      ChunkIsRead(data, pos, chunks[0], max);
      BodyIsRead(data, pos + |c|, chunks[1..], last, trailer, max);
    }
  }

  /** Reading what a peer sends, whatever sizes the stream's reads return. */
  method ReadFromPeer(chunks: seq<PeerChunk>, last: Size, trailer: seq<seq<byte>>, after: seq<byte>,
                      ready: nat -> nat, max: nat)
    returns (ok: bool, content: seq<byte>)
    requires AreChunks(chunks) && IsSize(last) && Number(last.digits) == 0 && max > 0 && IsTrailer(trailer)
    ensures ok <==> Readable(chunks, trailer, max)
    ensures ok ==> content == Payload(chunks)
  {
    hide Decode, PeerBody, AreChunks, IsSize, Number, IsTrailer, Readable;
    var body := PeerBody(chunks, last, trailer);
    var strm := new Stream(body + after, ready);
    assert (body + after)[0..|body|] == body;
    BodyIsRead(strm.data, 0, chunks, last, trailer, max);
    var out := new Receiver();
    ok := ReadContentChunked(strm, out, max);
    content := out.content;
    assert forall s: seq<byte> :: [] + s == s;
  }
}
