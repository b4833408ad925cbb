/** The base64 encoder: a 32-bit accumulator that meets the three-byte groups of section 4 of RFC 4648. */
module Base64 {
  import opened Bytes
  import BitMask

  // ---- The encoding by groups ----

  /** The symbol of a six-bit value: the entry v of the lookup table. */
  function Symbol(v: nat): (c: char)
    requires v < 64
  {
    if v < 26 then ('A' as int + v) as char
    else if v < 52 then ('a' as int + (v - 26)) as char
    else if v < 62 then ('0' as int + (v - 52)) as char
    else if v == 62 then '+' else '/'
  }

  /** The value of a symbol, 64 for any other character. */
  function SymbolValue(c: char): (v: nat)
    ensures v <= 64
  {
    if 'A' <= c <= 'Z' then c as int - 'A' as int
    else if 'a' <= c <= 'z' then c as int - 'a' as int + 26
    else if '0' <= c <= '9' then c as int - '0' as int + 52
    else if c == '+' then 62
    else if c == '/' then 63
    else 64
  }

  /** The symbols are those of the alphabet, in its order. */
  lemma SymbolExact(v: nat)
    requires v < 64
    ensures Symbol(v) == ("ABCDEFGHIJKLMNOPQRSTUVWXYZ" + "abcdefghijklmnopqrstuvwxyz" + "0123456789" + "+/")[v]
  {
    if v < 26 {
      UpperCase(v);
    } else if v < 52 {
      LowerCase(v - 26);
    } else if v < 62 {
      Digits(v - 52);
    }
  }

  lemma UpperCase(v: nat)
    requires v < 26
    ensures Symbol(v) == "ABCDEFGHIJKLMNOPQRSTUVWXYZ"[v]
  {
  }

  lemma LowerCase(v: nat)
    requires v < 26
    ensures Symbol(26 + v) == "abcdefghijklmnopqrstuvwxyz"[v]
  {
  }

  lemma Digits(v: nat)
    requires v < 10
    ensures Symbol(52 + v) == "0123456789"[v]
  {
  }

  // The six-bit values of three bytes a, b, c.

  function First(a: nat): (v: nat)
    requires a < 256
    ensures v < 64
  {
    a / 4
  }

  function Second(a: nat, b: nat): (v: nat)
    requires a < 256 && b < 256
    ensures v < 64
  {
    a % 4 * 16 + b / 16
  }

  function Third(b: nat, c: nat): (v: nat)
    requires b < 256 && c < 256
    ensures v < 64
  {
    b % 16 * 4 + c / 64
  }

  function Fourth(c: nat): (v: nat)
    ensures v < 64
  {
    c % 64
  }

  /** Three bytes as four symbols. */
  function Group(a: nat, b: nat, c: nat): (t: string)
    requires a < 256 && b < 256 && c < 256
    ensures |t| == 4
  {
    [Symbol(First(a)), Symbol(Second(a, b)), Symbol(Third(b, c)), Symbol(Fourth(c))]
  }

  /** One or two bytes at the end: zero bits fill the last symbol, padding fills the group. */
  function LastGroup(s: seq<byte>): (t: string)
    requires 1 <= |s| <= 2
    ensures |t| == 4
  {
    if |s| == 1 then
      [Symbol(First(s[0] as nat)), Symbol(Second(s[0] as nat, 0)), '=', '=']
    else
      [Symbol(First(s[0] as nat)), Symbol(Second(s[0] as nat, s[1] as nat)), Symbol(Third(s[1] as nat, 0)), '=']
  }

  /** The four symbols spell the 24 bits of the three bytes, six at a time. */
  lemma GroupExact(a: nat, b: nat, c: nat) returns (v: seq<nat>)
    requires a < 256 && b < 256 && c < 256
    ensures |v| == 4 && forall i: nat | i < 4 :: v[i] < 64 && Group(a, b, c)[i] == Symbol(v[i])
    ensures ((v[0] * 64 + v[1]) * 64 + v[2]) * 64 + v[3] == (a * 256 + b) * 256 + c
  {
    v := [First(a), Second(a, b), Third(b, c), Fourth(c)];
  }

  /** Padded groups spell their bytes followed by zero bits, up to the padding. */
  lemma LastGroupExact(s: seq<byte>)
    requires 1 <= |s| <= 2
    ensures var g := Group(s[0] as nat, if |s| == 2 then s[1] as nat else 0, 0);
      LastGroup(s) == g[..|s| + 1] + if |s| == 1 then "==" else "="
  {
  }

  function Encode(s: seq<byte>): string {
    if s == [] then []
    else if |s| < 3 then LastGroup(s)
    else Group(s[0] as nat, s[1] as nat, s[2] as nat) + Encode(s[3..])
  }

  // ---- The decoding ----

  /** The bytes of one group, the last one of the text or not; surplus bits must be zero. */
  function DecodeGroup(t: string, last: bool): Option<seq<byte>>
    requires |t| == 4
  {
    var a, b, c, d := SymbolValue(t[0]), SymbolValue(t[1]), SymbolValue(t[2]), SymbolValue(t[3]);
    if a == 64 || b == 64 then None
    else if last && t[2] == '=' && t[3] == '=' then
      if b % 16 == 0 then Some([(a * 4 + b / 16) as byte]) else None
    else if c == 64 then None
    else if last && t[3] == '=' then
      if c % 4 == 0 then Some([(a * 4 + b / 16) as byte, (b % 16 * 16 + c / 4) as byte]) else None
    else if d == 64 then None
    else Some([(a * 4 + b / 16) as byte, (b % 16 * 16 + c / 4) as byte, (c % 4 * 64 + d) as byte])
  }

  function Decode(t: string): Option<seq<byte>> {
    if t == [] then Some([])
    else if |t| < 4 then None
    else
      match DecodeGroup(t[..4], |t| == 4)
      case None => None
      case Some(x) =>
        match Decode(t[4..])
        case None => None
        case Some(y) => Some(x + y)
  }

  lemma SymbolInverse(v: nat, c: char)
    ensures v < 64 ==> SymbolValue(Symbol(v)) == v && Symbol(v) != '='
    ensures SymbolValue(c) < 64 ==> Symbol(SymbolValue(c)) == c
    ensures SymbolValue('=') == 64
  {
  }

  // ---- The accumulator ----

  /** An integer kept in 32 bits, two's complement. */
  function Int32(x: int): (r: int)
    ensures -0x8000_0000 <= r < 0x8000_0000
  {
    (x + 0x8000_0000) % 0x1_0000_0000 - 0x8000_0000
  }

  lemma Int32Low(x: int)
    ensures Int32(x) % 0x1_0000 == x % 0x1_0000
  {
    var q := (x + 0x8000_0000) / 0x1_0000_0000;
    var y := Int32(x);
    assert y == x - 0x1_0000_0000 * q;
    BitMask.DivModUnique(y, 0x1_0000, x / 0x1_0000 - 0x1_0000 * q, x % 0x1_0000);
  }

  /** (val >> k) & 0x3F; the shift of a negative number rounds down. */
  function Sextet(val: int, k: nat): (v: nat)
    ensures v < 64
  {
    (val / BitMask.Pow2(k)) % 64
  }

  /** The low sixteen bits decide the symbols that are pushed. */
  lemma SextetOf(val: int, k: nat, p: nat, c: nat)
    requires p == BitMask.Pow2(k) && 64 * p * c == 0x1_0000
    ensures Sextet(val, k) == val % 0x1_0000 / p % 64
  {
    var q, low := val / 0x1_0000, val % 0x1_0000;
    calc {
      val;
      q * (64 * p * c) + low;
      (q * 64 * c) * p + (low / p * p + low % p);
      (q * 64 * c + low / p) * p + low % p;
    }
    BitMask.DivModUnique(val, p, q * 64 * c + low / p, low % p);
    var s := low / p;
    BitMask.DivModUnique(val / p, 64, q * c + s / 64, s % 64);
  }

  lemma Sextets(val: int, low: nat)
    requires low == val % 0x1_0000
    ensures Sextet(val, 0) == low % 64
    ensures Sextet(val, 2) == low / 4 % 64
    ensures Sextet(val, 4) == low / 16 % 64
    ensures Sextet(val, 6) == low / 64 % 64
  {
    hide Sextet;
    assert BitMask.Pow2(2) == 4 && BitMask.Pow2(4) == 4 * BitMask.Pow2(2) && BitMask.Pow2(6) == 4 * BitMask.Pow2(4);
    SextetOf(val, 0, 1, 1024);
    SextetOf(val, 2, 4, 256);
    SextetOf(val, 4, 16, 64);
    SextetOf(val, 6, 64, 16);
  }

  /** The symbols pushed before the accumulator holds less than six new bits. */
  function Pushed(val: int, bits: nat): string {
    [Symbol(Sextet(val, bits))] + if bits < 6 then [] else Pushed(val, bits - 6)
  }

  /** What the loop has after the bytes s. */
  ghost predicate Accumulated(s: seq<byte>, out: string, val: int, valb: int) {
    var r := |s| % 3;
    var f := |s| - r;
    && valb == 2 * r - 6
    && (r == 0 ==> out == Encode(s))
    && (r == 1 ==> val % 0x100 == s[f] as int && out == Encode(s[..f]) + [Symbol(First(s[f] as nat))])
    && (r == 2 ==> val % 0x1_0000 == s[f] as int * 256 + s[f + 1] as int
                   && out == Encode(s[..f])
                             + [Symbol(First(s[f] as nat)), Symbol(Second(s[f] as nat, s[f + 1] as nat))])
  }

  lemma {:induction false} EncodeSplits(s: seq<byte>, t: seq<byte>)
    requires |s| % 3 == 0
    ensures Encode(s + t) == Encode(s) + Encode(t)
    decreases |s|
  {
    if s == [] {
      assert s + t == t;
    } else {
      EncodeSplits(s[3..], t);
      assert (s + t)[3..] == s[3..] + t;
      Regroup(Group(s[0] as nat, s[1] as nat, s[2] as nat), Encode(s[3..]), Encode(t));
    }
  }

  /** The low bits after one more byte. */
  lemma NextLow(val: int, x: byte)
    ensures Int32(Int32(val * 256) + x as int) % 0x1_0000 == val % 0x100 * 0x100 + x as int
  {
    hide Int32;
    var shifted := Int32(val * 256);
    Int32Low(val * 256);
    Int32Low(shifted + x as int);
    BitMask.DivModUnique(val * 256, 0x1_0000, val / 0x100, val % 0x100 * 0x100);
    BitMask.DivModUnique(shifted + x as int, 0x1_0000, shifted / 0x1_0000, val % 0x100 * 0x100 + x as int);
  }

  /** The six-bit values in two bytes. */
  lemma LowValues(h: nat, x: nat)
    requires h < 256 && x < 256
    ensures var low := h * 0x100 + x;
      low / 4 % 64 == First(x) && low / 16 % 64 == Second(h, x) && low / 64 % 64 == Third(h, x) && low % 64 == Fourth(x)
  {
    var low := h * 0x100 + x;
    BitMask.DivModUnique(low, 4, h * 64 + x / 4, x % 4);
    BitMask.DivModUnique(low / 4, 64, h, x / 4);
    BitMask.DivModUnique(low, 16, h * 16 + x / 16, x % 16);
    BitMask.DivModUnique(low / 16, 64, h / 4, Second(h, x));
    BitMask.DivModUnique(low, 64, h * 4 + x / 64, x % 64);
    BitMask.DivModUnique(low / 64, 64, h / 16, Third(h, x));
  }

  /** The symbols that a byte x after a byte h (and others before it) completes. */
  lemma Symbols(val: int, h: nat, x: nat)
    requires h < 256 && x < 256 && val % 0x1_0000 == h * 0x100 + x
    ensures Pushed(val, 2) == [Symbol(First(x))]
    ensures Pushed(val, 4) == [Symbol(Second(h, x))]
    ensures Pushed(val, 6) == [Symbol(Third(h, x)), Symbol(Fourth(x))]
  {
    hide Sextet, Symbol, First, Second, Third, Fourth;
    LowValues(h, x);
    Sextets(val, h * 0x100 + x);
    assert Pushed(val, 0) == [Symbol(Fourth(x))];
  }

  /** One more byte: the symbols pushed are those that become complete. */
  lemma Accumulate(s: seq<byte>, x: byte, out: string, val: int, valb: int)
    requires Accumulated(s, out, val, valb)
    ensures var val1 := Int32(Int32(val * 256) + x as int);
      valb + 8 >= 0 && Accumulated(s + [x], out + Pushed(val1, valb + 8), val1, (valb + 8) % 6 - 6)
  {
    hide Int32, Sextet, Pushed, Encode, Symbol, First, Second, Third, Fourth;
    var val1 := Int32(Int32(val * 256) + x as int);
    NextLow(val, x);
    var h := val % 0x100;
    Symbols(val1, h, x as nat);
    match |s| % 3
    case 0 => BitMask.DivModUnique(val1, 0x100, val1 / 0x1_0000 * 0x100 + h, x as int);
    case 1 => AccumulateSecond(s, x, out, val, val1);
    case _ => AccumulateThird(s, x, out, val, val1);
  }

  lemma AccumulateSecond(s: seq<byte>, x: byte, out: string, val: int, val1: int)
    requires |s| % 3 == 1 && Accumulated(s, out, val, -4)
    requires val1 % 0x1_0000 == val % 0x100 * 0x100 + x as int
    ensures Accumulated(s + [x], out + Pushed(val1, 4), val1, -2)
  {
    hide Int32, Sextet, Pushed, Encode, Symbol, First, Second, Third, Fourth;
    var f := |s| - 1;
    Symbols(val1, s[f] as nat, x as nat);
    assert (s + [x])[..f] == s[..f];
    Regroup(Encode(s[..f]), [Symbol(First(s[f] as nat))], Pushed(val1, 4));
  }

  lemma AccumulateThird(s: seq<byte>, x: byte, out: string, val: int, val1: int)
    requires |s| % 3 == 2 && Accumulated(s, out, val, -2)
    requires val1 % 0x1_0000 == val % 0x100 * 0x100 + x as int
    ensures Accumulated(s + [x], out + Pushed(val1, 6), val1, -6)
  {
    hide Int32, Sextet, Pushed, Encode, Symbol, First, Second, Third, Fourth;
    var f := |s| - 2;
    BitMask.DivModUnique(val, 0x100, val / 0x1_0000 * 0x100 + s[f] as int, s[f + 1] as int);
    Symbols(val1, s[f + 1] as nat, x as nat);
    GroupComplete(s[..f], s[f], s[f + 1], x);
    assert s + [x] == s[..f] + [s[f], s[f + 1], x];
  }

  lemma GroupComplete(s: seq<byte>, a: byte, b: byte, c: byte)
    requires |s| % 3 == 0
    ensures (Encode(s) + [Symbol(First(a as nat)), Symbol(Second(a as nat, b as nat))])
            + [Symbol(Third(b as nat, c as nat)), Symbol(Fourth(c as nat))] == Encode(s + [a, b, c])
  {
    hide Encode, Symbol, First, Second, Third, Fourth;
    EncodeSplits(s, [a, b, c]);
    EncodeGroup([a, b, c]);
  }

  lemma EncodeGroup(g: seq<byte>)
    requires |g| == 3
    ensures Encode(g) == Group(g[0] as nat, g[1] as nat, g[2] as nat)
  {
    assert g[3..] == [];
  }

  /** The padding that fills the last group of n symbols. */
  function Padding(n: nat): string
    decreases (4 - n % 4) % 4
  {
    if n % 4 == 0 then [] else ['='] + Padding(n + 1)
  }

  /** The symbol of the bits left over. */
  lemma LastSymbol(val: int, x: nat)
    requires x == val % 0x100
    ensures Sextet(Int32(val * 256), 4) == Second(x, 0) && Sextet(Int32(val * 256), 6) == Third(x, 0)
  {
    hide Sextet, Int32, Second, Third;
    var low := x * 0x100;
    Int32Low(val * 256);
    BitMask.DivModUnique(val * 256, 0x1_0000, val / 0x100, low);
    LowValues(x, 0);
    Sextets(Int32(val * 256), low);
  }

  lemma LowByte(val: int, h: nat, x: nat)
    requires h < 256 && x < 256 && val % 0x1_0000 == h * 256 + x
    ensures val % 0x100 == x
  {
    BitMask.DivModUnique(val, 0x100, val / 0x1_0000 * 0x100 + h, x);
  }

  lemma Finish(s: seq<byte>, out: string, val: int, valb: int)
    requires Accumulated(s, out, val, valb) && valb >= -6
    ensures var all := if valb > -6 then out + [Symbol(Sextet(Int32(val * 256), (valb + 8) as nat))] else out;
      all + Padding(|all|) == Encode(s)
  {
    hide Int32, Sextet, Symbol, Encode, Padding, First, Second, Third, Fourth;
    var f := |s| - |s| % 3;
    LengthOf(s[..f]);
    Paddings(|Encode(s[..f])|);
    LastSymbol(val, val % 0x100);
    if f == |s| {
      assert s[..f] == s;
    } else {
      assert s == s[..f] + s[f..];
      EncodeSplits(s[..f], s[f..]);
      EncodeLast(s[f..]);
      if f + 2 == |s| { LowByte(val, s[f] as nat, s[f + 1] as nat); }
    }
  }

  lemma EncodeLast(t: seq<byte>)
    requires 1 <= |t| <= 2
    ensures Encode(t) == LastGroup(t)
  {
  }

  lemma Paddings(n: nat)
    requires n % 4 == 0
    ensures Padding(n) == [] && Padding(n + 3) == ['='] && Padding(n + 2) == ['=', '=']
  {
    assert Padding(n + 4) == [];
  }

  lemma {:induction false} LengthOf(s: seq<byte>)
    ensures |Encode(s)| == 4 * ((|s| + 2) / 3)
    decreases |s|
  {
    hide Group, LastGroup;
    if |s| >= 3 { LengthOf(s[3..]); }
  }

  lemma PushOne(out: string, val: int, bits: nat)
    ensures bits < 6 ==> out + [Symbol(Sextet(val, bits))] == out + Pushed(val, bits)
    ensures bits >= 6 ==> (out + [Symbol(Sextet(val, bits))]) + Pushed(val, bits - 6) == out + Pushed(val, bits)
  {
    hide Sextet, Symbol;
    if bits >= 6 { Regroup(out, [Symbol(Sextet(val, bits))], Pushed(val, bits - 6)); }
  }

  lemma PadOne(out: string)
    ensures |out| % 4 == 0 ==> out + Padding(|out|) == out
    ensures |out| % 4 != 0 ==> (out + ['=']) + Padding(|out| + 1) == out + Padding(|out|)
  {
    if |out| % 4 != 0 { Regroup(out, ['='], Padding(|out| + 1)); }
  }

  lemma StartAccumulated(input: seq<byte>)
    ensures Accumulated(input[..0], [], 0, -6)
  {
  }

  method Base64Encode(input: seq<byte>) returns (out: string)
    ensures out == Encode(input)
  {
    hide *;
    out := [];
    var val, valb := 0, -6;
    StartAccumulated(input);
    for i := 0 to |input|
      invariant -6 <= valb <= -2 && valb % 2 == 0
      invariant Accumulated(input[..i], out, val, valb)
    {
      ghost var out0, val0, valb0 := out, val, valb;
      val := Int32(Int32(val * 256) + input[i] as int);
      valb := valb + 8;
      out, valb := PushAll(out, val, valb);
      Accumulate(input[..i], input[i], out0, val0, valb0);
      assert input[..i] + [input[i]] == input[..i + 1];
    }
    assert input[..|input|] == input;
    Finish(input, out, val, valb);
    if valb > -6 {
      out := out + [Symbol(Sextet(Int32(val * 256), valb + 8))];
    }
    out := Pad(out);
  }

  /** The inner loop: push the complete six-bit values. */
  method PushAll(out0: string, val: int, bits: nat) returns (out: string, valb: int)
    requires bits % 2 == 0
    ensures out == out0 + Pushed(val, bits) && valb == bits % 6 - 6
  {
    hide *;
    out, valb := out0, bits;
    ghost var pushed := 0;
    while valb >= 0
      invariant -6 <= valb && valb == bits - 6 * pushed
      invariant valb >= 0 ==> out + Pushed(val, valb) == out0 + Pushed(val, bits)
      invariant valb < 0 ==> out == out0 + Pushed(val, bits)
    {
      PushOne(out, val, valb);
      out := out + [Symbol(Sextet(val, valb))];
      valb := valb - 6;
      pushed := pushed + 1;
    }
    BitMask.DivModUnique(bits, 6, pushed - 1, valb + 6);
  }

  method Pad(out0: string) returns (out: string)
    ensures out == out0 + Padding(|out0|)
  {
    hide *;
    out := out0;
    while |out| % 4 != 0
      invariant out + Padding(|out|) == out0 + Padding(|out0|)
      decreases (4 - |out| % 4) % 4
    {
      PadOne(out);
      out := out + ['='];
    }
    PadOne(out);
  }

  // ---- Encoding and decoding are inverse ----

  lemma ThreeBytes(a: nat, b: nat, c: nat)
    requires a < 256 && b < 256 && c < 256
    ensures First(a) * 4 + Second(a, b) / 16 == a
    ensures Second(a, b) % 16 * 16 + Third(b, c) / 4 == b
    ensures Third(b, c) % 4 * 64 + Fourth(c) == c
  {
    BitMask.DivModUnique(Second(a, b), 16, a % 4, b / 16);
    BitMask.DivModUnique(Third(b, c), 4, b % 16, c / 64);
  }

  lemma GroupDecodes(a: nat, b: nat, c: nat, last: bool)
    requires a < 256 && b < 256 && c < 256
    ensures DecodeGroup(Group(a, b, c), last) == Some([a as byte, b as byte, c as byte])
  {
    hide Symbol, SymbolValue, First, Second, Third, Fourth;
    ThreeBytes(a, b, c);
    SymbolInverse(First(a), 'A');
    SymbolInverse(Second(a, b), 'A');
    SymbolInverse(Third(b, c), 'A');
    SymbolInverse(Fourth(c), 'A');
  }

  lemma LastGroupDecodes(s: seq<byte>)
    requires 1 <= |s| <= 2
    ensures DecodeGroup(LastGroup(s), true) == Some(s)
  {
    hide Symbol, SymbolValue;
    var a := s[0] as nat;
    var b := if |s| == 2 then s[1] as nat else 0;
    SymbolInverse(First(a), '=');
    SymbolInverse(Second(a, b), '=');
    SymbolInverse(Third(b, 0), '=');
    assert s == if |s| == 1 then [s[0]] else [s[0], s[1]];
  }

  lemma FourValues(a: nat, b: nat, c: nat, d: nat)
    requires a < 64 && b < 64 && c < 64 && d < 64
    ensures var x, y, z := a * 4 + b / 16, b % 16 * 16 + c / 4, c % 4 * 64 + d;
      && x < 256 && y < 256 && z < 256
      && First(x) == a && Second(x, y) == b && Third(y, z) == c && Fourth(z) == d
  {
    BitMask.DivModUnique(a * 4 + b / 16, 4, a, b / 16);
    BitMask.DivModUnique(b % 16 * 16 + c / 4, 16, b % 16, c / 4);
    BitMask.DivModUnique(c % 4 * 64 + d, 64, c % 4, d);
  }

  /** A group that decodes is the encoding of what it decodes to. */
  lemma GroupEncodes(t: string, last: bool)
    requires |t| == 4 && DecodeGroup(t, last).Some?
    ensures var x := DecodeGroup(t, last).value;
      if |x| == 3 then t == Group(x[0] as nat, x[1] as nat, x[2] as nat) else last && 1 <= |x| <= 2 && t == LastGroup(x)
  {
    hide Symbol, SymbolValue, First, Second, Third, Fourth;
    SymbolInverse(0, t[0]);
    SymbolInverse(0, t[1]);
    SymbolInverse(0, t[2]);
    SymbolInverse(0, t[3]);
    var a, b, c, d := SymbolValue(t[0]), SymbolValue(t[1]), SymbolValue(t[2]), SymbolValue(t[3]);
    FourValues(a, b, if c < 64 then c else 0, if c < 64 && d < 64 then d else 0);
  }

  lemma {:induction false} EncodeThenDecode(x: seq<byte>)
    ensures Decode(Encode(x)) == Some(x)
    decreases |x|
  {
    hide DecodeGroup, Group, LastGroup;
    var t := Encode(x);
    if 0 < |x| < 3 {
      LastGroupDecodes(x);
      assert t[..4] == t && t[4..] == [];
      assert x + [] == x;
    } else if |x| >= 3 {
      var g := Group(x[0] as nat, x[1] as nat, x[2] as nat);
      GroupDecodes(x[0] as nat, x[1] as nat, x[2] as nat, |t| == 4);
      EncodeThenDecode(x[3..]);
      assert t[..4] == g && t[4..] == Encode(x[3..]);
      assert [x[0], x[1], x[2]] + x[3..] == x;
    }
  }

  /** A text decodes to x exactly when it is the encoding of x. */
  lemma {:induction false} DecodesExactly(t: string, x: seq<byte>)
    ensures Decode(t) == Some(x) <==> t == Encode(x)
    decreases |t|
  {
    EncodeThenDecode(x);
    if t != [] && Decode(t) == Some(x) {
      hide DecodeGroup, Group, LastGroup;
      GroupEncodes(t[..4], |t| == 4);
      var y := DecodeGroup(t[..4], |t| == 4).value;
      var z := Decode(t[4..]).value;
      DecodesExactly(t[4..], z);
      assert t == t[..4] + t[4..];
    }
  }
}
