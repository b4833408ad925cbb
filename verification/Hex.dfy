/** Hexadecimal numbers as the chunked coding writes and reads them. */
module Hex {
  import opened Bytes

  /** The byte of a hexadecimal digit, lower case. */
  function DigitByte(d: nat): (b: byte)
    requires d < 16
    ensures DigitValue(b) == d && HexByte(b) && (b == 48 <==> d == 0)
  {
    if d < 10 then (48 + d) as byte else (87 + d) as byte
  }

  /** The value of a hexadecimal digit of either case, or 16 when the byte is none. */
  function DigitValue(b: byte): (d: nat)
    ensures d <= 16
  {
    if 48 <= b <= 57 then b as nat - 48
    else if 97 <= b <= 102 then b as nat - 87
    else if 65 <= b <= 70 then b as nat - 55
    else 16
  }

  /** A digit: neither space, sign nor line end. */
  predicate HexByte(b: byte) {
    DigitValue(b) < 16 && !IsSpace(b) && b != 43 && b != 45 && b != LF
  }

  /** The hexadecimal numeral of n, without leading zeros. */
  function Numeral(n: nat): (s: seq<byte>)
    ensures |s| >= 1
  {
    (if n < 16 then [] else Numeral(n / 16)) + [DigitByte(n % 16)]
  }

  lemma NumeralStep(n: nat, tail: seq<byte>)
    ensures Numeral(n) + tail
         == (if n / 16 == 0 then [DigitByte(n % 16)] + tail else Numeral(n / 16) + ([DigitByte(n % 16)] + tail))
  {
    hide DigitByte;
    if n < 16 {
      assert Numeral(n) == [DigitByte(n % 16)];
    } else {
      Regroup(Numeral(n / 16), [DigitByte(n % 16)], tail);
    }
  }

  /** from_i_to_hex. */
  method FromIToHex(n0: nat) returns (ret: seq<byte>)
    ensures ret == Numeral(n0)
  {
    var n := n0;
    ret := [DigitByte(n % 16)];
    n := n / 16;
    while n > 0
      invariant n == 0 ==> ret == Numeral(n0)
      invariant n > 0 ==> Numeral(n) + ret == Numeral(n0)
    {
      NumeralStep(n, ret);
      ret := [DigitByte(n % 16)] + ret;
      n := n / 16;
    }
  }

  /** How many hexadecimal digits s starts with. */
  function DigitCount(s: seq<byte>): (c: nat)
    ensures c <= |s|
    ensures forall i: nat | i < c :: DigitValue(s[i]) < 16
    ensures c < |s| ==> DigitValue(s[c]) == 16
  {
    if s == [] || DigitValue(s[0]) == 16 then 0
    else
      var c := DigitCount(s[1..]);
      assert forall i: nat | 0 < i < 1 + c :: s[i] == s[1..][i - 1];
      1 + c
  }

  /** The number the digits of s stand for. */
  function DigitsValue(s: seq<byte>): nat {
    if s == [] then 0 else 16 * DigitsValue(s[..|s| - 1]) + DigitValue(s[|s| - 1])
  }

  predicate IsSpace(b: byte) {
    b == 32 || 9 <= b <= 13
  }

  function SpaceCount(s: seq<byte>): (c: nat)
    ensures c <= |s|
  {
    if s == [] || !IsSpace(s[0]) then 0 else 1 + SpaceCount(s[1..])
  }

  /** strtoul to base 16: leading space, a sign, a 0x prefix that has a digit behind it, digits; a
      value that does not fit becomes max, the largest unsigned long, and a minus sign negates modulo
      max + 1.  The second component says whether there was a number at all. */
  function StrToUL(s: seq<byte>, max: nat): (r: (nat, bool))
    ensures r.0 <= max
  {
    var t := s[SpaceCount(s)..];
    var signed := t != [] && (t[0] == 43 || t[0] == 45);
    var u := if signed then t[1..] else t;
    var prefixed := |u| > 2 && u[0] == 48 && (u[1] == 120 || u[1] == 88) && DigitValue(u[2]) < 16;
    var v := if prefixed then u[2..] else u;
    var c := DigitCount(v);
    if c == 0 then (0, false)
    else
      var n := DigitsValue(v[..c]);
      if n > max then (max, true)
      else if signed && t[0] == 45 && n > 0 then (max + 1 - n, true)
      else (n, true)
  }

  lemma {:induction false} NumeralDigits(n: nat)
    ensures forall i: nat | i < |Numeral(n)| :: HexByte(Numeral(n)[i])
    ensures DigitsValue(Numeral(n)) == n
    ensures Numeral(n)[0] == 48 <==> n == 0
    ensures n == 0 ==> Numeral(n) == [48]
  {
    hide HexByte;
    var s := Numeral(n);
    if n < 16 {
      assert s == [DigitByte(n)];
      assert s[..0] == [];
      assert DigitsValue(s) == 16 * DigitsValue(s[..0]) + DigitValue(s[0]);
    } else {
      NumeralDigits(n / 16);
      assert s[..|s| - 1] == Numeral(n / 16);
    }
  }

  lemma {:induction false} CountStops(s: seq<byte>, t: seq<byte>)
    requires forall i: nat | i < |s| :: HexByte(s[i])
    requires t != [] ==> DigitValue(t[0]) == 16
    ensures DigitCount(s + t) == |s|
    decreases |s|
  {
    if s != [] {
      assert (s + t)[1..] == s[1..] + t;
      CountStops(s[1..], t);
    } else {
      assert s + t == t;
    }
  }

  /** Without leading space, sign or prefix the number is that of the leading digits, as far as it
      fits. */
  lemma PlainNumber(line: seq<byte>, c: nat, max: nat)
    requires line != [] && !IsSpace(line[0]) && line[0] != 43 && line[0] != 45
    requires line[0] == 48 ==> |line| > 1 && line[1] != 120 && line[1] != 88
    requires c == DigitCount(line) > 0
    ensures var n := DigitsValue(line[..c]); StrToUL(line, max) == (if n < max then n else max, true)
  {
    hide DigitCount, DigitsValue, SpaceCount, DigitValue;
    NoSpace(line);
    assert line[0..] == line;
  }

  lemma NoSpace(line: seq<byte>)
    requires line != [] && !IsSpace(line[0])
    ensures SpaceCount(line) == 0
  {
  }

  /** Reading a numeral followed by a line end gives the number back, or the largest one. */
  lemma ReadsNumeral(n: nat, max: nat)
    ensures StrToUL(Numeral(n) + CRLF, max) == (if n < max then n else max, true)
  {
    hide Numeral, StrToUL, DigitsValue;
    var s := Numeral(n);
    NumeralDigits(n);
    var line := s + CRLF;
    assert line[0] == s[0] && line[|s|] == CR;
    assert HexByte(s[0]);
    CountStops(s, CRLF);
    assert line[..|s|] == s;
    PlainNumber(line, |s|, max);
  }
}
