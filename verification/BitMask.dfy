/** Unsigned machine-word arithmetic used by the hash table: bitwise operators on naturals,
    powers of two, the bucket mask and the rounding of a bucket count. */
module BitMask {

  const WORD_BITS: nat := 64
  const WORD: nat := 0x1_0000_0000_0000_0000

  /** The number of values of the 32-bit hash stored in a bucket. */
  const HASH_RANGE: nat := 0x1_0000_0000

  function Pow2(k: nat): (r: nat)
    ensures r >= 1
  {
    if k == 0 then 1 else 2 * Pow2(k - 1)
  }

  ghost predicate IsPow2(n: nat) {
    exists k: nat :: n == Pow2(k)
  }

  /** Bit j of v. */
  predicate Bit(v: nat, j: nat) {
    if j == 0 then v % 2 == 1 else Bit(v / 2, j - 1)
  }

  function And(a: nat, b: nat): (r: nat)
    ensures r <= b
    decreases b
  {
    if b == 0 then 0
    else 2 * And(a / 2, b / 2) + (if a % 2 == 1 && b % 2 == 1 then 1 else 0)
  }

  function Or(a: nat, b: nat): (r: nat)
    decreases a + b
  {
    if a == 0 && b == 0 then 0
    else 2 * Or(a / 2, b / 2) + (if a % 2 == 1 || b % 2 == 1 then 1 else 0)
  }

  function Shr(a: nat, i: nat): (r: nat)
    decreases i
  {
    if i == 0 then a else Shr(a / 2, i - 1)
  }

  lemma {:induction false} AndBit(a: nat, b: nat, j: nat)
    ensures Bit(And(a, b), j) == (Bit(a, j) && Bit(b, j))
    decreases j
  {
    if b == 0 {
      NoBits(j);
    } else if j > 0 {
      AndBit(a / 2, b / 2, j - 1);
    }
  }

  lemma {:induction false} OrBit(a: nat, b: nat, j: nat)
    ensures Bit(Or(a, b), j) == (Bit(a, j) || Bit(b, j))
    decreases j
  {
    if a == 0 && b == 0 {
      NoBits(j);
    } else if j > 0 {
      OrBit(a / 2, b / 2, j - 1);
    }
  }

  lemma {:induction false} ShrBit(a: nat, i: nat, j: nat)
    ensures Bit(Shr(a, i), j) == Bit(a, i + j)
    decreases i
  {
    if i > 0 {
      ShrBit(a / 2, i - 1, j);
    }
  }

  lemma {:induction false} NoBits(j: nat)
    ensures !Bit(0, j)
  {
    if j > 0 { NoBits(j - 1); }
  }

  /** Masking with a power of two less one is reduction modulo that power. */
  lemma {:induction false} MaskIsModulo(h: nat, k: nat)
    ensures And(h, Pow2(k) - 1) == h % Pow2(k)
  {
    hide And;
    if k > 0 {
      MaskIsModulo(h / 2, k - 1);
      AndOdd(h, Pow2(k - 1) - 1);
      HalfModulo(h, Pow2(k - 1));
    } else {
      AndZero(h);
    }
  }

  lemma AndZero(h: nat)
    ensures And(h, 0) == 0
  {
  }

  lemma AndOdd(h: nat, m: nat)
    ensures And(h, 2 * m + 1) == 2 * And(h / 2, m) + h % 2
  {
    assert (2 * m + 1) / 2 == m;
  }

  lemma HalfModulo(h: nat, p: nat)
    requires p >= 1
    ensures h % (2 * p) == 2 * ((h / 2) % p) + h % 2
  {
    var q := (h / 2) / p;
    var r := 2 * ((h / 2) % p) + h % 2;
    assert h / 2 == q * p + (h / 2) % p;
    assert h == q * (2 * p) + r;
    DivModUnique(h, 2 * p, q, r);
  }

  lemma DivModUnique(x: int, d: int, q: int, r: int)
    requires d > 0 && x == q * d + r && 0 <= r < d
    ensures x / d == q && x % d == r
  {
    var q', r' := x / d, x % d;
    assert (q - q') * d == r' - r;
    if q > q' {
      MulAtLeast(q - q', d);
    } else if q < q' {
      MulAtLeast(q' - q, d);
      MulNegate(q' - q, d);
    }
  }

  lemma MulNegate(c: int, d: int)
    ensures (-c) * d == -(c * d)
  {
  }

  lemma MulAtLeast(c: int, d: int)
    requires c >= 1 && d >= 0
    ensures c * d >= d
  {
  }

  lemma {:induction false} Pow2Monotone(j: nat, k: nat)
    requires j <= k
    ensures Pow2(j) <= Pow2(k)
    decreases k
  {
    if j < k { Pow2Monotone(j, k - 1); }
  }

  /** The bits a value can have: none at or above its size. */
  lemma {:induction false} TopBits(v: nat, t: nat, j: nat)
    requires v < Pow2(t) && t <= j
    ensures !Bit(v, j)
    decreases j
  {
    if t == 0 {
      NoBits(j);
    } else {
      TopBits(v / 2, t - 1, j - 1);
    }
  }

  lemma {:induction false} TopBitSet(v: nat, t: nat)
    requires Pow2(t) <= v < Pow2(t + 1)
    ensures Bit(v, t)
  {
    if t > 0 { TopBitSet(v / 2, t - 1); }
  }

  /** A value whose set bits are exactly the lowest t is 2^t - 1. */
  lemma {:induction false} AllOnes(v: nat, t: nat)
    requires forall j: nat :: Bit(v, j) <==> j < t
    ensures v == Pow2(t) - 1
    decreases t
  {
    if t == 0 {
      if v > 0 {
        var k := TopOf(v);
        TopBitSet(v, k);
      }
    } else {
      forall j: nat
        ensures Bit(v / 2, j) <==> j < t - 1
      {
        assert Bit(v, j + 1) <==> j + 1 < t;
      }
      AllOnes(v / 2, t - 1);
      assert Bit(v, 0);
    }
  }

  /** The position of the highest set bit. */
  ghost function TopOf(v: nat): (t: nat)
    requires v > 0
    ensures Pow2(t) <= v < Pow2(t + 1)
  {
    if v == 1 then 0 else TopOf(v / 2) + 1
  }

  predicate IsPowerOfTwo(value: nat) {
    value != 0 && And(value, value - 1) == 0
  }

  /** The test value & (value - 1) recognises exactly the powers of two. */
  lemma {:induction false} PowerTestExact(value: nat)
    ensures IsPowerOfTwo(value) <==> IsPow2(value)
  {
    if value > 0 {
      var t := TopOf(value);
      if value == Pow2(t) {
        forall k: nat | k <= t ensures And(Pow2(k), Pow2(k) - 1) == 0 { PowerAndBelow(k); }
      } else {
        TopBitSet(value, t);
        TopBitSet(value - 1, t);
        AndBit(value, value - 1, t);
        NoBits(t);
        assert !IsPowerOfTwo(value);
        forall k: nat ensures value != Pow2(k) {
          if k <= t { Pow2Monotone(k, t); } else { Pow2Monotone(t + 1, k); }
        }
      }
    }
  }

  lemma {:induction false} PowerAndBelow(k: nat)
    ensures And(Pow2(k), Pow2(k) - 1) == 0
  {
    if k > 0 {
      PowerAndBelow(k - 1);
      assert (Pow2(k) - 1) / 2 == Pow2(k - 1) - 1;
      assert Pow2(k) / 2 == Pow2(k - 1);
    }
  }

  /** The least power of two that is at least v. */
  ghost predicate LeastPowerFrom(v: nat, r: nat) {
    IsPow2(r) && v <= r && forall k: nat :: v <= Pow2(k) ==> r <= Pow2(k)
  }

  /** That power, computed. */
  function LeastPower(v: nat): (r: nat)
    ensures r >= 1
  {
    if v <= 1 then 1 else 2 * LeastPower((v + 1) / 2)
  }

  lemma {:induction false} LeastPowerIs(v: nat)
    ensures LeastPowerFrom(v, LeastPower(v))
    decreases v
  {
    var r := LeastPower(v);
    if v <= 1 {
      assert r == Pow2(0);
    } else {
      LeastPowerIs((v + 1) / 2);
      var k: nat :| LeastPower((v + 1) / 2) == Pow2(k);
      assert r == Pow2(k + 1);
      forall j: nat | v <= Pow2(j) ensures r <= Pow2(j) {
        assert j > 0 && Pow2(j) == 2 * Pow2(j - 1) && (v + 1) / 2 <= Pow2(j - 1);
      }
    }
  }

  /** There is only one. */
  lemma LeastPowerOnly(v: nat, r: nat)
    requires LeastPowerFrom(v, r)
    ensures r == LeastPower(v)
  {
    LeastPowerIs(v);
    var j: nat :| r == Pow2(j);
    var k: nat :| LeastPower(v) == Pow2(k);
  }

  /** The set bits of v below its top bit t reach down at least i places. */
  ghost predicate Smeared(v: nat, t: nat, i: nat) {
    (forall j: nat :: j <= t && t < j + i ==> Bit(v, j)) &&
    (forall j: nat :: t < j ==> !Bit(v, j))
  }

  lemma {:induction false} SmearStep(v: nat, t: nat, i: nat)
    requires Smeared(v, t, i)
    ensures Smeared(Or(v, Shr(v, i)), t, 2 * i)
  {
    var w := Or(v, Shr(v, i));
    forall j: nat
      ensures Bit(w, j) == (Bit(v, j) || Bit(v, i + j))
    {
      OrBit(v, Shr(v, i), j);
      ShrBit(v, i, j);
    }
    forall j: nat | j <= t && t < j + 2 * i
      ensures Bit(w, j)
    {
      assert Bit(w, j) == (Bit(v, j) || Bit(v, i + j));
    }
    forall j: nat | t < j
      ensures !Bit(w, j)
    {
      assert Bit(w, j) == (Bit(v, j) || Bit(v, i + j));
    }
  }

  lemma {:induction false} SmearedIsOnes(v: nat, t: nat, i: nat)
    requires Smeared(v, t, i) && i > t
    ensures v == Pow2(t + 1) - 1
  {
    AllOnes(v, t + 1);
  }

  /** round_up_to_power_of_two on 64-bit words; the final increment wraps. */
  method RoundUpToPowerOfTwo(value: nat) returns (r: nat)
    requires value < WORD
    ensures value <= WORD / 2 ==> LeastPowerFrom(value, r)
    ensures value > WORD / 2 ==> r == 0
  {
    PowerTestExact(value);
    if IsPowerOfTwo(value) {
      PowerInWord(value, WORD_BITS);
      return value;
    }
    if value == 0 {
      assert 1 == Pow2(0);
      return 1;
    }
    assert value != Pow2(0);
    var v: nat := value - 1;
    ghost var t := TopOf(v);
    StartSmear(v, t, WORD_BITS);
    var i: nat := 1;
    while i < WORD_BITS
      invariant Smeared(v, t, i)
      invariant i in {1, 2, 4, 8, 16, 32, 64}
      decreases 64 - i
    {
      SmearStep(v, t, i);
      v := Or(v, Shr(v, i));
      i := i * 2;
    }
    SmearedIsOnes(v, t, i);
    r := (v + 1) % WORD;
    RoundedValue(value, t, v + 1, WORD_BITS);
  }

  lemma PowerInWord(value: nat, w: nat)
    requires IsPow2(value) && value < WORD && w == WORD_BITS
    ensures value <= WORD / 2 && LeastPowerFrom(value, value)
  {
    WordPower();
    var k: nat :| value == Pow2(k);
    if k < w { Pow2Monotone(k, w - 1); } else { Pow2Monotone(w, k); }
  }

  lemma StartSmear(v: nat, t: nat, w: nat)
    requires Pow2(t) <= v < Pow2(t + 1) && v < WORD && w == WORD_BITS
    ensures Smeared(v, t, 1) && t < w
  {
    WordPower();
    TopBitSet(v, t);
    forall j: nat | t < j ensures !Bit(v, j) { TopBits(v, t + 1, j); }
    if t >= w { Pow2Monotone(w, t); }
  }

  lemma WordPower()
    ensures Pow2(64) == WORD && Pow2(32) == HASH_RANGE
  {
    hide Pow2;
    SmallPower();
    Pow2Add(4, 4);
    Pow2Add(8, 8);
    Pow2Add(16, 16);
    Pow2Add(32, 32);
  }

  lemma SmallPower()
    ensures Pow2(4) == 16
  {
    assert Pow2(2) == 4;
  }

  lemma {:induction false} Pow2Add(j: nat, k: nat)
    ensures Pow2(j + k) == Pow2(j) * Pow2(k)
    decreases k
  {
    if k > 0 {
      Pow2Add(j, k - 1);
      assert Pow2(j + k) == 2 * Pow2(j + (k - 1));
      assert Pow2(j) * Pow2(k) == 2 * (Pow2(j) * Pow2(k - 1));
    }
  }

  lemma PowerSteps(j: nat, k: nat)
    ensures Pow2(j + 1) == 2 * Pow2(j) && IsPow2(Pow2(k))
  {
  }

  lemma RoundedValue(value: nat, t: nat, s: nat, w: nat)
    requires 1 < value < WORD && w == WORD_BITS
    requires Pow2(t) <= value - 1 < Pow2(t + 1) && s == Pow2(t + 1) && t < w
    ensures value <= WORD / 2 ==> LeastPowerFrom(value, s % WORD)
    ensures value > WORD / 2 ==> s % WORD == 0
  {
    hide Pow2, IsPow2;
    WordPower();
    PowerSteps(w - 1, t + 1);
    if t == w - 1 {
      assert s == WORD;
    } else {
      Pow2Monotone(t + 1, w - 1);
      assert s % WORD == s;
      forall k: nat | value <= Pow2(k) ensures s <= Pow2(k) {
        if k <= t { Pow2Monotone(k, t); } else { Pow2Monotone(t + 1, k); }
      }
    }
  }

  /** The 32-bit hash kept in a bucket selects the same bucket as the full hash for every hash
      exactly when there are at most 2^32 buckets. */
  lemma TruncationAgrees(k: nat)
    ensures (forall h: nat :: And(h % HASH_RANGE, Pow2(k) - 1) == And(h, Pow2(k) - 1))
       <==> Pow2(k) <= HASH_RANGE
  {
    WordPower();
    var w: nat := 32;
    if k <= w {
      Pow2Monotone(k, w);
      forall h: nat ensures And(h % HASH_RANGE, Pow2(k) - 1) == And(h, Pow2(k) - 1) {
        TruncatedBucket(h, k);
      }
    } else {
      TruncationLoses(k, w, HASH_RANGE);
    }
  }

  lemma TruncationLoses(k: nat, w: nat, h: nat)
    requires k > w && h == Pow2(w) == HASH_RANGE
    ensures Pow2(k) > h
    ensures And(h % HASH_RANGE, Pow2(k) - 1) != And(h, Pow2(k) - 1)
  {
    Pow2Monotone(w + 1, k);
    MaskIsModulo(h, k);
    SmallModulo(h, Pow2(k));
    MaskIsModulo(0, k);
    SmallModulo(0, Pow2(k));
  }

  lemma SmallModulo(h: nat, p: nat)
    requires h < p
    ensures h % p == h
  {
  }

  lemma TruncatedBucket(h: nat, k: nat)
    requires k <= 32
    ensures And(h % HASH_RANGE, Pow2(k) - 1) == And(h, Pow2(k) - 1)
  {
    WordPower();
    MaskIsModulo(h, k);
    MaskIsModulo(h % HASH_RANGE, k);
    Pow2Add(k, 32 - k);
    ModuloOfMultiple(h, Pow2(k), Pow2(32 - k));
  }

  lemma ModuloOfMultiple(h: nat, p: nat, c: nat)
    requires p >= 1 && c >= 1
    ensures p * c >= 1 && (h % (p * c)) % p == h % p
  {
    var pc := p * c;
    assert pc >= 1 by { MulAtLeast(c, p); }
    var q, g := h / pc, h % pc;
    var q', r := g / p, g % p;
    assert h == q * pc + g;
    assert g == q' * p + r;
    Regroup(q, c, p, q');
    assert h == (q * c + q') * p + r;
    DivModUnique(h, p, q * c + q', r);
  }

  lemma Regroup(q: int, c: int, p: int, q': int)
    ensures q * (p * c) + q' * p == (q * c + q') * p
  {
    assert q * (p * c) == (q * c) * p;
  }
}
