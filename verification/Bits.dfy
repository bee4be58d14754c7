/** Bitwise operators of C on unsigned words, as functions on natural numbers, and
    what the masks and shifts of the firmware mean in ordinary arithmetic. */
module Bits {

  const U32: nat := 0x1_0000_0000

  /** One machine word; pointers on the 32-bit target are words too. */
  type Word = w: nat | w < U32

  type Byte = b: nat | b < 256

  /** Two bytes as a 16-bit number, least significant first. */
  function Le16(lo: Byte, hi: Byte): nat { lo as nat + 256 * (hi as nat) }

  /** What is left of v in a 32-bit word. */
  function Wrap(v: nat): (w: Word) {
    if v < U32 then v else Wrap(v - U32)
  }

  lemma {:induction false} WrapIsMod(v: nat)
    ensures Wrap(v) == v % U32
  {
    if v >= U32 { WrapIsMod(v - U32); }
  }

  function Pow2(k: nat): (p: nat)
    ensures p >= 1
  {
    if k == 0 then 1 else 2 * Pow2(k - 1)
  }

  /** C's `a & b`. */
  function And(a: nat, b: nat): nat {
    if a == 0 || b == 0 then 0 else (if a % 2 == 1 && b % 2 == 1 then 1 else 0) + 2 * And(a / 2, b / 2)
  }

  /** C's `a | b`. */
  function Or(a: nat, b: nat): nat {
    if a == 0 then b
    else if b == 0 then a
    else (if a % 2 == 1 || b % 2 == 1 then 1 else 0) + 2 * Or(a / 2, b / 2)
  }

  /** C's `a << k`, for a result that fits the word. */
  function Shl(a: nat, k: nat): nat {
    if k == 0 then a else 2 * Shl(a, k - 1)
  }

  /** C's `a >> k`. */
  function Shr(a: nat, k: nat): nat {
    if k == 0 then a else Shr(a / 2, k - 1)
  }

  lemma {:induction false} ShlIsTimes(a: nat, k: nat)
    ensures Shl(a, k) == a * Pow2(k)
  {
    if k > 0 {
      ShlIsTimes(a, k - 1);
      TwiceTimes(a, Pow2(k - 1));
    }
  }

  lemma TwiceTimes(x: nat, p: nat)
    ensures x * (2 * p) == 2 * (x * p)
  {
  }

  lemma MulMono(a: nat, b: nat, d: nat)
    requires a <= b
    ensures a * d <= b * d
  {
    assert (b - a) * d >= 0;
    assert (b - a) * d == b * d - a * d;
  }

  lemma DivModUnique(a: nat, d: nat, q: nat, r: nat)
    requires r < d && a == q * d + r
    ensures a / d == q && a % d == r
  {
    var q' := a / d;
    assert a == d * q' + a % d;
    if q' < q {
      MulMono(q' + 1, q, d);
    } else if q' > q {
      MulMono(q + 1, q', d);
    }
  }

  /** The k low bits of a. */
  function LowBits(a: nat, k: nat): nat {
    if k == 0 then 0 else a % 2 + 2 * LowBits(a / 2, k - 1)
  }

  lemma {:induction false} LowBitsIsMod(a: nat, k: nat)
    ensures LowBits(a, k) == a % Pow2(k)
  {
    if k > 0 {
      LowBitsIsMod(a / 2, k - 1);
      HalfThenDiv(a, Pow2(k - 1));
    }
  }

  lemma {:induction false} AndOnes(a: nat, k: nat)
    ensures And(a, Pow2(k) - 1) == LowBits(a, k)
  {
    if k > 0 {
      AndOnes(a / 2, k - 1);
      assert (Pow2(k) - 1) / 2 == Pow2(k - 1) - 1 && (Pow2(k) - 1) % 2 == 1;
      if a == 0 { NoLowBits(k - 1); }
    }
  }

  lemma {:induction false} NoLowBits(k: nat)
    ensures LowBits(0, k) == 0
  {
    if k > 0 { NoLowBits(k - 1); }
  }

  /** Masking with k ones is the remainder modulo 2^k. */
  lemma AndLowMask(a: nat, k: nat)
    ensures And(a, Pow2(k) - 1) == a % Pow2(k)
  {
    AndOnes(a, k);
    LowBitsIsMod(a, k);
  }

  /** Dividing by 2p: halve first, then divide by p. */
  lemma HalfThenDiv(a: nat, p: nat)
    requires p >= 1
    ensures a / (2 * p) == (a / 2) / p
    ensures a % (2 * p) == a % 2 + 2 * ((a / 2) % p)
  {
    var q, r := (a / 2) / p, (a / 2) % p;
    assert a / 2 == p * q + r;
    assert q * (2 * p) == 2 * (p * q);
    DivModUnique(a, 2 * p, q, 2 * r + a % 2);
  }

  /** `(a & (b << k)) >> k` selects with mask b the bits above position k. */
  lemma {:induction false} AndShifted(a: nat, b: nat, k: nat)
    ensures And(a, Shl(b, k)) == Shl(And(Shr(a, k), b), k)
  {
    if k > 0 {
      AndShifted(a / 2, b, k - 1);
      AndEven(a, Shl(b, k - 1));
    }
  }

  lemma AndEven(a: nat, c: nat)
    ensures And(a, 2 * c) == 2 * And(a / 2, c)
  {
    assert (2 * c) / 2 == c && (2 * c) % 2 == 0;
  }

  /** Or-ing a shifted field over a value that fits below it is addition. */
  lemma {:induction false} OrDisjoint(lo: nat, hi: nat, k: nat)
    requires lo < Pow2(k)
    ensures Or(lo, Shl(hi, k)) == Shl(hi, k) + lo
  {
    if k > 0 {
      OrDisjoint(lo / 2, hi, k - 1);
      OrEven(lo, Shl(hi, k - 1));
    }
  }

  lemma OrEven(lo: nat, c: nat)
    ensures Or(lo, 2 * c) == lo % 2 + 2 * Or(lo / 2, c)
  {
    assert (2 * c) / 2 == c && (2 * c) % 2 == 0;
  }

  lemma {:induction false} OrComm(a: nat, b: nat)
    ensures Or(a, b) == Or(b, a)
  {
    if a > 0 && b > 0 { OrComm(a / 2, b / 2); }
  }

  /** Shifting right drops a field that fits below the shift. */
  lemma {:induction false} ShrDrops(hi: nat, lo: nat, k: nat)
    requires lo < Pow2(k)
    ensures Shr(Shl(hi, k) + lo, k) == hi
  {
    if k > 0 { ShrDrops(hi, lo / 2, k - 1); }
  }

  lemma Powers()
    ensures Pow2(2) == 4 && Pow2(8) == 0x100 && Pow2(16) == 0x1_0000
    ensures Pow2(24) == 0x100_0000 && Pow2(32) == U32
  {
    assert Pow2(4) == 16;
    PowAdd(4, 4);
    PowAdd(8, 8);
    PowAdd(16, 8);
    PowAdd(16, 16);
  }

  lemma {:induction false} PowAdd(j: nat, k: nat)
    ensures Pow2(j + k) == Pow2(j) * Pow2(k)
  {
    if k > 0 {
      PowAdd(j, k - 1);
      TwiceTimes(Pow2(j), Pow2(k - 1));
    }
  }

  lemma {:induction false} ShlAdd(a: nat, j: nat, k: nat)
    ensures Shl(a, j + k) == Shl(Shl(a, j), k)
  {
    if k > 0 { ShlAdd(a, j, k - 1); }
  }

  lemma {:induction false} ShrAdd(a: nat, j: nat, k: nat)
    ensures Shr(a, j + k) == Shr(Shr(a, j), k)
    decreases j
  {
    if j > 0 { ShrAdd(a / 2, j - 1, k); }
  }

  lemma ByteShift(a: nat)
    ensures Shl(a, 8) == 0x100 * a && Shr(a, 8) == a / 0x100
  {
    Powers();
    ShlIsTimes(a, 8);
    ShlIsTimes(a / 0x100, 8);
    ShrDrops(a / 0x100, a % 0x100, 8);
  }

  /** Whole-byte shifts as arithmetic. */
  lemma Shifts(a: nat)
    ensures Shl(a, 8) == 0x100 * a && Shl(a, 16) == 0x1_0000 * a && Shl(a, 24) == 0x100_0000 * a
    ensures Shr(a, 8) == a / 0x100 && Shr(a, 16) == a / 0x100 / 0x100
    ensures Shr(a, 24) == a / 0x100 / 0x100 / 0x100
  {
    ByteShift(a);
    ShlAdd(a, 8, 8); ByteShift(Shl(a, 8));
    ShlAdd(a, 16, 8); ByteShift(Shl(a, 16));
    ShrAdd(a, 8, 8); ByteShift(Shr(a, 8));
    ShrAdd(a, 16, 8); ByteShift(Shr(a, 16));
  }
}
