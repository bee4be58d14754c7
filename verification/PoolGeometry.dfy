/** Sizes and addresses of pool blocks: the alignment macro, the heap request of
    hosted_mempool_create, and where the chained blocks lie. */
module PoolGeometry {
  import opened Bits

  const ALIGNMENT: nat := 4

  /** OS_ALIGN(n, OS_ALIGNMENT) on a 32-bit unsigned operand. */
  function OsAlign(n: Word): Word {
    if And(n, ALIGNMENT - 1) == 0 then n
    else (n + (ALIGNMENT - And(n, ALIGNMENT - 1))) % U32
  }

  /** The least multiple of 4 not below n. */
  function RoundUp(n: nat): nat { (n + 3) / 4 * 4 }

  /** OS_ALIGN rounds up to a multiple of 4, unless the rounding leaves the word. */
  lemma OsAlignRounds(n: Word)
    ensures OsAlign(n) == RoundUp(n) % U32
    ensures RoundUp(n) < U32 <==> n <= U32 - 4
  {
    LowTwoBits(n);
  }

  /** `v & 3`. */
  lemma LowTwoBits(v: nat)
    ensures And(v, ALIGNMENT - 1) == v % 4
  {
    AndLowMask(v, 2);
    assert Pow2(2) == 4;
  }

  /** OS_MEMPOOL_BYTES(n, b) in size_t arithmetic. */
  function PoolBytes(n: Word, b: Word): Word {
    (4 * (((((b + 3) % U32) / 4) * n) % U32)) % U32
  }

  /** MEMPOOL_ALIGNED(v) in size_t arithmetic. */
  function MempoolAligned(v: Word): Word { (v + 4 - And(v, 3)) % U32 }

  /** MEMPOOL_ALIGNED goes up to the next multiple of 4, also from one. */
  lemma MempoolAlignedRounds(v: Word)
    ensures MempoolAligned(v) == (v / 4 * 4 + 4) % U32
  {
    LowTwoBits(v);
  }

  /** The bytes hosted_mempool_create asks the heap for. */
  function HeapRequest(n: Word, b: Word): Word { MempoolAligned(PoolBytes(n, b)) }

  /** The address of block k of a pool at `base` with stride `stride`. */
  function BlockAddr(base: nat, stride: nat, k: nat): nat { base + k * stride }

  ghost predicate InRegion(base: nat, bytes: nat, addr: nat, size: nat) {
    base <= addr && addr + size <= base + bytes
  }

  /** Every one of the n blocks of b bytes lies inside the region of `bytes` bytes. */
  ghost predicate BlocksFit(n: nat, b: nat, base: nat, bytes: nat) {
    forall k :: 0 <= k < n ==> InRegion(base, bytes, BlockAddr(base, RoundUp(b), k), b)
  }

  /** Blocks with different indexes never share a byte. */
  lemma BlocksDisjoint(base: nat, b: nat, j: nat, k: nat)
    requires j < k
    ensures BlockAddr(base, RoundUp(b), j) + b <= BlockAddr(base, RoundUp(b), k)
    ensures base % 4 == 0 ==> BlockAddr(base, RoundUp(b), j) % 4 == 0
  {
    var t := RoundUp(b);
    MulMono(j + 1, k, t);
    OneMore(j, t);
    MultipleOfFour(j, (b + 3) / 4);
  }

  lemma OneMore(j: nat, t: nat)
    ensures (j + 1) * t == j * t + t
  {
  }

  lemma MultipleOfFour(k: nat, w: nat)
    ensures k * (w * 4) == 4 * (k * w)
  {
  }

  /** The heap region requested for n blocks of b bytes holds all of them exactly when the
      request, which carries four spare bytes, does not leave the 32-bit word. */
  lemma HeapHoldsBlocks(n: Word, b: Word, base: nat)
    requires n >= 1 && b >= 1
    ensures BlocksFit(n, b, base, HeapRequest(n, b)) <==> n * RoundUp(b) + 4 < U32
  {
    var total := n * RoundUp(b);
    if total + 4 < U32 {
      MulMono(1, n, RoundUp(b));
      PoolBytesOf(n, b, total);
      RequestAddsFour(n, b, total);
      WrappedSum(total);
      LastBlockFits(n, b, base, HeapRequest(n, b));
    } else {
      RequestTooShort(n, b, total);
      LastBlockFits(n, b, base, HeapRequest(n, b));
    }
  }

  lemma LastBlockFits(n: nat, b: nat, base: nat, bytes: nat)
    requires n >= 1
    ensures BlocksFit(n, b, base, bytes) <==> (n - 1) * RoundUp(b) + b <= bytes
    ensures (n - 1) * RoundUp(b) == n * RoundUp(b) - RoundUp(b)
  {
    var t := RoundUp(b);
    if (n - 1) * t + b <= bytes {
      forall k | 0 <= k < n
        ensures InRegion(base, bytes, BlockAddr(base, t, k), b)
      {
        MulMono(k, n - 1, t);
      }
    } else {
      assert !InRegion(base, bytes, BlockAddr(base, t, n - 1), b);
    }
  }

  lemma AlignedAddsFour(v: Word)
    requires v % 4 == 0
    ensures MempoolAligned(v) == (v + 4) % U32
  {
    LowTwoBits(v);
  }

  lemma BytesOfWords(words: nat, n: nat, total: nat)
    requires total == n * (words * 4)
    ensures (4 * ((words * n) % U32)) % U32 == total % U32
    ensures total % 4 == 0
  {
    var x := words * n;
    MultipleOfFour(n, words);
    assert total == 4 * x;
    ScaledMod(x);
  }

  lemma ScaledMod(x: nat)
    ensures (4 * (x % U32)) % U32 == (4 * x) % U32
  {
    var q, r := x / U32, x % U32;
    assert 4 * x == U32 * (4 * q) + 4 * r;
  }

  lemma PoolBytesOf(n: Word, b: Word, total: nat)
    requires b <= U32 - 4 && total == n * RoundUp(b)
    ensures PoolBytes(n, b) == total % U32 && total % 4 == 0
  {
    assert (b + 3) % U32 == b + 3;
    BytesOfWords((b + 3) / 4, n, total);
  }

  lemma RequestAddsFour(n: Word, b: Word, total: nat)
    requires PoolBytes(n, b) == total % U32 && total % 4 == 0
    ensures HeapRequest(n, b) == (total % U32 + 4) % U32
  {
    StillAligned(total);
    AlignedAddsFour(total % U32);
  }

  lemma StillAligned(total: nat)
    requires total % 4 == 0
    ensures total % U32 % 4 == 0
  {
  }

  lemma WrappedSum(total: nat)
    requires total % 4 == 0
    ensures total + 4 < U32 ==> (total % U32 + 4) % U32 == total + 4
    ensures total + 4 >= U32 ==> (total % U32 + 4) % U32 + 4 <= total
  {
  }

  /** A request that leaves the word comes out too short for the last block. */
  lemma RequestTooShort(n: Word, b: Word, total: nat)
    requires n >= 1 && b >= 1 && total == n * RoundUp(b) && total + 4 >= U32
    ensures HeapRequest(n, b) + 4 <= total
  {
    if b <= U32 - 4 {
      PoolBytesOf(n, b, total);
      RequestAddsFour(n, b, total);
      WrappedSum(total);
    } else {
      MulMono(1, n, RoundUp(b));
      ZeroBytes(n, b);
    }
  }

  lemma ZeroBytes(n: Word, b: Word)
    requires b > U32 - 4
    ensures HeapRequest(n, b) == 4
  {
    assert ((b + 3) % U32) / 4 == 0;
    AlignedAddsFour(0);
  }

  // ---------- memory from the caller ----------

  /** The check of hosted_mempool_create on memory it is given: `given` bytes for n blocks of b. */
  predicate TakesGiven(n: Word, b: Word, given: Word) { given >= n * b % U32 }

  /** Whatever memory the check takes holds all blocks at their true size, if and only if the
      product does not leave the word and the block size is a multiple of 4. */
  lemma GivenHoldsBlocks(n: Word, b: Word)
    requires n >= 1 && b >= 1
    ensures (forall given: Word :: TakesGiven(n, b, given) ==> n * RoundUp(b) <= given) <==> n * b < U32 && b % 4 == 0
  {
    if n * b < U32 && b % 4 == 0 {
      assert RoundUp(b) == b;
    } else {
      var given: Word := n * b % U32;
      assert TakesGiven(n, b, given);
      MulAbove(n, b, RoundUp(b));
    }
  }

  lemma MulAbove(n: nat, b: nat, t: nat)
    requires n >= 1 && b <= t
    ensures if b < t then n * b < n * t else n * b == n * t
  {
  }
}
