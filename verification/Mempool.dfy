/** The fixed-block pool of mempool_ll.c over one word-addressed memory. The free list is
    threaded through the free blocks: the first word of a block is a link only while the
    block is free. `PoolSpec` is the simple view, a stack of free blocks and a set of
    outstanding ones; every method of `OsMempool` is one step of it. */
module Mempool {
  import opened Bits
  import opened PoolGeometry

  datatype OsError = OS_OK | OS_INVALID_PARM | OS_MEM_NOT_ALIGNED | NULL_WRITE

  const NULL: Word := 0
  const MAX_BLOCKS: nat := 0xFFFF

  // ---------- the simple view ----------

  /** free: addresses of free blocks, next one to hand out first; low: mp_min_free. */
  datatype PoolSpec = PoolSpec(blocks: seq<nat>, free: seq<nat>, out: set<nat>, low: nat)

  datatype Op =
    | Get(result: nat)
    | Put(block: nat)
    | Clear
    | UserWrite

  function Fresh(blocks: seq<nat>): PoolSpec { PoolSpec(blocks, blocks, {}, |blocks|) }

  ghost predicate Step(s: PoolSpec, op: Op, s': PoolSpec) {
    match op
    case Get(result) =>
      if s.free == [] then result == NULL && s' == s
      else
        && result == s.free[0]
        && s' == s.(free := s.free[1..], out := s.out + {result},
                    low := if s.low > |s.free| - 1 then |s.free| - 1 else s.low)
    case Put(block) =>
      block in s.out && s' == s.(free := [block] + s.free, out := s.out - {block})
    case Clear => s' == Fresh(s.blocks)
    case UserWrite => s' == s
  }

  ghost predicate NoDup(s: seq<nat>) {
    forall i, j :: 0 <= i < j < |s| ==> s[i] != s[j]
  }

  function Elems(s: seq<nat>): set<nat> { set x | x in s }

  lemma {:induction false} SizeOfElems(s: seq<nat>)
    requires NoDup(s)
    ensures |Elems(s)| == |s|
  {
    if s != [] {
      OsMempool.SplitHead(s);
      SizeOfElems(s[1..]);
    }
  }

  /** Free and outstanding blocks partition the blocks of the pool; NULL is none of them. */
  ghost predicate Partition(s: PoolSpec) {
    && NoDup(s.blocks) && NULL !in s.blocks
    && NoDup(s.free)
    && Elems(s.free) !! s.out
    && Elems(s.free) + s.out == Elems(s.blocks)
    && s.low <= |s.free|
  }

  lemma {:induction false} PartitionSizes(s: PoolSpec)
    requires Partition(s)
    ensures |s.free| + |s.out| == |s.blocks|
    ensures s.out != {} ==> |s.free| < |s.blocks|
  {
    SizeOfElems(s.blocks);
    SizeOfElems(s.free);
    assert |Elems(s.free) + s.out| == |Elems(s.free)| + |s.out|;
  }

  lemma {:induction false} PutPartition(s: PoolSpec, block: nat)
    requires Partition(s) && block in s.out
    ensures Partition(s.(free := [block] + s.free, out := s.out - {block}))
  {
    assert Elems([block] + s.free) == {block} + Elems(s.free);
  }

  // ---------- the list in memory ----------

  /** The chain of links from `head` visits exactly the addresses `st`, then NULL. */
  ghost predicate Linked(mem: array<Word>, head: Word, st: seq<nat>)
    reads mem
  {
    && head == (if st == [] then NULL else st[0])
    && (forall i :: 0 <= i < |st| ==> 0 < st[i] < 4 * mem.Length && st[i] % 4 == 0)
    && (forall i, j {:trigger st[i], st[j]} :: 0 <= i < j < |st| && j == i + 1 ==> mem[st[i] / 4] == st[j])
    && (st != [] ==> mem[st[|st| - 1] / 4] == NULL)
  }

  /** The same for a memory given as a sequence of words. */
  ghost predicate LinkedIn(words: seq<Word>, head: Word, st: seq<nat>) {
    && head == (if st == [] then NULL else st[0])
    && (forall i :: 0 <= i < |st| ==> 0 < st[i] < 4 * |words| && st[i] % 4 == 0)
    && (forall i, j {:trigger st[i], st[j]} :: 0 <= i < j < |st| && j == i + 1 ==> words[st[i] / 4] == st[j])
    && (st != [] ==> words[st[|st| - 1] / 4] == NULL)
  }

  /** st is a free list of `count` different blocks of the pool. */
  ghost predicate Intact(words: seq<Word>, head: Word, st: seq<nat>, count: nat, blocks: seq<nat>) {
    LinkedIn(words, head, st) && NoDup(st) && |st| == count && Elems(st) <= Elems(blocks)
  }

  ghost predicate HasIntactList(words: seq<Word>, head: Word, count: nat, blocks: seq<nat>) {
    exists st :: Intact(words, head, st, count, blocks)
  }

  /** The first `done` links of the list are stored. */
  ghost predicate LinkedUpTo(words: seq<Word>, list: seq<nat>, done: nat) {
    && done < |list| && (forall i :: 0 <= i < |list| ==> list[i] / 4 < |words|)
    && forall i, j {:trigger list[i], list[j]} :: 0 <= i < j <= done && j == i + 1 ==> words[list[i] / 4] == list[j]
  }

  /** Nothing but the words `links` has changed. */
  ghost predicate OnlyLinks(before: seq<Word>, after: seq<Word>, links: set<nat>) {
    |before| == |after| && forall i :: 0 <= i < |before| && i !in links ==> after[i] == before[i]
  }

  lemma LinkMore(words: seq<Word>, list: seq<nat>, done: nat, w: Word)
    requires InMemory(list, |words|) && LinkedUpTo(words, list, done)
    ensures var after := words[list[done] / 4 := w];
      && LinkedUpTo(after, list, done)
      && (done + 1 < |list| && w == list[done + 1] ==> LinkedUpTo(after, list, done + 1))
  {
  }

  /** Addresses of different words of a memory of n words. */
  ghost predicate InMemory(list: seq<nat>, n: nat) {
    && (forall i :: 0 <= i < |list| ==> 0 < list[i] < 4 * n && list[i] % 4 == 0)
    && forall j, k :: 0 <= j < k < |list| ==> list[j] / 4 != list[k] / 4
  }

  lemma LaidInMemory(st: seq<nat>, base: nat, stride: nat, n: nat)
    requires Laid(st, base, stride, 4 * n) && 0 < base && stride >= 4
    ensures InMemory(st, n)
  {
    forall j, k | 0 <= j < k < |st|
      ensures st[j] / 4 != st[k] / 4
    {
      assert st[j] + stride <= st[k];
    }
  }

  lemma AllLinked(mem: array<Word>, list: seq<nat>)
    requires InMemory(list, mem.Length) && list != [] && list[0] < U32
    requires LinkedUpTo(mem[..], list, |list| - 1) && mem[list[|list| - 1] / 4] == NULL
    ensures Linked(mem, list[0], list)
  {
    forall i, j {:trigger list[i], list[j]} | 0 <= i < j < |list| && j == i + 1
      ensures mem[list[i] / 4] == list[j]
    {
      assert mem[..][list[i] / 4] == list[j];
    }
  }

  lemma OnlyLinksMore(before: seq<Word>, words: seq<Word>, list: seq<nat>, k: nat, w: Word)
    requires OnlyLinks(before, words, FirstWords(list)) && k < |list| && list[k] / 4 < |words|
    ensures OnlyLinks(before, words[list[k] / 4 := w], FirstWords(list))
  {
    FirstWordOf(list, k);
  }

  lemma PutLinks(words: seq<Word>, head: Word, free: seq<nat>, block: Word)
    requires LinkedIn(words, head, free) && 0 < block < 4 * |words| && block % 4 == 0
    requires forall i :: 0 <= i < |free| ==> free[i] / 4 != block / 4
    ensures LinkedIn(words[block / 4 := head], block, [block] + free)
  {
    var st := [block] + free;
    assert forall i {:trigger st[i]} :: 0 < i < |st| ==> st[i] == free[i - 1];
  }

  /** Following the links from a block that was free already: the old list comes again. */
  lemma {:induction false} RunsBack(
    words: seq<Word>, head: Word, free: seq<nat>, block: Word, st: seq<nat>, i: nat, k: nat)
    requires LinkedIn(words, head, free) && k <= i < |free| && free[i] == block && block / 4 < |words|
    requires forall j :: 0 <= j < i ==> free[j] / 4 != block / 4
    requires LinkedIn(words[block / 4 := head], block, st) && |st| == |free| + 1
    ensures st[k + 1] == free[k]
  {
    if k > 0 {
      RunsBack(words, head, free, block, st, i, k - 1);
    }
    assert words[block / 4 := head][st[k] / 4] == st[k + 1];
  }

  /** The blocks chained by init and clear: n of them, `stride` bytes apart. */
  function Blocks(base: nat, stride: nat, n: nat): (st: seq<nat>)
    ensures |st| == n
    decreases n
  {
    if n == 0 then [] else [base] + Blocks(base + stride, stride, n - 1)
  }

  /** The words that hold the links of the blocks. */
  function FirstWords(blocks: seq<nat>): set<nat> { set b | b in blocks :: b / 4 }

  lemma FirstWordOf(blocks: seq<nat>, k: nat)
    requires k < |blocks|
    ensures blocks[k] / 4 in FirstWords(blocks)
  {
    assert blocks[k] in blocks;
  }

  /** The list of an empty pool still holds the address of the buffer. */
  function Chained(first: nat, st: seq<nat>): seq<nat> { if st == [] then [first] else st }

  /** The first byte behind n blocks. */
  function PoolEnd(base: nat, stride: nat, n: nat): nat
    decreases n
  {
    if n == 0 then base else PoolEnd(base + stride, stride, n - 1)
  }

  lemma {:induction false} BlocksAt(base: nat, stride: nat, n: nat, k: nat)
    requires k < n
    ensures Blocks(base, stride, n)[k] == BlockAddr(base, stride, k)
    decreases n
  {
    if k > 0 {
      BlocksAt(base + stride, stride, n - 1, k - 1);
      assert (k - 1) * stride + stride == k * stride;
    }
  }

  lemma {:induction false} PoolEndAt(base: nat, stride: nat, n: nat)
    ensures PoolEnd(base, stride, n) == base + n * stride
    decreases n
  {
    if n > 0 {
      PoolEndAt(base + stride, stride, n - 1);
      assert (n - 1) * stride + stride == n * stride;
    }
  }

  /** Aligned addresses between base and end, one stride apart, so pairwise disjoint. */
  ghost predicate Laid(st: seq<nat>, base: nat, stride: nat, end: nat) {
    && (st != [] ==> st[0] == base)
    && (forall k :: 0 <= k < |st| ==> st[k] % 4 == 0 && base <= st[k] && st[k] + stride <= end)
    && (forall k, m {:trigger st[k], st[m]} :: 0 <= k < m < |st| && m == k + 1 ==> st[m] == st[k] + stride)
    && (forall j, k :: 0 <= j < k < |st| ==> st[j] + stride <= st[k])
  }

  lemma {:induction false} BlocksLaid(base: nat, stride: nat, n: nat)
    requires base % 4 == 0 && stride % 4 == 0
    ensures Laid(Blocks(base, stride, n), base, stride, PoolEnd(base, stride, n))
    ensures base <= PoolEnd(base, stride, n)
    decreases n
  {
    if n > 0 {
      BlocksLaid(base + stride, stride, n - 1);
      LaidCons(Blocks(base + stride, stride, n - 1), base, stride, PoolEnd(base, stride, n));
    }
  }

  lemma LaidCons(tail: seq<nat>, base: nat, stride: nat, end: nat)
    requires base % 4 == 0 && stride % 4 == 0 && base + stride <= end
    requires Laid(tail, base + stride, stride, end)
    ensures Laid([base] + tail, base, stride, end)
  {
    var st := [base] + tail;
    assert forall k {:trigger st[k]} :: 0 < k < |st| ==> st[k] == tail[k - 1];
  }

  class OsMempool {
    const mem: array<Word>
    var blockSize: Word
    var numBlocks: nat
    var numFree: nat
    var minFree: nat
    var membufAddr: Word
    var head: Word
    ghost var free: seq<nat>
    ghost var out: set<nat>

    constructor (mem: array<Word>)
      ensures this.mem == mem && numFree == 0 && fresh(this)
    {
      this.mem := mem;
      blockSize, numBlocks, numFree, minFree, membufAddr, head := 0, 0, 0, 0, NULL, NULL;
      free, out := [], {};
    }

    /** true_block_size: Geometry shows that OS_ALIGN computes it. */
    ghost function Stride(): nat
      reads this
    {
      RoundUp(blockSize)
    }

    ghost function Abs(): PoolSpec
      reads this
    {
      PoolSpec(Blocks(membufAddr, Stride(), numBlocks), free, out, minFree)
    }

    /** The buffer of the pool lies in memory, below the sign bit of C's int. */
    ghost predicate Placed()
      reads this
    {
      && 1 <= numBlocks <= MAX_BLOCKS && blockSize > 0
      && mem.Length <= 0x2000_0000
      && membufAddr > 0 && membufAddr % 4 == 0
      && PoolEnd(membufAddr, Stride(), numBlocks) <= 4 * mem.Length
    }

    ghost predicate Valid()
      reads this, mem
    {
      && Placed()
      && Linked(mem, head, free)
      && Partition(Abs())
      && numFree == |free|
    }

    lemma Geometry()
      requires Placed()
      ensures OsAlign(blockSize) == Stride() && Stride() % 4 == 0 && blockSize <= Stride()
      ensures membufAddr + 4 <= 4 * mem.Length
      ensures Laid(Abs().blocks, membufAddr, Stride(), 4 * mem.Length)
    {
      BlocksLaid(membufAddr, Stride(), numBlocks);
      BlocksLaid(membufAddr + Stride(), Stride(), numBlocks - 1);
      OsAlignRounds(blockSize);
    }

    /** os_mempool_init. A zero-block pool with a NULL buffer passes the parameter checks
        and then stores its end-of-list mark through NULL. */
    method Init(blocks: nat, size: Word, membuf: Word) returns (r: OsError)
      requires blocks <= MAX_BLOCKS && mem.Length <= 0x2000_0000
      requires size > 0 && membuf > 0 && membuf % 4 == 0 ==>
        membuf + 4 <= 4 * mem.Length && membuf + blocks * RoundUp(size) <= 4 * mem.Length
      modifies this, mem
      ensures r == (if size == 0 || (membuf == NULL && blocks != 0) then OS_INVALID_PARM
                    else if membuf % 4 != 0 then OS_MEM_NOT_ALIGNED
                    else if membuf == NULL then NULL_WRITE
                    else OS_OK)
      ensures r == OS_OK && blocks > 0 ==>
        && Valid() && membufAddr == membuf && blockSize == size && numBlocks == blocks
        && Abs() == Fresh(Blocks(membuf, RoundUp(size), blocks))
      ensures r == OS_OK && blocks == 0 ==>
        && numFree == 0 && numBlocks == 0 && membufAddr == membuf
        && blockSize == size && Linked(mem, head, [membuf])
      ensures r == OS_OK ==> OnlyLinks(old(mem[..]), mem[..], FirstWords(Chained(membufAddr, Abs().blocks)))
      ensures r == OS_INVALID_PARM || r == OS_MEM_NOT_ALIGNED ==>
        unchanged(this) && unchanged(mem)
    {
      if size == 0 { return OS_INVALID_PARM; }
      if membuf == NULL && blocks != 0 { return OS_INVALID_PARM; }
      LowTwoBits(membuf);
      if membuf != NULL && And(membuf, ALIGNMENT - 1) != 0 { return OS_MEM_NOT_ALIGNED; }
      blockSize := size;
      numFree, minFree, numBlocks := blocks, blocks, blocks;
      membufAddr := membuf;
      head := membuf;
      if membuf == NULL { return NULL_WRITE; }
      PoolEndAt(membuf, RoundUp(size), blocks);
      Relink();
      r := OS_OK;
    }

    /** hosted_mempool_create. `given` is memory from the caller, of givenSize bytes, or NULL; then
        `heap` is what the allocator returned for a request of HeapRequest bytes. control tells
        that the two control blocks were allocated. The block count is passed on as 16 bits. */
    method Create(given: Word, givenSize: Word, heap: Word, control: bool, num: Word, size: Word) returns (ok: bool)
      requires mem.Length <= 0x2000_0000
      requires given == NULL && heap != NULL ==>
        && num * RoundUp(size) + 4 < U32 && heap % 4 == 0 && heap + HeapRequest(num, size) <= 4 * mem.Length
      requires given != NULL && given % 4 == 0 && TakesGiven(num, size, givenSize) ==>
        given + 4 <= 4 * mem.Length && given + num % 0x1_0000 * RoundUp(size) <= 4 * mem.Length
      modifies this, mem
      ensures ok <==>
        && control && size != 0
        && if given == NULL then heap != NULL else given % 4 == 0 && TakesGiven(num, size, givenSize)
      ensures !ok ==> unchanged(this) && unchanged(mem)
      ensures ok && num % 0x1_0000 != 0 ==>
        && Valid() && numBlocks == num % 0x1_0000 && blockSize == size
        && Abs() == Fresh(Blocks(if given == NULL then heap else given, RoundUp(size), num % 0x1_0000))
      ensures ok && num % 0x1_0000 == 0 ==> numFree == 0
      ensures ok ==> OnlyLinks(old(mem[..]), mem[..], FirstWords(Chained(membufAddr, Abs().blocks)))
      ensures ok ==> membufAddr == if given == NULL then heap else given
    {
      var buffer := given;
      if given == NULL {
        buffer := heap;
        if heap == NULL { return false; }
        HeapRoom(num, size, heap);
      } else {
        if givenSize < num * size % U32 { return false; }
        LowTwoBits(given);
        if And(given, ALIGNMENT - 1) != 0 { return false; }
      }
      if !control { return false; }
      var r := Init(num % 0x1_0000, size, buffer);
      ok := r == OS_OK;
    }

    static lemma HeapRoom(num: Word, size: Word, heap: nat)
      requires num * RoundUp(size) + 4 < U32
      ensures HeapRequest(num, size) >= 4
      ensures (num % 0x1_0000) * RoundUp(size) + 4 <= HeapRequest(num, size)
    {
      var total := num * RoundUp(size);
      MulMono(num % 0x1_0000, num, RoundUp(size));
      if num >= 1 { MulMono(1, num, RoundUp(size)); }
      if size <= U32 - 4 {
        PoolBytesOf(num, size, total);
        RequestAddsFour(num, size, total);
        WrappedSum(total);
      } else {
        ZeroBytes(num, size);
      }
    }

    /** os_mempool_clear: every block becomes free, whoever holds it. */
    method ClearPool()
      requires Valid()
      modifies this, mem
      ensures Valid() && Step(old(Abs()), Clear, Abs())
      ensures OnlyLinks(old(mem[..]), mem[..], FirstWords(Abs().blocks))
      ensures numBlocks == old(numBlocks) && membufAddr == old(membufAddr) && blockSize == old(blockSize)
    {
      numFree, minFree := numBlocks, numBlocks;
      head := membufAddr;
      Relink();
    }

    /** Chaining makes every block free. */
    method Relink()
      requires numBlocks > 0 ==> Placed()
      requires mem.Length <= 0x2000_0000
      requires membufAddr > 0 && membufAddr % 4 == 0
      requires numBlocks == 0 ==> membufAddr + 4 <= 4 * mem.Length
      requires head == membufAddr && numFree == minFree == numBlocks && blockSize > 0
      modifies mem, this`free, this`out
      ensures numBlocks > 0 ==> Valid() && Abs() == Fresh(Abs().blocks)
      ensures numBlocks == 0 ==> Linked(mem, head, [membufAddr])
      ensures OnlyLinks(old(mem[..]), mem[..], FirstWords(Chained(membufAddr, Abs().blocks)))
    {
      if numBlocks > 0 { Geometry(); }
      free, out := Abs().blocks, {};
      ChainBlocks(free);
      if numBlocks > 0 { FreshIsValid(); }
    }

    /** A placed pool whose list threads all blocks in address order is a fresh pool. */
    lemma FreshIsValid()
      requires Placed() && free == Abs().blocks && out == {}
      requires numFree == minFree == numBlocks && Linked(mem, head, free)
      ensures Valid() && Abs() == Fresh(Abs().blocks)
    {
      Geometry();
    }

    /** The chaining loop that init and clear share: each block's first word links to the
        next block, the last one holds NULL. */
    method ChainBlocks(ghost st: seq<nat>)
      requires membufAddr > 0 && membufAddr % 4 == 0 && membufAddr + 4 <= 4 * mem.Length
      requires mem.Length <= 0x2000_0000
      requires numBlocks > 1 ==> OsAlign(blockSize) == Stride()
      requires |st| == numBlocks && blockSize > 0 && Laid(st, membufAddr, Stride(), 4 * mem.Length)
      modifies mem
      ensures Linked(mem, membufAddr, Chained(membufAddr, st))
      ensures OnlyLinks(old(mem[..]), mem[..], FirstWords(Chained(membufAddr, st)))
    {
      var stride := OsAlign(blockSize);
      var blocks: nat := numBlocks;
      var blockAddr, blockPtr: nat := membufAddr, membufAddr;
      ghost var done, list := 0, Chained(membufAddr, st);
      LaidInMemory(st, membufAddr, Stride(), mem.Length);
      while blocks > 1
        invariant InMemory(list, mem.Length)
        invariant done < |list| && (blocks > 0 ==> done + blocks == |list|) && (blocks == 0 ==> done == 0 && |list| == 1)
        invariant blockAddr == blockPtr == list[done]
        invariant LinkedUpTo(mem[..], list, done) && OnlyLinks(old(mem[..]), mem[..], FirstWords(list))
      {
        assert list[done + 1] == list[done] + stride;
        blockAddr := blockAddr + stride;
        StoreLink(blockPtr, blockAddr, list, done, old(mem[..]));
        blockPtr := blockAddr;
        blocks := blocks - 1;
        done := done + 1;
      }
      StoreLink(blockPtr, NULL, list, done, old(mem[..]));
      AllLinked(mem, list);
    }

    /** SLIST_NEXT(block, mb_next) = next, for the block that is next in the list. */
    method StoreLink(block: nat, next: Word, ghost list: seq<nat>, ghost done: nat, ghost before: seq<Word>)
      requires InMemory(list, mem.Length) && LinkedUpTo(mem[..], list, done) && block == list[done]
      requires OnlyLinks(before, mem[..], FirstWords(list))
      modifies mem
      ensures LinkedUpTo(mem[..], list, done) && mem[block / 4] == next
      ensures done + 1 < |list| && next == list[done + 1] ==> LinkedUpTo(mem[..], list, done + 1)
      ensures OnlyLinks(before, mem[..], FirstWords(list))
    {
      LinkMore(mem[..], list, done, next);
      OnlyLinksMore(before, mem[..], list, done, next);
      ghost var linked := mem[..][block / 4 := next];
      mem[block / 4] := next;
      assert mem[..] == linked;
    }

    /** Different blocks do not overlap; a block is a multiple of 4 and inside memory. */
    lemma Apart(a: nat, b: nat)
      requires Placed() && a in Abs().blocks && b in Abs().blocks
      ensures a != b ==> a + Stride() <= b || b + Stride() <= a
      ensures a % 4 == 0 && 0 < a && a + Stride() <= 4 * mem.Length && Stride() >= 4
    {
      Geometry();
      var i :| 0 <= i < numBlocks && Abs().blocks[i] == a;
      var j :| 0 <= j < numBlocks && Abs().blocks[j] == b;
    }

    /** os_memblock_from: exactly the start addresses of this pool's blocks pass. */
    method MemblockFrom(addr: Word) returns (r: bool)
      requires numBlocks > 0 ==> Placed()
      ensures r <==> addr in Abs().blocks
    {
      if numBlocks > 0 { Geometry(); }
      var stride := OsAlign(blockSize);
      var end := membufAddr + numBlocks * stride;
      PoolEndAt(membufAddr, stride, numBlocks);
      if addr < membufAddr || addr >= end {
        r := false;
      } else {
        r := (addr - membufAddr) % stride == 0;
      }
      if numBlocks > 0 { FromMeans(addr, r); }
    }

    /** The pool's blocks are the addresses base + k * stride. */
    lemma BlockAddresses(addr: nat)
      requires Placed()
      ensures addr in Abs().blocks <==>
        exists k :: 0 <= k < numBlocks && addr == membufAddr + k * RoundUp(blockSize)
    {
      Geometry();
      if addr in Abs().blocks {
        var k :| 0 <= k < numBlocks && Abs().blocks[k] == addr;
        BlocksAt(membufAddr, Stride(), numBlocks, k);
        assert addr == membufAddr + k * RoundUp(blockSize);
      }
      forall k | 0 <= k < numBlocks && addr == membufAddr + k * RoundUp(blockSize)
        ensures addr in Abs().blocks
      {
        BlocksAt(membufAddr, Stride(), numBlocks, k);
        assert Abs().blocks[k] == addr;
      }
    }

    lemma FromMeans(addr: nat, r: bool)
      requires Placed()
      requires r == (membufAddr <= addr < membufAddr + numBlocks * OsAlign(blockSize)
                     && (addr - membufAddr) % OsAlign(blockSize) == 0)
      ensures r <==> addr in Abs().blocks
    {
      Geometry();
      var t := Stride();
      if r {
        var k := OnGrid(addr - membufAddr, t, numBlocks);
        BlocksAt(membufAddr, t, numBlocks, k);
        assert Abs().blocks[k] == addr;
      }
      if addr in Abs().blocks {
        var k :| 0 <= k < numBlocks && Abs().blocks[k] == addr;
        BlocksAt(membufAddr, t, numBlocks, k);
        GridPoint(k, t, numBlocks);
      }
    }

    static lemma OnGrid(d: nat, t: nat, n: nat) returns (k: nat)
      requires t > 0 && d < n * t && d % t == 0
      ensures k < n && d == k * t
    {
      k := d / t;
      assert d == t * k;
      if k >= n { MulMono(n, k, t); }
    }

    static lemma GridPoint(k: nat, t: nat, n: nat)
      requires t > 0 && k < n
      ensures k * t < n * t && (k * t) % t == 0
    {
      MulMono(k + 1, n, t);
      DivModUnique(k * t, t, k, 0);
    }

    /** os_mempool_is_sane, on any list that ends: true exactly when every listed address is
        one of the pool's blocks. So it is false on the zero-block pool that init accepts,
        whose list still holds the buffer address. */
    method IsSane(ghost st: seq<nat>) returns (sane: bool)
      requires (numBlocks > 0 ==> Placed()) && Linked(mem, head, st)
      ensures sane <==> forall a :: a in st ==> a in Abs().blocks
    {
      var block := head;
      ghost var i := 0;
      while block != NULL
        invariant 0 <= i <= |st| && block == (if i < |st| then st[i] else NULL)
        invariant forall j :: 0 <= j < i ==> st[j] in Abs().blocks
        decreases |st| - i
      {
        var from := MemblockFrom(block);
        if !from {
          return false;
        }
        block := mem[block / 4];
        i := i + 1;
      }
      sane := true;
    }

    /** os_memblock_get: pop the free list and keep the low-water mark. */
    method MemblockGet() returns (block: Word)
      requires Valid() || numFree == 0
      modifies this
      ensures old(numFree) == 0 ==> block == NULL && unchanged(this)
      ensures old(Valid()) ==> Valid() && Step(old(Abs()), Get(block), Abs())
      ensures numBlocks == old(numBlocks) && membufAddr == old(membufAddr) && blockSize == old(blockSize)
    {
      block := NULL;
      if numFree != 0 {
        block := head;
        head := mem[block / 4];
        numFree := numFree - 1;
        if minFree > numFree {
          minFree := numFree;
        }
        SplitHead(free);
        out := out + {free[0]};
        free := free[1..];
      }
    }

    static lemma SplitHead(s: seq<nat>)
      requires s != [] && NoDup(s)
      ensures Elems(s) == {s[0]} + Elems(s[1..]) && s[0] !in Elems(s[1..]) && NoDup(s[1..])
    {
    }

    /** The 16-bit counter of free blocks, one up. */
    static function Counted(numFree: nat): nat { (numFree + 1) % 0x1_0000 }

    lemma {:induction false} CountFits(block: nat)
      requires Placed() && Partition(Abs()) && numFree == |free|
      ensures |free| <= numBlocks <= MAX_BLOCKS
      ensures block in out ==> Counted(numFree) == numFree + 1
    {
      PartitionSizes(Abs());
      assert block in out ==> out != {};
    }

    /** os_memblock_put: push whatever address it is given, whatever state the pool is in; its first
        word becomes the link. For an outstanding block of an intact pool that is a push on the
        stack of free ones. */
    method MemblockPut(block: Word) returns (r: OsError)
      requires block % 4 == 0 && block < 4 * mem.Length
      modifies this, mem
      ensures block == NULL ==> r == OS_INVALID_PARM && unchanged(this) && unchanged(mem)
      ensures block != NULL ==> r == OS_OK && head == block && numFree == Counted(old(numFree))
      ensures block != NULL ==> mem[..] == old(mem[..])[block / 4 := old(head)] && minFree == old(minFree)
      ensures old(Valid() && block in out) ==> Valid() && Step(old(Abs()), Put(block), Abs())
      ensures numBlocks == old(numBlocks) && membufAddr == old(membufAddr) && blockSize == old(blockSize)
    {
      if block == NULL { return OS_INVALID_PARM; }
      r := PutFromCb(block);
    }

    /** os_memblock_put_from_cb. */
    method PutFromCb(block: Word) returns (r: OsError)
      requires block != NULL && block % 4 == 0 && block < 4 * mem.Length
      modifies this, mem
      ensures r == OS_OK && head == block && numFree == Counted(old(numFree)) && minFree == old(minFree)
      ensures mem[..] == old(mem[..])[block / 4 := old(head)]
      ensures old(Valid() && block in out) ==> Valid() && Step(old(Abs()), Put(block), Abs())
      ensures numBlocks == old(numBlocks) && membufAddr == old(membufAddr) && blockSize == old(blockSize)
    {
      ghost var outstanding := Valid() && block in out;
      if outstanding {
        Outside(block);
        CountFits(block);
        PutPartition(Abs(), block);
        assert block in Elems(Abs().blocks);
      }
      ghost var freed := [block] + free;
      mem[block / 4] := head;
      head := block;
      numFree := Counted(numFree);
      if outstanding {
        out := out - {block};
        free := freed;
      }
      r := OS_OK;
    }

    /** Putting an address back leaves an intact free list if and only if it is an outstanding
        block: a block put back twice makes the list run in a circle, and any other address
        becomes a block that the pool never had. */
    lemma PutKeepsListExactly(block: Word)
      requires Valid() && block != NULL && block % 4 == 0 && block < 4 * mem.Length
      ensures HasIntactList(mem[..][block / 4 := head], block, Counted(numFree), Abs().blocks) <==> block in out
    {
      CountFits(block);
      if block in out {
        OutstandingFits(block);
      } else if HasIntactList(mem[..][block / 4 := head], block, Counted(numFree), Abs().blocks) {
        NoneFits(block, Counted(numFree), Abs().blocks);
        assert false;
      }
    }

    lemma NoneFits(block: Word, count: nat, blocks: seq<nat>)
      requires Valid() && block !in out && block != NULL && block % 4 == 0 && block < 4 * mem.Length
      requires count == Counted(numFree) && numFree <= MAX_BLOCKS && blocks == Abs().blocks
      ensures !HasIntactList(mem[..][block / 4 := head], block, count, blocks)
    {
      var after := mem[..][block / 4 := head];
      forall st | Intact(after, block, st, count, blocks)
        ensures false
      {
        assert st != [];
        OthersDoNot(block, st);
      }
    }

    lemma OutstandingFits(block: Word)
      requires Valid() && block in out
      ensures block / 4 < mem.Length
      ensures HasIntactList(mem[..][block / 4 := head], block, numFree + 1, Abs().blocks)
    {
      Outside(block);
      assert block in Elems(Abs().blocks);
      Apart(block, block);
      PutLinks(mem[..], head, free, block);
      var st := [block] + free;
      assert Elems(st) == {block} + Elems(free);
      var after, count, blocks := mem[..][block / 4 := head], numFree + 1, Abs().blocks;
      assert Intact(after, block, st, count, blocks);
    }

    lemma OthersDoNot(block: Word, st: seq<nat>)
      requires Valid() && block !in out && block != NULL && block % 4 == 0 && block < 4 * mem.Length
      requires LinkedIn(mem[..][block / 4 := head], block, st) && |st| == numFree + 1
      requires Elems(st) <= Elems(Abs().blocks)
      ensures !NoDup(st)
    {
      assert st[0] in Elems(st);
      assert block in Elems(free);
      var i :| 0 <= i < |free| && free[i] == block;
      forall k | 0 <= k < i
        ensures free[k] / 4 != block / 4
      {
        assert free[k] in Elems(free);
        Apart(free[k], block);
      }
      RunsBack(mem[..], head, free, block, st, i, i);
      assert st[0] == st[i + 1];
    }

    lemma Outside(block: nat)
      requires Valid() && block in out
      ensures forall i :: 0 <= i < |free| ==> free[i] / 4 != block / 4
    {
      assert block in Elems(Abs().blocks);
      forall i | 0 <= i < |free| ensures free[i] / 4 != block / 4 {
        assert free[i] in Elems(free);
        Apart(free[i], block);
      }
    }

    /** The holder of an outstanding block stores into any word of it. */
    method UserStore(block: Word, word: nat, w: Word)
      requires Valid() && block in out && 4 * word < Stride()
      modifies mem
      ensures Valid() && Step(old(Abs()), UserWrite, Abs())
      ensures block / 4 + word < mem.Length
      ensures forall i :: 0 <= i < mem.Length ==>
        mem[i] == if i == block / 4 + word then w else old(mem[i])
    {
      FreeUntouched(block, word);
      mem[block / 4 + word] := w;
    }

    lemma FreeUntouched(block: nat, word: nat)
      requires Valid() && block in out && 4 * word < Stride()
      ensures block / 4 + word < mem.Length
      ensures forall i :: 0 <= i < |free| ==> free[i] / 4 != block / 4 + word
    {
      assert block in Elems(Abs().blocks);
      Apart(block, block);
      Geometry();
      forall i | 0 <= i < |free| ensures free[i] / 4 != block / 4 + word {
        assert free[i] in Elems(free);
        Apart(free[i], block);
      }
    }

    /** hosted_mempool_alloc: get a block and clear nbytes bytes on request; nbytes is not compared
        with the block size. The pool stays intact if they lie inside the block. */
    method Alloc(nbytes: nat, needMemset: bool) returns (block: Word)
      requires Valid() && (numFree > 0 && needMemset ==> head + nbytes <= 4 * mem.Length)
      modifies this, mem
      ensures nbytes <= Stride() || !needMemset ==> Valid() && Step(old(Abs()), Get(block), Abs())
      ensures block == if old(numFree) == 0 then NULL else old(head)
      ensures forall j :: 0 <= j < 4 * mem.Length ==>
        MemByte(mem[..], j)
        == if block != NULL && needMemset && block <= j < block + nbytes then 0 else MemByte(old(mem[..]), j)
      ensures numBlocks == old(numBlocks) && membufAddr == old(membufAddr) && blockSize == old(blockSize)
    {
      block := MemblockGet();
      if block != NULL && needMemset {
        if nbytes <= Stride() { InsideKeepsLinks(block); }
        Memset(block, nbytes);
      }
    }

    /** No link of a free block lies in an outstanding one. */
    lemma InsideKeepsLinks(block: nat)
      requires Valid() && block in out
      ensures block % 4 == 0 && Stride() % 4 == 0
      ensures forall i :: 0 <= i < |free| ==> !(block / 4 <= free[i] / 4 < block / 4 + Stride() / 4)
    {
      Geometry();
      assert block in Elems(Abs().blocks);
      Apart(block, block);
      forall i | 0 <= i < |free|
        ensures !(block / 4 <= free[i] / 4 < block / 4 + Stride() / 4)
      {
        assert free[i] in Elems(free);
        Apart(free[i], block);
      }
    }

    /** memset(block, 0, nbytes). */
    method Memset(block: Word, nbytes: nat)
      requires block % 4 == 0 && block + nbytes <= 4 * mem.Length
      modifies mem
      ensures forall j :: 0 <= j < 4 * mem.Length ==>
        MemByte(mem[..], j) == if block <= j < block + nbytes then 0 else MemByte(old(mem[..]), j)
      ensures forall i :: 0 <= i < mem.Length && mem[i] != old(mem[i]) ==>
        block / 4 <= i < block / 4 + (nbytes + 3) / 4
    {
      var k := 0;
      while k < nbytes
        invariant 0 <= k <= nbytes
        invariant forall j :: 0 <= j < 4 * mem.Length ==>
          MemByte(mem[..], j) == if block <= j < block + k then 0 else MemByte(old(mem[..]), j)
        invariant forall i :: 0 <= i < mem.Length && mem[i] != old(mem[i]) ==>
          block / 4 <= i < block / 4 + (k + 3) / 4
      {
        ghost var was := mem[..];
        WithoutByteFits(mem[(block + k) / 4], (block + k) % 4);
        mem[(block + k) / 4] := WithoutByte(mem[(block + k) / 4], (block + k) % 4);
        ByteCleared(was, block + k, mem[..]);
        k := k + 1;
      }
    }
  }

  /** Byte k of a word, the lowest one first. */
  function ByteOf(w: nat, k: nat): Byte {
    if k == 0 then w % 0x100 else ByteOf(w / 0x100, k - 1)
  }

  /** Byte j of the memory. */
  function MemByte(words: seq<Word>, j: nat): Byte
    requires j < 4 * |words|
  {
    ByteOf(words[j / 4], j % 4)
  }

  /** A store of 0 to byte k of a word. */
  function WithoutByte(w: nat, k: nat): nat {
    if k == 0 then w / 0x100 * 0x100 else w % 0x100 + 0x100 * WithoutByte(w / 0x100, k - 1)
  }

  lemma {:induction false} WithoutByteFits(w: nat, k: nat)
    ensures WithoutByte(w, k) <= w
  {
    if k > 0 { WithoutByteFits(w / 0x100, k - 1); }
  }

  lemma {:induction false} OtherBytesStay(w: nat, k: nat, m: nat)
    ensures ByteOf(WithoutByte(w, k), m) == if m == k then 0 else ByteOf(w, m)
  {
    SplitByte(w, if k == 0 then w / 0x100 else WithoutByte(w / 0x100, k - 1), if k == 0 then 0 else w % 0x100);
    if k > 0 && m > 0 { OtherBytesStay(w / 0x100, k - 1, m - 1); }
  }

  lemma SplitByte(w: nat, high: nat, low: Byte)
    ensures (low + 0x100 * high) % 0x100 == low && (low + 0x100 * high) / 0x100 == high
    ensures w / 0x100 * 0x100 == 0x100 * (w / 0x100)
  {
  }

  /** The four bytes make the word. */
  lemma {:induction false} FourBytes(w: Word)
    ensures w == ByteOf(w, 0) + 0x100 * ByteOf(w, 1) + 0x1_0000 * ByteOf(w, 2) + 0x100_0000 * ByteOf(w, 3)
  {
    var w1 := w / 0x100;
    var w2 := w1 / 0x100;
    assert ByteOf(w, 1) == ByteOf(w1, 0) && ByteOf(w, 2) == ByteOf(w1, 1) == ByteOf(w2, 0);
    assert ByteOf(w, 3) == ByteOf(w1, 2) == ByteOf(w2, 1) == ByteOf(w2 / 0x100, 0);
  }

  lemma {:induction false} ByteCleared(words: seq<Word>, at: nat, after: seq<Word>)
    requires at < 4 * |words| == 4 * |after| && after[at / 4] == WithoutByte(words[at / 4], at % 4)
    requires forall i :: 0 <= i < |words| && i != at / 4 ==> after[i] == words[i]
    ensures forall j :: 0 <= j < 4 * |words| ==> MemByte(after, j) == if j == at then 0 else MemByte(words, j)
  {
    forall j | 0 <= j < 4 * |words|
      ensures MemByte(after, j) == if j == at then 0 else MemByte(words, j)
    {
      if j / 4 == at / 4 {
        OtherBytesStay(words[at / 4], at % 4, j % 4);
        assert j % 4 == at % 4 <==> j == at;
      }
    }
  }
}
