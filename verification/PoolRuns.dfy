/** What every run of a pool keeps: init, then gets, puts of outstanding blocks, clears and
    user stores in any order. Each method of OsMempool is one `Step` of such a run. */
module PoolRuns {
  import opened Mempool
  import opened Wrappers

  ghost predicate IsRun(blocks: seq<nat>, ops: seq<Op>, states: seq<PoolSpec>) {
    && |states| == |ops| + 1
    && NoDup(blocks) && NULL !in blocks
    && states[0] == Fresh(blocks)
    && forall i :: 0 <= i < |ops| ==> Step(states[i], ops[i], states[i + 1])
  }

  lemma StepPartition(s: PoolSpec, op: Op, s': PoolSpec)
    requires Partition(s) && Step(s, op, s')
    ensures Partition(s') && s'.blocks == s.blocks
  {
    match op
    case Get(result) =>
      if s.free != [] { OsMempool.SplitHead(s.free); }
    case Put(block) =>
      PutPartition(s, block);
    case Clear =>
    case UserWrite =>
  }

  /** In every state of every run, free and outstanding blocks partition the pool. */
  lemma {:induction false} RunPartition(blocks: seq<nat>, ops: seq<Op>, states: seq<PoolSpec>, i: nat)
    requires IsRun(blocks, ops, states) && i < |states|
    ensures Partition(states[i]) && states[i].blocks == blocks
    ensures |states[i].free| + |states[i].out| == |blocks|
  {
    if i > 0 {
      RunPartition(blocks, ops, states, i - 1);
      StepPartition(states[i - 1], ops[i - 1], states[i]);
    }
    PartitionSizes(states[i]);
  }

  /** A block handed out twice was put back, or the pool cleared, in between. */
  lemma {:induction false} NoDoubleHandOut(
    blocks: seq<nat>, ops: seq<Op>, states: seq<PoolSpec>, i: nat, j: nat, b: nat)
    requires IsRun(blocks, ops, states) && i < j < |ops|
    requires ops[i] == Get(b) && ops[j] == Get(b) && b != NULL
    ensures exists k :: i < k < j && (ops[k] == Put(b) || ops[k] == Clear)
  {
    RunPartition(blocks, ops, states, j);
    assert Step(states[j], ops[j], states[j + 1]);
    assert states[j].free[0] in Elems(states[j].free);
    if forall k :: i < k < j ==> ops[k] != Put(b) && ops[k] != Clear {
      StaysOut(blocks, ops, states, i, j, b);
    }
  }

  lemma {:induction false} StaysOut(
    blocks: seq<nat>, ops: seq<Op>, states: seq<PoolSpec>, i: nat, j: nat, b: nat)
    requires IsRun(blocks, ops, states) && i < j < |states|
    requires ops[i] == Get(b) && b != NULL
    requires forall k :: i < k < j ==> ops[k] != Put(b) && ops[k] != Clear
    ensures b in states[j].out
  {
    assert Step(states[j - 1], ops[j - 1], states[j]);
    if i + 1 < j {
      StaysOut(blocks, ops, states, i, j - 1, b);
    }
  }

  /** The least number of free blocks in states[c..i + 1]. */
  function MinFree(states: seq<PoolSpec>, c: nat, i: nat): nat
    requires c <= i < |states|
  {
    var last := |states[i].free|;
    if i == c then last
    else
      var before := MinFree(states, c, i - 1);
      if last < before then last else before
  }

  /** mp_min_free is exactly the lowest number of free blocks since init or the last clear. */
  lemma {:induction false} LowWaterMark(
    blocks: seq<nat>, ops: seq<Op>, states: seq<PoolSpec>, c: nat, i: nat)
    requires IsRun(blocks, ops, states) && c <= i < |states|
    requires c == 0 || ops[c - 1] == Clear
    requires forall k :: c <= k < i ==> ops[k] != Clear
    ensures states[i].low == MinFree(states, c, i)
  {
    if c == i {
      if c > 0 { assert Step(states[c - 1], ops[c - 1], states[c - 1 + 1]); }
    } else {
      LowWaterMark(blocks, ops, states, c, i - 1);
      RunPartition(blocks, ops, states, i - 1);
      LowStep(states[i - 1], ops[i - 1], states[i - 1 + 1]);
    }
  }

  lemma LowStep(s: PoolSpec, op: Op, s': PoolSpec)
    requires Step(s, op, s') && op != Clear && s.low <= |s.free|
    ensures s'.low == if |s'.free| < s.low then |s'.free| else s.low
  {
  }

  function Puts(bs: seq<nat>): seq<Op> {
    if bs == [] then [] else Puts(bs[..|bs| - 1]) + [Put(bs[|bs| - 1])]
  }

  function Gets(rs: seq<nat>): seq<Op> {
    if rs == [] then [] else [Get(rs[0])] + Gets(rs[1..])
  }

  /** The operations take s to s'. */
  ghost predicate Leads(s: PoolSpec, ops: seq<Op>, s': PoolSpec)
    decreases |ops|
  {
    if ops == [] then s' == s
    else exists m :: Step(s, ops[0], m) && Leads(m, ops[1..], s')
  }

  /** The pool is a stack: blocks put back come out again last first, and getting as many
      as were put restores the free list and the outstanding set. */
  lemma LifoOrder(s: PoolSpec, bs: seq<nat>, m: PoolSpec, rs: seq<nat>, s': PoolSpec)
    requires Partition(s) && |rs| == |bs|
    requires Leads(s, Puts(bs), m) && Leads(m, Gets(rs), s')
    ensures rs == Reverse(bs) && s'.free == s.free && s'.out == s.out
  {
    PutsPush(s, bs, m);
    GetsPop(m, rs, s', Reverse(bs), s.free);
    assert Elems(Reverse(bs)) == Elems(bs) by { ReverseElems(bs); }
  }

  lemma {:induction false} PutsPush(s: PoolSpec, bs: seq<nat>, m: PoolSpec)
    requires Partition(s) && Leads(s, Puts(bs), m)
    ensures Partition(m) && m.free == Reverse(bs) + s.free
    ensures Elems(bs) <= s.out && m.out == s.out - Elems(bs)
    decreases |bs|
  {
    if bs != [] {
      var front, last := bs[..|bs| - 1], bs[|bs| - 1];
      var k := LastStep(s, Puts(front), Put(last), m);
      PutsPush(s, front, k);
      StepPartition(k, Put(last), m);
      assert Elems(bs) == Elems(front) + {last} by { assert bs == front + [last]; }
      PushedOn(last, Reverse(front), s.free);
    }
  }

  lemma PushedOn(x: nat, r: seq<nat>, free: seq<nat>)
    ensures [x] + r + free == [x] + (r + free)
  {
  }

  lemma {:induction false} LastStep(s: PoolSpec, ops: seq<Op>, op: Op, s': PoolSpec) returns (k: PoolSpec)
    requires Leads(s, ops + [op], s')
    ensures Leads(s, ops, k) && Step(k, op, s')
    decreases |ops|
  {
    var all := ops + [op];
    var m :| Step(s, all[0], m) && Leads(m, all[1..], s');
    if ops == [] {
      assert all[1..] == [];
      k := s;
    } else {
      assert all[1..] == ops[1..] + [op];
      k := LastStep(m, ops[1..], op, s');
    }
  }

  lemma {:induction false} GetsPop(m: PoolSpec, rs: seq<nat>, s': PoolSpec, top: seq<nat>, rest: seq<nat>)
    requires Partition(m) && Leads(m, Gets(rs), s') && m.free == top + rest && |top| == |rs|
    ensures rs == top && s'.free == rest && s'.out == m.out + Elems(top)
    decreases |rs|
  {
    if rs != [] {
      var k :| Step(m, Get(rs[0]), k) && Leads(k, Gets(rs)[1..], s');
      assert Gets(rs)[1..] == Gets(rs[1..]);
      StepPartition(m, Get(rs[0]), k);
      assert k.free == top[1..] + rest;
      GetsPop(k, rs[1..], s', top[1..], rest);
      assert rs == [rs[0]] + rs[1..] && top == [top[0]] + top[1..];
      assert Elems(top) == {top[0]} + Elems(top[1..]);
    }
  }

  lemma {:induction false} ReverseElems(s: seq<nat>)
    ensures Elems(Reverse(s)) == Elems(s)
  {
    if s != [] {
      var front, last := s[..|s| - 1], s[|s| - 1];
      ReverseElems(front);
      assert s == front + [last];
      assert Elems(Reverse(s)) == {last} + Elems(Reverse(front));
    }
  }
}
