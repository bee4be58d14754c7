/** The transmit length register of half-duplex SPI. The slave adds the length of every buffer
    it loads; the host keeps its own count of what it fetched and reads the difference. Both
    counts are 24 bits wide, the bits above carry interrupts. */
module SpiHdLength {
  import opened Bits

  const LEN_MASK: nat := 0xFF_FFFF
  const INT_MASK: nat := Shl(3, 24)
  const LEN_RANGE: nat := 0x100_0000
  const MAX_BUFFER_SIZE: nat := 1600

  class Slave {
    var txReadyBufSize: Word

    /** cb_tx_ready: the length part counts on modulo 2^24, the two interrupt bits stay. */
    method CbTxReady(len: Word)
      modifies this
      ensures txReadyBufSize == Loaded(old(txReadyBufSize), len)
      ensures txReadyBufSize % LEN_RANGE == (old(txReadyBufSize) % LEN_RANGE + len) % LEN_RANGE
      ensures txReadyBufSize / LEN_RANGE == old(txReadyBufSize) / LEN_RANGE % 4
    {
      var intMask := And(txReadyBufSize, INT_MASK);
      var length := And(Wrap(And(txReadyBufSize, LEN_MASK) + len), LEN_MASK);
      TxReadyMeans(txReadyBufSize, len, length, intMask);
      txReadyBufSize := Or(length, intMask);
      LoadedParts(old(txReadyBufSize), len);
    }

    /** cb_cmd9_recv: the interrupt bits are cleared, the length part stays. */
    method CbCmd9Recv()
      modifies this
      ensures txReadyBufSize == old(txReadyBufSize) % LEN_RANGE == old(txReadyBufSize) % 0x100_0000
    {
      MaskedLength(txReadyBufSize);
      txReadyBufSize := And(txReadyBufSize, LEN_MASK);
    }
  }

  class Host {
    var rxByteCount: Word

    /** The length part of spi_hd_read_task: how many bytes to fetch for a register value. */
    method Fetch(register: Word) returns (size: nat)
      requires rxByteCount < LEN_RANGE
      modifies this
      ensures size == Fetched(register, old(rxByteCount))
      ensures size == Outstanding(register, old(rxByteCount)) || size == 0
      ensures size == 0 <==>
        Outstanding(register, old(rxByteCount)) == 0 || Outstanding(register, old(rxByteCount)) > MAX_BUFFER_SIZE
      ensures rxByteCount == (old(rxByteCount) + size) % LEN_RANGE
    {
      size := Ahead(register);
      if size == 0 || size > MAX_BUFFER_SIZE {
        size := 0;
        return;
      }
      MaskedLength(rxByteCount + size);
      rxByteCount := And(rxByteCount + size, LEN_MASK);
    }

    method Ahead(register: Word) returns (size: nat)
      requires rxByteCount < LEN_RANGE
      ensures size == Outstanding(register, rxByteCount)
    {
      var current := And(register, LEN_MASK);
      MaskedLength(register);
      var difference := Wrap(U32 + current - rxByteCount);
      size := And(difference, LEN_MASK);
      FetchMeans(register, rxByteCount, current, difference, size);
    }
  }

  /** How far the host's count is behind the register, modulo 2^24. */
  function Outstanding(register: nat, count: nat): (ahead: nat)
    requires count < LEN_RANGE
    ensures ahead < LEN_RANGE
  {
    (LEN_RANGE + register % LEN_RANGE - count) % LEN_RANGE
  }

  /** What the host fetches. */
  function Fetched(register: nat, count: nat): nat
    requires count < LEN_RANGE
  {
    if Outstanding(register, count) > MAX_BUFFER_SIZE then 0 else Outstanding(register, count)
  }

  /** The register when a buffer has been loaded. */
  function Loaded(register: Word, len: Word): Word {
    (register % LEN_RANGE + len) % LEN_RANGE + LEN_RANGE * (register / LEN_RANGE % 4)
  }

  lemma {:induction false} LoadedParts(register: Word, len: Word)
    ensures Loaded(register, len) % LEN_RANGE == (register % LEN_RANGE + len) % LEN_RANGE
    ensures Loaded(register, len) / LEN_RANGE == register / LEN_RANGE % 4
  {
    var length, bits := (register % LEN_RANGE + len) % LEN_RANGE, register / LEN_RANGE % 4;
    SumParts(length, bits, LEN_RANGE * bits + length);
  }

  lemma MaskedLength(v: nat)
    ensures And(v, LEN_MASK) == v % LEN_RANGE
  {
    Powers();
    AndLowMask(v, 24);
  }

  lemma {:induction false} MaskedInt(v: Word)
    ensures And(v, INT_MASK) == LEN_RANGE * (v / LEN_RANGE % 4)
  {
    var x := Shr(v, 24);
    AndShifted(v, 3, 24);
    TopByte(v);
    LowTwo(x);
    Raised(x % 4);
  }

  lemma {:induction false} TopByte(v: Word)
    ensures Shr(v, 24) == v / LEN_RANGE
  {
    Shifts(v);
  }

  lemma {:induction false} LowTwo(x: nat)
    ensures And(x, 3) == x % 4
  {
    Powers();
    AndLowMask(x, 2);
  }

  lemma {:induction false} Raised(x: nat)
    ensures Shl(x, 24) == LEN_RANGE * x
  {
    Shifts(x);
  }

  lemma {:induction false} JoinedIsSum(length: nat, bits: nat)
    requires length < LEN_RANGE
    ensures Or(length, LEN_RANGE * bits) == LEN_RANGE * bits + length
  {
    Powers();
    Shifts(bits);
    OrDisjoint(length, bits, 24);
  }

  lemma SumParts(length: nat, bits: nat, sum: nat)
    requires length < LEN_RANGE && bits < 4 && sum == LEN_RANGE * bits + length
    ensures sum < U32 && sum % LEN_RANGE == length && sum / LEN_RANGE == bits
  {
  }

  lemma {:induction false} NewLength(v: Word, len: Word)
    ensures And(Wrap(And(v, LEN_MASK) + len), LEN_MASK) == (v % LEN_RANGE + len) % LEN_RANGE
  {
    MaskedLength(v);
    var sum := v % LEN_RANGE + len;
    MaskedLength(Wrap(sum));
    WrapKeepsLength(sum);
  }

  lemma {:induction false} TxReadyMeans(v: Word, len: Word, length: nat, intMask: nat)
    requires length == And(Wrap(And(v, LEN_MASK) + len), LEN_MASK) && intMask == And(v, INT_MASK)
    ensures Or(length, intMask) == Loaded(v, len)
  {
    NewLength(v, len);
    var bits := v / LEN_RANGE % 4;
    assert intMask == LEN_RANGE * bits by { MaskedInt(v); }
    JoinedIsSum(length, bits);
  }

  lemma WrapKeepsLength(v: nat)
    ensures Wrap(v) % LEN_RANGE == v % LEN_RANGE
  {
    WrapIsMod(v);
  }

  lemma {:induction false} FetchMeans(register: Word, count: nat, current: nat, difference: nat, size: nat)
    requires current == register % LEN_RANGE && count < LEN_RANGE
    requires difference == Wrap(U32 + current - count) && size == And(difference, LEN_MASK)
    ensures size == Outstanding(register, count)
  {
    MaskedLength(difference);
    WrapKeepsLength(U32 + current - count);
    DifferenceIsOutstanding(current, count);
  }

  lemma DifferenceIsOutstanding(current: nat, count: nat)
    requires current < LEN_RANGE && count < LEN_RANGE
    ensures (U32 + current - count) % LEN_RANGE == (LEN_RANGE + current - count) % LEN_RANGE
  {
  }

  // ---------- both ends ----------

  /** lens and sizes: what the slave loaded and what the host fetched so far. */
  datatype Link = Link(register: Word, count: Word, lens: seq<nat>, sizes: seq<nat>)

  datatype Action = Load(len: nat) | CommandNine | Read(size: nat)

  /** The steps are those of the methods above, in any order. */
  ghost predicate Next(s: Link, a: Action, s': Link) {
    match a
    case Load(len) =>
      0 < len < U32 && s' == s.(register := Loaded(s.register, len), lens := s.lens + [len])
    case CommandNine => s' == s.(register := s.register % LEN_RANGE)
    case Read(size) =>
      && s.count < LEN_RANGE && size == Fetched(s.register, s.count)
      && s' == s.(count := (s.count + size) % LEN_RANGE, sizes := s.sizes + if size == 0 then [] else [size])
  }

  ghost predicate IsRun(states: seq<Link>, actions: seq<Action>) {
    && |states| == |actions| + 1 && states[0] == Link(0, 0, [], [])
    && forall i :: 0 <= i < |actions| ==> Next(states[i], actions[i], states[i + 1])
  }

  function Total(lens: seq<nat>): nat {
    if lens == [] then 0 else Total(lens[..|lens| - 1]) + lens[|lens| - 1]
  }

  lemma TotalSnoc(lens: seq<nat>, len: nat)
    ensures Total(lens + [len]) == Total(lens) + len
  {
    assert (lens + [len])[..|lens|] == lens;
  }

  /** Bytes loaded and not yet fetched. */
  function Backlog(s: Link): int { Total(s.lens) - Total(s.sizes) }

  /** Both counts are right modulo 2^24, and the host is not ahead. */
  ghost predicate Counted(s: Link) {
    && 0 <= Backlog(s) && s.register % LEN_RANGE == Total(s.lens) % LEN_RANGE
    && s.count == Total(s.sizes) % LEN_RANGE
  }

  lemma Counting(total: nat, part: nat, len: nat)
    requires part == total % LEN_RANGE
    ensures (part + len) % LEN_RANGE == (total + len) % LEN_RANGE
  {
  }

  lemma Behind(register: nat, count: nat, loaded: nat, fetched: nat)
    requires register % LEN_RANGE == loaded % LEN_RANGE && count == fetched % LEN_RANGE && fetched <= loaded
    ensures Outstanding(register, count) == (loaded - fetched) % LEN_RANGE <= loaded - fetched
  {
  }

  lemma {:induction false} LoadCounted(s: Link, len: nat, s': Link)
    requires Counted(s) && Next(s, Load(len), s')
    ensures Counted(s') && Backlog(s') == Backlog(s) + len
  {
    TotalSnoc(s.lens, len);
    LoadedParts(s.register, len);
    Counting(Total(s.lens), s.register % LEN_RANGE, len);
  }

  lemma {:induction false} ReadCounted(s: Link, size: nat, s': Link)
    requires Counted(s) && Next(s, Read(size), s')
    ensures Counted(s') && Backlog(s') == Backlog(s) - size
    ensures size == if Backlog(s) % LEN_RANGE > MAX_BUFFER_SIZE then 0 else Backlog(s) % LEN_RANGE
  {
    Behind(s.register, s.count, Total(s.lens), Total(s.sizes));
    assert Total(s'.sizes) == Total(s.sizes) + size by {
      if size == 0 { assert s'.sizes == s.sizes; } else { TotalSnoc(s.sizes, size); }
    }
    Counting(Total(s.sizes), s.count, size);
  }

  lemma {:induction false} CountedStep(s: Link, a: Action, s': Link)
    requires Counted(s) && Next(s, a, s')
    ensures Counted(s')
  {
    match a
    case Load(len) => LoadCounted(s, len, s');
    case CommandNine =>
    case Read(size) => ReadCounted(s, size, s');
  }

  lemma {:induction false} RunCounted(states: seq<Link>, actions: seq<Action>, i: nat)
    requires IsRun(states, actions) && i < |states|
    ensures Counted(states[i])
  {
    if i > 0 {
      RunCounted(states, actions, i - 1);
      CountedStep(states[i - 1], actions[i - 1], states[i - 1 + 1]);
    }
  }

  /** However often both counters wrap and however many buffers are loaded between two reads:
      what the host computes is what was loaded and not yet fetched, modulo 2^24. */
  lemma {:induction false} OutstandingIsBacklog(states: seq<Link>, actions: seq<Action>, i: nat)
    requires IsRun(states, actions) && i < |states|
    ensures 0 <= Backlog(states[i]) && states[i].count < LEN_RANGE
    ensures var s := states[i];
      && Outstanding(s.register, s.count) == Backlog(s) % LEN_RANGE
      && (Backlog(s) < LEN_RANGE ==> Total(s.sizes) + Outstanding(s.register, s.count) == Total(s.lens))
  {
    RunCounted(states, actions, i);
    var s := states[i];
    Behind(s.register, s.count, Total(s.lens), Total(s.sizes));
  }

  lemma {:induction false} ReadAll(s: Link, size: nat, s': Link)
    requires Counted(s) && Next(s, Read(size), s') && Backlog(s) < LEN_RANGE
    ensures if Backlog(s) <= MAX_BUFFER_SIZE then Backlog(s') == 0 else s' == s
  {
    ReadCounted(s, size, s');
    assert Backlog(s) % LEN_RANGE == Backlog(s);
    if size == 0 { assert s'.sizes == s.sizes && (s.count + size) % LEN_RANGE == s.count; }
  }

  /** As long as less than 2^24 bytes wait, a read leaves nothing behind if and only if what
      waits fits the host's buffer; otherwise it fetches nothing. */
  lemma {:induction false} ReadsAllExactly(states: seq<Link>, actions: seq<Action>, i: nat)
    requires IsRun(states, actions) && i < |actions| && actions[i].Read? && Backlog(states[i]) < LEN_RANGE
    ensures Total(states[i + 1].sizes) == Total(states[i + 1].lens) <==> Backlog(states[i]) <= MAX_BUFFER_SIZE
    ensures Backlog(states[i]) > MAX_BUFFER_SIZE ==> states[i + 1] == states[i]
  {
    RunCounted(states, actions, i);
    assert Next(states[i], actions[i], states[i + 1]);
    ReadAll(states[i], actions[i].size, states[i + 1]);
  }

  /** Once more waits than fits the buffer the host fetches nothing any more, unless the slave
      loads until the length wraps around. */
  lemma {:induction false} OverfullStalls(states: seq<Link>, actions: seq<Action>, i: nat, j: nat)
    requires IsRun(states, actions) && i <= j < |states| && Backlog(states[i]) > MAX_BUFFER_SIZE
    requires forall k :: i <= k < j ==> Backlog(states[k]) < LEN_RANGE
    ensures states[j].sizes == states[i].sizes && Backlog(states[j]) >= Backlog(states[i])
  {
    if i < j {
      OverfullStalls(states, actions, i, j - 1);
      StallStep(states, actions, j - 1);
    }
  }

  lemma {:induction false} StallStep(states: seq<Link>, actions: seq<Action>, k: nat)
    requires IsRun(states, actions) && k < |actions| && MAX_BUFFER_SIZE < Backlog(states[k]) < LEN_RANGE
    ensures states[k + 1].sizes == states[k].sizes && Backlog(states[k + 1]) >= Backlog(states[k])
  {
    assert Next(states[k], actions[k], states[k + 1]);
    if actions[k].Read? {
      ReadsAllExactly(states, actions, k);
    } else if actions[k].Load? {
      RunCounted(states, actions, k);
      LoadCounted(states[k], actions[k].len, states[k + 1]);
    }
  }

  // ---------- one buffer at a time ----------

  /** As the peripheral driver does it: a buffer is loaded when the one before was fetched. */
  ghost predicate OneAtATime(states: seq<Link>, actions: seq<Action>)
    requires |actions| <= |states|
  {
    forall i :: 0 <= i < |actions| && actions[i].Load? ==>
      |states[i].lens| == |states[i].sizes| && actions[i].len <= MAX_BUFFER_SIZE
  }

  /** At most the last buffer loaded is still to be fetched. */
  predicate InTurn(s: Link) {
    s.sizes == s.lens || (|s.lens| > 0 && s.sizes == s.lens[..|s.lens| - 1] && 0 < s.lens[|s.lens| - 1] <= MAX_BUFFER_SIZE)
  }

  lemma {:induction false} InTurnStep(s: Link, a: Action, s': Link)
    requires InTurn(s) && Counted(s) && Next(s, a, s')
    requires a.Load? ==> |s.lens| == |s.sizes| && a.len <= MAX_BUFFER_SIZE
    ensures InTurn(s') && (a.Read? ==> s'.sizes == s'.lens)
  {
    match a
    case Load(len) => assert (s.lens + [len])[..|s.lens|] == s.lens;
    case CommandNine =>
    case Read(size) =>
      Behind(s.register, s.count, Total(s.lens), Total(s.sizes));
      if s.sizes != s.lens { assert s.lens == s.sizes + [size]; }
  }

  /** Then the host fetches exactly the buffers the slave loaded, each once, with its length, in
      order, and at its next read nothing is left behind. */
  lemma {:induction false} HostFetchesEveryBuffer(states: seq<Link>, actions: seq<Action>, i: nat)
    requires IsRun(states, actions) && OneAtATime(states, actions) && i < |states|
    ensures InTurn(states[i]) && states[i].sizes <= states[i].lens
    ensures i > 0 && actions[i - 1].Read? ==> states[i].sizes == states[i].lens
  {
    if i > 0 {
      HostFetchesEveryBuffer(states, actions, i - 1);
      RunCounted(states, actions, i - 1);
      InTurnStep(states[i - 1], actions[i - 1], states[i - 1 + 1]);
    }
  }
}
