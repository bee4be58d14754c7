/** What holds in every interleaving of recv_task and pserial_task, for any stream of packets:
    the buffer never overflows, a request and a valid buffer belong together, and the tasks
    never block each other. */
module HandoverSafety {
  import opened Reassembly
  import opened Handover

  // ---------- the content of the buffer ----------

  /** y may stand behind x: the next byte of the same packet, or the start of a later one. */
  predicate Follows(x: Place, y: Place) {
    (y.packet == x.packet && y.at == x.at + 1) || (y.packet > x.packet && y.at == 0)
  }

  /** The first n bytes are prefixes of packets before number `bound`, in the order they came. */
  ghost predicate Joined(input: seq<Packet>, mem: seq<Place>, n: nat, bound: nat) {
    && n <= |mem| && bound <= |input|
    && (forall i :: 0 <= i < n ==> mem[i].packet < bound && mem[i].at < input[mem[i].packet].size)
    && (n > 0 ==> mem[0].at == 0)
    && forall i, j {:trigger mem[i], mem[j]} :: 0 <= i < j < n && j == i + 1 ==> Follows(mem[i], mem[j])
  }

  /** How far the bytes count: a copy under way lies behind r.len until the sum is stored. */
  function Extent(s: State): nat {
    match s.recv
    case RLoad(n, to) => to + n
    case RStore(n, to, _) => to + n
    case _ => s.len
  }

  /** Packets that may be in the buffer: not the one recv_task has yet to copy. */
  function Bound(s: State): nat {
    if (s.recv.RWait? || s.recv.RTest? || s.recv.RSet? || s.recv.RCmp? || s.recv.RCopy?) && s.sent > 0
    then s.sent - 1 else s.sent
  }

  /** What the local variables of recv_task say about r.len, which can only have fallen since. */
  ghost predicate InHand(input: seq<Packet>, s: State)
    requires s.sent <= |input| && (s.recv != RIdle ==> s.sent > 0)
  {
    match s.recv
    case RWait(room) => s.len + room <= R_SIZE
    case RTest(room) => s.len + room <= R_SIZE
    case RSet(room) => s.len + room <= R_SIZE
    case RCmp(room) => s.len + room <= R_SIZE
    case RCopy(n) => s.len + n <= R_SIZE && n <= Current(input, s).size
    case RLoad(n, to) => s.len <= to && to + n <= R_SIZE
    case RStore(n, to, loaded) => s.len <= to && loaded <= to && to + n <= R_SIZE
    case _ => true
  }

  ghost predicate Sized(input: seq<Packet>, s: State) {
    && |s.mem| == R_SIZE && !s.overrun && s.len <= R_SIZE
    && s.sent <= |input| && (s.recv != RIdle ==> s.sent > 0)
    && InHand(input, s)
  }

  ghost predicate Bounded(input: seq<Packet>, s: State) {
    Sized(input, s) && Joined(input, s.mem, Extent(s), Bound(s))
  }

  lemma {:induction false} SizedStep(input: seq<Packet>, s: State, a: Action, s': State)
    requires Sized(input, s) && Next(input, s, a, s')
    ensures Sized(input, s')
    ensures a != Copy ==> s'.mem == s.mem && Extent(s') <= Extent(s) && Bound(s) <= Bound(s')
  {
  }

  lemma {:induction false} JoinedLess(input: seq<Packet>, mem: seq<Place>, n: nat, bound: nat, n': nat, bound': nat)
    requires Joined(input, mem, n, bound) && n' <= n && bound <= bound' <= |input|
    ensures Joined(input, mem, n', bound')
  {
  }

  lemma {:induction false} JoinedMore(input: seq<Packet>, mem: seq<Place>, at: nat, packet: nat, n: nat)
    requires Joined(input, mem, at, packet) && packet < |input| && n <= input[packet].size && at + n <= |mem|
    ensures Joined(input, Written(mem, at, Prefix(packet, n)), at + n, packet + 1)
  {
    var m, p := Written(mem, at, Prefix(packet, n)), Prefix(packet, n);
    forall i | at <= i < at + n
      ensures m[i] == Place(packet, i - at)
    {
      PrefixAt(packet, n, i - at);
    }
    assert forall i :: 0 <= i < at ==> m[i] == mem[i];
  }

  lemma {:induction false} BoundedStep(input: seq<Packet>, s: State, a: Action, s': State)
    requires Bounded(input, s) && Next(input, s, a, s')
    ensures Bounded(input, s')
  {
    SizedStep(input, s, a, s');
    if a == Copy {
      JoinedMore(input, s.mem, s.len, s.sent - 1, s.recv.n);
    } else {
      JoinedLess(input, s.mem, Extent(s), Bound(s), Extent(s'), Bound(s'));
    }
  }

  /** In every state of every interleaving r.len is at most the size of the buffer, no copy ever
      left it, and the buffer is a concatenation of prefixes of different packets in the order
      they came: although the room was read before the wait, and whichever of the single reads
      and writes of the two tasks fall between each other. */
  lemma {:induction false} RunBounded(input: seq<Packet>, states: seq<State>, actions: seq<Action>, i: nat)
    requires IsRun(input, states, actions) && i < |states|
    ensures Bounded(input, states[i])
    ensures states[i].len <= R_SIZE && !states[i].overrun
    ensures Joined(input, states[i].mem, states[i].len, states[i].sent)
  {
    if i > 0 {
      RunBounded(input, states, actions, i - 1);
      BoundedStep(input, states[i - 1], actions[i - 1], states[i - 1 + 1]);
    }
    JoinedLess(input, states[i].mem, Extent(states[i]), Bound(states[i]), states[i].len, states[i].sent);
  }

  // ---------- requests ----------

  /** The copies the requests in a queue carry, first one first. */
  function Copies(q: seq<Item>): seq<seq<Place>> {
    if q == [] then []
    else
      var last := q[|q| - 1];
      if last.Request? then Copies(q[..|q| - 1]) + [last.copy] else Copies(q[..|q| - 1])
  }

  lemma CopiesSnoc(q: seq<Item>, x: Item)
    ensures Copies(q + [x]) == Copies(q) + if x.Request? then [x.copy] else []
  {
    assert (q + [x])[..|q|] == q;
  }

  lemma {:induction false} CopiesHead(q: seq<Item>)
    requires q != []
    ensures Copies(q) == (if q[0].Request? then [q[0].copy] else []) + Copies(q[1..])
    decreases |q|
  {
    if |q| == 1 {
      assert q[..0] == [] && q[1..] == [];
    } else {
      var front, back := q[..|q| - 1], q[1..];
      CopiesHead(front);
      assert front[1..] == back[..|back| - 1];
      assert back[|back| - 1] == q[|q| - 1] && front[0] == q[0];
    }
  }

  /** Requests under way, oldest first: taken by pserial_task, and queued. */
  function InFlight(s: State): seq<seq<Place>> {
    if s.pser.PGot? then [s.pser.copy] + Copies(s.queue) else Copies(s.queue)
  }

  predicate Behind(recv: Recv) {
    recv.RTest? || recv.RSet? || recv.RCmp? || recv.RCopy? || recv.RLoad? || recv.RStore? || recv == RMark
  }

  predicate Posting(recv: Recv) { recv == RPost || recv.RSend? }

  /** What a step does to the requests under way. */
  ghost predicate Moved(s: State, a: Action, flying: seq<seq<Place>>, flying': seq<seq<Place>>) {
    && (a == Send && s.recv.RSend? ==> flying' == flying + [s.recv.copy])
    && (a == Read && s.pser.PGot? ==> flying == [s.pser.copy] + flying')
    && (a != Send && a != Read ==> flying' == flying)
  }

  /** Queueing and taking keep the requests in order; events add none. */
  lemma {:induction false} InFlightKept(input: seq<Packet>, s: State, a: Action, s': State)
    requires Next(input, s, a, s')
    ensures Moved(s, a, InFlight(s), InFlight(s'))
  {
    if a == Send || a == Push {
      QueuedLast(input, s, a, s');
    } else if a == Fetch {
      CopiesHead(s.queue);
    }
  }

  lemma {:induction false} QueuedLast(input: seq<Packet>, s: State, a: Action, s': State)
    requires Next(input, s, a, s') && (a == Send || a == Push)
    ensures Moved(s, a, InFlight(s), InFlight(s'))
  {
    var x := if a == Send then Request(s.recv.copy) else EventItem;
    CopiesSnoc(s.queue, x);
    var taken := if s.pser.PGot? then [s.pser.copy] else [];
    Regroup(taken, Copies(s.queue), if x.Request? then [x.copy] else []);
  }

  lemma Regroup(x: seq<seq<Place>>, y: seq<seq<Place>>, z: seq<seq<Place>>)
    ensures x + (y + z) == x + y + z
  {
  }

  /** A valid buffer is about to be posted, or has one request under way, or was just read; a
      buffer that is not valid has none. */
  ghost predicate Paired(s: State, flying: seq<seq<Place>>) {
    && (s.pser.PGot? ==> flying != [])
    && (!s.valid ==> flying == [] && s.pser != PClrValid && !Posting(s.recv))
    && (s.valid ==> !Behind(s.recv))
    && (s.valid && (Posting(s.recv) || s.pser == PClrValid) ==>
          flying == [] && !(Posting(s.recv) && s.pser == PClrValid))
    && (s.valid && !Posting(s.recv) && s.pser != PClrValid ==> |flying| == 1)
  }

  lemma {:induction false} PairedStep(
    input: seq<Packet>, s: State, a: Action, s': State, flying: seq<seq<Place>>, flying': seq<seq<Place>>)
    requires Next(input, s, a, s') && Paired(s, flying) && Moved(s, a, flying, flying')
    requires s'.pser.PGot? ==> flying' != []
    ensures Paired(s', flying')
  {
    if a == Read { assert |flying| == 1 + |flying'|; }
  }

  ghost predicate Matched(s: State) { Paired(s, InFlight(s)) }

  lemma {:induction false} MatchedStep(input: seq<Packet>, s: State, a: Action, s': State)
    requires Matched(s) && Next(input, s, a, s')
    ensures Matched(s') && Moved(s, a, InFlight(s), InFlight(s'))
  {
    InFlightKept(input, s, a, s');
    PairedStep(input, s, a, s', InFlight(s), InFlight(s'));
  }

  lemma {:induction false} RunMatched(input: seq<Packet>, states: seq<State>, actions: seq<Action>, i: nat)
    requires IsRun(input, states, actions) && i < |states|
    ensures Matched(states[i])
  {
    if i > 0 {
      RunMatched(input, states, actions, i - 1);
      MatchedStep(input, states[i - 1], actions[i - 1], states[i - 1 + 1]);
    }
  }

  /** So pserial_task never reads a buffer that is not valid, and from the moment a buffer is
      valid until r.valid is cleared recv_task does not write to it. */
  lemma ReadsAreValid(input: seq<Packet>, states: seq<State>, actions: seq<Action>, i: nat)
    requires IsRun(input, states, actions) && i < |actions|
    ensures actions[i] == Read ==> states[i].valid
    ensures states[i].valid ==> states[i + 1].mem == states[i].mem
    ensures states[i].valid && actions[i] != ClearLen ==> states[i + 1].len == states[i].len
    ensures states[i].valid && actions[i] != ClearValid ==> states[i + 1].valid
  {
    RunMatched(input, states, actions, i);
    assert Next(input, states[i], actions[i], states[i + 1]);
  }

  /** Nothing is under way: every packet sent is taken, handled and read. */
  predicate Quiet(input: seq<Packet>, s: State) {
    s.sent == |input| && s.recv == RIdle && !s.valid && s.pser == PIdle
  }

  /** recv_task does not leave its wait loop between the writes that clear the buffer. */
  predicate Calm(s: State, a: Action) { a == Enter ==> s.pser != PClrLen && s.pser != PClrSeq }

  /** A packet that arrives while a finished message is still in the buffer fits beside it. */
  predicate Fitting(input: seq<Packet>, s: State, a: Action) {
    a == Take && s.sent < |input| && (s.valid || s.pser == PClrLen) ==>
      s.len + input[s.sent].size <= R_SIZE
  }

  /** A step of recv_task's own that can be taken when pserial_task waits on an empty queue. */
  function RecvStep(s: State): Action {
    match s.recv
    case RIdle => Take
    case RWait(_) => Enter
    case RPost => Post
    case RSend(_) => Send
    case _ => OwnStep(s.recv)
  }

  lemma GoesOn(input: seq<Packet>, s: State)
    requires Sized(input, s) && Matched(s) && !Quiet(input, s)
    ensures exists a :: a != Push && Enabled(input, s, a) && Calm(s, a) && Fitting(input, s, a)
  {
    var a := if s.pser.PGot? then Read else if s.pser == PClrValid then ClearValid
      else if s.pser == PClrLen then ClearLen else if s.pser == PClrSeq then ClearSeq
      else if s.queue != [] then Fetch else RecvStep(s);
    assert s.pser == PIdle && s.queue == [] ==> InFlight(s) == [];
    assert Enabled(input, s, a) && Calm(s, a) && Fitting(input, s, a);
  }

  /** The tasks never block each other: in every state of every run, unless it is quiet, one of
      them can go on, and by a calm and fitting step. */
  lemma NeverStuck(input: seq<Packet>, states: seq<State>, actions: seq<Action>, i: nat)
    requires IsRun(input, states, actions) && i < |states| && !Quiet(input, states[i])
    ensures exists a ::
      a != Push && Enabled(input, states[i], a) && Calm(states[i], a) && Fitting(input, states[i], a)
  {
    RunMatched(input, states, actions, i);
    RunBounded(input, states, actions, i);
    GoesOn(input, states[i]);
  }

  // ---------- sequence numbers ----------

  ghost predicate CalmUpTo(states: seq<State>, actions: seq<Action>, n: nat)
    requires n <= |actions| <= |states|
  {
    forall i :: 0 <= i < n ==> Calm(states[i], actions[i])
  }

  ghost predicate OneSequence(input: seq<Packet>, s: State)
    requires Extent(s) <= |s.mem|
  {
    && (Behind(s.recv) && s.recv != RMark ==> s.pser == PIdle)
    && (s.pser == PClrSeq ==> s.len == 0)
    && (s.recv.RSet? ==> s.len == 0)
    && ((s.recv.RCopy? || s.recv.RLoad? || s.recv.RStore?) && s.sent > 0 && s.sent <= |input| ==>
          Current(input, s).seqNum == s.seqNum)
    && forall i :: 0 <= i < Extent(s) ==>
      s.mem[i].packet < |input| && input[s.mem[i].packet].seqNum == s.seqNum
  }

  lemma {:induction false} OneSequenceStep(input: seq<Packet>, s: State, a: Action, s': State)
    requires Sized(input, s) && Matched(s) && OneSequence(input, s)
    requires Next(input, s, a, s') && Calm(s, a)
    ensures Extent(s') <= |s'.mem| && OneSequence(input, s')
  {
    SizedStep(input, s, a, s');
    MatchedStep(input, s, a, s');
    if a == Copy {
      forall i | s.len <= i < s.len + s.recv.n
        ensures s'.mem[i].packet == s.sent - 1
      {
        PrefixAt(s.sent - 1, s.recv.n, i - s.len);
      }
    }
  }

  /** In every calm run all bytes of the buffer are of one sequence, that of r.cur_seq_no. */
  lemma {:induction false} RunOneSequence(input: seq<Packet>, states: seq<State>, actions: seq<Action>, i: nat)
    requires IsRun(input, states, actions) && i <= |actions| && CalmUpTo(states, actions, i)
    ensures Extent(states[i]) <= |states[i].mem| && OneSequence(input, states[i])
  {
    RunBounded(input, states, actions, i);
    if i > 0 {
      RunOneSequence(input, states, actions, i - 1);
      RunBounded(input, states, actions, i - 1);
      RunMatched(input, states, actions, i - 1);
      OneSequenceStep(input, states[i - 1], actions[i - 1], states[i - 1 + 1]);
    }
  }
}
