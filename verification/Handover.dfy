/** recv_task and pserial_task sharing the reassembly buffer `r`. Both tasks are modelled by
    their single reads and writes of `r`, in any interleaving; only the copies out of a valid
    buffer are one step each, since nothing is written to it then. Other tasks push event
    requests into the same queue. `input` is the stream of serial packets the host sends. The
    code never looks at a payload byte, so every byte is represented by the place it came from. */
module Handover {
  import opened Reassembly

  /** The length of the request queue: 3 on the ESP32-C2, 10 elsewhere. Nothing depends on it
      but that there is room for one request. */
  const REQ_Q_MAX: QueueLength

  type QueueLength = n: nat | 1 <= n witness 1

  datatype Packet = Packet(seqNum: nat, more: bool, size: nat)

  /** Byte number `at` of the payload of packet number `packet`. */
  datatype Place = Place(packet: nat, at: nat)

  /** A request carries its own copy of the buffer. */
  datatype Item = Request(copy: seq<Place>) | EventItem

  /** What recv_task does next with the packet it took: leave the wait loop (room is
      rem_buff_size), test r.len, set and compare r.cur_seq_no, copy n bytes, load r.len, store
      the sum; or set r.valid, copy the buffer for a request, queue the request. `to` records
      where the bytes were copied to. */
  datatype Recv =
    | RIdle
    | RWait(room: nat)
    | RTest(room: nat)
    | RSet(room: nat)
    | RCmp(room: nat)
    | RCopy(n: nat)
    | RLoad(n: nat, to: nat)
    | RStore(n: nat, to: nat, loaded: nat)
    | RMark
    | RPost
    | RSend(copy: seq<Place>)

  /** pserial_task: waiting for the queue, holding a request, or about to clear a field. */
  datatype Pser = PIdle | PGot(copy: seq<Place>) | PClrValid | PClrLen | PClrSeq

  /** valid, len, seqNum and mem are the fields of `r`; overrun tells that a copy left r.data.
      sent: packets taken from the host; delivered: what serial_read_data returned. */
  datatype State = State(
    valid: bool, len: nat, seqNum: nat, mem: seq<Place>, overrun: bool,
    queue: seq<Item>, recv: Recv, pser: Pser, delivered: seq<seq<Place>>, sent: nat)

  datatype Action =
    | Take | Enter | TestLen | SetSeq | Compare | Copy | LoadLen | StoreLen | Mark | Post | Send
    | Push | Fetch | Read | ClearValid | ClearLen | ClearSeq

  /** r.data before anything was received. */
  function Blank(): (m: seq<Place>)
    ensures |m| == R_SIZE
  {
    seq(R_SIZE, i => Place(0, 0))
  }

  function Init(): State { State(false, 0, 0, Blank(), false, [], RIdle, PIdle, [], 0) }

  /** The first n bytes of a packet. */
  function Prefix(packet: nat, n: nat): (p: seq<Place>)
    ensures |p| == n
  {
    seq(n, j requires 0 <= j < n => Place(packet, j))
  }

  lemma PrefixAt(packet: nat, n: nat, j: nat)
    requires j < n
    ensures Prefix(packet, n)[j] == Place(packet, j)
  {
  }

  lemma PrefixOfPrefix(packet: nat, n: nat, m: nat)
    requires m <= n
    ensures Prefix(packet, n)[..m] == Prefix(packet, m)
  {
  }

  function Head(q: seq<Place>, n: nat): seq<Place> { if n <= |q| then q[..n] else q }

  /** memcpy into r.data. */
  function Written(mem: seq<Place>, at: nat, p: seq<Place>): (m: seq<Place>)
    requires at + |p| <= |mem|
    ensures |m| == |mem|
  {
    mem[..at] + p + mem[at + |p|..]
  }

  predicate Enabled(input: seq<Packet>, s: State, a: Action) {
    && s.sent <= |input| && (s.recv != RIdle ==> s.sent > 0)
    && match a
       case Take => s.recv == RIdle && s.sent < |input|
       case Enter => s.recv.RWait? && !s.valid
       case TestLen => s.recv.RTest?
       case SetSeq => s.recv.RSet?
       case Compare => s.recv.RCmp?
       case Copy => s.recv.RCopy?
       case LoadLen => s.recv.RLoad?
       case StoreLen => s.recv.RStore?
       case Mark => s.recv == RMark
       case Post => s.recv == RPost
       case Send => s.recv.RSend? && |s.queue| < REQ_Q_MAX
       case Push => |s.queue| < REQ_Q_MAX
       case Fetch => s.pser == PIdle && s.queue != []
       case Read => s.pser.PGot?
       case ClearValid => s.pser == PClrValid
       case ClearLen => s.pser == PClrLen
       case ClearSeq => s.pser == PClrSeq
  }

  /** The packet recv_task has in hand. */
  function Current(input: seq<Packet>, s: State): Packet
    requires 0 < s.sent <= |input|
  {
    input[s.sent - 1]
  }

  function Do(input: seq<Packet>, s: State, a: Action): State
    requires Enabled(input, s, a)
  {
    match a
    case Take => s.(recv := RWait(if s.len <= R_SIZE then R_SIZE - s.len else 0), sent := s.sent + 1)
    case Enter => s.(recv := RTest(s.recv.room))
    case TestLen => s.(recv := if s.len == 0 then RSet(s.recv.room) else RCmp(s.recv.room))
    case SetSeq => s.(seqNum := Current(input, s).seqNum, recv := RCmp(s.recv.room))
    case Compare =>
      s.(recv := if Current(input, s).seqNum != s.seqNum then RMark
                 else RCopy(Min(Current(input, s).size, s.recv.room)))
    case Copy =>
      var to, n := s.len, s.recv.n;
      if to + n <= |s.mem| then s.(mem := Written(s.mem, to, Prefix(s.sent - 1, n)), recv := RLoad(n, to))
      else s.(overrun := true, recv := RLoad(n, to))
    case LoadLen => s.(recv := RStore(s.recv.n, s.recv.to, s.len))
    case StoreLen =>
      s.(len := s.recv.loaded + s.recv.n, recv := if Current(input, s).more then RIdle else RMark)
    case Mark => s.(valid := true, recv := RPost)
    case Post => s.(recv := RSend(Head(s.mem, s.len)))
    case Send => s.(queue := s.queue + [Request(s.recv.copy)], recv := RIdle)
    case Push => s.(queue := s.queue + [EventItem])
    case Fetch =>
      s.(queue := s.queue[1..], pser := if s.queue[0].EventItem? then PIdle else PGot(s.queue[0].copy))
    case Read =>
      var len := Min(|s.pser.copy|, s.len);
      if s.valid then s.(pser := PClrValid, delivered := s.delivered + [Head(s.mem, len)])
      else s.(pser := PIdle, delivered := s.delivered + [s.pser.copy[..len]])
    case ClearValid => s.(valid := false, pser := PClrLen)
    case ClearLen => s.(len := 0, pser := PClrSeq)
    case ClearSeq => s.(seqNum := 0, pser := PIdle)
  }

  ghost predicate Next(input: seq<Packet>, s: State, a: Action, s': State) {
    Enabled(input, s, a) && s' == Do(input, s, a)
  }

  ghost predicate IsRun(input: seq<Packet>, states: seq<State>, actions: seq<Action>) {
    && |states| == |actions| + 1 && states[0] == Init()
    && forall i :: 0 <= i < |actions| ==> Next(input, states[i], actions[i], states[i + 1])
  }

  // ---------- the code between the wait loop and parse_protobuf_req, undisturbed ----------

  /** What recv_task does next behind its wait loop. */
  function OwnStep(recv: Recv): Action {
    match recv
    case RTest(_) => TestLen
    case RSet(_) => SetSeq
    case RCmp(_) => Compare
    case RCopy(_) => Copy
    case RLoad(_, _) => LoadLen
    case RStore(_, _, _) => StoreLen
    case _ => Mark
  }

  function Rank(recv: Recv): nat {
    match recv
    case RTest(_) => 7
    case RSet(_) => 6
    case RCmp(_) => 5
    case RCopy(_) => 4
    case RLoad(_, _) => 3
    case RStore(_, _, _) => 2
    case RMark => 1
    case _ => 0
  }

  /** recv_task goes on by itself until it has finished with the packet. */
  function Alone(input: seq<Packet>, s: State): State
    decreases Rank(s.recv)
  {
    if Rank(s.recv) == 0 || !Enabled(input, s, OwnStep(s.recv)) then s
    else Alone(input, Do(input, s, OwnStep(s.recv)))
  }

  function Buffer(s: State): RxBuf<Place> { RxBuf(s.valid, s.seqNum, Head(s.mem, s.len)) }

  function AsFrag(input: seq<Packet>, i: nat): Frag<Place>
    requires i < |input|
  {
    Frag(input[i].seqNum, input[i].more, Prefix(i, input[i].size))
  }

  lemma {:induction false} AloneFromStore(input: seq<Packet>, s: State)
    requires 0 < s.sent <= |input| && s.recv.RStore? && !s.valid
    ensures var more, t := Current(input, s).more, Alone(input, s);
      t == s.(valid := !more, len := s.recv.loaded + s.recv.n, recv := if more then RIdle else RPost)
  {
    var u := Do(input, s, StoreLen);
    assert Alone(input, s) == Alone(input, u);
    if u.recv == RMark { assert Alone(input, u) == Alone(input, Do(input, u, Mark)); }
  }

  lemma {:induction false} AloneFromCopy(input: seq<Packet>, s: State)
    requires 0 < s.sent <= |input| && s.recv.RCopy? && !s.valid && s.len + s.recv.n <= |s.mem|
    ensures var n, more, t := s.recv.n, Current(input, s).more, Alone(input, s);
      && Buffer(t) == RxBuf(!more, s.seqNum, Head(s.mem, s.len) + Prefix(s.sent - 1, n))
      && t.recv == (if more then RIdle else RPost) && t.overrun == s.overrun
  {
    var u := Do(input, s, Copy);
    assert Alone(input, s) == Alone(input, u);
    var v := Do(input, u, LoadLen);
    assert Alone(input, u) == Alone(input, v);
    AloneFromStore(input, v);
  }

  lemma {:induction false} AloneFromCompare(input: seq<Packet>, s: State)
    requires 0 < s.sent <= |input| && s.recv.RCmp? && !s.valid && s.len + s.recv.room <= |s.mem|
    ensures var f, t := AsFrag(input, s.sent - 1), Alone(input, s);
      && t.overrun == s.overrun
      && (f.seqNum == s.seqNum ==>
            && Buffer(t) == RxBuf(!f.more, s.seqNum, Head(s.mem, s.len) + Taken(f, s.recv.room))
            && t.recv == (if f.more then RIdle else RPost))
      && (f.seqNum != s.seqNum ==> Buffer(t) == Buffer(s).(valid := true) && t.recv == RPost)
  {
    var f := AsFrag(input, s.sent - 1);
    var u := Do(input, s, Compare);
    assert Alone(input, s) == Alone(input, u);
    if f.seqNum == s.seqNum {
      AloneFromCopy(input, u);
      PrefixOfPrefix(s.sent - 1, |f.payload|, u.recv.n);
    } else {
      assert Alone(input, u) == Alone(input, Do(input, u, Mark));
    }
  }

  /** Undisturbed, the single steps amount to what RxData.Continue is proved to do. */
  lemma {:induction false} AloneIsAccept(input: seq<Packet>, s: State)
    requires 0 < s.sent <= |input| && s.recv.RTest? && !s.valid && s.len + s.recv.room <= |s.mem|
    ensures var f, t := AsFrag(input, s.sent - 1), Alone(input, s);
      && Buffer(t) == Accept(Buffer(s), f, s.recv.room)
      && t.recv == (if HandsOn(Buffer(s), f) then RPost else RIdle)
      && t.overrun == s.overrun
  {
    var u := Do(input, s, TestLen);
    assert Alone(input, s) == Alone(input, u);
    if s.len == 0 {
      var v := Do(input, u, SetSeq);
      assert Alone(input, u) == Alone(input, v);
      AloneFromCompare(input, v);
    } else {
      AloneFromCompare(input, u);
    }
  }
}
