/** Runs of the hand-over that go wrong, and one that is not calm and yet goes well: each of the
    conditions in Delivery is needed, and none of them asks for the other. */
module HandoverWitness {
  import opened Reassembly
  import opened Handover
  import opened HandoverSafety
  import opened Delivery

  /** Some run, a calm one if so asked, leads to s. */
  ghost predicate Reached(input: seq<Packet>, s: State, calm: bool) {
    exists states: seq<State>, actions: seq<Action> ::
      IsRun(input, states, actions) && states[|actions|] == s && (calm ==> CalmUpTo(states, actions, |actions|))
  }

  lemma Extended(input: seq<Packet>, s: State, a: Action, calm: bool) returns (s': State)
    requires Reached(input, s, calm) && Enabled(input, s, a) && (calm ==> Calm(s, a))
    ensures s' == Do(input, s, a) && Reached(input, s', calm)
  {
    s' := Do(input, s, a);
    var states, actions :|
      IsRun(input, states, actions) && states[|actions|] == s && (calm ==> CalmUpTo(states, actions, |actions|));
    var states', actions' := states + [s'], actions + [a];
    forall i | 0 <= i < |actions'|
      ensures Next(input, states'[i], actions'[i], states'[i + 1])
    {
      if i < |actions| { assert Next(input, states[i], actions[i], states[i + 1]); }
    }
    assert IsRun(input, states', actions') && states'[|actions'|] == s';
    assert calm ==> CalmUpTo(states', actions', |actions'|);
  }

  lemma NotStarted(input: seq<Packet>)
    ensures Reached(input, Init(), true)
  {
    var states: seq<State>, actions: seq<Action> := [Init()], [];
    assert IsRun(input, states, actions) && states[|actions|] == Init() && CalmUpTo(states, actions, 0);
  }

  lemma Calmed(input: seq<Packet>, s: State)
    requires Reached(input, s, true)
    ensures Reached(input, s, false)
  {
    var states, actions :| IsRun(input, states, actions) && states[|actions|] == s;
    assert IsRun(input, states, actions) && states[|actions|] == s;
  }

  /** A packet copied behind what is in the buffer. */
  lemma CopiedBehind(input: seq<Packet>, s: State, calm: bool) returns (t: State)
    requires Reached(input, s, calm) && 0 < s.sent <= |input| && s.recv.RCopy? && s.len + s.recv.n <= |s.mem|
    ensures var n := s.recv.n;
      t == s.(len := s.len + n, mem := Written(s.mem, s.len, Prefix(s.sent - 1, n)),
              recv := if Current(input, s).more then RIdle else RMark)
    ensures Reached(input, t, calm)
  {
    t := Extended(input, s, Copy, calm);
    t := Extended(input, t, LoadLen, calm);
    t := Extended(input, t, StoreLen, calm);
  }

  /** A packet copied into an empty buffer, up to the test of MORE_FRAGMENT. */
  lemma CopiedIn(input: seq<Packet>, s: State, calm: bool) returns (t: State)
    requires Reached(input, s, calm) && 0 < s.sent <= |input| && !s.valid && s.len == 0 && |s.mem| == R_SIZE
    requires s.recv.RTest? && s.recv.room <= R_SIZE
    ensures var p, n := Current(input, s), Min(Current(input, s).size, s.recv.room);
      t == s.(len := n, seqNum := p.seqNum, mem := Written(s.mem, 0, Prefix(s.sent - 1, n)),
              recv := if p.more then RIdle else RMark)
    ensures Reached(input, t, calm)
  {
    t := Extended(input, s, TestLen, calm);
    t := Extended(input, t, SetSeq, calm);
    t := Extended(input, t, Compare, calm);
    t := CopiedBehind(input, t, calm);
  }

  /** A finished buffer is marked and a request for it queued. */
  lemma Handed(input: seq<Packet>, s: State, calm: bool) returns (t: State)
    requires Reached(input, s, calm) && 0 < s.sent <= |input| && s.recv == RMark && s.len <= |s.mem|
    requires s.queue == []
    ensures t == s.(valid := true, recv := RIdle, queue := [Request(s.mem[..s.len])]) && Reached(input, t, calm)
  {
    t := Extended(input, s, Mark, calm);
    t := Extended(input, t, Post, calm);
    t := Extended(input, t, Send, calm);
  }

  /** And then read. */
  lemma ReadOut(input: seq<Packet>, s: State, calm: bool) returns (t: State)
    requires Reached(input, s, calm) && 0 < s.sent <= |input| && s.recv == RMark && s.len <= |s.mem|
    requires s.queue == [] && s.pser == PIdle
    ensures t == s.(valid := true, recv := RIdle, pser := PClrValid, delivered := s.delivered + [s.mem[..s.len]])
    ensures Reached(input, t, calm)
  {
    t := Handed(input, s, calm);
    t := Extended(input, t, Fetch, calm);
    assert t.queue == [];
    t := Extended(input, t, Read, calm);
  }

  lemma Cleared(input: seq<Packet>, s: State, calm: bool) returns (t: State)
    requires Reached(input, s, calm) && s.sent <= |input| && (s.recv != RIdle ==> s.sent > 0) && s.pser == PClrValid
    ensures t == s.(valid := false, len := 0, seqNum := 0, pser := PIdle) && Reached(input, t, calm)
  {
    t := Extended(input, s, ClearValid, calm);
    t := Extended(input, t, ClearLen, calm);
    t := Extended(input, t, ClearSeq, calm);
  }

  /** The first message read and about to be cleared, and the next packet taken. */
  lemma FirstMessage(input: seq<Packet>) returns (t: State)
    requires |input| >= 2 && !input[0].more && input[0].size <= R_SIZE
    ensures var size := input[0].size;
      t == State(true, size, input[0].seqNum, Written(Blank(), 0, Prefix(0, size)), false,
                 [], RWait(R_SIZE - size), PClrValid, [Prefix(0, size)], 2)
    ensures Reached(input, t, true)
  {
    var size := input[0].size;
    t := Init();
    NotStarted(input);
    t := Extended(input, t, Take, true);
    t := Extended(input, t, Enter, true);
    t := CopiedIn(input, t, true);
    assert t.mem[..size] == Prefix(0, size);
    t := ReadOut(input, t, true);
    t := Extended(input, t, Take, true);
  }

  /** A run in which a well-sent message is cut: it arrived while a message was in the buffer
      beside which it does not fit. */
  lemma StaleRoomCuts(input: seq<Packet>)
    requires |input| == 2 && !input[0].more && !input[1].more
    requires input[0].size <= R_SIZE && input[1].size <= R_SIZE && input[0].size + input[1].size > R_SIZE
    ensures exists t :: Reached(input, t, true) && Quiet(input, t) && t.delivered == [Prefix(0, input[0].size), Prefix(1, R_SIZE - input[0].size)]
  {
    var room := R_SIZE - input[0].size;
    var t := FirstMessage(input);
    t := Cleared(input, t, true);
    t := Extended(input, t, Enter, true);
    t := CopiedIn(input, t, true);
    assert t.mem[..room] == Prefix(1, room);
    t := ReadOut(input, t, true);
    t := Cleared(input, t, true);
  }

  /** recv_task leaves its wait loop after r.valid and before r.len is cleared, takes the next
      message for a fragment of another sequence and drops it. */
  lemma Dropped(input: seq<Packet>) returns (t: State)
    requires |input| == 2 && !input[0].more && 0 < input[0].size <= R_SIZE
    requires input[0].seqNum != input[1].seqNum
    ensures Reached(input, t, false) && |t.mem| == R_SIZE
    ensures t == State(false, 0, 0, t.mem, false, [], RMark, PIdle, [Prefix(0, input[0].size)], 2)
  {
    t := FirstMessage(input);
    Calmed(input, t);
    t := Extended(input, t, ClearValid, false);
    t := Extended(input, t, Enter, false);
    t := Extended(input, t, TestLen, false);
    t := Extended(input, t, Compare, false);
    t := Extended(input, t, ClearLen, false);
    t := Extended(input, t, ClearSeq, false);
  }

  /** A run, with that race, in which a message is lost. */
  lemma RaceLosesMessage(input: seq<Packet>)
    requires |input| == 2 && !input[0].more && !input[1].more
    requires 0 < input[0].size <= R_SIZE && input[0].seqNum != input[1].seqNum
    ensures exists t :: Reached(input, t, false) && Quiet(input, t) && t.delivered == [Prefix(0, input[0].size), []]
  {
    var t := Dropped(input);
    t := ReadOut(input, t, false);
    t := Cleared(input, t, false);
  }

  /** The second packet copied after r.len and before r.cur_seq_no is cleared. */
  lemma LateClear(input: seq<Packet>) returns (t: State)
    requires |input| >= 2 && !input[0].more && input[0].size + input[1].size <= R_SIZE
    ensures Reached(input, t, false)
    ensures var n := input[1].size;
      && |t.mem| == R_SIZE && n <= R_SIZE && t.mem[..n] == Prefix(1, n)
      && t == State(false, n, 0, t.mem, false, [], if input[1].more then RIdle else RMark, PIdle,
                    [Prefix(0, input[0].size)], 2)
  {
    t := FirstMessage(input);
    Calmed(input, t);
    t := Extended(input, t, ClearValid, false);
    t := Extended(input, t, ClearLen, false);
    t := Extended(input, t, Enter, false);
    t := CopiedIn(input, t, false);
    t := Extended(input, t, ClearSeq, false);
  }

  /** A run that is not calm and loses nothing: only r.cur_seq_no was still to be cleared, and
      the message has no second packet to be compared with it. */
  lemma LateClearHarmless(input: seq<Packet>)
    requires |input| == 2 && !input[0].more && !input[1].more && input[0].size + input[1].size <= R_SIZE
    ensures exists t :: Reached(input, t, false) && Quiet(input, t) && t.delivered == [Prefix(0, input[0].size), Prefix(1, input[1].size)]
  {
    var t := LateClear(input);
    t := ReadOut(input, t, false);
    t := Cleared(input, t, false);
  }

  /** A run that is not calm in which the buffer holds bytes of two sequences: the cleared
      r.cur_seq_no lets a packet with number 0 continue a message of another number. */
  lemma SequencesMix(input: seq<Packet>)
    requires |input| == 3 && !input[0].more && input[1].more
    requires input[1].seqNum != 0 && input[2].seqNum == 0 && input[1].size > 0 && input[2].size > 0
    requires input[0].size + input[1].size + input[2].size <= R_SIZE
    ensures var n, k := input[1].size, input[2].size;
      exists t :: Reached(input, t, false) && t.len == n + k && Head(t.mem, t.len) == Prefix(1, n) + Prefix(2, k)
  {
    var t := LateClear(input);
    t := Extended(input, t, Take, false);
    t := Extended(input, t, Enter, false);
    t := Extended(input, t, TestLen, false);
    t := Extended(input, t, Compare, false);
    t := CopiedBehind(input, t, false);
  }
}
