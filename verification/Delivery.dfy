/** Which runs of the hand-over deliver every message exactly once: an exact condition on the
    single steps, and conditions on host and scheduling that are enough for it. */
module Delivery {
  import opened Reassembly
  import opened Handover
  import opened HandoverSafety

  // ---------- messages ----------

  /** The message packet n - 1 belongs to, up to and with it. */
  function Message(input: seq<Packet>, n: nat): seq<Place>
    requires 0 < n <= |input|
  {
    if n == 1 || !input[n - 2].more then Prefix(n - 1, input[n - 1].size)
    else Message(input, n - 1) + Prefix(n - 1, input[n - 1].size)
  }

  /** The unfinished message behind the first n packets. */
  function Pending(input: seq<Packet>, n: nat): seq<Place>
    requires n <= |input|
  {
    if n == 0 || !input[n - 1].more then [] else Message(input, n)
  }

  /** The messages finished by the first n packets. */
  function Messages(input: seq<Packet>, n: nat): seq<seq<Place>>
    requires n <= |input|
  {
    if n == 0 then []
    else if input[n - 1].more then Messages(input, n - 1)
    else Messages(input, n - 1) + [Message(input, n)]
  }

  lemma MessageGrows(input: seq<Packet>, n: nat)
    requires 0 < n <= |input|
    ensures Message(input, n) == Pending(input, n - 1) + Prefix(n - 1, input[n - 1].size)
  {
  }

  // ---------- clean steps ----------

  /** The step meets no packet of another sequence, copies behind no message that is being
      cleared, and copies a packet whole. */
  predicate Clean(input: seq<Packet>, s: State, a: Action) {
    && (a == Compare && 0 < s.sent <= |input| ==> Current(input, s).seqNum == s.seqNum)
    && (a == Copy && s.recv.RCopy? && 0 < s.sent <= |input| ==>
          s.pser != PClrLen && s.recv.n == Current(input, s).size)
  }

  ghost predicate CleanUpTo(input: seq<Packet>, states: seq<State>, actions: seq<Action>, n: nat)
    requires n <= |actions| <= |states|
  {
    forall i :: 0 <= i < n ==> Clean(input, states[i], actions[i])
  }

  /** Packets handled: recv_task is done with them. */
  function Done(s: State): nat {
    if (s.recv.RWait? || Behind(s.recv)) && s.recv != RMark && s.sent > 0 then s.sent - 1 else s.sent
  }

  predicate Storing(recv: Recv) { recv.RLoad? || recv.RStore? }

  predicate Finishing(recv: Recv) { recv == RMark || Posting(recv) }

  /** recv_task has copied a packet and not yet stored the new length. */
  ghost predicate StoringOk(input: seq<Packet>, s: State)
    requires 0 < s.sent <= |input| && Storing(s.recv)
  {
    && s.pser != PClrLen && s.recv.to == s.len
    && (s.recv.RStore? ==> s.recv.loaded == s.len)
    && Head(s.mem, s.len + s.recv.n) == Message(input, s.sent)
    && s.delivered == Messages(input, s.sent - 1)
  }

  /** The buffer holds the finished message d that is next to be delivered. */
  ghost predicate WholeOk(input: seq<Packet>, s: State, d: nat)
    requires d <= |input|
  {
    && s.pser != PClrLen && d > 0 && !input[d - 1].more
    && Head(s.mem, s.len) == Message(input, d)
    && s.delivered + [Message(input, d)] == Messages(input, d)
  }

  /** The buffer holds the unfinished message, or pserial_task is about to clear it. */
  ghost predicate PendingOk(input: seq<Packet>, s: State, d: nat)
    requires d <= |input|
  {
    && Head(s.mem, if s.pser == PClrLen || s.pser == PClrValid then 0 else s.len) == Pending(input, d)
    && s.delivered == Messages(input, d)
  }

  /** Where the messages are; flying are the requests under way. */
  ghost predicate Phase(input: seq<Packet>, s: State, flying: seq<seq<Place>>) {
    && s.sent <= |input| && (s.recv != RIdle ==> s.sent > 0)
    && if Storing(s.recv) then StoringOk(input, s)
       else if Finishing(s.recv) then WholeOk(input, s, s.sent) && (s.recv.RSend? ==> s.recv.copy == Head(s.mem, s.len))
       else if s.valid && s.pser != PClrValid then
         && WholeOk(input, s, Done(s)) && flying == [Head(s.mem, s.len)]
         && (s.pser.PGot? ==> s.pser.copy == Head(s.mem, s.len))
       else PendingOk(input, s, Done(s))
  }

  ghost predicate InStep(input: seq<Packet>, s: State) { Phase(input, s, InFlight(s)) }

  lemma {:induction false} StepInStep(
    input: seq<Packet>, s: State, a: Action, s': State, flying: seq<seq<Place>>, flying': seq<seq<Place>>)
    requires Sized(input, s) && Paired(s, flying) && Phase(input, s, flying)
    requires Next(input, s, a, s') && Moved(s, a, flying, flying') && Clean(input, s, a)
    requires s'.pser.PGot? && flying' != [] ==> s'.pser.copy == flying'[0]
    ensures Phase(input, s', flying')
  {
    match a
    case Copy =>
      InHandFacts(input, s, flying);
      CopyPhase(input, s, s', flying');
    case Read => ReadPhase(input, s, a, s', flying, flying');
    case LoadLen => PostPhase(input, s, a, s', flying, flying');
    case StoreLen => StorePhase(input, s, a, s', flying, flying');
    case Mark => PostPhase(input, s, a, s', flying, flying');
    case Post => PostPhase(input, s, a, s', flying, flying');
    case Send => PostPhase(input, s, a, s', flying, flying');
    case Push => QueuePhase(input, s, a, s', flying, flying');
    case Fetch => QueuePhase(input, s, a, s', flying, flying');
    case ClearValid => ClearPhase(input, s, a, s', flying, flying');
    case ClearLen => ClearPhase(input, s, a, s', flying, flying');
    case ClearSeq => ClearPhase(input, s, a, s', flying, flying');
    case _ => ArrivePhase(input, s, a, s', flying, flying');
  }

  /** What is said about buffer and deliveries depends on nothing else. */
  lemma {:induction false} SamePlace(input: seq<Packet>, s: State, s': State, d: nat)
    requires d <= |input|
    requires s'.mem == s.mem && s'.len == s.len && s'.delivered == s.delivered
    requires s'.pser == s.pser || (s.pser == PIdle && s'.pser.PGot?)
    ensures WholeOk(input, s', d) == WholeOk(input, s, d) && PendingOk(input, s', d) == PendingOk(input, s, d)
  {
  }

  lemma {:induction false} ArrivePhase(
    input: seq<Packet>, s: State, a: Action, s': State, flying: seq<seq<Place>>, flying': seq<seq<Place>>)
    requires Sized(input, s) && Paired(s, flying) && Phase(input, s, flying)
    requires Next(input, s, a, s') && Moved(s, a, flying, flying') && Clean(input, s, a)
    requires a == Take || a == Enter || a == TestLen || a == SetSeq || a == Compare
    ensures Phase(input, s', flying')
  {
    assert !Storing(s.recv) && !Finishing(s.recv) && !Storing(s'.recv) && !Finishing(s'.recv);
    assert Done(s') == Done(s);
    SamePlace(input, s, s', Done(s));
  }

  lemma {:induction false} PostPhase(
    input: seq<Packet>, s: State, a: Action, s': State, flying: seq<seq<Place>>, flying': seq<seq<Place>>)
    requires Sized(input, s) && Paired(s, flying) && Phase(input, s, flying)
    requires Next(input, s, a, s') && Moved(s, a, flying, flying') && Clean(input, s, a)
    requires a == LoadLen || a == Mark || a == Post || a == Send
    ensures Phase(input, s', flying')
  {
  }

  lemma {:induction false} QueuePhase(
    input: seq<Packet>, s: State, a: Action, s': State, flying: seq<seq<Place>>, flying': seq<seq<Place>>)
    requires Sized(input, s) && Paired(s, flying) && Phase(input, s, flying)
    requires Next(input, s, a, s') && Moved(s, a, flying, flying') && Clean(input, s, a)
    requires a == Push || a == Fetch
    requires s'.pser.PGot? && flying' != [] ==> s'.pser.copy == flying'[0]
    ensures Phase(input, s', flying')
  {
    assert s'.recv == s.recv && Done(s') == Done(s);
    if !Storing(s.recv) { SamePlace(input, s, s', if Finishing(s.recv) then s.sent else Done(s)); }
  }

  lemma {:induction false} ClearPhase(
    input: seq<Packet>, s: State, a: Action, s': State, flying: seq<seq<Place>>, flying': seq<seq<Place>>)
    requires Sized(input, s) && Paired(s, flying) && Phase(input, s, flying)
    requires Next(input, s, a, s') && Moved(s, a, flying, flying') && Clean(input, s, a)
    requires a == ClearValid || a == ClearLen || a == ClearSeq
    ensures Phase(input, s', flying')
  {
    assert s'.recv == s.recv && Done(s') == Done(s);
    assert Head(s.mem, 0) == [];
  }

  /** With a packet in hand and r.valid clear the buffer holds the unfinished message. */
  lemma {:induction false} InHandFacts(input: seq<Packet>, s: State, flying: seq<seq<Place>>)
    requires Paired(s, flying) && Phase(input, s, flying) && (s.recv.RCmp? || s.recv.RCopy?)
    ensures PendingOk(input, s, s.sent - 1) && s.pser != PClrValid && !s.valid
    ensures s.delivered == Messages(input, s.sent - 1)
    ensures s.pser == PClrLen ==> Pending(input, s.sent - 1) == []
  {
    assert PendingOk(input, s, s.sent - 1);
  }

  lemma {:induction false} CopyPhase(input: seq<Packet>, s: State, s': State, flying: seq<seq<Place>>)
    requires 0 < s.sent <= |input| && Sized(input, s) && Next(input, s, Copy, s') && Clean(input, s, Copy)
    requires s.pser != PClrValid && PendingOk(input, s, s.sent - 1)
    ensures Phase(input, s', flying)
  {
    CopiedWhole(input, s, s');
  }

  lemma {:induction false} CopiedWhole(input: seq<Packet>, s: State, s': State)
    requires 0 < s.sent <= |input| && Sized(input, s) && Next(input, s, Copy, s') && Clean(input, s, Copy)
    requires s.pser != PClrValid && PendingOk(input, s, s.sent - 1)
    ensures Storing(s'.recv) && StoringOk(input, s')
  {
    MessageGrows(input, s.sent);
    CopiedHead(s.mem, s.len, Prefix(s.sent - 1, s.recv.n));
  }

  lemma {:induction false} CopiedHead(mem: seq<Place>, at: nat, p: seq<Place>)
    requires at + |p| <= |mem|
    ensures Head(Written(mem, at, p), at + |p|) == Head(mem, at) + p
    ensures at > 0 ==> Written(mem, at, p)[0] == mem[0]
  {
  }

  lemma {:induction false} StorePhase(
    input: seq<Packet>, s: State, a: Action, s': State, flying: seq<seq<Place>>, flying': seq<seq<Place>>)
    requires Sized(input, s) && Paired(s, flying) && Phase(input, s, flying)
    requires Next(input, s, a, s') && Moved(s, a, flying, flying') && Clean(input, s, a)
    requires a == StoreLen
    ensures Phase(input, s', flying')
  {
  }

  lemma {:induction false} ReadPhase(
    input: seq<Packet>, s: State, a: Action, s': State, flying: seq<seq<Place>>, flying': seq<seq<Place>>)
    requires Sized(input, s) && Paired(s, flying) && Phase(input, s, flying)
    requires Next(input, s, a, s') && Moved(s, a, flying, flying') && Clean(input, s, a)
    requires a == Read
    ensures Phase(input, s', flying')
  {
    assert |flying| == 1 + |flying'|;
    assert Head(s.mem, Min(|s.pser.copy|, s.len)) == Head(s.mem, s.len);
  }

  lemma {:induction false} RunInStep(input: seq<Packet>, states: seq<State>, actions: seq<Action>, i: nat)
    requires IsRun(input, states, actions) && i <= |actions| && CleanUpTo(input, states, actions, i)
    ensures InStep(input, states[i])
  {
    if i > 0 {
      RunInStep(input, states, actions, i - 1);
      RunBounded(input, states, actions, i - 1);
      RunMatched(input, states, actions, i - 1);
      assert Next(input, states[i - 1], actions[i - 1], states[i - 1 + 1]);
      MatchedStep(input, states[i - 1], actions[i - 1], states[i]);
      StepInStep(input, states[i - 1], actions[i - 1], states[i], InFlight(states[i - 1]), InFlight(states[i]));
    }
  }

  /** As long as the steps are clean, the messages are delivered in order, each once and whole:
      all finished ones but at most the newest, and all when it is quiet. */
  lemma ExactlyOnce(input: seq<Packet>, states: seq<State>, actions: seq<Action>, i: nat)
    requires IsRun(input, states, actions) && i <= |actions| && CleanUpTo(input, states, actions, i)
    ensures Done(states[i]) <= |input|
    ensures var s, all := states[i], Messages(input, Done(states[i]));
      && s.delivered <= all && |all| <= |s.delivered| + 1
      && (Quiet(input, s) ==> s.delivered == Messages(input, |input|))
  {
    RunInStep(input, states, actions, i);
  }

  // ---------- an unclean step loses a message ----------

  /** x starts with the message of packet d, as far as packet d. */
  ghost predicate StartsWith(input: seq<Packet>, d: nat, x: seq<Place>)
    requires d < |input|
  {
    Message(input, d + 1) <= x
  }

  /** The message of packet d is the next to be finished. */
  lemma {:induction false} NextFinished(input: seq<Packet>, d: nat, e: nat)
    requires d < e <= |input|
    ensures var m, all := |Messages(input, d)|, Messages(input, e);
      && |all| >= m
      && (|all| > m ==> StartsWith(input, d, all[m]))
      && (|all| == m ==> input[e - 1].more && StartsWith(input, d, Message(input, e)))
  {
    if e > d + 1 {
      NextFinished(input, d, e - 1);
      MessageGrows(input, e);
      LongerStarts(Message(input, d + 1), Pending(input, e - 1), Prefix(e - 1, input[e - 1].size));
    }
  }

  lemma {:induction false} LongerStarts(x: seq<Place>, y: seq<Place>, z: seq<Place>)
    ensures x <= y ==> x <= y + z
  {
  }

  /** No message that starts with packet d's part of it looks like x: x is empty, or begins with
      a packet before b, or misses the last byte of packet d. */
  ghost predicate Foreign(input: seq<Packet>, d: nat, b: nat, x: seq<Place>)
    requires d < |input| && input[d].size > 0
  {
    x == [] || x[0].packet < b || Place(d, input[d].size - 1) !in x
  }

  lemma {:induction false} ForeignDiffers(input: seq<Packet>, d: nat, b: nat, x: seq<Place>, w: seq<Place>)
    requires d < |input| && input[d].size > 0 && Foreign(input, d, b, x) && StartsWith(input, d, w)
    requires b == 0 || (b == d && Pending(input, d) == [])
    ensures x != w
  {
    var size, msg := input[d].size, Message(input, d + 1);
    MessageGrows(input, d + 1);
    PrefixAt(d, size, size - 1);
    assert msg[|msg| - 1] == Place(d, size - 1);
    assert w[|msg| - 1] == msg[|msg| - 1];
    if b == d {
      PrefixAt(d, size, 0);
      assert w[0] == msg[0] == Place(d, 0);
    }
  }

  /** What will be read as message number m is foreign to the message of packet d. */
  ghost predicate Spoiled(input: seq<Packet>, s: State, d: nat, b: nat, m: nat)
    requires d < |input| && input[d].size > 0
  {
    && |s.delivered| == m && d < s.sent && s.sent <= |input|
    && (Bound(s) < s.sent ==> d < s.sent - 1)
    && |s.mem| == R_SIZE && Extent(s) <= R_SIZE
    && (s.mem[0].packet < b || Place(d, input[d].size - 1) !in s.mem[..Extent(s)])
  }

  lemma {:induction false} SpoiledStep(input: seq<Packet>, s: State, a: Action, s': State, d: nat, b: nat, m: nat)
    requires d < |input| && input[d].size > 0 && Spoiled(input, s, d, b, m)
    requires Sized(input, s) && Matched(s) && Next(input, s, a, s')
    ensures Spoiled(input, s', d, b, m) || (|s'.delivered| == m + 1 && Foreign(input, d, b, s'.delivered[m]))
  {
    SizedStep(input, s, a, s');
    if a == Copy {
      CopySpoils(input, s, s', d, b, m);
    } else if a == Read {
      var len := Min(|s.pser.copy|, s.len);
      assert s.valid;
      assert s'.delivered[m] == s.mem[..len];
      assert s.mem[..len] <= s.mem[..Extent(s)];
    } else {
      assert s'.mem[..Extent(s')] <= s.mem[..Extent(s)];
    }
  }

  lemma {:induction false} CopySpoils(input: seq<Packet>, s: State, s': State, d: nat, b: nat, m: nat)
    requires d < |input| && input[d].size > 0 && Spoiled(input, s, d, b, m)
    requires Sized(input, s) && Next(input, s, Copy, s')
    ensures Spoiled(input, s', d, b, m)
  {
    var packet, n := s.sent - 1, s.recv.n;
    CopiedHead(s.mem, s.len, Prefix(packet, n));
    PrefixLacks(packet, n, Place(d, input[d].size - 1));
    if s.len == 0 { assert s.mem[..0] == []; }
  }

  lemma {:induction false} PrefixLacks(packet: nat, n: nat, z: Place)
    requires packet != z.packet || n <= z.at
    ensures z !in Prefix(packet, n)
  {
    forall j | 0 <= j < n
      ensures Prefix(packet, n)[j] != z
    {
      PrefixAt(packet, n, j);
    }
  }

  /** After the first unclean step the next message delivered is not the one that is due. */
  lemma {:induction false} SpoiledNow(input: seq<Packet>, s: State, a: Action, s': State, b: nat, m: nat)
    requires 0 < s.sent <= |input| && Current(input, s).size > 0
    requires Bounded(input, s) && Next(input, s, a, s') && !Clean(input, s, a) && |s.delivered| == m
    requires s.pser == PClrLen ==> s.len > 0
    requires b == if a == Copy && s.pser == PClrLen then s.sent - 1 else 0
    ensures Spoiled(input, s', s.sent - 1, b, m)
  {
    var d := s.sent - 1;
    assert Place(d, input[d].size - 1) !in s.mem[..s.len];
    SizedStep(input, s, a, s');
    if a == Copy { CutOrBehind(input, s, s', d, b); }
  }

  lemma {:induction false} CutOrBehind(input: seq<Packet>, s: State, s': State, d: nat, b: nat)
    requires Bounded(input, s) && Next(input, s, Copy, s') && !Clean(input, s, Copy)
    requires d == s.sent - 1 && d < |input| && input[d].size > 0 && (s.pser == PClrLen ==> s.len > 0 && b == d)
    requires Place(d, input[d].size - 1) !in s.mem[..s.len]
    ensures s'.mem[0].packet < b || Place(d, input[d].size - 1) !in s'.mem[..Extent(s')]
  {
    var n := s.recv.n;
    CopiedHead(s.mem, s.len, Prefix(d, n));
    if s.pser != PClrLen { PrefixLacks(d, n, Place(d, input[d].size - 1)); }
  }

  /** Message number m will be read, or was read, as something foreign. */
  ghost predicate Lost(input: seq<Packet>, s: State, d: nat, b: nat, m: nat)
    requires d < |input| && input[d].size > 0
  {
    Spoiled(input, s, d, b, m) || (|s.delivered| > m && Foreign(input, d, b, s.delivered[m]))
  }

  lemma {:induction false} LostStep(input: seq<Packet>, s: State, a: Action, s': State, d: nat, b: nat, m: nat)
    requires d < |input| && input[d].size > 0 && Lost(input, s, d, b, m)
    requires Sized(input, s) && Matched(s) && Next(input, s, a, s')
    ensures Lost(input, s', d, b, m)
  {
    if Spoiled(input, s, d, b, m) {
      SpoiledStep(input, s, a, s', d, b, m);
    } else {
      assert s'.delivered[m] == s.delivered[m];
    }
  }

  lemma {:induction false} StaysLost(
    input: seq<Packet>, states: seq<State>, actions: seq<Action>, i: nat, j: nat, d: nat, b: nat, m: nat)
    requires IsRun(input, states, actions) && i <= j < |states| && d < |input| && input[d].size > 0
    requires Lost(input, states[i], d, b, m)
    ensures Lost(input, states[j], d, b, m)
  {
    if i < j {
      StaysLost(input, states, actions, i, j - 1, d, b, m);
      RunBounded(input, states, actions, j - 1);
      RunMatched(input, states, actions, j - 1);
      LostStep(input, states[j - 1], actions[j - 1], states[j - 1 + 1], d, b, m);
    }
  }

  lemma {:induction false} UncleanLoses(input: seq<Packet>, states: seq<State>, actions: seq<Action>, t: nat)
    requires IsRun(input, states, actions) && t < |actions| && CleanUpTo(input, states, actions, t)
    requires !Clean(input, states[t], actions[t])
    requires 0 < states[t].sent <= |input| && Current(input, states[t]).size > 0
    requires states[t].pser == PClrLen ==> states[t].len > 0
    requires !input[|input| - 1].more
    ensures states[|actions|].delivered != Messages(input, |input|)
  {
    var d := states[t].sent - 1;
    var b := UncleanStep(input, states, actions, t);
    StaysLost(input, states, actions, t + 1, |actions|, d, b, |Messages(input, d)|);
    LostAtEnd(input, states[|actions|], d, b);
  }

  lemma {:induction false} UncleanStep(input: seq<Packet>, states: seq<State>, actions: seq<Action>, t: nat)
    returns (b: nat)
    requires IsRun(input, states, actions) && t < |actions| && CleanUpTo(input, states, actions, t)
    requires !Clean(input, states[t], actions[t])
    requires 0 < states[t].sent <= |input| && Current(input, states[t]).size > 0
    requires states[t].pser == PClrLen ==> states[t].len > 0
    ensures var d := states[t].sent - 1;
      && (b == 0 || (b == d && Pending(input, d) == []))
      && Spoiled(input, states[t + 1], d, b, |Messages(input, d)|)
  {
    RunBounded(input, states, actions, t);
    RunMatched(input, states, actions, t);
    RunInStep(input, states, actions, t);
    assert Next(input, states[t], actions[t], states[t + 1]);
    InHandFacts(input, states[t], InFlight(states[t]));
    b := if actions[t] == Copy && states[t].pser == PClrLen then states[t].sent - 1 else 0;
    SpoiledNow(input, states[t], actions[t], states[t + 1], b, |Messages(input, states[t].sent - 1)|);
  }

  lemma {:induction false} LostAtEnd(input: seq<Packet>, s: State, d: nat, b: nat)
    requires d < |input| && input[d].size > 0 && !input[|input| - 1].more
    requires b == 0 || (b == d && Pending(input, d) == [])
    requires Lost(input, s, d, b, |Messages(input, d)|)
    ensures s.delivered != Messages(input, |input|)
  {
    var m := |Messages(input, d)|;
    NextFinished(input, d, |input|);
    if |s.delivered| > m { ForeignDiffers(input, d, b, s.delivered[m], Messages(input, |input|)[m]); }
  }

  lemma {:induction false} FirstUnclean(input: seq<Packet>, states: seq<State>, actions: seq<Action>, n: nat)
    returns (t: nat)
    requires n <= |actions| <= |states| && !CleanUpTo(input, states, actions, n)
    ensures t < n && CleanUpTo(input, states, actions, t) && !Clean(input, states[t], actions[t])
  {
    if CleanUpTo(input, states, actions, n - 1) {
      t := n - 1;
    } else {
      t := FirstUnclean(input, states, actions, n - 1);
    }
  }

  /** Every packet carries something, as the receivers of the SDIO and SPI transports demand. */
  ghost predicate NonEmpty(input: seq<Packet>) { forall k :: 0 <= k < |input| ==> input[k].size > 0 }

  /** Until the first unclean step a message about to be cleared is still whole. */
  lemma {:induction false} ClearedIsWhole(input: seq<Packet>, states: seq<State>, actions: seq<Action>, i: nat)
    requires IsRun(input, states, actions) && i <= |actions| && CleanUpTo(input, states, actions, i)
    ensures Done(states[i]) <= |input|
    ensures states[i].pser == PClrValid || states[i].pser == PClrLen ==>
      Done(states[i]) > 0 && states[i].len == |Message(input, Done(states[i]))|
  {
    RunBounded(input, states, actions, i);
    if i > 0 {
      ClearedIsWhole(input, states, actions, i - 1);
      RunMatched(input, states, actions, i - 1);
      RunInStep(input, states, actions, i - 1);
      RunBounded(input, states, actions, i - 1);
      var s, s' := states[i - 1], states[i - 1 + 1];
      assert Next(input, s, actions[i - 1], s');
      if s'.pser == PClrValid || s'.pser == PClrLen {
        WholeStays(input, s, actions[i - 1], s');
      }
    }
  }

  lemma {:induction false} WholeStays(input: seq<Packet>, s: State, a: Action, s': State)
    requires Sized(input, s) && Matched(s) && InStep(input, s) && Next(input, s, a, s') && Clean(input, s, a)
    requires s'.pser == PClrValid || s'.pser == PClrLen
    ensures s.pser == PClrValid || s.pser == PClrLen ==> s'.len == s.len && Done(s') == Done(s)
    ensures s.pser != PClrValid && s.pser != PClrLen ==>
      Done(s') > 0 && Done(s') <= |input| && s'.len == |Message(input, Done(s'))|
  {
  }

  /** For every stream of non-empty packets that ends with a finished message, and every run that
      has come to rest: all messages were delivered, each once, in order and whole, if and only
      if every step of the run was clean. */
  lemma {:induction false} DeliveredExactly(input: seq<Packet>, states: seq<State>, actions: seq<Action>)
    requires IsRun(input, states, actions) && Quiet(input, states[|actions|])
    requires NonEmpty(input) && (input == [] || !input[|input| - 1].more)
    ensures states[|actions|].delivered == Messages(input, |input|) <==> CleanUpTo(input, states, actions, |actions|)
  {
    if CleanUpTo(input, states, actions, |actions|) {
      ExactlyOnce(input, states, actions, |actions|);
    } else {
      var t := FirstUnclean(input, states, actions, |actions|);
      assert Next(input, states[t], actions[t], states[t + 1]);
      ClearedIsWhole(input, states, actions, t);
      if states[t].pser == PClrLen { MessageGrows(input, Done(states[t])); }
      UncleanLoses(input, states, actions, t);
    }
  }

  // ---------- what host and scheduler have to do ----------

  /** Up to packet n - 1 no message is longer than the buffer, and the packet behind it keeps
      the sequence number within a message. */
  ghost predicate SentWell(input: seq<Packet>, n: nat)
    requires 0 < n <= |input|
  {
    && |Message(input, n)| <= R_SIZE
    && (n < |input| && input[n - 1].more ==> input[n].seqNum == input[n - 1].seqNum)
  }

  /** The host keeps the sequence number within a message, and no message exceeds the buffer. */
  ghost predicate WellSent(input: seq<Packet>) { forall n :: 0 < n <= |input| ==> SentWell(input, n) }

  ghost predicate FitsUpTo(input: seq<Packet>, states: seq<State>, actions: seq<Action>, n: nat)
    requires n <= |actions| <= |states|
  {
    forall i :: 0 <= i < n ==> Fitting(input, states[i], actions[i])
  }

  /** In a calm run of a well-sent stream: an unfinished message has the sequence number of the
      buffer, and the packet in hand, if it fits, is copied whole. */
  ghost predicate Tuned(input: seq<Packet>, s: State)
    requires s.sent <= |input| && (s.recv != RIdle ==> s.sent > 0)
  {
    && (Behind(s.recv) && s.recv != RMark ==> s.pser == PIdle)
    && (s.pser == PClrSeq ==> s.len == 0)
    && (s.pser == PIdle && !s.valid && s.len > 0 && (s.recv == RIdle || s.recv.RWait? || s.recv.RTest?) ==>
          Done(s) > 0 && s.seqNum == input[Done(s) - 1].seqNum)
    && (s.recv.RCmp? || s.recv.RCopy? || Storing(s.recv) ==> s.seqNum == Current(input, s).seqNum)
    && match s.recv
       case RWait(room) => room >= Current(input, s).size
       case RTest(room) => room >= Current(input, s).size
       case RSet(room) => room >= Current(input, s).size
       case RCmp(room) => room >= Current(input, s).size
       case RCopy(n) => n == Current(input, s).size
       case _ => true
  }

  lemma {:induction false} TunedStep(input: seq<Packet>, s: State, a: Action, s': State)
    requires Sized(input, s) && Matched(s) && InStep(input, s) && WellSent(input)
    requires Tuned(input, s) && Next(input, s, a, s') && Calm(s, a) && Fitting(input, s, a)
    ensures s'.sent <= |input| && (s'.recv != RIdle ==> s'.sent > 0) && Tuned(input, s')
    ensures Clean(input, s, a)
  {
    MatchedStep(input, s, a, s');
    if a == Take {
      TakeTuned(input, s, s');
    } else if a == TestLen {
      TestTuned(input, s, s');
    } else if a == Push || a == Fetch || a == Read || a == ClearValid || a == ClearLen || a == ClearSeq {
      PserTuned(input, s, a, s');
    } else {
      RecvTuned(input, s, a, s');
    }
  }

  lemma {:induction false} PserTuned(input: seq<Packet>, s: State, a: Action, s': State)
    requires Sized(input, s) && Tuned(input, s) && Next(input, s, a, s')
    requires s.valid ==> !Behind(s.recv)
    requires s.pser == PClrValid || s.pser.PGot? ==> s.valid
    requires s'.pser.PGot? && Behind(s'.recv) ==> s.pser.PGot?
    requires a == Push || a == Fetch || a == Read || a == ClearValid || a == ClearLen || a == ClearSeq
    ensures Tuned(input, s') && Clean(input, s, a)
  {
    assert s'.recv == s.recv && s'.sent == s.sent;
  }

  lemma {:induction false} RecvTuned(input: seq<Packet>, s: State, a: Action, s': State)
    requires Sized(input, s) && Tuned(input, s) && Next(input, s, a, s') && Calm(s, a)
    requires s.valid ==> !Behind(s.recv)
    requires !s.valid ==> s.pser != PClrValid && !s.pser.PGot? && !Posting(s.recv)
    requires a == Enter || a == SetSeq || a == Compare || a == Copy || a == LoadLen || a == StoreLen
      || a == Mark || a == Post || a == Send
    ensures Tuned(input, s') && Clean(input, s, a)
  {
  }

  lemma {:induction false} TakeTuned(input: seq<Packet>, s: State, s': State)
    requires Sized(input, s) && Matched(s) && InStep(input, s) && WellSent(input)
    requires Tuned(input, s) && Next(input, s, Take, s') && Fitting(input, s, Take)
    ensures Tuned(input, s')
  {
    TakeFits(input, s);
    TakenTuned(input, s, s');
  }

  lemma {:induction false} TakeFits(input: seq<Packet>, s: State)
    requires Sized(input, s) && Matched(s) && InStep(input, s) && WellSent(input)
    requires Enabled(input, s, Take) && Fitting(input, s, Take)
    ensures s.len + input[s.sent].size <= R_SIZE
  {
    if !s.valid && s.pser != PClrLen { assert |Pending(input, s.sent)| == s.len; }
    MessageGrows(input, s.sent + 1);
    assert SentWell(input, s.sent + 1);
  }

  lemma {:induction false} TakenTuned(input: seq<Packet>, s: State, s': State)
    requires Sized(input, s) && Tuned(input, s) && Next(input, s, Take, s')
    requires s.len + input[s.sent].size <= R_SIZE
    ensures Tuned(input, s')
  {
  }

  lemma {:induction false} TestTuned(input: seq<Packet>, s: State, s': State)
    requires Sized(input, s) && Matched(s) && InStep(input, s) && WellSent(input)
    requires Tuned(input, s) && Next(input, s, TestLen, s')
    ensures Tuned(input, s')
  {
    if s.len > 0 {
      var d := s.sent - 1;
      assert Head(s.mem, s.len) == Pending(input, d);
      assert SentWell(input, d);
    }
  }

  lemma {:induction false} RunTuned(input: seq<Packet>, states: seq<State>, actions: seq<Action>, i: nat)
    requires IsRun(input, states, actions) && WellSent(input) && i <= |actions|
    requires CalmUpTo(states, actions, i) && FitsUpTo(input, states, actions, i)
    ensures CleanUpTo(input, states, actions, i)
    ensures states[i].sent <= |input| && (states[i].recv != RIdle ==> states[i].sent > 0) && Tuned(input, states[i])
  {
    if i > 0 {
      RunTuned(input, states, actions, i - 1);
      RunBounded(input, states, actions, i - 1);
      RunMatched(input, states, actions, i - 1);
      RunInStep(input, states, actions, i - 1);
      TunedStep(input, states[i - 1], actions[i - 1], states[i - 1 + 1]);
    }
  }

  /** If the host sends well, recv_task never leaves its wait loop in the middle of a clearing,
      and every packet fits, the messages are delivered exactly once. */
  lemma CalmFittingDelivers(input: seq<Packet>, states: seq<State>, actions: seq<Action>, i: nat)
    requires IsRun(input, states, actions) && WellSent(input) && i <= |actions|
    requires CalmUpTo(states, actions, i) && FitsUpTo(input, states, actions, i)
    ensures Done(states[i]) <= |input|
    ensures var s, all := states[i], Messages(input, Done(states[i]));
      && s.delivered <= all && |all| <= |s.delivered| + 1
      && (Quiet(input, s) ==> s.delivered == Messages(input, |input|))
  {
    RunTuned(input, states, actions, i);
    ExactlyOnce(input, states, actions, i);
  }

  /** The packet in hand will be cut. */
  ghost predicate CutAhead(input: seq<Packet>, s: State, sent: nat)
    requires 0 < sent <= |input|
  {
    && s.sent == sent
    && match s.recv
       case RWait(room) => room < input[sent - 1].size
       case RTest(room) => room < input[sent - 1].size
       case RSet(room) => room < input[sent - 1].size
       case RCmp(room) => room < input[sent - 1].size
       case RCopy(n) => n < input[sent - 1].size
       case _ => false
  }

  lemma {:induction false} CutStays(
    input: seq<Packet>, states: seq<State>, actions: seq<Action>, i: nat, j: nat, sent: nat)
    requires IsRun(input, states, actions) && i <= j <= |actions| && CleanUpTo(input, states, actions, j)
    requires 0 < sent <= |input| && CutAhead(input, states[i], sent)
    ensures CutAhead(input, states[j], sent)
  {
    if i < j {
      CutStays(input, states, actions, i, j - 1, sent);
      assert Clean(input, states[j - 1], actions[j - 1]);
      CutAt(input, states, actions, j - 1, sent);
    }
  }

  lemma {:induction false} CutAt(input: seq<Packet>, states: seq<State>, actions: seq<Action>, j: nat, sent: nat)
    requires IsRun(input, states, actions) && j < |actions| && Clean(input, states[j], actions[j])
    requires 0 < sent <= |input| && CutAhead(input, states[j], sent)
    ensures CutAhead(input, states[j + 1], sent)
  {
    CutStep(input, states[j], actions[j], states[j + 1], sent);
  }

  lemma {:induction false} CutStep(input: seq<Packet>, s: State, a: Action, s': State, sent: nat)
    requires 0 < sent <= |input| && CutAhead(input, s, sent) && Next(input, s, a, s') && Clean(input, s, a)
    ensures CutAhead(input, s', sent)
  {
  }

  lemma {:induction false} FirstUnfitting(input: seq<Packet>, states: seq<State>, actions: seq<Action>, n: nat)
    returns (i: nat)
    requires n <= |actions| <= |states| && !FitsUpTo(input, states, actions, n)
    ensures i < n && FitsUpTo(input, states, actions, i) && !Fitting(input, states[i], actions[i])
  {
    if FitsUpTo(input, states, actions, n - 1) {
      i := n - 1;
    } else {
      i := FirstUnfitting(input, states, actions, n - 1);
    }
  }

  /** For every well-sent stream that ends with a finished message, and every calm run that has
      come to rest: all messages were delivered exactly once if and only if every packet that
      arrived beside a finished message fitted there. */
  lemma {:induction false} CalmDeliversExactly(input: seq<Packet>, states: seq<State>, actions: seq<Action>)
    requires IsRun(input, states, actions) && Quiet(input, states[|actions|])
    requires WellSent(input) && CalmUpTo(states, actions, |actions|)
    requires input == [] || !input[|input| - 1].more
    ensures states[|actions|].delivered == Messages(input, |input|) <==> FitsUpTo(input, states, actions, |actions|)
  {
    if FitsUpTo(input, states, actions, |actions|) {
      CalmFittingDelivers(input, states, actions, |actions|);
    } else {
      var i := FirstUnfitting(input, states, actions, |actions|);
      RunTuned(input, states, actions, i);
      RunBounded(input, states, actions, i);
      assert Next(input, states[i], actions[i], states[i + 1]);
      var sent := states[i].sent + 1;
      assert CutAhead(input, states[i + 1], sent);
      if CleanUpTo(input, states, actions, |actions|) {
        CutStays(input, states, actions, i + 1, |actions|, sent);
        assert false;
      }
      UnfittingLoses(input, states, actions, i, sent);
    }
  }

  lemma {:induction false} UnfittingLoses(
    input: seq<Packet>, states: seq<State>, actions: seq<Action>, i: nat, sent: nat)
    requires IsRun(input, states, actions) && i < |actions| && 0 < sent <= |input|
    requires CalmUpTo(states, actions, |actions|) && !input[|input| - 1].more
    requires CleanUpTo(input, states, actions, i) && !CleanUpTo(input, states, actions, |actions|)
    requires actions[i] == Take && CutAhead(input, states[i + 1], sent)
    ensures states[|actions|].delivered != Messages(input, |input|)
  {
    var t := FirstUnclean(input, states, actions, |actions|);
    assert t > i;
    CutStays(input, states, actions, i + 1, t, sent);
    RunOneSequence(input, states, actions, t);
    assert Next(input, states[t], actions[t], states[t + 1]);
    UncleanLoses(input, states, actions, t);
  }

  /** If each packet fits beside the message before it, whenever it arrives, every calm run of a
      well-sent stream is fitting. */
  lemma {:induction false} SmallMessagesFit(input: seq<Packet>, states: seq<State>, actions: seq<Action>, n: nat)
    requires IsRun(input, states, actions) && WellSent(input) && n <= |actions| && CalmUpTo(states, actions, n)
    requires forall k :: 0 < k < |input| ==> |Message(input, k)| + input[k].size <= R_SIZE
    ensures FitsUpTo(input, states, actions, n)
  {
    if n > 0 {
      SmallMessagesFit(input, states, actions, n - 1);
      RunTuned(input, states, actions, n - 1);
      RunBounded(input, states, actions, n - 1);
      RunMatched(input, states, actions, n - 1);
      RunInStep(input, states, actions, n - 1);
      ClearedIsWhole(input, states, actions, n - 1);
      assert Next(input, states[n - 1], actions[n - 1], states[n - 1 + 1]);
    }
  }
}
