/** The hand-over comes to an end, and everything was delivered then, if and only if
    protocomm_pserial_data_ready could allocate every copy it needed. */
module HandoverProgress {
  import opened Delivery
  import opened Handover
  import opened HandoverSafety

  /** A step of the hand-over, or the copy for a request that cannot be allocated: then nothing
      is queued and recv_task goes on to the next packet, with r.valid still set. */
  datatype Outcome = Goes(a: Action) | NoMemory

  ghost predicate NextOrFail(input: seq<Packet>, s: State, o: Outcome, s': State) {
    match o
    case Goes(a) => Next(input, s, a, s')
    case NoMemory => s.recv == RPost && s.len > 0 && s' == s.(recv := RIdle)
  }

  ghost predicate IsFallible(input: seq<Packet>, states: seq<State>, outcomes: seq<Outcome>) {
    && |states| == |outcomes| + 1 && states[0] == Init()
    && forall i :: 0 <= i < |outcomes| ==> NextOrFail(input, states[i], outcomes[i], states[i + 1])
  }

  predicate AllAllocated(outcomes: seq<Outcome>, n: nat)
    requires n <= |outcomes|
  {
    forall i :: 0 <= i < n ==> outcomes[i] != NoMemory
  }

  // ---------- safety ----------

  /** The buffer is valid and no request belongs to it: recv_task waits for good. */
  ghost predicate Blocked(s: State) {
    && s.valid && InFlight(s) == [] && !s.pser.PGot? && s.pser != PClrValid
    && (s.recv == RIdle || s.recv.RWait?)
  }

  lemma {:induction false} FailureBlocks(input: seq<Packet>, s: State, s': State)
    requires Sized(input, s) && Matched(s) && NextOrFail(input, s, NoMemory, s')
    ensures Blocked(s') && Sized(input, s') && (Bounded(input, s) ==> Bounded(input, s'))
  {
    assert InFlight(s') == InFlight(s);
  }

  lemma {:induction false} BlockedStays(input: seq<Packet>, s: State, o: Outcome, s': State)
    requires Blocked(s) && NextOrFail(input, s, o, s')
    ensures Blocked(s') && s'.delivered == s.delivered && o != NoMemory
  {
    InFlightKept(input, s, o.a, s');
  }

  /** Without a failure everything is as in HandoverSafety; after one recv_task waits for good.
      The buffer never overflows in either case. */
  lemma {:induction false} FallibleInv(input: seq<Packet>, states: seq<State>, outcomes: seq<Outcome>, n: nat)
    requires IsFallible(input, states, outcomes) && n <= |outcomes|
    ensures Bounded(input, states[n])
    ensures if AllAllocated(outcomes, n) then Matched(states[n]) else Blocked(states[n])
  {
    if n > 0 {
      FallibleInv(input, states, outcomes, n - 1);
      var s, o, s' := states[n - 1], outcomes[n - 1], states[n - 1 + 1];
      assert NextOrFail(input, s, o, s');
      assert AllAllocated(outcomes, n) <==> AllAllocated(outcomes, n - 1) && o != NoMemory;
      if o.Goes? { BoundedStep(input, s, o.a, s'); }
      if !AllAllocated(outcomes, n - 1) {
        BlockedStays(input, s, o, s');
      } else if o == NoMemory {
        FailureBlocks(input, s, s');
      } else {
        MatchedStep(input, s, o.a, s');
      }
    }
  }

  lemma {:induction false} BlockedAfter(input: seq<Packet>, states: seq<State>, outcomes: seq<Outcome>, k: nat, n: nat)
    requires IsFallible(input, states, outcomes) && k < n <= |outcomes| && outcomes[k] == NoMemory
    ensures Blocked(states[n])
  {
    FallibleInv(input, states, outcomes, n);
  }

  /** After a failed allocation nothing is ever delivered again and r.valid stays set. */
  lemma {:induction false} NothingAfterFailure(
    input: seq<Packet>, states: seq<State>, outcomes: seq<Outcome>, k: nat, n: nat)
    requires IsFallible(input, states, outcomes) && k < n <= |outcomes| && outcomes[k] == NoMemory
    ensures states[n].valid && states[n].delivered == states[k].delivered
  {
    BlockedAfter(input, states, outcomes, k, n);
    if k < n - 1 {
      NothingAfterFailure(input, states, outcomes, k, n - 1);
      BlockedAfter(input, states, outcomes, k, n - 1);
      BlockedStays(input, states[n - 1], outcomes[n - 1], states[n - 1 + 1]);
    } else {
      assert NextOrFail(input, states[k], outcomes[k], states[k + 1]);
    }
  }

  // ---------- progress ----------

  /** Steps recv_task still makes with its packet; 5 for a request it may queue. */
  function RecvLeft(recv: Recv): nat {
    match recv
    case RIdle => 0
    case RWait(_) => 15
    case RTest(_) => 14
    case RSet(_) => 13
    case RCmp(_) => 12
    case RCopy(_) => 11
    case RLoad(_, _) => 10
    case RStore(_, _, _) => 9
    case RMark => 8
    case RPost => 7
    case RSend(_) => 6
  }

  function PserLeft(pser: Pser): nat {
    match pser
    case PIdle => 0
    case PGot(_) => 4
    case PClrValid => 3
    case PClrLen => 2
    case PClrSeq => 1
  }

  /** At most so many steps are left when no event is pushed. */
  function Left(input: seq<Packet>, s: State): nat
    requires s.sent <= |input|
  {
    16 * (|input| - s.sent) + RecvLeft(s.recv) + 5 * |s.queue| + PserLeft(s.pser)
  }

  /** pserial_task and the other tasks leave recv_task where it is. */
  predicate OfOthers(a: Action) {
    a == Push || a == Fetch || a == Read || a == ClearValid || a == ClearLen || a == ClearSeq
  }

  lemma OthersLeft(input: seq<Packet>, s: State, a: Action, s': State)
    requires Next(input, s, a, s') && OfOthers(a)
    ensures s'.sent == s.sent && s'.recv == s.recv
    ensures 5 * |s'.queue| + PserLeft(s'.pser) + 1 <= 5 * |s.queue| + PserLeft(s.pser) + if a == Push then 6 else 0
  {
  }

  lemma OwnLeft(input: seq<Packet>, s: State, a: Action, s': State)
    requires Next(input, s, a, s') && !OfOthers(a) && a != Take && a != Send
    ensures s'.sent == s.sent && s'.queue == s.queue && s'.pser == s.pser
    ensures RecvLeft(s'.recv) < RecvLeft(s.recv)
  {
  }

  lemma StepLeft(input: seq<Packet>, s: State, o: Outcome, s': State)
    requires s.sent <= |input| && NextOrFail(input, s, o, s')
    ensures s'.sent <= |input|
    ensures Left(input, s') + 1 <= Left(input, s) + if o == Goes(Push) then 6 else 0
  {
    if o.Goes? {
      if OfOthers(o.a) {
        OthersLeft(input, s, o.a, s');
      } else if o.a != Take && o.a != Send {
        OwnLeft(input, s, o.a, s');
      }
    }
  }

  /** Events pushed up to step n. */
  function Pushes(outcomes: seq<Outcome>, n: nat): nat
    requires n <= |outcomes|
  {
    if n == 0 then 0
    else if outcomes[n - 1] == Goes(Push) then Pushes(outcomes, n - 1) + 1 else Pushes(outcomes, n - 1)
  }

  /** No run goes round in circles: it has at most 16 steps for each packet and 6 for each event. */
  lemma {:induction false} RunEnds(input: seq<Packet>, states: seq<State>, outcomes: seq<Outcome>, n: nat)
    requires IsFallible(input, states, outcomes) && n <= |outcomes|
    ensures states[n].sent <= |input|
    ensures n + Left(input, states[n]) <= 16 * |input| + 6 * Pushes(outcomes, n)
  {
    if n > 0 {
      RunEnds(input, states, outcomes, n - 1);
      StepLeft(input, states[n - 1], outcomes[n - 1], states[n - 1 + 1]);
    }
  }

  /** Neither task can make a step. */
  ghost predicate Ended(input: seq<Packet>, s: State) { forall a :: a != Push ==> !Enabled(input, s, a) }

  /** Where a run ends, everything was taken, handed over and read, if and only if no allocation
      failed. */
  lemma {:induction false} EndsQuietExactly(input: seq<Packet>, states: seq<State>, outcomes: seq<Outcome>, n: nat)
    requires IsFallible(input, states, outcomes) && n <= |outcomes| && Ended(input, states[n])
    ensures Quiet(input, states[n]) <==> AllAllocated(outcomes, n)
  {
    FallibleInv(input, states, outcomes, n);
    if AllAllocated(outcomes, n) && !Quiet(input, states[n]) {
      GoesOn(input, states[n]);
    }
  }

  /** A run of Handover is one in which no allocation failed. */
  function Going(actions: seq<Action>): (outcomes: seq<Outcome>)
    ensures |outcomes| == |actions| && forall i :: 0 <= i < |actions| ==> outcomes[i] == Goes(actions[i])
  {
    seq(|actions|, i requires 0 <= i < |actions| => Goes(actions[i]))
  }

  lemma {:induction false} RunIsFallible(input: seq<Packet>, states: seq<State>, actions: seq<Action>)
    requires IsRun(input, states, actions)
    ensures IsFallible(input, states, Going(actions)) && AllAllocated(Going(actions), |actions|)
  {
    forall i | 0 <= i < |actions|
      ensures NextOrFail(input, states[i], Going(actions)[i], states[i + 1])
    {
      assert Next(input, states[i], actions[i], states[i + 1]);
    }
  }

  /** Every run without a failed allocation ends within the bound, and then all messages were
      delivered, each once, in order and whole, if and only if its steps were clean. */
  lemma {:induction false} EventuallyDelivered(input: seq<Packet>, states: seq<State>, actions: seq<Action>)
    requires IsRun(input, states, actions)
    requires NonEmpty(input) && (input == [] || !input[|input| - 1].more)
    ensures |actions| <= 16 * |input| + 6 * Pushes(Going(actions), |actions|)
    ensures Ended(input, states[|actions|]) ==>
      (states[|actions|].delivered == Messages(input, |input|) <==> CleanUpTo(input, states, actions, |actions|))
  {
    RunIsFallible(input, states, actions);
    RunEnds(input, states, Going(actions), |actions|);
    if Ended(input, states[|actions|]) {
      EndsQuietExactly(input, states, Going(actions), |actions|);
      DeliveredExactly(input, states, actions);
    }
  }
}
