/** Three priority queues guarded by one counting semaphore, as in all three transport
    engines: a producer sends to a queue and then gives the semaphore; a consumer takes the
    semaphore and then scans SERIAL, BT and OTHERS without waiting. Any number of producers
    and consumers interleave between these steps. */
module PrioQueues {

  const QUEUES: nat := 3

  /** Where a task stands. Sent: the item is queued, the semaphore not yet given. Scan(k):
      the semaphore is taken, queue k is looked at next. NoElement: the branch behind the
      last failed receive. */
  datatype Pc = Ready | Sent | Scan(k: nat) | NoElement

  /** sentLog and recvLog: every item ever sent to and received from each queue; aborted:
      reads that gave up between taking the semaphore and the scan. */
  datatype State = State(
    queues: seq<seq<int>>, sem: nat, tasks: seq<Pc>,
    sentLog: seq<seq<int>>, recvLog: seq<seq<int>>, aborted: nat)

  datatype Action = Send(t: nat, k: nat, item: int) | Give(t: nat) | Take(t: nat) | Receive(t: nat) | Abort(t: nat)

  ghost predicate Init(s: State) {
    && s.queues == s.sentLog == s.recvLog == [[], [], []]
    && s.sem == 0 && s.aborted == 0 && forall t :: 0 <= t < |s.tasks| ==> s.tasks[t] == Ready
  }

  /** The semaphore is created with a maximum count of three queue lengths; a give at the
      maximum is refused. */
  function MaxCount(qsize: nat): nat { QUEUES * qsize }

  ghost predicate Next(qsize: nat, s: State, a: Action, s': State) {
    && a.t < |s.tasks| && |s.queues| == |s.sentLog| == |s.recvLog| == QUEUES
    && var pc := s.tasks[a.t];
      match a
      case Send(t, k, item) =>
        && pc == Ready && k < QUEUES && |s.queues[k]| < qsize
        && s' == s.(queues := s.queues[k := s.queues[k] + [item]],
                    sentLog := s.sentLog[k := s.sentLog[k] + [item]], tasks := s.tasks[t := Sent])
      case Give(t) =>
        && pc == Sent
        && s' == s.(sem := if s.sem < MaxCount(qsize) then s.sem + 1 else s.sem, tasks := s.tasks[t := Ready])
      case Take(t) =>
        && pc == Ready && s.sem > 0
        && s' == s.(sem := s.sem - 1, tasks := s.tasks[t := Scan(0)])
      case Receive(t) =>
        && pc.Scan? && pc.k < QUEUES
        && var q := s.queues[pc.k];
          s' == if q != [] then
            s.(queues := s.queues[pc.k := q[1..]],
               recvLog := s.recvLog[pc.k := s.recvLog[pc.k] + [q[0]]], tasks := s.tasks[t := Ready])
          else s.(tasks := s.tasks[t := if pc.k + 1 < QUEUES then Scan(pc.k + 1) else NoElement])
      case Abort(t) =>
        && pc == Scan(0)
        && s' == s.(aborted := s.aborted + 1, tasks := s.tasks[t := Ready])
  }

  // ---------- counting tasks ----------

  predicate Past(pc: Pc, k: nat) { pc.Scan? && pc.k >= k }

  /** Tasks among the first n that scan at queue k or past it. */
  function Scanning(tasks: seq<Pc>, k: nat, n: nat): nat
    requires n <= |tasks|
  {
    if n == 0 then 0 else Scanning(tasks, k, n - 1) + if Past(tasks[n - 1], k) then 1 else 0
  }

  /** Tasks among the first n that have yet to give the semaphore. */
  function Giving(tasks: seq<Pc>, n: nat): nat
    requires n <= |tasks|
  {
    if n == 0 then 0 else Giving(tasks, n - 1) + if tasks[n - 1] == Sent then 1 else 0
  }

  lemma {:induction false} ScanningMove(tasks: seq<Pc>, t: nat, pc: Pc, k: nat, n: nat)
    requires t < |tasks| && n <= |tasks|
    ensures Scanning(tasks[t := pc], k, n) + (if t < n && Past(tasks[t], k) then 1 else 0)
      == Scanning(tasks, k, n) + (if t < n && Past(pc, k) then 1 else 0)
  {
    if n > 0 { ScanningMove(tasks, t, pc, k, n - 1); }
  }

  lemma {:induction false} GivingMove(tasks: seq<Pc>, t: nat, pc: Pc, n: nat)
    requires t < |tasks| && n <= |tasks|
    ensures Giving(tasks[t := pc], n) + (if t < n && tasks[t] == Sent then 1 else 0)
      == Giving(tasks, n) + (if t < n && pc == Sent then 1 else 0)
  {
    if n > 0 { GivingMove(tasks, t, pc, n - 1); }
  }

  function ScanningIn(s: State, k: nat): nat { Scanning(s.tasks, k, |s.tasks|) }

  function Givers(s: State): nat { Giving(s.tasks, |s.tasks|) }

  /** All counts that one task's move changes. */
  lemma Move(s: State, t: nat, pc: Pc, s': State)
    requires t < |s.tasks| && s'.tasks == s.tasks[t := pc]
    ensures Givers(s') == Givers(s) + (if pc == Sent then 1 else 0) - (if s.tasks[t] == Sent then 1 else 0)
    ensures forall k: nat :: (ScanningIn(s', k) == ScanningIn(s, k)
      + (if Past(pc, k) then 1 else 0) - (if Past(s.tasks[t], k) then 1 else 0))
  {
    GivingMove(s.tasks, t, pc, |s.tasks|);
    forall k: nat ensures (ScanningIn(s', k) == ScanningIn(s, k)
      + (if Past(pc, k) then 1 else 0) - (if Past(s.tasks[t], k) then 1 else 0))
    {
      ScanningMove(s.tasks, t, pc, k, |s.tasks|);
    }
  }

  // ---------- the invariant ----------

  /** Items in queue k and the ones of lower priority. */
  function ItemsFrom(s: State, k: nat): nat
    requires |s.queues| == QUEUES && k <= QUEUES
    decreases QUEUES - k
  {
    if k == QUEUES then 0 else |s.queues[k]| + ItemsFrom(s, k + 1)
  }

  /** Every item has one token: in the semaphore, about to be given, held by a scanning
      consumer, or thrown away by an aborted read. So a consumer at queue k or past it finds
      an item at or below k. */
  ghost predicate Inv(qsize: nat, s: State) {
    && |s.queues| == |s.sentLog| == |s.recvLog| == QUEUES
    && (forall k :: 0 <= k < QUEUES ==> |s.queues[k]| <= qsize && s.sentLog[k] == s.recvLog[k] + s.queues[k])
    && (forall t :: 0 <= t < |s.tasks| ==> s.tasks[t] != NoElement && (s.tasks[t].Scan? ==> s.tasks[t].k < QUEUES))
    && ItemsFrom(s, 0) == s.sem + Givers(s) + ScanningIn(s, 0) + s.aborted
    && ItemsFrom(s, 1) >= ScanningIn(s, 1)
    && ItemsFrom(s, 2) >= ScanningIn(s, 2)
  }

  lemma Unfold(s: State)
    requires |s.queues| == QUEUES
    ensures ItemsFrom(s, 2) == |s.queues[2]|
    ensures ItemsFrom(s, 1) == |s.queues[1]| + |s.queues[2]|
    ensures ItemsFrom(s, 0) == |s.queues[0]| + |s.queues[1]| + |s.queues[2]|
  {
    assert ItemsFrom(s, 3) == 0;
    assert ItemsFrom(s, 2) == |s.queues[2]| + ItemsFrom(s, 3);
    assert ItemsFrom(s, 1) == |s.queues[1]| + ItemsFrom(s, 2);
  }

  /** Of the tasks scanning past k, those at j >= k are some. */
  lemma {:induction false} ScanningFalls(tasks: seq<Pc>, k: nat, j: nat, n: nat)
    requires n <= |tasks| && k <= j
    ensures Scanning(tasks, j, n) <= Scanning(tasks, k, n)
    ensures forall t :: 0 <= t < n && Past(tasks[t], k) && !Past(tasks[t], j) ==>
      Scanning(tasks, j, n) < Scanning(tasks, k, n)
  {
    if n > 0 { ScanningFalls(tasks, k, j, n - 1); }
  }

  lemma {:induction false} SomeScanning(tasks: seq<Pc>, k: nat, t: nat, n: nat)
    requires t < n <= |tasks| && Past(tasks[t], k)
    ensures Scanning(tasks, k, n) >= 1
  {
    if t < n - 1 { SomeScanning(tasks, k, t, n - 1); }
  }

  lemma {:induction false} SomeGiving(tasks: seq<Pc>, t: nat, n: nat)
    requires t < n <= |tasks| && tasks[t] == Sent
    ensures Giving(tasks, n) >= 1
  {
    if t < n - 1 { SomeGiving(tasks, t, n - 1); }
  }

  lemma StepInv(qsize: nat, s: State, a: Action, s': State)
    requires Inv(qsize, s) && Next(qsize, s, a, s')
    ensures Inv(qsize, s')
  {
    Unfold(s);
    Unfold(s');
    match a
    case Send(t, k, item) => SendInv(qsize, s, a, s');
    case Give(t) =>
      Move(s, t, Ready, s');
      SomeGiving(s.tasks, t, |s.tasks|);
    case Take(t) => Move(s, t, Scan(0), s');
    case Receive(t) => ReceiveInv(qsize, s, t, s');
    case Abort(t) => Move(s, t, Ready, s');
  }

  lemma SendInv(qsize: nat, s: State, a: Action, s': State)
    requires Inv(qsize, s) && Next(qsize, s, a, s') && a.Send?
    ensures Inv(qsize, s')
  {
    Unfold(s);
    Unfold(s');
    Move(s, a.t, Sent, s');
    assert s.sentLog[a.k] + [a.item] == s.recvLog[a.k] + (s.queues[a.k] + [a.item]);
  }

  lemma ReceiveInv(qsize: nat, s: State, t: nat, s': State)
    requires Inv(qsize, s) && Next(qsize, s, Receive(t), s')
    ensures Inv(qsize, s')
  {
    Unfold(s);
    Unfold(s');
    var k := s.tasks[t].k;
    if s.queues[k] != [] {
      Move(s, t, Ready, s');
      assert s.recvLog[k] + s.queues[k] == s.recvLog[k] + [s.queues[k][0]] + s.queues[k][1..];
    } else {
      SomeScanning(s.tasks, k, t, |s.tasks|);
      if k + 1 < QUEUES {
        Move(s, t, Scan(k + 1), s');
        ScanningFalls(s.tasks, k, k + 1, |s.tasks|);
      }
    }
  }

  // ---------- runs ----------

  ghost predicate IsRun(qsize: nat, states: seq<State>, actions: seq<Action>) {
    && |states| == |actions| + 1 && Init(states[0])
    && forall i :: 0 <= i < |actions| ==> Next(qsize, states[i], actions[i], states[i + 1])
  }

  lemma {:induction false} RunInv(qsize: nat, states: seq<State>, actions: seq<Action>, i: nat)
    requires IsRun(qsize, states, actions) && i < |states|
    ensures Inv(qsize, states[i])
  {
    if i == 0 {
      NoneBusy(states[0], |states[0].tasks|);
      Unfold(states[0]);
    } else {
      RunInv(qsize, states, actions, i - 1);
      StepInv(qsize, states[i - 1], actions[i - 1], states[i - 1 + 1]);
    }
  }

  lemma {:induction false} NoneBusy(s: State, n: nat)
    requires n <= |s.tasks| && forall t :: 0 <= t < |s.tasks| ==> s.tasks[t] == Ready
    ensures Giving(s.tasks, n) == 0 && forall k: nat :: Scanning(s.tasks, k, n) == 0
  {
    if n > 0 { NoneBusy(s, n - 1); }
  }

  /** No consumer ever finds all three queues empty, the items at and below a scan position
      cover the consumers there, and no give is refused. */
  lemma NoElementUnreachable(qsize: nat, states: seq<State>, actions: seq<Action>, i: nat)
    requires IsRun(qsize, states, actions) && i < |states|
    ensures forall t :: 0 <= t < |states[i].tasks| ==> states[i].tasks[t] != NoElement
    ensures |states[i].queues| == QUEUES
    ensures forall k :: 0 <= k < QUEUES ==> ItemsFrom(states[i], k) >= ScanningIn(states[i], k)
    ensures states[i].sem <= MaxCount(qsize)
    ensures forall t :: 0 <= t < |states[i].tasks| && states[i].tasks[t] == Sent ==> states[i].sem < MaxCount(qsize)
  {
    RunInv(qsize, states, actions, i);
    Unfold(states[i]);
    forall t | 0 <= t < |states[i].tasks| && states[i].tasks[t] == Sent
      ensures states[i].sem < MaxCount(qsize)
    {
      SomeGiving(states[i].tasks, t, |states[i].tasks|);
    }
  }

  /** Every queue is first in, first out: what was received and what still waits is what was
      sent, in order. */
  lemma InOrder(qsize: nat, states: seq<State>, actions: seq<Action>, i: nat, k: nat)
    requires IsRun(qsize, states, actions) && i < |states| && k < QUEUES
    ensures |states[i].queues| == |states[i].sentLog| == |states[i].recvLog| == QUEUES
    ensures states[i].sentLog[k] == states[i].recvLog[k] + states[i].queues[k]
  {
    RunInv(qsize, states, actions, i);
  }

  /** When all tasks are idle and the semaphore is empty, the items left behind are exactly
      as many as reads were aborted after taking the semaphore. */
  lemma StrandedItems(qsize: nat, states: seq<State>, actions: seq<Action>, i: nat)
    requires IsRun(qsize, states, actions) && i < |states|
    requires states[i].sem == 0 && forall t :: 0 <= t < |states[i].tasks| ==> states[i].tasks[t] == Ready
    ensures |states[i].queues| == QUEUES && ItemsFrom(states[i], 0) == states[i].aborted
  {
    RunInv(qsize, states, actions, i);
    NoneBusy(states[i], |states[i].tasks|);
  }

  /** A scan is over behind at most three receives: each one yields an item or goes on to the next
      queue, and the one at the last queue always yields. */
  lemma ScanAdvances(qsize: nat, states: seq<State>, actions: seq<Action>, i: nat)
    requires IsRun(qsize, states, actions) && i < |actions| && actions[i].Receive?
    ensures var t := actions[i].t;
      && t < |states[i].tasks| == |states[i + 1].tasks| && states[i].tasks[t].Scan?
      && (states[i].tasks[t].k == 2 ==> states[i + 1].tasks[t] == Ready)
      && (states[i + 1].tasks[t] != Ready ==> states[i + 1].tasks[t] == Scan(states[i].tasks[t].k + 1))
  {
    NoElementUnreachable(qsize, states, actions, i + 1);
    assert Next(qsize, states[i], actions[i], states[i + 1]);
  }

  /** Since step m task t has been in one and the same scan. */
  ghost predicate ScansSince(states: seq<State>, t: nat, m: nat, i: nat)
    requires m <= i < |states|
  {
    forall n :: m <= n <= i ==> t < |states[n].tasks| && states[n].tasks[t].Scan?
  }

  /** Priority: a consumer that looks at queue k found each queue of higher priority empty when it
      looked at it, earlier in the same scan. */
  lemma {:induction false} HigherWasEmpty(
    qsize: nat, states: seq<State>, actions: seq<Action>, t: nat, k: nat, j: nat, i: nat) returns (m: nat)
    requires IsRun(qsize, states, actions) && i < |states| && j < k
    requires t < |states[i].tasks| && states[i].tasks[t] == Scan(k)
    ensures m < i && ScansSince(states, t, m, i)
    ensures states[m].tasks[t] == Scan(j) && j < |states[m].queues| && states[m].queues[j] == []
  {
    m := 0;
    if i > 0 {
      var s, a := states[i - 1], actions[i - 1];
      assert Next(qsize, s, a, states[i - 1 + 1]);
      if s.tasks[t] == Scan(k) {
        m := HigherWasEmpty(qsize, states, actions, t, k, j, i - 1);
      } else {
        assert a == Receive(t) && s.tasks[t] == Scan(k - 1) && s.queues[k - 1] == [];
        m := i - 1;
        if j < k - 1 { m := HigherWasEmpty(qsize, states, actions, t, k - 1, j, i - 1); }
      }
    }
  }
}
