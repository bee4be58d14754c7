/** The buffer blocks of the full-duplex SPI engine. Tasks run write, read, the startup event
    and the post-process loop in any interleaving; each step below is one queue, pool or
    driver operation. Which transmit queue serves the next transaction is left open, so every
    outcome of the semaphore and the priority scan is covered. */
module SpiEngine {
  import opened Counting
  import opened Traces

  const QUEUES: nat := 3
  const PRIO_Q_SERIAL: nat := 0
  const PRIO_Q_BT: nat := 1
  const PRIO_Q_OTHERS: nat := 2
  const SPI_QUEUE_SIZE: nat := 3

  datatype Flight = Flight(tx: nat, rx: nat)

  /** What a task does with the blocks it holds, in the order it took them.
      NeedTx, NeedRx, Submit: inside queue_next_transaction, behind a completed transaction's
      tx and rx block if there is one. FreeTx, HandRx: the rest of the post-process loop. */
  datatype Stage = Idle | Writing | Reading | NeedTx | NeedRx | Submit | FreeTx | HandRx

  /** The pool is a stack, see Mempool. */
  datatype State = State(
    pool: seq<nat>, txq: seq<seq<nat>>, flights: seq<Flight>, rxq: seq<seq<nat>>, tasks: seq<Task<Stage>>,
    startups: nat, completed: nat, submitted: nat, failed: nat)

  datatype Action =
    | AllocWrite(t: nat)
    | QueueTx(t: nat, k: nat)
    | QueueStartup(t: nat)
    | Complete(t: nat)
    | GetReal(t: nat, k: nat)
    | GetDummy(t: nat)
    | NoDummy(t: nat)
    | GetRx(t: nat)
    | Queue(t: nat)
    | FreeOldTx(t: nat)
    | DropRx(t: nat)
    | QueueRx(t: nat, k: nat)
    | ReadRx(t: nat, k: nat)
    | ReadDone(t: nat)

  /** A queue receive: the first element and the queues without it. */
  function Rest(qs: seq<seq<nat>>, k: nat): seq<seq<nat>>
    requires k < |qs| && qs[k] != []
  {
    qs[k := qs[k][1..]]
  }

  function Add(qs: seq<seq<nat>>, k: nat, b: nat): seq<seq<nat>>
    requires k < |qs|
  {
    qs[k := qs[k] + [b]]
  }

  function Become(s: State, t: nat, stage: Stage, held: seq<nat>): State
    requires t < |s.tasks|
  {
    s.(tasks := s.tasks[t := Task(stage, held)])
  }

  ghost predicate Next(txSize: nat, rxSize: nat, s: State, a: Action, s': State) {
    && a.t < |s.tasks| && |s.txq| == |s.rxq| == QUEUES
    && var t, stage, held := a.t, s.tasks[a.t].stage, s.tasks[a.t].held;
      match a
      case AllocWrite(_) =>
        && stage == Idle && held == [] && s.pool != []
        && s' == Become(s, t, Writing, [s.pool[|s.pool| - 1]]).(pool := s.pool[..|s.pool| - 1])
      case QueueTx(_, k) =>
        && stage == Writing && |held| == 1 && k < QUEUES && |s.txq[k]| < txSize
        && s' == Become(s, t, Idle, []).(txq := Add(s.txq, k, held[0]))
      case QueueStartup(_) =>
        && stage == Writing && |held| == 1 && |s.txq[PRIO_Q_OTHERS]| < txSize
        && s' == Become(s, t, NeedTx, []).(txq := Add(s.txq, PRIO_Q_OTHERS, held[0]), startups := s.startups + 1)
      case Complete(_) =>
        && stage == Idle && held == [] && s.flights != []
        && s' == Become(s, t, NeedTx, [s.flights[0].tx, s.flights[0].rx]).(
          flights := s.flights[1..], completed := s.completed + 1)
      case GetReal(_, k) =>
        && stage == NeedTx && k < QUEUES && s.txq[k] != []
        && s' == Become(s, t, NeedRx, held + [s.txq[k][0]]).(txq := Rest(s.txq, k))
      case GetDummy(_) =>
        && stage == NeedTx && s.pool != []
        && s' == Become(s, t, NeedRx, held + [s.pool[|s.pool| - 1]]).(pool := s.pool[..|s.pool| - 1])
      case NoDummy(_) =>
        && stage == NeedTx && s.pool == []
        && s' == Become(s, t, if held == [] then Idle else FreeTx, held).(failed := s.failed + 1)
      case GetRx(_) =>
        && stage == NeedRx && s.pool != []
        && s' == Become(s, t, Submit, held + [s.pool[|s.pool| - 1]]).(pool := s.pool[..|s.pool| - 1])
      case Queue(_) =>
        && stage == Submit && |held| >= 2 && |s.flights| < SPI_QUEUE_SIZE
        && var n := |held| - 2;
          s' == Become(s, t, if n == 0 then Idle else FreeTx, held[..n]).(
            flights := s.flights + [Flight(held[n], held[n + 1])], submitted := s.submitted + 1)
      case FreeOldTx(_) =>
        && stage == FreeTx && |held| == 2
        && s' == Become(s, t, HandRx, [held[1]]).(pool := s.pool + [held[0]])
      case DropRx(_) =>
        && stage == HandRx && |held| == 1
        && s' == Become(s, t, Idle, []).(pool := s.pool + [held[0]])
      case QueueRx(_, k) =>
        && stage == HandRx && |held| == 1 && k < QUEUES && |s.rxq[k]| < rxSize
        && s' == Become(s, t, Idle, []).(rxq := Add(s.rxq, k, held[0]))
      case ReadRx(_, k) =>
        && stage == Idle && held == [] && k < QUEUES && s.rxq[k] != []
        && s' == Become(s, t, Reading, [s.rxq[k][0]]).(rxq := Rest(s.rxq, k))
      case ReadDone(_) =>
        && stage == Reading && |held| == 1
        && s' == Become(s, t, Idle, []).(pool := s.pool + [held[0]])
  }

  // ---------- where the blocks are ----------

  function Sides(f: Flight, b: nat): nat { (if f.tx == b then 1 else 0) + if f.rx == b then 1 else 0 }

  /** How often b is a side of one of the first n transactions. */
  function InFlights(flights: seq<Flight>, b: nat, n: nat): nat
    requires n <= |flights|
  {
    if n == 0 then 0
    else InFlights(flights, b, n - 1) + Sides(flights[n - 1], b)
  }

  function InQueues(qs: seq<seq<nat>>, b: nat): nat
    requires |qs| == QUEUES
  {
    Occ(qs[0], b) + Occ(qs[1], b) + Occ(qs[2], b)
  }

  /** How often b occurs in all places together. */
  function Places(s: State, b: nat): nat
    requires |s.txq| == |s.rxq| == QUEUES
  {
    Occ(s.pool, b) + InQueues(s.txq, b) + InFlights(s.flights, b, |s.flights|) + InQueues(s.rxq, b)
    + InHands(s.tasks, b, |s.tasks|)
  }

  lemma InQueuesAdd(qs: seq<seq<nat>>, k: nat, x: nat, b: nat)
    requires |qs| == QUEUES && k < QUEUES
    ensures InQueues(Add(qs, k, x), b) == InQueues(qs, b) + if x == b then 1 else 0
  {
    OccAdd(qs[k], x, b);
  }

  lemma InQueuesRest(qs: seq<seq<nat>>, k: nat, b: nat)
    requires |qs| == QUEUES && k < QUEUES && qs[k] != []
    ensures InQueues(qs, b) == InQueues(Rest(qs, k), b) + if qs[k][0] == b then 1 else 0
  {
    OccRest(qs[k], qs[k][1..], b, |qs[k]|);
  }

  lemma {:induction false} InFlightsSame(a: seq<Flight>, c: seq<Flight>, b: nat, n: nat)
    requires n <= |a| && n <= |c| && forall i :: 0 <= i < n ==> a[i] == c[i]
    ensures InFlights(a, b, n) == InFlights(c, b, n)
  {
    if n > 0 { InFlightsSame(a, c, b, n - 1); }
  }

  lemma {:induction false} InFlightsRest(flights: seq<Flight>, b: nat, n: nat)
    requires 0 < n <= |flights|
    ensures InFlights(flights[1..], b, n - 1) + Sides(flights[0], b) == InFlights(flights, b, n)
  {
    if n > 1 {
      InFlightsRest(flights, b, n - 1);
      assert flights[1..][n - 2] == flights[n - 1];
    }
  }

  /** No step loses or doubles a block. */
  lemma StepConserves(txSize: nat, rxSize: nat, s: State, a: Action, s': State, b: nat)
    requires Next(txSize, rxSize, s, a, s')
    ensures |s'.txq| == |s'.rxq| == QUEUES && Places(s', b) == Places(s, b)
  {
    if a.QueueTx? || a.QueueStartup? || a.QueueRx? || a.GetReal? || a.ReadRx? {
      QueueConserves(txSize, rxSize, s, a, s', b);
    } else if a.Complete? || a.Queue? {
      FlightConserves(txSize, rxSize, s, a, s', b);
    } else {
      PoolConserves(txSize, rxSize, s, a, s', b);
    }
  }

  /** The blocks a task holds before and after its step. */
  lemma Hands(txSize: nat, rxSize: nat, s: State, a: Action, s': State, b: nat)
    requires Next(txSize, rxSize, s, a, s')
    ensures InHands(s'.tasks, b, |s'.tasks|) + Occ(s.tasks[a.t].held, b)
      == InHands(s.tasks, b, |s.tasks|) + Occ(s'.tasks[a.t].held, b)
  {
    InHandsMove(s.tasks, a.t, s'.tasks[a.t], b, |s.tasks|);
    assert s'.tasks == s.tasks[a.t := s'.tasks[a.t]];
  }

  lemma QueueConserves(txSize: nat, rxSize: nat, s: State, a: Action, s': State, b: nat)
    requires Next(txSize, rxSize, s, a, s')
    requires a.QueueTx? || a.QueueStartup? || a.QueueRx? || a.GetReal? || a.ReadRx?
    ensures |s'.txq| == |s'.rxq| == QUEUES && Places(s', b) == Places(s, b)
  {
    var held := s.tasks[a.t].held;
    Hands(txSize, rxSize, s, a, s', b);
    if |held| == 1 { OccOne(held, b); }
    match a
    case QueueTx(_, k) => InQueuesAdd(s.txq, k, held[0], b);
    case QueueStartup(_) => InQueuesAdd(s.txq, PRIO_Q_OTHERS, held[0], b);
    case QueueRx(_, k) => InQueuesAdd(s.rxq, k, held[0], b);
    case ReadRx(_, k) =>
      InQueuesRest(s.rxq, k, b);
      OccOne(s'.tasks[a.t].held, b);
    case GetReal(_, k) =>
      InQueuesRest(s.txq, k, b);
      OccAdd(held, s.txq[k][0], b);
  }

  lemma FlightConserves(txSize: nat, rxSize: nat, s: State, a: Action, s': State, b: nat)
    requires Next(txSize, rxSize, s, a, s') && (a.Complete? || a.Queue?)
    ensures |s'.txq| == |s'.rxq| == QUEUES && Places(s', b) == Places(s, b)
  {
    var held := s.tasks[a.t].held;
    Hands(txSize, rxSize, s, a, s', b);
    match a
    case Complete(_) =>
      InFlightsRest(s.flights, b, |s.flights|);
      OccTwo(s'.tasks[a.t].held, b);
    case Queue(_) =>
      var n := |held| - 2;
      InFlightsSame(s'.flights, s.flights, b, |s.flights|);
      OccAdd(held[..n], held[n], b);
      OccAdd(held[..n] + [held[n]], held[n + 1], b);
      assert held == held[..n] + [held[n]] + [held[n + 1]];
  }

  lemma PoolConserves(txSize: nat, rxSize: nat, s: State, a: Action, s': State, b: nat)
    requires Next(txSize, rxSize, s, a, s')
    requires !a.QueueTx? && !a.QueueStartup? && !a.QueueRx? && !a.GetReal? && !a.ReadRx? && !a.Complete? && !a.Queue?
    ensures |s'.txq| == |s'.rxq| == QUEUES && Places(s', b) == Places(s, b)
  {
    var held := s.tasks[a.t].held;
    Hands(txSize, rxSize, s, a, s', b);
    if a.AllocWrite? {
      OccLast(s.pool, b);
      OccOne(s'.tasks[a.t].held, b);
    } else if a.GetDummy? || a.GetRx? {
      OccLast(s.pool, b);
      OccAdd(held, s.pool[|s.pool| - 1], b);
    } else if a.FreeOldTx? {
      OccAdd(s.pool, held[0], b);
      OccTwo(held, b);
      OccOne(s'.tasks[a.t].held, b);
    } else if !a.NoDummy? {
      OccAdd(s.pool, held[0], b);
      OccOne(held, b);
    }
  }

  // ---------- successors ----------

  predicate Preparing(task: Task<Stage>) { task.stage == NeedTx || task.stage == NeedRx || task.stage == Submit }

  /** Tasks among the first n inside queue_next_transaction. */
  function Prepared(tasks: seq<Task<Stage>>, n: nat): nat
    requires n <= |tasks|
  {
    if n == 0 then 0 else Prepared(tasks, n - 1) + if Preparing(tasks[n - 1]) then 1 else 0
  }

  lemma {:induction false} PreparedMove(tasks: seq<Task<Stage>>, t: nat, task: Task<Stage>, n: nat)
    requires t < |tasks| && n <= |tasks|
    ensures Prepared(tasks[t := task], n) + (if t < n && Preparing(tasks[t]) then 1 else 0)
      == Prepared(tasks, n) + (if t < n && Preparing(task) then 1 else 0)
  {
    if n > 0 { PreparedMove(tasks, t, task, n - 1); }
  }

  /** Every startup and every completed transaction has one successor, queued, in
      preparation, or given up for want of a dummy buffer. */
  ghost predicate Chained(s: State) {
    && s.submitted == s.completed + |s.flights|
    && s.submitted + Prepared(s.tasks, |s.tasks|) + s.failed == s.startups + s.completed
  }

  /** The steps that begin or end a successor change the counts together. */
  lemma {:induction false} StepChained(txSize: nat, rxSize: nat, s: State, a: Action, s': State)
    requires Next(txSize, rxSize, s, a, s') && Chained(s)
    ensures Chained(s')
  {
    PreparedMove(s.tasks, a.t, s'.tasks[a.t], |s.tasks|);
    assert s'.tasks == s.tasks[a.t := s'.tasks[a.t]];
    if a.QueueStartup? || a.Complete? || a.NoDummy? || a.Queue? {
      CountedStep(txSize, rxSize, s, a, s');
    } else {
      UncountedStep(txSize, rxSize, s, a, s');
    }
  }

  lemma {:induction false} CountedStep(txSize: nat, rxSize: nat, s: State, a: Action, s': State)
    requires Next(txSize, rxSize, s, a, s') && (a.QueueStartup? || a.Complete? || a.NoDummy? || a.Queue?)
    ensures s'.submitted - s'.completed - |s'.flights| == s.submitted - s.completed - |s.flights|
    ensures var was, now := Preparing(s.tasks[a.t]), Preparing(s'.tasks[a.t]);
      && was != now
      && s'.submitted + s'.failed - s'.startups - s'.completed
         == s.submitted + s.failed - s.startups - s.completed + if was then 1 else -1
  {
  }

  lemma {:induction false} UncountedStep(txSize: nat, rxSize: nat, s: State, a: Action, s': State)
    requires Next(txSize, rxSize, s, a, s') && !a.QueueStartup? && !a.Complete? && !a.NoDummy? && !a.Queue?
    ensures Preparing(s'.tasks[a.t]) == Preparing(s.tasks[a.t]) && |s'.flights| == |s.flights|
    ensures s'.submitted == s.submitted && s'.failed == s.failed
    ensures s'.startups == s.startups && s'.completed == s.completed
  {
  }

  // ---------- runs ----------

  /** The n blocks of the pool, each once. */
  function Blocks(n: nat): seq<nat> {
    if n == 0 then [] else Blocks(n - 1) + [n - 1]
  }

  lemma {:induction false} BlocksOnce(n: nat, b: nat)
    ensures Occ(Blocks(n), b) == if b < n then 1 else 0
  {
    if n > 0 {
      BlocksOnce(n - 1, b);
      OccAdd(Blocks(n - 1), n - 1, b);
    }
  }

  /** All n blocks are in the pool. */
  ghost predicate Init(n: nat, s: State) {
    && s.pool == Blocks(n)
    && s.txq == s.rxq == [[], [], []] && s.flights == []
    && (forall t :: 0 <= t < |s.tasks| ==> s.tasks[t] == Task(Idle, []))
    && s.startups == s.completed == s.submitted == s.failed == 0
  }

  ghost function Steps(txSize: nat, rxSize: nat): (State, Action, State) -> bool {
    (s, a, s') => Next(txSize, rxSize, s, a, s')
  }

  ghost predicate IsRun(n: nat, txSize: nat, rxSize: nat, states: seq<State>, actions: seq<Action>) {
    IsTrace(Steps(txSize, rxSize), states, actions) && Init(n, states[0])
  }

  lemma {:induction false} AllIdle(tasks: seq<Task<Stage>>, n: nat)
    requires n <= |tasks| && forall t :: 0 <= t < |tasks| ==> tasks[t] == Task(Idle, [])
    ensures Prepared(tasks, n) == 0
  {
    if n > 0 { AllIdle(tasks, n - 1); }
  }

  lemma {:induction false} RunChained(
    n: nat, txSize: nat, rxSize: nat, states: seq<State>, actions: seq<Action>, i: nat)
    requires IsRun(n, txSize, rxSize, states, actions) && i < |states|
    ensures Chained(states[i])
  {
    if i == 0 {
      AllIdle(states[0].tasks, |states[0].tasks|);
    } else {
      RunChained(n, txSize, rxSize, states, actions, i - 1);
      StepOf(Steps(txSize, rxSize), states, actions, i - 1);
      StepChained(txSize, rxSize, states[i - 1], actions[i - 1], states[i - 1 + 1]);
    }
  }

  /** In every reachable state every block of the pool is in exactly one place: pool, transmit
      queue, one side of one transaction, receive queue, or the hands of one task. No other
      block is anywhere. */
  lemma {:induction false} ExactlyOnePlace(
    n: nat, txSize: nat, rxSize: nat, states: seq<State>, actions: seq<Action>, i: nat, b: nat)
    requires IsRun(n, txSize, rxSize, states, actions) && i < |states|
    ensures |states[i].txq| == |states[i].rxq| == QUEUES
    ensures Places(states[i], b) == if b < n then 1 else 0
  {
    if i == 0 {
      EmptyHands(states[0].tasks, b, |states[0].tasks|);
      BlocksOnce(n, b);
    } else {
      ExactlyOnePlace(n, txSize, rxSize, states, actions, i - 1, b);
      StepOf(Steps(txSize, rxSize), states, actions, i - 1);
      StepConserves(txSize, rxSize, states[i - 1], actions[i - 1], states[i - 1 + 1], b);
    }
  }

  /** After one startup event and as long as no dummy allocation failed, exactly one
      transaction is queued or being prepared: the engine never stops and never doubles. */
  lemma StaysPrimed(n: nat, txSize: nat, rxSize: nat, states: seq<State>, actions: seq<Action>, i: nat)
    requires IsRun(n, txSize, rxSize, states, actions) && i < |states|
    ensures var s := states[i];
      |s.flights| + Prepared(s.tasks, |s.tasks|) + s.failed == s.startups
  {
    RunChained(n, txSize, rxSize, states, actions, i);
  }

  /** What fits: no queue is longer than it was created, and the driver has at most three
      transactions. */
  ghost predicate Bounded(txSize: nat, rxSize: nat, s: State) {
    && |s.txq| == |s.rxq| == QUEUES && |s.flights| <= 3
    && forall k :: 0 <= k < QUEUES ==> |s.txq[k]| <= txSize && |s.rxq[k]| <= rxSize
  }

  lemma BoundedStep(txSize: nat, rxSize: nat, s: State, a: Action, s': State)
    requires Next(txSize, rxSize, s, a, s') && Bounded(txSize, rxSize, s)
    ensures Bounded(txSize, rxSize, s')
  {
  }

  lemma {:induction false} RunBounded(
    n: nat, txSize: nat, rxSize: nat, states: seq<State>, actions: seq<Action>, i: nat)
    requires IsRun(n, txSize, rxSize, states, actions) && i < |states|
    ensures Bounded(txSize, rxSize, states[i])
  {
    if i > 0 {
      RunBounded(n, txSize, rxSize, states, actions, i - 1);
      StepOf(Steps(txSize, rxSize), states, actions, i - 1);
      BoundedStep(txSize, rxSize, states[i - 1], actions[i - 1], states[i]);
    }
  }

  // ---------- first in, first out ----------

  datatype Side = Tx | Rx

  function QueueAt(s: State, side: Side, k: nat): seq<nat> {
    var qs := if side == Tx then s.txq else s.rxq;
    if k < |qs| then qs[k] else []
  }

  function HeldBy(s: State, t: nat): seq<nat> { if t < |s.tasks| then s.tasks[t].held else [] }

  /** The block a step sends to queue k. */
  function SentBy(s: State, a: Action, side: Side, k: nat): seq<nat> {
    if side == Tx && ((a.QueueTx? && a.k == k) || (a.QueueStartup? && k == PRIO_Q_OTHERS)) then HeldBy(s, a.t)
    else if side == Rx && a.QueueRx? && a.k == k then HeldBy(s, a.t)
    else []
  }

  /** The block a step takes from queue k: the last one its task got. */
  function TakenBy(a: Action, s': State, side: Side, k: nat): seq<nat> {
    var held := HeldBy(s', a.t);
    if held != [] && ((side == Tx && a.GetReal? && a.k == k) || (side == Rx && a.ReadRx? && a.k == k))
    then [held[|held| - 1]] else []
  }

  /** The blocks sent to a queue in the first n steps, in the order of the steps. */
  function SentLog(states: seq<State>, actions: seq<Action>, side: Side, k: nat, n: nat): seq<nat>
    requires n <= |actions| < |states|
  {
    if n == 0 then []
    else SentLog(states, actions, side, k, n - 1) + SentBy(states[n - 1], actions[n - 1], side, k)
  }

  /** The blocks taken from it. */
  function TakenLog(states: seq<State>, actions: seq<Action>, side: Side, k: nat, n: nat): seq<nat>
    requires n <= |actions| < |states|
  {
    if n == 0 then []
    else TakenLog(states, actions, side, k, n - 1) + TakenBy(actions[n - 1], states[n], side, k)
  }

  /** Steps that touch no queue of the side. */
  lemma {:induction false} QueuesUntouched(txSize: nat, rxSize: nat, s: State, a: Action, s': State)
    requires Next(txSize, rxSize, s, a, s')
    ensures !a.QueueTx? && !a.QueueStartup? && !a.GetReal? ==> s'.txq == s.txq
    ensures !a.QueueRx? && !a.ReadRx? ==> s'.rxq == s.rxq
  {
  }

  lemma {:induction false} TxOrderStep(txSize: nat, rxSize: nat, s: State, a: Action, s': State, k: nat)
    requires Next(txSize, rxSize, s, a, s') && k < QUEUES
    ensures QueueAt(s, Tx, k) + SentBy(s, a, Tx, k) == TakenBy(a, s', Tx, k) + QueueAt(s', Tx, k)
  {
    if a.QueueTx? || a.QueueStartup? || a.GetReal? {
      assert QueueAt(s, Tx, k) == s.txq[k];
    } else {
      QueuesUntouched(txSize, rxSize, s, a, s');
    }
  }

  lemma {:induction false} RxOrderStep(txSize: nat, rxSize: nat, s: State, a: Action, s': State, k: nat)
    requires Next(txSize, rxSize, s, a, s') && k < QUEUES
    ensures QueueAt(s, Rx, k) + SentBy(s, a, Rx, k) == TakenBy(a, s', Rx, k) + QueueAt(s', Rx, k)
  {
    if a.QueueRx? || a.ReadRx? {
      assert QueueAt(s, Rx, k) == s.rxq[k];
    } else {
      QueuesUntouched(txSize, rxSize, s, a, s');
    }
  }

  lemma InOrderStep(
    txSize: nat, rxSize: nat, states: seq<State>, actions: seq<Action>, side: Side, k: nat, i: nat)
    requires IsTrace(Steps(txSize, rxSize), states, actions) && k < QUEUES && i < |actions|
    ensures QueueAt(states[i], side, k) + SentBy(states[i], actions[i], side, k)
      == TakenBy(actions[i], states[i + 1], side, k) + QueueAt(states[i + 1], side, k)
  {
    StepOf(Steps(txSize, rxSize), states, actions, i);
    if side == Tx {
      TxOrderStep(txSize, rxSize, states[i], actions[i], states[i + 1], k);
    } else {
      RxOrderStep(txSize, rxSize, states[i], actions[i], states[i + 1], k);
    }
  }

  lemma Regroup<T>(taken: seq<T>, queue: seq<T>, sent: seq<T>, gone: seq<T>, left: seq<T>)
    requires queue + sent == gone + left
    ensures taken + queue + sent == taken + gone + left
  {
    assert taken + queue + sent == taken + (queue + sent);
    assert taken + gone + left == taken + (gone + left);
  }

  /** In every run every transmit and every receive queue is first in, first out: what was sent to
      it is what was taken from it and what still waits in it, in order. */
  lemma {:induction false} QueuesInOrder(
    n: nat, txSize: nat, rxSize: nat, states: seq<State>, actions: seq<Action>, side: Side, k: nat, i: nat)
    requires IsRun(n, txSize, rxSize, states, actions) && k < QUEUES && i <= |actions|
    ensures SentLog(states, actions, side, k, i) == TakenLog(states, actions, side, k, i) + QueueAt(states[i], side, k)
  {
    if i > 0 {
      QueuesInOrder(n, txSize, rxSize, states, actions, side, k, i - 1);
      InOrderStep(txSize, rxSize, states, actions, side, k, i - 1);
      var s, a, s' := states[i - 1], actions[i - 1], states[i];
      Regroup(TakenLog(states, actions, side, k, i - 1), QueueAt(s, side, k), SentBy(s, a, side, k),
              TakenBy(a, s', side, k), QueueAt(s', side, k));
    }
  }

  /** The transaction a step hands to the driver: the last two blocks its task held. */
  function Handed(s: State, a: Action): seq<Flight> {
    var held := HeldBy(s, a.t);
    if a.Queue? && |held| >= 2 then [Flight(held[|held| - 2], held[|held| - 1])] else []
  }

  /** The transaction a step gets back from the driver. */
  function Returned(a: Action, s': State): seq<Flight> {
    var held := HeldBy(s', a.t);
    if a.Complete? && |held| >= 2 then [Flight(held[0], held[1])] else []
  }

  function HandedLog(states: seq<State>, actions: seq<Action>, n: nat): seq<Flight>
    requires n <= |actions| < |states|
  {
    if n == 0 then [] else HandedLog(states, actions, n - 1) + Handed(states[n - 1], actions[n - 1])
  }

  function ReturnedLog(states: seq<State>, actions: seq<Action>, n: nat): seq<Flight>
    requires n <= |actions| < |states|
  {
    if n == 0 then [] else ReturnedLog(states, actions, n - 1) + Returned(actions[n - 1], states[n])
  }

  lemma FlightStep(txSize: nat, rxSize: nat, s: State, a: Action, s': State)
    requires Next(txSize, rxSize, s, a, s')
    ensures s.flights + Handed(s, a) == Returned(a, s') + s'.flights
  {
  }

  lemma FlightStepAt(txSize: nat, rxSize: nat, states: seq<State>, actions: seq<Action>, i: nat)
    requires IsTrace(Steps(txSize, rxSize), states, actions) && i < |actions|
    ensures states[i].flights + Handed(states[i], actions[i])
      == Returned(actions[i], states[i + 1]) + states[i + 1].flights
  {
    StepOf(Steps(txSize, rxSize), states, actions, i);
    FlightStep(txSize, rxSize, states[i], actions[i], states[i + 1]);
  }

  /** The driver returns the transactions in the order it got them, each with its own blocks. */
  lemma {:induction false} FlightsInOrder(
    n: nat, txSize: nat, rxSize: nat, states: seq<State>, actions: seq<Action>, i: nat)
    requires IsRun(n, txSize, rxSize, states, actions) && i <= |actions|
    ensures HandedLog(states, actions, i) == ReturnedLog(states, actions, i) + states[i].flights
  {
    if i > 0 {
      FlightsInOrder(n, txSize, rxSize, states, actions, i - 1);
      FlightStepAt(txSize, rxSize, states, actions, i - 1);
      var s, a, s' := states[i - 1], actions[i - 1], states[i];
      Regroup(ReturnedLog(states, actions, i - 1), s.flights, Handed(s, a), Returned(a, s'), s'.flights);
    }
  }
}
