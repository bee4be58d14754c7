/** The full-duplex SPI slave as its tasks execute it. Every method is proved to do what the
    code does when it runs by itself, and to be a sequence of the steps of SpiEngine, so what
    is proved there about every interleaving covers this code. */
module SpiSlave {
  import opened Wrappers
  import opened Counting
  import Frame
  import opened Traces
  import opened SpiEngine

  datatype Outcome = Queued | NoTxBuffer | Aborted

  /** What esp_spi_write returns: the payload length, ESP_FAIL, or nothing because the assert on
      the transmit block fails. */
  datatype Written = Sent(len: nat) | Refused | NoBlock

  const SPI_BUFFER_SIZE: nat := 1600
  const ESP_SERIAL_IF: nat := 3
  const ESP_HCI_IF: nat := 4

  /** The queue of a frame; the interface type has four bits in the header. */
  function QueueOf(ifType: nat): (k: nat)
    ensures k < QUEUES
  {
    if ifType % 16 == ESP_SERIAL_IF then PRIO_Q_SERIAL else if ifType % 16 == ESP_HCI_IF then PRIO_Q_BT else PRIO_Q_OTHERS
  }

  /** Serial frames, of type 3, have the first queue, HCI frames, of type 4, the second, all others
      the third. */
  lemma QueueOfTypes(ifType: nat)
    ensures QueueOf(ifType) == 0 <==> ifType % 16 == 3
    ensures QueueOf(ifType) == 1 <==> ifType % 16 == 4
    ensures QueueOf(ifType) <= 2
  {
  }

  /** What process_spi_rx makes of the received buffer. */
  datatype Verdict = Drop | Keep(k: nat)

  /** The first non-empty queue in the order of priority; QUEUES if all are empty. */
  function First(qs: seq<seq<nat>>): (k: nat)
    requires |qs| == QUEUES
    ensures k <= QUEUES && (k < QUEUES ==> qs[k] != []) && forall j :: 0 <= j < k ==> qs[j] == []
  {
    if qs[0] != [] then 0 else if qs[1] != [] then 1 else if qs[2] != [] then 2 else 3
  }

  function Total(qs: seq<seq<nat>>): nat
    requires |qs| == QUEUES
  {
    |qs[0]| + |qs[1]| + |qs[2]|
  }

  /** The queues before and behind the receipt of a block: the oldest of the first queue, in the
      order of priority, that is not empty. */
  ghost predicate Taken(before: seq<seq<nat>>, block: nat, behind: seq<seq<nat>>) {
    && |before| == |behind| == QUEUES
    && exists k :: 0 <= k < QUEUES && TakenFrom(before, k, block, behind)
  }

  ghost predicate TakenFrom(before: seq<seq<nat>>, k: nat, block: nat, behind: seq<seq<nat>>)
    requires k < |before| == |behind|
  {
    && before[k] == [block] + behind[k] && behind == before[k := behind[k]]
    && forall j :: 0 <= j < k ==> before[j] == []
  }

  class Slave {
    const txSize: nat
    const rxSize: nat
    var pool: seq<nat>
    var txSem: nat
    var txQueue: seq<seq<nat>>
    var flights: seq<Flight>
    var rxSem: nat
    var rxQueue: seq<seq<nat>>
    ghost var states: seq<State>
    ghost var actions: seq<Action>

    /** The fields are those of the last state of a run of the engine with one task; a token
        never stands for a frame that is not there. */
    ghost predicate Valid(stage: Stage, held: seq<nat>)
      reads this
    {
      && IsTrace(Steps(txSize, rxSize), states, actions)
      && |txQueue| == |rxQueue| == QUEUES
      && txSem <= Total(txQueue) && rxSem <= Total(rxQueue)
      && var s := states[|actions|];
        && s.pool == pool && s.txq == txQueue && s.flights == flights && s.rxq == rxQueue
        && s.tasks == [Task(stage, held)]
    }

    constructor (blocks: nat, txSize: nat, rxSize: nat)
      ensures Valid(Idle, []) && Init(blocks, states[0]) && actions == []
      ensures this.txSize == txSize && this.rxSize == rxSize
    {
      this.txSize, this.rxSize := txSize, rxSize;
      pool, flights := Blocks(blocks), [];
      txSem, txQueue, rxSem, rxQueue := 0, [[], [], []], 0, [[], [], []];
      states := [State(Blocks(blocks), [[], [], []], [], [[], [], []], [Task(Idle, [])], 0, 0, 0, 0)];
      actions := [];
    }

    /** Between and inside the methods below every block of the pool is in exactly one of the
        fields or in the hands of the running code, and no other block is anywhere. */
    lemma BlocksInOnePlace(blocks: nat, stage: Stage, held: seq<nat>, b: nat)
      requires Valid(stage, held) && Init(blocks, states[0])
      ensures Occ(pool, b) + InQueues(txQueue, b) + InFlights(flights, b, |flights|) + InQueues(rxQueue, b)
        + Occ(held, b) == if b < blocks then 1 else 0
    {
      ExactlyOnePlace(blocks, txSize, rxSize, states, actions, |actions|, b);
      var tasks := states[|actions|].tasks;
      assert InHands(tasks, b, 1) == InHands(tasks, b, 0) + Occ(held, b);
    }

    /** With all code done, the transactions in the driver are as many as startups of the engine
        less the transactions given up for want of a dummy. */
    lemma TransactionsQueued(blocks: nat)
      requires Valid(Idle, []) && Init(blocks, states[0])
      ensures |flights| + states[|actions|].failed == states[|actions|].startups
    {
      StaysPrimed(blocks, txSize, rxSize, states, actions, |actions|);
      var tasks := states[|actions|].tasks;
      assert Prepared(tasks, 1) == Prepared(tasks, 0);
    }

    ghost method Step(a: Action, s': State)
      requires IsTrace(Steps(txSize, rxSize), states, actions) && Next(txSize, rxSize, states[|actions|], a, s')
      modifies this`states, this`actions
      ensures IsTrace(Steps(txSize, rxSize), states, actions)
      ensures states == old(states) + [s'] && actions == old(actions) + [a]
    {
      Longer(Steps(txSize, rxSize), states, actions, a, s');
      states, actions := states + [s'], actions + [a];
    }

    // ---------- single calls ----------

    method ReceiveTx(k: nat, ghost held: seq<nat>) returns (block: nat)
      requires Valid(NeedTx, held) && k < QUEUES && txQueue[k] != [] && txSem < Total(txQueue)
      modifies this`txQueue, this`states, this`actions
      ensures old(txQueue)[k][0] == block && txQueue == old(txQueue)[k := old(txQueue)[k][1..]]
      ensures Valid(NeedRx, held + [block]) && old(states) <= states
    {
      block := txQueue[k][0];
      Step(GetReal(0, k), Become(states[|actions|], 0, NeedRx, held + [block]).(txq := Rest(txQueue, k)));
      txQueue := Rest(txQueue, k);
    }

    method AllocDummy(ghost held: seq<nat>) returns (block: nat)
      requires Valid(NeedTx, held) && pool != []
      modifies this`pool, this`states, this`actions
      ensures old(pool) == pool + [block]
      ensures Valid(NeedRx, held + [block]) && old(states) <= states
    {
      block := pool[|pool| - 1];
      Step(GetDummy(0), Become(states[|actions|], 0, NeedRx, held + [block]).(pool := pool[..|pool| - 1]));
      pool := pool[..|pool| - 1];
    }

    ghost method GiveUp(held: seq<nat>)
      requires Valid(NeedTx, held) && pool == []
      modifies this`states, this`actions
      ensures Valid(if held == [] then Idle else FreeTx, held) && old(states) <= states
    {
      var s := states[|actions|];
      Step(NoDummy(0), Become(s, 0, if held == [] then Idle else FreeTx, held).(failed := s.failed + 1));
    }

    method AllocRx(ghost held: seq<nat>) returns (block: nat)
      requires Valid(NeedRx, held) && pool != []
      modifies this`pool, this`states, this`actions
      ensures old(pool) == pool + [block]
      ensures Valid(Submit, held + [block]) && old(states) <= states
    {
      block := pool[|pool| - 1];
      Step(GetRx(0), Become(states[|actions|], 0, Submit, held + [block]).(pool := pool[..|pool| - 1]));
      pool := pool[..|pool| - 1];
    }

    method QueueTransaction(tx: nat, rx: nat, ghost held: seq<nat>)
      requires Valid(Submit, held + [tx] + [rx]) && |flights| < SPI_QUEUE_SIZE
      modifies this`flights, this`states, this`actions
      ensures flights == old(flights) + [Flight(tx, rx)]
      ensures Valid(if held == [] then Idle else FreeTx, held) && old(states) <= states
    {
      ghost var s, all := states[|actions|], held + [tx] + [rx];
      assert all[..|all| - 2] == held && all[|all| - 2] == tx && all[|all| - 1] == rx;
      Step(SpiEngine.Queue(0), Become(s, 0, if held == [] then Idle else FreeTx, held).(
        flights := flights + [Flight(tx, rx)], submitted := s.submitted + 1));
      flights := flights + [Flight(tx, rx)];
    }

    method GetTransResult() returns (done: Flight)
      requires Valid(Idle, []) && flights != []
      modifies this`flights, this`states, this`actions
      ensures done == old(flights)[0] && flights == old(flights)[1..]
      ensures Valid(NeedTx, [done.tx, done.rx]) && old(states) <= states
    {
      done := flights[0];
      ghost var s := states[|actions|];
      Step(Complete(0), Become(s, 0, NeedTx, [done.tx, done.rx]).(
        flights := flights[1..], completed := s.completed + 1));
      flights := flights[1..];
    }

    method FreeTxBlock(tx: nat, ghost rx: nat)
      requires Valid(FreeTx, [tx, rx])
      modifies this`pool, this`states, this`actions
      ensures pool == old(pool) + [tx]
      ensures Valid(HandRx, [rx]) && old(states) <= states
    {
      Step(FreeOldTx(0), Become(states[|actions|], 0, HandRx, [rx]).(pool := pool + [tx]));
      pool := pool + [tx];
    }

    method FreeRxBlock(rx: nat)
      requires Valid(HandRx, [rx])
      modifies this`pool, this`states, this`actions
      ensures pool == old(pool) + [rx]
      ensures Valid(Idle, []) && old(states) <= states
    {
      Step(DropRx(0), Become(states[|actions|], 0, Idle, []).(pool := pool + [rx]));
      pool := pool + [rx];
    }

    method HandOn(rx: nat, k: nat)
      requires Valid(HandRx, [rx]) && k < QUEUES && |rxQueue[k]| < rxSize
      modifies this`rxQueue, this`rxSem, this`states, this`actions
      ensures rxQueue == old(rxQueue)[k := old(rxQueue)[k] + [rx]] && rxSem == old(rxSem) + 1
      ensures Valid(Idle, []) && old(states) <= states
    {
      Step(QueueRx(0, k), Become(states[|actions|], 0, Idle, []).(rxq := Add(rxQueue, k, rx)));
      rxQueue := Add(rxQueue, k, rx);
      rxSem := rxSem + 1;
    }

    // ---------- the tasks ----------

    /** get_next_tx_buffer: the oldest frame of the highest priority if a token says there is
        one, else a dummy, else nothing. */
    method GetNextTxBuffer(ghost held: seq<nat>) returns (buf: Option<nat>)
      requires Valid(NeedTx, held)
      modifies this`pool, this`txSem, this`txQueue, this`states, this`actions
      ensures old(states) <= states
      ensures old(txSem) > 0 ==>
        && buf != None && Taken(old(txQueue), buf.value, txQueue)
        && txSem == old(txSem) - 1 && pool == old(pool)
      ensures old(txSem) == 0 ==> txQueue == old(txQueue) && txSem == 0
      ensures old(txSem) == 0 && old(pool) != [] ==> buf != None && old(pool) == pool + [buf.value]
      ensures buf == None <==> old(txSem) == 0 && old(pool) == []
      ensures buf != None ==> Valid(NeedRx, held + [buf.value])
      ensures buf == None ==> pool == [] && Valid(if held == [] then Idle else FreeTx, held)
    {
      if txSem > 0 {
        txSem := txSem - 1;
        var k := First(txQueue);
        if k < QUEUES {
          ghost var before := txQueue;
          var block := ReceiveTx(k, held);
          assert TakenFrom(before, k, block, txQueue);
          return Some(block);
        }
      }
      if pool == [] {
        GiveUp(held);
        return None;
      }
      var block := AllocDummy(held);
      return Some(block);
    }

    /** The newest transaction has the blocks it should have: on its transmit side the next frame, or
        without one a dummy from the pool, and on its receive side a block of the pool; rest is
        what the pool keeps. */
    ghost predicate Successor(pool0: seq<nat>, txQueue0: seq<seq<nat>>, txSem0: nat, rest: seq<nat>)
      reads this`flights, this`txQueue, this`txSem
    {
      && flights != []
      && var last := flights[|flights| - 1];
        if txSem0 > 0 then
          Taken(txQueue0, last.tx, txQueue) && txSem == txSem0 - 1 && pool0 == rest + [last.rx]
        else txQueue == txQueue0 && txSem == 0 && pool0 == rest + [last.rx, last.tx]
    }

    /** queue_next_transaction: a transaction with the next frame or a dummy on its transmit
        side and a block of the pool on its receive side. Without a block for the receive side
        the code stops at its assert. */
    method QueueNextTransaction(ghost held: seq<nat>) returns (outcome: Outcome)
      requires Valid(NeedTx, held) && |flights| < SPI_QUEUE_SIZE
      modifies this`pool, this`txSem, this`txQueue, this`flights, this`states, this`actions
      ensures old(states) <= states
      ensures outcome == NoTxBuffer <==> old(txSem) == 0 && old(pool) == []
      ensures outcome == Aborted <==> |old(pool)| == if old(txSem) == 0 then 1 else 0
      ensures outcome == Queued ==>
        Successor(old(pool), old(txQueue), old(txSem), pool) && flights[..|flights| - 1] == old(flights)
      ensures outcome == NoTxBuffer ==> flights == old(flights) && txQueue == old(txQueue) && txSem == 0 && pool == []
      ensures outcome != Aborted ==> Valid(if held == [] then Idle else FreeTx, held)
    {
      var buf := GetNextTxBuffer(held);
      if buf == None { return NoTxBuffer; }
      if pool == [] { return Aborted; }
      var rx := AllocRx(held + [buf.value]);
      QueueTransaction(buf.value, rx, held);
      return Queued;
    }

    /** The blocks of a done transaction that go back to the pool. */
    function Freed(done: Flight, verdict: Verdict): seq<nat> {
      if verdict.Keep? then [done.tx] else [done.tx, done.rx]
    }

    /** The rest of a round of spi_transaction_post_process_task: the transmit block is freed, the
        receive block handed on or freed. */
    method Settle(done: Flight, verdict: Verdict)
      requires Valid(FreeTx, [done.tx, done.rx])
      requires verdict.Keep? ==> verdict.k < QUEUES && |rxQueue[verdict.k]| < rxSize
      modifies this`pool, this`rxQueue, this`rxSem, this`states, this`actions
      ensures Valid(Idle, []) && old(states) <= states && pool == old(pool) + Freed(done, verdict)
      ensures rxQueue == (if verdict.Keep? then old(rxQueue)[verdict.k := old(rxQueue)[verdict.k] + [done.rx]]
                          else old(rxQueue))
      ensures rxSem == old(rxSem) + if verdict.Keep? then 1 else 0
    {
      FreeTxBlock(done.tx, done.rx);
      if verdict.Keep? {
        HandOn(done.rx, verdict.k);
      } else {
        FreeRxBlock(done.rx);
      }
    }

    /** One round of spi_transaction_post_process_task: the oldest transaction is done, its
        successor is queued first, then its transmit block is freed and its receive block
        handed on or freed. */
    method PostProcess(verdict: Verdict) returns (outcome: Outcome)
      requires Valid(Idle, []) && flights != [] && |flights| <= SPI_QUEUE_SIZE
      requires verdict.Keep? ==> verdict.k < QUEUES && |rxQueue[verdict.k]| < rxSize
      modifies this
      ensures old(states) <= states
      ensures outcome == NoTxBuffer <==> old(txSem) == 0 && old(pool) == []
      ensures outcome == Aborted <==> |old(pool)| == if old(txSem) == 0 then 1 else 0
      ensures outcome != Aborted ==>
        var done := old(flights)[0];
        && Valid(Idle, [])
        && rxQueue == (if verdict.Keep? then old(rxQueue)[verdict.k := old(rxQueue)[verdict.k] + [done.rx]]
                       else old(rxQueue))
        && rxSem == old(rxSem) + if verdict.Keep? then 1 else 0
      ensures outcome == NoTxBuffer ==>
        && flights == old(flights)[1..] && txQueue == old(txQueue) && txSem == 0
        && pool == Freed(old(flights)[0], verdict)
      ensures outcome == Queued ==>
        && flights != [] && flights[..|flights| - 1] == old(flights)[1..]
        && var freed := Freed(old(flights)[0], verdict);
          && |freed| <= |pool| && pool[|pool| - |freed|..] == freed
          && Successor(old(pool), old(txQueue), old(txSem), pool[..|pool| - |freed|])
    {
      var done := GetTransResult();
      outcome := QueueNextTransaction([done.tx, done.rx]);
      if outcome == Aborted { return; }
      ghost var rest := pool;
      Settle(done, verdict);
      assert pool[..|rest|] == rest;
    }

    /** esp_spi_write: payloadLen bytes of payload, none if hasPayload is false. A block is filled,
        queued and announced, unless the bus is inactive, there is no payload, or the frame, padded
        to a multiple of four, exceeds the block; room in the queue is waited for. */
    method Write(active: bool, hasPayload: bool, payloadLen: nat, ifType: nat) returns (w: Written)
      requires Valid(Idle, []) && |txQueue[QueueOf(ifType)]| < txSize
      modifies this`pool, this`txSem, this`txQueue, this`states, this`actions
      ensures Valid(Idle, []) && old(states) <= states
      ensures w == Refused <==> !active || !hasPayload || payloadLen == 0 || payloadLen > SPI_BUFFER_SIZE - Frame.HEADER_SIZE
      ensures w == NoBlock <==> w != Refused && old(pool) == []
      ensures if w.Sent? then
          && w.len == payloadLen && txSem == old(txSem) + 1
          && var k, block := QueueOf(ifType), old(pool[|pool| - 1]);
            old(pool) == pool + [block] && txQueue == old(txQueue)[k := old(txQueue)[k] + [block]]
        else unchanged(this)
    {
      if !active { return Refused; }
      if payloadLen == 0 || !hasPayload { return Refused; }
      var totalLen := payloadLen + Frame.HEADER_SIZE;
      if totalLen % 4 != 0 { totalLen := totalLen + 4 - totalLen % 4; }
      if totalLen > SPI_BUFFER_SIZE { return Refused; }
      if pool == [] { return NoBlock; }
      var block := AllocTx();
      SendTx(QueueOf(ifType), block);
      txSem := txSem + 1;
      w := Sent(payloadLen);
    }

    method AllocTx() returns (block: nat)
      requires Valid(Idle, []) && pool != []
      modifies this`pool, this`states, this`actions
      ensures old(pool) == pool + [block]
      ensures Valid(Writing, [block]) && old(states) <= states
    {
      block := pool[|pool| - 1];
      Step(AllocWrite(0), Become(states[|actions|], 0, Writing, [block]).(pool := pool[..|pool| - 1]));
      pool := pool[..|pool| - 1];
    }

    method SendTx(k: nat, block: nat)
      requires Valid(Writing, [block]) && k < QUEUES && |txQueue[k]| < txSize
      modifies this`txQueue, this`states, this`actions
      ensures txQueue == old(txQueue)[k := old(txQueue)[k] + [block]] && Total(txQueue) == Total(old(txQueue)) + 1
      ensures Valid(Idle, []) && old(states) <= states
    {
      Step(QueueTx(0, k), Become(states[|actions|], 0, Idle, []).(txq := Add(txQueue, k, block)));
      txQueue := Add(txQueue, k, block);
    }

    /** The end of generate_startup_event: the event is queued and announced, then the first
        transaction is set up. It never lacks a frame, so only a missing receive block stops it. */
    method StartupEvent() returns (outcome: Outcome)
      requires Valid(Idle, []) && pool != []
      requires |txQueue[PRIO_Q_OTHERS]| < txSize && |flights| < SPI_QUEUE_SIZE
      modifies this`pool, this`txSem, this`txQueue, this`flights, this`states, this`actions
      ensures old(states) <= states
      ensures outcome == if |old(pool)| == 1 then Aborted else Queued
      ensures outcome == Queued ==>
        && Valid(Idle, []) && txSem == old(txSem)
        && |flights| > 0 && flights[..|flights| - 1] == old(flights)
        && var last, event := flights[|flights| - 1], old(pool[|pool| - 1]);
          && old(pool) == pool + [last.rx, event]
          && Taken(old(txQueue)[PRIO_Q_OTHERS := old(txQueue)[PRIO_Q_OTHERS] + [event]], last.tx, txQueue)
    {
      var block := AllocTx();
      SendStartup(block);
      txSem := txSem + 1;
      outcome := QueueNextTransaction([]);
    }

    method SendStartup(block: nat)
      requires Valid(Writing, [block]) && |txQueue[PRIO_Q_OTHERS]| < txSize
      modifies this`txQueue, this`states, this`actions
      ensures txQueue == old(txQueue)[PRIO_Q_OTHERS := old(txQueue)[PRIO_Q_OTHERS] + [block]] && Total(txQueue) == Total(old(txQueue)) + 1
      ensures Valid(NeedTx, []) && old(states) <= states
    {
      ghost var s := states[|actions|];
      Step(QueueStartup(0), Become(s, 0, NeedTx, []).(
        txq := Add(txQueue, PRIO_Q_OTHERS, block), startups := s.startups + 1));
      txQueue := Add(txQueue, PRIO_Q_OTHERS, block);
    }

    /** esp_spi_read: the token is taken before the bus state is looked at, so a read while the
        bus is inactive uses up a token and leaves the frame queued. */
    method Read(active: bool) returns (buf: Option<nat>)
      requires Valid(Idle, []) && rxSem > 0
      modifies this`rxSem, this`rxQueue, this`states, this`actions
      ensures old(states) <= states && rxSem == old(rxSem) - 1
      ensures !active ==> buf == None && rxQueue == old(rxQueue) && Valid(Idle, [])
      ensures active ==>
        && buf != None && Taken(old(rxQueue), buf.value, rxQueue) && Valid(Reading, [buf.value])
    {
      rxSem := rxSem - 1;
      if !active { return None; }
      var k := First(rxQueue);
      buf := Some(rxQueue[k][0]);
      Step(ReadRx(0, k), Become(states[|actions|], 0, Reading, [rxQueue[k][0]]).(rxq := Rest(rxQueue, k)));
      rxQueue := Rest(rxQueue, k);
      assert TakenFrom(old(rxQueue), k, buf.value, rxQueue);
    }

    /** esp_spi_read_done. */
    method FreeRead(block: nat)
      requires Valid(Reading, [block])
      modifies this`pool, this`states, this`actions
      ensures Valid(Idle, []) && old(states) <= states && pool == old(pool) + [block]
    {
      Step(ReadDone(0), Become(states[|actions|], 0, Idle, []).(pool := pool + [block]));
      pool := pool + [block];
    }
  }
}
