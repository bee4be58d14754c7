/** Transmit credits of the SDIO sender. The counting semaphore sdio_send_queue_sem stands for
    the free places of the driver's send queue. Any number of tasks run sdio_write, the startup
    event and the transmit-done loop in any interleaving; each step below is one allocator,
    semaphore or driver call. The outcome of a driver call is left open. */
module SdioCredits {
  import opened Counting
  import opened Traces

  /** What a task is about to do.
      Credit: take a credit. Send: hand the buffer to the driver. Refund: give the credit back,
      then free (a failed write, or a finished frame). Free: free the buffer. startup: the task
      runs generate_startup_event instead of sdio_write. */
  datatype Stage = Idle | Credit(startup: bool) | Send(startup: bool) | Refund | Free

  /** Buffers are numbered by the order of their allocation; taken of them so far. */
  datatype State = State(
    credits: nat, driver: seq<nat>, freed: seq<nat>, tasks: seq<Task<Stage>>, taken: nat, failedStartups: nat)

  datatype Action =
    | Alloc(t: nat, startup: bool)
    | TakeCredit(t: nat)
    | TakeFails(t: nat)
    | SendOk(t: nat)
    | SendError(t: nat)
    | Finished(t: nat)
    | GiveCredit(t: nat)
    | FreeBuffer(t: nat)

  function Become(s: State, t: nat, task: Task<Stage>): State
    requires t < |s.tasks|
  {
    s.(tasks := s.tasks[t := task])
  }

  /** A semaphore with maximum q: giving a full one changes nothing. */
  function Given(q: nat, credits: nat): nat { if credits < q then credits + 1 else credits }

  ghost predicate Next(q: nat, s: State, a: Action, s': State) {
    && a.t < |s.tasks|
    && var t, task := a.t, s.tasks[a.t];
      match a
      case Alloc(_, startup) =>
        && task.stage == Idle
        && s' == Become(s, t, Task(Credit(startup), [s.taken])).(taken := s.taken + 1)
      case TakeCredit(_) =>
        && task.stage.Credit? && s.credits > 0
        && s' == Become(s, t, task.(stage := Send(task.stage.startup))).(credits := s.credits - 1)
      case TakeFails(_) =>
        && task.stage == Credit(false)
        && s' == Become(s, t, task.(stage := Free))
      case SendOk(_) =>
        && task.stage.Send? && |task.held| == 1
        && s' == Become(s, t, Task(Idle, [])).(driver := s.driver + [task.held[0]])
      case SendError(_) =>
        && task.stage.Send?
        && s' == Become(s, t, task.(stage := if task.stage.startup then Free else Refund)).(
          failedStartups := s.failedStartups + if task.stage.startup then 1 else 0)
      case Finished(_) =>
        && task.stage == Idle && s.driver != []
        && s' == Become(s, t, Task(Refund, [s.driver[0]])).(driver := s.driver[1..])
      case GiveCredit(_) =>
        && task.stage == Refund
        && s' == Become(s, t, task.(stage := Free)).(credits := Given(q, s.credits))
      case FreeBuffer(_) =>
        && task.stage == Free && |task.held| == 1
        && s' == Become(s, t, Task(Idle, [])).(freed := s.freed + [task.held[0]])
  }

  // ---------- credits ----------

  predicate HasCredit(task: Task<Stage>) { task.stage.Send? || task.stage == Refund }

  /** Credits held by the first n tasks. */
  function CreditsHeld(tasks: seq<Task<Stage>>, n: nat): nat
    requires n <= |tasks|
  {
    if n == 0 then 0 else CreditsHeld(tasks, n - 1) + if HasCredit(tasks[n - 1]) then 1 else 0
  }

  lemma {:induction false} CreditsHeldMove(tasks: seq<Task<Stage>>, t: nat, task: Task<Stage>, n: nat)
    requires t < |tasks| && n <= |tasks|
    ensures CreditsHeld(tasks[t := task], n) + (if t < n && HasCredit(tasks[t]) then 1 else 0)
      == CreditsHeld(tasks, n) + (if t < n && HasCredit(task) then 1 else 0)
  {
    if n > 0 { CreditsHeldMove(tasks, t, task, n - 1); }
  }

  /** Free credits, frames in the driver and credits held by tasks add up to the size of the
      driver's queue, less the credits lost by failed startup events. */
  ghost predicate Conserved(q: nat, s: State) {
    s.credits + |s.driver| + CreditsHeld(s.tasks, |s.tasks|) + s.failedStartups == q
  }

  lemma StepConserves(q: nat, s: State, a: Action, s': State)
    requires Next(q, s, a, s') && Conserved(q, s)
    ensures Conserved(q, s')
    ensures a.GiveCredit? ==> s.credits < q
  {
    CreditsHeldMove(s.tasks, a.t, s'.tasks[a.t], |s.tasks|);
    assert s'.tasks == s.tasks[a.t := s'.tasks[a.t]];
    if a.GiveCredit? {
      HolderCounts(s.tasks, a.t, |s.tasks|);
    }
  }

  lemma {:induction false} HolderCounts(tasks: seq<Task<Stage>>, t: nat, n: nat)
    requires t < n <= |tasks| && HasCredit(tasks[t])
    ensures CreditsHeld(tasks, n) >= 1
  {
    if t < n - 1 { HolderCounts(tasks, t, n - 1); }
  }

  // ---------- buffers ----------

  /** How often buffer b is in the driver, in the hands of a task, or was freed. */
  function Places(s: State, b: nat): nat {
    Occ(s.driver, b) + InHands(s.tasks, b, |s.tasks|) + Occ(s.freed, b)
  }

  /** An idle task holds nothing, any other exactly one buffer. */
  ghost predicate Tidy(s: State) {
    forall t :: 0 <= t < |s.tasks| ==> |s.tasks[t].held| == if s.tasks[t].stage == Idle then 0 else 1
  }

  /** A step moves each buffer from place to place; only Alloc brings a new one in. */
  lemma {:induction false} StepPlaces(q: nat, s: State, a: Action, s': State, b: nat)
    requires Next(q, s, a, s') && Tidy(s)
    ensures Tidy(s')
    ensures Places(s', b) == Places(s, b) + if a.Alloc? && b == s.taken then 1 else 0
  {
    var held, held' := s.tasks[a.t].held, s'.tasks[a.t].held;
    InHandsMove(s.tasks, a.t, s'.tasks[a.t], b, |s.tasks|);
    assert s'.tasks == s.tasks[a.t := s'.tasks[a.t]];
    if |held| == 1 { OccOne(held, b); } else { assert Occ(held, b) == 0; }
    if |held'| == 1 { OccOne(held', b); } else { assert Occ(held', b) == 0; }
    if a.SendOk? {
      OccAdd(s.driver, held[0], b);
    } else if a.FreeBuffer? {
      OccAdd(s.freed, held[0], b);
    } else if a.Finished? {
      OccRest(s.driver, s.driver[1..], b, |s.driver|);
    }
  }

  // ---------- runs ----------

  ghost predicate Init(q: nat, s: State) {
    && s.credits == q && s.driver == [] && s.freed == [] && s.taken == 0 && s.failedStartups == 0
    && forall t :: 0 <= t < |s.tasks| ==> s.tasks[t] == Task(Idle, [])
  }

  ghost function Steps(q: nat): (State, Action, State) -> bool { (s, a, s') => Next(q, s, a, s') }

  ghost predicate IsRun(q: nat, states: seq<State>, actions: seq<Action>) {
    IsTrace(Steps(q), states, actions) && Init(q, states[0])
  }

  lemma {:induction false} AllIdle(tasks: seq<Task<Stage>>, n: nat)
    requires n <= |tasks| && forall t :: 0 <= t < |tasks| ==> tasks[t].stage == Idle
    ensures CreditsHeld(tasks, n) == 0
  {
    if n > 0 { AllIdle(tasks, n - 1); }
  }

  /** In every reachable state: credits are conserved, so the driver never gets more frames than
      its queue holds and the semaphore never passes its maximum. */
  lemma {:induction false} CreditsConserved(q: nat, states: seq<State>, actions: seq<Action>, i: nat)
    requires IsRun(q, states, actions) && i < |states|
    ensures var s := states[i];
      s.credits + |s.driver| + CreditsHeld(s.tasks, |s.tasks|) + s.failedStartups == q
    ensures i < |actions| && actions[i].GiveCredit? ==> states[i].credits < q
  {
    if i == 0 {
      AllIdle(states[0].tasks, |states[0].tasks|);
    } else {
      CreditsConserved(q, states, actions, i - 1);
      StepOf(Steps(q), states, actions, i - 1);
      StepConserves(q, states[i - 1], actions[i - 1], states[i - 1 + 1]);
    }
    if i < |actions| {
      StepOf(Steps(q), states, actions, i);
      StepConserves(q, states[i], actions[i], states[i + 1]);
    }
  }

  /** Every buffer allocated so far is in exactly one place and was freed at most once; a
      buffer not yet allocated is nowhere. */
  lemma {:induction false} FreedOnceOrInFlight(q: nat, states: seq<State>, actions: seq<Action>, i: nat, b: nat)
    requires IsRun(q, states, actions) && i < |states|
    ensures Tidy(states[i])
    ensures Places(states[i], b) == if b < states[i].taken then 1 else 0
  {
    if i == 0 {
      EmptyHands(states[0].tasks, b, |states[0].tasks|);
    } else {
      FreedOnceOrInFlight(q, states, actions, i - 1, b);
      StepOf(Steps(q), states, actions, i - 1);
      StepPlaces(q, states[i - 1], actions[i - 1], states[i - 1 + 1], b);
    }
  }

  /** Once every task is idle and the driver is empty, all credits but the lost ones are back
      and every buffer was freed exactly once. */
  lemma Drained(q: nat, states: seq<State>, actions: seq<Action>, i: nat, b: nat)
    requires IsRun(q, states, actions) && i < |states|
    requires states[i].driver == []
    requires forall t :: 0 <= t < |states[i].tasks| ==> states[i].tasks[t].stage == Idle
    ensures states[i].credits == q - states[i].failedStartups
    ensures Occ(states[i].freed, b) == if b < states[i].taken then 1 else 0
  {
    CreditsConserved(q, states, actions, i);
    FreedOnceOrInFlight(q, states, actions, i, b);
    AllIdle(states[i].tasks, |states[i].tasks|);
    EmptyHands(states[i].tasks, b, |states[i].tasks|);
  }

  /** A startup event that fails to send keeps its credit. After q of them no frame can be
      sent any more: no task has or can take a credit, now or later. */
  lemma {:induction false} StartupFailuresStarve(
    q: nat, states: seq<State>, actions: seq<Action>, i: nat, j: nat)
    requires IsRun(q, states, actions) && i <= j < |actions| && states[i].failedStartups == q
    ensures states[j].failedStartups == q && states[j].credits == 0 && states[j].driver == []
    ensures !actions[j].TakeCredit? && !actions[j].SendOk? && !actions[j].Finished?
  {
    if i < j {
      StartupFailuresStarve(q, states, actions, i, j - 1);
      StepOf(Steps(q), states, actions, j - 1);
    }
    var s := states[j];
    StepOf(Steps(q), states, actions, j);
    CreditsConserved(q, states, actions, j);
    if actions[j].SendOk? { HolderCounts(s.tasks, actions[j].t, |s.tasks|); }
  }

  // ---------- the code of one task ----------

  /** The sender as its code runs when nothing interferes: every method is a sequence of the
      steps above. */
  class Sender {
    const q: nat
    var credits: nat
    var driver: seq<nat>
    var freed: seq<nat>
    var taken: nat
    var lost: nat
    ghost var states: seq<State>
    ghost var actions: seq<Action>

    /** The fields are those of the last state of a run with one task, which is at `task`. */
    ghost predicate Valid(task: Task<Stage>)
      reads this
    {
      && IsRun(q, states, actions)
      && states[|actions|] == State(credits, driver, freed, [task], taken, lost)
    }

    constructor (q: nat)
      ensures Valid(Task(Idle, [])) && credits == this.q == q && driver == [] && freed == [] && taken == 0 && lost == 0
    {
      this.q, credits, driver, freed, taken, lost := q, q, [], [], 0, 0;
      states, actions := [State(q, [], [], [Task(Idle, [])], 0, 0)], [];
    }

    /** Between the methods every credit is free, with a frame in the driver, or lost, and every
        buffer is in the driver or was freed, once. */
    lemma Accounts(b: nat)
      requires Valid(Task(Idle, []))
      ensures credits + |driver| + lost == q
      ensures Occ(driver, b) + Occ(freed, b) == if b < taken then 1 else 0
    {
      CreditsConserved(q, states, actions, |actions|);
      FreedOnceOrInFlight(q, states, actions, |actions|, b);
      var tasks := states[|actions|].tasks;
      AllIdle(tasks, 1);
      EmptyHands(tasks, b, 1);
    }

    ghost method Step(a: Action, s': State)
      requires IsRun(q, states, actions) && Next(q, states[|actions|], a, s')
      modifies this`states, this`actions
      ensures IsRun(q, states, actions) && states == old(states) + [s'] && actions == old(actions) + [a]
    {
      Longer(Steps(q), states, actions, a, s');
      states, actions := states + [s'], actions + [a];
    }

    /** sdio_write from the allocation of the buffer on; driverOk is what the driver answers.
        It waits for a credit, so one is free when it goes on. */
    method Write(driverOk: bool) returns (ok: bool)
      requires Valid(Task(Idle, [])) && credits > 0
      modifies this
      ensures Valid(Task(Idle, [])) && old(states) <= states
      ensures ok == driverOk && taken == old(taken) + 1 && lost == old(lost)
      ensures ok ==> credits == old(credits) - 1 && driver == old(driver) + [old(taken)] && freed == old(freed)
      ensures !ok ==> credits == old(credits) && driver == old(driver) && freed == old(freed) + [old(taken)]
    {
      var sendbuf := AllocBuffer(false);
      Credited(sendbuf, false);
      if !driverOk {
        Step(SendError(0), Become(states[|actions|], 0, Task(Refund, [sendbuf])));
        GiveBack(sendbuf);
        FreeSendBuffer(sendbuf);
        return false;
      }
      Accept(sendbuf, false);
      return true;
    }

    /** generate_startup_event: on an error the credit is not given back. */
    method StartupEvent(driverOk: bool)
      requires Valid(Task(Idle, [])) && credits > 0
      modifies this
      ensures Valid(Task(Idle, [])) && old(states) <= states
      ensures taken == old(taken) + 1 && credits == old(credits) - 1
      ensures driverOk ==> driver == old(driver) + [old(taken)] && freed == old(freed) && lost == old(lost)
      ensures !driverOk ==> driver == old(driver) && freed == old(freed) + [old(taken)] && lost == old(lost) + 1
    {
      var sendbuf := AllocBuffer(true);
      Credited(sendbuf, true);
      if driverOk {
        Accept(sendbuf, true);
      } else {
        Step(SendError(0), Become(states[|actions|], 0, Task(Stage.Free, [sendbuf])).(failedStartups := lost + 1));
        lost := lost + 1;
        FreeSendBuffer(sendbuf);
      }
    }

    /** One round of sdio_tx_done_task. */
    method TxDone()
      requires Valid(Task(Idle, [])) && driver != []
      modifies this
      ensures Valid(Task(Idle, [])) && old(states) <= states
      ensures credits == old(credits) + 1 && driver == old(driver)[1..]
      ensures freed == old(freed) + [old(driver)[0]] && taken == old(taken) && lost == old(lost)
    {
      var sendbuf := driver[0];
      Step(Finished(0), Become(states[|actions|], 0, Task(Refund, [sendbuf])).(driver := driver[1..]));
      driver := driver[1..];
      GiveBack(sendbuf);
      FreeSendBuffer(sendbuf);
    }

    // ---------- single calls ----------

    method AllocBuffer(startup: bool) returns (sendbuf: nat)
      requires Valid(Task(Idle, []))
      modifies this`taken, this`states, this`actions
      ensures Valid(Task(Credit(startup), [sendbuf])) && old(states) <= states
      ensures sendbuf == old(taken) && taken == old(taken) + 1
    {
      sendbuf := taken;
      Step(Alloc(0, startup), Become(states[|actions|], 0, Task(Credit(startup), [sendbuf])).(taken := taken + 1));
      taken := taken + 1;
    }

    method Credited(sendbuf: nat, ghost startup: bool)
      requires Valid(Task(Credit(startup), [sendbuf])) && credits > 0
      modifies this`credits, this`states, this`actions
      ensures Valid(Task(Send(startup), [sendbuf])) && old(states) <= states && credits == old(credits) - 1
    {
      Step(TakeCredit(0), Become(states[|actions|], 0, Task(Send(startup), [sendbuf])).(credits := credits - 1));
      credits := credits - 1;
    }

    method Accept(sendbuf: nat, ghost startup: bool)
      requires Valid(Task(Send(startup), [sendbuf]))
      modifies this`driver, this`states, this`actions
      ensures Valid(Task(Idle, [])) && old(states) <= states && driver == old(driver) + [sendbuf]
    {
      Step(SendOk(0), Become(states[|actions|], 0, Task(Idle, [])).(driver := driver + [sendbuf]));
      driver := driver + [sendbuf];
    }

    method GiveBack(sendbuf: nat)
      requires Valid(Task(Refund, [sendbuf]))
      modifies this`credits, this`states, this`actions
      ensures Valid(Task(Stage.Free, [sendbuf])) && old(states) <= states && credits == old(credits) + 1
    {
      CreditsConserved(q, states, actions, |actions|);
      HolderCounts(states[|actions|].tasks, 0, 1);
      Step(GiveCredit(0), Become(states[|actions|], 0, Task(Stage.Free, [sendbuf])).(credits := Given(q, credits)));
      credits := Given(q, credits);
    }

    method FreeSendBuffer(sendbuf: nat)
      requires Valid(Task(Stage.Free, [sendbuf]))
      modifies this`freed, this`states, this`actions
      ensures Valid(Task(Idle, [])) && old(states) <= states && freed == old(freed) + [sendbuf]
    {
      Step(FreeBuffer(0), Become(states[|actions|], 0, Task(Idle, [])).(freed := freed + [sendbuf]));
      freed := freed + [sendbuf];
    }
  }
}
