/** Receive throttling of the SDIO slave: sdio_rx_task may ask the host to stop sending before
    it queues a frame, the reader may ask it to resume after taking one. */
module SdioThrottle {
  import opened Bits
  import opened Traces

  datatype HostInt = StartThrottle | StopThrottle

  /** Thresholds in percent (a byte each, set by the host) and the capacity of the queue. */
  datatype Config = Config(high: nat, low: nat, capacity: nat)

  /** The uint8_t load_percent. */
  function LoadPercent(c: Config, queue: nat): nat
    requires c.capacity > 0
  {
    (queue * 100 / c.capacity) % 256
  }

  /** When the host is to be stopped, and when it is to resume, without any rounding. */
  predicate Starts(c: Config, throttling: bool, queue: nat) {
    c.high > 0 && !throttling && 100 * queue >= (c.high + 1) * c.capacity
  }

  predicate Stops(c: Config, throttling: bool, queue: nat) {
    throttling && 100 * queue < c.low * c.capacity
  }

  /** The truncated percentage decides both comparisons exactly. */
  lemma PercentDecides(c: Config, queue: nat, threshold: nat)
    requires queue <= c.capacity && c.capacity > 0
    ensures LoadPercent(c, queue) <= 100
    ensures LoadPercent(c, queue) >= threshold <==> 100 * queue >= threshold * c.capacity
  {
    var p := queue * 100 / c.capacity;
    assert c.capacity * p <= queue * 100 < c.capacity * p + c.capacity;
    if p > 100 {
      MulMono(101, p, c.capacity);
      assert false;
    }
    if p >= threshold {
      MulMono(threshold, p, c.capacity);
    } else {
      MulMono(p + 1, threshold, c.capacity);
    }
  }

  // ---------- the two tasks interleaved ----------

  /** Both checks run in their own task: look at the load and decide, change the flag, raise
      the interrupt. The other task may run between any two of these. */
  datatype Pc = Away | Decided | FlagSet

  datatype State = State(
    arrived: nat, departed: nat, throttling: bool, start: Pc, stop: Pc, sent: seq<HostInt>)
  {
    function Queue(): int { arrived - departed }
  }

  datatype Action =
    Enqueue | Dequeue | DecideStart | SetStart | SendStart | DecideStop | SetStop | SendStop

  ghost predicate Next(c: Config, s: State, a: Action, s': State) {
    && 0 <= s.Queue() <= c.capacity
    && match a
       case Enqueue => s.Queue() < c.capacity && s' == s.(arrived := s.arrived + 1)
       case Dequeue => s.Queue() > 0 && s' == s.(departed := s.departed + 1)
       case DecideStart =>
         s.start == Away && Starts(c, s.throttling, s.Queue()) && s' == s.(start := Decided)
       case SetStart => s.start == Decided && s' == s.(start := FlagSet, throttling := true)
       case SendStart => s.start == FlagSet && s' == s.(start := Away, sent := s.sent + [StartThrottle])
       case DecideStop =>
         s.stop == Away && Stops(c, s.throttling, s.Queue()) && s' == s.(stop := Decided)
       case SetStop => s.stop == Decided && s' == s.(stop := FlagSet, throttling := false)
       case SendStop => s.stop == FlagSet && s' == s.(stop := Away, sent := s.sent + [StopThrottle])
  }

  ghost predicate Init(s: State) {
    s == State(0, 0, false, Away, Away, [])
  }

  ghost function Steps(c: Config): (State, Action, State) -> bool { (s, a, s') => Next(c, s, a, s') }

  ghost predicate IsRun(c: Config, states: seq<State>, actions: seq<Action>) {
    IsTrace(Steps(c), states, actions) && Init(states[0])
  }

  function Expected(k: nat): HostInt { if k % 2 == 0 then StartThrottle else StopThrottle }

  ghost predicate Alternating(sent: seq<HostInt>) {
    forall k :: 0 <= k < |sent| ==> sent[k] == Expected(k)
  }

  /** An interrupt overtakes the older one that the other task has yet to raise. */
  predicate Overtakes(s: State, a: Action) {
    || (a == SendStop && s.start == FlagSet && !s.throttling)
    || (a == SendStart && s.stop == FlagSet && s.throttling)
  }

  ghost predicate Orderly(states: seq<State>, actions: seq<Action>, n: nat)
    requires n <= |actions| <= |states|
  {
    forall i :: 0 <= i < n ==> !Overtakes(states[i], actions[i])
  }

  /** Interrupts still owed to the host. */
  function Owed(s: State): nat {
    (if s.start == FlagSet then 1 else 0) + if s.stop == FlagSet then 1 else 0
  }

  ghost predicate Inv(s: State) {
    && Alternating(s.sent)
    && (s.throttling <==> (|s.sent| + Owed(s)) % 2 == 1)
    && (s.start == Decided ==> !s.throttling)
    && (s.stop == Decided ==> s.throttling)
    && (s.start == FlagSet && s.stop != FlagSet ==> s.throttling)
    && (s.stop == FlagSet && s.start != FlagSet ==> !s.throttling)
  }

  lemma StepInv(c: Config, s: State, a: Action, s': State)
    requires Next(c, s, a, s') && Inv(s)
    ensures !Overtakes(s, a) ==> Inv(s')
    ensures Overtakes(s, a) ==> !Alternating(s'.sent)
  {
    if a == SendStart || a == SendStop {
      assert s'.sent[|s.sent|] == if a == SendStart then StartThrottle else StopThrottle;
    }
  }

  lemma {:induction false} RunInv(c: Config, states: seq<State>, actions: seq<Action>, n: nat)
    requires IsRun(c, states, actions) && n <= |actions| && Orderly(states, actions, n)
    ensures Inv(states[n])
  {
    if n > 0 {
      RunInv(c, states, actions, n - 1);
      StepOf(Steps(c), states, actions, n - 1);
      StepInv(c, states[n - 1], actions[n - 1], states[n - 1 + 1]);
    }
  }

  lemma {:induction false} SentGrows(c: Config, states: seq<State>, actions: seq<Action>, i: nat, j: nat)
    requires IsRun(c, states, actions) && i <= j < |states|
    ensures states[i].sent <= states[j].sent
  {
    if i < j {
      SentGrows(c, states, actions, i, j - 1);
      StepOf(Steps(c), states, actions, j - 1);
    }
  }

  /** The host sees START, STOP, START, ... exactly as long as no interrupt overtakes another. */
  lemma {:induction false} AlternatesExactly(c: Config, states: seq<State>, actions: seq<Action>, n: nat)
    requires IsRun(c, states, actions) && n <= |actions|
    ensures Alternating(states[n].sent) <==> Orderly(states, actions, n)
  {
    if Orderly(states, actions, n) {
      RunInv(c, states, actions, n);
    } else {
      AlternatesExactly(c, states, actions, n - 1);
      if Orderly(states, actions, n - 1) {
        RunInv(c, states, actions, n - 1);
        StepOf(Steps(c), states, actions, n - 1);
        StepInv(c, states[n - 1], actions[n - 1], states[n - 1 + 1]);
      } else {
        SentGrows(c, states, actions, n - 1, n);
        assert !Alternating(states[n - 1].sent);
      }
    }
  }

  /** In an orderly run current_throttling tells which interrupt came last, whenever none is owed. */
  lemma FlagTellsLast(c: Config, states: seq<State>, actions: seq<Action>, n: nat)
    requires IsRun(c, states, actions) && n <= |actions| && Orderly(states, actions, n)
    requires Owed(states[n]) == 0
    ensures var s := states[n];
      s.throttling <==> s.sent != [] && s.sent[|s.sent| - 1] == StartThrottle
  {
    RunInv(c, states, actions, n);
    var s := states[n];
    if s.sent != [] { assert s.sent[|s.sent| - 1] == Expected(|s.sent| - 1); }
  }

  /** Checks that run undisturbed are orderly: the other task decides nothing while a flag
      change waits for its interrupt. */
  ghost predicate Undisturbed(states: seq<State>, actions: seq<Action>)
    requires |actions| <= |states|
  {
    forall i :: 0 <= i < |actions| ==>
      (actions[i] == DecideStart ==> states[i].stop == Away) && (actions[i] == DecideStop ==> states[i].start == Away)
  }

  lemma UndisturbedStep(c: Config, s: State, a: Action, s': State)
    requires Next(c, s, a, s') && (s.start == Away || s.stop == Away)
    requires (a == DecideStart ==> s.stop == Away) && (a == DecideStop ==> s.start == Away)
    ensures (s'.start == Away || s'.stop == Away) && !Overtakes(s, a)
  {
  }

  lemma {:induction false} UndisturbedIsOrderly(c: Config, states: seq<State>, actions: seq<Action>, n: nat)
    requires IsRun(c, states, actions) && n <= |actions| && Undisturbed(states, actions)
    ensures states[n].start == Away || states[n].stop == Away
    ensures Orderly(states, actions, n)
  {
    if n > 0 {
      UndisturbedIsOrderly(c, states, actions, n - 1);
      StepOf(Steps(c), states, actions, n - 1);
      UndisturbedStep(c, states[n - 1], actions[n - 1], states[n]);
    }
  }

  lemma {:induction false} Balance(c: Config, states: seq<State>, actions: seq<Action>, i: nat, j: nat)
    requires IsRun(c, states, actions) && i <= j < |states|
    ensures states[i].arrived <= states[j].arrived && states[i].departed <= states[j].departed
  {
    if i < j {
      Balance(c, states, actions, i, j - 1);
      StepOf(Steps(c), states, actions, j - 1);
    }
  }

  /** Hysteresis: between the decision to stop the host and any later decision to resume, more
      than (high + 1 - low) percent of the queue leave it; between a decision to resume and a
      later one to stop, more than that arrive. Any interleaving, any thresholds. */
  lemma Hysteresis(c: Config, states: seq<State>, actions: seq<Action>, i: nat, j: nat)
    requires IsRun(c, states, actions) && i < |actions| && j < |actions|
    requires actions[i] == DecideStart && actions[j] == DecideStop
    ensures i < j ==> 100 * (states[j].departed - states[i].departed) > (c.high + 1 - c.low) * c.capacity
    ensures j < i ==> 100 * (states[i].arrived - states[j].arrived) > (c.high + 1 - c.low) * c.capacity
  {
    StepOf(Steps(c), states, actions, i);
    StepOf(Steps(c), states, actions, j);
    if i < j { Balance(c, states, actions, i, j); } else { Balance(c, states, actions, j, i); }
    assert (c.high + 1 - c.low) * c.capacity == (c.high + 1) * c.capacity - c.low * c.capacity;
  }

  /** The queue never holds more than its capacity. */
  lemma {:induction false} QueueBounded(c: Config, states: seq<State>, actions: seq<Action>, n: nat)
    requires IsRun(c, states, actions) && n <= |actions|
    ensures 0 <= states[n].Queue() <= c.capacity
  {
    if n > 0 {
      QueueBounded(c, states, actions, n - 1);
      StepOf(Steps(c), states, actions, n - 1);
    }
  }

  /** With a high threshold of 0 the host is never stopped. */
  lemma {:induction false} ZeroDisables(c: Config, states: seq<State>, actions: seq<Action>, n: nat)
    requires IsRun(c, states, actions) && n <= |actions| && c.high == 0
    ensures states[n].start == Away && states[n].stop == Away && !states[n].throttling && states[n].sent == []
  {
    if n > 0 {
      ZeroDisables(c, states, actions, n - 1);
      StepOf(Steps(c), states, actions, n - 1);
    }
  }

  /** On a queue of 100 places the thresholds are numbers of frames: the host is stopped above the
      high one and resumes below the low one. */
  lemma ThresholdsAreFrames(c: Config, queue: nat)
    requires c.capacity == 100 && queue <= 100
    ensures Starts(c, false, queue) <==> c.high > 0 && queue > c.high
    ensures Stops(c, true, queue) <==> queue < c.low
    ensures !Starts(c, true, queue) && !Stops(c, false, queue)
  {
  }

  lemma Extended(c: Config, s: State, a: Action, s': State)
    requires Reachable(c, s) && Next(c, s, a, s')
    ensures Reachable(c, s')
  {
    var states, actions :| IsRun(c, states, actions) && states[|actions|] == s;
    Longer(Steps(c), states, actions, a, s');
    var states', actions' := states + [s'], actions + [a];
    assert IsRun(c, states', actions') && states'[|actions'|] == s';
  }

  ghost predicate Reachable(c: Config, s: State) {
    exists states: seq<State>, actions: seq<Action> :: IsRun(c, states, actions) && states[|actions|] == s
  }

  lemma FullQueueReached(c: Config)
    requires c == Config(50, 20, 2)
    ensures Reachable(c, State(2, 0, true, FlagSet, Away, []))
  {
    var s := State(0, 0, false, Away, Away, []);
    assert IsRun(c, [s], []);
    assert Reachable(c, s);
    Extended(c, s, Enqueue, s.(arrived := 1));
    Extended(c, s.(arrived := 1), Enqueue, s.(arrived := 2));
    var full := State(2, 0, false, Decided, Away, []);
    Extended(c, s.(arrived := 2), DecideStart, full);
    Extended(c, full, SetStart, full.(start := FlagSet, throttling := true));
  }

  lemma EmptyQueueReached(c: Config)
    requires c == Config(50, 20, 2)
    ensures Reachable(c, State(2, 2, true, FlagSet, Away, []))
  {
    FullQueueReached(c);
    var s := State(2, 0, true, FlagSet, Away, []);
    Extended(c, s, Dequeue, s.(departed := 1));
    Extended(c, s.(departed := 1), Dequeue, s.(departed := 2));
  }

  lemma DrainedQueueReached(c: Config)
    requires c == Config(50, 20, 2)
    ensures Reachable(c, State(2, 2, false, FlagSet, FlagSet, []))
  {
    EmptyQueueReached(c);
    var s := State(2, 2, true, FlagSet, Away, []);
    Extended(c, s, DecideStop, s.(stop := Decided));
    Extended(c, s.(stop := Decided), SetStop, s.(stop := FlagSet, throttling := false));
  }

  /** A run on a queue of two, thresholds 50 and 20: the queue fills and sdio_rx_task changes
      the flag, the queue drains, the reader changes it back and raises STOP before START was
      raised. The host is left stopped although current_throttling is clear and the reader
      will not raise STOP again. */
  lemma OvertakenRun()
    ensures Reachable(Config(50, 20, 2), State(2, 2, false, Away, Away, [StopThrottle, StartThrottle]))
  {
    var c := Config(50, 20, 2);
    DrainedQueueReached(c);
    var s := State(2, 2, false, FlagSet, FlagSet, []);
    var stopped := State(2, 2, false, FlagSet, Away, [StopThrottle]);
    Extended(c, s, SendStop, stopped);
    Extended(c, stopped, SendStart, State(2, 2, false, Away, Away, [StopThrottle, StartThrottle]));
  }

  // ---------- the code of one task ----------

  /** Each check as its code runs when nothing interferes: every method is a sequence of the
      steps above. */
  class Throttle {
    const config: Config
    var queued: nat
    var currentThrottling: bool
    var sent: seq<HostInt>
    ghost var states: seq<State>
    ghost var actions: seq<Action>

    /** The fields are those of the last state of a run; start and stop are the places of the
        two tasks. */
    ghost predicate Traced(start: Pc, stop: Pc)
      reads this
    {
      && config.capacity > 0 && queued <= config.capacity
      && IsRun(config, states, actions) && Undisturbed(states, actions)
      && var s := states[|actions|];
        s.Queue() == queued && s == State(s.arrived, s.departed, currentThrottling, start, stop, sent)
    }

    ghost predicate Valid()
      reads this
    {
      Traced(Away, Away)
    }

    constructor (config: Config)
      requires config.capacity > 0
      ensures Valid() && this.config == config && queued == 0 && !currentThrottling && sent == []
    {
      this.config := config;
      queued, currentThrottling, sent := 0, false, [];
      states, actions := [State(0, 0, false, Away, Away, [])], [];
    }

    ghost method Step(a: Action, s': State)
      requires IsRun(config, states, actions) && Next(config, states[|actions|], a, s')
      requires Undisturbed(states, actions)
      requires a == DecideStart ==> states[|actions|].stop == Away
      requires a == DecideStop ==> states[|actions|].start == Away
      modifies this`states, this`actions
      ensures IsRun(config, states, actions) && Undisturbed(states, actions)
      ensures states == old(states) + [s'] && actions == old(actions) + [a]
    {
      Longer(Steps(config), states, actions, a, s');
      states, actions := states + [s'], actions + [a];
    }

    /** start_rx_data_throttling_if_needed. */
    method StartIfNeeded()
      requires Valid()
      modifies this`currentThrottling, this`sent, this`states, this`actions
      ensures Valid() && old(states) <= states
      ensures var starts := old(Starts(config, currentThrottling, queued));
        && currentThrottling == (old(currentThrottling) || starts)
        && sent == old(sent) + if starts then [StartThrottle] else []
    {
      if config.high > 0 {
        if currentThrottling { return; }
        var queueLoad := queued;
        PercentDecides(config, queueLoad, config.high + 1);
        var loadPercent := LoadPercent(config, queueLoad);
        if loadPercent > config.high {
          ghost var s1 := states[|actions|].(start := Decided);
          Step(DecideStart, s1);
          currentThrottling := true;
          ghost var s2 := s1.(start := FlagSet, throttling := true);
          Step(SetStart, s2);
          sent := sent + [StartThrottle];
          Step(SendStart, s2.(start := Away, sent := sent));
        }
      }
    }

    /** stop_rx_data_throttling_if_needed. */
    method StopIfNeeded()
      requires Valid()
      modifies this`currentThrottling, this`sent, this`states, this`actions
      ensures Valid() && old(states) <= states
      ensures var stops := old(Stops(config, currentThrottling, queued));
        && currentThrottling == (old(currentThrottling) && !stops)
        && sent == old(sent) + if stops then [StopThrottle] else []
    {
      if currentThrottling {
        var queueLoad := queued;
        PercentDecides(config, queueLoad, config.low);
        var loadPercent := LoadPercent(config, queueLoad);
        if loadPercent < config.low {
          ghost var s1 := states[|actions|].(stop := Decided);
          Step(DecideStop, s1);
          currentThrottling := false;
          ghost var s2 := s1.(stop := FlagSet, throttling := false);
          Step(SetStop, s2);
          sent := sent + [StopThrottle];
          Step(SendStop, s2.(stop := Away, sent := sent));
        }
      }
    }

    /** sdio_rx_task queues a frame of the OTHERS priority. */
    method QueueFrame()
      requires Valid() && queued < config.capacity
      modifies this`queued, this`states, this`actions
      ensures Valid() && old(states) <= states && queued == old(queued) + 1
    {
      ghost var s := states[|actions|];
      Step(Enqueue, s.(arrived := s.arrived + 1));
      queued := queued + 1;
    }

    /** sdio_read takes one. */
    method TakeFrame()
      requires Valid() && queued > 0
      modifies this`queued, this`states, this`actions
      ensures Valid() && old(states) <= states && queued == old(queued) - 1
    {
      ghost var s := states[|actions|];
      Step(Dequeue, s.(departed := s.departed + 1));
      queued := queued - 1;
    }

    /** Between the methods the interrupts raised alternate, and the last one is what
        current_throttling says. */
    lemma HostKnows()
      requires Valid()
      ensures Alternating(sent)
      ensures currentThrottling <==> sent != [] && sent[|sent| - 1] == StartThrottle
    {
      UndisturbedIsOrderly(config, states, actions, |actions|);
      AlternatesExactly(config, states, actions, |actions|);
      FlagTellsLast(config, states, actions, |actions|);
    }
  }
}
