/** Flow control of the half-duplex SPI slave. The receive task and the reader decide to stop or
    resume the host and wake flow_ctrl_task, which sends the command. Each step is one read,
    write or call; the three tasks interleave in any way. */
module SpiHdFlow {
  import SdioThrottle
  import opened Traces

  /** A trigger task: nothing decided, decided, current_throttling written, wifi_flow_ctrl
      written and the semaphore still to be given. */
  datatype Trigger = Away | Decided | Throttled | Written

  /** flow_ctrl_task: not yet created its semaphore, waiting on it, woken, about to send. */
  datatype Sender = Unborn | Waiting | Woken | Sending(on: bool)

  /** gives: triggers that reached the semaphore. sent: commands handed to the send queue, true
      for H_FLOW_CTRL_ON. */
  datatype State = State(
    throttling: bool, ctrl: bool, full: bool, start: Trigger, stop: Trigger, sender: Sender,
    sent: seq<bool>, gives: nat)

  /** The boolean says which trigger task moves: true for start, false for stop. The load that
      makes a task decide is left open. */
  datatype Action =
    Decide(on: bool) | Throttle(on: bool) | Write(on: bool) | Give(on: bool) | Create | Take | Read | Send

  function Pc(s: State, on: bool): Trigger { if on then s.start else s.stop }

  function WithPc(s: State, on: bool, pc: Trigger): State {
    if on then s.(start := pc) else s.(stop := pc)
  }

  ghost predicate Next(s: State, a: Action, s': State) {
    match a
    case Decide(on) => Pc(s, on) == Away && s.throttling == !on && s' == WithPc(s, on, Decided)
    case Throttle(on) => Pc(s, on) == Decided && s' == WithPc(s, on, Throttled).(throttling := on)
    case Write(on) =>
      Pc(s, on) == Throttled && s' == WithPc(s, on, Written).(ctrl := on)
    case Give(on) =>
      && Pc(s, on) == Written
      && s' == if s.sender == Unborn then WithPc(s, on, Away)
               else WithPc(s, on, Away).(full := true, gives := s.gives + 1)
    case Create => s.sender == Unborn && s' == s.(sender := Waiting, full := false)
    case Take => s.sender == Waiting && s.full && s' == s.(sender := Woken, full := false)
    case Read => s.sender == Woken && s' == s.(sender := Sending(s.ctrl))
    case Send => s.sender.Sending? && s' == s.(sender := Waiting, sent := s.sent + [s.sender.on])
  }

  ghost predicate Init(s: State) {
    s == State(false, false, false, Away, Away, Unborn, [], 0)
  }

  ghost function Steps(): (State, Action, State) -> bool { (s, a, s') => Next(s, a, s') }

  ghost predicate IsRun(states: seq<State>, actions: seq<Action>) {
    IsTrace(Steps(), states, actions) && Init(states[0])
  }

  /** The command the host acts on; without any it sends freely. */
  function LastCommand(sent: seq<bool>): bool { sent != [] && sent[|sent| - 1] }

  /** No trigger is half done, the semaphore is empty and the task waits on it. */
  predicate AtRest(s: State) {
    s.start == Away && s.stop == Away && !s.full && s.sender == Waiting
  }

  /** A read of wifi_flow_ctrl is still to come. */
  predicate ReadAhead(s: State) {
    s.full || s.start == Written || s.stop == Written || s.sender == Woken
  }

  function Delivered(s: State): bool {
    if s.sender.Sending? then s.sender.on else LastCommand(s.sent)
  }

  function Busy(s: State): nat {
    (if s.full then 1 else 0) + if s.sender == Woken || s.sender.Sending? then 1 else 0
  }

  ghost predicate Inv(s: State) {
    && (s.gives > 0 && !ReadAhead(s) ==> Delivered(s) == s.ctrl)
    && (s.sender == Unborn ==> s.gives == 0)
    && |s.sent| + Busy(s) <= s.gives
  }

  lemma StepInv(s: State, a: Action, s': State)
    requires Next(s, a, s') && Inv(s)
    ensures Inv(s')
  {
  }

  lemma {:induction false} RunInv(states: seq<State>, actions: seq<Action>, i: nat)
    requires IsRun(states, actions) && i < |states|
    ensures Inv(states[i])
  {
    if i > 0 {
      RunInv(states, actions, i - 1);
      StepOf(Steps(), states, actions, i - 1);
      StepInv(states[i - 1], actions[i - 1], states[i - 1 + 1]);
    }
  }

  /** Whenever everything is at rest, the last command tells wifi_flow_ctrl, however many
      changes were merged on the way. The one exception: the flag was set, and every trigger so
      far came before the task had created its semaphore. */
  lemma DeliversLatest(states: seq<State>, actions: seq<Action>, i: nat)
    requires IsRun(states, actions) && i < |states| && AtRest(states[i])
    ensures LastCommand(states[i].sent) == states[i].ctrl <==> (states[i].gives > 0 || !states[i].ctrl)
    ensures |states[i].sent| <= states[i].gives
  {
    RunInv(states, actions, i);
  }

  // ---------- wifi_flow_ctrl and current_throttling ----------

  /** Write k is overtaken: between the task's own change of current_throttling and the write,
      the other task changed it back. */
  ghost predicate Overtaken(actions: seq<Action>, k: nat)
    requires k < |actions| && actions[k].Write?
  {
    var on := actions[k].on;
    exists j :: 0 <= j < k && actions[j] == Throttle(!on) && NoneBetween(actions, j, k, Throttle(on))
  }

  ghost predicate NoneBetween(actions: seq<Action>, j: int, k: nat, a: Action)
    requires k <= |actions|
  {
    forall m :: j < m < k && 0 <= m ==> actions[m] != a
  }

  /** The last change of current_throttling before step n made it what it is; -1 if none did. */
  lemma {:induction false} LastThrottle(states: seq<State>, actions: seq<Action>, n: nat) returns (j: int)
    requires IsRun(states, actions) && n <= |actions|
    ensures -1 <= j < n && NoneBetween(actions, j, n, Throttle(true)) && NoneBetween(actions, j, n, Throttle(false))
    ensures if j < 0 then !states[n].throttling else actions[j] == Throttle(states[n].throttling)
  {
    if n == 0 {
      j := -1;
    } else {
      StepOf(Steps(), states, actions, n - 1);
      if actions[n - 1].Throttle? {
        j := n - 1;
      } else {
        j := LastThrottle(states, actions, n - 1);
      }
    }
  }

  /** A task about to write has changed current_throttling before. */
  lemma {:induction false} OwnThrottle(states: seq<State>, actions: seq<Action>, n: nat, on: bool) returns (i: nat)
    requires IsRun(states, actions) && n <= |actions| && Pc(states[n], on) == Throttled
    ensures i < n && actions[i] == Throttle(on)
  {
    StepOf(Steps(), states, actions, n - 1);
    if actions[n - 1] == Throttle(on) {
      i := n - 1;
    } else {
      i := OwnThrottle(states, actions, n - 1, on);
    }
  }

  lemma {:induction false} OvertakenMeans(states: seq<State>, actions: seq<Action>, k: nat)
    requires IsRun(states, actions) && k < |actions| && actions[k].Write?
    ensures Overtaken(actions, k) <==> states[k].throttling != actions[k].on
  {
    var on := actions[k].on;
    StepOf(Steps(), states, actions, k);
    var i := OwnThrottle(states, actions, k, on);
    var j := LastThrottle(states, actions, k);
    if states[k].throttling == on {
      forall m | 0 <= m < k && actions[m] == Throttle(!on)
        ensures !NoneBetween(actions, m, k, Throttle(on))
      {
        assert m < j;
      }
    }
  }

  /** From write k on there is no other one, and at the end nothing is half done: then
      current_throttling did not change either. */
  lemma {:induction false} UnchangedSince(states: seq<State>, actions: seq<Action>, k: nat, n: nat)
    requires IsRun(states, actions) && k < n <= |actions| && actions[k].Write?
    requires forall m :: k < m < n ==> !actions[m].Write?
    ensures states[n].ctrl == actions[k].on
    ensures states[n].start != Throttled && states[n].stop != Throttled ==>
      states[n].throttling == states[k].throttling
    ensures states[n].throttling == states[k].throttling || states[n].start == Throttled || states[n].stop == Throttled
  {
    StepOf(Steps(), states, actions, n - 1);
    if k < n - 1 { UnchangedSince(states, actions, k, n - 1); }
  }

  lemma {:induction false} AgreeBeforeWrites(states: seq<State>, actions: seq<Action>, n: nat)
    requires IsRun(states, actions) && n <= |actions| && LastWrite(actions, n) < 0
    ensures !states[n].ctrl
    ensures states[n].throttling ==> states[n].start == Throttled || states[n].stop == Throttled
  {
    if n > 0 {
      AgreeBeforeWrites(states, actions, n - 1);
      StepOf(Steps(), states, actions, n - 1);
    }
  }

  /** The last write of wifi_flow_ctrl before step n; -1 if there was none. */
  function LastWrite(actions: seq<Action>, n: nat): (k: int)
    requires n <= |actions|
    ensures -1 <= k < n && (k >= 0 ==> actions[k].Write?) && forall m :: k < m < n ==> !actions[m].Write?
  {
    if n == 0 then -1 else if actions[n - 1].Write? then n - 1 else LastWrite(actions, n - 1)
  }

  /** At rest wifi_flow_ctrl agrees with current_throttling if and only if the last write of it
      was not overtaken; before the first write they agree. */
  lemma {:induction false} CtrlFollowsThrottling(states: seq<State>, actions: seq<Action>, n: nat)
    requires IsRun(states, actions) && n <= |actions| && AtRest(states[n])
    ensures var k := LastWrite(actions, n);
      states[n].ctrl == states[n].throttling <==> k < 0 || !Overtaken(actions, k)
  {
    var k := LastWrite(actions, n);
    if k < 0 {
      AgreeBeforeWrites(states, actions, n);
    } else {
      UnchangedSince(states, actions, k, n);
      OvertakenMeans(states, actions, k);
    }
  }

  predicate Undecided(pc: Trigger) { pc == Away || pc == Written }

  /** Neither task decides while the other is between its decision and its write. */
  ghost predicate Serial(states: seq<State>, actions: seq<Action>)
    requires |actions| <= |states|
  {
    forall i :: 0 <= i < |actions| && actions[i].Decide? ==> Undecided(Pc(states[i], !actions[i].on))
  }

  /** At most one task is between its decision and its write, and what it changed stands. */
  predicate InTurn(s: State) {
    && (Undecided(s.start) || Undecided(s.stop))
    && (s.start == Throttled ==> s.throttling) && (s.stop == Throttled ==> !s.throttling)
  }

  lemma InTurnStep(s: State, a: Action, s': State)
    requires Next(s, a, s') && InTurn(s) && (a.Decide? ==> Undecided(Pc(s, !a.on)))
    ensures InTurn(s')
  {
  }

  lemma {:induction false} SerialTurns(states: seq<State>, actions: seq<Action>, n: nat)
    requires IsRun(states, actions) && n <= |actions| && Serial(states, actions)
    ensures InTurn(states[n])
  {
    if n > 0 {
      SerialTurns(states, actions, n - 1);
      StepOf(Steps(), states, actions, n - 1);
      InTurnStep(states[n - 1], actions[n - 1], states[n]);
    }
  }

  /** If the tasks decide one after the other, no write is ever overtaken. */
  lemma SerialNeverOvertaken(states: seq<State>, actions: seq<Action>, k: nat)
    requires IsRun(states, actions) && Serial(states, actions) && k < |actions| && actions[k].Write?
    ensures !Overtaken(actions, k)
  {
    StepOf(Steps(), states, actions, k);
    SerialTurns(states, actions, k);
    OvertakenMeans(states, actions, k);
  }

  // ---------- the two exceptions occur ----------

  ghost predicate Reachable(s: State) {
    exists states: seq<State>, actions: seq<Action> :: IsRun(states, actions) && states[|actions|] == s
  }

  lemma Extended(s: State, a: Action, s': State)
    requires Reachable(s) && Next(s, a, s')
    ensures Reachable(s')
  {
    var states, actions :| IsRun(states, actions) && states[|actions|] == s;
    Longer(Steps(), states, actions, a, s');
    var states', actions' := states + [s'], actions + [a];
    assert IsRun(states', actions') && states'[|actions'|] == s';
  }

  lemma Start()
    ensures Reachable(State(false, false, false, Away, Away, Unborn, [], 0))
  {
    assert IsRun([State(false, false, false, Away, Away, Unborn, [], 0)], []);
  }

  /** A trigger before the semaphore exists is lost: the host is never told to stop. */
  lemma EarlyTriggerLost()
    ensures Reachable(State(true, true, false, Away, Away, Waiting, [], 0))
  {
    Start();
    var s := State(false, false, false, Away, Away, Unborn, [], 0);
    Extended(s, Decide(true), s.(start := Decided));
    Extended(s.(start := Decided), Throttle(true), s.(start := Throttled, throttling := true));
    var t := State(true, true, false, Written, Away, Unborn, [], 0);
    Extended(s.(start := Throttled, throttling := true), Write(true), t);
    Extended(t, Give(true), t.(start := Away));
    Extended(t.(start := Away), Create, t.(start := Away, sender := Waiting));
  }

  /** The receive task decides to stop the host; before it writes wifi_flow_ctrl the reader
      decides to resume, writes it and is done. The late write then leaves the host stopped
      although current_throttling is clear, so no further stop check will resume it. */
  lemma LateWriteSticks()
    ensures Reachable(State(false, true, false, Away, Away, Waiting, [true], 2))
  {
    Start();
    var s := State(false, false, false, Away, Away, Unborn, [], 0);
    Extended(s, Create, s.(sender := Waiting));
    var t := s.(sender := Waiting);
    Extended(t, Decide(true), t.(start := Decided));
    Extended(t.(start := Decided), Throttle(true), t.(start := Throttled, throttling := true));
    ResumeOvertakes(t);
    var u := t.(start := Throttled, full := true, gives := 1);
    Extended(u, Write(true), u.(start := Written, ctrl := true));
    var v := State(false, true, true, Away, Away, Waiting, [], 2);
    Extended(u.(start := Written, ctrl := true), Give(true), v);
    Extended(v, Take, v.(full := false, sender := Woken));
    Extended(v.(full := false, sender := Woken), Read, v.(full := false, sender := Sending(true)));
    Extended(v.(full := false, sender := Sending(true)), Send, v.(full := false, sent := [true]));
  }

  lemma ResumeOvertakes(t: State)
    requires t == State(false, false, false, Away, Away, Waiting, [], 0)
    requires Reachable(t.(start := Throttled, throttling := true))
    ensures Reachable(t.(start := Throttled, full := true, gives := 1))
  {
    var a := t.(start := Throttled, throttling := true);
    Extended(a, Decide(false), a.(stop := Decided));
    Extended(a.(stop := Decided), Throttle(false), a.(stop := Throttled, throttling := false));
    Extended(a.(stop := Throttled, throttling := false), Write(false), a.(stop := Written, throttling := false));
    Extended(a.(stop := Written, throttling := false), Give(false), t.(start := Throttled, full := true, gives := 1));
  }

  // ---------- the code of one task ----------

  /** The flow control as its code runs when nothing interferes: every method is a sequence of
      the steps above. The load of the OTHERS queue is judged as in SdioThrottle. */
  class FlowCtrl {
    const config: SdioThrottle.Config
    var currentThrottling: bool
    var wifiFlowCtrl: bool
    var created: bool
    var full: bool
    var sent: seq<bool>
    ghost var states: seq<State>
    ghost var actions: seq<Action>

    /** The fields are those of the last state of a run in which no trigger is half done. */
    ghost predicate Traced(start: Trigger, stop: Trigger, sender: Sender)
      reads this
    {
      && IsRun(states, actions)
      && states[|actions|]
         == State(currentThrottling, wifiFlowCtrl, full, start, stop, sender, sent, states[|actions|].gives)
    }

    ghost predicate Valid()
      reads this
    {
      && config.capacity > 0
      && Traced(Away, Away, if created then Waiting else Unborn)
      && wifiFlowCtrl == currentThrottling && (full ==> created)
    }

    constructor (config: SdioThrottle.Config)
      requires config.capacity > 0
      ensures Valid() && this.config == config && !currentThrottling && !created && sent == []
    {
      this.config := config;
      currentThrottling, wifiFlowCtrl, created, full, sent := false, false, false, false, [];
      states, actions := [State(false, false, false, Away, Away, Unborn, [], 0)], [];
    }

    ghost method Step(a: Action, s': State)
      requires IsRun(states, actions) && Next(states[|actions|], a, s')
      modifies this`states, this`actions
      ensures IsRun(states, actions) && states == old(states) + [s'] && actions == old(actions) + [a]
    {
      Longer(Steps(), states, actions, a, s');
      states, actions := states + [s'], actions + [a];
    }

    /** A decision carried out: current_throttling, wifi_flow_ctrl, then TRIGGER_FLOW_CTRL. */
    method Trigger(on: bool)
      requires Valid() && currentThrottling == !on
      modifies this`currentThrottling, this`wifiFlowCtrl, this`full, this`states, this`actions
      ensures Valid() && old(states) <= states
      ensures currentThrottling == on && full == (old(full) || created)
    {
      SetFlags(on);
      if created { full := true; }
      ghost var s := states[|actions|];
      Step(Give(on), if s.sender == Unborn then WithPc(s, on, Away)
                     else WithPc(s, on, Away).(full := true, gives := s.gives + 1));
    }

    method SetFlags(on: bool)
      requires Valid() && currentThrottling == !on
      modifies this`currentThrottling, this`wifiFlowCtrl, this`states, this`actions
      ensures Traced(if on then Written else Away, if on then Away else Written, if created then Waiting else Unborn)
      ensures old(states) <= states && currentThrottling == wifiFlowCtrl == on
    {
      ghost var s1 := WithPc(states[|actions|], on, Decided);
      Step(Decide(on), s1);
      currentThrottling := on;
      ghost var s2 := WithPc(s1, on, Throttled).(throttling := on);
      Step(Throttle(on), s2);
      wifiFlowCtrl := on;
      Step(Write(on), WithPc(s2, on, Written).(ctrl := on));
    }

    method StartIfNeeded(queueLoad: nat)
      requires Valid() && queueLoad <= config.capacity
      modifies this`currentThrottling, this`wifiFlowCtrl, this`full, this`states, this`actions
      ensures Valid() && old(states) <= states
      ensures var starts := old(SdioThrottle.Starts(config, currentThrottling, queueLoad));
        && currentThrottling == (old(currentThrottling) || starts)
        && full == (old(full) || (starts && created))
    {
      if config.high > 0 {
        if currentThrottling { return; }
        SdioThrottle.PercentDecides(config, queueLoad, config.high + 1);
        var loadPercent := SdioThrottle.LoadPercent(config, queueLoad);
        if loadPercent > config.high {
          Trigger(true);
        }
      }
    }

    method StopIfNeeded(queueLoad: nat)
      requires Valid() && queueLoad <= config.capacity
      modifies this`currentThrottling, this`wifiFlowCtrl, this`full, this`states, this`actions
      ensures Valid() && old(states) <= states
      ensures var stops := old(SdioThrottle.Stops(config, currentThrottling, queueLoad));
        && currentThrottling == (old(currentThrottling) && !stops)
        && full == (old(full) || (stops && created))
    {
      if currentThrottling {
        SdioThrottle.PercentDecides(config, queueLoad, config.low);
        var loadPercent := SdioThrottle.LoadPercent(config, queueLoad);
        if loadPercent < config.low {
          Trigger(false);
        }
      }
    }

    /** One round of flow_ctrl_task: take the semaphore, send what the flag says now. */
    method SendCommand()
      requires Valid() && full
      modifies this`full, this`sent, this`states, this`actions
      ensures Valid() && old(states) <= states
      ensures !full && sent == old(sent) + [currentThrottling]
    {
      ghost var s := states[|actions|];
      ghost var s1 := s.(sender := Woken, full := false);
      Step(Action.Take, s1);
      full := false;
      var on := if wifiFlowCtrl then true else false;
      ghost var s2 := s1.(sender := Sending(on));
      Step(Action.Read, s2);
      Step(Action.Send, s2.(sender := Waiting, sent := sent + [on]));
      sent := sent + [on];
    }

    /** The start of flow_ctrl_task. */
    method CreateSemaphore()
      requires Valid() && !created
      modifies this`created, this`full, this`states, this`actions
      ensures Valid() && old(states) <= states && created && !full
    {
      Step(Action.Create, states[|actions|].(sender := Waiting, full := false));
      created, full := true, false;
    }

    /** When the semaphore is empty, the last command is what current_throttling says, unless
        no trigger came since the semaphore exists and throttling was on before. */
    lemma HostKnows()
      requires Valid() && created && !full
      ensures LastCommand(sent) == currentThrottling <==> states[|actions|].gives > 0 || !currentThrottling
    {
      DeliversLatest(states, actions, |actions|);
    }
  }
}
