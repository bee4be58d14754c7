/** Finite histories of a transition system, kept by the classes that take its steps. */
module Traces {

  ghost predicate StepAt<S(!new), A(!new)>(next: (S, A, S) -> bool, states: seq<S>, actions: seq<A>, i: nat)
    requires |states| == |actions| + 1 && i < |actions|
  {
    next(states[i], actions[i], states[i + 1])
  }

  ghost predicate IsTrace<S(!new), A(!new)>(next: (S, A, S) -> bool, states: seq<S>, actions: seq<A>) {
    |states| == |actions| + 1 && forall i :: 0 <= i < |actions| ==> StepAt(next, states, actions, i)
  }

  /** A step more. */
  lemma Longer<S(!new), A(!new)>(next: (S, A, S) -> bool, states: seq<S>, actions: seq<A>, a: A, s': S)
    requires IsTrace(next, states, actions) && next(states[|actions|], a, s')
    ensures IsTrace(next, states + [s'], actions + [a])
  {
    forall i | 0 <= i < |actions| + 1
      ensures StepAt(next, states + [s'], actions + [a], i)
    {
      if i < |actions| { assert StepAt(next, states, actions, i); }
    }
  }

  /** Step i of a trace. */
  lemma StepOf<S(!new), A(!new)>(next: (S, A, S) -> bool, states: seq<S>, actions: seq<A>, i: nat)
    requires IsTrace(next, states, actions) && i < |actions|
    ensures next(states[i], actions[i], states[i + 1])
  {
    assert StepAt(next, states, actions, i);
  }
}
