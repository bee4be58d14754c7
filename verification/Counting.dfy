/** How often a block occurs in a list: blocks are counted, place by place, to show that
    each is in exactly one of them. */
module Counting {
  /** How often b is among the first n of a list. */
  function OccUpTo(q: seq<nat>, b: nat, n: nat): nat
    requires n <= |q|
  {
    if n == 0 then 0 else OccUpTo(q, b, n - 1) + if q[n - 1] == b then 1 else 0
  }

  function Occ(q: seq<nat>, b: nat): nat { OccUpTo(q, b, |q|) }

  lemma {:induction false} OccSame(p: seq<nat>, q: seq<nat>, b: nat, n: nat)
    requires n <= |p| && n <= |q| && forall i :: 0 <= i < n ==> p[i] == q[i]
    ensures OccUpTo(p, b, n) == OccUpTo(q, b, n)
  {
    if n > 0 { OccSame(p, q, b, n - 1); }
  }

  lemma OccAdd(q: seq<nat>, x: nat, b: nat)
    ensures Occ(q + [x], b) == Occ(q, b) + if x == b then 1 else 0
  {
    OccSame(q + [x], q, b, |q|);
  }

  lemma OccLast(q: seq<nat>, b: nat)
    requires q != []
    ensures Occ(q, b) == Occ(q[..|q| - 1], b) + if q[|q| - 1] == b then 1 else 0
  {
    OccSame(q[..|q| - 1], q, b, |q| - 1);
  }

  lemma {:induction false} OccRest(q: seq<nat>, rest: seq<nat>, b: nat, n: nat)
    requires 0 < n <= |q| && rest == q[1..]
    ensures OccUpTo(q, b, n) == OccUpTo(rest, b, n - 1) + if q[0] == b then 1 else 0
  {
    if n > 1 {
      OccRest(q, rest, b, n - 1);
      assert rest[n - 2] == q[n - 1];
    } else {
      assert OccUpTo(q, b, 0) == 0;
    }
  }

  lemma OccOne(q: seq<nat>, b: nat)
    requires |q| == 1
    ensures Occ(q, b) == if q[0] == b then 1 else 0
  {
    OccAdd([], q[0], b);
    assert q == [] + [q[0]] && Occ([], b) == 0;
  }

  lemma OccTwo(q: seq<nat>, b: nat)
    requires |q| == 2
    ensures Occ(q, b) == (if q[0] == b then 1 else 0) + if q[1] == b then 1 else 0
  {
    OccOne(q[..1], b);
    OccAdd(q[..1], q[1], b);
    assert q == q[..1] + [q[1]];
  }

  /** A task of a transport engine: where it stands and the blocks it holds. */
  datatype Task<S> = Task(stage: S, held: seq<nat>)

  /** How often the first n tasks hold b. */
  function InHands<S>(tasks: seq<Task<S>>, b: nat, n: nat): nat
    requires n <= |tasks|
  {
    if n == 0 then 0 else InHands(tasks, b, n - 1) + Occ(tasks[n - 1].held, b)
  }

  lemma {:induction false} InHandsMove<S>(tasks: seq<Task<S>>, t: nat, task: Task<S>, b: nat, n: nat)
    requires t < |tasks| && n <= |tasks|
    ensures InHands(tasks[t := task], b, n) + (if t < n then Occ(tasks[t].held, b) else 0)
      == InHands(tasks, b, n) + (if t < n then Occ(task.held, b) else 0)
  {
    if n > 0 { InHandsMove(tasks, t, task, b, n - 1); }
  }

  lemma {:induction false} EmptyHands<S>(tasks: seq<Task<S>>, b: nat, n: nat)
    requires n <= |tasks| && forall t :: 0 <= t < n ==> tasks[t].held == []
    ensures InHands(tasks, b, n) == 0
  {
    if n > 0 {
      EmptyHands(tasks, b, n - 1);
      assert tasks[n - 1].held == [] && Occ([], b) == 0;
    }
  }
}
