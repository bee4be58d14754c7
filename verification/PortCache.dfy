/** The one-entry cache in front of the scan of listening ports (is_local_tcp_port_open,
    is_local_udp_port_open). A hit moves the time of the entry forward. */
module PortCache {

  const U64: nat := 0x1_0000_0000_0000_0000
  const WINDOW: nat := 1000

  /** Milliseconds, roughly: a 64-bit microsecond clock shifted right by ten. */
  type Time = t: nat | t < 0x40_0000_0000_0000

  datatype Entry = Entry(checked: Time, result: bool, port: nat)

  /** One call: the port asked for, the time, and the ports that have a listener then. */
  datatype Query = Query(port: nat, now: Time, listeners: seq<nat>)

  const EMPTY: Entry := Entry(0, false, 0)

  /** The unsigned difference of two times. */
  function Elapsed(now: Time, then_: Time): nat {
    if now >= then_ then now - then_ else U64 + now - then_
  }

  predicate Hit(e: Entry, q: Query) {
    e.port == q.port && Elapsed(q.now, e.checked) < WINDOW
  }

  function Answer(e: Entry, q: Query): bool {
    if Hit(e, q) then e.result else q.port in q.listeners
  }

  function After(e: Entry, q: Query): Entry {
    Entry(q.now, Answer(e, q), q.port)
  }

  class Cache {
    var entry: Entry

    constructor ()
      ensures entry == EMPTY
    {
      entry := EMPTY;
    }

    method IsLocalPortOpen(q: Query) returns (open: bool)
      modifies this
      ensures open == Answer(old(entry), q) && entry == After(old(entry), q)
    {
      if entry.port == q.port && Elapsed(q.now, entry.checked) < WINDOW {
        entry := entry.(checked := q.now);
        return entry.result;
      }
      open := Scan(q.listeners, q.port);
      entry := Entry(q.now, open, q.port);
    }
  }

  /** The walk over the list of listeners, up to the first match. */
  method Scan(listeners: seq<nat>, port: nat) returns (found: bool)
    ensures found <==> port in listeners
  {
    found := false;
    var i := 0;
    while i < |listeners|
      invariant i <= |listeners| && !found && port !in listeners[..i]
    {
      if listeners[i] == port { return true; }
      i := i + 1;
    }
  }

  // ---------- runs ----------

  /** The entry after the first i queries. */
  function EntryAt(qs: seq<Query>, i: nat): Entry
    requires i <= |qs|
  {
    if i == 0 then EMPTY else After(EntryAt(qs, i - 1), qs[i - 1])
  }

  function AnswerAt(qs: seq<Query>, i: nat): bool
    requires i < |qs|
  {
    Answer(EntryAt(qs, i), qs[i])
  }

  predicate HitAt(qs: seq<Query>, i: nat)
    requires i < |qs|
  {
    Hit(EntryAt(qs, i), qs[i])
  }

  /** The last query up to i that was answered by a scan; -1 if there was none. */
  function LatestScan(qs: seq<Query>, i: nat): (j: int)
    requires i < |qs|
    ensures -1 <= j <= i
  {
    if !HitAt(qs, i) then i else if i == 0 then -1 else LatestScan(qs, i - 1)
  }

  /** Query k follows its predecessor closely, for the same port. */
  predicate Follows(qs: seq<Query>, k: nat)
    requires 0 < k < |qs|
  {
    qs[k].port == qs[k - 1].port && Elapsed(qs[k].now, qs[k - 1].now) < WINDOW
  }

  /** Every answer is that of the latest scan, which was for the same port, and each query
      since then followed the one before it in less than the window. Before the first scan only
      port 0 is answered, as closed, within the first window of the clock. */
  lemma {:induction false} AnswersLatestScan(qs: seq<Query>, i: nat, k: nat)
    requires i < |qs|
    ensures var j := LatestScan(qs, i);
      && (j >= 0 ==>
            && !HitAt(qs, j) && qs[j].port == qs[i].port
            && AnswerAt(qs, i) == (qs[i].port in qs[j].listeners)
            && (j < k <= i ==> Follows(qs, k) && HitAt(qs, k)))
      && (j < 0 ==> qs[i].port == 0 && !AnswerAt(qs, i) && qs[0].now < WINDOW && (0 < k <= i ==> Follows(qs, k)))
  {
    if HitAt(qs, i) && i > 0 {
      AnswersLatestScan(qs, i - 1, k);
    }
  }

  /** A query is answered without a scan exactly if it follows closely on one for the same port,
      or is the first one, for port 0 and within the first window of the clock. */
  lemma {:induction false} ScansUnlessFollowing(qs: seq<Query>, i: nat)
    requires i < |qs|
    ensures HitAt(qs, i) <==> if i > 0 then Follows(qs, i) else qs[0].port == 0 && qs[0].now < WINDOW
  {
    if i > 0 {
      assert EntryAt(qs, i) == After(EntryAt(qs, i - 1), qs[i - 1]);
    } else {
      assert EntryAt(qs, 0) == EMPTY;
    }
  }

  /** Up to i only port 0 was asked for, first in the first window of the clock and then always
      closely after the query before. */
  predicate OnlyEarlyZero(qs: seq<Query>, i: nat)
    requires i < |qs|
  {
    qs[0].port == 0 && qs[0].now < WINDOW && forall k :: 0 < k <= i ==> Follows(qs, k)
  }

  /** Such queries are the ones that are answered before any scan. */
  lemma {:induction false} UnscannedExactly(qs: seq<Query>, i: nat)
    requires i < |qs|
    ensures LatestScan(qs, i) < 0 <==> OnlyEarlyZero(qs, i)
  {
    ScansUnlessFollowing(qs, i);
    if i > 0 { UnscannedExactly(qs, i - 1); }
  }

  /** While the listeners stay the same the cache cannot be noticed, save by those who ask for
      port 0 from early on while it has a listener. */
  lemma {:induction false} UnnoticedWhileUnchanged(qs: seq<Query>, listeners: seq<nat>, i: nat)
    requires i < |qs| && forall k :: 0 <= k < |qs| ==> qs[k].listeners == listeners
    ensures AnswerAt(qs, i) == (qs[i].port in listeners) <==> !OnlyEarlyZero(qs, i) || 0 !in listeners
  {
    AnswersLatestScan(qs, i, 0);
    UnscannedExactly(qs, i);
  }

  /** Port 0 with a listener, asked for in the first second: reported closed. */
  lemma EarlyZeroClosed(t: Time)
    requires t < WINDOW
    ensures !AnswerAt([Query(0, t, [0])], 0)
  {
    UnnoticedWhileUnchanged([Query(0, t, [0])], [0], 0);
  }

  /** A port that opens behind its first query: the second one notices it, unless it comes less
      than 1000 later; a clock that runs backwards does not matter. */
  lemma OpenedBetween(port: nat, t: Time, u: Time)
    requires port != 0
    ensures AnswerAt([Query(port, t, []), Query(port, u, [port])], 1) <==> !(t <= u < t + 1000)
  {
    var qs := [Query(port, t, []), Query(port, u, [port])];
    assert EntryAt(qs, 0) == EMPTY && EntryAt(qs, 1) == Entry(t, false, port);
  }

  // ---------- how stale an answer can get ----------

  /** One scan of a closed port; then the port opens and is asked for n times, each time just
      inside the window. */
  function Polled(n: nat): (qs: seq<Query>)
    requires n < 1_000_000_000_000
    ensures |qs| == n + 1
    ensures forall k :: 0 <= k <= n ==> qs[k] == Query(80, 1000 + 999 * k, if k == 0 then [] else [80])
  {
    seq(n + 1, k requires 0 <= k <= n => Query(80, 1000 + 999 * k, if k == 0 then [] else [80]))
  }

  /** A hit renews the entry, so no age limits a wrong answer: the port is open for n - 1 steps
      of 999 and still reported closed. */
  lemma {:induction false} StaleForAsLongAsPolled(n: nat, i: nat)
    requires n < 1_000_000_000_000 && i <= n
    ensures AnswerAt(Polled(n), i) == false && (i > 0 ==> 80 in Polled(n)[i].listeners)
    ensures EntryAt(Polled(n), i + 1) == Entry(1000 + 999 * i, false, 80)
  {
    var qs := Polled(n);
    if i == 0 {
      assert EntryAt(qs, 0) == EMPTY && !HitAt(qs, 0);
    } else {
      StaleForAsLongAsPolled(n, i - 1);
      assert Elapsed(qs[i].now, qs[i - 1].now) == 999;
    }
  }
}
