/** The port lists of the packet filter: a comma-separated string read into a bounded table. */
module Ports {
  import opened Wrappers
  import Ipv4Spec

  const MAX_PORTS: nat := 10
  const BUF_SIZE: nat := 6

  type Digits = t: string | forall i :: 0 <= i < |t| ==> IsDigit(t[i])

  /** atoi on the first n digits. */
  function Value(t: Digits, n: nat): nat
    requires n <= |t|
  {
    if n == 0 then 0 else 10 * Value(t, n - 1) + (t[n - 1] as nat - '0' as nat)
  }

  /** Only four digits of a number are kept. */
  function Kept(t: Digits): nat { if |t| < 4 then |t| else 4 }

  function Entry(t: Digits): seq<nat> { if t == [] then [] else [Value(t, Kept(t))] }

  /** The whole list from position i on, after the digits t of the current field. Characters
      other than digits and commas are passed over. */
  function Entries(s: string, i: nat, t: Digits): seq<nat>
    requires i <= |s|
    decreases |s| - i
  {
    if i == |s| then Entry(t)
    else if IsDigit(s[i]) then Entries(s, i + 1, t + [s[i]])
    else if s[i] == ',' then Entry(t) + Entries(s, i + 1, [])
    else Entries(s, i + 1, t)
  }

  /** The first entries of a list, as many as the table holds. */
  function Head(entries: seq<nat>): seq<nat> {
    if |entries| <= MAX_PORTS then entries else entries[..MAX_PORTS]
  }

  /** The table of one port type (tcp_src, tcp_dst, udp_src, udp_dst). */
  class PortList {
    var initialized: bool
    var count: nat
    var ports: array<nat>

    ghost predicate Valid()
      reads this
    {
      ports.Length == MAX_PORTS && count <= MAX_PORTS
    }

    constructor ()
      ensures Valid() && !initialized && count == 0 && fresh(ports)
    {
      initialized, count := false, 0;
      ports := new nat[MAX_PORTS](_ => 0);
    }

    /** init_allowed_ports. An empty or missing string leaves the list open for a later call. */
    method Init(portsStr: Option<string>)
      requires Valid()
      modifies this, ports
      ensures Valid() && ports == old(ports)
      ensures old(initialized) ==> initialized && count == old(count) && ports[..] == old(ports[..])
      ensures !old(initialized) ==>
        && initialized == (portsStr != None && portsStr.value != "")
        && ports[..count] == (if initialized then Head(Entries(portsStr.value, 0, [])) else [])
        && ports[count..] == old(ports[..])[count..]
    {
      if initialized { return; }
      count := 0;
      if portsStr == None || portsStr.value == "" { return; }
      var portBuf, portBufIdx := ReadPorts(portsStr.value);
      if portBufIdx > 0 {
        StorePort(portBuf, portBufIdx);
      }
      initialized := true;
    }

    /** The loop over the characters: full fields are stored, the digits of the last one are
        left in the buffer. */
    method ReadPorts(s: string) returns (portBuf: array<char>, portBufIdx: nat)
      requires Valid() && count == 0
      modifies this`count, ports
      ensures Valid() && fresh(portBuf) && portBuf.Length == BUF_SIZE
      ensures portBufIdx < BUF_SIZE - 1 && forall k :: 0 <= k < portBufIdx ==> IsDigit(portBuf[k])
      ensures portBufIdx > 0 ==> count < MAX_PORTS
      ensures var last: Digits := portBuf[..portBufIdx]; Head(Entries(s, 0, [])) == ports[..count] + Entry(last)
      ensures ports[count..] == old(ports[..])[count..]
    {
      portBuf := new char[BUF_SIZE];
      portBufIdx := 0;
      var i := 0;
      ghost var t: Digits := [];
      while i < |s| && count < MAX_PORTS
        invariant i <= |s| && Valid()
        invariant portBufIdx == Kept(t) && portBuf[..portBufIdx] == t[..portBufIdx]
        invariant count == MAX_PORTS ==> t == []
        invariant Entries(s, 0, []) == ports[..count] + Entries(s, i, t)
        invariant ports[count..] == old(ports[..])[count..]
      {
        var c := s[i];
        if IsDigit(c) {
          portBufIdx := PushDigit(portBuf, portBufIdx, c, t);
          t := t + [c];
        } else if c == ',' {
          if portBufIdx > 0 {
            KeptValue(portBuf[..portBufIdx], t);
            StorePort(portBuf, portBufIdx);
            portBufIdx := 0;
          }
          t := [];
        }
        i := i + 1;
      }
      KeptValue(portBuf[..portBufIdx], t);
    }

    /** Append a digit; from the fifth on only the last one is replaced. */
    method PushDigit(portBuf: array<char>, portBufIdx: nat, c: char, ghost t: Digits) returns (idx: nat)
      requires IsDigit(c) && portBuf.Length == BUF_SIZE
      requires portBufIdx == Kept(t) && portBuf[..portBufIdx] == t[..portBufIdx]
      modifies portBuf
      ensures idx == Kept(t + [c]) && portBuf[..idx] == (t + [c])[..idx]
    {
      portBuf[portBufIdx] := c;
      idx := portBufIdx + 1;
      if idx >= BUF_SIZE - 1 { idx := BUF_SIZE - 2; }
    }

    /** Terminate the buffer, convert it, append the number. */
    method StorePort(portBuf: array<char>, portBufIdx: nat)
      requires Valid() && count < MAX_PORTS
      requires portBufIdx < portBuf.Length && forall k :: 0 <= k < portBufIdx ==> IsDigit(portBuf[k])
      modifies this`count, ports, portBuf
      ensures Valid() && count == old(count) + 1
      ensures var t: Digits := old(portBuf[..portBufIdx]); ports[..count] == old(ports[..count]) + [Value(t, |t|)]
      ensures ports[count..] == old(ports[..])[count..]
    {
      var t: Digits := portBuf[..portBufIdx];
      portBuf[portBufIdx] := '\0';
      ports[count] := Value(t, |t|);
      count := count + 1;
    }
  }

  /** The buffer with the kept digits stands for the whole field. */
  lemma KeptValue(kept: Digits, t: Digits)
    requires kept == t[..Kept(t)]
    ensures Entry(kept) == Entry(t)
    ensures t != [] ==> Entry(t) == [Value(kept, |kept|)]
  {
    if t != [] { ValueSame(kept, t, |kept|); }
  }

  lemma {:induction false} ValueSame(a: Digits, b: Digits, n: nat)
    requires n <= |a| && n <= |b| && forall i :: 0 <= i < n ==> a[i] == b[i]
    ensures Value(a, n) == Value(b, n)
  {
    if n > 0 { ValueSame(a, b, n - 1); }
  }

  // ---------- lists as an administrator writes them ----------

  /** The port numbers from the i-th on, in decimal, with commas between them. */
  function Listed(ports: seq<nat>, i: nat): string
    requires i <= |ports|
    decreases |ports| - i
  {
    if i == |ports| then ""
    else Ipv4Spec.Dec(ports[i]) + if i + 1 < |ports| then "," + Listed(ports, i + 1) else ""
  }

  /** The number its first four decimal digits make. */
  function FirstFour(p: nat): nat { if p < 10000 then p else FirstFour(p / 10) }

  function KeptFrom(ports: seq<nat>, i: nat): (r: seq<nat>)
    requires i <= |ports|
    ensures |r| == |ports| - i
    decreases |ports| - i
  {
    if i == |ports| then [] else [FirstFour(ports[i])] + KeptFrom(ports, i + 1)
  }

  lemma {:induction false} KeptAt(ports: seq<nat>, i: nat, k: nat)
    requires i + k < |ports|
    ensures KeptFrom(ports, i)[k] == FirstFour(ports[i + k])
    decreases k
  {
    if k > 0 { KeptAt(ports, i + 1, k - 1); }
  }

  lemma {:induction false} DecDigits(p: nat)
    ensures forall i :: 0 <= i < |Ipv4Spec.Dec(p)| ==> IsDigit(Ipv4Spec.Dec(p)[i])
  {
    if p >= 10 { DecDigits(p / 10); }
  }

  lemma {:induction false} DecValue(p: nat, t: Digits)
    requires t == Ipv4Spec.Dec(p)
    ensures Value(t, |t|) == p
    ensures |t| <= 4 <==> p < 10000
    ensures |t| <= 3 <==> p < 1000
    ensures |t| <= 2 <==> p < 100
    ensures |t| <= 1 <==> p < 10
  {
    if p >= 10 {
      DecDigits(p / 10);
      var front: Digits := Ipv4Spec.Dec(p / 10);
      DecValue(p / 10, front);
      assert t == front + [t[|t| - 1]];
      ValueSame(t, front, |front|);
    } else {
      assert t == [] + [t[0]];
      assert Value(t, 0) == 0;
    }
  }

  lemma {:induction false} DecKept(p: nat, t: Digits)
    requires t == Ipv4Spec.Dec(p)
    ensures Entry(t) == [FirstFour(p)]
  {
    DecValue(p, t);
    if p >= 10000 {
      DecDigits(p / 10);
      var front: Digits := Ipv4Spec.Dec(p / 10);
      DecValue(p / 10, front);
      DecKept(p / 10, front);
      assert t == front + [t[|t| - 1]];
      ValueSame(t, front, 4);
    }
  }

  lemma {:induction false} EntriesDigits(s: string, i: nat, d: Digits, t: Digits, n: nat)
    requires n <= |d| && i + |d| <= |s| && s[i..i + |d|] == d
    ensures Entries(s, i, t) == Entries(s, i + n, t + d[..n])
  {
    if n == 0 {
      assert t + d[..0] == t;
    } else {
      EntriesDigits(s, i, d, t, n - 1);
      assert s[i + n - 1] == s[i..i + |d|][n - 1] == d[n - 1];
      assert t + d[..n - 1] + [d[n - 1]] == t + d[..n];
    }
  }

  lemma {:induction false} OneField(s: string, a: nat, d: Digits, rest: string)
    requires a <= |s| && s[a..] == d + rest
    ensures a + |d| <= |s| && s[a + |d|..] == rest
    ensures Entries(s, a, []) == Entries(s, a + |d|, d)
  {
    assert |s[a..]| == |s| - a;
    assert s[a..a + |d|] == s[a..][..|d|];
    assert s[a + |d|..] == s[a..][|d|..];
    EntriesDigits(s, a, d, [], |d|);
    assert [] + d[..|d|] == d;
  }

  lemma {:induction false} NextField(s: string, b: nat, d: Digits, more: string)
    requires b <= |s| && s[b..] == "," + more
    ensures b < |s| && s[b + 1..] == more
    ensures Entries(s, b, d) == Entry(d) + Entries(s, b + 1, [])
  {
    assert s[b] == s[b..][0];
    assert s[b + 1..] == s[b..][1..];
  }

  lemma {:induction false} EntriesSuffix(s: string, k: nat, x: string, i: nat, t: Digits)
    requires k <= |s| && x == s[k..] && i <= |x|
    ensures Entries(s, k + i, t) == Entries(x, i, t)
    decreases |x| - i
  {
    if i < |x| {
      assert s[k + i] == x[i];
      if IsDigit(x[i]) {
        EntriesSuffix(s, k, x, i + 1, t + [x[i]]);
      } else {
        EntriesSuffix(s, k, x, i + 1, t);
        EntriesSuffix(s, k, x, i + 1, []);
      }
    }
  }

  lemma {:induction false} FieldBefore(d: Digits, more: string)
    ensures Entries(d + ("," + more), 0, []) == Entry(d) + Entries(more, 0, [])
  {
    var s := d + ("," + more);
    assert s[0..] == s;
    OneField(s, 0, d, "," + more);
    NextField(s, |d|, d, more);
    EntriesSuffix(s, |d| + 1, more, 0, []);
  }

  lemma {:induction false} LastField(d: Digits)
    ensures Entries(d + "", 0, []) == Entry(d)
  {
    var s := d + "";
    assert s[0..] == s;
    OneField(s, 0, d, "");
  }

  lemma {:induction false} EntriesOfList(ports: seq<nat>, i: nat)
    requires i < |ports|
    ensures Entries(Listed(ports, i), 0, []) == KeptFrom(ports, i)
    decreases |ports| - i
  {
    DecDigits(ports[i]);
    var d: Digits := Ipv4Spec.Dec(ports[i]);
    DecKept(ports[i], d);
    if i + 1 < |ports| {
      FieldBefore(d, Listed(ports, i + 1));
      EntriesOfList(ports, i + 1);
    } else {
      LastField(d);
      assert KeptFrom(ports, i + 1) == [];
    }
  }

  /** The characters from position i on without all but digits and commas. */
  function Clean(s: string, i: nat): string
    requires i <= |s|
    decreases |s| - i
  {
    if i == |s| then ""
    else if IsDigit(s[i]) || s[i] == ',' then [s[i]] + Clean(s, i + 1)
    else Clean(s, i + 1)
  }

  lemma {:induction false} CleanDigit(c: char, rest: string, t: Digits)
    requires IsDigit(c)
    ensures Entries([c] + rest, 0, t) == Entries(rest, 0, t + [c])
  {
    EntriesSuffix([c] + rest, 1, rest, 0, t + [c]);
    assert ([c] + rest)[0] == c;
  }

  lemma {:induction false} CleanComma(rest: string, t: Digits)
    ensures Entries([','] + rest, 0, t) == Entry(t) + Entries(rest, 0, [])
  {
    EntriesSuffix([','] + rest, 1, rest, 0, []);
    assert ([','] + rest)[0] == ',';
  }

  /** Spaces and any other characters between, before or inside the numbers make no difference. */
  lemma {:induction false} NoiseIgnored(s: string, i: nat, t: Digits)
    requires i <= |s|
    ensures Entries(s, i, t) == Entries(Clean(s, i), 0, t)
    decreases |s| - i
  {
    if i < |s| {
      var rest := Clean(s, i + 1);
      if IsDigit(s[i]) {
        NoiseIgnored(s, i + 1, t + [s[i]]);
        CleanDigit(s[i], rest, t);
      } else if s[i] == ',' {
        NoiseIgnored(s, i + 1, []);
        CleanComma(rest, t);
      } else {
        NoiseIgnored(s, i + 1, t);
        assert Clean(s, i) == rest;
      }
    }
  }

  /** A comma without digits before it makes no entry. */
  lemma {:induction false} EmptyFieldSkipped(more: string)
    ensures Entries("," + more, 0, []) == Entries(more, 0, [])
  {
    CleanComma(more, []);
    assert "," + more == [','] + more;
    assert Entry([]) == [];
  }

  /** A written list comes back as its first ten numbers, each cut to its first four
      digits; so a list is read as written exactly if none of those is above 9999. */
  lemma {:induction false} ListReadBack(ports: seq<nat>)
    requires ports != []
    ensures var n := if |ports| <= 10 then |ports| else 10;
      var table := Head(Entries(Listed(ports, 0), 0, []));
      && |table| == n
      && (forall k :: 0 <= k < n ==> table[k] == FirstFour(ports[k]))
      && (table == ports[..n] <==> forall k :: 0 <= k < n ==> ports[k] <= 9999)
  {
    var s := Listed(ports, 0);
    EntriesOfList(ports, 0);
    forall k | 0 <= k < |ports|
      ensures KeptFrom(ports, 0)[k] == FirstFour(ports[k])
      ensures FirstFour(ports[k]) == ports[k] <==> ports[k] <= 9999
    {
      KeptAt(ports, 0, k);
      FourFits(ports[k]);
    }
    var n := if |ports| <= MAX_PORTS then |ports| else MAX_PORTS;
    var table := Head(Entries(s, 0, []));
    assert forall k :: 0 <= k < n ==> table[k] == FirstFour(ports[k]);
    if table == ports[..n] {
      assert forall k :: 0 <= k < n ==> table[k] == ports[..n][k];
    }
  }

  lemma {:induction false} FourFits(p: nat)
    ensures FirstFour(p) <= 9999 && (FirstFour(p) == p <==> p <= 9999)
    ensures 10000 <= p <= 0xFFFF ==> FirstFour(p) == p / 10
  {
    if p >= 10000 { FourFits(p / 10); }
  }
}
