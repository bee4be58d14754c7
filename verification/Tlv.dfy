/** The TLV messages of protocomm_pserial.c: compose_tlv, parse_tlv and the parse loop of
    rpc_req_handler. A message is a list of records; its meaning is defined on the records. */
module Tlv {
  import opened Bits
  import opened Wrappers

  const T_EPNAME: Byte := 1
  const T_DATA: Byte := 2
  const EPNAME_MAX: nat := 16

  /** Overrun: the code reads behind the bytes it is given. */
  datatype Outcome = Parsed(name: seq<Byte>, data: seq<Byte>) | Rejected | Overrun

  // ---------- records ----------

  datatype Record = Record(tag: Byte, value: seq<Byte>)

  /** strlen of a buffer: everything before the first NUL. */
  function CStr(buf: seq<Byte>, k: nat): seq<Byte>
    requires k <= |buf|
    decreases |buf| - k
  {
    if k == |buf| || buf[k] == 0 then buf[..k] else CStr(buf, k + 1)
  }

  /** memcpy of v over the start of the name buffer: what a longer earlier name left behind
      v stays. */
  function Overlay(buf: seq<Byte>, v: seq<Byte>): (r: seq<Byte>)
    requires |v| <= |buf|
    ensures |r| == |buf|
    ensures forall k :: 0 <= k < |buf| ==> r[k] == if k < |v| then v[k] else buf[k]
  {
    v + buf[|v|..]
  }

  function NoName(): (buf: seq<Byte>)
    ensures |buf| == EPNAME_MAX && forall k :: 0 <= k < EPNAME_MAX ==> buf[k] == 0
  {
    seq(EPNAME_MAX, k => 0)
  }

  /** The check behind the loop. */
  function Conclude(epname: seq<Byte>, data: Option<seq<Byte>>): Outcome
    requires |epname| == EPNAME_MAX
  {
    var name := CStr(epname, 0);
    if data == None || data.value == [] || name == [] then Rejected else Parsed(name, data.value)
  }

  /** What a list of records means, from record k on: the last data record counts, names
      overlay each other, an unknown tag or a name of 15 bytes or more rejects the message. */
  function Meaning(rs: seq<Record>, k: nat, epname: seq<Byte>, data: Option<seq<Byte>>): Outcome
    requires k <= |rs| && |epname| == EPNAME_MAX
    decreases |rs| - k
  {
    if k == |rs| then Conclude(epname, data)
    else if rs[k].tag == T_EPNAME then
      if |rs[k].value| >= EPNAME_MAX - 1 then Rejected
      else Meaning(rs, k + 1, Overlay(epname, rs[k].value), data)
    else if rs[k].tag == T_DATA then Meaning(rs, k + 1, epname, Some(rs[k].value))
    else Rejected
  }

  /** Record r stands at position pos of the message, complete. */
  ghost predicate RecordAt(msg: seq<Byte>, pos: nat, r: Record) {
    && pos + 3 + |r.value| <= |msg| && msg[pos] == r.tag
    && Le16(msg[pos + 1], msg[pos + 2]) == |r.value|
    && forall k {:trigger r.value[k]} :: 0 <= k < |r.value| ==> msg[pos + 3 + k] == r.value[k]
  }

  /** From pos on the message is exactly the records rs[k..]. */
  ghost predicate Holds(msg: seq<Byte>, pos: nat, rs: seq<Record>, k: nat)
    requires k <= |rs|
    decreases |rs| - k
  {
    if k == |rs| then pos == |msg|
    else RecordAt(msg, pos, rs[k]) && Holds(msg, pos + 3 + |rs[k].value|, rs, k + 1)
  }

  // ---------- the parser ----------

  /** The parse loop from position pos on, where nothing but the message can be read. */
  function ParseLoop(msg: seq<Byte>, pos: nat, epname: seq<Byte>, data: Option<seq<Byte>>): Outcome
    requires pos <= |msg| && |epname| == EPNAME_MAX
    decreases |msg| - pos
  {
    if pos == |msg| then Conclude(epname, data)
    else if pos + 3 > |msg| then Overrun
    else
      var len := Le16(msg[pos + 1], msg[pos + 2]);
      var next := pos + 3 + len;
      if !Accepted(msg[pos], len) then Rejected
      else if next > |msg| then Overrun
      else if msg[pos] == T_EPNAME then ParseLoop(msg, next, Overlay(epname, msg[pos + 3..next]), data)
      else ParseLoop(msg, next, epname, Some(msg[pos + 3..next]))
  }

  /** The loop goes on behind a record with this tag and length. */
  predicate Accepted(tag: Byte, len: nat) { tag == T_DATA || (tag == T_EPNAME && len < EPNAME_MAX - 1) }

  function Parse(msg: seq<Byte>): Outcome { ParseLoop(msg, 0, NoName(), None) }

  // ---------- the loop in memory ----------

  /** What the handler gets when the loop has ended; data is a position and a length. */
  function Finish(mem: seq<Byte>, epname: seq<Byte>, data: Option<(nat, nat)>): Outcome
    requires |epname| == EPNAME_MAX
  {
    match data
    case None => Conclude(epname, None)
    case Some((at, len)) => if at + len > |mem| then Overrun else Conclude(epname, Some(mem[at..at + len]))
  }

  /** The loop as it runs: mem is all that can be read from the start of the message on, and
      total_len is a 32-bit word that wraps around when a record reaches behind the message. */
  function MemLoop(mem: seq<Byte>, pos: nat, totalLen: Word, epname: seq<Byte>, data: Option<(nat, nat)>): Outcome
    requires |epname| == EPNAME_MAX
    decreases if pos <= |mem| then |mem| - pos else 0
  {
    if totalLen == 0 then Finish(mem, epname, data)
    else if pos + 3 > |mem| then Overrun
    else
      var len := Le16(mem[pos + 1], mem[pos + 2]);
      var next := pos + 3 + len;
      var left := Wrap(totalLen + U32 - (len + 3));
      if mem[pos] == T_EPNAME then
        if len >= EPNAME_MAX - 1 then Rejected
        else if next > |mem| then Overrun
        else MemLoop(mem, next, left, Overlay(epname, mem[pos + 3..next]), data)
      else if mem[pos] == T_DATA then MemLoop(mem, next, left, epname, Some((pos + 3, len)))
      else Rejected
  }

  /** parse_tlv: the record at buf, with total_len bytes left. */
  method ParseTlv(mem: seq<Byte>, buf: nat, totalLen: Word)
    returns (ok: bool, overrun: bool, tag: Byte, len: nat, next: nat, left: Word)
    ensures ok <==> totalLen != 0
    ensures ok ==> (overrun <==> buf + 3 > |mem|)
    ensures ok && !overrun ==>
      && tag == mem[buf] && len == Le16(mem[buf + 1], mem[buf + 2])
      && next == buf + 3 + len && left == Wrap(totalLen + U32 - (len + 3))
  {
    ok, overrun, tag, len, next, left := false, false, 0, 0, buf, totalLen;
    if totalLen == 0 { return; }
    ok := true;
    if buf + 3 > |mem| { overrun := true; return; }
    tag := mem[buf];
    len := Le16(mem[buf + 1], mem[buf + 2]);
    left := Wrap(totalLen + U32 - (len + 1 + 2));
    next := buf + 1 + 2 + len;
  }

  /** The loop of rpc_req_handler and the check behind it, on a message of inLen bytes. */
  method HandleRequest(mem: seq<Byte>, inLen: Word) returns (o: Outcome)
    requires inLen <= |mem| && |mem| + 0x1_0003 < U32
    ensures o == MemLoop(mem, 0, inLen, NoName(), None)
    ensures Parse(mem[..inLen]) != Overrun ==> o == Parse(mem[..inLen])
    ensures Parse(mem[..inLen]) == Overrun ==> !o.Parsed?
  {
    MemoryBehind(mem, inLen);
    var buf: nat, totalLen: Word := 0, inLen;
    var epname := new Byte[EPNAME_MAX](_ => 0);
    var data: Option<(nat, nat)> := None;
    assert epname[..] == NoName();
    while true
      invariant epname.Length == EPNAME_MAX
      invariant MemLoop(mem, 0, inLen, NoName(), None) == MemLoop(mem, buf, totalLen, epname[..], data)
      decreases if buf <= |mem| then |mem| - buf else 0
    {
      var ok, overrun, tag, len, next, left := ParseTlv(mem, buf, totalLen);
      if !ok { break; }
      if overrun { return Overrun; }
      if tag == T_EPNAME {
        if len >= EPNAME_MAX - 1 { return Rejected; }
        if next > |mem| { return Overrun; }
        ghost var was := epname[..];
        CopyName(epname, mem[buf + 3..next]);
        assert epname[..] == Overlay(was, mem[buf + 3..next]);
      } else if tag == T_DATA {
        data := Some((buf + 3, len));
      } else {
        return Rejected;
      }
      buf, totalLen := next, left;
    }
    o := Finish(mem, epname[..], data);
  }

  /** memcpy over the start of the name. */
  method CopyName(epname: array<Byte>, v: seq<Byte>)
    requires |v| <= epname.Length
    modifies epname
    ensures epname[..] == Overlay(old(epname[..]), v)
  {
    var k := 0;
    while k < |v|
      invariant 0 <= k <= |v|
      invariant forall j :: 0 <= j < epname.Length ==> epname[j] == if j < k then v[j] else old(epname[j])
    {
      epname[k] := v[k];
      k := k + 1;
    }
  }

  /** Behind the message total_len has wrapped around and is never 0 again before the end of
      memory, so the loop cannot come to a request any more. */
  lemma {:induction false} BehindMessage(
    mem: seq<Byte>, n: nat, pos: nat, totalLen: Word, epname: seq<Byte>, data: Option<(nat, nat)>)
    requires n < pos && |mem| + 0x1_0003 < U32 && n <= |mem| && pos <= |mem| + 0x1_0002
    requires |epname| == EPNAME_MAX && totalLen == U32 + n - pos
    ensures !MemLoop(mem, pos, totalLen, epname, data).Parsed?
    decreases if pos <= |mem| then |mem| - pos else 0
  {
    if pos + 3 <= |mem| {
      var len := Le16(mem[pos + 1], mem[pos + 2]);
      var next := pos + 3 + len;
      assert Wrap(totalLen + U32 - (len + 3)) == U32 + n - next;
      if mem[pos] == T_EPNAME && len < EPNAME_MAX - 1 && next <= |mem| {
        BehindMessage(mem, n, next, U32 + n - next, Overlay(epname, mem[pos + 3..next]), data);
      } else if mem[pos] == T_DATA {
        BehindMessage(mem, n, next, U32 + n - next, epname, Some((pos + 3, len)));
      }
    }
  }

  /** The data record found so far, as bytes. */
  function Bytes(mem: seq<Byte>, data: Option<(nat, nat)>): Option<seq<Byte>>
    requires data.Some? ==> data.value.0 + data.value.1 <= |mem|
  {
    if data.None? then None else Some(mem[data.value.0..data.value.0 + data.value.1])
  }

  lemma WrapOnce(v: Word)
    ensures Wrap(v + U32) == v
  {
    assert Wrap(v) == v;
  }

  lemma {:induction false} LoopInMemory(
    mem: seq<Byte>, n: nat, pos: nat, epname: seq<Byte>, data: Option<(nat, nat)>)
    requires pos <= n <= |mem| && |mem| + 0x1_0003 < U32 && |epname| == EPNAME_MAX
    requires data.Some? ==> data.value.0 + data.value.1 <= n
    ensures var inside := ParseLoop(mem[..n], pos, epname, Bytes(mem, data));
      var o := MemLoop(mem, pos, n - pos, epname, data);
      && (inside != Overrun ==> o == inside)
      && (inside == Overrun ==> !o.Parsed?)
    decreases n - pos
  {
    if pos < n && pos + 3 <= |mem| {
      var len := Le16(mem[pos + 1], mem[pos + 2]);
      var next := pos + 3 + len;
      if next <= n {
        if Accepted(mem[pos], len) {
          var epname', data' := epname, Some((pos + 3, len));
          if mem[pos] == T_EPNAME { epname', data' := Overlay(epname, mem[pos + 3..next]), data; }
          LoopInMemory(mem, n, next, epname', data');
          OneRecord(mem, n, pos, epname, data);
        }
      } else {
        LoopLeaves(mem, n, pos, epname, data);
      }
    }
  }

  /** Behind an accepted record inside the message both loops go on alike. */
  lemma {:induction false} OneRecord(mem: seq<Byte>, n: nat, pos: nat, epname: seq<Byte>, data: Option<(nat, nat)>)
    requires pos + 3 <= n <= |mem| && |mem| + 0x1_0003 < U32 && |epname| == EPNAME_MAX
    requires data.Some? ==> data.value.0 + data.value.1 <= n
    requires var len := Le16(mem[pos + 1], mem[pos + 2]); Accepted(mem[pos], len) && pos + 3 + len <= n
    ensures var len := Le16(mem[pos + 1], mem[pos + 2]);
      var next := pos + 3 + len;
      var epname' := if mem[pos] == T_EPNAME then Overlay(epname, mem[pos + 3..next]) else epname;
      var data' := if mem[pos] == T_EPNAME then data else Some((pos + 3, len));
      && ParseLoop(mem[..n], pos, epname, Bytes(mem, data)) == ParseLoop(mem[..n], next, epname', Bytes(mem, data'))
      && MemLoop(mem, pos, n - pos, epname, data) == MemLoop(mem, next, n - next, epname', data')
  {
    var next := pos + 3 + Le16(mem[pos + 1], mem[pos + 2]);
    WrapOnce(n - next);
    assert mem[..n][pos + 3..next] == mem[pos + 3..next];
  }

  /** The record at pos reaches behind the message. */
  lemma {:induction false} LoopLeaves(
    mem: seq<Byte>, n: nat, pos: nat, epname: seq<Byte>, data: Option<(nat, nat)>)
    requires pos < n <= |mem| && |mem| + 0x1_0003 < U32 && |epname| == EPNAME_MAX && pos + 3 <= |mem|
    requires pos + 3 + Le16(mem[pos + 1], mem[pos + 2]) > n
    ensures !MemLoop(mem, pos, n - pos, epname, data).Parsed?
  {
    var len := Le16(mem[pos + 1], mem[pos + 2]);
    var next := pos + 3 + len;
    assert Wrap(n - pos + U32 - (len + 3)) == U32 + n - next;
    if mem[pos] == T_EPNAME && len < EPNAME_MAX - 1 && next <= |mem| {
      BehindMessage(mem, n, next, U32 + n - next, Overlay(epname, mem[pos + 3..next]), data);
    } else if mem[pos] == T_DATA {
      BehindMessage(mem, n, next, U32 + n - next, epname, Some((pos + 3, len)));
    }
  }

  /** Whatever lies behind the message: unless the loop reads behind it, the outcome is that of
      the message alone; if it does, no request comes of it. */
  lemma MemoryBehind(mem: seq<Byte>, n: nat)
    requires n <= |mem| && |mem| + 0x1_0003 < U32
    ensures var o := MemLoop(mem, 0, n, NoName(), None);
      && (Parse(mem[..n]) != Overrun ==> o == Parse(mem[..n]))
      && (Parse(mem[..n]) == Overrun ==> !o.Parsed?)
  {
    LoopInMemory(mem, n, 0, NoName(), None);
  }

  /** A message made of records is parsed to their meaning. */
  lemma {:induction false} ParseIsMeaning(
    msg: seq<Byte>, pos: nat, rs: seq<Record>, k: nat, epname: seq<Byte>, data: Option<seq<Byte>>)
    requires k <= |rs| && pos <= |msg| && |epname| == EPNAME_MAX && Holds(msg, pos, rs, k)
    ensures ParseLoop(msg, pos, epname, data) == Meaning(rs, k, epname, data)
    decreases |rs| - k
  {
    if k < |rs| {
      var r := rs[k];
      var next := pos + 3 + |r.value|;
      assert msg[pos + 3..next] == r.value;
      if r.tag == T_EPNAME && |r.value| < EPNAME_MAX - 1 {
        ParseIsMeaning(msg, next, rs, k + 1, Overlay(epname, r.value), data);
      } else if r.tag == T_DATA {
        ParseIsMeaning(msg, next, rs, k + 1, epname, Some(r.value));
      }
    }
  }

  /** Conversely every parsed message is a list of complete records that fill it exactly. */
  lemma {:induction false} RecordsOf(
    msg: seq<Byte>, pos: nat, epname: seq<Byte>, data: Option<seq<Byte>>, before: seq<Record>)
    returns (rs: seq<Record>)
    requires pos <= |msg| && |epname| == EPNAME_MAX && ParseLoop(msg, pos, epname, data).Parsed?
    ensures |before| <= |rs| && rs[..|before|] == before && Holds(msg, pos, rs, |before|)
    decreases |msg| - pos
  {
    if pos == |msg| {
      rs := before;
    } else {
      var next := pos + 3 + Le16(msg[pos + 1], msg[pos + 2]);
      var r := Record(msg[pos], msg[pos + 3..next]);
      var epname', data' := epname, Some(r.value);
      if r.tag == T_EPNAME { epname', data' := Overlay(epname, r.value), data; }
      rs := RecordsOf(msg, next, epname', data', before + [r]);
      assert rs[|before|] == rs[..|before| + 1][|before|] == r;
      assert rs[..|before|] == rs[..|before| + 1][..|before|];
    }
  }

  /** The message is the records rs, and they mean a request. */
  ghost predicate IsRequest(msg: seq<Byte>, rs: seq<Record>) {
    Holds(msg, 0, rs, 0) && Meaning(rs, 0, NoName(), None).Parsed?
  }

  lemma {:induction false} MeansWhatItHolds(msg: seq<Byte>, rs: seq<Record>)
    requires Holds(msg, 0, rs, 0)
    ensures Parse(msg) == Meaning(rs, 0, NoName(), None)
  {
    ParseIsMeaning(msg, 0, rs, 0, NoName(), None);
  }

  /** A message is parsed exactly when it is a list of records whose meaning is a request. */
  lemma {:induction false} ParsedExactly(msg: seq<Byte>)
    ensures Parse(msg).Parsed? <==> exists rs :: IsRequest(msg, rs)
    ensures forall rs :: Holds(msg, 0, rs, 0) ==> Parse(msg) == Meaning(rs, 0, NoName(), None)
  {
    forall rs | Holds(msg, 0, rs, 0) ensures Parse(msg) == Meaning(rs, 0, NoName(), None) {
      MeansWhatItHolds(msg, rs);
    }
    if Parse(msg).Parsed? {
      var rs := RecordsOf(msg, 0, NoName(), None, []);
      MeansWhatItHolds(msg, rs);
      assert IsRequest(msg, rs);
    }
  }

  // ---------- messages that are read beyond their end ----------

  /** The records rs[k..] stand from pos on, all complete and none of them refused, and they
      end at position `end`. */
  ghost predicate Runs(msg: seq<Byte>, pos: nat, rs: seq<Record>, k: nat, end: nat)
    requires k <= |rs|
    decreases |rs| - k
  {
    if k == |rs| then pos == end
    else
      && RecordAt(msg, pos, rs[k]) && Accepted(rs[k].tag, |rs[k].value|)
      && Runs(msg, pos + 3 + |rs[k].value|, rs, k + 1, end)
  }

  /** What stands from `end` on is cut short: not even a tag and a length, or an acceptable tag
      and length with fewer bytes behind them. */
  predicate CutShort(msg: seq<Byte>, end: nat) {
    && end < |msg|
    && (end + 3 > |msg|
        || (Accepted(msg[end], Le16(msg[end + 1], msg[end + 2]))
            && end + 3 + Le16(msg[end + 1], msg[end + 2]) > |msg|))
  }

  /** The message is the records rs, up to `end`, and something cut short. */
  ghost predicate EndsCut(msg: seq<Byte>, rs: seq<Record>, end: nat) {
    Runs(msg, 0, rs, 0, end) && CutShort(msg, end)
  }

  lemma {:induction false} CutShortOverruns(
    msg: seq<Byte>, pos: nat, rs: seq<Record>, k: nat, end: nat, epname: seq<Byte>, data: Option<seq<Byte>>)
    requires k <= |rs| && pos <= |msg| && |epname| == EPNAME_MAX
    requires Runs(msg, pos, rs, k, end) && CutShort(msg, end)
    ensures ParseLoop(msg, pos, epname, data) == Overrun
    decreases |rs| - k
  {
    if k < |rs| {
      var next := pos + 3 + |rs[k].value|;
      if rs[k].tag == T_EPNAME {
        CutShortOverruns(msg, next, rs, k + 1, end, Overlay(epname, msg[pos + 3..next]), data);
      } else {
        CutShortOverruns(msg, next, rs, k + 1, end, epname, Some(msg[pos + 3..next]));
      }
    }
  }

  lemma {:induction false} OverrunIsCutShort(
    msg: seq<Byte>, pos: nat, before: seq<Record>, epname: seq<Byte>, data: Option<seq<Byte>>)
    returns (rs: seq<Record>, end: nat)
    requires pos <= |msg| && |epname| == EPNAME_MAX && ParseLoop(msg, pos, epname, data) == Overrun
    ensures |before| <= |rs| && rs[..|before|] == before
    ensures Runs(msg, pos, rs, |before|, end) && CutShort(msg, end)
    decreases |msg| - pos
  {
    if CutShort(msg, pos) {
      rs, end := before, pos;
    } else {
      var next := pos + 3 + Le16(msg[pos + 1], msg[pos + 2]);
      var r := Record(msg[pos], msg[pos + 3..next]);
      var epname', data' := epname, Some(r.value);
      if r.tag == T_EPNAME { epname', data' := Overlay(epname, r.value), data; }
      rs, end := OverrunIsCutShort(msg, next, before + [r], epname', data');
      assert rs[|before|] == rs[..|before| + 1][|before|] == r;
      assert rs[..|before|] == rs[..|before| + 1][..|before|];
    }
  }

  /** The loop reads behind a message exactly when the message is a list of complete, acceptable
      records followed by one that is cut short. */
  lemma OverrunExactly(msg: seq<Byte>)
    ensures Parse(msg) == Overrun <==> exists rs, end :: EndsCut(msg, rs, end)
  {
    if Parse(msg) == Overrun {
      var rs, end := OverrunIsCutShort(msg, 0, [], NoName(), None);
      assert EndsCut(msg, rs, end);
    }
    if rs, end :| EndsCut(msg, rs, end) {
      CutShortOverruns(msg, 0, rs, 0, end, NoName(), None);
    }
  }

  /** One byte, the tag of a data record, is enough: what the loop makes of it depends on the
      memory behind, which it reads until it finds another tag or the end. */
  lemma OneByteOverruns(mem: seq<Byte>)
    requires mem == [T_DATA, 0, 0, 0, 0, 0]
    ensures Parse(mem[..1]) == Overrun
    ensures MemLoop(mem, 0, 1, NoName(), None) == Rejected
    ensures MemLoop(mem[..1], 0, 1, NoName(), None) == Overrun
  {
    assert mem[..1] == [T_DATA];
    assert MemLoop(mem, 3, Wrap(1 + U32 - 3), NoName(), Some((3, 0))) == Rejected;
  }

  // ---------- the composer ----------

  /** The bytes compose_tlv writes; lengths are stored modulo 2^16. */
  function Composed(name: seq<Byte>, data: seq<Byte>): (m: seq<Byte>)
    ensures |m| == 6 + |name| + |data|
  {
    [T_EPNAME, |name| % 256, |name| / 256 % 256] + name
    + [T_DATA, |data| % 256, |data| / 256 % 256] + data
  }

  /** compose_tlv. The name is a C string; allocOk is what calloc says. */
  method ComposeTlv(name: seq<Byte>, data: seq<Byte>, allocOk: bool) returns (ok: bool, buf: array<Byte>)
    requires |name| <= 0xFFFF - 6
    ensures ok == allocOk
    ensures ok ==> buf[..] == Composed(name, data)
  {
    ok := allocOk;
    buf := new Byte[if allocOk then 6 + |name| + |data| else 0](_ => 0);
    if !allocOk { return; }
    var len: nat := 0;
    len := StoreHeader(buf, len, T_EPNAME, |name|);
    CopyTo(buf, len, name);
    len := len + |name|;
    len := StoreHeader(buf, len, T_DATA, |data|);
    CopyTo(buf, len, data);
  }

  /** A tag and the two low bytes of a length, low byte first. */
  method StoreHeader(buf: array<Byte>, at: nat, tag: Byte, n: nat) returns (len: nat)
    requires at + 3 <= buf.Length
    modifies buf
    ensures len == at + 3
    ensures buf[at] == tag && buf[at + 1] == n % 256 && buf[at + 2] == n / 256 % 256
    ensures forall j :: 0 <= j < buf.Length && !(at <= j < at + 3) ==> buf[j] == old(buf[j])
  {
    LowBytes(n);
    len := at;
    buf[len] := tag;
    len := len + 1;
    buf[len] := And(n, 0xFF);
    len := len + 1;
    buf[len] := And(Shr(n, 8), 0xFF);
    len := len + 1;
  }

  lemma LowBytes(n: nat)
    ensures And(n, 0xFF) == n % 256 && And(Shr(n, 8), 0xFF) == n / 256 % 256
  {
    Powers();
    ByteShift(n);
    AndLowMask(n, 8);
    AndLowMask(n / 256, 8);
  }

  /** memcpy */
  method CopyTo(buf: array<Byte>, at: nat, src: seq<Byte>)
    requires at + |src| <= buf.Length
    modifies buf
    ensures forall j :: 0 <= j < buf.Length ==>
      buf[j] == if at <= j < at + |src| then src[j - at] else old(buf[j])
  {
    var k := 0;
    while k < |src|
      invariant 0 <= k <= |src|
      invariant forall j :: 0 <= j < buf.Length ==>
        buf[j] == if at <= j < at + k then src[j - at] else old(buf[j])
    {
      buf[at + k] := src[k];
      k := k + 1;
    }
  }

  // ---------- the round trip ----------

  lemma CStrWhole(name: seq<Byte>, buf: seq<Byte>, k: nat)
    requires k <= |name| < |buf| && 0 !in name
    requires forall j :: 0 <= j < |buf| ==> buf[j] == if j < |name| then name[j] else 0
    ensures CStr(buf, k) == name
    decreases |name| - k
  {
    if k < |name| {
      assert name[k] in name;
      CStrWhole(name, buf, k + 1);
    } else {
      assert buf[..k] == name;
    }
  }

  lemma LengthField(n: nat)
    requires n <= 0xFFFF
    ensures Le16(n % 256, n / 256 % 256) == n
  {
  }

  lemma ComposedHolds(name: seq<Byte>, data: seq<Byte>)
    requires |name| <= 0xFFFF && |data| <= 0xFFFF
    ensures Holds(Composed(name, data), 0, [Record(T_EPNAME, name), Record(T_DATA, data)], 0)
  {
    var m, rs := Composed(name, data), [Record(T_EPNAME, name), Record(T_DATA, data)];
    LengthField(|name|);
    LengthField(|data|);
    assert RecordAt(m, 0, rs[0]);
    assert RecordAt(m, 3 + |name|, rs[1]);
    assert Holds(m, |m|, rs, 2);
    assert Holds(m, 3 + |name|, rs, 1);
  }

  /** Composing and parsing give back name and data exactly for names of 1 to 14 bytes and
      data of 1 to 65535 bytes. */
  lemma RoundTrip(name: seq<Byte>, data: seq<Byte>)
    requires 0 !in name && |name| <= 0xFFFF - 6
    ensures Parse(Composed(name, data)) == Parsed(name, data)
      <==> 1 <= |name| <= 14 && 1 <= |data| <= 0xFFFF
  {
    if |data| <= 0xFFFF {
      var rs := [Record(T_EPNAME, name), Record(T_DATA, data)];
      ComposedHolds(name, data);
      ParseIsMeaning(Composed(name, data), 0, rs, 0, NoName(), None);
      if |name| <= 14 {
        CStrWhole(name, Overlay(NoName(), name), 0);
        assert Meaning(rs, 1, Overlay(NoName(), name), None) == Conclude(Overlay(NoName(), name), Some(data));
      }
    } else {
      LongDataLost(name, data);
    }
  }

  /** The length field is two bytes wide, so no parse yields longer data. */
  lemma LongDataLost(name: seq<Byte>, data: seq<Byte>)
    requires |data| > 0xFFFF
    ensures Parse(Composed(name, data)) != Parsed(name, data)
  {
    DataShort(Composed(name, data), 0, NoName(), None);
  }

  lemma {:induction false} DataShort(msg: seq<Byte>, pos: nat, epname: seq<Byte>, data: Option<seq<Byte>>)
    requires pos <= |msg| && |epname| == EPNAME_MAX && (data.Some? ==> |data.value| <= 0xFFFF)
    ensures ParseLoop(msg, pos, epname, data).Parsed? ==> |ParseLoop(msg, pos, epname, data).data| <= 0xFFFF
    decreases |msg| - pos
  {
    if pos + 3 <= |msg| {
      var len := Le16(msg[pos + 1], msg[pos + 2]);
      var next := pos + 3 + len;
      if next <= |msg| {
        if msg[pos] == T_EPNAME && len < EPNAME_MAX - 1 {
          DataShort(msg, next, Overlay(epname, msg[pos + 3..next]), data);
        } else if msg[pos] == T_DATA {
          DataShort(msg, next, epname, Some(msg[pos + 3..next]));
        }
      }
    }
  }

  // ---------- tags and repeated records ----------

  /** The bytes on the wire: tag 1 with the name, tag 2 with the data, each behind a 16-bit length,
      low byte first. */
  lemma WireFormat(name: seq<Byte>, data: seq<Byte>)
    requires |name| <= 0xFFFF && |data| <= 0xFFFF
    ensures var m, d := Composed(name, data), 3 + |name|;
      && m[0] == 1 && m[1] as nat + 256 * (m[2] as nat) == |name| && m[3..d] == name
      && m[d] == 2 && m[d + 1] as nat + 256 * (m[d + 2] as nat) == |data| && m[d + 3..] == data
  {
  }

  /** A record of any other tag, wherever the loop comes to it, rejects the message. */
  lemma OtherTagRejected(msg: seq<Byte>, pos: nat, epname: seq<Byte>, data: Option<seq<Byte>>)
    requires pos + 3 <= |msg| && msg[pos] != 1 && msg[pos] != 2 && |epname| == EPNAME_MAX
    ensures ParseLoop(msg, pos, epname, data) == Rejected
  {
  }

  /** Of several data records the last one counts. */
  lemma {:induction false} LastDataCounts(name: seq<Byte>, first: seq<Byte>, second: seq<Byte>)
    requires 0 !in name && 1 <= |name| <= 14 && |first| <= 0xFFFF && 1 <= |second| <= 0xFFFF
    ensures Parse(Composed(name, first) + [2, |second| % 256, |second| / 256] + second) == Parsed(name, second)
  {
    var m := Composed(name, first) + [2, |second| % 256, |second| / 256] + second;
    var rs := [Record(1, name), Record(2, first), Record(2, second)];
    LengthField(|name|);
    LengthField(|first|);
    LengthField(|second|);
    var d1 := 3 + |name|;
    var d2 := d1 + 3 + |first|;
    assert RecordAt(m, 0, rs[0]) && RecordAt(m, d1, rs[1]) && RecordAt(m, d2, rs[2]);
    assert Holds(m, |m|, rs, 3);
    assert Holds(m, d2, rs, 2);
    assert Holds(m, d1, rs, 1);
    ParseIsMeaning(m, 0, rs, 0, NoName(), None);
    CStrWhole(name, Overlay(NoName(), name), 0);
    assert Meaning(rs, 3, Overlay(NoName(), name), Some(second)) == Parsed(name, second);
    assert Meaning(rs, 2, Overlay(NoName(), name), Some(first)) == Parsed(name, second);
  }

  /** A message without data, or without a name, is rejected. */
  lemma {:induction false} HalfRejected(value: seq<Byte>, tag: Byte)
    requires |value| <= 14 && (tag == 1 || tag == 2)
    ensures Parse([tag, |value|, 0] + value) == Rejected
  {
    var m, rs := [tag, |value|, 0] + value, [Record(tag, value)];
    assert RecordAt(m, 0, rs[0]);
    assert Holds(m, |m|, rs, 1);
    ParseIsMeaning(m, 0, rs, 0, NoName(), None);
    assert CStr(NoName(), 0) == [];
  }

  /** A second name that is not longer than the first overlays only the start of it. */
  lemma {:induction false} NamesOverlay(first: seq<Byte>, second: seq<Byte>, data: seq<Byte>)
    requires 1 <= |second| <= |first| <= 14 && 0 !in first && 0 !in second && 1 <= |data| <= 0xFFFF
    ensures Parse([1, |first|, 0] + first + Composed(second, data)) == Parsed(second + first[|second|..], data)
  {
    var m := [1, |first|, 0] + first + Composed(second, data);
    var rs := [Record(1, first), Record(1, second), Record(2, data)];
    LengthField(|data|);
    var d1 := 3 + |first|;
    var d2 := d1 + 3 + |second|;
    assert RecordAt(m, 0, rs[0]) && RecordAt(m, d1, rs[1]) && RecordAt(m, d2, rs[2]);
    assert Holds(m, |m|, rs, 3);
    assert Holds(m, d2, rs, 2);
    assert Holds(m, d1, rs, 1);
    ParseIsMeaning(m, 0, rs, 0, NoName(), None);
    OverlaidName(first, second);
    var epname := Overlay(Overlay(NoName(), first), second);
    assert Meaning(rs, 3, epname, Some(data)) == Parsed(second + first[|second|..], data);
    assert Meaning(rs, 2, epname, None) == Parsed(second + first[|second|..], data);
  }

  lemma OverlaidName(first: seq<Byte>, second: seq<Byte>)
    requires 1 <= |second| <= |first| <= 14 && 0 !in first && 0 !in second
    ensures CStr(Overlay(Overlay(NoName(), first), second), 0) == second + first[|second|..]
  {
    var name := second + first[|second|..];
    assert 0 !in name;
    CStrWhole(name, Overlay(Overlay(NoName(), first), second), 0);
  }
}
