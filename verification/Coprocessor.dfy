/** The transmit side of esp_hosted_coprocessor.c in its bypass build: process_tx_pkt, the
    fragmenter serial_write_data and the Wi-Fi receive callbacks, with the life of every
    buffer as a log of events. */
module Coprocessor {
  import opened Bits
  import opened Wrappers
  import Tlv

  const ETH_DATA_LEN: nat := 1500
  const ESP_STA_IF: nat := 1
  const ESP_AP_IF: nat := 2
  const ESP_SERIAL_IF: nat := 3

  /** Buffers whose release is some code's duty. */
  datatype Buffer = SerialBuf | WifiBuf | CopyBuf

  /** An interface_buffer_handle_t; release is priv_buffer_handle with its free function. */
  datatype Handle = Handle(ifType: nat, payload: seq<Byte>, more: bool, seqNum: nat, release: Option<Buffer>)

  /** What process_tx_pkt meets: the data path closed, no driver, a host that does not wake
      up, or a driver that takes the packet, marked when it woke the host. */
  datatype Fate = PathClosed | NoDriver | WakeFailed | Sent(marked: bool)

  /** The flags process_tx_pkt reads for one packet; they change between packets. */
  datatype Env = Env(datapath: bool, driver: bool, saving: bool, wakeNeeded: bool, wakes: bool)

  function FateIn(env: Env): Fate {
    if !env.datapath then PathClosed
    else if !env.driver then NoDriver
    else if env.saving && env.wakeNeeded && !env.wakes then WakeFailed
    else Sent(env.saving && env.wakeNeeded)
  }

  /** A packet is written if and only if the data path is open, there is a driver, and a host that
      has to be woken for it wakes up. */
  lemma WrittenExactly(env: Env)
    ensures FateIn(env).Sent? <==> env.datapath && env.driver && (env.saving && env.wakeNeeded ==> env.wakes)
    ensures FateIn(env) == Sent(true) <==> env.datapath && env.driver && env.saving && env.wakeNeeded && env.wakes
    ensures FateIn(env) == WakeFailed <==> env.datapath && env.driver && env.saving && env.wakeNeeded && !env.wakes
    ensures FateIn(env) == NoDriver <==> env.datapath && !env.driver
  {
  }

  /** Put: a packet was written or dropped. Released and ToNetif end the ownership of a
      buffer; netif frees the Wi-Fi buffer itself. */
  datatype Event = Put(h: Handle, fate: Fate) | Released(b: Buffer) | ToNetif(b: Buffer)

  datatype Route = HostBridge | SlaveBridge | BothBridge | InvalidBridge

  // ---------- what a fragmentation is ----------

  function FragCount(n: nat): (c: nat)
    ensures c >= 1 && ETH_DATA_LEN * (c - 1) <= n <= ETH_DATA_LEN * c
    ensures n > 0 ==> ETH_DATA_LEN * (c - 1) < n
  {
    if n == 0 then 1 else (n + ETH_DATA_LEN - 1) / ETH_DATA_LEN
  }

  /** The frames of a message: full ones with MORE_FRAGMENT, then the rest, which alone
      carries the buffer; sequence numbers go up by one. */
  ghost predicate IsFragmentation(frames: seq<Handle>, data: seq<Byte>, seqNum: nat) {
    && |frames| == FragCount(|data|)
    && (forall i :: 0 <= i < |frames| ==>
          frames[i].ifType == ESP_SERIAL_IF && frames[i].seqNum == (seqNum + 1 + i) % 0x1_0000)
    && (forall i :: 0 <= i < |frames| - 1 ==>
      && frames[i].more && frames[i].release == None
      && frames[i].payload == data[ETH_DATA_LEN * i..ETH_DATA_LEN * (i + 1)])
    && var last := frames[|frames| - 1];
      && !last.more && last.release == Some(SerialBuf)
      && last.payload == data[ETH_DATA_LEN * (|frames| - 1)..]
  }

  /** Full fragments of the start of a message. */
  ghost predicate AllFull(frames: seq<Handle>, data: seq<Byte>, seqNum: nat) {
    && ETH_DATA_LEN * |frames| <= |data|
    && forall i :: 0 <= i < |frames| ==>
      && frames[i].ifType == ESP_SERIAL_IF && frames[i].seqNum == (seqNum + 1 + i) % 0x1_0000
      && frames[i].more && frames[i].release == None
      && frames[i].payload == data[ETH_DATA_LEN * i..ETH_DATA_LEN * (i + 1)]
  }

  lemma AddLast(frames: seq<Handle>, h: Handle, data: seq<Byte>, seqNum: nat)
    requires AllFull(frames, data, seqNum)
    requires var left := |data| - ETH_DATA_LEN * |frames|; left <= ETH_DATA_LEN && (frames != [] ==> left > 0)
    requires h == Handle(ESP_SERIAL_IF, data[ETH_DATA_LEN * |frames|..], false, (seqNum + 1 + |frames|) % 0x1_0000, Some(SerialBuf))
    ensures IsFragmentation(frames + [h], data, seqNum)
  {
  }

  lemma AddFull(frames: seq<Handle>, h: Handle, data: seq<Byte>, seqNum: nat)
    requires AllFull(frames, data, seqNum) && ETH_DATA_LEN * (|frames| + 1) <= |data|
    requires h == Handle(
      ESP_SERIAL_IF, data[ETH_DATA_LEN * |frames|..ETH_DATA_LEN * (|frames| + 1)], true, (seqNum + 1 + |frames|) % 0x1_0000, None)
    ensures AllFull(frames + [h], data, seqNum)
  {
  }

  function Puts(frames: seq<Handle>, envs: nat -> Env): seq<Event> {
    seq(|frames|, i requires 0 <= i < |frames| => Put(frames[i], FateIn(envs(i))))
  }

  lemma PutsGrow(frames: seq<Handle>, h: Handle, envs: nat -> Env)
    ensures Puts(frames + [h], envs) == Puts(frames, envs) + [Put(h, FateIn(envs(|frames|)))]
  {
  }

  /** The payloads of the first k frames, joined. */
  function Joined(frames: seq<Handle>, k: nat): seq<Byte>
    requires k <= |frames|
  {
    if k == 0 then [] else Joined(frames, k - 1) + frames[k - 1].payload
  }

  lemma {:induction false} JoinedPrefix(frames: seq<Handle>, data: seq<Byte>, seqNum: nat, k: nat)
    requires IsFragmentation(frames, data, seqNum) && k < |frames|
    ensures Joined(frames, k) == data[..ETH_DATA_LEN * k]
  {
    if k > 0 { JoinedPrefix(frames, data, seqNum, k - 1); }
  }

  /** Joining the fragments gives back the message, and the flags alone tell where it ends. */
  lemma FragmentsJoin(frames: seq<Handle>, data: seq<Byte>, seqNum: nat)
    requires IsFragmentation(frames, data, seqNum)
    ensures Joined(frames, |frames|) == data
    ensures forall i :: 0 <= i < |frames| ==> (frames[i].more <==> i < |frames| - 1)
    ensures forall i :: 0 <= i < |frames| - 1 ==> |frames[i].payload| == ETH_DATA_LEN
    ensures |frames[|frames| - 1].payload| <= ETH_DATA_LEN
  {
    JoinedPrefix(frames, data, seqNum, |frames| - 1);
  }

  /** Composing a reply, fragmenting it, joining the fragments and parsing them gives back
      endpoint name and payload. */
  lemma SerialPathRoundTrip(name: seq<Byte>, payload: seq<Byte>, frames: seq<Handle>, seqNum: nat)
    requires 0 !in name && 1 <= |name| <= 14 && 1 <= |payload| <= 0xFFFF
    requires IsFragmentation(frames, Tlv.Composed(name, payload), seqNum)
    ensures Tlv.Parse(Joined(frames, |frames|)) == Tlv.Parsed(name, payload)
  {
    FragmentsJoin(frames, Tlv.Composed(name, payload), seqNum);
    Tlv.RoundTrip(name, payload);
  }

  /** How often the log ends the ownership of buffer b. */
  function Ends(log: seq<Event>, b: Buffer): nat {
    if log == [] then 0
    else
      var e := log[|log| - 1];
      Ends(log[..|log| - 1], b) + if e == Released(b) || e == ToNetif(b) then 1 else 0
  }

  lemma EndsSnoc(log: seq<Event>, e: Event, b: Buffer)
    ensures Ends(log + [e], b) == Ends(log, b) + if e == Released(b) || e == ToNetif(b) then 1 else 0
  {
    assert (log + [e])[..|log|] == log;
  }

  lemma {:induction false} PutsEndNothing(log: seq<Event>, frames: seq<Handle>, envs: nat -> Env, b: Buffer)
    ensures Ends(log + Puts(frames, envs), b) == Ends(log, b)
    decreases |frames|
  {
    var puts := Puts(frames, envs);
    if frames == [] {
      assert log + puts == log;
    } else {
      var front := frames[..|frames| - 1];
      PutsEndNothing(log, front, envs, b);
      assert puts == Puts(front, envs) + [puts[|frames| - 1]];
      assert log + puts == log + Puts(front, envs) + [puts[|frames| - 1]];
      EndsSnoc(log + Puts(front, envs), puts[|frames| - 1], b);
    }
  }

  /** Whatever happens to the fragments, one call of serial_write_data ends the ownership of
      its buffer exactly once. */
  lemma SerialBufferFreedOnce(before: seq<Event>, frames: seq<Handle>, envs: nat -> Env)
    ensures Ends(before + Puts(frames, envs) + [Released(SerialBuf)], SerialBuf) == Ends(before, SerialBuf) + 1
  {
    PutsEndNothing(before, frames, envs, SerialBuf);
    EndsSnoc(before + Puts(frames, envs), Released(SerialBuf), SerialBuf);
  }

  class Firmware {
    /** The static seq_num of serial_write_data. */
    var seqNum: nat
    var log: seq<Event>

    /** process_tx_pkt: write or drop the packet, then release its buffer in every case. */
    method ProcessTxPkt(h: Handle, env: Env)
      modifies this`log
      ensures log == old(log) + [Put(h, FateIn(env))]
        + (if h.release == None then [] else [Released(h.release.value)])
    {
      if !env.datapath {
        log := log + [Put(h, PathClosed)];
        if h.release != None { log := log + [Released(h.release.value)]; }
        return;
      }
      if env.driver {
        var hostAwake, marked := true, false;
        if env.saving && env.wakeNeeded {
          hostAwake := env.wakes;
          marked := true;
        }
        log := log + [Put(h, if hostAwake then Sent(marked) else WakeFailed)];
      } else {
        log := log + [Put(h, NoDriver)];
      }
      if h.release != None { log := log + [Released(h.release.value)]; }
    }

    /** serial_write_data: the buffer is released once, behind its last fragment. */
    method SerialWriteData(data: seq<Byte>, envs: nat -> Env) returns (frames: seq<Handle>)
      requires |data| < 0x8000_0000 && seqNum < 0x1_0000
      modifies this
      ensures IsFragmentation(frames, data, old(seqNum))
      ensures log == old(log) + Puts(frames, envs) + [Released(SerialBuf)]
      ensures Ends(log, SerialBuf) == Ends(old(log), SerialBuf) + 1
      ensures seqNum == (old(seqNum) + |frames|) % 0x1_0000
    {
      var pos: nat, leftLen: nat := 0, |data|;
      frames := [];
      ghost var start := seqNum;
      var more := true;
      while more
        invariant seqNum == (start + |frames|) % 0x1_0000
        invariant pos + leftLen == |data|
        invariant more ==>
          && pos == ETH_DATA_LEN * |frames| && (frames == [] || leftLen > 0)
          && AllFull(frames, data, start) && log == old(log) + Puts(frames, envs)
        invariant !more ==>
          && IsFragmentation(frames, data, start)
          && log == old(log) + Puts(frames, envs) + [Released(SerialBuf)]
        decreases more, leftLen
      {
        var fragLen, h := SendFragment(data, pos, leftLen, frames, start, envs(|frames|));
        PutsGrow(frames, h, envs);
        frames := frames + [h];
        leftLen := leftLen - fragLen;
        pos := pos + fragLen;
        more := leftLen != 0;
      }
      SerialBufferFreedOnce(old(log), frames, envs);
    }

    /** One round of its loop, up to the update of left_len and pos. */
    method SendFragment(data: seq<Byte>, pos: nat, leftLen: nat, ghost frames: seq<Handle>, ghost start: nat, env: Env)
      returns (fragLen: nat, h: Handle)
      requires seqNum == (start + |frames|) % 0x1_0000 && AllFull(frames, data, start)
      requires pos == ETH_DATA_LEN * |frames| && pos + leftLen == |data| && (frames == [] || leftLen > 0)
      modifies this
      ensures seqNum == (start + |frames| + 1) % 0x1_0000
      ensures log == old(log) + [Put(h, FateIn(env))] + if h.more then [] else [Released(SerialBuf)]
      ensures h.more <==> leftLen > ETH_DATA_LEN
      ensures h.more ==> fragLen == ETH_DATA_LEN && AllFull(frames + [h], data, start)
      ensures !h.more ==> fragLen == leftLen && IsFragmentation(frames + [h], data, start)
    {
      seqNum := (seqNum + 1) % 0x1_0000;
      NextSeq(start, |frames|);
      if leftLen > ETH_DATA_LEN {
        fragLen := ETH_DATA_LEN;
        h := Handle(ESP_SERIAL_IF, data[pos..pos + fragLen], true, seqNum, None);
        AddFull(frames, h, data, start);
      } else {
        fragLen := leftLen;
        h := Handle(ESP_SERIAL_IF, data[pos..pos + fragLen], false, seqNum, Some(SerialBuf));
        AddLast(frames, h, data, start);
      }
      ProcessTxPkt(h, env);
    }

    static lemma NextSeq(start: nat, n: nat)
      ensures ((start + n) % 0x1_0000 + 1) % 0x1_0000 == (start + 1 + n) % 0x1_0000
    {
    }

    /** wlan_ap_rx_callback: the received buffer ends its life once, whatever is missing. */
    method WlanApRx(frame: Option<seq<Byte>>, eb: bool, datapath: bool, env: Env)
      modifies this`log
      ensures Ends(log, WifiBuf) == Ends(old(log), WifiBuf) + if eb then 1 else 0
      ensures frame.Some? && eb && datapath ==>
        log == old(log) + [Put(Handle(ESP_AP_IF, frame.value, false, 0, Some(WifiBuf)), FateIn(env)), Released(WifiBuf)]
      ensures !(frame.Some? && eb && datapath) ==> log == old(log) + if eb then [Released(WifiBuf)] else []
    {
      if frame.None? || !eb || !datapath {
        if eb { End(Released(WifiBuf)); }
        return;
      }
      Forward(Handle(ESP_AP_IF, frame.value, false, 0, Some(WifiBuf)), env);
    }

    /** wlan_sta_rx_callback with the route the packet filter chose: Wi-Fi buffer and copy
        each end their life once. */
    method WlanStaRx(frame: Option<seq<Byte>>, eb: bool, route: Route, datapath: bool, env: Env)
      modifies this`log
      ensures Ends(log, WifiBuf) == Ends(old(log), WifiBuf) + if eb then 1 else 0
      ensures Ends(log, CopyBuf) == Ends(old(log), CopyBuf)
        + if frame.Some? && eb && route == BothBridge then 1 else 0
      ensures frame.None? || !eb ==> log == old(log) + if eb then [Released(WifiBuf)] else []
      ensures frame.Some? && eb ==>
        match route
        case HostBridge => log == old(log) +
          if datapath then [Put(Handle(ESP_STA_IF, frame.value, false, 0, Some(WifiBuf)), FateIn(env)), Released(WifiBuf)]
          else [Released(WifiBuf)]
        case SlaveBridge => log == old(log) + [ToNetif(WifiBuf)]
        case BothBridge => log == old(log) + [ToNetif(WifiBuf)]
          + [Put(Handle(ESP_STA_IF, frame.value, false, 0, Some(CopyBuf)), FateIn(env)), Released(CopyBuf)]
        case InvalidBridge => log == old(log) + [Released(WifiBuf)]
    {
      if frame.None? || !eb {
        if eb { End(Released(WifiBuf)); }
        return;
      }
      match route
      case HostBridge =>
        if !datapath {
          End(Released(WifiBuf));
          return;
        }
        Forward(Handle(ESP_STA_IF, frame.value, false, 0, Some(WifiBuf)), env);
      case SlaveBridge =>
        End(ToNetif(WifiBuf));
      case BothBridge =>
        var copyBuff := frame.value;
        End(ToNetif(WifiBuf));
        Forward(Handle(ESP_STA_IF, copyBuff, false, 0, Some(CopyBuf)), env);
      case InvalidBridge =>
        End(Released(WifiBuf));
    }

    method End(e: Event)
      modifies this`log
      ensures log == old(log) + [e]
      ensures forall b :: Ends(log, b) == Ends(old(log), b) + if e == Released(b) || e == ToNetif(b) then 1 else 0
    {
      log := log + [e];
      forall b ensures Ends(log, b) == Ends(old(log), b) + if e == Released(b) || e == ToNetif(b) then 1 else 0 {
        EndsSnoc(old(log), e, b);
      }
    }

    /** send_to_host_queue in the bypass build. */
    method Forward(h: Handle, env: Env)
      requires h.release.Some?
      modifies this`log
      ensures log == old(log) + [Put(h, FateIn(env)), Released(h.release.value)]
      ensures forall b :: Ends(log, b) == Ends(old(log), b) + if h.release == Some(b) then 1 else 0
    {
      ProcessTxPkt(h, env);
      var put := Put(h, FateIn(env));
      assert log == old(log) + [put] + [Released(h.release.value)];
      forall b ensures Ends(log, b) == Ends(old(log), b) + if h.release == Some(b) then 1 else 0 {
        EndsSnoc(old(log), put, b);
        EndsSnoc(old(log) + [put], Released(h.release.value), b);
      }
    }
  }
}
