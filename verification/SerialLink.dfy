/** A reply on its whole way: composed, fragmented, put into frames, received, joined and parsed. */
module SerialLink {
  import opened Bits
  import opened Wrappers
  import Coprocessor
  import opened Frame
  import FrameTheorems
  import Tlv

  const MORE_FRAGMENT: nat := 1
  const FLAG_WAKEUP_PKT: nat := 2

  /** The frame of a fragment: interface number 0, and the flag of a packet that woke the host if
      it is marked so. */
  function AsMessage(h: Coprocessor.Handle, marked: bool): Message
    requires h.seqNum < U16 && h.ifType < 16
  {
    var flags := if h.more then MORE_FRAGMENT else 0;
    Message(h.ifType, 0, if marked then Or(flags, FLAG_WAKEUP_PKT) else flags, h.seqNum, h.payload)
  }

  /** d is what arrives of fragment h in some buffer. */
  ghost predicate Arrives(h: Coprocessor.Handle, marked: bool, buf: seq<Byte>, readLen: nat, d: Delivery) {
    && |buf| == BUFFER_SIZE && readLen <= |buf| && h.seqNum < U16 && h.ifType < 16
    && 0 < |h.payload| <= BUFFER_SIZE - HEADER_SIZE
    && |Framed(AsMessage(h, marked))| <= readLen && buf[..|Framed(AsMessage(h, marked))|] == Framed(AsMessage(h, marked))
    && Check(buf, readLen) == Some(d)
  }

  predicate HasMore(d: Delivery) { And(d.flags, MORE_FRAGMENT) != 0 }

  lemma MoreFlag(flags: Byte)
    ensures And(flags, MORE_FRAGMENT) == flags % 2
  {
    assert Pow2(1) == 2;
    AndLowMask(flags, 1);
  }

  /** A fragment arrives with its interface type, its payload, its sequence number and its
      MORE_FRAGMENT. */
  lemma FragmentArrives(h: Coprocessor.Handle, marked: bool, buf: seq<Byte>, readLen: nat, d: Delivery)
    requires Arrives(h, marked, buf, readLen, d)
    ensures d.ifType == h.ifType && d.ifNum == 0 && d.payload == h.payload && d.seqNum == h.seqNum
    ensures HasMore(d) <==> h.more
    ensures d.flags == (if h.more then 1 else 0) + if marked then 2 else 0
  {
    assert Or(1, 2) == 3;
    FrameTheorems.RoundTrip(AsMessage(h, marked), buf, readLen);
    MoreFlag(d.flags);
  }

  /** The receiver's message: payloads joined up to the first frame without MORE_FRAGMENT. */
  function Received(ds: seq<Delivery>, k: nat): seq<Byte>
    requires k <= |ds|
    decreases |ds| - k
  {
    if k == |ds| then [] else if HasMore(ds[k]) then ds[k].payload + Received(ds, k + 1) else ds[k].payload
  }

  ghost predicate AllArrive(
    frames: seq<Coprocessor.Handle>, marks: seq<bool>, bufs: seq<seq<Byte>>, readLens: seq<nat>, ds: seq<Delivery>)
  {
    && |frames| == |marks| == |bufs| == |readLens| == |ds|
    && forall i :: 0 <= i < |frames| ==> Arrives(frames[i], marks[i], bufs[i], readLens[i], ds[i])
  }

  lemma {:induction false} ReceivedFrom(frames: seq<Coprocessor.Handle>, ds: seq<Delivery>, k: nat)
    requires |ds| == |frames| && k <= |frames|
    requires forall i :: 0 <= i < |ds| ==> ds[i].payload == frames[i].payload && (HasMore(ds[i]) <==> i < |ds| - 1)
    ensures Coprocessor.Joined(frames, k) + Received(ds, k) == Coprocessor.Joined(frames, |frames|)
    decreases |frames| - k
  {
    if k < |frames| {
      ReceivedFrom(frames, ds, k + 1);
      Grouped(Coprocessor.Joined(frames, k), ds[k].payload, Received(ds, k + 1));
    }
  }

  lemma Grouped(a: seq<Byte>, b: seq<Byte>, c: seq<Byte>)
    ensures a + b + c == a + (b + c)
  {
  }

  /** A reply that was composed, fragmented and framed, whose frames all arrive, in whatever buffers,
      is parsed from what the receiver joined by the flags; the sequence numbers go up by one. */
  lemma {:induction false} ReplyArrives(
    name: seq<Byte>, payload: seq<Byte>, frames: seq<Coprocessor.Handle>, seqNum: nat,
    marks: seq<bool>, bufs: seq<seq<Byte>>, readLens: seq<nat>, ds: seq<Delivery>)
    requires 0 !in name && 1 <= |name| <= 14 && 1 <= |payload| <= 0xFFFF
    requires Coprocessor.IsFragmentation(frames, Tlv.Composed(name, payload), seqNum)
    requires AllArrive(frames, marks, bufs, readLens, ds)
    ensures Tlv.Parse(Received(ds, 0)) == Tlv.Parsed(name, payload)
    ensures forall i :: 0 <= i < |ds| ==> ds[i].ifType == 3 && ds[i].seqNum == (seqNum + 1 + i) % 0x1_0000
  {
    Coprocessor.FragmentsJoin(frames, Tlv.Composed(name, payload), seqNum);
    forall i | 0 <= i < |ds|
      ensures ds[i].payload == frames[i].payload && (HasMore(ds[i]) <==> i < |ds| - 1)
      ensures ds[i].ifType == 3 && ds[i].seqNum == (seqNum + 1 + i) % 0x1_0000
    {
      FragmentArrives(frames[i], marks[i], bufs[i], readLens[i], ds[i]);
    }
    ReceivedFrom(frames, ds, 0);
    assert Coprocessor.Joined(frames, 0) + Received(ds, 0) == Received(ds, 0);
    Tlv.RoundTrip(name, payload);
  }

  /** And every fragment of a message fits a frame and is accepted wherever it is put. */
  lemma {:induction false} FragmentsFit(frames: seq<Coprocessor.Handle>, data: seq<Byte>, seqNum: nat, i: nat, marked: bool)
    requires Coprocessor.IsFragmentation(frames, data, seqNum) && |data| > 0 && i < |frames|
    ensures frames[i].seqNum < U16 && frames[i].ifType < 16 && FrameTheorems.Sendable(AsMessage(frames[i], marked))
    ensures forall buf, readLen: nat ::
      |buf| == BUFFER_SIZE && readLen <= |buf| && |Framed(AsMessage(frames[i], marked))| <= readLen
      && buf[..|Framed(AsMessage(frames[i], marked))|] == Framed(AsMessage(frames[i], marked)) ==>
        Check(buf, readLen) != None
  {
    Coprocessor.FragmentsJoin(frames, data, seqNum);
    var m := AsMessage(frames[i], marked);
    forall buf: seq<Byte>, readLen: nat
      | |buf| == BUFFER_SIZE && readLen <= |buf| && |Framed(m)| <= readLen && buf[..|Framed(m)|] == Framed(m)
      ensures Check(buf, readLen) != None
    {
      FrameTheorems.RoundTrip(m, buf, readLen);
    }
  }
}
