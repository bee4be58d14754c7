/** The reassembly buffer `r` of esp_hosted_coprocessor.c: process_serial_rx_pkt fills it,
    serial_read_data copies it out and clears it. */
module Reassembly {
  import opened Bits

  const R_SIZE: nat := 8192

  /** A serial packet from the host; its bytes are only moved, never looked at. */
  datatype Frag<T> = Frag(seqNum: nat, more: bool, payload: seq<T>)

  /** The value of `r`: data is r.data[..r.len]. */
  datatype RxBuf<T> = RxBuf(valid: bool, seqNum: nat, data: seq<T>)

  function Min(a: nat, b: nat): nat { if a < b then a else b }

  /** The part of the packet that is taken when `room` bytes were free at its arrival. */
  function Taken<T>(f: Frag<T>, room: nat): seq<T> { f.payload[..Min(|f.payload|, room)] }

  /** A packet that is not dropped continues the sequence of a non-empty buffer. */
  predicate Continues<T>(r: RxBuf<T>, f: Frag<T>) { |r.data| == 0 || f.seqNum == r.seqNum }

  /** r behind the wait loop and the rest of process_serial_rx_pkt. */
  function Accept<T>(r: RxBuf<T>, f: Frag<T>, room: nat): RxBuf<T> {
    if Continues(r, f) then RxBuf(r.valid || !f.more, f.seqNum, r.data + Taken(f, room))
    else r.(valid := true)
  }

  /** Whether the buffer is handed on: the last fragment came, or one of another sequence,
      which is dropped. */
  predicate HandsOn<T>(r: RxBuf<T>, f: Frag<T>) { !Continues(r, f) || !f.more }

  class RxData {
    var valid: bool
    var curSeqNo: nat
    var len: nat
    var data: array<Byte>

    constructor ()
      ensures Valid() && fresh(data) && Abs() == RxBuf(false, 0, [])
    {
      valid, curSeqNo, len := false, 0, 0;
      data := new Byte[R_SIZE](_ => 0);
    }

    ghost predicate Valid()
      reads this
    {
      data.Length == R_SIZE && len <= R_SIZE
    }

    ghost function Abs(): RxBuf<Byte>
      requires Valid()
      reads this, data
    {
      RxBuf(valid, curSeqNo, data[..len])
    }

    /** The entry of process_serial_rx_pkt: the free room is read before the wait loop. */
    method Arrive() returns (remBuffSize: nat)
      requires Valid()
      ensures remBuffSize == R_SIZE - |Abs().data|
    {
      remBuffSize := data.Length - len;
    }

    /** The code behind the wait loop, entered once r.valid is clear; handOn tells that
        parse_protobuf_req is called. The room may be older than the buffer, but then the
        buffer has only shrunk. */
    method Continue(f: Frag<Byte>, remBuffSize: nat) returns (handOn: bool)
      requires Valid() && !valid && remBuffSize <= R_SIZE - |Abs().data|
      modifies this`valid, this`curSeqNo, this`len, data
      ensures Valid() && Abs() == Accept(old(Abs()), f, remBuffSize)
      ensures handOn == HandsOn(old(Abs()), f)
      ensures handOn == valid
    {
      if len == 0 {
        curSeqNo := f.seqNum;
      }
      if f.seqNum != curSeqNo {
        valid := true;
        return true;
      }
      var n := if |f.payload| < remBuffSize then |f.payload| else remBuffSize;
      var k := 0;
      while k < n
        invariant 0 <= k <= n && len == old(len) && !valid && curSeqNo == f.seqNum
        invariant forall j :: 0 <= j < len ==> data[j] == old(data[j])
        invariant forall j :: len <= j < len + k ==> data[j] == f.payload[j - len]
      {
        data[len + k] := f.payload[k];
        k := k + 1;
      }
      assert data[..len + n] == old(data[..len]) + f.payload[..n];
      len := len + n;
      handOn := false;
      if !f.more {
        valid := true;
        handOn := true;
      }
    }

    /** serial_read_data: at most `want` bytes are copied to the caller's buffer; the
        buffer is emptied when it was valid. */
    method SerialReadData(dst: array<Byte>, want: nat) returns (n: nat)
      requires Valid() && want <= dst.Length && dst != data
      modifies this`valid, this`curSeqNo, this`len, dst
      ensures Valid() && n == Min(want, old(len))
      ensures Abs() == if old(valid) then RxBuf(false, 0, []) else old(Abs())
      ensures dst[..] == if old(valid) then old(data[..n]) + old(dst[n..]) else old(dst[..])
    {
      n := if want < len then want else len;
      if valid {
        var k := 0;
        while k < n
          invariant 0 <= k <= n
          invariant valid && curSeqNo == old(curSeqNo) && len == old(len) && data[..] == old(data[..])
          invariant forall j :: 0 <= j < dst.Length ==> dst[j] == if j < k then data[j] else old(dst[j])
        {
          dst[k] := data[k];
          k := k + 1;
        }
        valid, len, curSeqNo := false, 0, 0;
      }
    }
  }
}
