/** Frames on the SDIO bus: the 12-byte payload header, the 16-bit checksum, the sender that
    fills a transmit buffer and the receiver that checks a received one. */
module Frame {
  import opened Wrappers
  import opened Bits

  const HEADER_SIZE: nat := 12
  const BUFFER_SIZE: nat := 1536
  const U16: nat := 0x1_0000
  const FLAG_POWER_SAVE_STARTED: nat := 4
  const FLAG_POWER_SAVE_STOPPED: nat := 8

  type Short = v: nat | v < U16

  /** What sdio_write is given, as far as it reaches the frame. */
  datatype Message = Message(ifType: Byte, ifNum: Byte, flags: Byte, seqNum: Short, payload: seq<Byte>)

  /** What the receiver passes on: type and number in the handle, and the buffer, in which the next
      function reads the flags, the sequence number and the payload. */
  datatype Delivery = Delivery(ifType: nat, ifNum: nat, flags: Byte, seqNum: nat, payload: seq<Byte>)

  datatype Power = SaveOn | SaveOff | Unchanged

  /** The sum of the first n bytes. */
  function Sum(b: seq<Byte>, n: nat): nat
    requires n <= |b|
  {
    if n == 0 then 0 else Sum(b, n - 1) + b[n - 1]
  }

  /** A 16-bit field. */
  function Field(b: seq<Byte>, i: nat): nat
    requires i + 1 < |b|
  {
    Le16(b[i], b[i + 1])
  }

  function Header(m: Message, checksum: Short): (h: seq<Byte>)
    requires |m.payload| < U16
    ensures |h| == HEADER_SIZE
  {
    [m.ifType % 16 + 16 * (m.ifNum % 16), m.flags, |m.payload| % 256, |m.payload| / 256, HEADER_SIZE, 0,
     checksum % 256, checksum / 256, m.seqNum % 256, m.seqNum / 256, 0, 0]
  }

  function Checksum(m: Message): Short
    requires |m.payload| + HEADER_SIZE < U16
  {
    Sum(Header(m, 0) + m.payload, HEADER_SIZE + |m.payload|) % U16
  }

  function Framed(m: Message): (f: seq<Byte>)
    requires |m.payload| + HEADER_SIZE < U16
    ensures |f| == HEADER_SIZE + |m.payload|
  {
    Header(m, Checksum(m)) + m.payload
  }

  /** The buffer with the checksum field cleared. */
  function Cleared(buf: seq<Byte>): (c: seq<Byte>)
    requires |buf| >= HEADER_SIZE
    ensures |c| == |buf|
  {
    buf[6 := 0][7 := 0]
  }

  /** The receiver's length checks. */
  predicate LengthsFit(buf: seq<Byte>, readLen: nat)
    requires |buf| >= HEADER_SIZE
  {
    Field(buf, 2) != 0 && readLen % U16 >= Field(buf, 2) + Field(buf, 4)
  }

  /** The lengths fit and the checksum agrees. */
  predicate Sound(buf: seq<Byte>, readLen: nat)
    requires HEADER_SIZE <= |buf| && readLen <= |buf|
  {
    LengthsFit(buf, readLen) && Sum(Cleared(buf), Field(buf, 2) + Field(buf, 4)) % U16 == Field(buf, 6)
  }

  /** What the receiver makes of readLen received bytes in a buffer. */
  function Check(buf: seq<Byte>, readLen: nat): (r: Option<Delivery>)
    requires HEADER_SIZE <= |buf| && readLen <= |buf|
    ensures r == None <==> !Sound(buf, readLen)
  {
    var len, offset := Field(buf, 2), Field(buf, 4);
    if Sound(buf, readLen)
    then Some(Delivery(buf[0] % 16, buf[0] / 16, buf[1], Field(buf, 8), Cleared(buf)[offset..offset + len]))
    else None
  }

  /** compute_checksum: a 16-bit sum in a loop. */
  method ComputeChecksum(buf: array<Byte>, len: Short) returns (checksum: Short)
    requires len <= buf.Length
    ensures checksum == Sum(buf[..], len) % U16
  {
    checksum := 0;
    var i := 0;
    while i < len
      invariant i <= len && checksum == Sum(buf[..], i) % U16
    {
      checksum := (checksum + buf[i]) % U16;
      i := i + 1;
      assert Sum(buf[..], i) == Sum(buf[..], i - 1) + buf[i - 1];
    }
  }

  /** copy_tx_payload and update_tx_header, in the order sdio_write calls them. */
  method FillFrame(sendbuf: array<Byte>, m: Message)
    requires HEADER_SIZE + |m.payload| <= sendbuf.Length <= BUFFER_SIZE
    modifies sendbuf
    ensures sendbuf[..HEADER_SIZE + |m.payload|] == Framed(m)
    ensures sendbuf[HEADER_SIZE + |m.payload|..] == old(sendbuf[HEADER_SIZE + |m.payload|..])
  {
    CopyTxPayload(sendbuf, m.payload);
    UpdateTxHeader(sendbuf, m);
  }

  method CopyTxPayload(sendbuf: array<Byte>, payload: seq<Byte>)
    requires HEADER_SIZE + |payload| <= sendbuf.Length
    modifies sendbuf
    ensures sendbuf[..HEADER_SIZE] == old(sendbuf[..HEADER_SIZE])
    ensures sendbuf[HEADER_SIZE..HEADER_SIZE + |payload|] == payload
    ensures sendbuf[HEADER_SIZE + |payload|..] == old(sendbuf[HEADER_SIZE + |payload|..])
  {
    forall k | 0 <= k < |payload| {
      sendbuf[HEADER_SIZE + k] := payload[k];
    }
  }

  method UpdateTxHeader(sendbuf: array<Byte>, m: Message)
    requires HEADER_SIZE + |m.payload| <= sendbuf.Length <= BUFFER_SIZE
    requires sendbuf[HEADER_SIZE..HEADER_SIZE + |m.payload|] == m.payload
    modifies sendbuf
    ensures sendbuf[..HEADER_SIZE + |m.payload|] == Framed(m)
    ensures sendbuf[HEADER_SIZE + |m.payload|..] == old(sendbuf[HEADER_SIZE + |m.payload|..])
  {
    InitHeader(sendbuf, m);
    var end := HEADER_SIZE + |m.payload|;
    assert sendbuf[..end] == Header(m, 0) + m.payload;
    var checksum := ComputeChecksum(sendbuf, end);
    SumSame(sendbuf[..], Header(m, 0) + m.payload, end);
    sendbuf[6], sendbuf[7] := checksum % 256, checksum / 256;
    assert sendbuf[..HEADER_SIZE] == Header(m, checksum);
    assert sendbuf[..end] == sendbuf[..HEADER_SIZE] + sendbuf[HEADER_SIZE..end];
  }

  method InitHeader(sendbuf: array<Byte>, m: Message)
    requires HEADER_SIZE + |m.payload| <= sendbuf.Length <= BUFFER_SIZE
    modifies sendbuf
    ensures sendbuf[..HEADER_SIZE] == Header(m, 0)
    ensures sendbuf[HEADER_SIZE..] == old(sendbuf[HEADER_SIZE..])
  {
    sendbuf[0] := m.ifType % 16 + 16 * (m.ifNum % 16);
    sendbuf[1] := m.flags;
    sendbuf[2], sendbuf[3] := |m.payload| % 256, |m.payload| / 256;
    sendbuf[4], sendbuf[5] := HEADER_SIZE, 0;
    sendbuf[6], sendbuf[7] := 0, 0;
    sendbuf[8], sendbuf[9] := m.seqNum % 256, m.seqNum / 256;
    sendbuf[10], sendbuf[11] := 0, 0;
  }

  lemma {:induction false} SumSame(a: seq<Byte>, b: seq<Byte>, n: nat)
    requires n <= |a| && n <= |b| && forall i :: 0 <= i < n ==> a[i] == b[i]
    ensures Sum(a, n) == Sum(b, n)
  {
    if n > 0 { SumSame(a, b, n - 1); }
  }

  /** sdio_rx_task for one received buffer. The checksum field is cleared in place once the
      lengths were accepted; the power-save flags count even in a frame that is dropped. */
  method Receive(buf: array<Byte>, readLen: nat) returns (delivery: Option<Delivery>, power: Power)
    requires buf.Length == BUFFER_SIZE && readLen <= BUFFER_SIZE
    modifies buf
    ensures delivery == Check(old(buf[..]), readLen)
    ensures buf[..] == if LengthsFit(old(buf[..]), readLen) then Cleared(old(buf[..])) else old(buf[..])
    ensures power == var flags := old(buf[1]);
      if flags / 4 % 2 == 1 then SaveOn else if flags / 8 % 2 == 1 then SaveOff else Unchanged
  {
    power := PowerEvent(buf[1]);
    FlagBits(buf[1]);
    var len := Le16(buf[2], buf[3]);
    if len == 0 { return None, power; }
    var offset := Le16(buf[4], buf[5]);
    if readLen % U16 < len + offset { return None, power; }
    var rxChecksum := Le16(buf[6], buf[7]);
    buf[6], buf[7] := 0, 0;
    assert buf[..] == Cleared(old(buf[..]));
    var checksum := ComputeChecksum(buf, len + offset);
    if checksum != rxChecksum { return None, power; }
    delivery := Some(Delivery(buf[0] % 16, buf[0] / 16, buf[1], Le16(buf[8], buf[9]), buf[offset..offset + len]));
  }

  function PowerEvent(flags: Byte): Power {
    if And(flags, FLAG_POWER_SAVE_STARTED) != 0 then SaveOn
    else if And(flags, FLAG_POWER_SAVE_STOPPED) != 0 then SaveOff
    else Unchanged
  }

  /** The two power-save flags are bits 2 and 3. */
  lemma {:induction false} FlagBits(flags: Byte)
    ensures And(flags, FLAG_POWER_SAVE_STARTED) != 0 <==> flags / 4 % 2 == 1
    ensures And(flags, FLAG_POWER_SAVE_STOPPED) != 0 <==> flags / 8 % 2 == 1
  {
    OneBit(flags, 2, 4);
    OneBit(flags, 3, 8);
  }

  lemma {:induction false} OneBit(flags: Byte, k: nat, mask: nat)
    requires (k == 2 && mask == 4) || (k == 3 && mask == 8)
    ensures And(flags, mask) == mask * (flags / mask % 2)
  {
    assert Shl(1, 2) == 4 && Shl(1, 3) == 8 by {
      assert Shl(1, 0) == 1 && Shl(1, 1) == 2;
    }
    AndShifted(flags, 1, k);
    assert Shr(flags, 2) == flags / 4 && Shr(flags, 3) == flags / 8 by {
      assert Shr(flags, 1) == flags / 2 && flags / 2 / 2 == flags / 4 && flags / 4 / 2 == flags / 8;
      assert Shr(flags / 2, 1) == flags / 4 && Shr(flags / 4, 1) == flags / 8;
      assert Shr(flags / 2, 2) == Shr(flags / 4, 1);
    }
    var b := Shr(flags, k);
    assert And(b, 1) == b % 2 by { AndLowMask(b, 1); assert Pow2(1) == 2; }
    ShlIsTimes(b % 2, k);
    assert Pow2(2) == 4 && Pow2(3) == 8;
  }
}
