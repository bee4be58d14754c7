/** Sender and receiver of SDIO frames together: what arrives intact, and exactly which
    single-byte damage the checksum lets through. */
module FrameTheorems {
  import opened Wrappers
  import opened Bits
  import opened Frame

  /** A message whose frame fits the transport buffer and that carries something. */
  predicate Sendable(m: Message) {
    0 < |m.payload| && HEADER_SIZE + |m.payload| <= BUFFER_SIZE
  }

  // ---------- sums ----------

  lemma {:induction false} SumBounds(b: seq<Byte>, lo: nat, hi: nat)
    requires lo <= hi <= |b|
    ensures Sum(b, lo) <= Sum(b, hi) <= Sum(b, lo) + 255 * (hi - lo)
  {
    if lo < hi { SumBounds(b, lo, hi - 1); }
  }

  lemma {:induction false} SumUpdate(b: seq<Byte>, k: nat, v: Byte, n: nat)
    requires k < |b| && n <= |b|
    ensures Sum(b[k := v], n) == Sum(b, n) + if k < n then v - b[k] else 0
  {
    if n > 0 { SumUpdate(b, k, v, n - 1); }
  }

  lemma {:induction false} SumConcat(a: seq<Byte>, p: seq<Byte>, n: nat)
    requires n <= |p|
    ensures Sum(a + p, |a| + n) == Sum(a, |a|) + Sum(p, n)
  {
    if n == 0 {
      SumSame(a + p, a, |a|);
    } else {
      SumConcat(a, p, n - 1);
      assert (a + p)[|a| + n - 1] == p[n - 1];
    }
  }

  lemma ModDiffers(x: nat, y: nat)
    requires x < y < x + U16
    ensures x % U16 != y % U16
  {
  }

  // ---------- the intact frame ----------

  /** Where the fields of a built frame lie. */
  lemma FrameFields(m: Message)
    requires Sendable(m)
    ensures var f := Framed(m);
      && f[0] == m.ifType % 16 + 16 * (m.ifNum % 16) && f[1] == m.flags && Field(f, 8) == m.seqNum
      && Field(f, 2) == |m.payload| && Field(f, 4) == HEADER_SIZE && Field(f, 6) == Checksum(m)
      && f[HEADER_SIZE..] == m.payload && f[4] == HEADER_SIZE && f[5] == f[10] == f[11] == 0
  {
    var f := Framed(m);
    assert forall i :: 0 <= i < HEADER_SIZE ==> f[i] == Header(m, Checksum(m))[i];
  }

  lemma {:induction false} ClearedFrame(m: Message)
    requires Sendable(m)
    ensures Cleared(Framed(m)) == Header(m, 0) + m.payload
    ensures Sum(Cleared(Framed(m)), |Framed(m)|) % U16 == Field(Framed(m), 6)
  {
    FrameFields(m);
    assert Cleared(Framed(m)) == Header(m, 0) + m.payload;
  }

  /** A frame whose length and offset do not reach behind it is judged by its own bytes. */
  lemma {:induction false} OwnBytesDecide(g: seq<Byte>, buf: seq<Byte>, readLen: nat)
    requires HEADER_SIZE <= |g| <= readLen <= |buf| == BUFFER_SIZE && buf[..|g|] == g
    requires Field(g, 2) + Field(g, 4) <= |g|
    ensures Sound(buf, readLen) <==> Sound(g, |g|)
  {
    assert forall i :: 0 <= i < |g| ==> buf[..|g|][i] == buf[i];
    assert Field(buf, 2) == Field(g, 2) && Field(buf, 4) == Field(g, 4) && Field(buf, 6) == Field(g, 6);
    SumSame(Cleared(buf), Cleared(g), Field(g, 2) + Field(g, 4));
  }

  /** Every frame the sender builds is accepted, wherever in a buffer it lies at the front and
      however much more was read, and yields what was sent, flags and sequence number included; interface type and number are
      cut to their four bits. */
  lemma {:induction false} RoundTrip(m: Message, buf: seq<Byte>, readLen: nat)
    requires Sendable(m) && |Framed(m)| <= readLen <= |buf| == BUFFER_SIZE
    requires buf[..|Framed(m)|] == Framed(m)
    ensures Check(buf, readLen) == Some(Delivery(m.ifType % 16, m.ifNum % 16, m.flags, m.seqNum, m.payload))
  {
    var f := Framed(m);
    FrameFields(m);
    ClearedFrame(m);
    OwnBytesDecide(f, buf, readLen);
    assert forall i :: 0 <= i < |f| ==> buf[..|f|][i] == buf[i];
    assert Cleared(buf)[HEADER_SIZE..|f|] == f[HEADER_SIZE..];
  }

  /** A frame without payload is always dropped. */
  lemma EmptyDropped(m: Message, buf: seq<Byte>, readLen: nat)
    requires m.payload == [] && HEADER_SIZE <= readLen <= |buf| == BUFFER_SIZE
    requires buf[..HEADER_SIZE] == Framed(m)
    ensures Check(buf, readLen) == None
  {
    assert buf[2] == Framed(m)[2] && buf[3] == Framed(m)[3];
  }

  // ---------- one damaged byte ----------

  function Length(m: Message): nat { HEADER_SIZE + |m.payload| }

  /** Outside the length and offset fields any change is noticed. */
  lemma {:induction false} SumDamage(m: Message, k: nat, v: Byte)
    requires Sendable(m) && k < Length(m) && k !in {2, 3, 4, 5} && v != Framed(m)[k]
    ensures !Sound(Framed(m)[k := v], Length(m))
  {
    var f := Framed(m);
    FrameFields(m);
    ClearedFrame(m);
    var g := f[k := v];
    if k == 6 || k == 7 {
      assert Cleared(g) == Cleared(f);
      assert Field(g, 6) != Field(f, 6);
    } else {
      assert Cleared(g) == Cleared(f)[k := v] && Cleared(f)[k] == f[k];
      SumUpdate(Cleared(f), k, v, |f|);
      if v < f[k] {
        ModDiffers(Sum(Cleared(g), |f|), Sum(Cleared(f), |f|));
      } else {
        ModDiffers(Sum(Cleared(f), |f|), Sum(Cleared(g), |f|));
      }
    }
  }

  /** Such damage is noticed however much more than the frame was read into the buffer. */
  lemma {:induction false} DamageNoticed(m: Message, buf: seq<Byte>, readLen: nat, k: nat, v: Byte)
    requires Sendable(m) && Length(m) <= readLen <= |buf| == BUFFER_SIZE
    requires k < Length(m) && k !in {2, 3, 4, 5} && v != Framed(m)[k]
    requires buf[..Length(m)] == Framed(m)[k := v]
    ensures Check(buf, readLen) == None
  {
    var g := Framed(m)[k := v];
    FrameFields(m);
    SumDamage(m, k, v);
    assert Field(g, 2) == |m.payload| && Field(g, 4) == HEADER_SIZE;
    OwnBytesDecide(g, buf, readLen);
  }

  /** What a lowered length or offset byte k takes out of the sum of the cleared frame c: its
      own change, and the bytes from n on that are no longer covered. */
  function Missing(c: seq<Byte>, k: nat, v: Byte, n: nat): int
    requires k < |c| && n <= |c|
  {
    Sum(c, |c|) - Sum(c, n) + if k < n then c[k] - v else 0
  }

  /** A frame g with a lowered length or offset byte, n bytes covered, is accepted exactly if what
      is missing is a multiple of 2^16. */
  lemma {:induction false} LoweredField(c: seq<Byte>, g: seq<Byte>, k: nat, v: Byte, n: nat)
    requires HEADER_SIZE <= |g| == |c| < U16 && k < |c| && Cleared(g) == c[k := v]
    requires Sum(c, |c|) % U16 == Field(g, 6)
    requires Field(g, 2) > 0 && Field(g, 2) + Field(g, 4) == n <= |c|
    ensures Sound(g, |g|) <==> Missing(c, k, v, n) % U16 == 0
  {
    SumUpdate(c, k, v, n);
    SameResidue(Sum(c, |c|), Sum(c[k := v], n));
  }

  lemma SameResidue(x: int, y: int)
    ensures x % U16 == y % U16 <==> (x - y) % U16 == 0
  {
  }

  /** What one lowered byte cuts off, when at most 255 bytes, never adds up to a multiple of 2^16. */
  lemma {:induction false} ShortCutNoticed(c: seq<Byte>, k: nat, v: Byte, n: nat)
    requires k < |c| && v < c[k] && n < |c| < n + 256
    ensures 0 < Missing(c, k, v, n) < U16
  {
    SumBounds(c, n, |c|);
    if k >= n {
      SumBounds(c, n, k);
      SumBounds(c, k + 1, |c|);
      assert Sum(c, k + 1) == Sum(c, k) + c[k];
    }
  }

  /** The high length byte is lowered to v: n payload bytes are left, and the cut-off ones
      together with the change of the byte itself add up to a multiple of 2^16. */
  predicate Slips(m: Message, k: nat, v: Byte)
    requires Sendable(m) && k < Length(m)
  {
    && k == 3 && v < |m.payload| / 256
    && var e := |m.payload| / 256 - v;
      && 256 * e < |m.payload|
      && (e + Sum(m.payload, |m.payload|) - Sum(m.payload, |m.payload| - 256 * e)) % U16 == 0
  }

  lemma {:induction false} PayloadTail(header: seq<Byte>, p: seq<Byte>, c: seq<Byte>, n: nat)
    requires n <= |p| && c == header + p
    ensures Sum(c, |c|) - Sum(c, |header| + n) == Sum(p, |p|) - Sum(p, n)
  {
    SumConcat(header, p, |p|);
    SumConcat(header, p, n);
  }

  /** The fields of a frame with byte k lowered. */
  lemma {:induction false} LoweredByte(m: Message, k: nat, v: Byte)
    requires Sendable(m) && 2 <= k <= 4 && v < Framed(m)[k]
    ensures var f := Framed(m);
      var g, c := f[k := v], Cleared(f);
      && Cleared(g) == c[k := v] && c[k] == f[k] && Field(g, 6) == Field(f, 6)
      && Field(g, 2) == |m.payload| - (if k == 2 then f[2] - v else if k == 3 then 256 * (f[3] - v) else 0)
      && Field(g, 4) == (if k == 4 then v else HEADER_SIZE)
      && f[3] == |m.payload| / 256 && f[4] == HEADER_SIZE
  {
    FrameFields(m);
    assert Cleared(Framed(m)[k := v]) == Cleared(Framed(m))[k := v];
    assert Framed(m)[3] == |m.payload| / 256 && Framed(m)[2] == |m.payload| % 256;
  }

  lemma {:induction false} MissingPayload(m: Message, v: Byte)
    requires Sendable(m) && v < |m.payload| / 256 && Framed(m)[3] == |m.payload| / 256
    requires 256 * (|m.payload| / 256 - v) < |m.payload|
    ensures var e := |m.payload| / 256 - v;
      Missing(Cleared(Framed(m)), 3, v, Length(m) - 256 * e)
      == e + Sum(m.payload, |m.payload|) - Sum(m.payload, |m.payload| - 256 * e)
  {
    var c, e := Cleared(Framed(m)), |m.payload| / 256 - v;
    ClearedFrame(m);
    PayloadTail(Header(m, 0), m.payload, c, |m.payload| - 256 * e);
    assert c[3] == Framed(m)[3];
  }

  lemma {:induction false} HighLengthByte(m: Message, v: Byte)
    requires Sendable(m) && v < Framed(m)[3]
    ensures Sound(Framed(m)[3 := v], Length(m)) <==> Slips(m, 3, v)
  {
    LoweredByte(m, 3, v);
    var f, e := Framed(m), |m.payload| / 256 - v;
    if 256 * e < |m.payload| {
      ClearedFrame(m);
      LoweredField(Cleared(f), f[3 := v], 3, v, Length(m) - 256 * e);
      MissingPayload(m, v);
    } else {
      assert Field(f[3 := v], 2) == 0;
    }
  }

  lemma {:induction false} LowByte(m: Message, k: nat, v: Byte)
    requires Sendable(m) && (k == 2 || k == 4) && v < Framed(m)[k]
    ensures !Sound(Framed(m)[k := v], Length(m))
  {
    LoweredByte(m, k, v);
    var f, n := Framed(m), Length(m) - (Framed(m)[k] - v);
    if Field(f[k := v], 2) > 0 {
      ClearedFrame(m);
      ShortCutNoticed(Cleared(f), k, v, n);
      LoweredField(Cleared(f), f[k := v], k, v, n);
    }
  }

  lemma {:induction false} LoweredDamage(m: Message, buf: seq<Byte>, readLen: nat, k: nat, v: Byte)
    requires Sendable(m) && Length(m) <= readLen <= |buf| == BUFFER_SIZE
    requires 2 <= k <= 5 && v < Framed(m)[k] && buf[..Length(m)] == Framed(m)[k := v]
    ensures Sound(buf, readLen) <==> Slips(m, k, v)
  {
    FrameFields(m);
    LoweredByte(m, k, v);
    OwnBytesDecide(Framed(m)[k := v], buf, readLen);
    if k == 3 { HighLengthByte(m, v); } else { LowByte(m, k, v); }
  }

  // ---------- raised lengths: bytes behind the frame are covered too ----------

  /** The bytes behind the frame that a length or offset byte raised by e covers. */
  function Reach(k: nat, e: nat): nat { if k == 2 || k == 4 then e else 256 * e }

  /** The n bytes behind the frame were read, and together with the byte raised by e they add a
      multiple of 2^16 to the sum. */
  predicate Covers(buf: seq<Byte>, from: nat, n: nat, e: nat, readLen: nat)
    requires readLen <= |buf|
  {
    from + n <= readLen && (e + Sum(buf, from + n) - Sum(buf, from)) % U16 == 0
  }

  lemma {:induction false} FewNeverCovered(buf: seq<Byte>, from: nat, n: nat, e: nat, readLen: nat)
    requires readLen <= |buf| && 0 < e < 256 && n <= 256
    ensures !Covers(buf, from, n, e, readLen)
  {
    if from + n <= readLen { SumBounds(buf, from, from + n); }
  }

  lemma {:induction false} RaisedByte(m: Message, buf: seq<Byte>, k: nat, v: Byte)
    requires Sendable(m) && Length(m) <= |buf| == BUFFER_SIZE
    requires 2 <= k <= 5 && v > Framed(m)[k] && buf[..Length(m)] == Framed(m)[k := v]
    ensures Field(buf, 2) > 0 && Field(buf, 6) == Field(Framed(m), 6)
    ensures Field(buf, 2) + Field(buf, 4) == Length(m) + Reach(k, v - Framed(m)[k])
  {
    FrameFields(m);
    assert forall i :: 0 <= i < Length(m) ==> buf[..Length(m)][i] == buf[i];
  }

  lemma {:induction false} ClearedTail(buf: seq<Byte>, from: nat, to: nat)
    requires HEADER_SIZE <= from <= to <= |buf|
    ensures Sum(Cleared(buf), to) - Sum(Cleared(buf), from) == Sum(buf, to) - Sum(buf, from)
  {
    SumUpdate(buf, 6, 0, to);
    SumUpdate(buf, 6, 0, from);
    SumUpdate(buf[6 := 0], 7, 0, to);
    SumUpdate(buf[6 := 0], 7, 0, from);
  }

  lemma {:induction false} RaisedSum(m: Message, buf: seq<Byte>, k: nat, v: Byte)
    requires Sendable(m) && Length(m) <= |buf| == BUFFER_SIZE
    requires 2 <= k <= 5 && v > Framed(m)[k] && buf[..Length(m)] == Framed(m)[k := v]
    ensures Sum(Cleared(buf), Length(m)) == Sum(Cleared(Framed(m)), Length(m)) + v - Framed(m)[k]
  {
    var f := Framed(m);
    var c := Cleared(f);
    assert c[k] == f[k];
    assert forall i :: 0 <= i < |f| ==> buf[..|f|][i] == buf[i];
    SumSame(Cleared(buf), c[k := v], |f|);
    SumUpdate(c, k, v, |f|);
  }

  lemma {:induction false} RaisedField(buf: seq<Byte>, from: nat, n: nat, e: nat, total: nat, readLen: nat)
    requires HEADER_SIZE <= from <= readLen <= |buf| == BUFFER_SIZE
    requires Field(buf, 2) > 0 && Field(buf, 2) + Field(buf, 4) == from + n && Field(buf, 6) == total % U16
    requires Sum(Cleared(buf), from) == total + e
    ensures Sound(buf, readLen) <==> Covers(buf, from, n, e, readLen)
  {
    var to := from + n;
    assert readLen % U16 == readLen;
    assert LengthsFit(buf, readLen) <==> to <= readLen;
    if to <= readLen {
      ClearedTail(buf, from, to);
      var sum := Sum(Cleared(buf), to);
      SameResidue(sum, total);
      assert sum - total == e + Sum(buf, to) - Sum(buf, from);
    }
  }

  /** A raised byte is accepted exactly if what it covers was read and adds a multiple of 2^16. */
  lemma {:induction false} RaisedDamage(m: Message, buf: seq<Byte>, readLen: nat, k: nat, v: Byte)
    requires Sendable(m) && Length(m) <= readLen <= |buf| == BUFFER_SIZE
    requires 2 <= k <= 5 && v > Framed(m)[k] && buf[..Length(m)] == Framed(m)[k := v]
    ensures var e := v - Framed(m)[k];
      Sound(buf, readLen) <==> Covers(buf, Length(m), Reach(k, e), e, readLen)
  {
    RaisedByte(m, buf, k, v);
    ClearedFrame(m);
    RaisedSum(m, buf, k, v);
    var e := v - Framed(m)[k];
    RaisedField(buf, Length(m), Reach(k, e), e, Sum(Cleared(Framed(m)), Length(m)), readLen);
  }

  /** A high length or offset byte is raised, enough bytes were read, and those behind the frame
      that are taken into it sum up unnoticed. */
  predicate LongSlips(m: Message, buf: seq<Byte>, readLen: nat, k: nat, v: Byte)
    requires Sendable(m) && k < Length(m) && readLen <= |buf|
  {
    && (k == 3 || k == 5) && v > Framed(m)[k]
    && var e := v - Framed(m)[k]; Covers(buf, Length(m), 256 * e, e, readLen)
  }

  lemma {:induction false} RaisedExactly(m: Message, buf: seq<Byte>, readLen: nat, k: nat, v: Byte)
    requires Sendable(m) && Length(m) <= readLen <= |buf| == BUFFER_SIZE
    requires 2 <= k <= 5 && v > Framed(m)[k] && buf[..Length(m)] == Framed(m)[k := v]
    ensures Sound(buf, readLen) <==> LongSlips(m, buf, readLen, k, v)
  {
    RaisedDamage(m, buf, readLen, k, v);
    var e := v - Framed(m)[k];
    if k == 2 || k == 4 { FewNeverCovered(buf, Length(m), e, e, readLen); }
  }

  /** One damaged byte, anywhere in a frame at the front of a buffer of which at least the frame
      was read, makes the receiver drop it, except in three cases: the high length byte lowered so
      that the cut-off bytes sum up unnoticed, or the high length or the high offset byte raised
      so that bytes read behind the frame do. */
  lemma {:induction false} OneByteDamage(m: Message, buf: seq<Byte>, readLen: nat, k: nat, v: Byte)
    requires Sendable(m) && Length(m) <= readLen <= |buf| == BUFFER_SIZE
    requires k < Length(m) && v != Framed(m)[k] && buf[..Length(m)] == Framed(m)[k := v]
    ensures Check(buf, readLen) == None <==> !Slips(m, k, v) && !LongSlips(m, buf, readLen, k, v)
  {
    if k < 2 || 5 < k {
      DamageNoticed(m, buf, readLen, k, v);
    } else if v < Framed(m)[k] {
      LoweredDamage(m, buf, readLen, k, v);
    } else {
      RaisedExactly(m, buf, readLen, k, v);
    }
  }

  lemma {:induction false} FewNeverSlip(m: Message, k: nat, v: Byte)
    requires Sendable(m) && k < Length(m) && (k != 3 || |m.payload| <= 512)
    ensures !Slips(m, k, v)
  {
    if k == 3 && v < |m.payload| / 256 && 256 * (|m.payload| / 256 - v) < |m.payload| {
      SumBounds(m.payload, |m.payload| - 256, |m.payload|);
    }
  }

  lemma {:induction false} FewNeverLongSlip(m: Message, buf: seq<Byte>, readLen: nat, k: nat, v: Byte)
    requires Sendable(m) && k < Length(m) && readLen <= |buf|
    requires k >= HEADER_SIZE || readLen < Length(m) + 512
    ensures !LongSlips(m, buf, readLen, k, v)
  {
    if k < HEADER_SIZE && v > Framed(m)[k] {
      if v == Framed(m)[k] + 1 { FewNeverCovered(buf, Length(m), 256, 1, readLen); }
    }
  }

  /** In particular any one changed payload byte, and any one changed byte of a frame with at
      most 512 bytes of payload behind which less than 512 bytes were read. */
  lemma {:induction false} PayloadAndShortFramesSafe(m: Message, buf: seq<Byte>, readLen: nat, k: nat, v: Byte)
    requires Sendable(m) && Length(m) <= readLen <= |buf| == BUFFER_SIZE
    requires k < Length(m) && v != Framed(m)[k] && buf[..Length(m)] == Framed(m)[k := v]
    requires k >= HEADER_SIZE || (|m.payload| <= 512 && readLen < Length(m) + 512)
    ensures Check(buf, readLen) == None
  {
    OneByteDamage(m, buf, readLen, k, v);
    FewNeverSlip(m, k, v);
    FewNeverLongSlip(m, buf, readLen, k, v);
  }

  // ---------- the exception occurs ----------

  lemma {:induction false} SumConstant(b: seq<Byte>, c: Byte, lo: nat, hi: nat)
    requires lo <= hi <= |b| && forall i :: lo <= i < hi ==> b[i] == c
    ensures Sum(b, hi) == Sum(b, lo) + c * (hi - lo)
  {
    if lo < hi { SumConstant(b, c, lo, hi - 1); }
  }

  /** What a frame with a lowered high length byte yields if it is accepted. */
  lemma {:induction false} Truncated(m: Message, v: Byte)
    requires Sendable(m) && v < Framed(m)[3] && Sound(Framed(m)[3 := v], Length(m))
    ensures var n := |m.payload| - 256 * (|m.payload| / 256 - v);
      0 < n && Check(Framed(m)[3 := v], Length(m)) == Some(Delivery(m.ifType % 16, m.ifNum % 16, m.flags, m.seqNum, m.payload[..n]))
  {
    LoweredByte(m, 3, v);
    var f, n := Framed(m), |m.payload| - 256 * (|m.payload| / 256 - v);
    assert f[3 := v][0] == Header(m, Checksum(m))[0];
    PayloadKept(Header(m, Checksum(m)), m.payload, v, n);
  }

  lemma {:induction false} PayloadKept(header: seq<Byte>, p: seq<Byte>, v: Byte, n: nat)
    requires |header| == HEADER_SIZE && n <= |p|
    ensures Cleared((header + p)[3 := v])[HEADER_SIZE..HEADER_SIZE + n] == p[..n]
  {
  }

  /** 1024 bytes of payload of which the last 512 add up to 65534: with the high length byte
      changed from 4 to 2 the receiver accepts the first half as the whole. */
  lemma {:induction false} TruncationSlips(m: Message)
    requires m.ifType == 1 && m.ifNum == 0 && |m.payload| == 1024
    requires forall i :: 512 <= i < 1024 ==> m.payload[i] == if i < 1023 then 128 else 126
    ensures Framed(m)[3] == 4
    ensures Check(Framed(m)[3 := 2], Length(m)) == Some(Delivery(1, 0, m.flags, m.seqNum, m.payload[..512]))
  {
    var p := m.payload;
    assert Sum(p, 1024) - Sum(p, 512) == 65534 by {
      SumConstant(p, 128, 512, 1023);
      assert Sum(p, 1024) == Sum(p, 1023) + p[1023];
    }
    assert Framed(m)[3] == Header(m, Checksum(m))[3];
    HighLengthByte(m, 2);
    Truncated(m, 2);
  }

  /** Four bytes of payload in a buffer read to its end, of which the 512 bytes behind the frame
      add up to 65534: with the high length byte changed from 0 to 2 the receiver accepts them as
      part of the payload. */
  lemma {:induction false} ExtensionSlips(m: Message, buf: seq<Byte>)
    requires Sendable(m) && |m.payload| == 4 && |buf| == BUFFER_SIZE
    requires buf[..16] == Framed(m)[3 := 2]
    requires forall i :: 16 <= i < 528 ==> buf[i] == if i < 527 then 128 else 126
    ensures Framed(m)[3] == 0
    ensures Check(buf, BUFFER_SIZE) != None && |Check(buf, BUFFER_SIZE).value.payload| == 516
  {
    assert Framed(m)[3] == Header(m, Checksum(m))[3];
    assert Sum(buf, 528) - Sum(buf, 16) == 65534 by {
      SumConstant(buf, 128, 16, 527);
      assert Sum(buf, 528) == Sum(buf, 527) + buf[527];
    }
    OneByteDamage(m, buf, BUFFER_SIZE, 3, 2);
    FrameFields(m);
    assert buf[2] == buf[..16][2] && buf[3] == buf[..16][3];
    assert Field(Framed(m), 2) == 4;
  }
}
