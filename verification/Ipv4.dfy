/** ipv4_addr_aton, ipv4_addr_ntoa and get_ipaddr_from_str of util.c, statement by
    statement, against Ipv4Spec. */
module Ipv4 {
  import opened Bits
  import opened Wrappers
  import opened Ipv4Spec
  import Ipv4Theorems

  /** ipv4_addr_aton: the address is stored in network order. */
  method AddrAton(s: Text) returns (ok: bool, ip: Word)
    ensures ok == Parse(s).Some?
    ensures ok ==> ip == HtonLong(Parse(s).value)
  {
    ip := 0;
    var parts, val;
    ok, parts, val := ParseParts(s);
    if !ok { return; }
    ok, val := Finish(parts, val);
    if ok {
      HtonInvolution(val);
      ip := HtonLong(val);
    }
  }

  /** The parsing loop of ipv4_addr_aton and the check of the character behind it. */
  method ParseParts(s: Text) returns (ok: bool, parts: seq<Word>, val: Word)
    ensures ok == ParseFrom(s, 0, []).Some?
    ensures ok ==> Leading(parts) && parts + [val] == ParseFrom(s, 0, []).value
  {
    var cp: nat := 0;
    parts, val := [], 0;
    while true
      invariant Leading(parts) && cp <= |s|
      invariant ParseFrom(s, 0, []) == ParseFrom(s, cp, parts)
      decreases 3 - |parts|
    {
      val, cp := CollectNumber(s, cp);
      if At(s, cp) == '.' {
        if |parts| >= 3 || val > 0xff {
          return false, parts, val;
        }
        parts, cp := parts + [val], cp + 1;
      } else {
        break;
      }
    }
    ok := !(At(s, cp) != '\0' && !IsSpace(At(s, cp)));
  }

  /** Collect a number up to the first character that is no digit of its base. */
  method CollectNumber(s: Text, start: nat) returns (val: Word, cp: nat)
    requires start <= |s|
    ensures ScanNumeral(s, start) == (val, cp)
  {
    cp := start;
    var base := Decimal;
    val := 0;
    if At(s, cp) == '0' {
      cp := cp + 1;
      if At(s, cp) == 'x' || At(s, cp) == 'X' {
        base := Hex;
        cp := cp + 1;
      } else {
        base := Octal;
      }
    }
    while At(s, cp) != '\0'
      invariant start <= cp <= |s|
      invariant ScanNumeral(s, start) == ScanDigits(s, cp, base, val)
      decreases |s| - cp
    {
      var c := At(s, cp);
      if IsDigit(c) {
        val := Wrap(Times(base, val) + DigitVal(c));
        cp := cp + 1;
        continue;
      }
      if base == Hex && IsXDigit(c) {
        val := Wrap(16 * val + DigitVal(c));
        cp := cp + 1;
        continue;
      }
      break;
    }
  }

  /** The switch on the number of parts behind the parsing loop. */
  method Finish(parts: seq<Word>, last: Word) returns (ok: bool, val: Word)
    requires Leading(parts)
    ensures ok == Assemble(parts + [last]).Some?
    ensures ok ==> val == Assemble(parts + [last]).value
  {
    val := last;
    var n := |parts| + 1;
    Powers();
    ghost var whole := Assemble(parts + [last]);
    if n == 2 {
      if last > 0xffffff { return false, val; }
      val := Or(val, Shl(parts[0], 24));
    } else if n == 3 {
      if last > 0xffff { return false, val; }
      val := Or(val, Or(Shl(parts[0], 24), Shl(parts[1], 16)));
    } else if n == 4 {
      if last > 0xff { return false, val; }
      val := Or(val, Or(Or(Shl(parts[0], 24), Shl(parts[1], 16)), Shl(parts[2], 8)));
    }
    ok := true;
  }

  /** get_ipaddr_from_str: swaps back what ipv4_addr_aton stored. */
  method GetIpaddrFromStr(s: Text) returns (ok: bool, ip: Word)
    ensures ok == Parse(s).Some?
    ensures ok ==> ip == Parse(s).value
  {
    ip := 0;
    var r, nw := AddrAton(s);
    if !r { return false, ip; }
    HtonInvolution(Parse(s).value);
    return true, HtonLong(nw);
  }

  /** ipv4_addr_ntoa: `addr` in host order is swapped and printed byte by byte as it lies in
      memory, little-endian. False stands for NULL. */
  method AddrNtoa(addr: Word, buf: array<char>, buflen: int) returns (ok: bool)
    requires buflen <= buf.Length
    modifies buf
    ensures ok <==> |Quad(addr)| + 1 <= buflen
    ensures ok ==> Shows(old(buf[..]), buf[..], Quad(addr) + ['\0'], |Quad(addr)| + 1)
    ensures !ok && buflen >= 0 ==> Shows(old(buf[..]), buf[..], Quad(addr) + ".", buflen)
    ensures buflen < 0 ==> buf[..] == old(buf[..])
  {
    var ap := InMemory(addr);
    DottedQuad(addr);
    var rp;
    ok, rp := PrintBytes(ap, buf, buflen);
    if ok {
      rp := rp - 1;
      buf[rp] := '\0';
    }
  }

  /** The buffer `now` shows the first n characters of the text, and is as before behind. */
  ghost predicate Shows(was: Text, now: Text, text: Text, n: nat) {
    && |now| == |was| && n <= |was| && n <= |text|
    && forall k :: 0 <= k < |was| ==> now[k] == if k < n then text[k] else was[k]
  }

  /** What ipv4_addr_ntoa left in a buffer reads back as the address, whatever the buffer
      held before. */
  lemma PrintedReadsBack(x: Word, was: Text, now: Text)
    requires Shows(was, now, Quad(x) + ['\0'], |Quad(x)| + 1)
    ensures Parse(now) == Some(x)
  {
    var t := Quad(x) + ['\0'];
    assert now == t + now[|t|..];
    Ipv4Theorems.RoundTrip(x, now[|t|..]);
  }

  /** The loop over the bytes; rp is where it stopped. */
  method PrintBytes(ap: seq<nat>, buf: array<char>, buflen: int) returns (ok: bool, rp: nat)
    requires ap != [] && forall k :: 0 <= k < |ap| ==> ap[k] < 256
    requires buflen <= buf.Length
    modifies buf
    ensures ok <==> |Dotted(ap)| <= buflen
    ensures ok ==> rp == |Dotted(ap)| > 0 && Shows(old(buf[..]), buf[..], Dotted(ap), rp)
    ensures !ok && buflen >= 0 ==> Shows(old(buf[..]), buf[..], Dotted(ap), buflen)
    ensures buflen < 0 ==> buf[..] == old(buf[..])
  {
    ghost var full := Dotted(ap);
    rp := 0;
    var n: nat := 0;
    assert ap[0..] == ap;
    while n < |ap|
      invariant 0 <= n <= |ap| && rp <= |full| && (rp == 0 || rp <= buflen)
      invariant full[rp..] == Dotted(ap[n..])
      invariant Shows(old(buf[..]), buf[..], full, rp)
      invariant if n == 0 then rp == 0 && buf[..] == old(buf[..]) else rp > 0
    {
      assert ap[n..][1..] == ap[n + 1..];
      ghost var text := Dec(ap[n]) + ".";
      Follows(full, rp, text, Dotted(ap[n + 1..]));
      ok, rp := PrintByte(ap[n], buf, rp, buflen, full, old(buf[..]));
      if !ok {
        return;
      }
      n := n + 1;
    }
    ok := true;
  }

  lemma Follows(full: Text, rp: nat, text: Text, tail: Text)
    requires rp <= |full| && full[rp..] == text + tail
    ensures rp + |text| <= |full| && full[rp + |text|..] == tail
    ensures forall j :: 0 <= j < |text| ==> full[rp + j] == text[j]
  {
    assert forall j :: 0 <= j < |text| ==> full[rp + j] == full[rp..][j];
    assert full[rp + |text|..] == full[rp..][|text|..];
  }

  /** The bytes of the swapped address as they lie in little-endian memory. */
  method InMemory(addr: Word) returns (ap: seq<nat>)
    ensures ap == Bytes(addr)
  {
    HtonInvolution(addr);
    var nw: Word := HtonLong(addr);
    ap := [nw % 0x100, nw / 0x100 % 0x100, nw / 0x100 / 0x100 % 0x100, nw / 0x100 / 0x100 / 0x100];
    HtonReverses(addr);
    ghost var bs := Bytes(addr);
    BytesOf(bs[3], bs[2], bs[1], bs[0]);
  }

  /** One round of the printing loop: the digits of a byte and a dot. It stops at the first
      character that does not fit. */
  method PrintByte(b: nat, buf: array<char>, start: nat, buflen: int, ghost full: Text, ghost was: Text)
    returns (ok: bool, rp: nat)
    requires b < 256 && buflen <= buf.Length && (start == 0 || start <= buflen)
    requires var text := Dec(b) + ".";
      start + |text| <= |full| && forall j :: 0 <= j < |text| ==> full[start + j] == text[j]
    requires Shows(was, buf[..], full, start)
    modifies buf
    ensures ok <==> start + |Dec(b)| + 1 <= buflen
    ensures ok ==> rp == start + |Dec(b)| + 1 && Shows(was, buf[..], full, rp)
    ensures !ok && buflen >= 0 ==> Shows(was, buf[..], full, buflen)
    ensures buflen < 0 ==> buf[..] == old(buf[..])
  {
    var inv := Digits(b);
    var i := |inv|;
    DigitsShown(b, inv, full, start);
    rp := start;
    while i > 0
      invariant 0 <= i <= |inv| && rp == start + |inv| - i && (rp == 0 || rp <= buflen)
      invariant Shows(was, buf[..], full, rp)
      invariant buflen < 0 ==> buf[..] == old(buf[..])
    {
      i := i - 1;
      if rp >= buflen {
        return false, rp;
      }
      buf[rp] := inv[i];
      rp := rp + 1;
    }
    if rp >= buflen {
      return false, rp;
    }
    buf[rp] := '.';
    rp := rp + 1;
    ok := true;
  }

  /** The digits in reverse are what the text shows from `start` on. */
  lemma {:induction false} DigitsShown(b: nat, inv: Text, full: Text, start: nat)
    requires Reverse(inv) == Dec(b)
    requires var text := Dec(b) + ".";
      start + |text| <= |full| && forall j :: 0 <= j < |text| ==> full[start + j] == text[j]
    ensures start + |inv| < |full| && full[start + |inv|] == '.'
    ensures forall k :: 0 <= k < |inv| ==> inv[k] == full[start + (|inv| - 1 - k)]
  {
    var text := Dec(b) + ".";
    ReverseAt(inv);
    assert text[|inv|] == '.';
    forall k | 0 <= k < |inv| ensures inv[k] == full[start + (|inv| - 1 - k)] {
      assert Reverse(inv)[|inv| - 1 - k] == inv[k];
      assert text[|inv| - 1 - k] == inv[k];
    }
  }

  /** The digit loop: the last digit of b comes first. */
  method Digits(b: nat) returns (digits: Text)
    requires b < 256
    ensures |digits| <= 3 && Reverse(digits) == Dec(b)
  {
    var inv := new char[3](_ => '0');
    var i: nat, ap: nat := 0, b;
    while true
      invariant 0 <= i <= 2 && ap < (if i == 0 then 256 else if i == 1 then 26 else 3)
      invariant i > 0 ==> ap > 0
      invariant Dec(b) == Dec(ap) + Reverse(inv[..i])
      decreases ap
    {
      var rem := ap % 10;
      ghost var before := inv[..i];
      inv[i] := ('0' as int + rem) as char;
      assert inv[..i + 1] == before + [inv[i]];
      ap := ap / 10;
      i := i + 1;
      if ap == 0 { break; }
    }
    digits := inv[..i];
  }

  lemma {:induction false} ReverseAt(s: Text)
    ensures forall j :: 0 <= j < |s| ==> Reverse(s)[j] == s[|s| - 1 - j]
  {
    if s != [] { ReverseAt(s[..|s| - 1]); }
  }
}
