/** What the IPv4 parser and printer of util.c compute, and the byte swap between them. */
module Ipv4Spec {
  import opened Bits
  import opened Wrappers

  type Text = seq<char>

  // ---------- characters ----------

  predicate IsXDigit(c: char) { IsDigit(c) || 'a' <= c <= 'f' || 'A' <= c <= 'F' }

  predicate IsSpace(c: char) { c == ' ' || '\t' <= c <= '\r' }

  function DigitVal(c: char): (v: nat)
    requires IsXDigit(c)
    ensures v < 16
  {
    if IsDigit(c) then (c as int) - ('0' as int)
    else if 'a' <= c <= 'f' then (c as int) - ('a' as int) + 10
    else (c as int) - ('A' as int) + 10
  }

  datatype Base = Octal | Decimal | Hex

  /** v times the base. */
  function Times(base: Base, v: nat): nat {
    match base
    case Octal => 8 * v
    case Decimal => 10 * v
    case Hex => 16 * v
  }

  /** The digits a numeral of the base may have: 8 and 9 pass in octal. */
  predicate IsDigitOf(c: char, base: Base) { IsDigit(c) || (base == Hex && IsXDigit(c)) }

  /** `*cp` for a C string: NUL from the end on. */
  function At(s: Text, i: nat): char { if i < |s| then s[i] else '\0' }

  // ---------- the parser ----------

  /** Collecting digits from position i in a 32-bit word: the value and where it stops. */
  function ScanDigits(s: Text, i: nat, base: Base, val: Word): (r: (Word, nat))
    requires i <= |s|
    ensures i <= r.1 <= |s|
    decreases |s| - i
  {
    if i < |s| && IsDigitOf(s[i], base)
    then ScanDigits(s, i + 1, base, Wrap(Times(base, val) + DigitVal(s[i])))
    else (val, i)
  }

  function ScanNumeral(s: Text, i: nat): (r: (Word, nat))
    requires i <= |s|
    ensures i <= r.1 <= |s|
  {
    if At(s, i) != '0' then ScanDigits(s, i, Decimal, 0)
    else if At(s, i + 1) == 'x' || At(s, i + 1) == 'X' then ScanDigits(s, i + 2, Hex, 0)
    else ScanDigits(s, i + 1, Octal, 0)
  }

  predicate EndsAt(s: Text, i: nat) { At(s, i) == '\0' || IsSpace(At(s, i)) }

  /** All of these are bytes, and a further part may follow them. */
  predicate Leading(parts: seq<nat>) { |parts| <= 3 && forall k :: 0 <= k < |parts| ==> parts[k] <= 0xff }

  /** One to four words of which all but the last are bytes. */
  predicate Parts(ws: seq<nat>) {
    1 <= |ws| <= 4 && forall k :: 0 <= k < |ws| - 1 ==> ws[k] <= 0xff
  }

  /** The numbers from position i, the start of a numeral, up to NUL or a white space;
      `parts` are the ones before it. */
  function ParseFrom(s: Text, i: nat, parts: seq<Word>): (r: Option<seq<Word>>)
    requires i <= |s| && Leading(parts)
    ensures r.Some? ==> Parts(r.value)
    decreases 3 - |parts|
  {
    var (val, e) := ScanNumeral(s, i);
    if At(s, e) == '.' then
      if |parts| >= 3 || val > 0xff then None else ParseFrom(s, e + 1, parts + [val])
    else if !EndsAt(s, e) then None
    else Some(parts + [val])
  }

  /** The bits the last of n parts may use. */
  function LastBits(n: nat): nat
    requires 1 <= n <= 4
  {
    8 * (5 - n)
  }

  /** `val |= parts[0] << 24 ...`, the last word being val. */
  function Concoct(ws: seq<nat>): nat
    requires 1 <= |ws| <= 4
  {
    match |ws|
    case 1 => ws[0]
    case 2 => Or(ws[1], Shl(ws[0], 24))
    case 3 => Or(ws[2], Or(Shl(ws[0], 24), Shl(ws[1], 16)))
    case _ => Or(ws[3], Or(Or(Shl(ws[0], 24), Shl(ws[1], 16)), Shl(ws[2], 8)))
  }

  /** The address of the parts, unless the last one does not fit its bits. A single part is
      not checked. */
  function Assemble(ws: seq<Word>): (r: Option<nat>)
    requires Parts(ws)
    ensures r.Some? ==> r.value < U32
  {
    if |ws| > 1 && ws[|ws| - 1] >= Pow2(LastBits(|ws|)) then None
    else
      Powers();
      ConcoctIsPositional(ws);
      Some(Concoct(ws))
  }

  /** The address a text denotes, in host order. */
  function Parse(s: Text): (r: Option<nat>)
    ensures r.Some? ==> r.value < U32
  {
    match ParseFrom(s, 0, [])
    case None => None
    case Some(ws) => Assemble(ws)
  }

  function HtonLong(x: Word): nat {
    Or(Or(Or(Shr(And(x, 0xFF000000), 24), Shr(And(x, 0x00FF0000), 8)),
          Shl(And(x, 0x0000FF00), 8)), Shl(And(x, 0x000000FF), 24))
  }

  // ---------- the printer ----------

  function Dec(b: nat): (t: Text)
    ensures |t| > 0
  {
    var digit := ('0' as int + b % 10) as char;
    if b < 10 then [digit] else Dec(b / 10) + [digit]
  }

  /** The bytes of a word, most significant first. */
  function Bytes(x: Word): (bs: seq<nat>)
    ensures |bs| == 4 && forall k :: 0 <= k < 4 ==> bs[k] < 256
  {
    var x1 := x / 0x100;
    var x2 := x1 / 0x100;
    [x2 / 0x100, x2 % 0x100, x1 % 0x100, x % 0x100]
  }

  /** Every byte in decimal with a dot behind it. */
  function Dotted(bs: seq<nat>): Text {
    if bs == [] then [] else Dec(bs[0]) + "." + Dotted(bs[1..])
  }

  /** The dotted-quad text of an address in host order. */
  function Quad(x: Word): Text {
    var bs := Bytes(x);
    Dec(bs[0]) + "." + Dec(bs[1]) + "." + Dec(bs[2]) + "." + Dec(bs[3])
  }

  lemma DottedQuad(x: Word)
    ensures Dotted(Bytes(x)) == Quad(x) + "."
  {
    var bs := Bytes(x);
    assert bs[1..][1..] == bs[2..] && bs[2..][1..] == bs[3..] && bs[3..][1..] == [];
    assert Dotted(bs[3..]) == Dec(bs[3]) + ".";
    assert Dotted(bs[2..]) == Dec(bs[2]) + "." + Dotted(bs[3..]);
    assert Dotted(bs[1..]) == Dec(bs[1]) + "." + Dotted(bs[2..]);
  }

  // ---------- byte order ----------

  /** The word with bytes b3 (most significant) to b0. */
  function FromBytes(b3: nat, b2: nat, b1: nat, b0: nat): nat {
    ((b3 * 0x100 + b2) * 0x100 + b1) * 0x100 + b0
  }

  lemma BytesOf(b3: nat, b2: nat, b1: nat, b0: nat)
    requires b3 < 256 && b2 < 256 && b1 < 256 && b0 < 256
    ensures FromBytes(b3, b2, b1, b0) < U32
    ensures Bytes(FromBytes(b3, b2, b1, b0)) == [b3, b2, b1, b0]
  {
    Append(b3, b2);
    Append(b3 * 0x100 + b2, b1);
    Append((b3 * 0x100 + b2) * 0x100 + b1, b0);
  }

  lemma Append(high: nat, low: nat)
    requires low < 256
    ensures (high * 0x100 + low) / 0x100 == high && (high * 0x100 + low) % 0x100 == low
  {
  }

  lemma ToBytes(x: Word)
    ensures var bs := Bytes(x); x == FromBytes(bs[0], bs[1], bs[2], bs[3])
  {
  }

  /** hton_long reverses the four bytes. */
  lemma HtonReverses(x: Word)
    ensures var bs := Bytes(x); HtonLong(x) == FromBytes(bs[3], bs[2], bs[1], bs[0])
  {
    var bs := Bytes(x);
    MaskedBytes(x);
    SwapShifts(bs[0], bs[1], bs[2]);
    JoinBytes(bs[0], bs[1], bs[2], bs[3]);
  }

  lemma JoinBytes(b3: nat, b2: nat, b1: nat, b0: nat)
    requires b3 < 256 && b2 < 256 && b1 < 256 && b0 < 256
    ensures Or(Or(Or(b3, Shl(b2, 8)), Shl(b1, 16)), Shl(b0, 24)) == FromBytes(b0, b1, b2, b3)
  {
    var low2, low3 := 0x100 * b2 + b3, 0x10000 * b1 + 0x100 * b2 + b3;
    Shifts(b2); Shifts(b1); Shifts(b0);
    OrByte(b3, b2, 8, 0x100);
    assert Or(b3, Shl(b2, 8)) == low2;
    OrByte(low2, b1, 16, 0x10000);
    assert Or(low2, Shl(b1, 16)) == low3;
    OrByte(low3, b0, 24, 0x1000000);
  }

  lemma SwapShifts(b3: nat, b2: nat, b1: nat)
    ensures Shr(Shl(b3, 24), 24) == b3
    ensures Shr(Shl(b2, 16), 8) == Shl(b2, 8)
    ensures Shl(Shl(b1, 8), 8) == Shl(b1, 16)
  {
    ShrDrops(b3, 0, 24);
    ShlAdd(b2, 8, 8);
    ShrDrops(Shl(b2, 8), 0, 8);
    ShlAdd(b1, 8, 8);
  }

  lemma OrByte(lo: nat, b: nat, k: nat, limit: nat)
    requires k == 8 || k == 16 || k == 24
    requires limit == (if k == 8 then 0x100 else if k == 16 then 0x10000 else 0x1000000)
    requires lo < limit
    ensures Or(lo, Shl(b, k)) == Shl(b, k) + lo
  {
    Powers();
    OrDisjoint(lo, b, k);
  }

  /** The four masks of hton_long each select one byte in place. */
  lemma MaskedBytes(x: Word)
    ensures var bs := Bytes(x);
      && And(x, 0xFF000000) == Shl(bs[0], 24) && And(x, 0x00FF0000) == Shl(bs[1], 16)
      && And(x, 0x0000FF00) == Shl(bs[2], 8) && And(x, 0x000000FF) == bs[3]
  {
    BytesAreShifts(x);
    MaskedByte(x, 24, 0xFF000000);
    MaskedByte(x, 16, 0x00FF0000);
    MaskedByte(x, 8, 0x0000FF00);
    LowByte(x);
  }

  lemma BytesAreShifts(x: Word)
    ensures Bytes(x) == [Shr(x, 24) % 0x100, Shr(x, 16) % 0x100, Shr(x, 8) % 0x100, x % 0x100]
  {
    Shifts(x);
    var x2 := x / 0x100 / 0x100;
    assert x2 < 0x10000;
  }

  lemma MaskedByte(x: Word, k: nat, mask: nat)
    requires (k == 8 && mask == 0xFF00) || (k == 16 && mask == 0xFF0000) || (k == 24 && mask == 0xFF000000)
    ensures And(x, mask) == Shl(Shr(x, k) % 0x100, k)
  {
    Shifts(0xFF);
    AndShifted(x, 0xFF, k);
    LowByte(Shr(x, k));
  }

  lemma LowByte(y: nat)
    ensures And(y, 0xFF) == y % 0x100
  {
    AndLowMask(y, 8);
    Powers();
  }

  /** Swapping twice is the identity, so host and network order undo each other. */
  lemma HtonInvolution(x: Word)
    ensures HtonLong(x) < U32 && HtonLong(HtonLong(x)) == x
  {
    HtonReverses(x);
    ToBytes(x);
    var bs := Bytes(x);
    BytesOf(bs[3], bs[2], bs[1], bs[0]);
    HtonReverses(HtonLong(x));
  }

  // ---------- or-ing the parts ----------

  /** The positional sum of the parts. */
  function Positional(ws: seq<nat>): nat
    requires 1 <= |ws| <= 4
  {
    match |ws|
    case 1 => ws[0]
    case 2 => ws[0] * 0x1000000 + ws[1]
    case 3 => ws[0] * 0x1000000 + ws[1] * 0x10000 + ws[2]
    case _ => ws[0] * 0x1000000 + ws[1] * 0x10000 + ws[2] * 0x100 + ws[3]
  }

  /** Bitwise-or of the shifted parts is their positional sum. */
  lemma {:induction false} ConcoctIsPositional(ws: seq<nat>)
    requires Parts(ws) && ws[|ws| - 1] < Pow2(LastBits(|ws|))
    ensures Concoct(ws) == Positional(ws) < U32
  {
    Powers();
    if |ws| == 2 {
      OneField(ws[0], ws[1]);
    } else if |ws| == 3 {
      TwoFields(ws[0], ws[1]);
      OrByte(ws[2], ws[0] * 0x100 + ws[1], 16, 0x10000);
    } else if |ws| == 4 {
      FourFields(ws[0], ws[1], ws[2], ws[3]);
    }
  }

  lemma FourFields(a: nat, b: nat, c: nat, d: nat)
    requires a <= 0xff && b <= 0xff && c <= 0xff && d <= 0xff
    ensures Or(d, Or(Or(Shl(a, 24), Shl(b, 16)), Shl(c, 8))) == a * 0x1000000 + b * 0x10000 + c * 0x100 + d
  {
    ThreeFields(a, b, c);
    OrByte(d, (a * 0x100 + b) * 0x100 + c, 8, 0x100);
  }

  lemma OneField(a: nat, val: nat)
    requires a <= 0xff && val < 0x1000000
    ensures Or(val, Shl(a, 24)) == a * 0x1000000 + val
  {
    Shifts(a);
    OrByte(val, a, 24, 0x1000000);
  }

  lemma TwoFields(a: nat, b: nat)
    requires a <= 0xff && b <= 0xff
    ensures Or(Shl(a, 24), Shl(b, 16)) == Shl(a * 0x100 + b, 16) == a * 0x1000000 + b * 0x10000
  {
    Shifts(b); Shifts(a * 0x100 + b);
    OrComm(Shl(a, 24), Shl(b, 16));
    OneField(a, Shl(b, 16));
  }

  lemma {:induction false} ThreeFields(a: nat, b: nat, c: nat)
    requires a <= 0xff && b <= 0xff && c <= 0xff
    ensures Or(Or(Shl(a, 24), Shl(b, 16)), Shl(c, 8)) == Shl((a * 0x100 + b) * 0x100 + c, 8)
      == a * 0x1000000 + b * 0x10000 + c * 0x100
  {
    var ab := a * 0x100 + b;
    TwoFields(a, b);
    ShiftedSum(ab, c);
    OrComm(Shl(ab, 16), Shl(c, 8));
    OrByte(Shl(c, 8), ab, 16, 0x10000);
  }

  lemma {:induction false} ShiftedSum(ab: nat, c: nat)
    requires c <= 0xff
    ensures Shl(c, 8) < 0x10000
    ensures Shl(ab, 16) + Shl(c, 8) == Shl(ab * 0x100 + c, 8) == ab * 0x10000 + c * 0x100
  {
    Shifts(ab);
    Shifts(c);
    Shifts(ab * 0x100 + c);
  }
}
