/** Which texts ipv4_addr_aton accepts, what they denote, and that the parser reads back
    everything the printer writes. Numerals and their values are defined here without
    reference to the scanning loop. */
module Ipv4Theorems {
  import opened Bits
  import opened Wrappers
  import opened Ipv4Spec

  // ---------- numerals ----------

  /** The accepted numerals: decimal (possibly no digit at all), `0` and digits, `0x` and hex
      digits (possibly none). The digits 8 and 9 pass in octal. */
  datatype Numeral = DecNum(ds: Text) | OctNum(ds: Text) | HexNum(x: char, ds: Text)

  function BaseOf(n: Numeral): Base {
    match n
    case DecNum(_) => Decimal
    case OctNum(_) => Octal
    case HexNum(_, _) => Hex
  }

  predicate AllDigits(ds: Text, base: Base) { forall k :: 0 <= k < |ds| ==> IsDigitOf(ds[k], base) }

  predicate WellFormed(n: Numeral) {
    && AllDigits(n.ds, BaseOf(n))
    && (n.DecNum? && n.ds != [] ==> n.ds[0] != '0')
    && (n.HexNum? ==> n.x == 'x' || n.x == 'X')
  }

  /** The number the first k digits stand for. */
  function ValueUpTo(ds: Text, base: Base, k: nat): nat
    requires AllDigits(ds, base) && k <= |ds|
  {
    if k == 0 then 0 else Times(base, ValueUpTo(ds, base, k - 1)) + DigitVal(ds[k - 1])
  }

  function Value(n: Numeral): nat
    requires WellFormed(n)
  {
    ValueUpTo(n.ds, BaseOf(n), |n.ds|)
  }

  // ---------- texts ----------

  /** The text t stands at position i of s. */
  ghost predicate Occurs(s: Text, i: nat, t: Text) {
    i + |t| <= |s| && forall k {:trigger t[k]} :: 0 <= k < |t| ==> s[i + k] == t[k]
  }

  /** The text of the numeral stands at position i of s. */
  ghost predicate Stands(s: Text, i: nat, n: Numeral) {
    match n
    case DecNum(ds) => Occurs(s, i, ds)
    case OctNum(ds) => At(s, i) == '0' && Occurs(s, i + 1, ds)
    case HexNum(x, ds) => At(s, i) == '0' && At(s, i + 1) == x && Occurs(s, i + 2, ds)
  }

  function Width(n: Numeral): nat {
    |n.ds| + match n { case DecNum(_) => 0 case OctNum(_) => 1 case HexNum(_, _) => 2 }
  }

  /** From i on, s shows the numerals ns[k..] with dots between them, then NUL or a white
      space. */
  ghost predicate Shows(s: Text, i: nat, ns: seq<Numeral>, k: nat)
    decreases |ns| - k
  {
    && k < |ns| && WellFormed(ns[k]) && Stands(s, i, ns[k])
    && var e := i + Width(ns[k]);
      if k + 1 == |ns| then EndsAt(s, e) else At(s, e) == '.' && Shows(s, e + 1, ns, k + 1)
  }

  /** The whole text is the numerals ns. */
  ghost predicate Reads(s: Text, ns: seq<Numeral>) { Shows(s, 0, ns, 0) }

  /** vs are the values of the numerals. */
  ghost predicate HaveValues(ns: seq<Numeral>, vs: seq<nat>) {
    |vs| == |ns| && forall k :: 0 <= k < |ns| ==> WellFormed(ns[k]) && vs[k] == Value(ns[k])
  }

  /** The values as they end up in 32-bit words. */
  function Wrapped(vs: seq<nat>): (ws: seq<Word>)
    ensures |ws| == |vs|
  {
    seq(|vs|, k requires 0 <= k < |vs| => Wrap(vs[k]))
  }

  /** One to four parts; all but the last are bytes and the last fits the remaining bits. */
  predicate InRange(vs: seq<nat>) { Parts(vs) && vs[|vs| - 1] < Pow2(LastBits(|vs|)) }

  /** The address the parts denote: their positional sum, when they are in range. */
  function Denoted(vs: seq<nat>): Option<nat> {
    if InRange(vs) then Some(Positional(vs)) else None
  }

  // ---------- scanning one numeral ----------

  predicate StopsAt(s: Text, j: nat) { At(s, j) == '.' || EndsAt(s, j) }

  lemma WrapStep(v: nat, base: Base, d: nat)
    ensures Wrap(Times(base, Wrap(v)) + d) == Wrap(Times(base, v) + d)
  {
    WrapIsMod(v);
    WrapTerm(Times(base, v) + d, Times(base, v % U32) + d, Times(base, v / U32));
  }

  lemma {:induction false} WrapTerm(x: nat, y: nat, k: nat)
    requires x == y + U32 * k
    ensures Wrap(x) == Wrap(y)
    decreases k
  {
    if k > 0 { WrapTerm(x - U32, y, k - 1); }
  }

  /** Scanning on from digit k. */
  lemma {:induction false} ScanDigitsFrom(s: Text, i: nat, ds: Text, base: Base, k: nat)
    requires AllDigits(ds, base) && Occurs(s, i, ds) && !IsDigitOf(At(s, i + |ds|), base) && k <= |ds|
    ensures ScanDigits(s, i + k, base, Wrap(ValueUpTo(ds, base, k)))
      == (Wrap(ValueUpTo(ds, base, |ds|)), i + |ds|)
    decreases |ds| - k
  {
    if k < |ds| {
      assert s[i + k] == ds[k];
      WrapStep(ValueUpTo(ds, base, k), base, DigitVal(ds[k]));
      ScanDigitsFrom(s, i, ds, base, k + 1);
      ScanOne(s, i + k, base, Wrap(ValueUpTo(ds, base, k)), Wrap(ValueUpTo(ds, base, k + 1)));
    } else {
      ScanNone(s, i + k, base, Wrap(ValueUpTo(ds, base, k)));
    }
  }

  lemma ScanOne(s: Text, i: nat, base: Base, val: Word, next: Word)
    requires i < |s| && IsDigitOf(s[i], base) && next == Wrap(Times(base, val) + DigitVal(s[i]))
    ensures ScanDigits(s, i, base, val) == ScanDigits(s, i + 1, base, next)
  {
  }

  lemma ScanNone(s: Text, i: nat, base: Base, val: Word)
    requires i <= |s| && !IsDigitOf(At(s, i), base)
    ensures ScanDigits(s, i, base, val) == (val, i)
  {
  }

  /** The numeral is over at position j: no digit of its base stands there, nor does what would
      make a lone 0 the start of a hexadecimal numeral. */
  predicate OverAt(s: Text, j: nat, n: Numeral) {
    && !IsDigitOf(At(s, j), BaseOf(n))
    && (n == OctNum([]) ==> At(s, j) != 'x' && At(s, j) != 'X')
  }

  lemma ScanNumeralReads(s: Text, i: nat, n: Numeral)
    requires WellFormed(n) && Stands(s, i, n) && OverAt(s, i + Width(n), n)
    ensures ScanNumeral(s, i) == (Wrap(Value(n)), i + Width(n))
  {
    match n
    case DecNum(ds) =>
      if ds != [] { assert s[i + 0] == ds[0]; }
      ScanDigitsFrom(s, i, ds, Decimal, 0);
    case OctNum(ds) =>
      if ds != [] { assert s[i + 1 + 0] == ds[0]; }
      ScanDigitsFrom(s, i + 1, ds, Octal, 0);
    case HexNum(x, ds) =>
      ScanDigitsFrom(s, i + 2, ds, Hex, 0);
  }

  // ---------- the parser on shown numerals ----------

  /** Parsing the numerals ns[k..] behind the words of the ones before. */
  lemma {:induction false} ShowsParse(s: Text, i: nat, ns: seq<Numeral>, k: nat, ws: seq<Word>, parts: seq<Word>)
    requires Shows(s, i, ns, k) && i <= |s| && |ws| == |ns|
    requires forall j :: k <= j < |ns| ==> WellFormed(ns[j]) && ws[j] == Wrap(Value(ns[j]))
    requires Leading(parts) && |parts| == k && forall j :: 0 <= j < k ==> parts[j] == ws[j]
    ensures ParseFrom(s, i, parts) == if Parts(ws) then Some(ws) else None
    decreases |ns| - k
  {
    ScanNumeralReads(s, i, ns[k]);
    if k + 1 == |ns| {
      assert parts + [ws[k]] == ws;
    } else if k < 3 && ws[k] <= 0xff {
      ShowsParse(s, i + Width(ns[k]) + 1, ns, k + 1, ws, parts + [ws[k]]);
    }
  }

  lemma {:induction false} ShowsWellFormed(s: Text, i: nat, ns: seq<Numeral>, k: nat)
    requires Shows(s, i, ns, k)
    ensures forall j :: k <= j < |ns| ==> WellFormed(ns[j])
    decreases |ns| - k
  {
    if k + 1 < |ns| { ShowsWellFormed(s, i + Width(ns[k]) + 1, ns, k + 1); }
  }

  lemma AssembleDenotes(ws: seq<Word>)
    requires Parts(ws)
    ensures Assemble(ws) == Denoted(ws)
  {
    Powers();
    if InRange(ws) { ConcoctIsPositional(ws); }
  }

  // ---------- every accepted text reads as numerals ----------

  lemma {:induction false} DigitRun(s: Text, i: nat, base: Base, val: Word) returns (e: nat)
    requires i <= |s|
    ensures e == ScanDigits(s, i, base, val).1
    ensures forall k :: i <= k < e ==> IsDigitOf(s[k], base)
    decreases |s| - i
  {
    e := i;
    if i < |s| && IsDigitOf(s[i], base) {
      e := DigitRun(s, i + 1, base, Wrap(Times(base, val) + DigitVal(s[i])));
    }
  }

  lemma NumeralAt(s: Text, i: nat) returns (n: Numeral)
    requires i <= |s|
    ensures WellFormed(n) && Stands(s, i, n) && ScanNumeral(s, i).1 == i + Width(n)
  {
    if At(s, i) != '0' {
      var e := DigitRun(s, i, Decimal, 0);
      n := DecNum(s[i..e]);
    } else if At(s, i + 1) == 'x' || At(s, i + 1) == 'X' {
      var e := DigitRun(s, i + 2, Hex, 0);
      n := HexNum(s[i + 1], s[i + 2..e]);
    } else {
      var e := DigitRun(s, i + 1, Octal, 0);
      n := OctNum(s[i + 1..e]);
    }
  }

  lemma {:induction false} AcceptedShows(s: Text, i: nat, parts: seq<Word>, before: seq<Numeral>)
    returns (ns: seq<Numeral>)
    requires i <= |s| && Leading(parts) && ParseFrom(s, i, parts).Some?
    ensures |before| < |ns| && ns[..|before|] == before && Shows(s, i, ns, |before|)
    decreases 3 - |parts|
  {
    var n := NumeralAt(s, i);
    var (val, e) := ScanNumeral(s, i);
    if At(s, e) == '.' {
      ns := AcceptedShows(s, e + 1, parts + [val], before + [n]);
      assert ns[|before|] == ns[..|before| + 1][|before|] == n;
      assert ns[..|before|] == ns[..|before| + 1][..|before|];
    } else {
      ns := before + [n];
    }
  }

  // ---------- main results ----------

  /** A text is accepted exactly when it is one to four numerals in range, read through
      32-bit words, and then it denotes their positional sum. */
  lemma AtonExact(s: Text)
    ensures Parse(s).Some? ==>
      exists ns, vs :: Reads(s, ns) && HaveValues(ns, vs) && InRange(Wrapped(vs))
    ensures forall ns, vs :: Reads(s, ns) && HaveValues(ns, vs) ==> Parse(s) == Denoted(Wrapped(vs))
  {
    forall ns, vs | Reads(s, ns) && HaveValues(ns, vs)
      ensures Parse(s) == Denoted(Wrapped(vs))
    {
      ReadsDenotes(s, ns, vs);
    }
    if Parse(s).Some? {
      var ns := AcceptedShows(s, 0, [], []);
      ShowsWellFormed(s, 0, ns, 0);
      var vs := seq(|ns|, k requires 0 <= k < |ns| => Value(ns[k]));
      assert Reads(s, ns) && HaveValues(ns, vs);
    }
  }

  lemma ReadsDenotes(s: Text, ns: seq<Numeral>, vs: seq<nat>)
    requires Reads(s, ns) && HaveValues(ns, vs)
    ensures Parse(s) == Denoted(Wrapped(vs))
  {
    var ws := Wrapped(vs);
    ShowsParse(s, 0, ns, 0, ws, []);
    if Parts(ws) { AssembleDenotes(ws); }
  }

  ghost predicate FitWords(vs: seq<nat>) { forall k :: 0 <= k < |vs| ==> vs[k] < U32 }

  /** The numerals mean what they say exactly when every one is below 2^32, or the wrapped
      parts are refused anyway. */
  lemma AtonAgreesExactly(s: Text, ns: seq<Numeral>, vs: seq<nat>)
    requires Reads(s, ns) && HaveValues(ns, vs)
    ensures Parse(s) == Denoted(vs) <==> FitWords(vs) || !InRange(Wrapped(vs))
  {
    ReadsDenotes(s, ns, vs);
    if InRange(vs) { InRangeFits(vs); }
    if FitWords(vs) { assert Wrapped(vs) == vs; }
  }

  lemma InRangeFits(vs: seq<nat>)
    requires InRange(vs)
    ensures FitWords(vs)
  {
    Powers();
  }

  /** So the text of 2^32 reads as the address 0. */
  lemma WrapCounterexample(s: Text)
    requires s == "4294967296"
    ensures Parse(s) == Some(0)
  {
    var n, vs := DecNum(s), [U32];
    TwoTo32(s);
    LoneNumeral(s, n, U32);
    assert Wrapped(vs) == [0];
    Powers();
  }

  lemma LoneNumeral(s: Text, n: Numeral, v: nat)
    requires n == DecNum(s) && WellFormed(n) && v == ValueUpTo(s, Decimal, |s|)
    ensures Parse(s) == Denoted(Wrapped([v]))
  {
    assert Shows(s, 0, [n], 0);
    ReadsDenotes(s, [n], [v]);
  }

  lemma TwoTo32(s: Text)
    requires s == "4294967296"
    ensures AllDigits(s, Decimal) && ValueUpTo(s, Decimal, |s|) == U32
  {
    assert ValueUpTo(s, Decimal, 1) == 4;
    assert ValueUpTo(s, Decimal, 2) == 42;
    assert ValueUpTo(s, Decimal, 3) == 429;
    assert ValueUpTo(s, Decimal, 4) == 4294;
    assert ValueUpTo(s, Decimal, 5) == 42949;
    assert ValueUpTo(s, Decimal, 6) == 429496;
    assert ValueUpTo(s, Decimal, 7) == 4294967;
    assert ValueUpTo(s, Decimal, 8) == 42949672;
    assert ValueUpTo(s, Decimal, 9) == 429496729;
    assert ValueUpTo(s, Decimal, 10) == 4294967296;
  }

  // ---------- the round trip ----------

  function ByteNumeral(b: nat): Numeral { if b == 0 then OctNum([]) else DecNum(Dec(b)) }

  lemma {:induction false} DecShows(b: nat)
    ensures AllDigits(Dec(b), Decimal) && (b > 0 ==> Dec(b)[0] != '0')
    ensures ValueUpTo(Dec(b), Decimal, |Dec(b)|) == b
  {
    var t, c := Dec(b), ('0' as int + b % 10) as char;
    assert IsDigit(c) && DigitVal(c) == b % 10;
    if b >= 10 {
      var front := Dec(b / 10);
      DecShows(b / 10);
      assert t == front + [c];
      SameValue(front, t, Decimal, |front|);
    }
  }

  lemma {:induction false} SameValue(front: Text, t: Text, base: Base, k: nat)
    requires AllDigits(front, base) && AllDigits(t, base) && k <= |front| <= |t|
    requires forall j :: 0 <= j < |front| ==> t[j] == front[j]
    ensures ValueUpTo(t, base, k) == ValueUpTo(front, base, k)
  {
    if k > 0 { SameValue(front, t, base, k - 1); }
  }

  /** Where the pieces of the text of an address stand. */
  lemma QuadPieces(s: Text, a: Text, b: Text, c: Text, d: Text, behind: Text)
    requires s == a + "." + b + "." + c + "." + d + ['\0'] + behind
    ensures Occurs(s, 0, a) && At(s, |a|) == '.'
    ensures Occurs(s, |a| + 1, b) && At(s, |a| + 1 + |b|) == '.'
    ensures Occurs(s, |a| + 1 + |b| + 1, c) && At(s, |a| + 1 + |b| + 1 + |c|) == '.'
    ensures Occurs(s, |a| + 1 + |b| + 1 + |c| + 1, d) && At(s, |a| + 1 + |b| + 1 + |c| + 1 + |d|) == '\0'
  {
  }

  /** Whatever stands behind the terminator, the text of an address reads back as it, and a
      16-byte buffer always holds it. */
  lemma RoundTrip(x: Word, behind: Text)
    ensures Parse(Quad(x) + ['\0'] + behind) == Some(x)
    ensures |Quad(x)| + 1 <= 16
  {
    var s, bs := Quad(x) + ['\0'] + behind, Bytes(x);
    var ns := QuadReads(s, bs[0], bs[1], bs[2], bs[3], behind);
    ReadsDenotes(s, ns, [bs[0], bs[1], bs[2], bs[3]]);
    BytesDenote(x);
    ByteLength(bs[0]); ByteLength(bs[1]); ByteLength(bs[2]); ByteLength(bs[3]);
  }

  lemma {:induction false} QuadReads(s: Text, b3: nat, b2: nat, b1: nat, b0: nat, behind: Text) returns (ns: seq<Numeral>)
    requires s == Dec(b3) + "." + Dec(b2) + "." + Dec(b1) + "." + Dec(b0) + ['\0'] + behind
    ensures Reads(s, ns) && HaveValues(ns, [b3, b2, b1, b0])
  {
    QuadPieces(s, Dec(b3), Dec(b2), Dec(b1), Dec(b0), behind);
    var i1 := |Dec(b3)| + 1;
    var i2 := i1 + |Dec(b2)| + 1;
    ns := PiecesRead(s, b3, b2, b1, b0, i1, i2, i2 + |Dec(b1)| + 1);
  }

  lemma {:induction false} PiecesRead(s: Text, b3: nat, b2: nat, b1: nat, b0: nat, i1: nat, i2: nat, i3: nat)
    returns (ns: seq<Numeral>)
    requires i1 == |Dec(b3)| + 1 && i2 == i1 + |Dec(b2)| + 1 && i3 == i2 + |Dec(b1)| + 1
    requires Occurs(s, 0, Dec(b3)) && At(s, i1 - 1) == '.'
    requires Occurs(s, i1, Dec(b2)) && At(s, i2 - 1) == '.'
    requires Occurs(s, i2, Dec(b1)) && At(s, i3 - 1) == '.'
    requires Occurs(s, i3, Dec(b0)) && At(s, i3 + |Dec(b0)|) == '\0'
    ensures Reads(s, ns) && HaveValues(ns, [b3, b2, b1, b0])
  {
    ByteStands(s, 0, b3);
    ByteStands(s, i1, b2);
    ByteStands(s, i2, b1);
    ByteStands(s, i3, b0);
    ns := [ByteNumeral(b3), ByteNumeral(b2), ByteNumeral(b1), ByteNumeral(b0)];
    FourValues(ByteNumeral(b3), ByteNumeral(b2), ByteNumeral(b1), ByteNumeral(b0));
    FourShow(s, ns, i1, i2, i3);
  }

  lemma {:induction false} FourValues(n3: Numeral, n2: Numeral, n1: Numeral, n0: Numeral)
    requires WellFormed(n3) && WellFormed(n2) && WellFormed(n1) && WellFormed(n0)
    ensures HaveValues([n3, n2, n1, n0], [Value(n3), Value(n2), Value(n1), Value(n0)])
  {
  }

  lemma {:induction false} ByteStands(s: Text, i: nat, b: nat)
    requires Occurs(s, i, Dec(b))
    ensures var n := ByteNumeral(b);
      WellFormed(n) && Value(n) == b && Stands(s, i, n) && Width(n) == |Dec(b)|
  {
    DecShows(b);
    if b == 0 {
      assert s[i + 0] == Dec(b)[0];
    }
  }

  lemma {:induction false} FourShow(s: Text, ns: seq<Numeral>, i1: nat, i2: nat, i3: nat)
    requires |ns| == 4 && forall k :: 0 <= k < 4 ==> WellFormed(ns[k])
    requires Stands(s, 0, ns[0]) && i1 == Width(ns[0]) + 1 && At(s, i1 - 1) == '.'
    requires Stands(s, i1, ns[1]) && i2 == i1 + Width(ns[1]) + 1 && At(s, i2 - 1) == '.'
    requires Stands(s, i2, ns[2]) && i3 == i2 + Width(ns[2]) + 1 && At(s, i3 - 1) == '.'
    requires Stands(s, i3, ns[3]) && At(s, i3 + Width(ns[3])) == '\0'
    ensures Reads(s, ns)
  {
    assert Shows(s, i3, ns, 3);
    assert Shows(s, i2, ns, 2);
    assert Shows(s, i1, ns, 1);
  }

  lemma ByteLength(b: nat)
    requires b < 256
    ensures |Dec(b)| <= 3
  {
    assert b >= 10 ==> |Dec(b)| == |Dec(b / 10)| + 1;
    assert b >= 100 ==> |Dec(b / 10)| == |Dec(b / 10 / 10)| + 1;
  }

  lemma BytesDenote(x: Word)
    ensures Denoted(Wrapped(Bytes(x))) == Some(x)
  {
    var bs := Bytes(x);
    Powers();
    assert Wrapped(bs) == bs;
    ToBytes(x);
  }
}
