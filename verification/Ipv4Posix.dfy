/** How ipv4_addr_aton differs from inet_addr() of POSIX.1-2017, System Interfaces. There a part
    is a C integer constant: decimal without a leading 0, octal of the digits 0 to 7, or
    hexadecimal with at least one digit. The parts with their dots are the whole C string. */
module Ipv4Posix {
  import opened Bits
  import opened Wrappers
  import opened Ipv4Spec
  import opened Ipv4Theorems

  predicate IsOctalDigit(c: char) { '0' <= c <= '7' }

  /** The numerals inet_addr() takes. */
  predicate IsPosix(n: Numeral) {
    match n
    case DecNum(ds) => ds != [] && ds[0] != '0' && forall k :: 0 <= k < |ds| ==> IsDigit(ds[k])
    case OctNum(ds) => forall k :: 0 <= k < |ds| ==> IsOctalDigit(ds[k])
    case HexNum(x, ds) => (x == 'x' || x == 'X') && ds != [] && forall k :: 0 <= k < |ds| ==> IsXDigit(ds[k])
  }

  ghost predicate AllPosix(ns: seq<Numeral>) { forall k :: 0 <= k < |ns| ==> IsPosix(ns[k]) }

  /** The value of the digits in the base of the numeral; 0 for what is no numeral. */
  function ValueOf(n: Numeral): nat { if WellFormed(n) then Value(n) else 0 }

  function Values(ns: seq<Numeral>): (vs: seq<nat>)
    ensures |vs| == |ns| && forall k :: 0 <= k < |ns| ==> vs[k] == ValueOf(ns[k])
  {
    seq(|ns|, k requires 0 <= k < |ns| => ValueOf(ns[k]))
  }

  /** Where numeral k begins when the numerals stand from position 0 on with a dot behind each. */
  function Start(ns: seq<Numeral>, k: nat): nat
    requires k <= |ns|
  {
    if k == 0 then 0 else Start(ns, k - 1) + Width(ns[k - 1]) + 1
  }

  /** The C string ends behind the last numeral. */
  ghost predicate NothingBehind(s: Text, ns: seq<Numeral>)
    requires ns != []
  {
    At(s, Start(ns, |ns| - 1) + Width(ns[|ns| - 1])) == '\0'
  }

  /** The string is a notation inet_addr() knows. */
  ghost predicate IsNotation(s: Text, ns: seq<Numeral>) {
    Reads(s, ns) && AllPosix(ns) && NothingBehind(s, ns)
  }

  /** What inet_addr() gives: the positional sum of one to four POSIX numerals of which all but
      the last are at most 255 and the last fits the remaining bits. */
  ghost predicate InetAddr(s: Text, r: Option<nat>) {
    if exists ns :: IsNotation(s, ns) && InRange(Values(ns))
    then exists ns :: IsNotation(s, ns) && InRange(Values(ns)) && r == Some(Positional(Values(ns)))
    else r == None
  }

  // ---------- a text has one reading ----------

  lemma NumeralUnique(s: Text, i: nat, n: Numeral, m: Numeral)
    requires WellFormed(n) && Stands(s, i, n) && StopsAt(s, i + Width(n))
    requires WellFormed(m) && Stands(s, i, m) && StopsAt(s, i + Width(m))
    ensures n == m
  {
    ScanNumeralReads(s, i, n);
    ScanNumeralReads(s, i, m);
    SameKind(s, i, n, m);
    assert |n.ds| == |m.ds|;
    var from := i + Width(n) - |n.ds|;
    forall k | 0 <= k < |n.ds|
      ensures n.ds[k] == m.ds[k]
    {
      assert n.ds[k] == s[from + k];
      assert m.ds[k] == s[from + k];
    }
    assert n.ds == m.ds;
  }

  lemma SameKind(s: Text, i: nat, n: Numeral, m: Numeral)
    requires WellFormed(n) && Stands(s, i, n) && WellFormed(m) && Stands(s, i, m) && Width(n) == Width(m)
    ensures n.DecNum? == m.DecNum? && n.OctNum? == m.OctNum?
    ensures n.HexNum? ==> n.x == m.x
  {
    if n.ds != [] { assert s[i + Width(n) - |n.ds|] == n.ds[0]; }
    if m.ds != [] { assert s[i + Width(m) - |m.ds|] == m.ds[0]; }
    if n.OctNum? && n.ds != [] { assert IsDigitOf(n.ds[0], Octal); }
    if m.OctNum? && m.ds != [] { assert IsDigitOf(m.ds[0], Octal); }
  }

  lemma {:induction false} ReadingFrom(s: Text, i: nat, ns: seq<Numeral>, ms: seq<Numeral>, k: nat)
    requires Shows(s, i, ns, k) && Shows(s, i, ms, k)
    requires ns[..k] == ms[..k]
    ensures ns == ms
    decreases |ns| - k
  {
    NumeralUnique(s, i, ns[k], ms[k]);
    assert ns[..k + 1] == ns[..k] + [ns[k]] && ms[..k + 1] == ms[..k] + [ms[k]];
    if k + 1 == |ns| {
      assert k + 1 == |ms|;
      assert ns == ns[..k + 1] && ms == ms[..k + 1];
    } else {
      ReadingFrom(s, i + Width(ns[k]) + 1, ns, ms, k + 1);
    }
  }

  /** A text reads as numerals in at most one way. */
  lemma ReadingUnique(s: Text, ns: seq<Numeral>, ms: seq<Numeral>)
    requires Reads(s, ns) && Reads(s, ms)
    ensures ns == ms
  {
    ReadingFrom(s, 0, ns, ms, 0);
  }

  // ---------- where the two agree ----------

  /** The parser is right about a reading: all its numerals are POSIX ones that fit a word and
      the string ends behind them, or the parts are refused anyway. */
  ghost predicate Harmless(s: Text, ns: seq<Numeral>)
    requires ns != []
  {
    (AllPosix(ns) && NothingBehind(s, ns) && FitWords(Values(ns))) || !InRange(Wrapped(Values(ns)))
  }

  lemma OfReading(s: Text, ns: seq<Numeral>)
    requires Reads(s, ns)
    ensures Parse(s) == Denoted(Wrapped(Values(ns)))
    ensures Parse(s) == Denoted(Values(ns)) <==> FitWords(Values(ns)) || !InRange(Wrapped(Values(ns)))
    ensures forall r :: InetAddr(s, r) <==> r == if IsNotation(s, ns) then Denoted(Values(ns)) else None
  {
    ShowsWellFormed(s, 0, ns, 0);
    assert HaveValues(ns, Values(ns));
    ReadsDenotes(s, ns, Values(ns));
    AtonAgreesExactly(s, ns, Values(ns));
    forall ms | Reads(s, ms)
      ensures ms == ns
    {
      ReadingUnique(s, ms, ns);
    }
  }

  /** For every text the parser gives what inet_addr() gives if and only if its reading, if it
      has one, is harmless. */
  lemma AgreesWithPosixExactly(s: Text)
    ensures InetAddr(s, Parse(s)) <==> forall ns :: Reads(s, ns) ==> Harmless(s, ns)
  {
    if ns :| Reads(s, ns) {
      OfReading(s, ns);
      forall ms | Reads(s, ms)
        ensures ms == ns
      {
        ReadingUnique(s, ms, ns);
      }
    } else {
      AtonExact(s);
      assert Parse(s) == None;
    }
  }

  // ---------- the differences occur ----------

  /** The digits 8 and 9 behind a leading 0, a bare 0x, an empty part and a white space with
      anything behind it are taken, where inet_addr() refuses the text. */
  lemma TakesMore()
    ensures Parse("08") == Some(8) && InetAddr("08", None)
    ensures Parse("0x") == Some(0) && InetAddr("0x", None)
    ensures Parse("") == Some(0) && InetAddr("", None)
    ensures Parse("1 ") == Some(1) && InetAddr("1 ", None)
    ensures Parse("1 x") == Some(1) && InetAddr("1 x", None)
  {
    RefusedByPosix("08", OctNum("8"), 8);
    RefusedByPosix("0x", HexNum('x', ""), 0);
    RefusedByPosix("", DecNum(""), 0);
    RefusedByPosix("1 ", DecNum("1"), 1);
    RefusedByPosix("1 x", DecNum("1"), 1);
  }

  lemma LoneReading(s: Text, n: Numeral, v: nat)
    requires WellFormed(n) && Stands(s, 0, n) && EndsAt(s, Width(n)) && Value(n) == v < U32
    ensures Reads(s, [n]) && Parse(s) == Some(v)
  {
    assert Shows(s, 0, [n], 0);
    ReadsDenotes(s, [n], [v]);
    assert Wrapped([v]) == [v];
    Powers();
  }

  lemma RefusedByPosix(s: Text, n: Numeral, v: nat)
    requires WellFormed(n) && Stands(s, 0, n) && EndsAt(s, Width(n)) && Value(n) == v < U32
    requires !IsPosix(n) || At(s, Width(n)) != '\0'
    ensures Parse(s) == Some(v) && InetAddr(s, None)
  {
    LoneReading(s, n, v);
    OfReading(s, [n]);
    assert !IsNotation(s, [n]) by { assert [n][0] == n; }
  }
}
