/** The three bases of ipv4_addr_aton against printers by plain division, the characters that may
    follow a number, and the addresses of fewer than four parts. */
module Ipv4Bases {
  import opened Bits
  import opened Wrappers
  import opened Ipv4Spec
  import opened Ipv4Theorems

  const LOWER: Text := "0123456789abcdef"
  const UPPER: Text := "0123456789ABCDEF"

  function Oct(x: nat): (t: Text)
    ensures |t| > 0
  {
    if x < 8 then [LOWER[x]] else Oct(x / 8) + [LOWER[x % 8]]
  }

  function Hex(x: nat, digits: Text): (t: Text)
    requires |digits| == 16
    ensures |t| > 0
  {
    if x < 16 then [digits[x]] else Hex(x / 16, digits) + [digits[x % 16]]
  }

  /** NUL ends a C string; the others are what isspace() knows. */
  predicate Ends(c: char) { c == '\0' || c == ' ' || c == '\t' || c == '\n' || c == '\U{000B}' || c == '\U{000C}' || c == '\r' }

  // ---------- the value of a printed number ----------

  /** One digit more. */
  lemma {:induction false} DigitMore(front: Text, c: char, base: Base, t: Text)
    requires AllDigits(front, base) && IsDigitOf(c, base) && t == front + [c]
    ensures AllDigits(t, base)
    ensures ValueUpTo(t, base, |t|) == Times(base, ValueUpTo(front, base, |front|)) + DigitVal(c)
  {
    SameValue(front, t, base, |front|);
  }

  lemma {:induction false} OneDigit(c: char, base: Base)
    requires IsDigitOf(c, base)
    ensures AllDigits([c], base) && ValueUpTo([c], base, 1) == DigitVal(c)
  {
    assert ValueUpTo([c], base, 0) == 0;
  }

  lemma DigitOfTable(d: nat, digits: Text)
    requires d < 16 && (digits == LOWER || digits == UPPER)
    ensures IsXDigit(digits[d]) && DigitVal(digits[d]) == d && (d < 10 ==> IsDigit(digits[d]))
  {
  }

  lemma {:induction false} OctValue(x: nat)
    ensures AllDigits(Oct(x), Octal) && ValueUpTo(Oct(x), Octal, |Oct(x)|) == x
  {
    DigitOfTable(x % 8, LOWER);
    if x < 8 {
      OneDigit(LOWER[x], Octal);
    } else {
      OctValue(x / 8);
      DigitMore(Oct(x / 8), LOWER[x % 8], Octal, Oct(x));
    }
  }

  lemma {:induction false} HexValue(x: nat, digits: Text)
    requires digits == LOWER || digits == UPPER
    ensures AllDigits(Hex(x, digits), Base.Hex) && ValueUpTo(Hex(x, digits), Base.Hex, |Hex(x, digits)|) == x
  {
    DigitOfTable(x % 16, digits);
    if x < 16 {
      OneDigit(digits[x], Base.Hex);
    } else {
      HexValue(x / 16, digits);
      DigitMore(Hex(x / 16, digits), digits[x % 16], Base.Hex, Hex(x, digits));
    }
  }

  // ---------- what follows a number ----------

  /** A lone numeral below 2^32 with character c behind it. */
  lemma {:induction false} LoneThen(s: Text, n: Numeral, v: Word)
    requires WellFormed(n) && Stands(s, 0, n) && Value(n) == v && OverAt(s, Width(n), n) && At(s, Width(n)) != '.'
    ensures Parse(s) == if Ends(At(s, Width(n))) then Some(v) else None
  {
    ScanNumeralReads(s, 0, n);
    assert Wrap(v) == v;
    Powers();
  }

  lemma Behind(front: Text, t: Text, c: char, rest: Text)
    ensures var s := front + t + [c] + rest;
      Occurs(s, |front|, t) && At(s, |front| + |t|) == c && forall k :: 0 <= k < |front| ==> At(s, k) == front[k]
  {
  }

  /** A word printed in octal behind a 0 reads back, whatever stands behind its end. */
  lemma OctalReadsBack(x: Word, c: char, rest: Text)
    requires Ends(c)
    ensures Parse("0" + Oct(x) + [c] + rest) == Some(x)
  {
    OctValue(x);
    Behind("0", Oct(x), c, rest);
    LoneThen("0" + Oct(x) + [c] + rest, OctNum(Oct(x)), x);
  }

  /** So does a word printed in hexadecimal, in either case, behind 0x or 0X; and it is the seven
      characters that may end it, besides a dot before a further part. */
  lemma HexReadsBack(x: Word, digits: Text, prefix: char, c: char, rest: Text)
    requires (digits == LOWER || digits == UPPER) && (prefix == 'x' || prefix == 'X')
    requires c !in XDIGITS && c != '.'
    ensures Parse(['0', prefix] + Hex(x, digits) + [c] + rest) == if Ends(c) then Some(x) else None
  {
    var t := Hex(x, digits);
    HexValue(x, digits);
    Behind(['0', prefix], t, c, rest);
    if IsXDigit(c) {
      XDigitListed(c);
      assert false;
    }
    LoneThen(['0', prefix] + t + [c] + rest, HexNum(prefix, t), x);
  }

  const XDIGITS: Text := "0123456789abcdefABCDEF"

  lemma XDigitListed(c: char)
    requires IsXDigit(c)
    ensures c in XDIGITS
  {
    if IsDigit(c) {
      assert XDIGITS[c as int - '0' as int] == c;
    } else if 'a' <= c <= 'f' {
      assert XDIGITS[c as int - 'a' as int + 10] == c;
    } else {
      assert XDIGITS[c as int - 'A' as int + 16] == c;
    }
  }

  /** A word printed in decimal reads back. */
  lemma {:induction false} DecimalReadsBack(x: Word, c: char, rest: Text)
    requires Ends(c)
    ensures Parse(Dec(x) + [c] + rest) == Some(x)
  {
    var s := Dec(x) + [c] + rest;
    DecShows(x);
    Behind("", Dec(x), c, rest);
    assert s == "" + Dec(x) + [c] + rest;
    if x == 0 { ZeroReads(s, c); } else { LoneThen(s, DecNum(Dec(x)), x); }
  }

  lemma ZeroReads(s: Text, c: char)
    requires |s| >= 2 && s[0] == '0' && s[1] == c && Ends(c)
    ensures Parse(s) == Some(0)
  {
    assert Occurs(s, 1, []);
    LoneThen(s, OctNum([]), 0);
  }

  // ---------- fewer than four parts ----------

  lemma {:induction false} TwoRead(s: Text, a: nat, b: nat) returns (ns: seq<Numeral>)
    requires s == Dec(a) + "." + Dec(b)
    ensures Reads(s, ns) && HaveValues(ns, [a, b])
  {
    var i1 := |Dec(a)| + 1;
    assert Occurs(s, 0, Dec(a)) && At(s, i1 - 1) == '.' && Occurs(s, i1, Dec(b)) && At(s, i1 + |Dec(b)|) == '\0';
    ByteStands(s, 0, a);
    ByteStands(s, i1, b);
    ns := [ByteNumeral(a), ByteNumeral(b)];
    assert Shows(s, i1, ns, 1);
  }

  lemma DenotedTwo(a: Word, b: Word)
    ensures Denoted(Wrapped([a, b])) == if a <= 0xff && b <= 0xffffff then Some(a * 0x1000000 + b) else None
  {
    assert Wrapped([a, b]) == [a, b];
    Powers();
  }

  /** a.b: 8 bits and 24 bits. */
  lemma {:induction false} TwoParts(a: Word, b: Word)
    ensures Parse(Dec(a) + "." + Dec(b)) == if a <= 0xff && b <= 0xffffff then Some(a * 0x1000000 + b) else None
  {
    var ns := TwoRead(Dec(a) + "." + Dec(b), a, b);
    ReadsDenotes(Dec(a) + "." + Dec(b), ns, [a, b]);
    DenotedTwo(a, b);
  }

  lemma ThreePieces(s: Text, a: Text, b: Text, c: Text)
    requires s == a + "." + b + "." + c
    ensures Occurs(s, 0, a) && At(s, |a|) == '.' && Occurs(s, |a| + 1, b) && At(s, |a| + 1 + |b|) == '.'
    ensures Occurs(s, |a| + 1 + |b| + 1, c) && At(s, |a| + 1 + |b| + 1 + |c|) == '\0'
  {
  }

  lemma {:induction false} ThreeShow(s: Text, ns: seq<Numeral>, i1: nat, i2: nat)
    requires |ns| == 3 && forall k :: 0 <= k < 3 ==> WellFormed(ns[k])
    requires Stands(s, 0, ns[0]) && i1 == Width(ns[0]) + 1 && At(s, i1 - 1) == '.'
    requires Stands(s, i1, ns[1]) && i2 == i1 + Width(ns[1]) + 1 && At(s, i2 - 1) == '.'
    requires Stands(s, i2, ns[2]) && At(s, i2 + Width(ns[2])) == '\0'
    ensures Reads(s, ns)
  {
    assert Shows(s, i2, ns, 2);
    assert Shows(s, i1, ns, 1);
  }

  lemma {:induction false} ThreeValues(n2: Numeral, n1: Numeral, n0: Numeral)
    requires WellFormed(n2) && WellFormed(n1) && WellFormed(n0)
    ensures HaveValues([n2, n1, n0], [Value(n2), Value(n1), Value(n0)])
  {
  }

  lemma {:induction false} ThreeRead(s: Text, a: nat, b: nat, c: nat, i1: nat, i2: nat) returns (ns: seq<Numeral>)
    requires i1 == |Dec(a)| + 1 && i2 == i1 + |Dec(b)| + 1
    requires Occurs(s, 0, Dec(a)) && At(s, i1 - 1) == '.' && Occurs(s, i1, Dec(b)) && At(s, i2 - 1) == '.'
    requires Occurs(s, i2, Dec(c)) && At(s, i2 + |Dec(c)|) == '\0'
    ensures Reads(s, ns) && HaveValues(ns, [a, b, c])
  {
    ByteStands(s, 0, a);
    ByteStands(s, i1, b);
    ByteStands(s, i2, c);
    ns := [ByteNumeral(a), ByteNumeral(b), ByteNumeral(c)];
    ThreeValues(ByteNumeral(a), ByteNumeral(b), ByteNumeral(c));
    ThreeShow(s, ns, i1, i2);
  }

  lemma DenotedThree(a: Word, b: Word, c: Word)
    ensures Denoted(Wrapped([a, b, c]))
      == if a <= 0xff && b <= 0xff && c <= 0xffff then Some(a * 0x1000000 + b * 0x10000 + c) else None
  {
    assert Wrapped([a, b, c]) == [a, b, c];
    Powers();
  }

  /** a.b.c: 8, 8 and 16 bits. */
  lemma {:induction false} ThreeParts(a: Word, b: Word, c: Word)
    ensures Parse(Dec(a) + "." + Dec(b) + "." + Dec(c))
      == if a <= 0xff && b <= 0xff && c <= 0xffff then Some(a * 0x1000000 + b * 0x10000 + c) else None
  {
    var i1 := |Dec(a)| + 1;
    ThreePieces(Dec(a) + "." + Dec(b) + "." + Dec(c), Dec(a), Dec(b), Dec(c));
    var ns := ThreeRead(Dec(a) + "." + Dec(b) + "." + Dec(c), a, b, c, i1, i1 + |Dec(b)| + 1);
    ReadsDenotes(Dec(a) + "." + Dec(b) + "." + Dec(c), ns, [a, b, c]);
    DenotedThree(a, b, c);
  }
}
