/** What the characters of %e, %f and %g mean: a decimal floating constant, read as section
    6.4.4.2 of ISO/IEC 9899:1999 gives it a value. */
module DblRead {
  import opened Decimal
  import opened DblScale
  import opened DblPrint
  import opened DblCvt
  import HexRead
  import Hfp

  // ---- the reader -----------------------------------------------------------------

  /** dd.ddd */
  function NumberOf(t: string): real {
    var p := Point(t);
    var part := if p < |t| then t[p + 1..] else "";
    Shift(Read(t[..p] + part) as real, -|part|)
  }

  /** The letter, the sign and the digits of an exponent. */
  function ReadExp(t: string): int {
    if |t| < 2 then 0 else if t[1] == '-' then -Read(t[2..]) else Read(t[2..])
  }

  /** dd.ddd or dd.ddde+dd */
  function Unsigned(t: string): real {
    var p := HexRead.Place(t, "eE");
    Shift(NumberOf(t[..p]), if p < |t| then ReadExp(t[p..]) else 0)
  }

  function ReadNumber(t: string): real { if t != "" && t[0] == '-' then -Unsigned(t[1..]) else Unsigned(t) }

  // ---- the exponent ---------------------------------------------------------------

  lemma DigitRead(d: nat)
    ensures Digit(d) as int - '0' as int == d % 10
  {
  }

  lemma ReadTwo(a: char, b: char)
    ensures Read([a, b]) == (a as int - '0' as int) * 10 + (b as int - '0' as int)
  {
    assert [a, b][..1] == [a] && [a][..0] == "";
    assert Read([a]) == a as int - '0' as int;
  }

  lemma ExpTextReads(exp: int, upper: bool)
    ensures var m := (if exp < 0 then -exp else exp) % 100;
      ReadExp(ExpText(exp, upper)) == if exp < 0 then -m else m
  {
    hide Read;
    var v := if exp < 0 then -exp else exp;
    var t := ExpText(exp, upper);
    assert t[2..] == [Digit(v / 10), Digit(v)];
    DigitRead(v / 10);
    DigitRead(v);
    ReadTwo(Digit(v / 10), Digit(v));
  }

  /** The two digits are the exponent exactly when it has no third. */
  lemma ExponentExact(exp: int, upper: bool)
    ensures ReadExp(ExpText(exp, upper)) == exp <==> -100 < exp < 100
  {
    hide ExpText, ReadExp;
    ExpTextReads(exp, upper);
  }

  /** 10**150 would be printed as 10**50. */
  lemma ThreeDigits()
    ensures ExpText(150, false) == ExpText(50, false) == "e+50"
  {
  }

  // ---- the digits -----------------------------------------------------------------

  predicate Figures(t: string) { forall i :: 0 <= i < |t| ==> '0' <= t[i] <= '9' }

  lemma {:induction false} FixedFigures(v: nat, n: nat)
    ensures Figures(Fixed(v, n))
    decreases n
  {
    if n > 0 { FixedFigures(v / 10, n - 1); }
  }

  lemma {:induction false} WholeFigures(v: nat)
    ensures Figures(Whole(v))
    decreases v
  {
    if v >= 10 { WholeFigures(v / 10); }
  }

  lemma {:induction false} ReadFixed(v: nat, n: nat)
    requires v < Pow(n)
    ensures Read(Fixed(v, n)) == v
    decreases n
  {
    if n > 0 {
      var t := Fixed(v, n);
      assert t[..n - 1] == Fixed(v / 10, n - 1);
      ReadFixed(v / 10, n - 1);
    }
  }

  lemma PointIs(t: string, n: nat)
    requires n <= |t| && (n < |t| ==> t[n] == '.') && forall i :: 0 <= i < n ==> t[i] != '.'
    ensures Point(t) == n
  {
  }

  /** Digits, a point where there are decimals or the flag asks for one, and decimals. */
  lemma NumberParts(whole: string, part: string, alt: bool)
    requires Figures(whole)
    ensures NumberOf(whole + (if part != "" || alt then "." else "") + part) ==
            Shift(Read(whole + part) as real, -|part|)
  {
    hide Read, Shift;
    var t := whole + (if part != "" || alt then "." else "") + part;
    PointIs(t, |whole|);
    assert t[..|whole|] == whole;
    if part != "" || alt { assert t[|whole| + 1..] == part; } else { assert whole + "" == whole; }
  }

  lemma FixedReads(n: nat, p: nat, alt: bool)
    ensures NumberOf(FixedText(n, p, alt)) == Shift(n as real, -(p as int))
  {
    hide NumberOf, Shift, Read;
    WholeFigures(Top(n, p));
    NumberParts(Whole(Top(n, p)), Fixed(n, p), alt);
    FixedTextReads(n, p);
    assert p > 0 <==> Fixed(n, p) != "";
  }

  lemma ScientificReads(n: nat, p: nat, alt: bool)
    requires n < Pow(p + 1)
    ensures NumberOf(ScientificText(n, p, alt)) == Shift(n as real, -(p as int))
  {
    hide NumberOf, Shift, Read, Fixed;
    var f := Fixed(n, p + 1);
    FixedFigures(n, p + 1);
    NumberParts(f[..1], f[1..], alt);
    assert f[..1] + f[1..] == f;
    ReadFixed(n, p + 1);
    assert p > 0 <==> f[1..] != "";
  }

  // ---- %g: the zeros that are dropped -----------------------------------------------

  lemma {:induction false} StripZerosShape(t: string)
    ensures var z := StripZeros(t);
      && (forall i :: |z| <= i < |t| ==> t[i] == '0') && (z != "" ==> z[|z| - 1] != '0')
    decreases |t|
  {
    if t != [] && t[|t| - 1] == '0' { StripZerosShape(t[..|t| - 1]); }
  }

  /** Only zeros behind the point go, all of them, and the point with the last of them. */
  lemma StripShape(t: string)
    ensures var r := Strip(t);
      && r <= t && Point(t) <= |r| && (Point(t) == |t| ==> r == t)
      && (forall i :: |r| <= i < |t| ==> i >= Point(t) && (i == Point(t) || t[i] == '0'))
      && (Point(t) < |t| ==> |r| != Point(t) + 1 && (|r| > Point(t) ==> r[|r| - 1] != '0'))
  {
    StripZerosShape(t);
    if Point(t) < |t| { StripKeeps(t, Point(t)); }
  }

  lemma {:induction false} ReadZeros(t: string, k: nat)
    requires k <= |t| && forall i :: k <= i < |t| ==> t[i] == '0'
    ensures Read(t) as real == Shift(Read(t[..k]) as real, |t| - k)
    decreases |t| - k
  {
    if k == |t| {
      assert t[..k] == t;
      ShiftZero(Read(t) as real);
    } else {
      var u := t[..|t| - 1];
      assert u[..k] == t[..k];
      ReadZeros(u, k);
      assert Read(t) == Read(u) * 10;
      hide Shift;
      ShiftOne(Read(u) as real);
      ShiftTwice(Read(t[..k]) as real, |u| - k, 1);
    }
  }

  /** Decimals that are zeros add nothing. */
  lemma ZeroDecimals(whole: string, part: string, k: nat)
    requires k <= |part| && forall i :: k <= i < |part| ==> part[i] == '0'
    ensures Shift(Read(whole + part) as real, -|part|) == Shift(Read(whole + part[..k]) as real, -(k as int))
  {
    hide Read, Shift;
    var digits := whole + part;
    assert digits[..|whole| + k] == whole + part[..k];
    ReadZeros(digits, |whole| + k);
    ShiftTwice(Read(whole + part[..k]) as real, |part| - k, -|part|);
  }

  /** Stripping keeps the number. */
  lemma StripReads(t: string)
    ensures NumberOf(Strip(t)) == NumberOf(t)
  {
    hide Read, Shift, Strip;
    StripShape(t);
    var r, p := Strip(t), Point(t);
    if p < |t| {
      var k := if |r| == p then 0 else |r| - p - 1;
      StrippedIs(t, r, p, k);
      ZeroDecimals(t[..p], t[p + 1..], k);
    }
  }

  lemma StrippedIs(t: string, r: string, p: nat, k: nat)
    requires r <= t && p == Point(t) < |t| && (|r| == p || |r| > p + 1) && k == (if |r| == p then 0 else |r| - p - 1)
    ensures k <= |t[p + 1..]|
    ensures NumberOf(r) == Shift(Read(t[..p] + t[p + 1..][..k]) as real, -(k as int))
  {
    hide Read, Shift;
    if |r| == p {
      PointIs(r, p);
      assert r[..p] == t[..p] && t[p + 1..][..0] == "";
    } else {
      PointIs(r, p);
      assert r[..p] == t[..p] && r[p + 1..] == t[p + 1..][..k];
    }
  }

  lemma {:induction false} StripZerosBehind(c: char, t: string, p: nat)
    requires p < |t| && t[p] != '0'
    ensures StripZeros([c] + t) == [c] + StripZeros(t)
    decreases |t|
  {
    var u := [c] + t;
    if t[|t| - 1] == '0' {
      assert u[..|u| - 1] == [c] + t[..|t| - 1];
      StripZerosBehind(c, t[..|t| - 1], p);
    }
  }

  /** The sign is not in the way. */
  lemma StripSigned(neg: bool, t: string)
    ensures Strip(Signed(neg, t)) == Signed(neg, Strip(t))
  {
    if neg {
      var u, p := "-" + t, Point(t);
      PointIs(u, p + 1);
      if p < |t| {
        StripZerosBehind('-', t, p);
        StripKeeps(t, p);
      }
    } else {
      assert Signed(neg, t) == t && Signed(neg, Strip(t)) == Strip(t);
    }
  }

  // ---- the value printed -------------------------------------------------------------

  /** What a conversion that is not cut short says of v. */
  function Printed(c: char, v: real, x: int, precision: nat): real {
    var (scientific, p) := Style(c, v, x, precision);
    if scientific then var (n, y) := Digits(v, x, if p < 0 then 0 else p); Shift(n as real, y - p)
    else Shift(Nearest(v, p) as real, -p)
  }

  /** The last place asked for of a number with decimal exponent x: so many places behind
      the first digit for e, so many behind the point for f, so many digits in all - one at
      least - for g. */
  function LastPlace(c: char, x: int, precision: nat): int {
    if c == 'e' || c == 'E' then x - precision
    else if c == 'g' || c == 'G' then x + 1 - if precision > 0 then precision else 1
    else -(precision as int)
  }

  /** One digit in front of the point, not a zero, and p behind it. */
  lemma DigitsNormal(v: real, x: int, p: nat)
    requires IsExponent(v, x) && v != 0.0
    ensures Pow(p) <= Digits(v, x, p).0 < Pow(p + 1)
    ensures x <= Digits(v, x, p).1 <= x + 1
  {
    hide Shift, Ten;
    var b := Shift(v, -x);
    TenPow(p);
    TenPow(p + 1);
    TenNext(p);
    Unit(p);
    ShiftLe(1.0, b, p);
    ShiftLt(b, 10.0, p);
  }

  lemma NearestWithin(v: real, p: int)
    ensures -Shift(0.5, -p) <= Shift(Nearest(v, p) as real, -p) - v <= Shift(0.5, -p)
  {
    hide Ten;
    var w, n := Shift(v, p), Nearest(v, p) as real;
    assert w - 0.5 <= n <= w + 0.5;
    hide Shift;
    ShiftTwice(v, p, -p);
    ShiftZero(v);
    ShiftPlus(n, 0.5, -p);
    ShiftPlus(w, 0.5, -p);
    ShiftLe(w, n + 0.5, -p);
    ShiftLe(n, w + 0.5, -p);
  }

  /** The carry does not change the value. */
  lemma CarriedValue(b: real, x: int, p: nat)
    ensures var (n, y) := Scientific(b, x, p); Shift(n as real, y - p) == Shift(Nearest(b, p) as real, x - p)
  {
    hide Shift, Nearest;
    var q := Pow(p) as real;
    ShiftTwice(q, 1, x - p);
    ShiftOne(q);
    assert Pow(p + 1) as real == q * 10.0;
  }

  lemma ScientificWithin(v: real, x: int, p: nat)
    ensures var n, h := Shift(Nearest(Shift(v, -x), p) as real, x - p), Shift(0.5, x - p); -h <= n - v <= h
  {
    hide Shift, Nearest;
    var b := Shift(v, -x);
    var n := Shift(Nearest(b, p) as real, -(p as int));
    NearestWithin(b, p);
    ShiftTwice(Nearest(b, p) as real, -(p as int), x);
    ShiftTwice(0.5, -(p as int), x);
    ShiftTwice(v, -x, x);
    ShiftZero(v);
    var h := Shift(0.5, -(p as int));
    ShiftPlus(n, h, x);
    ShiftPlus(b, h, x);
    ShiftLe(n, b + h, x);
    ShiftLe(b, n + h, x);
  }

  /** In each style the value printed is within half a unit of the last place of v. */
  lemma PrintedNear(c: char, v: real, x: int, precision: nat)
    requires IsExponent(v, x)
    ensures var h := Shift(0.5, LastPlace(c, x, precision));
      -h <= Printed(c, v, x, precision) - v <= h
  {
    hide Shift, Nearest, Scientific;
    var (scientific, p) := Style(c, v, x, precision);
    if v == 0.0 {
      ZeroShifts(LastPlace(c, x, precision));
      ZeroPrinted(c, x, precision);
    } else if scientific {
      CarriedValue(Shift(v, -x), x, p);
      ScientificWithin(v, x, p);
    } else if !General(c) {
      NearestWithin(v, p);
    } else {
      GeneralFixed(v, x, if precision > 0 then precision else 1);
    }
  }

  lemma ZeroPrinted(c: char, x: int, precision: nat)
    ensures Printed(c, 0.0, x, precision) == 0.0
  {
    hide Scientific;
    var (scientific, p) := Style(c, 0.0, x, precision);
    if !scientific { ZeroNearest(p); }
    ZeroShifts(-p);
    ZeroShifts(0 - p);
  }

  /** Where the rounding of %g carries into a new digit, the f style shows one decimal less,
      and the same number. */
  lemma GeneralFixed(v: real, x: int, sig: nat)
    requires IsExponent(v, x) && v != 0.0 && sig > 0
    ensures var p := sig - 1 - Scientific(Shift(v, -x), x, sig - 1).1; var h := Shift(0.5, x + 1 - sig);
      -h <= Shift(Nearest(v, p) as real, -p) - v <= h
  {
    hide Shift, Nearest;
    var q := sig - 1 - x;
    NearestWithin(v, q);
    SameNearest(v, x, sig - 1);
    if Nearest(Shift(v, -x), sig - 1) == Pow(sig) {
      CarryNearest(v, q, sig);
      var t := Pow(sig - 1) as real;
      assert Pow(sig) as real == t * 10.0;
      ShiftOne(t);
      ShiftTwice(t, 1, -q);
    }
  }

  lemma SameNearest(v: real, x: int, p: nat)
    ensures Nearest(Shift(v, -x), p) == Nearest(v, p - x)
  {
    hide Shift;
    ShiftTwice(v, -x, p);
  }

  /** A number that rounds up to a power of ten does so one place earlier too. */
  lemma CarryNearest(v: real, q: int, sig: nat)
    requires sig > 0 && Nearest(v, q) == Pow(sig) && IsExponent(v, sig - 1 - q) && v != 0.0
    ensures Nearest(v, q - 1) == Pow(sig - 1)
  {
    hide Shift, Ten;
    var w := Shift(v, q);
    ShiftTwice(v, q, -1);
    ShiftOne(w);
    ShiftTwice(v, q - sig + 1, sig - 1);
    TenPow(sig - 1);
    Unit(sig - 1);
    ShiftLt(Shift(v, q - sig + 1), 10.0, sig - 1);
    assert w < Pow(sig) as real;
  }

  lemma ZeroShifts(n: int)
    ensures Shift(0.0, n) == 0.0 && Shift(0.5, n) >= 0.0
  {
    hide Ten;
  }

  // ---- the range of a double ------------------------------------------------------------

  lemma {:induction false} SixteensTens(m: nat)
    ensures Hfp.P16(4 * m) <= Ten(5 * m)
    decreases m
  {
    if m > 0 {
      SixteensTens(m - 1);
      Hfp.P16Add(4 * (m - 1), 4);
      TenAdd(5 * (m - 1), 5);
      FourFive();
      var a, b := Hfp.P16(4 * (m - 1)), Ten(5 * (m - 1));
      hide Hfp.P16, Ten;
      Hfp.MulLe(a, b, 65536.0);
      assert b * 65536.0 <= b * 100000.0;
    }
  }

  lemma FourFive()
    ensures Hfp.P16(4) == 65536.0 && Ten(5) == 100000.0
    ensures Hfp.P16(3) == 4096.0 && Ten(4) == 10000.0 && Hfp.P16(2) == 256.0 && Ten(3) == 1000.0
  {
    assert Hfp.P16(2) == 256.0;
    assert Ten(3) == 1000.0;
  }

  lemma LeProduct(a: real, b: real, k: real, l: real)
    requires 0.0 < a <= b && 0.0 < k <= l
    ensures a * k <= b * l
  {
    Hfp.MulLe(a, b, k);
    Hfp.MulLe(k, l, b);
  }

  /** 16**(4m + i) against 10**(5m + j). */
  lemma PowersLe(m: nat, i: nat, j: nat)
    requires Hfp.P16(i) <= Ten(j)
    ensures Hfp.P16(4 * m + i) <= Ten(5 * m + j)
  {
    SixteensTens(m);
    Hfp.P16Add(4 * m, i);
    TenAdd(5 * m, j);
    LeProduct(Hfp.P16(4 * m), Ten(5 * m), Hfp.P16(i), Ten(j));
  }

  lemma TopOfRange()
    ensures Hfp.P16(63) <= Ten(79) && Hfp.P16(78) <= Ten(98)
  {
    FourFive();
    hide Hfp.P16, Ten;
    PowersLe(15, 3, 4);
    PowersLe(19, 2, 3);
  }

  lemma P16Inverse(n: nat)
    ensures Hfp.P16(-(n as int)) * Hfp.P16(n) == 1.0
  {
    Hfp.P16Add(-(n as int), n);
  }

  lemma Reciprocal(a: real, b: real, c: real, d: real)
    requires a > 0.0 && b > 0.0 && a * b == 1.0 && c * d == 1.0 && c > 0.0 && d > 0.0 && b <= d
    ensures c <= a
  {
    Hfp.MulLe(b, d, a * c);
    assert b * (a * c) == (a * b) * c == c;
    assert d * (a * c) == (c * d) * a == a;
  }

  lemma {:induction false} P16Le(m: int, n: int)
    requires m <= n
    ensures Hfp.P16(m) <= Hfp.P16(n)
    decreases n - m
  {
    if m < n {
      P16Le(m, n - 1);
      Hfp.P16Next(n - 1);
    }
  }

  lemma FractionBounds(f: int, e: int)
    requires 0 < f < Hfp.DIGITS && -78 <= e <= 49
    ensures Hfp.P16(-78) <= Hfp.Scaled(f, e) < Hfp.P16(63)
  {
    hide *;
    P16Le(-78, e);
    P16Le(e + 14, 63);
    Hfp.P16Add(e, 14);
    Fourteen();
    ScaledIs(f, e);
    Within(f as real, Hfp.DIGITS as real, Hfp.P16(e), Hfp.P16(14), Hfp.P16(-78), Hfp.P16(63));
  }

  lemma ScaledIs(f: int, e: int)
    ensures Hfp.Scaled(f, e) == f as real * Hfp.P16(e) && Hfp.P16(e) > 0.0
    ensures 0 < f < Hfp.DIGITS ==> 1.0 <= f as real < Hfp.DIGITS as real
  {
  }

  lemma Within(f: real, d: real, p: real, q: real, lo: real, hi: real)
    requires 1.0 <= f < d == q && 0.0 < lo <= p && p * q <= hi
    ensures lo <= f * p < hi
  {
    Between(f, d, p);
    Commute(p, q);
  }

  lemma Between(f: real, d: real, p: real)
    requires 1.0 <= f < d && p > 0.0
    ensures p <= f * p < d * p
  {
    Hfp.MulLe(1.0, f, p);
    Less(f, d, p);
  }

  lemma Commute(a: real, b: real)
    ensures a * b == b * a
  {
  }

  lemma Less(a: real, b: real, p: real)
    requires a < b && p > 0.0
    ensures a * p < b * p
  {
  }

  lemma Fourteen()
    ensures Hfp.P16(14) == Hfp.DIGITS as real
  {
    assert Hfp.P16(5) == 1048576.0;
    assert Hfp.P16(10) == 1099511627776.0;
  }

  /** A double that is not zero lies between 10**-98 and 10**79: the search covers it, and
      its exponent has two digits. */
  lemma DoubleRange(v: real, x: int)
    requires Hfp.Rep(v) && v > 0.0 && IsExponent(v, x)
    ensures Ten(-98) <= v < Ten(79) && InRange(v) && -98 <= x <= 78
  {
    var f, e :| Hfp.IsHfp(v, f, e);
    HfpBounds(v, f, e);
    hide Ten, Shift;
    TenLe(-330, -98);
    TenLe(79, 330);
    ExponentBounds(v, x, -98, 79);
  }

  lemma HfpBounds(v: real, f: int, e: int)
    requires Hfp.IsHfp(v, f, e) && v > 0.0
    ensures Ten(-98) <= v < Ten(79)
  {
    hide Ten, Hfp.P16, Hfp.Scaled;
    PositiveFraction(f, e);
    FractionBounds(f, e);
    TopOfRange();
    P16Inverse(78);
    TenInverse(98);
    Reciprocal(Hfp.P16(-78), Hfp.P16(78), Ten(-98), Ten(98));
  }

  lemma PositiveFraction(f: int, e: int)
    requires Hfp.Scaled(f, e) > 0.0
    ensures f > 0
  {
    var p := Hfp.P16(e);
    hide Hfp.P16;
    if f <= 0 { Hfp.MulLe(f as real, 0.0, p); }
  }

  lemma {:induction false} TenLe(m: int, n: int)
    requires m <= n
    ensures Ten(m) <= Ten(n)
    decreases n - m
  {
    if m < n {
      TenLe(m, n - 1);
      TenNext(n - 1);
    }
  }

  lemma ExponentBounds(v: real, x: int, lo: int, hi: int)
    requires Ten(lo) <= v < Ten(hi) && 1.0 <= Shift(v, -x) < 10.0
    ensures lo <= x < hi
  {
    assert Ten(0) == 1.0 && Ten(1) == 10.0;
    assert Shift(1.0, lo) == Ten(lo) && Shift(1.0, hi) == Ten(hi);
    hide Ten;
    ShiftLe(Ten(lo), v, -x);
    ShiftLt(v, Ten(hi), -x);
    ShiftTwice(1.0, lo, -x);
    ShiftTwice(1.0, hi, -x);
    assert Shift(1.0, lo - x) == Ten(lo - x) && Shift(1.0, hi - x) == Ten(hi - x);
    if x >= hi { TenLe(hi - x, 0); }
    if x < lo { TenLe(1, lo - x); }
  }

  // ---- the whole text ---------------------------------------------------------------------

  predicate Plain(t: string) { forall i :: 0 <= i < |t| ==> t[i] == '.' || '0' <= t[i] <= '9' }

  lemma FixedPlain(n: nat, p: nat, alt: bool)
    ensures Plain(FixedText(n, p, alt))
  {
    WholeFigures(Top(n, p));
    FixedFigures(n, p);
    hide Whole, Fixed, Top;
  }

  lemma ScientificPlain(n: nat, p: nat, alt: bool)
    ensures Plain(ScientificText(n, p, alt))
  {
    FixedFigures(n, p + 1);
    hide Fixed;
  }

  lemma UnsignedParts(u: string, e: string)
    requires Plain(u) && (e == "" || e[0] == 'e' || e[0] == 'E')
    ensures Unsigned(u + e) == Shift(NumberOf(u), if e == "" then 0 else ReadExp(e))
  {
    hide Shift, NumberOf, ReadExp;
    var t := u + e;
    HexRead.PlaceIs(t, "eE", |u|);
    assert t[..|u|] == u && t[|u|..] == e;
  }

  lemma SignRead(neg: bool, t: string)
    requires t == "" || t[0] != '-'
    ensures ReadNumber(Signed(neg, t)) == if neg then -Unsigned(t) else Unsigned(t)
  {
    hide Unsigned;
    if neg { assert Signed(neg, t)[1..] == t; } else { assert Signed(neg, t) == t; }
  }

  lemma SignFirst(neg: bool, u: string, e: string)
    ensures Signed(neg, u) + e == Signed(neg, u + e)
  {
  }

  /** Body, stripped or not, and exponent. */
  lemma PartsRead(neg: bool, body: string, strip: bool, e: string)
    requires Plain(body) && (e == "" || e[0] == 'e' || e[0] == 'E')
    ensures var t := Signed(neg, body); var v := Shift(NumberOf(body), if e == "" then 0 else ReadExp(e));
      ReadNumber((if strip then Strip(t) else t) + e) == if neg then -v else v
  {
    hide Shift, NumberOf, ReadExp, Unsigned, ReadNumber, Strip, Signed;
    var u := if strip then Strip(body) else body;
    StripSigned(neg, body);
    StripShape(body);
    StripReads(body);
    SignFirst(neg, u, e);
    UnsignedParts(u, e);
    SignRead(neg, u + e);
  }

  /** The arithmetic is exact as far as the 17 digits behind the first the rounding is done
      at. */
  predicate Exact(c: char, x: int, precision: nat) {
    if c == 'e' || c == 'E' then precision <= 17
    else if c == 'g' || c == 'G' then precision <= 18
    else x + precision <= 17
  }

  lemma ExactStyle(c: char, v: real, x: int, precision: nat)
    requires IsExponent(v, x) && Exact(c, x, precision)
    ensures var (scientific, p) := Style(c, v, x, precision);
      (!General(c) || precision <= MAXRND + 1) && p >= 0 && if scientific then p <= MAXRND else x + p <= MAXRND
  {
    hide Shift, Nearest;
  }

  predicate Fits(neg: bool, s: State, alt: bool, lim: nat)
    requires IsReady(s)
  {
    |Signed(neg, Body(s, alt))| + (if s.format == 0 then 5 else 0) <= lim
  }

  /** With room for it, the text of %e, %f or %g is a constant that has the value the
      conversion asks for. */
  lemma TextReads(neg: bool, c: char, v: real, x: int, precision: nat, alt: bool, s: State, lim: nat)
    requires Means(c, v, x, precision, alt, s) && Exact(c, x, precision) && Fits(neg, s, alt, lim)
    requires s.format == 0 ==> -100 < s.exp < 100
    ensures ReadNumber(Shown(neg, c, s, alt, lim)) ==
            if neg then -Printed(c, v, x, precision) else Printed(c, v, x, precision)
  {
    hide Body, Shift, Scientific, Nearest, Strip, ReadNumber, ExpText, ReadExp, NumberOf, Shown, Digits;
    NothingCut(neg, c, s, alt, lim);
    ExactStyle(c, v, x, precision);
    var (scientific, p) := Style(c, v, x, precision);
    if scientific {
      var (n, y) := Digits(v, x, p);
      DigitsSmall(v, x, p);
      ScientificPlain(n, p, alt);
      ScientificReads(n, p, alt);
      ExponentExact(y, Upper(c));
      ExpLetter(y, Upper(c));
      PartsRead(neg, Body(s, alt), General(c) && !alt, ExpText(y, Upper(c)));
      ShiftTwice(n as real, -p, y);
    } else {
      var n := Nearest(v, p);
      FixedPlain(n, p, alt);
      FixedReads(n, p, alt);
      PartsRead(neg, Body(s, alt), General(c) && !alt, "");
      ShiftTwice(n as real, -p, 0);
    }
  }

  lemma DigitsSmall(v: real, x: int, p: nat)
    requires IsExponent(v, x)
    ensures Digits(v, x, p).0 < Pow(p + 1)
  {
    if v != 0.0 { DigitsNormal(v, x, p); }
  }

  lemma ExpLetter(exp: int, upper: bool)
    ensures ExpText(exp, upper) != "" && (ExpText(exp, upper)[0] == 'e' || ExpText(exp, upper)[0] == 'E')
  {
  }

  lemma MagnitudeRep(num: real)
    requires Hfp.Rep(num)
    ensures Hfp.Rep(Magnitude(num))
  {
    var f, e :| Hfp.IsHfp(num, f, e);
    hide Hfp.P16;
    if num < 0.0 { assert Hfp.IsHfp(-num, -f, e); }
  }

  /** The exponent printed of a double has two digits. */
  lemma TwoDigits(c: char, v: real, x: int, precision: nat, alt: bool, s: State)
    requires Hfp.Rep(v) && v >= 0.0 && Means(c, v, x, precision, alt, s) && Exact(c, x, precision) && s.format == 0
    ensures -100 < s.exp < 100
  {
    hide Body, Shift, Scientific, Nearest, Hfp.Rep;
    ExactStyle(c, v, x, precision);
    if v != 0.0 {
      DoubleRange(v, x);
      DigitsNormal(v, x, s.p);
    }
  }

  /** Every double, in every style: read back, the text is within half a unit of the last
      place asked for of the number printed. */
  lemma TextNear(num: real, c: char, x: int, precision: nat, alt: bool, s: State, lim: nat)
    requires Hfp.Rep(num) && Means(c, Magnitude(num), x, precision, alt, s)
    requires Exact(c, x, precision) && Fits(num < 0.0, s, alt, lim)
    ensures IsExponent(Magnitude(num), x)
    ensures var h := Shift(0.5, LastPlace(c, x, precision));
      -h <= ReadNumber(Shown(num < 0.0, c, s, alt, lim)) - num <= h
  {
    hide Means, Exact, Fits, Shift, ReadNumber, Shown, Printed, LastPlace, Hfp.Rep;
    var v := Magnitude(num);
    MagnitudeRep(num);
    MeansReady(c, v, x, precision, alt, s);
    MeansExponent(c, v, x, precision, alt, s);
    if s.format == 0 { TwoDigits(c, v, x, precision, alt, s); }
    TextReads(num < 0.0, c, v, x, precision, alt, s, lim);
    PrintedNear(c, v, x, precision);
  }

  lemma MeansExponent(c: char, v: real, x: int, precision: nat, alt: bool, s: State)
    requires Means(c, v, x, precision, alt, s)
    ensures IsExponent(v, x)
  {
  }
}
