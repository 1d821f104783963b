/** %a: a System/370 double written in hexadecimal, with a carry where a precision cuts
    digits off.  Digits are numbers below 16 here; a number is the two words of the
    double. */
module HexFloat {
  import opened Hfp

  predicate HexDigits(ds: seq<nat>) { forall i :: 0 <= i < |ds| ==> ds[i] < 16 }

  function Pow(n: nat): (p: nat)
    ensures p >= 1
  {
    if n == 0 then 1 else 16 * Pow(n - 1)
  }

  /** The number a string of hex digits denotes. */
  function Hex(ds: seq<nat>): nat {
    if ds == [] then 0 else Hex(ds[..|ds| - 1]) * 16 + ds[|ds| - 1]
  }

  function Zeros(n: nat): (r: seq<nat>)
    ensures |r| == n && forall i :: 0 <= i < n ==> r[i] == 0
  {
    seq(n, _ => 0)
  }

  lemma {:induction false} PowAdd(m: nat, n: nat)
    ensures Pow(m + n) == Pow(m) * Pow(n)
    decreases n
  {
    if n > 0 { PowAdd(m, n - 1); }
  }

  lemma {:induction false} HexConcat(a: seq<nat>, b: seq<nat>)
    ensures Hex(a + b) == Hex(a) * Pow(|b|) + Hex(b)
    decreases |b|
  {
    if b == [] {
      assert a + b == a;
    } else {
      var n := |b| - 1;
      assert (a + b)[..|a + b| - 1] == a + b[..n];
      HexConcat(a, b[..n]);
      Distribute(Hex(a), Pow(n), Hex(b[..n]), b[n]);
    }
  }

  lemma Distribute(a: nat, p: nat, b: nat, d: nat)
    ensures (a * p + b) * 16 + d == a * (16 * p) + (b * 16 + d)
  {
  }

  lemma {:induction false} HexBound(ds: seq<nat>)
    requires HexDigits(ds)
    ensures Hex(ds) < Pow(|ds|)
    decreases |ds|
  {
    if ds != [] { HexBound(ds[..|ds| - 1]); }
  }

  lemma {:induction false} HexZeros(ds: seq<nat>)
    requires forall i :: 0 <= i < |ds| ==> ds[i] == 0
    ensures Hex(ds) == 0
    decreases |ds|
  {
    if ds != [] { HexZeros(ds[..|ds| - 1]); }
  }

  lemma {:induction false} HexTop(ds: seq<nat>)
    requires forall i :: 0 <= i < |ds| ==> ds[i] == 15
    ensures Hex(ds) + 1 == Pow(|ds|)
    decreases |ds|
  {
    if ds != [] { HexTop(ds[..|ds| - 1]); }
  }

  // ---- the double -----------------------------------------------------------------

  /** v in n hex digits: its last n. */
  function Figures(v: nat, n: nat): (r: seq<nat>)
    ensures |r| == n && HexDigits(r)
  {
    if n == 0 then [] else Figures(v / 16, n - 1) + [v % 16]
  }

  /** The 14 fraction digits of the words. */
  function Fraction(w0: nat, w1: nat): (ds: seq<nat>)
    ensures |ds| == 14 && HexDigits(ds)
  {
    Figures(w0, 6) + Figures(w1, 8)
  }

  /** They make up the 56 fraction bits of the double. */
  lemma FractionField(w0: nat, w1: nat)
    requires w1 < Pow(8)
    ensures Hex(Fraction(w0, w1)) == w0 % Pow(6) * Pow(8) + w1
  {
    HexConcat(Figures(w0, 6), Figures(w1, 8));
    HexFigures(w1, 8);
    FiguresMod(w0, 6);
  }

  lemma {:induction false} FiguresMod(v: nat, n: nat)
    ensures Hex(Figures(v, n)) == v % Pow(n)
    decreases n
  {
    if n > 0 {
      FiguresMod(v / 16, n - 1);
      assert Figures(v, n)[..n - 1] == Figures(v / 16, n - 1);
      ModSplit(v, Pow(n - 1));
    }
  }

  lemma ModSplit(v: nat, p: nat)
    requires p > 0
    ensures v % (16 * p) == v / 16 % p * 16 + v % 16
  {
    var q, r := v / 16 / p, v / 16 % p;
    assert v / 16 == q * p + r;
    assert v == q * (16 * p) + (r * 16 + v % 16);
    var m := 16 * p;
    var t := r * 16 + v % 16;
    assert 0 <= t < m;
    Divide(v, q, t, m);
    assert v % m == v - v / m * m;
  }

  function Characteristic(w0: nat): nat { w0 / 0x100_0000 % 128 }

  predicate Negative(w0: nat) { w0 >= 0x8000_0000 }

  /** The magnitude: 0.F * 16**(E - 64). */
  function Magnitude(w0: nat, w1: nat): real { Scaled(Hex(Fraction(w0, w1)), Characteristic(w0) - 78) }

  // ---- the reference: what is to be printed ---------------------------------------

  /** How many zeros lead. */
  function LeadingZeros(ds: seq<nat>): (k: nat)
    ensures k <= |ds| && (forall i :: 0 <= i < k ==> ds[i] == 0) && (k < |ds| ==> ds[k] != 0)
  {
    if ds == [] || ds[0] != 0 then 0 else 1 + LeadingZeros(ds[1..])
  }

  /** Digits and exponent with the first nonzero digit in front; all zeros as they are. */
  function Normal(ds: seq<nat>): (r: seq<nat>)
    ensures |r| == |ds|
  {
    var k := LeadingZeros(ds);
    ds[k..] + Zeros(k)
  }

  function Exponent(w0: nat, w1: nat): int {
    var k := LeadingZeros(Fraction(w0, w1));
    if k == 14 then 0 else Characteristic(w0) - 65 - k
  }

  lemma {:induction false} FiguresHex(ds: seq<nat>)
    requires HexDigits(ds)
    ensures Figures(Hex(ds), |ds|) == ds
    decreases |ds|
  {
    if ds != [] {
      var n := |ds| - 1;
      FiguresHex(ds[..n]);
      assert Hex(ds) / 16 == Hex(ds[..n]) && Hex(ds) % 16 == ds[n];
    }
  }

  /** Number of the last digit that is not zero; -1 if there is none. */
  function LastNonzero(ds: seq<nat>): (n: int)
    ensures -1 <= n < |ds| && (forall i :: n < i < |ds| ==> ds[i] == 0) && (n >= 0 ==> ds[n] != 0)
  {
    if ds == [] then -1 else if ds[|ds| - 1] != 0 then |ds| - 1 else LastNonzero(ds[..|ds| - 1])
  }

  /** N / 16**(13 - nd) to the nearest integer, half up. */
  function Nearest(n: nat, nd: nat): nat
    requires nd < 13
  {
    hide Pow;
    (n + 8 * Pow(12 - nd)) / Pow(13 - nd)
  }

  datatype Shown = Shown(digits: seq<nat>, exponent: int)

  /** What a precision of nd digits after the point shows of the number n, 14 digits
      with the first in front of the point, times 16**e. */
  function Rounded(n: nat, e: int, nd: nat): Shown {
    if nd >= 13 then Shown(Figures(n, 14) + Zeros(nd - 13), e) else
    var r := Nearest(n, nd);
    if r == Pow(nd + 1) then Shown([1] + Zeros(nd), e + 1) else Shown(Figures(r, nd + 1), e)
  }

  function After(w0: nat, w1: nat, prec: int): nat {
    if prec >= 0 then prec else
    var last := LastNonzero(Normal(Fraction(w0, w1)));
    if last < 0 then 0 else last
  }

  /** What %a shows of a double: by arithmetic on the whole fraction. */
  function ShownOf(w0: nat, w1: nat, prec: int): Shown {
    Rounded(Hex(Normal(Fraction(w0, w1))), Exponent(w0, w1), After(w0, w1, prec))
  }

  /** What digits and exponent denote: h.hhh * 16**e, nd digits after the point. */
  function Denoted(s: Shown, nd: nat): real { Scaled(Hex(s.digits), s.exponent - nd) }

  // ---- the digits -----------------------------------------------------------------

  lemma TimesLe(a: int, b: int, m: nat)
    requires a <= b
    ensures a * m <= b * m
  {
  }

  lemma SmallMultiple(k: int, m: int)
    requires 0 < m && -m < k * m < m
    ensures k == 0
  {
    if k >= 1 { TimesLe(1, k, m); } else if k <= -1 { TimesLe(k, -1, m); }
  }

  lemma Divide(a: nat, q: nat, r: nat, m: nat)
    requires m > 0 && a == q * m + r && r < m
    ensures a / m == q
  {
    var t := a / m;
    assert a == t * m + a % m;
    assert (q - t) * m == a % m - r;
    SmallMultiple(q - t, m);
  }

  lemma RoundArithmetic(k: nat, d: nat, r: nat, p: nat)
    requires d < 16 && r < p
    ensures (k * (16 * p) + (d * p + r) + 8 * p) / (16 * p) == if d >= 8 then k + 1 else k
  {
    var up := if d >= 8 then 1 else 0;
    var rest := (d + 8 - 16 * up) * p + r;
    assert 0 <= (d + 8 - 16 * up) * p <= 15 * p;
    Divide(k * (16 * p) + (d * p + r) + 8 * p, k + up, rest, 16 * p);
  }

  lemma HexSplit(ds: seq<nat>, nd: nat)
    requires |ds| == 14 && HexDigits(ds) && nd < 13
    ensures var p := Pow(12 - nd);
      && Hex(ds) == Hex(ds[..nd + 1]) * (16 * p) + (ds[nd + 1] * p + Hex(ds[nd + 2..]))
      && Hex(ds[nd + 2..]) < p && Pow(13 - nd) == 16 * p
  {
    var kept, d, rest := ds[..nd + 1], ds[nd + 1], ds[nd + 2..];
    assert ds == kept + ([d] + rest);
    HexConcat(kept, [d] + rest);
    HexConcat([d], rest);
    assert [d][..0] == [] && Hex([d]) == d;
    HexBound(rest);
  }

  /** Rounding the digits: one more if the first digit cut is 8 or over. */
  lemma RoundDigits(ds: seq<nat>, nd: nat)
    requires |ds| == 14 && HexDigits(ds) && nd < 13
    ensures Nearest(Hex(ds), nd) == Hex(ds[..nd + 1]) + if ds[nd + 1] >= 8 then 1 else 0
  {
    hide Hex, Pow;
    HexSplit(ds, nd);
    RoundArithmetic(Hex(ds[..nd + 1]), ds[nd + 1], Hex(ds[nd + 2..]), Pow(12 - nd));
  }

  lemma NormalHex(ds: seq<nat>)
    requires HexDigits(ds)
    ensures Hex(Normal(ds)) == Hex(ds) * Pow(LeadingZeros(ds)) && HexDigits(Normal(ds))
  {
    var k := LeadingZeros(ds);
    HexConcat(ds[k..], Zeros(k));
    HexZeros(Zeros(k));
    assert ds == ds[..k] + ds[k..];
    HexConcat(ds[..k], ds[k..]);
    HexZeros(ds[..k]);
    assert 0 * Pow(|ds[k..]|) == 0;
  }

  // ---- what is shown is the number, or the nearest there is -----------------------

  lemma {:induction false} PowReal(n: nat)
    ensures Pow(n) as real == P16(n)
  {
    if n > 0 { PowReal(n - 1); }
  }

  lemma ScaledPow(f: nat, e: int, n: nat)
    ensures Scaled(f * Pow(n), e - n) == Scaled(f, e)
  {
    PowReal(n);
    var d := ScaledUp(f, e - n, n);
  }

  lemma ScaledZero(e: int)
    ensures Scaled(0, e) == 0.0
  {
  }

  lemma MagnitudeNormal(w0: nat, w1: nat)
    ensures Scaled(Hex(Normal(Fraction(w0, w1))), Exponent(w0, w1) - 13) == Magnitude(w0, w1)
  {
    hide Scaled, Hex, Fraction, Characteristic;
    var ds := Fraction(w0, w1);
    var k := LeadingZeros(ds);
    NormalHex(ds);
    if k == 14 {
      HexZeros(ds);
      assert 0 * Pow(k) == 0;
      ScaledZero(Exponent(w0, w1) - 13);
      ScaledZero(Characteristic(w0) - 78);
    } else {
      ScaledPow(Hex(ds), Characteristic(w0) - 78, k);
    }
  }

  lemma OneAndZeros(nd: nat)
    ensures Hex([1] + Zeros(nd)) == Pow(nd)
  {
    HexConcat([1], Zeros(nd));
    HexZeros(Zeros(nd));
    assert [1][..0] == [];
    assert Hex([1]) == 1;
  }

  lemma CarryScaled(e: int, nd: nat)
    ensures Scaled(Pow(nd), e + 1 - nd) == Scaled(Pow(nd + 1), e - nd)
  {
    hide Scaled;
    PowAdd(nd, 1);
    ScaledPow(Pow(nd), e + 1 - nd, 1);
  }

  /** The digits shown with nd < 13 denote the rounded number, carry or not. */
  lemma RoundedDenotes(n: nat, e: int, nd: nat)
    requires n < Pow(14) && nd < 13
    ensures Denoted(Rounded(n, e, nd), nd) == Scaled(Nearest(n, nd), e - nd)
    ensures |Rounded(n, e, nd).digits| == nd + 1
  {
    hide Scaled, Hex, Nearest, Figures, Pow;
    NearestBound(n, nd);
    var r := Nearest(n, nd);
    if r == Pow(nd + 1) {
      OneAndZeros(nd);
      CarryScaled(e, nd);
    } else {
      HexFigures(r, nd + 1);
    }
  }

  lemma {:induction false} HexFigures(v: nat, n: nat)
    requires v < Pow(n)
    ensures Hex(Figures(v, n)) == v
    decreases n
  {
    if n > 0 {
      HexFigures(v / 16, n - 1);
      assert Figures(v, n)[..n - 1] == Figures(v / 16, n - 1);
    }
  }

  lemma NearestBound(n: nat, nd: nat)
    requires n < Pow(14) && nd < 13
    ensures Nearest(n, nd) <= Pow(nd + 1)
  {
    PowAdd(nd + 1, 13 - nd);
    Below(n + 8 * Pow(12 - nd), Pow(nd + 1), Pow(13 - nd));
  }

  lemma Below(a: nat, q: nat, m: nat)
    requires m > 0 && a < q * m + m
    ensures a / m <= q
  {
    var t := a / m;
    assert t * m <= a;
    if t >= q + 1 { TimesLe(q + 1, t, m); }
  }

  lemma ShownWhole(n: nat, e: int, nd: nat)
    requires nd >= 13 && n < Pow(14)
    ensures Denoted(Rounded(n, e, nd), nd) == Scaled(n, e - 13)
  {
    hide Scaled;
    HexConcat(Figures(n, 14), Zeros(nd - 13));
    HexZeros(Zeros(nd - 13));
    HexFigures(n, 14);
    ScaledPow(n, e - 13, nd - 13);
  }

  lemma FractionBound(w0: nat, w1: nat)
    ensures Hex(Normal(Fraction(w0, w1))) < Pow(14) && HexDigits(Normal(Fraction(w0, w1)))
  {
    hide Hex, Fraction;
    NormalHex(Fraction(w0, w1));
    HexBound(Normal(Fraction(w0, w1)));
  }

  lemma IntegerBounds(n: nat, nd: nat)
    requires nd < 13
    ensures var r := Nearest(n, nd); r * Pow(13 - nd) <= n + 8 * Pow(12 - nd) < (r + 1) * Pow(13 - nd)
  {
    var a, m := n + 8 * Pow(12 - nd), Pow(13 - nd);
    assert a == a / m * m + a % m;
  }

  /** The unit in the last of nd digits, and half of it, in units of the last digit of
      the fraction. */
  lemma HalfUnit(e: int, nd: nat)
    requires nd < 13
    ensures Scaled(8 * Pow(12 - nd), e - 13) == P16(e - nd) / 2.0
  {
    var p := Pow(12 - nd);
    ScaledPow(1, e - nd, 13 - nd);
    assert 1 * Pow(13 - nd) == 8 * p + 8 * p;
    ScaledPlus(8 * p, 8 * p, e - 13);
    assert Scaled(1, e - nd) == P16(e - nd);
  }

  lemma ScaledWithin(a: int, b: int, h: int, e: int)
    requires a - b <= h && b - a < h
    ensures Scaled(a, e) - Scaled(b, e) <= Scaled(h, e) && Scaled(b, e) - Scaled(a, e) < Scaled(h, e)
  {
    hide Scaled;
    ScaledMinus(a, b, e);
    ScaledMinus(b, a, e);
    ScaledMinus(h, a - b, e);
    ScaledMinus(h, b - a, e);
    ScaledSign(h - (a - b), e);
    ScaledPositive(h - (b - a), e);
  }

  /** A precision shows the nearest number with that many digits, half away from zero. */
  lemma ShownNearest(w0: nat, w1: nat, prec: nat)
    requires prec < 13
    ensures var v, shown, unit := Magnitude(w0, w1), Denoted(ShownOf(w0, w1, prec), prec), P16(Exponent(w0, w1) - prec);
      shown - v <= unit / 2.0 && v - shown < unit / 2.0
  {
    hide Hex, Fraction, P16, Scaled, Exponent, Rounded, Nearest, Normal, Pow;
    var n, e := Hex(Normal(Fraction(w0, w1))), Exponent(w0, w1);
    var r := Nearest(n, prec);
    FractionBound(w0, w1);
    MagnitudeNormal(w0, w1);
    RoundedDenotes(n, e, prec);
    HalfUnit(e, prec);
    ScaledPow(r, e - prec, 13 - prec);
    IntegerBounds(n, prec);
    PowStep(12 - prec);
    Whole(r, Pow(13 - prec));
    ScaledWithin(r * Pow(13 - prec), n, 8 * Pow(12 - prec), e - 13);
  }

  lemma PowStep(n: nat)
    ensures Pow(n + 1) == 16 * Pow(n)
  {
  }

  lemma Whole(r: nat, m: nat)
    ensures (r + 1) * m == r * m + m
  {
  }

  /** Without a precision, and from 13 digits on, the number itself is shown. */
  lemma ShownExact(w0: nat, w1: nat, prec: int)
    requires prec < 0 || prec >= 13
    ensures Denoted(ShownOf(w0, w1, prec), After(w0, w1, prec)) == Magnitude(w0, w1)
  {
    hide Hex, Fraction, P16, Scaled, Exponent, Rounded, Nearest;
    var ds, e, nd := Normal(Fraction(w0, w1)), Exponent(w0, w1), After(w0, w1, prec);
    FractionBound(w0, w1);
    MagnitudeNormal(w0, w1);
    if nd >= 13 {
      ShownWhole(Hex(ds), e, nd);
    } else {
      RoundedDenotes(Hex(ds), e, nd);
      NothingCut(ds, nd);
      RoundDigits(ds, nd);
      ScaledPow(Hex(ds[..nd + 1]), e - nd, 13 - nd);
    }
  }

  lemma NothingCut(ds: seq<nat>, nd: nat)
    requires |ds| == 14 && nd < 13 && forall i :: nd < i < 14 ==> ds[i] == 0
    ensures Hex(ds) == Hex(ds[..nd + 1]) * Pow(13 - nd)
  {
    assert ds == ds[..nd + 1] + ds[nd + 1..];
    HexConcat(ds[..nd + 1], ds[nd + 1..]);
    HexZeros(ds[nd + 1..]);
  }

  lemma FirstFigure(v: nat, n: nat)
    requires Pow(n) <= v < Pow(n + 1)
    ensures Figures(v, n + 1)[0] != 0
  {
    var f := Figures(v, n + 1);
    HexFigures(v, n + 1);
    assert f == [f[0]] + f[1..];
    HexConcat([f[0]], f[1..]);
    HexBound(f[1..]);
    assert [f[0]][..0] == [];
    assert Hex([f[0]]) == f[0];
    assert 0 * Pow(n) == 0;
  }

  /** Digits that begin with one that is not zero still do after rounding. */
  lemma FirstRounded(ds: seq<nat>, e: int, nd: nat)
    requires |ds| == 14 && HexDigits(ds) && ds[0] != 0
    ensures Rounded(Hex(ds), e, nd).digits[0] != 0
  {
    hide Hex, Nearest;
    FiguresHex(ds);
    if nd < 13 {
      var r := Nearest(Hex(ds), nd);
      HexBound(ds);
      RoundDigits(ds, nd);
      NearestBound(Hex(ds), nd);
      KeptLarge(ds[..nd + 1]);
      if r != Pow(nd + 1) { FirstFigure(r, nd); }
    }
  }

  lemma KeptLarge(ds: seq<nat>)
    requires ds != [] && ds[0] > 0
    ensures Hex(ds) >= Pow(|ds| - 1)
  {
    assert ds == [ds[0]] + ds[1..];
    HexConcat([ds[0]], ds[1..]);
    assert [ds[0]][..0] == [];
    assert Hex([ds[0]]) == ds[0];
    TimesLe(1, ds[0], Pow(|ds| - 1));
  }

  lemma ZeroRounded(e: int, nd: nat)
    ensures Rounded(0, e, nd).digits[0] == 0
  {
    FiguresZero(14);
    if nd < 13 {
      FiguresZero(nd + 1);
      Divide(8 * Pow(12 - nd), 0, 8 * Pow(12 - nd), Pow(13 - nd));
    }
  }

  lemma {:induction false} FiguresZero(n: nat)
    requires n > 0
    ensures Figures(0, n)[0] == 0
  {
    if n > 1 { FiguresZero(n - 1); }
  }

  /** The first digit shown is not zero, unless the number is. */
  lemma FirstShown(w0: nat, w1: nat, prec: int)
    ensures |ShownOf(w0, w1, prec).digits| == After(w0, w1, prec) + 1
    ensures ShownOf(w0, w1, prec).digits[0] == 0 <==> Hex(Fraction(w0, w1)) == 0
  {
    hide Hex, Fraction, Exponent, Nearest;
    var ds, e, nd := Fraction(w0, w1), Exponent(w0, w1), After(w0, w1, prec);
    FractionBound(w0, w1);
    NormalHex(ds);
    if LeadingZeros(ds) == 14 {
      HexZeros(ds);
      ZeroRounded(e, nd);
    } else {
      FirstRounded(Normal(ds), e, nd);
      KeptLarge(Normal(ds));
      assert 0 * Pow(LeadingZeros(ds)) == 0;
    }
  }
}
