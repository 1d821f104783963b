/** System/370 hexadecimal floating point, long format, and the functions that
    are built on the integral part of a double.

    A long HFP number is f * 16**e with an integer f of at most 14 hex digits.
    Arithmetic is exact real arithmetic followed by a rounding; nothing is said
    about the rounding but that it gives a long HFP number, leaves a number that
    is one alone, and keeps the order - truncation and rounding to nearest both
    do.  What is proved therefore holds for either; TruncationRounds shows that truncation
    is one. */
module Hfp {
  const DIGITS: int := 0x100_0000_0000_0000      // 16**14
  const TWO52 := 4503599627370496.0              // 16**13
  const TWO32 := 4294967296.0                    // 16**8
  const TWO16 := 65536.0                         // 16**4

  /** 16 to an integer power. */
  function P16(e: int): (r: real)
    ensures r > 0.0
    decreases if e < 0 then -e else e
  {
    if e == 0 then 1.0 else if e > 0 then 16.0 * P16(e - 1) else P16(e + 1) / 16.0
  }

  lemma {:induction false} P16Next(e: int)
    ensures P16(e + 1) == 16.0 * P16(e)
  {
  }

  lemma {:induction false} P16Add(m: int, n: nat)
    ensures P16(m + n) == P16(m) * P16(n)
    decreases n
  {
    if n != 0 {
      P16Add(m, n - 1);
      P16Next(m + n - 1);
    }
  }

  lemma {:induction false} P16Int(n: nat) returns (k: nat)
    ensures P16(n) == k as real && 1 <= k
  {
    if n == 0 { k := 1; } else { var j := P16Int(n - 1); k := 16 * j; }
  }

  function Scaled(f: int, e: int): real { f as real * P16(e) }

  function Down(a: real, k: nat): real { a / P16(k) }

  /** x is f * 16**e: the fraction has 14 hex digits, and e is its characteristic - 78. */
  predicate IsHfp(x: real, f: int, e: int) {
    -DIGITS < f < DIGITS && -78 <= e <= 49 && x == Scaled(f, e)
  }

  ghost predicate Rep(x: real) { exists f, e :: IsHfp(x, f, e) }

  ghost predicate Rounding(rnd: real -> real) {
    && (forall x :: Rep(rnd(x)))
    && (forall x :: Rep(x) ==> rnd(x) == x)
    && (forall x, y :: x <= y ==> rnd(x) <= rnd(y))
  }

  lemma Kept(rnd: real -> real, x: real)
    requires Rounding(rnd) && Rep(x)
    ensures rnd(x) == x
  {
  }

  lemma Rounded(rnd: real -> real, x: real)
    requires Rounding(rnd)
    ensures Rep(rnd(x))
  {
  }

  lemma Ordered(rnd: real -> real, x: real, y: real)
    requires Rounding(rnd) && x <= y
    ensures rnd(x) <= rnd(y)
  {
  }

  // ---- plain arithmetic -----------------------------------------------------------

  lemma MulLe(a: real, b: real, p: real)
    requires a <= b && 0.0 <= p
    ensures a * p <= b * p
  {
  }

  lemma Assoc(a: real, b: real, c: real)
    ensures (a * b) * c == a * (c * b)
  {
  }

  lemma Quotient(a: real, b: real, p: real)
    requires p > 0.0 && a == b * p
    ensures a / p == b
  {
  }

  lemma NegFloor(x: real, n: int)
    requires n == (-x).Floor
    ensures -(n as real) == x ==> x.Floor == -n
    ensures -(n as real) != x ==> x.Floor == -n - 1
  {
  }

  /** The least integer not below x. */
  function Up(x: real): real { -((-x).Floor as real) }

  lemma UpFloor(x: real, n: int)
    requires n == x.Floor
    ensures Up(x) == if n as real == x then n as real else n as real + 1.0
  {
    NegFloor(-x, n);
  }

  lemma UpNeg(x: real, y: real)
    requires y == (-x).Floor as real
    ensures Up(x) == -y
  {
  }

  lemma PiecesFloor(value: real, h: int, m: int, a: real)
    requires value == h as real * TWO32 + m as real * TWO16 + a
    ensures value.Floor == h * 0x1_0000_0000 + m * 0x1_0000 + a.Floor
  {
  }

  lemma WholeFloor(n: int)
    ensures (n as real).Floor == n && (-(n as real)).Floor == -n
  {
  }

  lemma IntTimes(n: int, d: int)
    ensures (n * d) as real == n as real * d as real
  {
  }

  lemma Fraction(a: real, p: real, n: int)
    requires p > 0.0 && n == (a / p).Floor
    ensures 0.0 <= a - n as real * p < p
  {
    var t := a / p - n as real;
    assert a - n as real * p == t * p;
    MulLe(0.0, t, p);
    assert (1.0 - t) * p > 0.0;
  }

  // ---- numbers in scaled form -----------------------------------------------------

  lemma {:induction false} Small(e: int)
    requires e < 0
    ensures P16(e) <= 1.0 / 16.0
    decreases -e
  {
    if e < -1 { Small(e + 1); }
  }

  lemma Powers()
    ensures P16(14) == DIGITS as real && P16(13) == TWO52 && P16(8) == TWO32 && P16(4) == TWO16
  {
    assert P16(4) == 65536.0;
    assert P16(8) == 4294967296.0;
    assert P16(12) == 281474976710656.0;
  }

  lemma ScaledDown(f: int, e: int, k: nat)
    ensures Down(Scaled(f, e), k) == Scaled(f, e - k)
  {
    P16Add(e - k, k);
    hide P16;
    Quotient(Scaled(f, e), f as real * P16(e - k), P16(k));
  }

  lemma ScaledUp(f: int, e: int, k: nat) returns (d: nat)
    ensures 1 <= d && d as real == P16(k) && Scaled(f, e + k) == Scaled(f * d, e)
  {
    d := P16Int(k);
    P16Add(e, k);
    IntTimes(f, d);
    var p := P16(e);
    Assoc(f as real, d as real, p);
  }

  lemma ScaledMinus(f: int, g: int, e: int)
    ensures Scaled(f, e) - Scaled(g, e) == Scaled(f - g, e)
  {
  }

  lemma ScaledSign(f: int, e: int)
    ensures 0.0 <= Scaled(f, e) <==> 0 <= f
  {
    hide P16;
    var p := P16(e);
    if 0 <= f { MulLe(0.0, f as real, p); } else { MulLe(f as real, -1.0, p); }
  }

  lemma BelowBig(f: int, e: int)
    requires e < 0 && f < DIGITS
    ensures Scaled(f, e) < TWO52
  {
    hide P16;
    var p := P16(e);
    Small(e);
    ScaledSign(f, e);
    if f >= 0 { MulLe(p, 1.0 / 16.0, f as real); }
  }

  lemma Tiny(f: int, e: int)
    requires f < DIGITS && e < -78
    ensures Scaled(f, e) <= 1.0 / 16.0
  {
    P16Add(e, 14);
    Small(e + 14);
    Powers();
    hide P16;
    MulLe(f as real, P16(14), P16(e));
  }

  /** The integral part of a / 16**k, and what it leaves. */
  lemma DownFloor(a: real, k: nat)
    ensures 0.0 <= a - Scaled(Down(a, k).Floor, k) < P16(k)
  {
    hide P16;
    Fraction(a, P16(k), Down(a, k).Floor);
  }

  // ---- what is representable ------------------------------------------------------

  lemma Parts(x: real) returns (f: int, e: int)
    requires Rep(x)
    ensures IsHfp(x, f, e)
  {
    f, e :| IsHfp(x, f, e);
  }

  lemma RepInt(n: int)
    requires -DIGITS < n < DIGITS
    ensures Rep(n as real)
  {
    assert IsHfp(n as real, n, 0);
  }

  lemma RepNeg(x: real)
    requires Rep(x)
    ensures Rep(-x)
  {
    hide P16;
    var f, e := Parts(x);
    assert IsHfp(-x, -f, e);
  }

  lemma RepSixteenth()
    ensures Rep(1.0 / 16.0)
  {
    assert IsHfp(1.0 / 16.0, 1, -1);
  }

  /** From 2**52 up a long HFP number is an integer. */
  lemma BigIsInteger(a: real)
    requires Rep(a) && a >= TWO52
    ensures a.Floor as real == a
  {
    hide P16, Scaled;
    var f, e := Parts(a);
    if e < 0 { BelowBig(f, e); }
    var d := ScaledUp(f, 0, if e < 0 then 0 else e);
    assert a == (f * d) as real by { ScaledOne(f * d); }
  }

  lemma ScaledOne(f: int)
    ensures Scaled(f, 0) == f as real
  {
  }

  /** Dividing by 16**k changes only the exponent - and underflows only where the
      integral part is zero either way. */
  lemma DivideKeepsIntegralPart(rnd: real -> real, a: real, k: nat)
    requires Rounding(rnd) && Rep(a) && 0.0 <= a
    ensures 0.0 <= rnd(Down(a, k)) && rnd(Down(a, k)).Floor == Down(a, k).Floor
  {
    hide P16, Scaled, Down;
    var f, e := Parts(a);
    ScaledDown(f, e, k);
    ScaledSign(f, e);
    ScaledSign(f, e - k);
    if -78 <= e - k {
      assert IsHfp(Down(a, k), f, e - k);
    } else {
      Tiny(f, e - k);
      RepInt(0);
      RepSixteenth();
      assert rnd(0.0) <= rnd(Down(a, k)) <= rnd(1.0 / 16.0);
    }
  }

  /** Taking away the multiple of 16**k just found leaves the digits below it. */
  lemma RemainderRep(a: real, k: nat)
    requires Rep(a) && 0.0 <= a
    ensures var n := Down(a, k).Floor; 0.0 <= a - Scaled(n, k) < P16(k) && Rep(a - Scaled(n, k))
  {
    hide P16, Scaled, Down;
    var f, e := Parts(a);
    var n := Down(a, k).Floor;
    DownFloor(a, k);
    ScaledDown(f, e, k);
    ScaledSign(f, e);
    ScaledSign(f, e - k);
    if e < k {
      var d := ScaledUp(n, e, k - e);
      ScaledMinus(f, n * d, e);
      ScaledSign(f - n * d, e);
      assert 0 <= n * d;
      assert IsHfp(a - Scaled(n, k), f - n * d, e);
    } else {
      var d := ScaledUp(f, 0, e - k);
      ScaledOne(f * d);
      ScaledUpDown(a, k);
      RepInt(0);
    }
  }

  lemma ScaledUpDown(a: real, k: nat)
    requires Down(a, k).Floor as real == Down(a, k)
    ensures Scaled(Down(a, k).Floor, k) == a
  {
  }

  // ---- __ipart --------------------------------------------------------------------

  /** Conversion of a double to int: defined where the integral part fits one. */
  function ToInt(x: real): (n: int)
    requires 0.0 <= x < 2147483648.0
    ensures 0 <= n < 0x8000_0000
  {
    x.Floor
  }

  lemma Literals(a: real, n: int)
    ensures Down(a, 8) == a / TWO32 && Down(a, 4) == a / TWO16
    ensures Scaled(n, 8) == n as real * TWO32 && Scaled(n, 4) == n as real * TWO16
    ensures P16(8) == TWO32 && P16(4) == TWO16
  {
    Powers();
    hide P16;
  }

  /** One of the three pieces: the conversion sees the true integral part, and
      neither the piece nor what is left of a rounds. */
  lemma Piece(rnd: real -> real, a: real, k: nat)
    requires Rounding(rnd) && Rep(a) && 0.0 <= a < TWO52 && (k == 4 || k == 8)
    ensures var q, n := rnd(Down(a, k)), Down(a, k).Floor;
            0.0 <= q && q.Floor == n && 0 <= n &&
            rnd(Scaled(n, k)) == Scaled(n, k) && rnd(a - Scaled(n, k)) == a - Scaled(n, k) &&
            0.0 <= a - Scaled(n, k) < P16(k)
  {
    hide P16, Scaled, Down;
    var n := Down(a, k).Floor;
    Literals(a, n);
    DivideKeepsIntegralPart(rnd, a, k);
    RemainderRep(a, k);
    assert IsHfp(Scaled(n, k), n, k);
  }

  /** Every int conversion is in range - that is ToInt's requires - and no step
      rounds, so the result is the integral part whatever the rounding. */
  method Ipart(rnd: real -> real, value: real) returns (r: real)
    requires Rounding(rnd) && Rep(value) && 0.0 <= value
    ensures r == value.Floor as real && Rep(r)
  {
    hide P16, Scaled, Down, Rep, Rounding;
    var a := value;
    if a >= TWO52 {
      BigIsInteger(a);
      return a;
    }
    Literals(a, Down(a, 8).Floor);
    Piece(rnd, a, 8);
    var hi := rnd(ToInt(rnd(a / TWO32)) as real * TWO32);
    Rounded(rnd, a - hi);
    a := rnd(a - hi);
    Literals(a, Down(a, 4).Floor);
    Piece(rnd, a, 4);
    ghost var h, m := Down(value, 8).Floor, Down(a, 4).Floor;
    var mid := rnd(ToInt(rnd(a / TWO16)) as real * TWO16);
    a := rnd(a - mid);
    PiecesFloor(value, h, m, a);
    WholeKept(rnd, hi + mid, h * 0x1_0000_0000 + m * 0x1_0000);
    WholeKept(rnd, hi + mid + a.Floor as real, h * 0x1_0000_0000 + m * 0x1_0000 + a.Floor);
    r := rnd(rnd(hi + mid) + ToInt(a) as real);
  }

  lemma WholeKept(rnd: real -> real, x: real, n: int)
    requires Rounding(rnd) && x == n as real && -TWO52 <= x <= TWO52
    ensures rnd(x) == x && Rep(x)
  {
    RepInt(n);
  }

  // ---- floor, ceil, modf ----------------------------------------------------------

  method Floor(rnd: real -> real, x: real) returns (y: real)
    requires Rounding(rnd) && Rep(x)
    ensures y == x.Floor as real && Rep(y)
  {
    hide P16, Scaled, Down, Rep, Rounding;
    if x < 0.0 {
      RepNeg(x);
      y := Ipart(rnd, -x);
      NegFloor(x, (-x).Floor);
      RepNeg(y);
      y := -y;
      if y != x {
        NotBig(-x);
        WholeKept(rnd, y - 1.0, x.Floor);
        y := rnd(y - 1.0);
      }
    } else {
      y := Ipart(rnd, x);
    }
  }

  lemma NotBig(a: real)
    requires Rep(a) && a.Floor as real != a
    ensures a < TWO52
  {
    if a >= TWO52 { BigIsInteger(a); }
  }

  lemma NextKept(rnd: real -> real, x: real, y: real)
    requires Rounding(rnd) && Rep(x) && x > 0.0 && y == x.Floor as real
    ensures y == x ==> Up(x) == y
    ensures y != x ==> Up(x) == y + 1.0 == rnd(y + 1.0) && Rep(y + 1.0)
  {
    hide Rep, Rounding, Up;
    UpFloor(x, x.Floor);
    if y != x {
      NotBig(x);
      WholeKept(rnd, y + 1.0, x.Floor + 1);
    }
  }

  method Ceil(rnd: real -> real, x: real) returns (y: real)
    requires Rounding(rnd) && Rep(x)
    ensures y == Up(x) && Rep(y)
  {
    hide P16, Scaled, Down, Rep, Rounding, Up;
    if x > 0.0 {
      y := Ipart(rnd, x);
      NextKept(rnd, x, y);
      if y != x { y := rnd(y + 1.0); }
    } else {
      RepNeg(x);
      y := Ipart(rnd, -x);
      UpNeg(x, y);
      RepNeg(y);
      y := -y;
    }
  }

  /** The two parts have the sign of the argument and add up to it exactly. */
  method Modf(rnd: real -> real, argument: real) returns (fraction: real, integral: real)
    requires Rounding(rnd) && Rep(argument)
    ensures fraction + integral == argument && -1.0 < fraction < 1.0
    ensures integral.Floor as real == integral
    ensures if argument < 0.0 then fraction <= 0.0 && integral <= 0.0 else 0.0 <= fraction && 0.0 <= integral
    ensures Rep(fraction) && Rep(integral)
  {
    hide P16, Scaled, Down, Rep, Rounding;
    var value, neg := argument, false;
    if value < 0.0 {
      RepNeg(value);
      neg, value := true, -value;
    }
    var i := Ipart(rnd, value);
    WholeFloor(value.Floor);
    FractionRep(value);
    Kept(rnd, value - i);
    value := rnd(value - i);
    if neg {
      RepNeg(value);
      RepNeg(i);
      value, i := -value, -i;
    }
    fraction, integral := value, i;
  }

  lemma FractionRep(a: real)
    requires Rep(a) && 0.0 <= a
    ensures Rep(a - a.Floor as real)
  {
    hide Rep;
    RemainderRep(a, 0);
  }

  // ---- fmod -----------------------------------------------------------------------

  // The exact product and quotient, before they are rounded.
  function Product(a: real, b: real): real { a * b }
  function Ratio(a: real, b: real): real requires b != 0.0 { a / b }

  /** What fmod computes, its steps on the magnitudes. */
  function Corrected(rnd: real -> real, r: real, ay: real): real {
    var r := if r < 0.0 then rnd(r + ay) else r;
    var r := if r >= ay then rnd(r - ay) else r;
    if r < 0.0 || r >= ay then 0.0 else r
  }

  function Magnitude(rnd: real -> real, ax: real, ay: real): real
    requires ay != 0.0
  {
    Corrected(rnd, rnd(ax - rnd(Product(rnd(Ratio(ax, ay)).Floor as real, ay))), ay)
  }

  function Abs(x: real): real { if x < 0.0 then -x else x }

  /** Below |y| and never of the other sign, whatever the roundings do. */
  method Fmod(rnd: real -> real, x: real, y: real) returns (r: real)
    requires Rounding(rnd) && Rep(x) && Rep(y)
    ensures y == 0.0 ==> r == 0.0
    ensures y != 0.0 ==> Abs(r) < Abs(y)
    ensures if x < 0.0 then r <= 0.0 else 0.0 <= r
    ensures y != 0.0 ==> Abs(r) == Magnitude(rnd, Abs(x), Abs(y))
  {
    hide P16, Scaled, Down, Rep, Rounding, Product, Ratio;
    var ax := if x < 0.0 then -x else x;
    var ay := if y < 0.0 then -y else y;
    if y == 0.0 { return 0.0; }
    QuotientSign(rnd, ax, ay);
    var n := Ipart(rnd, rnd(Ratio(ax, ay)));
    r := rnd(ax - rnd(Product(n, ay)));
    if r < 0.0 { r := rnd(r + ay); }
    if r >= ay { r := rnd(r - ay); }
    if r < 0.0 || r >= ay { r := 0.0; }
    if x < 0.0 { r := -r; }
  }

  lemma QuotientSign(rnd: real -> real, ax: real, ay: real)
    requires Rounding(rnd) && 0.0 <= ax && 0.0 < ay
    ensures 0.0 <= rnd(Ratio(ax, ay)) && Rep(rnd(Ratio(ax, ay)))
  {
    RepInt(0);
    assert 0.0 <= ax / ay;
    assert rnd(0.0) <= rnd(ax / ay);
  }

  /** On two multiples of one power of 16 whose coefficients together fit the 14
      digits - all integers below 16**13, for one - fmod is the exact remainder,
      for every rounding: a quotient rounded up to the next integer is put right
      by the correction. */
  lemma FmodExact(rnd: real -> real, m: int, n: int, e: int)
    requires Rounding(rnd) && 0 <= m && 0 < n && m + n < DIGITS && -78 <= e <= 49
    ensures Scaled(n, e) > 0.0 && Magnitude(rnd, Scaled(m, e), Scaled(n, e)) == Scaled(m % n, e)
  {
    hide P16, Scaled, Rep, Rounding, Corrected, Product, Ratio;
    ScaledRatio(m, n, e);
    var k := rnd(Ratio(Scaled(m, e), Scaled(n, e))).Floor;
    QuotientRounded(rnd, m, n);
    NextMultiple(m, n, k);
    ScaledTimes(k, n, e);
    ScaledKept(rnd, k * n, e);
    ScaledMinus(m, k * n, e);
    ScaledKept(rnd, m - k * n, e);
    CorrectedExact(rnd, m % n, n, e);
  }

  lemma NextMultiple(m: int, n: int, k: int)
    requires 0 <= m && 0 < n && (k == m / n || k == m / n + 1)
    ensures 0 <= k * n <= m + n && (m - k * n == m % n || m - k * n == m % n - n) && 0 <= m % n < n
  {
  }

  lemma CorrectedExact(rnd: real -> real, d: int, n: int, e: int)
    requires Rounding(rnd) && 0 <= d < n < DIGITS && -78 <= e <= 49
    ensures Corrected(rnd, Scaled(d, e), Scaled(n, e)) == Scaled(d, e)
    ensures Corrected(rnd, Scaled(d - n, e), Scaled(n, e)) == Scaled(d, e)
  {
    hide P16, Scaled, Rep, Rounding;
    ScaledSign(d, e);
    ScaledSign(d - n, e);
    ScaledPlus(d - n, n, e);
    ScaledKept(rnd, d, e);
  }

  lemma ScaledPlus(f: int, g: int, e: int)
    ensures Scaled(f, e) + Scaled(g, e) == Scaled(f + g, e)
  {
  }

  lemma ScaledPositive(f: int, e: int)
    requires 0 < f
    ensures Scaled(f, e) > 0.0
  {
    ScaledSign(f - 1, e);
    ScaledMinus(f, f - 1, e);
    ScaledMinus(1, 0, e);
  }

  lemma ScaledKept(rnd: real -> real, f: int, e: int)
    requires Rounding(rnd) && -DIGITS < f < DIGITS && -78 <= e <= 49
    ensures rnd(Scaled(f, e)) == Scaled(f, e)
  {
    hide Scaled;
    assert IsHfp(Scaled(f, e), f, e);
    Kept(rnd, Scaled(f, e));
  }

  lemma ScaledTimes(k: int, n: int, e: int)
    ensures Product(k as real, Scaled(n, e)) == Scaled(k * n, e)
  {
    hide P16;
    IntTimes(k, n);
    Assoc(k as real, n as real, P16(e));
  }

  lemma ScaledRatio(m: int, n: int, e: int)
    requires 0 < n
    ensures Scaled(n, e) > 0.0 && Ratio(Scaled(m, e), Scaled(n, e)) == Ratio(m as real, n as real)
  {
    ScaledPositive(n, e);
    hide P16;
    Cancel(m as real, n as real, P16(e));
  }

  lemma Cancel(a: real, b: real, p: real)
    requires b > 0.0 && p > 0.0
    ensures b * p > 0.0 && (a * p) / (b * p) == a / b
  {
    var q := a / b;
    assert a == q * b;
    Assoc(q, b, p);
    Quotient(a * p, q, b * p);
  }

  /** The rounded quotient has the true integral part, or the next integer. */
  lemma QuotientRounded(rnd: real -> real, m: int, n: int)
    requires Rounding(rnd) && 0 <= m && 0 < n && m + n < DIGITS
    ensures var k := rnd(Ratio(m as real, n as real)).Floor; k == m / n || k == m / n + 1
  {
    hide Rep, Rounding, Ratio;
    var x, q := Ratio(m as real, n as real), m / n;
    RatioBetween(m, n);
    RepInt(q);
    RepInt(q + 1);
    Kept(rnd, q as real);
    Kept(rnd, (q + 1) as real);
    Ordered(rnd, q as real, x);
    Ordered(rnd, x, (q + 1) as real);
  }

  lemma RatioBetween(m: int, n: int)
    requires 0 <= m && 0 < n
    ensures 0 <= m / n <= m && (m / n) as real <= Ratio(m as real, n as real) <= (m / n + 1) as real
  {
    var q := m / n;
    IntTimes(q, n);
    Within(m as real, n as real, q as real, (m % n) as real);
  }

  lemma Within(a: real, b: real, q: real, r: real)
    requires b > 0.0 && a == q * b + r && 0.0 <= r <= b
    ensures q <= a / b <= q + 1.0
  {
    var t := r / b;
    assert t * b == r;
    assert 0.0 <= t <= 1.0;
    assert a == (q + t) * b;
    Quotient(a, q + t, b);
  }

  // ---- the machine's own rounding is one ------------------------------------------

  /** The number of units 16**e in a, no more than 14 digits of them. */
  function Units(a: real, e: int): int {
    var n := (a / P16(e)).Floor;
    if n < DIGITS then n else DIGITS - 1
  }

  /** A magnitude cut to 14 hex digits, at the smallest exponent from e on that holds it;
      beyond the largest number there is, that number. */
  function CutFrom(a: real, e: int): real
    requires e <= 49
    decreases 49 - e
  {
    if e == 49 || a < Scaled(DIGITS, e) then Scaled(Units(a, e), e) else CutFrom(a, e + 1)
  }

  /** Truncation, as System/370 arithmetic has it. */
  function Truncate(x: real): real { if x < 0.0 then -CutFrom(-x, -78) else CutFrom(x, -78) }

  lemma UnitsBelow(a: real, e: int)
    requires 0.0 <= a
    ensures 0 <= Units(a, e) < DIGITS && Scaled(Units(a, e), e) <= a
  {
    hide P16;
    var p := P16(e);
    var q := a / p;
    assert q * p == a;
    assert 0.0 <= q;
    MulLe(Units(a, e) as real, q, p);
  }

  /** As many units as a has at least. */
  lemma UnitsAbove(a: real, e: int, g: int)
    requires Scaled(g, e) <= a && g < DIGITS
    ensures g <= Units(a, e)
  {
    hide P16;
    DivideLe(g, a, P16(e));
  }

  lemma DivideLe(g: int, a: real, p: real)
    requires p > 0.0 && g as real * p <= a
    ensures g <= (a / p).Floor
  {
    var q := a / p;
    assert q * p == a;
    if q < g as real { MulLt(q, g as real, p); }
  }

  lemma MulLt(a: real, b: real, p: real)
    requires a < b && 0.0 < p
    ensures a * p < b * p
  {
  }

  lemma UnitsExact(g: int, e: int)
    requires 0 <= g < DIGITS
    ensures Units(Scaled(g, e), e) == g
  {
    hide P16;
    Quotient(Scaled(g, e), g as real, P16(e));
  }

  lemma ScaledLe(f: int, g: int, e: int)
    requires f <= g
    ensures Scaled(f, e) <= Scaled(g, e)
  {
    hide P16;
    MulLe(f as real, g as real, P16(e));
  }

  /** Sixteen times as many units of the exponent below. */
  lemma ScaledCarry(e: int)
    ensures Scaled(DIGITS / 16, e + 1) == Scaled(DIGITS, e)
  {
    var d := ScaledUp(DIGITS / 16, e, 1);
    assert P16(1) == 16.0;
    assert d == 16;
  }

  lemma {:induction false} CutRange(a: real, e: int)
    requires 0.0 <= a && -78 <= e <= 49
    ensures 0.0 <= CutFrom(a, e) <= a && Rep(CutFrom(a, e))
    decreases 49 - e
  {
    hide Scaled, Units;
    if e == 49 || a < Scaled(DIGITS, e) {
      UnitsBelow(a, e);
      ScaledSign(Units(a, e), e);
      assert IsHfp(CutFrom(a, e), Units(a, e), e);
    } else {
      CutRange(a, e + 1);
    }
  }

  lemma {:induction false} CutAbove(a: real, e: int, g: int)
    requires 0 <= g < DIGITS && Scaled(g, e) <= a && e <= 49
    ensures Scaled(g, e) <= CutFrom(a, e)
    decreases 49 - e
  {
    hide Scaled, Units;
    if e == 49 || a < Scaled(DIGITS, e) {
      UnitsAbove(a, e, g);
      ScaledLe(g, Units(a, e), e);
    } else {
      ScaledCarry(e);
      CutAbove(a, e + 1, DIGITS / 16);
      ScaledLe(g, DIGITS, e);
    }
  }

  lemma {:induction false} CutOrder(a: real, b: real, e: int)
    requires 0.0 <= a <= b && -78 <= e <= 49
    ensures CutFrom(a, e) <= CutFrom(b, e)
    decreases 49 - e
  {
    hide Scaled, Units;
    if e == 49 || b < Scaled(DIGITS, e) {
      UnitsBelow(a, e);
      UnitsAbove(b, e, Units(a, e));
      ScaledLe(Units(a, e), Units(b, e), e);
    } else if a < Scaled(DIGITS, e) {
      CutRange(a, e);
      ScaledCarry(e);
      CutAbove(b, e + 1, DIGITS / 16);
    } else {
      CutOrder(a, b, e + 1);
    }
  }

  lemma {:induction false} CutKeeps(a: real, f: int, k: int, e: int)
    requires 0.0 <= a && IsHfp(a, f, k) && e <= k
    ensures CutFrom(a, e) == a
    decreases 49 - e
  {
    hide Scaled, Units;
    ScaledSign(f, k);
    if e == 49 || a < Scaled(DIGITS, e) {
      var d := ScaledUp(f, e, k - e);
      assert 0 <= f * d;
      SameUnits(f * d, e, a);
    } else {
      if e == k { ScaledLe(f, DIGITS, e); }
      FullUnits(f, k, e);
      CutKeeps(a, f, k, e + 1);
    }
  }

  /** A number below 16**14 units is exact in them. */
  lemma SameUnits(g: int, e: int, a: real)
    requires 0 <= g && a == Scaled(g, e) && (g < DIGITS || a < Scaled(DIGITS, e))
    ensures Scaled(Units(a, e), e) == a
  {
    hide Scaled, Units;
    if g >= DIGITS { ScaledLe(DIGITS, g, e); }
    UnitsExact(g, e);
  }

  lemma FullUnits(f: int, k: int, e: int)
    requires f < DIGITS && e <= k && Scaled(f, k) >= Scaled(DIGITS, e)
    ensures e < k
  {
    hide P16;
    if e == k { MulLt(f as real, DIGITS as real, P16(e)); }
  }

  /** Rounding has an instance, and it is the one the machine uses. */
  lemma TruncationRounds()
    ensures Rounding(Truncate)
  {
    hide CutFrom, Rep;
    forall x ensures Rep(Truncate(x)) {
      CutRange(if x < 0.0 then -x else x, -78);
      if x < 0.0 { RepNeg(CutFrom(-x, -78)); }
    }
    forall x | Rep(x) ensures Truncate(x) == x {
      var a := if x < 0.0 then -x else x;
      if x < 0.0 { RepNeg(x); }
      var f, e := Parts(a);
      CutKeeps(a, f, e, -78);
    }
    forall x, y | x <= y ensures Truncate(x) <= Truncate(y) {
      CutRange(if x < 0.0 then -x else x, -78);
      CutRange(if y < 0.0 then -y else y, -78);
      if y < 0.0 { CutOrder(-y, -x, -78); } else if 0.0 <= x { CutOrder(x, y, -78); }
    }
  }
}
