/** The arithmetic of %e, %f and %g, in exact reals: scaling into [1,10), the style of %g,
    and rounding. */
module DblScale {
  import opened Decimal

  const MAXRND := 17

  /** A magnitude the exponent search covers: HFP stays well inside. */
  predicate InRange(v: real) { v == 0.0 || Ten(-330) <= v < Ten(330) }

  // ---- scale ----------------------------------------------------------------------

  lemma EndOfSearch(v: real)
    requires Ten(-330) <= v < Ten(330)
    ensures Shift(v, -330) < 1.0 && Shift(v, 330) >= 1.0
  {
    hide Ten;
    TenInverse(330);
    ShiftLt(v, Ten(330), -330);
    ShiftLe(Ten(-330), v, 330);
  }

  method FindExponent(b: real) returns (exp: int)
    requires Ten(-330) <= b < Ten(330)
    ensures -330 <= exp <= 351 && 1.0 <= Shift(b, -exp) < 10.0
  {
    hide Ten, Shift;
    var v := b;
    exp := 0;
    ShiftZero(b);
    EndOfSearch(b);
    while v >= E22 && exp < 330
      invariant 0 <= exp <= 330 && exp % 22 == 0 && v == Shift(b, -exp) && (exp == 0 || v >= 1.0)
      decreases 330 - exp
    {
      Shift22(v);
      ShiftTwice(b, -exp, -22);
      v, exp := v / E22, exp + 22;
    }
    while v < 1.0 && exp > -330
      invariant -330 <= exp <= 330 && exp % 22 == 0 && v == Shift(b, -exp) && 0.0 < v < E22
      invariant exp <= 0 || v >= 1.0
      decreases exp + 330
    {
      Shift22(v);
      ShiftTwice(b, -exp, 22);
      v, exp := v * E22, exp - 22;
    }
    var k := 22;
    Shift22(1.0);
    TenNext(22);
    while k > 0 && v < Ten(k)
      invariant 0 <= k <= 22 && v < Ten(k + 1)
      decreases k
    {
      k := k - 1;
    }
    Decade(v, k);
    ShiftTwice(b, -exp, -k);
    exp := exp + k;
  }

  lemma Decade(v: real, k: int)
    requires k >= 0 && v < Ten(k + 1) && (v >= Ten(k) || (k == 0 && v >= 1.0))
    ensures 1.0 <= Shift(v, -k) < 10.0
  {
    TenNext(k);
    TenInverse(k);
    assert Ten(0) == 1.0;
    hide Ten;
    ShiftLe(Ten(k), v, -k);
    ShiftLt(v, Ten(k + 1), -k);
    Assoc(10.0, Ten(k), Ten(-k));
  }

  /** The second pass: b itself, divided or multiplied by powers of ten up to 10**22. */
  method ScaleBy(b: real, exp: int) returns (v: real)
    ensures v == Shift(b, -exp)
  {
    hide Ten, Shift;
    v := b;
    ShiftZero(b);
    var k := exp;
    while k > 22
      invariant v == Shift(b, k - exp) && (exp <= 22 ==> k == exp) && (exp > 22 ==> k > 0)
    {
      Shift22(v);
      ShiftTwice(b, k - exp, -22);
      v, k := v / E22, k - 22;
    }
    if k > 0 {
      DividePower(v, k);
      ShiftTwice(b, k - exp, -k);
      v := v / Ten(k);
    }
    k := -exp;
    while k > 22
      invariant v == (if exp < 0 then Shift(b, -exp - k) else Shift(b, -exp)) && (exp >= 0 ==> k == -exp)
      invariant exp < 0 ==> k > 0
    {
      Shift22(v);
      ShiftTwice(b, -exp - k, 22);
      v, k := v * E22, k - 22;
    }
    if k > 0 && exp < 0 {
      MultiplyPower(v, k);
      ShiftTwice(b, -exp - k, k);
      v := v * Ten(k);
    }
  }

  lemma DividePower(v: real, k: int)
    requires k >= 0
    ensures v / Ten(k) == Shift(v, -k)
  {
    TenInverse(k);
    hide Ten;
    var p, q := Ten(k), Ten(-k);
    assert q == 1.0 / p;
  }

  lemma MultiplyPower(v: real, k: int)
    ensures v * Ten(k) == Shift(v, k)
  {
  }

  /** The value, scaled into [1,10), and its decimal exponent. */
  method Scale(num: real) returns (b: real, exp: int)
    requires InRange(num)
    ensures num == 0.0 ==> b == 0.0 && exp == 0
    ensures num != 0.0 ==> 1.0 <= b < 10.0 && b == Shift(num, -exp) && Shift(b, exp) == num && -330 <= exp <= 351
  {
    hide Shift;
    if num == 0.0 { return 0.0, 0; }
    exp := FindExponent(num);
    b := ScaleBy(num, exp);
    ShiftZero(num);
    ShiftTwice(num, -exp, exp);
    // only rounding errors get here; in exact reals b is in [1, 10) already
    if b >= 10.0 {
      b, exp := Tenth(b), exp + 1;
    } else if b < 1.0 {
      b, exp := b * 10.0, exp - 1;
    }
  }

  function Tenth(x: real): real { x / 10.0 }

  // ---- rounding -------------------------------------------------------------------

  /** Half a unit of digit j. */
  method Half(j: nat) returns (round: real)
    ensures round == Shift(0.5, -(j as int))
  {
    hide Ten, Shift;
    round := 0.5;
    ShiftZero(0.5);
    var i := 0;
    while i < j
      invariant 0 <= i <= j && round == Shift(0.5, -(i as int))
    {
      ShiftOne(round);
      ShiftTwice(0.5, -(i as int), -1);
      round := round / 10.0;
      i := i + 1;
    }
  }

  /** v * 10**p to the nearest integer, half up. */
  function Nearest(v: real, p: int): int { (Shift(v, p) + 0.5).Floor }

  /** The e style of b * 10**exp with p decimals: its digits as one number of p + 1
      digits, and its exponent. */
  function Scientific(b: real, exp: int, p: nat): (int, int) {
    if Nearest(b, p) == Pow(p + 1) then (Pow(p), exp + 1) else (Nearest(b, p), exp)
  }

  lemma {:induction false} TenPow(n: nat)
    ensures Ten(n) == Pow(n) as real
  {
    if n > 0 { TenPow(n - 1); }
  }

  lemma ShiftHalf(a: real, p: nat)
    ensures Shift(a + Shift(0.5, -(p as int)), p) == Shift(a, p) + 0.5
  {
    hide Shift, Ten;
    ShiftPlus(a, Shift(0.5, -(p as int)), p);
    ShiftTwice(0.5, -(p as int), p);
    ShiftZero(0.5);
  }

  lemma HalfSmall(j: nat)
    ensures 0.0 < Shift(0.5, -(j as int)) <= 0.5
  {
    TenInverse(j);
    OneOrMore(j);
    hide Ten;
    var t, u := Ten(j), Ten(-(j as int));
    assert u <= 1.0;
  }

  lemma {:induction false} OneOrMore(j: nat)
    ensures Ten(j) >= 1.0
  {
    if j > 0 { OneOrMore(j - 1); }
  }

  lemma FloorIs(x: real, n: int)
    requires n as real <= x < n as real + 1.0
    ensures x.Floor == n
  {
  }

  /** Adding half a unit, with or without the carry into a new digit, gives the digits
      and the exponent of the e style. */
  lemma RoundScientific(b: real, exp: int, p: nat)
    requires 1.0 <= b < 10.0
    ensures var c := b + Shift(0.5, -(p as int));
      && (c < 10.0 ==> (Shift(c, p).Floor, exp) == Scientific(b, exp, p))
      && (c >= 10.0 ==> (Shift(c / 10.0, p).Floor, exp + 1) == Scientific(b, exp, p))
  {
    hide Shift, Ten;
    var c := b + Shift(0.5, -(p as int));
    ShiftHalf(b, p);
    TenPow(p);
    TenPow(p + 1);
    TenNext(p);
    Unit(p);
    if c < 10.0 {
      ShiftLt(c, 10.0, p);
    } else {
      ShiftLe(10.0, c, p);
      ShiftLt(b, 10.0, p);
      FloorIs(Shift(c, p), Pow(p + 1));
      ShiftOne(c);
      ShiftTwice(c, -1, p);
      ShiftTwice(c, p, -1);
      ShiftOne(Shift(c, p));
      FloorIs(Shift(c / 10.0, p), Pow(p));
    }
  }

  lemma Unit(p: nat)
    ensures Shift(1.0, p) == Ten(p) && Shift(10.0, p) == 10.0 * Ten(p)
  {
  }

  /** What roundb leaves: zero, or a number in [1,10); in the f style the leading digit
      is not past the last one printed. */
  predicate Ready(b: real, exp: int, format: int, p: nat) {
    && ((b == 0.0 && exp == 0) || 1.0 <= b < 10.0)
    && (format == -1 ==> exp < 0 && exp + p >= 0)
    && (format == 1 ==> exp >= 0)
    && -1 <= format <= 1
  }

  /** roundb and the change of format after it. */
  method RoundB(b0: real, exp0: int, format0: int, p: nat) returns (b: real, exp: int, format: int)
    requires (b0 == 0.0 && exp0 == 0) || 1.0 <= b0 < 10.0
    requires format0 == 0 || (format0 == 1 && exp0 >= 0) || (format0 == -1 && exp0 < 0)
    ensures Ready(b, exp, format, p) && (format == 0 <==> format0 == 0)
    ensures format != 0 && exp0 + p <= MAXRND ==> Shift(b, exp + p).Floor == Nearest(Shift(b0, exp0), p)
    ensures format == 0 && p <= MAXRND ==>
      if b0 == 0.0 then b == 0.0 && exp == 0 else (Shift(b, p).Floor, exp) == Scientific(b0, exp0, p)
    ensures exp0 <= exp <= exp0 + 1 || exp == 0
  {
    hide Shift, Nearest, Scientific;
    b, exp, format := b0, exp0, format0;
    var j: int := if format == 0 then p else exp + p;
    if j > MAXRND { j := MAXRND; }
    if j >= 0 {
      if b == 0.0 {
        ZeroNearest(p);
        return;
      }
      var round := Half(j);
      HalfSmall(j);
      b := b + round;
      if format != 0 && exp0 + p <= MAXRND { RoundFixed(b0, exp0, p, b); }
      if format == 0 { RoundScientific(b0, exp0, p); }
      if b >= 10.0 {
        CarryFixed(b, exp, p);
        b, exp := b / 10.0, exp + 1;
      }
    } else {
      RoundAway(b0, exp0, p);
      if j == -1 && b >= 5.0 {
        b, exp := 1.0, exp + 1;
        ShiftZero(1.0);
      } else {
        b, exp, format := 0.0, 0, 1;
        ZeroNearest(p);
      }
    }
    if format == -1 && exp >= 0 { format := 1; }
  }

  lemma ZeroNearest(p: int)
    ensures Shift(0.0, p) == 0.0 && Shift(0.0, 0 + p).Floor == 0 && Nearest(Shift(0.0, 0), p) == 0
  {
  }

  lemma RoundFixed(b: real, exp: int, p: nat, c: real)
    requires exp + p >= 0 && c == b + Shift(0.5, -(exp + p))
    ensures Shift(c, exp + p).Floor == Nearest(Shift(b, exp), p)
  {
    hide Shift;
    ShiftHalf(b, exp + p);
    ShiftTwice(b, exp, p);
  }

  lemma CarryFixed(c: real, exp: int, p: nat)
    ensures Shift(c / 10.0, exp + 1 + p) == Shift(c, exp + p)
  {
    hide Shift;
    ShiftOne(c);
    ShiftTwice(c, -1, exp + 1 + p);
  }

  /** The first digit lies past the last one printed: one unit or nothing. */
  lemma RoundAway(b: real, exp: int, p: nat)
    requires 1.0 <= b < 10.0 && exp + p < 0
    ensures Nearest(Shift(b, exp), p) == if exp + p == -1 && b >= 5.0 then 1 else 0
  {
    hide Shift;
    ShiftTwice(b, exp, p);
    var j := exp + p;
    ShiftOne(b);
    if j < -1 {
      ShiftTwice(b, -1, j + 1);
      Shrinks(b / 10.0, j + 1);
    }
  }

  lemma Shrinks(a: real, n: int)
    requires 0.0 < a && n < 0
    ensures 0.0 < Shift(a, n) <= a / 10.0
  {
    SmallTen(n);
    hide Ten;
    var t := Ten(n);
  }

  lemma {:induction false} SmallTen(n: int)
    requires n < 0
    ensures Ten(n) <= 1.0 / 10.0
    decreases -n
  {
    if n < -1 { SmallTen(n + 1); }
  }

  // ---- %g -------------------------------------------------------------------------

  /** The style of %g and its precision, as C99 has it: with P significant digits and X
      the exponent the e style would show, f with P - 1 - X decimals when P > X >= -4,
      else e with P - 1. */
  method Gstyle(b: real, exp: int, precision: int) returns (scientific: bool, p: nat)
    requires (b == 0.0 && exp == 0) || 1.0 <= b < 10.0
    ensures var sig: nat := if precision > 0 then precision else 1;
      sig - 1 <= MAXRND ==>
        var x := if b == 0.0 then 0 else Scientific(b, exp, sig - 1).1;
        scientific == !(sig > x >= -4) && p == if scientific then sig - 1 else sig - 1 - x
  {
    hide Shift, Nearest;
    var sig: nat := if precision > 0 then precision else 1;
    var x := exp;
    if b != 0.0 {
      var round := Half(if sig - 1 < MAXRND then sig - 1 else MAXRND);
      if sig - 1 <= MAXRND { RoundScientific(b, exp, sig - 1); }
      if b + round >= 10.0 { x := x + 1; }
    }
    if x < sig && x >= -4 { return false, sig - 1 - x; }
    return true, sig - 1;
  }
}
