/** The square root by scaling and Newton iteration, in exact real arithmetic. */
module Sqrt {
  const P14: real := 72057594037927936.0                          // 16**14
  const P28: real := 5192296858534827628530496329220096.0         // 16**28

  /** The loop's stopping distance, 10 * DBL_MIN: all that matters is that it is
      no more than 16**-14. */
  predicate Tolerance(tol: real) { 0.0 < tol && tol * P14 <= 1.0 }

  /** 0 <= r**2 - x <= 16**-28 * x */
  predicate Accurate(r: real, x: real) { 0.0 <= Excess(r, x) && Excess(r, x) * P28 <= x }

  function Excess(r: real, x: real): real { r * r - x }

  /** EDOM, or the value returned. */
  datatype Result = Root(value: real) | Domain

  // ---- arithmetic -----------------------------------------------------------------

  lemma MulLe(a: real, b: real, p: real)
    requires a <= b && 0.0 <= p
    ensures a * p <= b * p
  {
  }

  lemma SquareLe(a: real, b: real)
    requires 0.0 <= a <= b
    ensures 0.0 <= a * a <= b * b
  {
    MulLe(a, b, a);
    MulLe(a, b, b);
  }

  lemma AtLeastOne(a: real)
    requires a > 0.0 && a * a >= 1.0
    ensures a >= 1.0
  {
    if a < 1.0 { MulLe(a, 1.0, a); }
  }

  // ---- one step -------------------------------------------------------------------

  function Next(xs: real, y: real): real
    requires y != 0.0
  {
    (y + xs / y) * 0.5
  }

  /** What a step leaves over the root is the square of the distance it moved, so
      every iterate from the first on is at or above the root. */
  lemma StepLeaves(xs: real, y: real)
    requires y > 0.0 && xs >= 1.0
    ensures var n := Next(xs, y); n >= 1.0 && 0.0 <= Excess(n, xs) == (n - y) * (n - y)
  {
    var n, q := Next(xs, y), xs / y;
    assert q * y == xs;
    assert q > 0.0;
    assert n * n == (y * y + 2.0 * (q * y) + q * q) * 0.25;
    assert (n - y) * (n - y) == (q * q - 2.0 * (q * y) + y * y) * 0.25;
    Square(n - y);
    AtLeastOne(n);
  }

  lemma Square(a: real)
    ensures 0.0 <= a * a
  {
  }

  /** From an iterate at or above the root, the excess is squared and quartered. */
  lemma StepSquares(xs: real, y: real, b: real)
    requires y >= 1.0 && xs >= 1.0 && 0.0 <= Excess(y, xs) <= b
    ensures Excess(Next(xs, y), xs) <= Quarter(b)
  {
    StepLeaves(xs, y);
    var n, q, r := Next(xs, y), xs / y, y * y - xs;
    assert q * y == xs;
    assert (y - q) * y == r;
    assert n - y == (q - y) * 0.5;
    Smaller(y - q, y, r);
    SquareLe(y - q, r);
    SquareLe(r, b);
    assert (n - y) * (n - y) == (y - q) * (y - q) * 0.25;
  }

  lemma Smaller(d: real, y: real, r: real)
    requires y >= 1.0 && d * y == r && 0.0 <= r
    ensures 0.0 <= d <= r
  {
    if d < 0.0 { MulLe(d, d / 2.0, y); }
    MulLe(1.0, y, if d < 0.0 then 0.0 else d);
  }

  function Quarter(b: real): real { b * b * 0.25 }

  /** The bound on the excess of the n-th iterate. */
  function Bound(n: nat): real {
    if n <= 1 then 9.0 / 16.0 else Quarter(Bound(n - 1))
  }

  lemma SquareBelow(b: real)
    requires 0.0 <= b <= 1.0
    ensures b * b <= b
  {
    MulLe(b, 1.0, b);
  }

  lemma Shrinks(b: real)
    requires 0.0 <= b <= 1.0
    ensures 0.0 <= Quarter(b) <= b
  {
    SquareBelow(b);
  }

  lemma {:induction false} BoundUnit(n: nat)
    ensures 0.0 <= Bound(n) <= 1.0
  {
    hide Quarter;
    if n >= 2 {
      BoundUnit(n - 1);
      Shrinks(Bound(n - 1));
    }
  }

  lemma {:induction false} BoundSmall(n: nat)
    requires n >= 7
    ensures 0.0 <= Bound(n) && Bound(n) * P28 <= 1.0
  {
    hide Quarter;
    BoundUnit(n);
    if n == 7 {
      FirstBounds();
    } else {
      BoundUnit(n - 1);
      Shrinks(Bound(n - 1));
      BoundSmall(n - 1);
    }
  }

  lemma BoundNext(n: nat)
    requires n >= 1
    ensures Bound(n + 1) == Quarter(Bound(n))
  {
  }

  lemma ZeroRoot()
    ensures Accurate(0.0, 0.0)
  {
  }

  lemma FirstBounds()
    ensures Bound(7) * P28 <= 1.0
  {
    assert 0.0 <= Bound(2) <= 1.0 / 8.0;
    SquareLe(Bound(2), 1.0 / 8.0);
    assert 0.0 <= Bound(3) <= 1.0 / 256.0;
    SquareLe(Bound(3), 1.0 / 256.0);
    assert 0.0 <= Bound(4) <= 1.0 / 262144.0;
    SquareLe(Bound(4), 1.0 / 262144.0);
    assert 0.0 <= Bound(5) <= 1.0 / 274877906944.0;
    SquareLe(Bound(5), 1.0 / 274877906944.0);
    assert 0.0 <= Bound(6) <= 1.0 / 302231454903657293676544.0;
    SquareLe(Bound(6), 1.0 / 302231454903657293676544.0);
  }

  lemma FirstStep(xs: real)
    requires 1.0 <= xs < 4.0
    ensures Excess(Next(xs, xs / 2.0), xs) <= Bound(1)
  {
    StepLeaves(xs, xs / 2.0);
    var n := Next(xs, xs / 2.0);
    assert xs / (xs / 2.0) == 2.0;
    assert n - xs / 2.0 == 1.0 - xs / 4.0;
    SquareLe(1.0 - xs / 4.0, 0.75);
  }

  // ---- the two ways out -----------------------------------------------------------

  lemma CloseEnough(xs: real, y: real, tol: real)
    requires xs >= 1.0 && y > 0.0 && Tolerance(tol)
    requires -tol <= Next(xs, y) - y <= tol
    ensures Accurate(Next(xs, y), xs)
  {
    StepLeaves(xs, y);
    var d := Next(xs, y) - y;
    var m := if d < 0.0 then -d else d;
    assert m * m == d * d;
    SquareLe(m, tol);
    SquareLe(tol * P14, 1.0);
    assert tol * P14 * (tol * P14) == tol * tol * P28;
  }

  lemma ManySteps(xs: real, y: real, n: nat)
    requires xs >= 1.0 && n >= 7 && 0.0 <= Excess(y, xs) <= Bound(n)
    ensures Accurate(y, xs)
  {
    hide Excess, Bound;
    BoundSmall(n);
    MulLe(Excess(y, xs), Bound(n), P28);
  }

  /** Scaling by a power of two carries the relative error over. */
  lemma ScaleBack(r: real, xs: real, p: real, x: real)
    requires Accurate(r, xs) && x == xs * (p * p)
    ensures Accurate(r * p, x)
  {
    var d := r * r - xs;
    assert r * p * (r * p) - x == d * (p * p);
    MulLe(0.0, d, p * p);
    MulLe(d * P28, xs, p * p);
    assert d * (p * p) * P28 == d * P28 * (p * p);
  }

  // ---- sqrt -----------------------------------------------------------------------

  method Scale(x: real) returns (xs: real, pow1: real)
    requires x > 0.0
    ensures 1.0 <= xs < 4.0 && pow1 > 0.0 && xs * (pow1 * pow1) == x
  {
    xs, pow1 := x, 1.0;
    while xs < 1.0
      invariant 0.0 < xs && 0.0 < pow1 && xs * (pow1 * pow1) == x
      decreases (1.0 / xs).Floor
    {
      Fourth(1.0 / xs);
      assert 1.0 / (xs * 4.0) == 1.0 / xs / 4.0;
      xs, pow1 := xs * 4.0, pow1 / 2.0;
    }
    while xs >= 4.0
      invariant 1.0 <= xs && 0.0 < pow1 && xs * (pow1 * pow1) == x
      decreases xs.Floor
    {
      Fourth(xs);
      xs, pow1 := xs / 4.0, pow1 * 2.0;
    }
  }

  lemma Fourth(t: real)
    requires t >= 1.0
    ensures 0 <= (t / 4.0).Floor < t.Floor
  {
  }

  method Sqrt(x: real, tol: real) returns (r: Result)
    requires Tolerance(tol)
    ensures r.Domain? <==> x < 0.0
    ensures r.Root? ==> 0.0 <= r.value && Accurate(r.value, x)
  {
    hide Next, Excess, Bound, Accurate, Quarter;
    if x < 0.0 { return Domain; }
    if x == 0.0 {
      ZeroRoot();
      return Root(0.0);
    }
    var xs, pow1 := Scale(x);
    var i, yn, ynn := 0, xs / 2.0, 0.0;
    FirstStep(xs);
    while true
      invariant 0 <= i <= 11 && 0.0 < yn
      invariant i == 0 ==> yn == xs / 2.0
      invariant i > 0 ==> 1.0 <= yn && 0.0 <= Excess(yn, xs) <= Bound(i)
      invariant ynn >= 0.0
      decreases 12 - i
    {
      ynn := Next(xs, yn);
      StepLeaves(xs, yn);
      if -tol <= ynn - yn <= tol {
        CloseEnough(xs, yn, tol);
        break;
      }
      if i > 0 {
        StepSquares(xs, yn, Bound(i));
        BoundNext(i);
      }
      yn := ynn;
      if i > 10 {
        ManySteps(xs, ynn, i + 1);
        break;
      }
      i := i + 1;
    }
    ScaleBack(ynn, xs, pow1, x);
    assert 0.0 <= ynn * pow1;
    r := Root(ynn * pow1);
  }
}
