/** Decimal scaling of real numbers, and digits in fixed places. */
module Decimal {
  /** 10 to an integer power. */
  function Ten(n: int): (r: real)
    ensures r > 0.0
    decreases if n < 0 then -n else n
  {
    if n == 0 then 1.0 else if n > 0 then 10.0 * Ten(n - 1) else Ten(n + 1) / 10.0
  }

  /** a * 10**n */
  function Shift(a: real, n: int): real { a * Ten(n) }

  lemma {:induction false} TenNext(n: int)
    ensures Ten(n + 1) == 10.0 * Ten(n)
  {
  }

  lemma {:induction false} TenAdd(m: int, n: nat)
    ensures Ten(m + n) == Ten(m) * Ten(n)
    decreases n
  {
    if n != 0 {
      TenAdd(m, n - 1);
      TenNext(m + n - 1);
    }
  }

  lemma TenInverse(n: int)
    requires n >= 0
    ensures Ten(-n) * Ten(n) == 1.0
  {
    TenAdd(-n, n);
  }

  lemma ShiftZero(a: real)
    ensures Shift(a, 0) == a && Shift(0.0, 0) == 0.0
  {
  }

  lemma Assoc(a: real, b: real, c: real)
    ensures a * b * c == a * (b * c)
  {
  }

  lemma ShiftUp(a: real, m: int, n: nat)
    ensures Shift(Shift(a, m), n) == Shift(a, m + n)
  {
    TenAdd(m, n);
    hide Ten;
    Assoc(a, Ten(m), Ten(n));
  }

  lemma ShiftDown(a: real, m: int, n: int)
    requires n >= 0
    ensures Shift(Shift(a, m), -n) == Shift(a, m - n)
  {
    ShiftUp(a, m - n, n);
    TenInverse(n);
    hide Ten;
    var x := Shift(a, m - n);
    assert Shift(Shift(x, n), -n) == x by {
      Assoc(x, Ten(n), Ten(-n));
    }
  }

  lemma ShiftTwice(a: real, m: int, n: int)
    ensures Shift(Shift(a, m), n) == Shift(a, m + n)
  {
    if n >= 0 { ShiftUp(a, m, n); } else { ShiftDown(a, m, -n); }
  }

  lemma ShiftLe(a: real, b: real, n: int)
    requires a <= b
    ensures Shift(a, n) <= Shift(b, n)
  {
    hide Ten;
  }

  lemma ShiftLt(a: real, b: real, n: int)
    requires a < b
    ensures Shift(a, n) < Shift(b, n)
  {
    hide Ten;
  }

  lemma ShiftPlus(a: real, b: real, n: int)
    ensures Shift(a + b, n) == Shift(a, n) + Shift(b, n)
  {
    hide Ten;
  }

  lemma ShiftOne(a: real)
    ensures Shift(a, 1) == a * 10.0 && Shift(a, -1) == a / 10.0
  {
    assert Ten(1) == 10.0 && Ten(-1) == 1.0 / 10.0;
  }

  const E22: real := 10000000000000000000000.0

  lemma Shift22(a: real)
    ensures Ten(22) == E22 && Shift(a, 22) == a * E22 && Shift(a, -22) == a / E22
  {
    assert Ten(8) == 100000000.0;
    assert Ten(16) == 10000000000000000.0;
    assert Ten(22) == E22;
    TenInverse(22);
    hide Ten;
    assert Ten(-22) == 1.0 / E22;
  }

  // ---- digits ---------------------------------------------------------------------

  function Pow(n: nat): (p: nat)
    ensures p >= 1
  {
    if n == 0 then 1 else 10 * Pow(n - 1)
  }

  function Digit(d: nat): char { '0' + (d % 10) as char }

  /** v in n digits: its last n. */
  function Fixed(v: nat, n: nat): (s: string)
    ensures |s| == n
  {
    if n == 0 then "" else Fixed(v / 10, n - 1) + [Digit(v)]
  }

  /** v in as many digits as it has, 0 as one. */
  function Whole(v: nat): (s: string)
    ensures s != []
  {
    if v < 10 then [Digit(v)] else Whole(v / 10) + [Digit(v)]
  }

  function Zeros(n: nat): (s: string)
    ensures |s| == n
  {
    if n == 0 then "" else Zeros(n - 1) + ['0']
  }

  lemma {:induction false} FixedWhole(v: nat, n: nat)
    requires n > 0 && v < Pow(n) && (n == 1 || v >= Pow(n - 1))
    ensures Fixed(v, n) == Whole(v)
    decreases n
  {
    if n > 1 {
      FixedWhole(v / 10, n - 1);
    } else {
      assert Fixed(v / 10, 0) == "";
    }
  }

  /** v without its last n digits. */
  function Top(v: nat, n: nat): nat { if n == 0 then v else Top(v / 10, n - 1) }

  lemma TimesTen(t: nat, p: nat)
    ensures t * (10 * p) == 10 * (t * p)
  {
  }

  lemma TensBounds(v: nat, a: nat, b: nat)
    requires a <= v / 10 < b
    ensures 10 * a <= v < 10 * b
  {
  }

  lemma {:induction false} TopBounds(v: nat, n: nat)
    ensures Top(v, n) * Pow(n) <= v < (Top(v, n) + 1) * Pow(n)
    decreases n
  {
    if n > 0 {
      TopBounds(v / 10, n - 1);
      TimesTen(Top(v, n), Pow(n - 1));
      TimesTen(Top(v, n) + 1, Pow(n - 1));
      TensBounds(v, Top(v, n) * Pow(n - 1), (Top(v, n) + 1) * Pow(n - 1));
    }
  }

  lemma {:induction false} FixedSplit(v: nat, m: nat, n: nat)
    ensures Fixed(v, m + n) == Fixed(Top(v, n), m) + Fixed(v, n)
    decreases n
  {
    if n > 0 { FixedSplit(v / 10, m, n - 1); }
  }

  /** Leading zeros. */
  lemma {:induction false} FixedPad(v: nat, m: nat, n: nat)
    requires v < Pow(n)
    ensures Fixed(v, m + n) == Zeros(m) + Fixed(v, n)
    decreases n
  {
    if n > 0 {
      FixedPad(v / 10, m, n - 1);
    } else {
      FixedZero(m);
    }
  }

  lemma {:induction false} FixedZero(m: nat)
    ensures Fixed(0, m) == Zeros(m)
  {
    if m > 0 { FixedZero(m - 1); }
  }
}
