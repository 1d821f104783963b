/** __dblcvx: what it prints, and what that means. */
module DblCvt {
  import opened Decimal
  import opened DblScale
  import opened DblPrint

  // ---- the reference --------------------------------------------------------------

  /** n / 10**p with p decimals. */
  function FixedText(n: nat, p: nat, alt: bool): string {
    Whole(Top(n, p)) + (if p > 0 || alt then "." else "") + Fixed(n, p)
  }

  /** n / 10**p, a number of p + 1 digits, with p decimals. */
  function ScientificText(n: nat, p: nat, alt: bool): string {
    Fixed(n, p + 1)[..1] + (if p > 0 || alt then "." else "") + Fixed(n, p + 1)[1..]
  }

  /** The number a string of digits denotes. */
  function Read(t: string): int {
    if t == [] then 0 else Read(t[..|t| - 1]) * 10 + (t[|t| - 1] as int - '0' as int)
  }

  lemma {:induction false} ReadWhole(v: nat)
    ensures Read(Whole(v)) == v
    decreases v
  {
    var t := Whole(v);
    if v < 10 {
      assert t[..0] == "";
    } else {
      assert t[..|t| - 1] == Whole(v / 10);
      ReadWhole(v / 10);
    }
  }

  /** The digits before and after the point are those of n. */
  lemma {:induction false} FixedTextReads(n: nat, p: nat)
    ensures Read(Whole(Top(n, p)) + Fixed(n, p)) == n
    decreases p
  {
    var t := Whole(Top(n, p)) + Fixed(n, p);
    if p == 0 {
      assert t == Whole(n);
      ReadWhole(n);
    } else {
      assert t[..|t| - 1] == Whole(Top(n / 10, p - 1)) + Fixed(n / 10, p - 1);
      FixedTextReads(n / 10, p - 1);
    }
  }

  function Magnitude(x: real): real { if x < 0.0 then -x else x }

  /** x is the decimal exponent of v. */
  predicate IsExponent(v: real, x: int) { if v == 0.0 then x == 0 else 1.0 <= Shift(v, -x) < 10.0 }

  /** The style and the precision a conversion asks for: C99's rule for g. */
  function Style(c: char, v: real, x: int, precision: int): (bool, int) {
    if c == 'e' || c == 'E' then (true, precision)
    else if c != 'g' && c != 'G' then (false, precision)
    else
      var sig: nat := if precision > 0 then precision else 1;
      var y := if v == 0.0 then 0 else Scientific(Shift(v, -x), x, sig - 1).1;
      if sig > y >= -4 then (false, sig - 1 - y) else (true, sig - 1)
  }

  /** Digits and exponent of the value printed. */
  function Digits(v: real, x: int, p: nat): (int, int) {
    if v == 0.0 then (0, 0) else Scientific(Shift(v, -x), x, p)
  }

  predicate Upper(c: char) { c == 'E' || c == 'G' }
  predicate General(c: char) { c == 'g' || c == 'G' }

  // ---- from the digits to the reference -------------------------------------------

  lemma AboveIsFixed(b: real, exp: nat, p: nat, alt: bool)
    requires Scaled(b) && (exp == 0 || b >= 1.0)
    ensures Above1(b, exp, p, alt) == FixedText(Lead(b, exp + p), p, alt)
  {
    var n := Lead(b, exp + p);
    FixedSplit(n, exp + 1, p);
    LeadBounds(b, exp + p);
    LeadTop(b, exp, p);
    LeadBounds(b, exp);
    FixedWhole(Lead(b, exp), exp + 1);
  }

  lemma LeadBounds(b: real, t: nat)
    requires Scaled(b)
    ensures Lead(b, t) < Pow(t + 1) && (b >= 1.0 ==> Lead(b, t) >= Pow(t))
  {
    hide Ten, Shift;
    TenPow(t);
    TenPow(t + 1);
    TenNext(t);
    Unit(t);
    ShiftLt(b, 10.0, t);
    if b >= 1.0 { ShiftLe(1.0, b, t); }
  }

  lemma {:induction false} LeadTop(b: real, t: nat, p: nat)
    requires Scaled(b)
    ensures Top(Lead(b, t + p), p) == Lead(b, t)
    decreases p
  {
    if p > 0 {
      LeadNext(b, t + p - 1);
      assert Lead(b, t + p) / 10 == Lead(b, t + p - 1);
      LeadTop(b, t, p - 1);
    }
  }

  lemma BelowIsFixed(b: real, exp: int, p: nat, alt: bool)
    requires Scaled(b) && exp < 0 && exp + p >= 0
    ensures Below1(b, exp, p) == FixedText(Lead(b, exp + p), p, alt)
  {
    var n := Lead(b, exp + p);
    LeadBounds(b, exp + p);
    FixedPad(n, -exp - 1, exp + p + 1);
    PowLe(exp + p + 1, p);
    TopZero(n, p);
    assert Whole(0) == "0";
  }

  lemma {:induction false} PowLe(m: nat, n: nat)
    requires m <= n
    ensures Pow(m) <= Pow(n)
    decreases n
  {
    if m < n { PowLe(m, n - 1); }
  }

  lemma {:induction false} TopZero(v: nat, n: nat)
    requires v < Pow(n)
    ensures Top(v, n) == 0
    decreases n
  {
    if n > 0 { TopZero(v / 10, n - 1); }
  }

  // ---- what goes into the buffer --------------------------------------------------

  /** The value as it is printed: b * 10**exp, in format -1, 0 or 1, with p decimals. */
  datatype State = State(b: real, exp: int, format: int, p: nat)

  predicate IsReady(s: State) { Ready(s.b, s.exp, s.format, s.p) }

  function Body(s: State, alt: bool): (t: string)
    requires IsReady(s)
  {
    if s.format == -1 then Below1(s.b, s.exp, s.p)
    else if s.format == 1 then Above1(s.b, s.exp, s.p, alt)
    else Mantissa(s.b, s.p, alt)
  }

  function Signed(neg: bool, t: string): string { (if neg then "-" else "") + t }

  /** Where the digits stop: four short of the end in exponent form. */
  function DigitLimit(format: int, lim: nat): nat { if format != 0 then lim else if lim > 4 then lim - 4 else 0 }

  function Digitwise(neg: bool, c: char, s: State, alt: bool, lim: nat): string
    requires IsReady(s)
  {
    var t := Take(Signed(neg, Body(s, alt)), DigitLimit(s.format, lim));
    if General(c) && !alt then Strip(t) else t
  }

  function Shown(neg: bool, c: char, s: State, alt: bool, lim: nat): (t: string)
    requires IsReady(s)
    ensures |t| <= lim
  {
    var t := Digitwise(neg, c, s, alt, lim);
    StripShorter(Take(Signed(neg, Body(s, alt)), DigitLimit(s.format, lim)));
    if s.format == 0 then Take(t + ExpText(s.exp, Upper(c)), lim) else t
  }

  lemma StripShorter(t: string)
    ensures |Strip(t)| <= |t|
  {
  }

  /** With five bytes or more the exponent is there, whole. */
  lemma ExponentWhole(neg: bool, c: char, s: State, alt: bool, lim: nat)
    requires IsReady(s) && s.format == 0 && lim >= 4
    ensures Shown(neg, c, s, alt, lim) == Digitwise(neg, c, s, alt, lim) + ExpText(s.exp, Upper(c))
  {
    hide Body, Strip, ExpText;
    StripShorter(Take(Signed(neg, Body(s, alt)), DigitLimit(0, lim)));
  }

  /** What is printed when it all fits: nothing is cut. */
  lemma NothingCut(neg: bool, c: char, s: State, alt: bool, lim: nat)
    requires IsReady(s) && |Signed(neg, Body(s, alt))| + (if s.format == 0 then 4 else 0) <= lim
    requires s.format == 0 ==> lim >= 5
    ensures var t := Signed(neg, Body(s, alt));
      Shown(neg, c, s, alt, lim) ==
        (if General(c) && !alt then Strip(t) else t) + if s.format == 0 then ExpText(s.exp, Upper(c)) else ""
  {
    hide Body, Strip, ExpText;
    if s.format == 0 { ExponentWhole(neg, c, s, alt, lim); }
  }

  /** The state says what the value asks for: in the style C99 chooses, the decimal number
      nearest to the value - half away from zero - with that many digits. */
  predicate Means(c: char, v: real, x: int, precision: nat, alt: bool, s: State) {
    && IsExponent(v, x) && IsReady(s)
    && (!General(c) || precision <= MAXRND + 1 ==>
        var (scientific, p) := Style(c, v, x, precision);
        && s.p == p && (s.format == 0 <==> scientific)
        && (scientific && p <= MAXRND ==>
            var (n, y) := Digits(v, x, p); n >= 0 && Body(s, alt) == ScientificText(n, p, alt) && s.exp == y)
        && (!scientific && x + p <= MAXRND ==>
            Nearest(v, p) >= 0 && Body(s, alt) == FixedText(Nearest(v, p), p, alt)))
  }

  /** Scaling, style and rounding: all the arithmetic. */
  method Prepare(num: real, c: char, precision: nat, alt: bool) returns (s: State, ghost x: int)
    requires InRange(Magnitude(num))
    ensures Means(c, Magnitude(num), x, precision, alt, s)
  {
    hide Shift, Scientific, Nearest, Body;
    var v := if num < 0.0 then -num else num;
    var b0, exp0 := Scale(v);
    x := exp0;
    var scientific, p := c == 'e' || c == 'E', precision;
    if c == 'g' || c == 'G' { scientific, p := Gstyle(b0, exp0, precision); }
    var format := if scientific then 0 else if exp0 >= 0 then 1 else -1;
    var b, exp, f := RoundB(b0, exp0, format, p);
    s := State(b, exp, f, p);
    if v == 0.0 { ShiftZero(v); ZeroDigits(p); }
    BodyIs(s, alt);
  }

  lemma ZeroDigits(p: nat)
    ensures Shift(0.0, p) == 0.0
  {
  }

  lemma BodyIs(s: State, alt: bool)
    requires IsReady(s)
    ensures s.format == 0 ==>
      Shift(s.b, s.p).Floor >= 0 && Body(s, alt) == ScientificText(Shift(s.b, s.p).Floor, s.p, alt)
    ensures s.format != 0 && s.exp + s.p >= 0 ==>
      Shift(s.b, s.exp + s.p).Floor >= 0 && Body(s, alt) == FixedText(Shift(s.b, s.exp + s.p).Floor, s.p, alt)
  {
    if s.format == -1 {
      BelowIsFixed(s.b, s.exp, s.p, alt);
      assert Lead(s.b, s.exp + s.p) == Shift(s.b, s.exp + s.p).Floor;
    } else if s.format == 1 {
      AboveIsFixed(s.b, s.exp, s.p, alt);
      assert Lead(s.b, s.exp + s.p) == Shift(s.b, s.exp + s.p).Floor;
    } else {
      assert Lead(s.b, s.p) == Shift(s.b, s.p).Floor;
    }
  }

  method PutBody(o: Out, s: State, alt: bool)
    requires o.Valid() && IsReady(s)
    modifies o`n, o`text, o.result
    ensures o.Valid() && o.text == old(o.text) + Body(s, alt)
  {
    hide Below1, Above1, Mantissa, Out.Valid;
    if s.format == -1 {
      PutBelow1(o, s.b, s.exp, s.p);
    } else if s.format == 1 {
      PutAbove1(o, s.b, s.exp, s.p, alt);
    } else {
      PutMantissa(o, s.b, s.p, alt);
    }
  }

  /** The text without its padding, into result[..lim + 1]. */
  method PutShown(o: Out, neg: bool, c: char, s: State, alt: bool)
    requires o.Valid() && o.text == "" && IsReady(s) && o.dlim == DigitLimit(s.format, o.lim)
    modifies o, o.result
    ensures o.Valid() && o.result[..o.n] == Shown(neg, c, s, alt, o.lim) && o.result[o.n] == '\0'
  {
    hide Body, Strip, ExpText, IsReady;
    if neg { o.Put('-'); }
    PutBody(o, s, alt);
    assert o.text == Signed(neg, Body(s, alt));
    ghost var t := o.result[..o.n];
    o.result[o.n] := '\0';
    assert o.result[..o.n] == t;
    if General(c) && !alt { Gstrip(o); }
    ghost var u := o.result[..o.n];
    assert u == Digitwise(neg, c, s, alt, o.lim);
    if s.format == 0 {
      o.Settle();
      Expo(o, s.exp, Upper(c));
    }
  }

  /** Everything stays inside result[..rsize], a NUL ends it, and it is what the state
      shows, cut to the room there is and padded. */
  method Dblcvx(num: real, c: char, width: nat, precision: nat, alt: bool, result: array<char>, rsize: nat)
    returns (n: nat, ghost x: int, ghost s: State)
    requires rsize <= result.Length && InRange(Magnitude(num))
    modifies result
    ensures result[rsize..] == old(result[rsize..])
    ensures Means(c, Magnitude(num), x, precision, alt, s)
    ensures rsize > 0 ==>
      n < rsize && result[..n + 1] == Padded(Shown(num < 0.0, c, s, alt, rsize - 1), width, rsize - 1) + ['\0']
  {
    hide Means, Shown;
    var st, x0 := Prepare(num, c, precision, alt);
    MeansReady(c, Magnitude(num), x0, precision, alt, st);
    x, s, n := x0, st, 0;
    if rsize == 0 { return; }
    var lim := rsize - 1;
    var o := new Out(result, lim, DigitLimit(st.format, lim));
    PutShown(o, num < 0.0, c, st, alt);
    n := PadLeft(o, width);
  }

  lemma MeansReady(c: char, v: real, x: int, precision: nat, alt: bool, s: State)
    requires Means(c, v, x, precision, alt, s)
    ensures IsReady(s)
  {
  }
}
