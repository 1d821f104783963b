/** The characters of %e, %f and %g: digits out of the scaled value, the point, zero
    stripping, the exponent and padding, in a buffer of a given size. */
module DblPrint {
  import opened Decimal

  // ---- the digits of a scaled value -----------------------------------------------

  predicate Scaled(b: real) { 0.0 <= b < 10.0 }

  /** The leading digit of b and t more, as one number. */
  function Lead(b: real, t: nat): nat
    requires Scaled(b)
  {
    ShiftSign(b, t);
    Shift(b, t).Floor
  }

  lemma ShiftSign(b: real, t: int)
    requires 0.0 <= b
    ensures 0.0 <= Shift(b, t)
  {
    hide Ten;
  }

  /** One step of nextdigit: the digit after the t-th, and what is left of b. */
  lemma NextDigit(b0: real, t: nat, b: real)
    requires Scaled(b0) && Scaled(b) && b - b.Floor as real == Shift(b0, t) - Lead(b0, t) as real
    ensures var c := (b - b.Floor as real) * 10.0;
      && Scaled(c) && Lead(b0, t + 1) == 10 * Lead(b0, t) + c.Floor && c.Floor < 10
      && c - c.Floor as real == Shift(b0, t + 1) - Lead(b0, t + 1) as real
  {
    hide Shift;
    ShiftOne(Shift(b0, t));
    ShiftTwice(b0, t, 1);
    var c := (b - b.Floor as real) * 10.0;
    TenFloor(Shift(b0, t), Shift(b0, t + 1), c);
  }

  lemma TenFloor(x: real, y: real, c: real)
    requires y == x * 10.0 && c == (x - x.Floor as real) * 10.0
    ensures 0.0 <= c < 10.0 && y.Floor == 10 * x.Floor + c.Floor
  {
    var n := 10 * x.Floor;
    assert y == n as real + c;
  }

  /** The leading digit and t more. */
  function Text(b: real, t: nat): (s: string)
    requires Scaled(b)
    ensures |s| == t + 1
  {
    Fixed(Lead(b, t), t + 1)
  }

  lemma TextNext(b: real, t: nat, d: nat)
    requires Scaled(b) && d < 10 && Lead(b, t + 1) == 10 * Lead(b, t) + d
    ensures Text(b, t + 1) == Text(b, t) + [Digit(d)]
  {
  }

  lemma {:induction false} TextPrefix(b: real, s: nat, t: nat)
    requires Scaled(b) && s <= t
    ensures Text(b, t)[..s + 1] == Text(b, s)
    decreases t
  {
    if s < t {
      TextPrefix(b, s, t - 1);
      LeadNext(b, t - 1);
      TextNext(b, t - 1, Lead(b, t) - 10 * Lead(b, t - 1));
    }
  }

  lemma LeadNext(b: real, t: nat)
    requires Scaled(b)
    ensures 0 <= Lead(b, t + 1) - 10 * Lead(b, t) < 10
  {
    hide Shift;
    ShiftOne(Shift(b, t));
    ShiftTwice(b, t, 1);
    TenFloor(Shift(b, t), Shift(b, t + 1), (Shift(b, t) - Shift(b, t).Floor as real) * 10.0);
  }

  /** The digits after the leading one, with a point in front of the at-th of them. */
  function Run(b: real, t: nat, at: int): string
    requires Scaled(b)
  {
    Pointed(Text(b, t), at)
  }

  /** All but the first character of s, with a point in front of the at-th. */
  function Pointed(s: string, at: int): string
    requires s != []
  {
    if 0 <= at < |s| - 1 then s[1..at + 1] + "." + s[at + 1..] else s[1..]
  }

  lemma PointedNext(s: string, c: char, at: int)
    requires s != []
    ensures Pointed(s + [c], at) == Pointed(s, at) + (if |s| - 1 == at then "." else "") + [c]
  {
    var u := s + [c];
    if 0 <= at < |s| - 1 {
      assert u[1..at + 1] == s[1..at + 1] && u[at + 1..] == s[at + 1..] + [c];
    } else if at == |s| - 1 {
      assert u[1..at + 1] == s[1..] && u[at + 1..] == [c];
    } else {
      assert u[1..] == s[1..] + [c];
    }
  }

  lemma RunNext(b: real, t: nat, at: int)
    requires Scaled(b)
    ensures Run(b, t + 1, at) == Run(b, t, at) + (if t == at then "." else "") + [Text(b, t + 1)[t + 1]]
  {
    TextPrefix(b, t, t + 1);
    hide Text, Pointed;
    var s, u := Text(b, t), Text(b, t + 1);
    assert u == s + [u[t + 1]];
    PointedNext(s, u[t + 1], at);
  }

  lemma {:induction false} RunPrefix(b: real, s: nat, t: nat, at: int)
    requires Scaled(b) && s <= t
    ensures Run(b, s, at) <= Run(b, t, at)
    decreases t
  {
    hide Run, Text;
    if s < t {
      RunPrefix(b, s, t - 1, at);
      RunNext(b, t - 1, at);
    }
  }

  // ---- the buffer -----------------------------------------------------------------

  function Take(s: string, n: nat): (r: string)
    ensures |r| <= n && r <= s && (|s| <= n ==> r == s)
  {
    if |s| <= n then s else s[..n]
  }

  /** DBLOUT: what has been put so far, and how much of it the buffer took. */
  class Out {
    const result: array<char>
    const lim: nat
    var n: nat
    var dlim: nat
    ghost var text: string
    ghost const rest: string

    ghost predicate Valid()
      reads this, result
    {
      lim < result.Length && dlim <= lim && n <= dlim && result[..n] == Take(text, dlim) && result[lim + 1..] == rest
    }

    constructor (result: array<char>, lim: nat, dlim: nat)
      requires lim < result.Length && dlim <= lim
      ensures Valid() && text == "" && this.result == result && this.lim == lim && this.dlim == dlim
      ensures rest == result[lim + 1..]
    {
      this.result, this.lim, this.dlim, n, text, rest := result, lim, dlim, 0, "", result[lim + 1..];
    }

    method Put(c: char)
      requires Valid()
      modifies this`n, this`text, result
      ensures Valid() && text == old(text) + [c]
    {
      if n < dlim {
        result[n] := c;
        n := n + 1;
        assert result[..n] == text + [c];
      }
      text := text + [c];
    }

    method PutAll(t: string)
      requires Valid()
      modifies this`n, this`text, result
      ensures Valid() && text == old(text) + t
    {
      var i := 0;
      while i < |t|
        invariant 0 <= i <= |t| && Valid() && text == old(text) + t[..i]
      {
        Put(t[i]);
        i := i + 1;
      }
      assert t[..i] == t;
    }

    /** What was cut off is gone. */
    ghost method Settle()
      requires Valid()
      modifies this`text
      ensures Valid() && text == result[..n]
    {
      text := result[..n];
    }

    /** No room is left: what else belongs to the text is cut off. */
    ghost method Cut(t: string)
      requires Valid() && n >= dlim
      modifies this`text
      ensures Valid() && text == old(text) + t
    {
      text := text + t;
    }
  }

  /** The loops over nextdigit: count digits after the leading one, a point in front of
      digit at. */
  method PutDigits(o: Out, b0: real, count: nat, at: int)
    requires o.Valid() && Scaled(b0)
    modifies o`n, o`text, o.result
    ensures o.Valid() && o.text == old(o.text) + Run(b0, count, at)
  {
    hide Shift, Text, Lead, Run, Out.Valid;
    var b, i := b0, b0.Floor;
    var t := 0;
    RunStart(b0, at);
    while t < count && o.n < o.dlim
      invariant 0 <= t <= count && o.Valid() && Scaled(b) && i == b.Floor
      invariant b - b.Floor as real == Shift(b0, t) - Lead(b0, t) as real
      invariant o.text == old(o.text) + Run(b0, t, at)
    {
      if t == at { o.Put('.'); }
      NextDigit(b0, t, b);
      b := (b - i as real) * 10.0;
      i := b.Floor;
      RunNext(b0, t, at);
      LastChar(b0, t, i);
      o.Put(Digit(i));
      t := t + 1;
    }
    if t < count {
      RunPrefix(b0, t, count, at);
      o.Cut(Run(b0, count, at)[|Run(b0, t, at)|..]);
    }
  }

  lemma RunStart(b: real, at: int)
    requires Scaled(b)
    ensures Run(b, 0, at) == "" && Shift(b, 0) == b && Lead(b, 0) == b.Floor
  {
    ShiftZero(b);
  }

  lemma LastChar(b: real, t: nat, d: nat)
    requires Scaled(b) && d < 10 && Lead(b, t + 1) == 10 * Lead(b, t) + d
    ensures Text(b, t + 1)[t + 1] == Digit(d)
  {
    TextNext(b, t, d);
  }

  // ---- the three forms ------------------------------------------------------------

  /** Exponent form: one digit, the point, p decimals. */
  function Mantissa(b: real, p: nat, alt: bool): string
    requires Scaled(b)
  {
    Text(b, p)[..1] + (if p > 0 || alt then "." else "") + Text(b, p)[1..]
  }

  /** 1 and up: exp + 1 digits, the point, p decimals. */
  function Above1(b: real, exp: nat, p: nat, alt: bool): string
    requires Scaled(b)
  {
    Text(b, exp + p)[..exp + 1] + (if p > 0 || alt then "." else "") + Text(b, exp + p)[exp + 1..]
  }

  /** A number below 1 with its zero, its point and the zeros behind that in front. */
  function Below1(b: real, exp: int, p: nat): string
    requires Scaled(b) && exp < 0 && exp + p >= 0
  {
    "0." + Zeros(-exp - 1) + Text(b, exp + p)
  }

  lemma FirstChar(b: real, t: nat)
    requires Scaled(b)
    ensures Text(b, t)[..1] == [Digit(b.Floor)]
  {
    TextPrefix(b, 0, t);
    ShiftZero(b);
  }

  method PutMantissa(o: Out, b: real, p: nat, alt: bool)
    requires o.Valid() && Scaled(b)
    modifies o`n, o`text, o.result
    ensures o.Valid() && o.text == old(o.text) + Mantissa(b, p, alt)
  {
    hide Text, Out.Valid;
    FirstChar(b, p);
    o.Put(Digit(b.Floor));
    if p > 0 || alt { o.Put('.'); }
    PutDigits(o, b, p, -1);
  }

  method PutAbove1(o: Out, b: real, exp: nat, p: nat, alt: bool)
    requires o.Valid() && Scaled(b)
    modifies o`n, o`text, o.result
    ensures o.Valid() && o.text == old(o.text) + Above1(b, exp, p, alt)
  {
    hide Text, Out.Valid;
    FirstChar(b, exp + p);
    o.Put(Digit(b.Floor));
    if alt && exp == 0 && p == 0 { o.Put('.'); }
    PutDigits(o, b, exp + p, exp);
    if alt && exp > 0 && p == 0 { o.Put('.'); }
    AboveParts(old(o.text), b, exp, p, alt);
  }

  lemma AboveParts(before: string, b: real, exp: nat, p: nat, alt: bool)
    requires Scaled(b) && Text(b, exp + p)[..1] == [Digit(b.Floor)]
    ensures before + [Digit(b.Floor)] + (if alt && exp == 0 && p == 0 then "." else "") + Run(b, exp + p, exp) +
            (if alt && exp > 0 && p == 0 then "." else "") == before + Above1(b, exp, p, alt)
  {
    hide Text;
    PointedParts(before, Text(b, exp + p), exp, alt);
  }

  lemma PointedParts(before: string, s: string, exp: nat, alt: bool)
    requires exp < |s|
    ensures var p := |s| - 1 - exp; var a := before + s[..1];
      (if p > 0 then a + "" + Pointed(s, exp) + ""
       else if !alt then a + "" + Pointed(s, exp) + ""
       else if exp == 0 then a + "." + Pointed(s, exp) + ""
       else a + "" + Pointed(s, exp) + ".") ==
      before + (s[..exp + 1] + (if p > 0 || alt then "." else "") + s[exp + 1..])
  {
    var a := before + s[..1];
    assert s[..exp + 1] == s[..1] + s[1..exp + 1];
    if exp == |s| - 1 {
      assert s[exp + 1..] == "" && s[1..] == s[1..exp + 1];
    }
  }

  method PutBelow1(o: Out, b: real, exp0: int, p: nat)
    requires o.Valid() && Scaled(b) && exp0 < 0 && exp0 + p >= 0
    modifies o`n, o`text, o.result
    ensures o.Valid() && o.text == old(o.text) + Below1(b, exp0, p)
  {
    hide Text, Out.Valid;
    o.Put('0');
    o.Put('.');
    var exp, q: int := exp0 + 1, p;
    while exp != 0
      invariant exp0 < exp <= 0 && o.Valid() && q == p - (exp - exp0 - 1)
      invariant o.text == old(o.text) + "0." + Zeros(exp - exp0 - 1)
      decreases -exp
    {
      q := q - 1;
      o.Put('0');
      exp := exp + 1;
    }
    FirstChar(b, exp0 + p);
    o.Put(Digit(b.Floor));
    q := q - 1;
    PutDigits(o, b, q, -1);
    BelowParts(old(o.text), b, exp0, p);
  }

  lemma BelowParts(before: string, b: real, exp: int, p: nat)
    requires Scaled(b) && exp < 0 && exp + p >= 0 && Text(b, exp + p)[..1] == [Digit(b.Floor)]
    ensures before + "0." + Zeros(-exp - 1) + [Digit(b.Floor)] + Run(b, exp + p, -1) == before + Below1(b, exp, p)
  {
    hide Text;
    var s := Text(b, exp + p);
    assert s == s[..1] + s[1..];
  }

  // ---- stripping, exponent, padding -----------------------------------------------

  function StripZeros(t: string): (r: string)
    ensures r <= t
  {
    if t != [] && t[|t| - 1] == '0' then StripZeros(t[..|t| - 1]) else t
  }

  /** Place of the first point; the length if there is none. */
  function Point(t: string): (p: nat)
    ensures p <= |t| && (p < |t| ==> t[p] == '.') && forall i :: 0 <= i < p ==> t[i] != '.'
  {
    if t == [] || t[0] == '.' then 0 else 1 + Point(t[1..])
  }

  /** Without the trailing zeros of the fraction, and the point with them. */
  function Strip(t: string): string {
    var p := Point(t);
    if p == |t| then t else
    var z := StripZeros(t);
    if |z| == p + 1 then z[..p] else z
  }

  lemma {:induction false} StripKeeps(t: string, p: nat)
    requires p < |t| && t[p] != '0'
    ensures |StripZeros(t)| > p
    decreases |t|
  {
    if t[|t| - 1] == '0' { StripKeeps(t[..|t| - 1], p); }
  }

  method FindPoint(a: array<char>, n: nat) returns (p: nat)
    requires n <= a.Length
    ensures p == Point(a[..n])
  {
    ghost var t := a[..n];
    p := 0;
    assert t[0..] == t;
    while p < n && a[p] != '.'
      invariant 0 <= p <= n && p + Point(t[p..]) == Point(t)
    {
      assert t[p..][1..] == t[p + 1..];
      p := p + 1;
    }
  }

  /** NULs over the zeros from the end down to the point, and over the point itself when
      nothing is left after it. */
  method TrimZeros(a: array<char>, n: nat, p: nat) returns (m: nat)
    requires p < n < a.Length && p == Point(a[..n]) && a[n] == '\0'
    modifies a
    ensures m <= n && a[..m] == Strip(old(a[..n])) && a[m] == '\0' && a[n + 1..] == old(a[n + 1..])
  {
    ghost var t := a[..n];
    StripKeeps(t, p);
    var q := n - 1;
    assert t[..q + 1] == t;
    while q > p && a[q] == '0'
      invariant p <= q < n && StripZeros(t[..q + 1]) == StripZeros(t)
      invariant a[..q + 1] == t[..q + 1] && a[q + 1] == '\0' && a[n + 1..] == old(a[n + 1..])
    {
      ghost var u := t[..q + 1];
      assert u[|u| - 1] == a[q] && u[..q] == t[..q];
      a[q] := '\0';
      q := q - 1;
    }
    StripDone(t, q, p);
    if q == p {
      a[q] := '\0';
      q := q - 1;
    }
    m := q + 1;
  }

  lemma StripDone(t: string, q: nat, p: nat)
    requires p == Point(t) <= q < |t| && StripZeros(t[..q + 1]) == StripZeros(t) && (q == p || t[q] != '0')
    ensures Strip(t) == if q == p then t[..p] else t[..q + 1]
  {
    var u := t[..q + 1];
    assert u[|u| - 1] == t[q];
    assert t[..p + 1][..p] == t[..p];
  }

  /** gstrip, on a result that ends with its NUL at n. */
  method Gstrip(o: Out)
    requires o.Valid() && o.result[o.n] == '\0'
    modifies o`n, o`text, o.result
    ensures o.Valid() && o.text == Strip(old(o.result[..o.n])) == o.result[..o.n] && o.result[o.n] == '\0'
  {
    hide Strip, Point;
    ghost var t := o.result[..o.n];
    var p := FindPoint(o.result, o.n);
    NoPoint(t);
    if p < o.n {
      ghost var tail := o.result[o.n + 1..];
      var m := TrimZeros(o.result, o.n, p);
      assert o.result[o.lim + 1..] == tail[o.lim - o.n..];
      o.n := m;
    }
    o.text := o.result[..o.n];
  }

  lemma NoPoint(t: string)
    ensures Point(t) <= |t| && (Point(t) == |t| ==> Strip(t) == t)
  {
  }

  function Two(v: nat): string { [Digit(v / 10), Digit(v)] }

  /** e or E, the sign and two digits. */
  function ExpText(exp: int, upper: bool): (s: string)
    ensures |s| == 4
  {
    [if upper then 'E' else 'e', if exp < 0 then '-' else '+'] + Two(if exp < 0 then -exp else exp)
  }

  method Expo(o: Out, exp: int, upper: bool)
    requires o.Valid() && o.text == o.result[..o.n]
    modifies o, o.result
    ensures o.Valid() && o.dlim == o.lim && o.text == old(o.text) + ExpText(exp, upper) && o.result[o.n] == '\0'
  {
    o.dlim := o.lim;
    o.PutAll(ExpText(exp, upper));
    ghost var shown := o.result[..o.n];
    o.result[o.n] := '\0';
    assert o.result[..o.n] == shown;
  }

  function Blanks(n: nat): (s: string)
    ensures |s| == n
  {
    seq(n, _ => ' ')
  }

  /** t after as many blanks as the width asks for and the buffer has room for. */
  function Padded(t: string, width: nat, lim: nat): (s: string)
    requires |t| <= lim
    ensures |s| <= lim
  {
    var pad := if width <= |t| then 0 else if width < lim then width - |t| else lim - |t|;
    Blanks(pad) + t
  }

  /** memmove: the first m characters, pad places on. */
  method MoveRight(a: array<char>, m: nat, pad: nat)
    requires pad + m <= a.Length
    modifies a
    ensures a[pad..pad + m] == old(a[..m]) && a[pad + m..] == old(a[pad + m..])
  {
    forall i | 0 <= i < m { a[pad + i] := a[i]; }
  }

  method PutBlanks(a: array<char>, pad: nat)
    requires pad <= a.Length
    modifies a
    ensures a[..pad] == Blanks(pad) && a[pad..] == old(a[pad..])
  {
    var k := pad;
    while k > 0
      invariant 0 <= k <= pad && a[k..pad] == Blanks(pad)[k..] && a[pad..] == old(a[pad..])
    {
      k := k - 1;
      a[k] := ' ';
    }
    assert a[0..pad] == a[..pad];
  }

  /** The first m characters moved right, with blanks in front. */
  method Indent(a: array<char>, m: nat, pad: nat)
    requires pad + m <= a.Length
    modifies a
    ensures a[..pad + m] == Blanks(pad) + old(a[..m]) && a[pad + m..] == old(a[pad + m..])
  {
    hide Blanks;
    MoveRight(a, m, pad);
    ghost var moved := a[pad..];
    PutBlanks(a, pad);
    assert a[pad..pad + m] == moved[..m] && a[pad + m..] == moved[m..];
    assert a[..pad + m] == a[..pad] + a[pad..pad + m];
  }

  method PadLeft(o: Out, width: nat) returns (n: nat)
    requires o.Valid() && o.result[o.n] == '\0'
    modifies o.result
    ensures n <= o.lim && o.result[..n + 1] == Padded(old(o.result[..o.n]), width, o.lim) + ['\0']
    ensures o.result[o.lim + 1..] == o.rest
  {
    n := o.n;
    ghost var t := o.result[..o.n];
    assert o.result[..o.n + 1] == t + ['\0'];
    if width > o.n {
      hide Blanks;
      var pad := width - o.n;
      if pad > o.lim - o.n { pad := o.lim - o.n; }
      ghost var tail := o.result[pad + (o.n + 1)..];
      assert o.result[o.lim + 1..] == tail[o.lim - pad - o.n..];
      Indent(o.result, o.n + 1, pad);
      n := o.n + pad;
      assert Blanks(pad) + (t + ['\0']) == Blanks(pad) + t + ['\0'];
    } else {
      assert Blanks(0) + t == t;
    }
  }
}
