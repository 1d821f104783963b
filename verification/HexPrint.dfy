/** hexflt: the digit array, the carry and the characters of %a. */
module HexPrint {
  import opened HexFloat
  import IntFormat

  // ---- digits ---------------------------------------------------------------------

  lemma {:induction false} FigureAt(v: nat, n: nat, i: nat)
    requires i < n
    ensures Figures(v, n)[i] == v / Pow(n - 1 - i) % 16
    decreases n
  {
    if i < n - 1 {
      FigureAt(v / 16, n - 1, i);
      var p := Pow(n - 2 - i);
      DivideTwice(v, p);
    }
  }

  lemma DivideTwice(v: nat, p: nat)
    requires p > 0
    ensures v / 16 / p == v / (16 * p)
  {
    var q, r := v / 16 / p, v / 16 % p;
    assert v / 16 == q * p + r;
    assert v == q * (16 * p) + (r * 16 + v % 16);
    Divide(v, q, r * 16 + v % 16, 16 * p);
  }

  /** The words' digits into d, by shifts and masks. */
  method Unpack(w0: nat, w1: nat) returns (d: array<nat>)
    ensures fresh(d) && d.Length == 15 && d[..14] == Fraction(w0, w1)
  {
    d := new nat[15](_ => 0);
    var i := 0;
    while i < 6
      invariant 0 <= i <= 6 && forall j :: 0 <= j < i ==> d[j] == Figures(w0, 6)[j]
    {
      FigureAt(w0, 6, i);
      d[i] := w0 / Pow(5 - i) % 16;
      i := i + 1;
    }
    i := 0;
    while i < 8
      invariant 0 <= i <= 8 && forall j :: 0 <= j < 6 ==> d[j] == Figures(w0, 6)[j]
      invariant forall j :: 0 <= j < i ==> d[6 + j] == Figures(w1, 8)[j]
    {
      FigureAt(w1, 8, i);
      d[6 + i] := w1 / Pow(7 - i) % 16;
      i := i + 1;
    }
  }

  lemma {:induction false} LastIs(ds: seq<nat>, n: int)
    requires -1 <= n < |ds| && (forall i :: n < i < |ds| ==> ds[i] == 0) && (n >= 0 ==> ds[n] != 0)
    ensures LastNonzero(ds) == n
  {
  }

  lemma LeadingIs(ds: seq<nat>, k: nat)
    requires k <= |ds| && (forall i :: 0 <= i < k ==> ds[i] == 0) && (k < |ds| ==> ds[k] != 0)
    ensures LeadingZeros(ds) == k
  {
  }

  /** The first digit that is not zero goes first. */
  method Normalize(d: array<nat>, e0: int) returns (e: int, last: int)
    requires d.Length == 15
    modifies d
    ensures d[..14] == Normal(old(d[..14])) && last == LastNonzero(d[..14])
    ensures var k := LeadingZeros(old(d[..14])); e == if k == 14 then 0 else e0 - k
  {
    ghost var ds := d[..14];
    last := 13;
    while last >= 0 && d[last] == 0
      invariant -1 <= last <= 13 && d[..14] == ds && forall i :: last < i < 14 ==> ds[i] == 0
    {
      last := last - 1;
    }
    if last < 0 {
      LeadingIs(ds, 14);
      assert ds == Zeros(14);
      LastIs(ds, -1);
      e := 0;
      return;
    }
    var k := 0;
    while d[k] == 0
      invariant 0 <= k <= last && d[..14] == ds && forall i :: 0 <= i < k ==> ds[i] == 0
      decreases 14 - k
    {
      assert d[k] == ds[k];
      k := k + 1;
    }
    LeadingIs(ds, k);
    var i := 0;
    while i < 14
      invariant 0 <= i <= 14
      invariant forall j :: 0 <= j < i ==> d[j] == Normal(ds)[j]
      invariant forall j :: i <= j < 14 ==> d[j] == ds[j]
    {
      d[i] := if i + k < 14 then d[i + k] else 0;
      i := i + 1;
    }
    e := e0 - k;
    last := last - k;
    LastIs(d[..14], last);
  }

  /** The carry from the last digit kept: true when it goes past the first. */
  method Carry(d: array<nat>, nd: nat) returns (over: bool)
    requires nd < d.Length && HexDigits(d[..nd + 1])
    modifies d
    ensures HexDigits(d[..nd + 1]) && d[nd + 1..] == old(d[nd + 1..])
    ensures !over ==> Hex(d[..nd + 1]) == old(Hex(d[..nd + 1])) + 1
    ensures over ==> old(Hex(d[..nd + 1])) + 1 == Pow(nd + 1) && d[..nd + 1] == [1] + Zeros(nd)
  {
    ghost var ds := d[..nd + 1];
    var i: int := nd;
    while i >= 0 && d[i] + 1 == 16
      invariant -1 <= i <= nd && d[nd + 1..] == old(d[nd + 1..])
      invariant forall j :: 0 <= j <= i ==> d[j] == ds[j]
      invariant forall j :: i < j <= nd ==> d[j] == 0 && ds[j] == 15
    {
      d[i] := 0;
      i := i - 1;
    }
    if i < 0 {
      HexTop(ds);
      d[0] := 1;
      assert d[..nd + 1] == [1] + Zeros(nd);
      return true;
    }
    d[i] := d[i] + 1;
    Increment(ds, d[..nd + 1], i);
    return false;
  }

  lemma Increment(a: seq<nat>, b: seq<nat>, i: nat)
    requires i < |a| == |b| && b[..i] == a[..i] && b[i] == a[i] + 1
    requires forall j :: i < j < |a| ==> a[j] == 15 && b[j] == 0
    ensures Hex(b) == Hex(a) + 1
  {
    var n := |a| - 1 - i;
    hide Hex, Pow;
    HexTop(a[i + 1..]);
    HexZeros(b[i + 1..]);
    assert a[..i + 1][..i] == a[..i] && b[..i + 1][..i] == b[..i];
    LastUp(a[..i + 1], b[..i + 1], i);
    assert a == a[..i + 1] + a[i + 1..] && b == b[..i + 1] + b[i + 1..];
    HexConcat(a[..i + 1], a[i + 1..]);
    HexConcat(b[..i + 1], b[i + 1..]);
    Whole(Hex(a[..i + 1]), Pow(n));
  }

  lemma LastUp(a: seq<nat>, b: seq<nat>, i: nat)
    requires |a| == |b| == i + 1 && b[..i] == a[..i] && b[i] == a[i] + 1
    ensures Hex(b) == Hex(a) + 1
  {
  }

  /** Rounding in place: the digits kept are those of the rounded number. */
  method RoundAt(d: array<nat>, e0: int, nd: nat) returns (e: int)
    requires d.Length == 15 && HexDigits(d[..14]) && nd < 13
    modifies d
    ensures Shown(d[..nd + 1], e) == Rounded(old(Hex(d[..14])), e0, nd)
    ensures d[nd + 1..] == old(d[nd + 1..]) && HexDigits(d[..nd + 1])
  {
    ghost var ds := d[..14];
    hide Hex, Rounded, Pow, Figures;
    e := e0;
    assert d[..nd + 1] == ds[..nd + 1];
    var over := false;
    if d[nd + 1] >= 8 {
      over := Carry(d, nd);
      if over { e := e + 1; }
    }
    RoundedIs(ds, e0, nd, d[..nd + 1], over);
  }

  /** The digits after the carry are those of the rounded number. */
  lemma RoundedIs(ds: seq<nat>, e: int, nd: nat, kept: seq<nat>, over: bool)
    requires |ds| == 14 && HexDigits(ds) && nd < 13 && |kept| == nd + 1 && HexDigits(kept)
    requires !over ==> Hex(kept) == Hex(ds[..nd + 1]) + if ds[nd + 1] >= 8 then 1 else 0
    requires over ==> ds[nd + 1] >= 8 && Hex(ds[..nd + 1]) + 1 == Pow(nd + 1) && kept == [1] + Zeros(nd)
    ensures Rounded(Hex(ds), e, nd) == Shown(kept, if over then e + 1 else e)
  {
    hide Hex, Nearest, Pow;
    RoundDigits(ds, nd);
    FiguresHex(kept);
    HexBound(kept);
  }

  // ---- text -----------------------------------------------------------------------

  function Char(d: nat, upper: bool): char
    requires d < 16
  {
    IntFormat.Digit(d, upper)
  }

  function Chars(ds: seq<nat>, upper: bool): (r: string)
    requires HexDigits(ds)
    ensures |r| == |ds|
  {
    seq(|ds|, i requires 0 <= i < |ds| => Char(ds[i], upper))
  }

  /** The characters are the digits: read as hexadecimal they give the number back. */
  lemma {:induction false} CharsDenote(ds: seq<nat>, upper: bool)
    requires HexDigits(ds)
    ensures IntFormat.Denotes(Chars(ds, upper), 16) == Hex(ds)
    decreases |ds|
  {
    if ds != [] {
      var n := |ds| - 1;
      assert Chars(ds, upper)[..n] == Chars(ds[..n], upper);
      CharsDenote(ds[..n], upper);
      IntFormat.DigitMeans(ds[n], upper);
    }
  }

  lemma DecimalDenotes(v: nat)
    ensures IntFormat.Denotes(DecimalText(v), 10) == v
  {
    if v == 0 {
      assert "0"[..0] == "";
    } else {
      IntFormat.NumeralDenotes(v, 10, false);
    }
  }

  /** A decimal number, 0 as one digit. */
  function DecimalText(v: nat): string { if v == 0 then "0" else IntFormat.Numeral(v, 10, false) }

  function Abs(x: int): nat { if x < 0 then -x else x }

  function Head(neg: bool, upper: bool, d: nat, point: bool): (r: string)
    requires d < 16
    ensures |r| <= 5
  {
    (if neg then "-" else "") + (if upper then "0X" else "0x") + [Char(d, upper)] + (if point then "." else "")
  }

  function Tail(upper: bool, e: int): string {
    (if upper then "P" else "p") + (if e < 0 then "-" else "+") + DecimalText(Abs(4 * e))
  }

  /** [-]0xh.hhhp+d for digits h.hhh * 16**e. */
  function HexText(neg: bool, upper: bool, point: bool, ds: seq<nat>, e: int): string
    requires ds != [] && HexDigits(ds)
  {
    Head(neg, upper, ds[0], point) + Chars(ds[1..], upper) + Tail(upper, e)
  }

  const ROOM := 119                        // 127 - 8, of the 128 bytes of work

  /** How many digits after the point there is room for. */
  function Room(neg: bool, upper: bool, d: nat, point: bool, nd: nat): (m: nat)
    requires d < 16
    ensures m <= nd && (m < nd ==> m >= 114)
  {
    var space := ROOM - |Head(neg, upper, d, point)|;
    if nd < space then nd else space
  }

  method PutText(out: array<char>, at: nat, t: string) returns (o: nat)
    requires at + |t| <= out.Length
    modifies out
    ensures o == at + |t| && out[..o] == old(out[..at]) + t
  {
    var i := 0;
    o := at;
    while i < |t|
      invariant 0 <= i <= |t| && o == at + i && out[..o] == old(out[..at]) + t[..i]
    {
      out[o] := t[i];
      i, o := i + 1, o + 1;
    }
    assert t[..i] == t;
  }

  /** The digits after the point: d's own, then zeros, as far as there is room. */
  method PutDigits(out: array<char>, at: nat, d: array<nat>, nd: nat, upper: bool) returns (o: nat)
    requires out.Length == 128 && at <= 5 && d.Length == 15 && HexDigits(d[..14])
    modifies out
    ensures var m := if nd < ROOM - at then nd else ROOM - at;
      o == at + m && out[..o] == old(out[..at]) + Chars((d[..14] + Zeros(nd))[1..m + 1], upper)
  {
    hide Char;
    ghost var ds := d[..14] + Zeros(nd);
    ZeroChar(upper);
    var i := 1;
    o := at;
    assert out[..at] == old(out[..at]) + Chars(ds[1..1], upper);
    while i <= nd && o < ROOM
      invariant 1 <= i <= nd + 1 && o == at + (i - 1) <= ROOM && d[..14] + Zeros(nd) == ds
      invariant out[..o] == old(out[..at]) + Chars(ds[1..i], upper)
    {
      ghost var before := out[..o];
      out[o] := if i < 14 then Char(d[i], upper) else '0';
      assert ds[i] == if i < 14 then d[i] else 0;
      CharsNext(ds, i, upper);
      assert out[..o + 1] == before + [out[o]];
      i, o := i + 1, o + 1;
    }
  }

  lemma ZeroChar(upper: bool)
    ensures Char(0, upper) == '0'
  {
  }

  lemma CharsNext(ds: seq<nat>, i: nat, upper: bool)
    requires 1 <= i < |ds| && HexDigits(ds)
    ensures Chars(ds[1..i + 1], upper) == Chars(ds[1..i], upper) + [Char(ds[i], upper)]
  {
    hide Char;
    assert ds[1..i + 1] == ds[1..i] + [ds[i]];
  }

  /** v in n decimal digits. */
  function Dec(v: nat, n: nat): (r: string)
    ensures |r| == n
  {
    if n == 0 then "" else Dec(v / 10, n - 1) + ['0' + (v % 10) as char]
  }

  function Places(v: nat): nat { if v >= 100 then 3 else if v >= 10 then 2 else 1 }

  lemma DecimalIs(v: nat)
    requires v < 1000
    ensures DecimalText(v) == Dec(v, Places(v))
  {
    if v > 0 { NumeralStep(v); }
    assert Dec(v, 1) == ['0' + (v % 10) as char];
    if v >= 10 {
      var u := v / 10;
      NumeralStep(u);
      assert Dec(u, 1) == ['0' + (u % 10) as char];
      assert Dec(v, 2) == Dec(u, 1) + ['0' + (v % 10) as char];
      if u >= 10 {
        NumeralStep(u / 10);
        assert Dec(u / 10, 1) == ['0' + (u / 10 % 10) as char];
        assert Dec(u, 2) == Dec(u / 10, 1) + ['0' + (u % 10) as char];
        assert Dec(v, 3) == Dec(u, 2) + ['0' + (v % 10) as char];
      }
    }
  }

  lemma NumeralStep(v: nat)
    requires v > 0
    ensures IntFormat.Numeral(v, 10, false) == IntFormat.Numeral(v / 10, 10, false) + ['0' + (v % 10) as char]
  {
    assert IntFormat.Digit(v % 10, false) == '0' + (v % 10) as char;
  }

  /** Digits from the last one back. */
  method PutDecimal(out: array<char>, at: nat, v: nat, k: nat)
    requires at + k <= out.Length
    modifies out
    ensures out[..at] == old(out[..at]) && out[at..at + k] == Dec(v, k)
  {
    var i, w := k, v;
    while i > 0
      invariant 0 <= i <= k && out[..at] == old(out[..at])
      invariant Dec(w, i) + out[at + i..at + k] == Dec(v, k)
    {
      ghost var done := out[at + i..at + k];
      out[at + i - 1] := '0' + (w % 10) as char;
      assert out[at + (i - 1)..at + k] == [out[at + i - 1]] + done;
      w, i := w / 10, i - 1;
    }
    assert out[at + i..at + k] == out[at..at + k];
  }

  /** The exponent and the NUL. */
  method PutExponent(out: array<char>, at: nat, v: nat) returns (o: nat)
    requires v < 1000 && at + 4 <= out.Length
    modifies out
    ensures o == at + |DecimalText(v)| < out.Length && out[..o + 1] == old(out[..at]) + DecimalText(v) + ['\0']
  {
    DecimalIs(v);
    hide DecimalText, Dec;
    var k := if v >= 100 then 3 else if v >= 10 then 2 else 1;
    PutDecimal(out, at, v, k);
    out[at + k] := '\0';
    o := at + k;
    assert out[..o + 1] == out[..at] + out[at..at + k] + ['\0'];
  }

  // ---- hexflt ---------------------------------------------------------------------

  predicate Word(w: nat) { w < 0x1_0000_0000 }

  /** What the text of a double is: sign, digits and exponent of ShownOf, as far as the
      work area goes. */
  function TextOf(w0: nat, w1: nat, upper: bool, prec: int, alt: bool): string {
    var s, nd := ShownOf(w0, w1, prec), After(w0, w1, prec);
    ShownShape(w0, w1, prec);
    var point := nd > 0 || alt;
    var m := Room(Negative(w0), upper, s.digits[0], point, nd);
    HexText(Negative(w0), upper, point, s.digits[..m + 1], s.exponent)
  }

  lemma ShownShape(w0: nat, w1: nat, prec: int)
    ensures |ShownOf(w0, w1, prec).digits| == After(w0, w1, prec) + 1 && HexDigits(ShownOf(w0, w1, prec).digits)
  {
    FirstShown(w0, w1, prec);
    hide Hex, Fraction, Exponent, Nearest;
  }

  /** The digits there is no room for are zeros: the text denotes what is shown. */
  lemma CutDenotes(w0: nat, w1: nat, prec: int, m: nat)
    requires 13 <= m <= After(w0, w1, prec)
    ensures |ShownOf(w0, w1, prec).digits| == After(w0, w1, prec) + 1
    ensures var s := ShownOf(w0, w1, prec);
      Denoted(Shown(s.digits[..m + 1], s.exponent), m) == Denoted(s, After(w0, w1, prec))
  {
    var s, nd := ShownOf(w0, w1, prec), After(w0, w1, prec);
    hide Hex, Fraction, Exponent, Normal;
    var f := Figures(Hex(Normal(Fraction(w0, w1))), 14);
    assert s.digits == f + Zeros(nd - 13);
    var kept, cut := s.digits[..m + 1], s.digits[m + 1..];
    assert s.digits == kept + cut;
    HexConcat(kept, cut);
    HexZeros(cut);
    ScaledPow(Hex(kept), s.exponent - m, nd - m);
  }

  /** The digit array as it is printed, and the exponent. */
  method ShowDigits(w0: nat, w1: nat, prec: int) returns (d: array<nat>, e: int, nd: int)
    ensures fresh(d) && d.Length == 15 && HexDigits(d[..14])
    ensures nd <= After(w0, w1, prec) && (nd >= 0 || After(w0, w1, prec) == 0)
    ensures nd >= 0 ==> nd == After(w0, w1, prec)
    ensures e == ShownOf(w0, w1, prec).exponent
    ensures var n := After(w0, w1, prec); ShownOf(w0, w1, prec).digits == (d[..14] + Zeros(n))[..n + 1]
  {
    hide Hex, Fraction, Rounded, Characteristic, LeadingZeros, Normal, LastNonzero;
    d := Unpack(w0, w1);
    e, nd := Normalize(d, Characteristic(w0) - 65);
    FractionBound(w0, w1);
    if prec >= 0 { nd := prec; }
    e := RoundIf(d, e, nd);
  }

  /** Rounding where a digit is cut off. */
  method RoundIf(d: array<nat>, e0: int, nd: int) returns (e: int)
    requires d.Length == 15 && HexDigits(d[..14]) && (nd >= 0 || (nd == -1 && LastNonzero(d[..14]) == -1))
    modifies d
    ensures HexDigits(d[..14])
    ensures var n := if nd < 0 then 0 else nd;
      Shown((d[..14] + Zeros(n))[..n + 1], e) == Rounded(old(Hex(d[..14])), e0, n)
  {
    ghost var ds := d[..14];
    hide Hex, Rounded;
    e := e0;
    if nd >= 13 {
      WholeShown(ds, e, nd);
    } else if nd < 0 {
      ZeroShown(ds, e);
    } else {
      ghost var rest := d[nd + 1..];
      assert ds[nd + 1..] == rest[..13 - nd];
      e := RoundAt(d, e, nd);
      assert d[..14][nd + 1..] == d[nd + 1..][..13 - nd] && d[..14][..nd + 1] == d[..nd + 1];
      Mixed(d[..14], ds, nd);
      assert (d[..14] + Zeros(nd))[..nd + 1] == d[..nd + 1];
    }
  }

  lemma Mixed(a: seq<nat>, b: seq<nat>, nd: nat)
    requires |a| == |b| == 14 && nd < 13 && HexDigits(a[..nd + 1]) && HexDigits(b) && a[nd + 1..] == b[nd + 1..]
    ensures HexDigits(a)
  {
    assert forall i :: nd < i < 14 ==> a[i] == a[nd + 1..][i - nd - 1] && b[i] == b[nd + 1..][i - nd - 1];
    assert forall i :: 0 <= i <= nd ==> a[i] == a[..nd + 1][i];
  }

  lemma WholeShown(ds: seq<nat>, e: int, nd: nat)
    requires |ds| == 14 && HexDigits(ds) && nd >= 13
    ensures Rounded(Hex(ds), e, nd) == Shown((ds + Zeros(nd))[..nd + 1], e)
  {
    FiguresHex(ds);
    assert (ds + Zeros(nd))[..nd + 1] == ds + Zeros(nd - 13);
  }

  lemma ZeroShown(ds: seq<nat>, e: int)
    requires |ds| == 14 && HexDigits(ds) && LastNonzero(ds) == -1
    ensures Rounded(Hex(ds), e, 0) == Shown((ds + Zeros(0))[..1], e)
  {
    RoundDigits(ds, 0);
    HexZeros(ds[..1]);
    FiguresHex(ds[..1]);
    assert (ds + Zeros(0))[..1] == ds[..1];
    assert Pow(1) == 16;
  }

  lemma ExponentRange(w0: nat, w1: nat, prec: int)
    ensures -100 <= ShownOf(w0, w1, prec).exponent <= 100
  {
    hide Hex, Fraction, Nearest, Normal;
  }

  /** Sign, 0x and the digits with their point. */
  method PutMantissa(out: array<char>, neg: bool, upper: bool, point: bool, d: array<nat>, nd: nat, ghost ds: seq<nat>)
    returns (o: nat)
    requires out.Length == 128 && d.Length == 15 && HexDigits(d[..14])
    requires |ds| == nd + 1 && HexDigits(ds) && ds == (d[..14] + Zeros(nd))[..nd + 1]
    modifies out
    ensures var m := Room(neg, upper, ds[0], point, nd);
      o <= ROOM && out[..o] == Head(neg, upper, ds[0], point) + Chars(ds[..m + 1][1..], upper)
  {
    hide Chars, Char;
    assert d[0] == ds[0];
    o := PutText(out, 0, Head(neg, upper, d[0], point));
    ghost var head := out[..o];
    ghost var m := Room(neg, upper, d[0], point, nd);
    o := PutDigits(out, o, d, nd, upper);
    TakeThenDrop(d[..14] + Zeros(nd), nd, m);
  }

  lemma TakeThenDrop(a: seq<nat>, nd: nat, m: nat)
    requires m <= nd < |a|
    ensures a[1..m + 1] == a[..nd + 1][..m + 1][1..]
  {
  }

  /** The characters, from the digits. */
  method Emit(out: array<char>, neg: bool, upper: bool, alt: bool, d: array<nat>, nd: int, e: int, ghost ds: seq<nat>)
    returns (o: nat)
    requires out.Length == 128 && d.Length == 15 && HexDigits(d[..14]) && -100 <= e <= 100
    requires |ds| == (if nd < 0 then 1 else nd + 1) && HexDigits(ds) && ds == (d[..14] + Zeros(|ds| - 1))[..|ds|]
    modifies out
    ensures var point := nd > 0 || alt; var m := Room(neg, upper, ds[0], point, |ds| - 1);
      o < 128 && out[..o + 1] == HexText(neg, upper, point, ds[..m + 1], e) + ['\0']
  {
    hide Chars, DecimalText, Char, Head, Room;
    o := PutMantissa(out, neg, upper, nd > 0 || alt, d, if nd < 0 then 0 else nd, ds);
    ghost var body := out[..o];
    o := PutText(out, o, (if upper then "P" else "p") + (if e < 0 then "-" else "+"));
    o := PutExponent(out, o, if e < 0 then -(4 * e) else 4 * e);
    TailText(body, upper, e);
  }

  lemma TailText(body: string, upper: bool, e: int)
    ensures body + ((if upper then "P" else "p") + (if e < 0 then "-" else "+")) + DecimalText(Abs(4 * e)) + ['\0'] ==
            body + Tail(upper, e) + ['\0']
  {
    hide DecimalText;
  }

  method HexFlt(w0: nat, w1: nat, upper: bool, prec: int, alt: bool, out: array<char>) returns (o: nat)
    requires Word(w0) && Word(w1) && out.Length == 128
    modifies out
    ensures o < 128 && out[..o + 1] == TextOf(w0, w1, upper, prec, alt) + ['\0']
  {
    hide ShownOf, After, HexText, Room;
    var d, e, nd := ShowDigits(w0, w1, prec);
    ghost var s := ShownOf(w0, w1, prec);
    ShownShape(w0, w1, prec);
    ExponentRange(w0, w1, prec);
    o := Emit(out, Negative(w0), upper, alt, d, nd, e, s.digits);
  }
}
