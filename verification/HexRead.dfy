/** Reading a hexadecimal floating constant back, as section 6.4.4.2 of ISO/IEC 9899:1999
    gives it a value, and what %a prints read that way. */
module HexRead {
  import opened HexFloat
  import opened HexPrint
  import Hfp
  import IntFormat

  /** 2 to an integer power. */
  function P2(e: int): (r: real)
    ensures r > 0.0
    decreases if e < 0 then -e else e
  {
    if e == 0 then 1.0 else if e > 0 then 2.0 * P2(e - 1) else P2(e + 1) / 2.0
  }

  /** Where the first of the marks is. */
  function Place(t: string, marks: string): (p: nat)
    ensures p <= |t| && (forall i :: 0 <= i < p ==> t[i] !in marks) && (p < |t| ==> t[p] in marks)
  {
    if t == "" || t[0] in marks then 0 else 1 + Place(t[1..], marks)
  }

  /** A decimal number with a sign in front. */
  function SignedNumber(t: string): int {
    if t == "" then 0
    else if t[0] == '-' then -IntFormat.Denotes(t[1..], 10)
    else IntFormat.Denotes(t[1..], 10)
  }

  /** h.hhh times 2**e. */
  function Mantissa(t: string, e: int): real {
    var p := Place(t, ".");
    var whole, part := t[..p], if p < |t| then t[p + 1..] else "";
    IntFormat.Denotes(whole + part, 16) as real * P2(e - 4 * |part|)
  }

  /** 0xh.hhhp+e. */
  function Unsigned(t: string): real {
    var p := Place(t, "pP");
    if p < 2 then 0.0 else Mantissa(t[2..p], if p < |t| then SignedNumber(t[p + 1..]) else 0)
  }

  function Read(t: string): real { if t != "" && t[0] == '-' then -Unsigned(t[1..]) else Unsigned(t) }

  lemma P2Next(e: int)
    ensures P2(e + 1) == 2.0 * P2(e)
  {
  }

  lemma {:induction false} P2Four(e: int)
    ensures P2(4 * e) == Hfp.P16(e)
    decreases if e < 0 then -e else e
  {
    if e > 0 {
      P2Four(e - 1);
      FourUp(4 * (e - 1));
    } else if e < 0 {
      P2Four(e + 1);
      FourUp(4 * e);
    }
  }

  lemma FourUp(k: int)
    ensures P2(k + 4) == 16.0 * P2(k)
  {
    P2Next(k);
    P2Next(k + 1);
    P2Next(k + 2);
    P2Next(k + 3);
  }

  lemma PlaceIs(t: string, marks: string, n: nat)
    requires n <= |t| && (forall i :: 0 <= i < n ==> t[i] !in marks) && (n < |t| ==> t[n] in marks)
    ensures Place(t, marks) == n
  {
  }

  lemma PlainChar(d: nat, upper: bool)
    requires d < 16
    ensures Char(d, upper) !in ".pP-"
  {
  }

  /** The digits, with the point behind the first. */
  function Pointed(ds: seq<nat>, upper: bool, point: bool): string
    requires ds != [] && HexDigits(ds)
  {
    [Char(ds[0], upper)] + (if point then "." else "") + Chars(ds[1..], upper)
  }

  lemma DigitsPlain(ds: seq<nat>, upper: bool)
    requires HexDigits(ds)
    ensures forall i :: 0 <= i < |ds| ==> Chars(ds, upper)[i] !in ".pP-"
  {
    hide Char;
    forall i | 0 <= i < |ds| ensures Chars(ds, upper)[i] !in ".pP-" { PlainChar(ds[i], upper); }
  }

  /** The first digit and the others read as all of them. */
  lemma FirstAndRest(ds: seq<nat>, upper: bool)
    requires ds != [] && HexDigits(ds)
    ensures Char(ds[0], upper) != '.' && |Chars(ds[1..], upper)| == |ds| - 1
    ensures IntFormat.Denotes([Char(ds[0], upper)] + Chars(ds[1..], upper), 16) == Hex(ds)
  {
    hide IntFormat.Denotes, Hex;
    CharsDenote(ds, upper);
    PlainChar(ds[0], upper);
    hide Char;
    assert [Char(ds[0], upper)] + Chars(ds[1..], upper) == Chars(ds, upper);
  }

  lemma MantissaSplit(first: char, rest: string, e: int)
    requires first != '.'
    ensures Mantissa([first] + "." + rest, e) == IntFormat.Denotes([first] + rest, 16) as real * P2(e - 4 * |rest|)
  {
    hide P2, IntFormat.Denotes;
    var t := [first] + "." + rest;
    PlaceIs(t, ".", 1);
    assert t[..1] == [first] && t[2..] == rest;
  }

  lemma MantissaWhole(first: char, e: int)
    requires first != '.'
    ensures Mantissa([first], e) == IntFormat.Denotes([first], 16) as real * P2(e)
  {
    hide P2, IntFormat.Denotes;
    PlaceIs([first], ".", 1);
    assert [first][..1] + "" == [first];
  }

  lemma MantissaValue(first: char, rest: string, point: bool, e: int)
    requires first != '.' && (point || rest == "")
    ensures Mantissa([first] + (if point then "." else "") + rest, 4 * e) ==
            Hfp.Scaled(IntFormat.Denotes([first] + rest, 16), e - |rest|)
  {
    hide P2, Hfp.Scaled, IntFormat.Denotes, Mantissa;
    ScaledTwos(IntFormat.Denotes([first] + rest, 16), e - |rest|);
    if point {
      MantissaSplit(first, rest, 4 * e);
    } else {
      MantissaWhole(first, 4 * e);
      Empty([first], rest);
    }
  }

  lemma MantissaReads(ds: seq<nat>, upper: bool, point: bool, e: int)
    requires ds != [] && HexDigits(ds) && (point || |ds| == 1)
    ensures Mantissa(Pointed(ds, upper, point), 4 * e) == Hfp.Scaled(Hex(ds), e - (|ds| - 1))
  {
    hide *;
    FirstAndRest(ds, upper);
    PointedIs(ds, upper, point);
    MantissaValue(Char(ds[0], upper), Chars(ds[1..], upper), point, e);
  }

  lemma PointedIs(ds: seq<nat>, upper: bool, point: bool)
    requires ds != [] && HexDigits(ds)
    ensures HexDigits(ds[1..]) && ds[0] < 16
    ensures Pointed(ds, upper, point) == [Char(ds[0], upper)] + (if point then "." else "") + Chars(ds[1..], upper)
  {
    hide Char, Chars;
  }

  lemma ScaledTwos(f: int, k: int)
    ensures f as real * P2(4 * k) == Hfp.Scaled(f, k)
  {
    P2Four(k);
  }

  lemma Empty(a: string, b: string)
    requires b == ""
    ensures a + b == a && a + "" + b == a
  {
  }

  lemma ExponentReads(e: int)
    ensures SignedNumber((if e < 0 then "-" else "+") + DecimalText(Abs(e))) == e
  {
    hide DecimalText, IntFormat.Denotes;
    DecimalDenotes(Abs(e));
    var t := (if e < 0 then "-" else "+") + DecimalText(Abs(e));
    assert t[1..] == DecimalText(Abs(e));
  }

  /** The text without its sign. */
  function Constant(upper: bool, point: bool, ds: seq<nat>, e: int): string
    requires ds != [] && HexDigits(ds)
  {
    (if upper then "0X" else "0x") + Pointed(ds, upper, point) + Tail(upper, e)
  }

  predicate Free(t: string, marks: string) { forall i :: 0 <= i < |t| ==> t[i] !in marks }

  lemma UnsignedSplit(x: string, mant: string, p: char, exp: string)
    requires |x| == 2 && Free(x, "pP") && Free(mant, "pP") && p in "pP"
    ensures Unsigned(x + mant + ([p] + exp)) == Mantissa(mant, SignedNumber(exp))
  {
    hide Mantissa, SignedNumber;
    var t, n := x + mant + ([p] + exp), 2 + |mant|;
    PlaceIs(t, "pP", n);
    assert t[2..n] == mant && t[n + 1..] == exp;
  }

  lemma PointedFree(ds: seq<nat>, upper: bool, point: bool)
    requires ds != [] && HexDigits(ds)
    ensures Free(Pointed(ds, upper, point), "pP")
  {
    hide Char, Chars;
    PlainChar(ds[0], upper);
    DigitsPlain(ds[1..], upper);
  }

  lemma ConstantReads(upper: bool, point: bool, ds: seq<nat>, e: int)
    requires ds != [] && HexDigits(ds) && (point || |ds| == 1)
    ensures Unsigned(Constant(upper, point, ds, e)) == Hfp.Scaled(Hex(ds), e - (|ds| - 1))
  {
    hide Pointed, Hex, Hfp.Scaled, DecimalText, Mantissa, SignedNumber, Unsigned;
    var exp := (if e < 0 then "-" else "+") + DecimalText(Abs(4 * e));
    var p := if upper then 'P' else 'p';
    TailIs(upper, e, p, exp);
    PointedFree(ds, upper, point);
    UnsignedSplit(if upper then "0X" else "0x", Pointed(ds, upper, point), p, exp);
    ExponentReads(4 * e);
    MantissaReads(ds, upper, point, e);
  }

  lemma TailIs(upper: bool, e: int, p: char, exp: string)
    requires p == (if upper then 'P' else 'p') && exp == (if e < 0 then "-" else "+") + DecimalText(Abs(4 * e))
    ensures Tail(upper, e) == [p] + exp
  {
    hide DecimalText;
  }

  lemma Regroup(sign: string, x: string, c: string, point: string, rest: string, tail: string)
    ensures sign + x + c + point + rest + tail == sign + (x + (c + point + rest) + tail)
  {
  }

  lemma ReadSigned(c: string, neg: bool)
    requires c != "" && c[0] != '-'
    ensures Read((if neg then "-" else "") + c) == if neg then -Unsigned(c) else Unsigned(c)
  {
    hide Unsigned;
    if neg { assert ("-" + c)[1..] == c; } else { assert "" + c == c; }
  }

  lemma HexTextReads(neg: bool, upper: bool, point: bool, ds: seq<nat>, e: int)
    requires ds != [] && HexDigits(ds) && (point || |ds| == 1)
    ensures var v := Hfp.Scaled(Hex(ds), e - (|ds| - 1));
      Read(HexText(neg, upper, point, ds, e)) == if neg then -v else v
  {
    hide Char, Chars, Hex, Hfp.Scaled, Tail, Unsigned, Read;
    var c := Constant(upper, point, ds, e);
    Regroup(if neg then "-" else "", if upper then "0X" else "0x", [Char(ds[0], upper)], if point then "." else "",
            Chars(ds[1..], upper), Tail(upper, e));
    assert c[0] == '0';
    ReadSigned(c, neg);
    ConstantReads(upper, point, ds, e);
  }

  /** Whatever the precision, %a prints a constant whose value is the number shown - cut
      short by the room there is or not. */
  lemma TextReads(w0: nat, w1: nat, upper: bool, prec: int, alt: bool)
    ensures var v := Denoted(ShownOf(w0, w1, prec), After(w0, w1, prec));
      Read(HexPrint.TextOf(w0, w1, upper, prec, alt)) == if Negative(w0) then -v else v
  {
    hide ShownOf, After, Hex, Hfp.Scaled, Read, HexText, Head;
    ShownShape(w0, w1, prec);
    var s, nd := ShownOf(w0, w1, prec), After(w0, w1, prec);
    var point := nd > 0 || alt;
    var m := Room(Negative(w0), upper, s.digits[0], point, nd);
    HexTextReads(Negative(w0), upper, point, s.digits[..m + 1], s.exponent);
    if m < nd { CutDenotes(w0, w1, prec, m); } else { assert s.digits[..m + 1] == s.digits; }
  }

  /** Without a precision, or from 13 digits on, the text reads back to the double. */
  lemma TextExact(w0: nat, w1: nat, upper: bool, prec: int, alt: bool)
    requires prec < 0 || prec >= 13
    ensures Read(HexPrint.TextOf(w0, w1, upper, prec, alt)) ==
            if Negative(w0) then -Magnitude(w0, w1) else Magnitude(w0, w1)
  {
    hide ShownOf, After, Denoted, Read, HexPrint.TextOf, Magnitude;
    TextReads(w0, w1, upper, prec, alt);
    ShownExact(w0, w1, prec);
  }
}
