/** What %a and %A look like, as section 7.19.6.1 of ISO/IEC 9899:1999 asks: the prefix, how
    many digits, which letters and the exponent. */
module HexForm {
  import opened HexFloat
  import opened HexPrint
  import IntFormat

  /** A hexadecimal digit in the letters of the conversion: a-f for a, A-F for A. */
  predicate HexChar(c: char, upper: bool) { '0' <= c <= '9' || if upper then 'A' <= c <= 'F' else 'a' <= c <= 'f' }

  predicate HexChars(t: string, upper: bool) { forall i :: 0 <= i < |t| ==> HexChar(t[i], upper) }

  /** A sign and a decimal number without leading zeros. */
  predicate SignedDecimal(t: string) {
    && |t| >= 2 && (t[0] == '+' || t[0] == '-')
    && (forall i :: 1 <= i < |t| ==> '0' <= t[i] <= '9') && (t[1] == '0' ==> |t| == 2)
  }

  lemma CharIs(d: nat, upper: bool)
    requires d < 16
    ensures HexChar(Char(d, upper), upper) && (Char(d, upper) == '0' <==> d == 0)
  {
  }

  lemma CharsAre(ds: seq<nat>, upper: bool)
    requires HexDigits(ds)
    ensures HexChars(Chars(ds, upper), upper)
    ensures ds != [] && ds[|ds| - 1] != 0 ==> Chars(ds, upper)[|ds| - 1] != '0'
  {
    hide Char, HexChar;
    forall i | 0 <= i < |ds| ensures HexChar(Chars(ds, upper)[i], upper) { CharIs(ds[i], upper); }
    if ds != [] { CharIs(ds[|ds| - 1], upper); }
  }

  lemma {:induction false} NumeralFigures(v: nat)
    ensures forall i :: 0 <= i < |IntFormat.Numeral(v, 10, false)| ==> '0' <= IntFormat.Numeral(v, 10, false)[i] <= '9'
    decreases v
  {
    if v > 0 { NumeralFigures(v / 10); }
  }

  lemma DecimalForm(v: nat)
    ensures var t := DecimalText(v);
      t != "" && (forall i :: 0 <= i < |t| ==> '0' <= t[i] <= '9') && (t[0] == '0' ==> |t| == 1)
  {
    NumeralFigures(v);
    IntFormat.NumeralDenotes(v, 10, false);
    hide IntFormat.Numeral, IntFormat.Denotes;
  }

  lemma SignedForm(neg: bool, t: string)
    requires t != "" && (forall i :: 0 <= i < |t| ==> '0' <= t[i] <= '9') && (t[0] == '0' ==> |t| == 1)
    ensures SignedDecimal((if neg then "-" else "+") + t)
  {
    var u := (if neg then "-" else "+") + t;
    forall i | 1 <= i < |u| ensures '0' <= u[i] <= '9' { assert u[i] == t[i - 1]; }
  }

  lemma ExponentIs(e: int)
    ensures SignedDecimal((if e < 0 then "-" else "+") + DecimalText(Abs(4 * e)))
  {
    hide DecimalText, SignedDecimal;
    DecimalForm(Abs(4 * e));
    SignedForm(e < 0, DecimalText(Abs(4 * e)));
  }

  lemma TextParts(neg: bool, upper: bool, point: bool, ds: seq<nat>, e: int)
    requires ds != [] && HexDigits(ds)
    ensures HexText(neg, upper, point, ds, e) ==
            (if neg then "-" else "") + (if upper then "0X" else "0x") + [Char(ds[0], upper)] +
            (if point then "." else "") + Chars(ds[1..], upper) + (if upper then "P" else "p") +
            ((if e < 0 then "-" else "+") + DecimalText(Abs(4 * e)))
  {
    hide Char, Chars, DecimalText;
  }

  /** The decimals kept, of those that are shown. */
  lemma Kept(ds: seq<nat>, m: nat, upper: bool)
    requires HexDigits(ds) && m < |ds|
    ensures var t := Chars(ds[1..m + 1], upper);
      |t| == m && HexChars(t, upper) && (m > 0 && ds[m] != 0 ==> t[m - 1] != '0')
  {
    hide Chars, HexChars;
    CharsAre(ds[1..m + 1], upper);
  }

  /** Without a precision as many digits as the number needs: the last of them is not 0. */
  lemma ShortestDigits(w0: nat, w1: nat, prec: int)
    requires prec < 0
    ensures var ds := ShownOf(w0, w1, prec).digits; |ds| <= 14 && (|ds| > 1 ==> ds[|ds| - 1] != 0)
  {
    hide Hex, Fraction, Exponent, Pow, Nearest;
    var ds, e, nd := Normal(Fraction(w0, w1)), Exponent(w0, w1), After(w0, w1, prec);
    NormalHex(Fraction(w0, w1));
    ShownShape(w0, w1, prec);
    if nd >= 13 {
      WholeShown(ds, e, nd);
    } else if nd > 0 {
      RoundDigits(ds, nd);
      RoundedIs(ds, e, nd, ds[..nd + 1], false);
    }
  }

  /** The text of digits and an exponent, m decimals of them. */
  lemma DigitsForm(neg: bool, upper: bool, ds: seq<nat>, m: nat, point: bool, e: int)
    returns (first: char, decimals: string, exponent: string)
    requires HexDigits(ds) && m < |ds|
    ensures HexText(neg, upper, point, ds[..m + 1], e) ==
            (if neg then "-" else "") + (if upper then "0X" else "0x") + [first] +
            (if point then "." else "") + decimals + (if upper then "P" else "p") + exponent
    ensures HexChar(first, upper) && HexChars(decimals, upper) && SignedDecimal(exponent)
    ensures |decimals| == m && (m > 0 && ds[m] != 0 ==> decimals[m - 1] != '0') && (first == '0' <==> ds[0] == 0)
  {
    hide Char, HexChar, DecimalText, SignedDecimal, HexChars, Chars, HexText;
    first, decimals := Char(ds[0], upper), Chars(ds[1..m + 1], upper);
    exponent := (if e < 0 then "-" else "+") + DecimalText(Abs(4 * e));
    assert ds[..m + 1][1..] == ds[1..m + 1];
    TextParts(neg, upper, point, ds[..m + 1], e);
    CharIs(ds[0], upper);
    Kept(ds, m, upper);
    ExponentIs(e);
  }

  lemma Digits(w0: nat, w1: nat, prec: int)
    ensures var s, nd := ShownOf(w0, w1, prec), After(w0, w1, prec);
      && |s.digits| == nd + 1 && HexDigits(s.digits) && (s.digits[0] == 0 <==> Hex(Fraction(w0, w1)) == 0)
      && (prec >= 0 ==> nd == prec)
      && (prec < 0 ==> nd <= 13 && (nd > 0 ==> s.digits[nd] != 0))
  {
    hide ShownOf, Hex, Fraction;
    FirstShown(w0, w1, prec);
    ShownShape(w0, w1, prec);
    if prec < 0 { ShortestDigits(w0, w1, prec); }
  }

  /** Sign, prefix, first digit, point, decimals, p and exponent: with a precision exactly
      that many decimals - as far as the 119 bytes in front of the exponent go - without
      one as many as are needed; the point where there are decimals or the # flag is given;
      every letter in the case of the conversion. */
  lemma TextForm(w0: nat, w1: nat, upper: bool, prec: int, alt: bool)
    returns (first: char, decimals: string, exponent: string)
    ensures TextOf(w0, w1, upper, prec, alt) ==
            (if w0 >= 0x8000_0000 then "-" else "") + (if upper then "0X" else "0x") + [first] +
            (if decimals != "" || alt then "." else "") + decimals + (if upper then "P" else "p") + exponent
    ensures HexChar(first, upper) && HexChars(decimals, upper) && SignedDecimal(exponent)
    ensures 0 <= prec <= 114 ==> |decimals| == prec
    ensures prec > 114 ==> 114 <= |decimals| <= prec
    ensures prec < 0 ==> |decimals| <= 13 && (decimals != "" ==> decimals[|decimals| - 1] != '0')
    ensures first == '0' <==> Hex(Fraction(w0, w1)) == 0
  {
    hide ShownOf, After, Hex, HexChar, Fraction, SignedDecimal, HexChars, HexText, Head;
    var s, nd := ShownOf(w0, w1, prec), After(w0, w1, prec);
    Digits(w0, w1, prec);
    var m := Room(Negative(w0), upper, s.digits[0], nd > 0 || alt, nd);
    first, decimals, exponent := DigitsForm(Negative(w0), upper, s.digits, m, nd > 0 || alt, s.exponent);
  }
}
