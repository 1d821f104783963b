/** What %e, %f and %g look like, as section 7.19.6.1 of ISO/IEC 9899:1999 asks: which of
    the two forms, how many characters, the letter and the exponent. */
module DblForm {
  import opened Decimal
  import opened DblScale
  import opened DblPrint
  import opened DblCvt
  import opened DblRead

  /** whole digits, p of them behind a point; the point is there when there are decimals or
      the # flag asks for it. */
  predicate Numeric(t: string, whole: nat, p: nat, alt: bool) {
    var point := if p > 0 || alt then 1 else 0;
    && |t| == whole + point + p
    && Figures(t[..whole]) && Figures(t[whole + point..])
    && (point == 1 ==> t[whole] == '.')
  }

  lemma {:induction false} ZerosFigures(n: nat)
    ensures Figures(Zeros(n))
  {
    if n > 0 { ZerosFigures(n - 1); }
  }

  lemma FiguresParts(t: string, i: nat)
    requires Figures(t) && i <= |t|
    ensures Figures(t[..i]) && Figures(t[i..])
  {
  }

  /** Digits around the point. */
  lemma SplitForm(digits: string, whole: nat, p: nat, alt: bool)
    requires Figures(digits) && |digits| == whole + p
    ensures Numeric(digits[..whole] + (if p > 0 || alt then "." else "") + digits[whole..], whole, p, alt)
  {
    FiguresParts(digits, whole);
    var t := digits[..whole] + (if p > 0 || alt then "." else "") + digits[whole..];
    var point := if p > 0 || alt then 1 else 0;
    assert t[..whole] == digits[..whole] && t[whole + point..] == digits[whole..];
  }

  lemma BelowForm(b: real, exp: int, p: nat, alt: bool)
    requires Scaled(b) && exp < 0 && exp + p >= 0
    ensures Numeric(Below1(b, exp, p), 1, p, alt)
  {
    hide Fixed, Zeros, Lead;
    var t := Below1(b, exp, p);
    FixedFigures(Lead(b, exp + p), exp + p + 1);
    ZerosFigures(-exp - 1);
    assert t[2..] == Zeros(-exp - 1) + Text(b, exp + p);
    assert t[..1] == "0";
  }

  lemma AboveForm(b: real, exp: nat, p: nat, alt: bool)
    requires Scaled(b)
    ensures Numeric(Above1(b, exp, p, alt), exp + 1, p, alt)
    ensures b >= 1.0 ==> Above1(b, exp, p, alt)[0] != '0'
  {
    hide Fixed, Lead, Numeric;
    FixedFigures(Lead(b, exp + p), exp + p + 1);
    SplitForm(Text(b, exp + p), exp + 1, p, alt);
    FirstChar(b, exp + p);
    assert Above1(b, exp, p, alt)[0] == Text(b, exp + p)[..1][0];
  }

  lemma MantissaForm(b: real, p: nat, alt: bool)
    requires Scaled(b)
    ensures Numeric(Mantissa(b, p, alt), 1, p, alt)
  {
    hide Fixed, Lead, Numeric;
    FixedFigures(Lead(b, p), p + 1);
    SplitForm(Text(b, p), 1, p, alt);
  }

  /** One digit and p decimals for e; for f as many digits as the number has, the first not
      a zero but for a lone one, and p decimals. */
  lemma BodyForm(s: State, alt: bool) returns (whole: nat)
    requires IsReady(s)
    ensures Numeric(Body(s, alt), whole, s.p, alt) && whole >= 1
    ensures s.format == 0 ==> whole == 1
    ensures s.format != 0 && whole > 1 ==> Body(s, alt)[0] != '0'
  {
    hide Below1, Above1, Mantissa, Numeric;
    whole := if s.format == 1 then s.exp + 1 else 1;
    if s.format == -1 { BelowForm(s.b, s.exp, s.p, alt); }
    else if s.format == 1 { AboveForm(s.b, s.exp, s.p, alt); }
    else { MantissaForm(s.b, s.p, alt); }
  }

  /** Letter, sign and two digits. */
  predicate ExponentPart(t: string, letter: char) {
    |t| == 4 && t[0] == letter && (t[1] == '+' || t[1] == '-') && Figures(t[2..])
  }

  lemma ExpTextForm(exp: int, upper: bool)
    ensures ExponentPart(ExpText(exp, upper), if upper then 'E' else 'e')
    ensures ExpText(exp, upper)[1] == '-' <==> exp < 0
  {
  }

  /** The text is sign, number and exponent, the last for e alone. */
  predicate Parts(t: string, neg: bool, number: string, exponent: string) {
    t == (if neg then "-" else "") + number + exponent
  }

  /** %e and %E with room for the text: one digit, `precision` decimals, the letter of the
      conversion, a sign and two digits. */
  lemma ExponentForm(neg: bool, c: char, v: real, x: int, precision: nat, alt: bool, s: State, lim: nat)
    returns (number: string, exponent: string)
    requires (c == 'e' || c == 'E') && Means(c, v, x, precision, alt, s) && Fits(neg, s, alt, lim)
    ensures Parts(Shown(neg, c, s, alt, lim), neg, number, exponent)
    ensures Numeric(number, 1, precision, alt) && ExponentPart(exponent, c)
  {
    hide Body, ExpText, Strip, Nearest, Digits, Numeric, ExponentPart;
    NothingCut(neg, c, s, alt, lim);
    number, exponent := Body(s, alt), ExpText(s.exp, Upper(c));
    var whole := BodyForm(s, alt);
    ExpTextForm(s.exp, Upper(c));
  }

  /** Every conversion that is not e, E, g or G, with room for the text: the digits, and
      exactly `precision` decimals. */
  lemma FixedForm(neg: bool, c: char, v: real, x: int, precision: nat, alt: bool, s: State, lim: nat)
    returns (number: string, whole: nat)
    requires c != 'e' && c != 'E' && c != 'g' && c != 'G'
    requires Means(c, v, x, precision, alt, s) && Fits(neg, s, alt, lim)
    ensures Parts(Shown(neg, c, s, alt, lim), neg, number, "")
    ensures Numeric(number, whole, precision, alt) && whole >= 1 && (whole > 1 ==> number[0] != '0')
  {
    hide Body, ExpText, Strip, Nearest, Digits, Numeric;
    NothingCut(neg, c, s, alt, lim);
    number := Body(s, alt);
    whole := BodyForm(s, alt);
  }

  /** What is left of a number with p decimals when the zeros at its end are dropped. */
  predicate Stripped(t: string, whole: nat, p: nat) {
    || (|t| == whole && Figures(t))
    || (whole + 1 < |t| <= whole + 1 + p && Numeric(t, whole, |t| - whole - 1, false) && t[|t| - 1] != '0')
  }

  lemma StripForm(t: string, whole: nat, p: nat)
    requires Numeric(t, whole, p, false)
    ensures Stripped(Strip(t), whole, p)
  {
    hide Strip, Stripped;
    StripShape(t);
    PointIs(t, whole);
    CutForm(t, whole, p, |Strip(t)|);
    assert Strip(t) == t[..|Strip(t)|];
  }

  /** Cut behind the whole digits or behind a decimal that is not 0. */
  lemma CutForm(t: string, whole: nat, p: nat, n: nat)
    requires Numeric(t, whole, p, false)
    requires whole <= n <= |t| && n != whole + 1 && (whole < n ==> t[n - 1] != '0')
    ensures Stripped(t[..n], whole, p)
  {
    var r := t[..n];
    if n > whole {
      FiguresParts(t[whole + 1..], n - whole - 1);
      assert r[whole + 1..] == t[whole + 1..][..n - whole - 1] && r[..whole] == t[..whole];
    } else {
      assert r == t[..whole];
    }
  }

  /** %g and %G with room for the text, of P significant digits - one at least: the e form
      with P - 1 decimals when y, the exponent the e style would show, is below -4 or not
      below P, else the f form with P - 1 - y decimals; without # the zeros at the end of
      the decimals are dropped, and the point with the last of them. */
  lemma GeneralForm(neg: bool, c: char, v: real, x: int, precision: nat, alt: bool, s: State, lim: nat)
    returns (number: string, exponent: string, whole: nat, p: nat, y: int)
    requires (c == 'g' || c == 'G') && precision <= 18
    requires Means(c, v, x, precision, alt, s) && Fits(neg, s, alt, lim)
    ensures Parts(Shown(neg, c, s, alt, lim), neg, number, exponent)
    ensures var sig := if precision > 0 then precision else 1;
      && y == Digits(v, x, sig - 1).1
      && (if y < -4 || y >= sig then p == sig - 1 && whole == 1 && ExponentPart(exponent, if c == 'G' then 'E' else 'e')
          else p == sig - 1 - y && whole >= 1 && exponent == "")
    ensures if alt then Numeric(number, whole, p, true) else Stripped(number, whole, p)
  {
    hide Body, ExpText, Strip, Nearest, Numeric, Stripped, ExponentPart, Shift, Scientific;
    NothingCut(neg, c, s, alt, lim);
    var sig := if precision > 0 then precision else 1;
    y, p := Digits(v, x, sig - 1).1, s.p;
    whole := BodyForm(s, alt);
    number := if alt then Body(s, alt) else Strip(Body(s, alt));
    exponent := if s.format == 0 then ExpText(s.exp, Upper(c)) else "";
    ExpTextForm(s.exp, Upper(c));
    if !alt {
      StripForm(Body(s, alt), whole, p);
      StripSigned(neg, Body(s, alt));
    }
  }

  /** The width: blanks in front, as many as it asks for and the buffer has room for. */
  lemma PaddedForm(t: string, width: nat, lim: nat)
    requires |t| <= lim
    ensures var u := Padded(t, width, lim); var pad := |u| - |t|;
      && |u| == (if width <= |t| then |t| else if width <= lim then width else lim)
      && u[pad..] == t && forall i :: 0 <= i < pad ==> u[i] == ' '
  {
  }
}
