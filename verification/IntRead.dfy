/** What the characters of an integer conversion mean, and where each of them comes from,
    as section 7.19.6.1 of ISO/IEC 9899:1999 asks. */
module IntRead {
  import opened IntFormat
  import opened IntPrint

  // ---- the reader -----------------------------------------------------------------

  /** Blanks at the start of t. */
  function BlanksOf(t: string): (n: nat)
    ensures n <= |t| && (forall i :: 0 <= i < n ==> t[i] == ' ') && (n < |t| ==> t[n] != ' ')
  {
    if t == [] || t[0] != ' ' then 0 else 1 + BlanksOf(t[1..])
  }

  /** Characters of t up to the first blank. */
  function SolidOf(t: string): (n: nat)
    ensures n <= |t| && (forall i :: 0 <= i < n ==> t[i] != ' ') && (n < |t| ==> t[n] == ' ')
  {
    if t == [] || t[0] == ' ' then 0 else 1 + SolidOf(t[1..])
  }

  /** The digits, behind 0x or 0X in base 16. */
  function ReadDigits(t: string, base: nat): int {
    if base == 16 && |t| > 1 && t[0] == '0' && (t[1] == 'x' || t[1] == 'X') then Denotes(t[2..], base)
    else Denotes(t, base)
  }

  function ReadSigned(t: string, base: nat): int {
    if t == [] then 0
    else if t[0] == '-' then -ReadDigits(t[1..], base)
    else if t[0] == '+' then ReadDigits(t[1..], base)
    else ReadDigits(t, base)
  }

  /** A whole field: blanks, an optional sign, an optional 0x, digits, blanks. */
  function ReadField(t: string, base: nat): int {
    var u := t[BlanksOf(t)..];
    ReadSigned(u[..SolidOf(u)], base)
  }

  lemma {:induction false} FillIs(c: char, n: nat)
    ensures forall i :: 0 <= i < n ==> Fill(c, n)[i] == c
  {
    if n > 0 { FillIs(c, n - 1); }
  }

  lemma BlanksAre(n: nat, u: string)
    requires u == [] || u[0] != ' '
    ensures BlanksOf(Fill(' ', n) + u) == n
  {
    FillIs(' ', n);
    var t := Fill(' ', n) + u;
    BlanksEnd(t, n);
  }

  lemma BlanksEnd(t: string, n: nat)
    requires n <= |t| && (forall i :: 0 <= i < n ==> t[i] == ' ') && (n < |t| ==> t[n] != ' ')
    ensures BlanksOf(t) == n
  {
    var m := BlanksOf(t);
    assert m < |t| ==> t[m] != ' ';
  }

  lemma SolidIs(u: string, n: nat)
    requires forall i :: 0 <= i < |u| ==> u[i] != ' '
    ensures SolidOf(u + Fill(' ', n)) == |u|
  {
    FillIs(' ', n);
    var t := u + Fill(' ', n);
    assert n > 0 ==> t[|u|] == ' ';
  }

  // ---- the digits -----------------------------------------------------------------

  /** The digits a conversion uses: 0 to 7, 0 to 9, or 0 to 9 with a to f or A to F. */
  predicate DigitFor(c: char, d: char) {
    match c
    case 'o' => '0' <= d <= '7'
    case 'x' => '0' <= d <= '9' || 'a' <= d <= 'f'
    case 'X' => '0' <= d <= '9' || 'A' <= d <= 'F'
    case 'p' => '0' <= d <= '9' || 'A' <= d <= 'F'
    case _ => '0' <= d <= '9'
  }

  predicate DigitsFor(c: char, t: string) { forall i :: 0 <= i < |t| ==> DigitFor(c, t[i]) }

  lemma DigitKind(c: char, d: nat)
    requires IntegerSpec(c) && d < Base(c)
    ensures DigitFor(c, Digit(d, Capitals(c)))
  {
  }

  lemma {:induction false} NumeralKind(c: char, v: nat)
    requires IntegerSpec(c)
    ensures DigitsFor(c, Numeral(v, Base(c), Capitals(c)))
    decreases v
  {
    hide Digit, DigitFor;
    if v > 0 {
      Quotient(v, Base(c));
      NumeralKind(c, v / Base(c));
      DigitKind(c, v % Base(c));
    }
  }

  lemma DigitPlain(c: char, d: char)
    requires DigitFor(c, d)
    ensures d != ' ' && d != '-' && d != '+' && d != 'x' && d != 'X'
  {
  }

  // ---- the field without padding ----------------------------------------------------

  /** The sign of the field: '-' for a negative value alone; else what the flags ask for. */
  predicate SignOf(cv: Conversion, value: int, sign: string) {
    if value < 0 then sign == "-"
    else if cv.plus then sign == "+"
    else if cv.space then sign == " "
    else sign == ""
  }

  /** 0x for x and 0X for X, with # and a value that is not zero. */
  predicate PrefixOf(cv: Conversion, value: int, prefix: string) {
    if cv.hash && value != 0 && cv.c == 'x' then prefix == "0x"
    else if cv.hash && value != 0 && cv.c == 'X' then prefix == "0X"
    else prefix == ""
  }

  /** The digits the precision asks for: 1 without one, 8 for p. */
  function Least(cv: Conversion): int { if cv.c == 'p' then 8 else if cv.precision < 0 then 1 else cv.precision }

  /** Digits that denote the magnitude: the least number of them that does, that the
      precision asks for, and with # that begins with a 0 for o. */
  predicate DigitsOf(cv: Conversion, value: int, digits: string) {
    && DigitsFor(cv.c, digits) && Denotes(digits, Base(cv.c)) == Abs(value) && |digits| >= Least(cv)
    && (cv.c == 'o' && cv.hash ==> digits != "" && digits[0] == '0')
    && (|digits| > Least(cv) && |digits| > 0 && !(cv.c == 'o' && cv.hash) ==> digits[0] != '0')
    && (|digits| > Least(cv) && |digits| > 1 && cv.c == 'o' && cv.hash ==> digits[1] != '0')
  }

  lemma FieldDigits(cv: Conversion, value: int)
    requires IntegerSpec(cv.c)
    ensures DigitsOf(cv, value, Fill('0', Leading(cv, value)) + Digits(cv, value))
  {
    var zeros := Leading(cv, value);
    NumeralKind(cv.c, Abs(value));
    NumeralDenotes(Abs(value), Base(cv.c), Capitals(cv.c));
    hide Numeral, Denotes;
    ZerosDenote(zeros, Digits(cv, value), Base(cv.c));
    FillIs('0', zeros);
    assert DigitFor(cv.c, '0');
  }

  /** Sign, prefix, zeros and digits. */
  function Core(sign: string, prefix: string, zeros: nat, digits: string): string {
    sign + prefix + Fill('0', zeros) + digits
  }

  predicate NoSign(t: string) { forall i :: 0 <= i < |t| ==> t[i] != ' ' && t[i] != '-' && t[i] != '+' }

  predicate NoX(t: string) { forall i :: 0 <= i < |t| ==> t[i] != 'x' && t[i] != 'X' }

  lemma CoreSolid(c: char, prefix: string, zeros: nat, digits: string)
    requires DigitsFor(c, digits) && (prefix == "" || prefix == "0x" || prefix == "0X")
    ensures NoSign(prefix + Fill('0', zeros) + digits) && NoX(digits)
  {
    hide DigitFor;
    FillIs('0', zeros);
    forall i | 0 <= i < |digits|
      ensures digits[i] != ' ' && digits[i] != '-' && digits[i] != '+' && digits[i] != 'x' && digits[i] != 'X'
    {
      DigitPlain(c, digits[i]);
    }
  }

  /** Read back, whatever the padding: blanks in front, zeros behind the prefix, blanks
      behind. */
  lemma CoreReads(cv: Conversion, value: int, left: nat, sign: string, prefix: string, zeros: nat, digits: string,
                  right: nat)
    requires IntegerSpec(cv.c) && SignOf(cv, value, sign) && PrefixOf(cv, value, prefix)
    requires DigitsFor(cv.c, digits) && Denotes(digits, Base(cv.c)) == Abs(value)
    ensures var t := Fill(' ', left) + Core(sign, prefix, zeros, digits) + Fill(' ', right);
      && ReadField(t, Base(cv.c)) == value
      && ('-' in t <==> value < 0)
  {
    hide Denotes, DigitFor, ReadField, DigitsFor, NoSign, NoX;
    var base, body := Base(cv.c), prefix + Fill('0', zeros) + digits;
    CoreSolid(cv.c, prefix, zeros, digits);
    assert Core(sign, prefix, zeros, digits) == sign + body;
    Dash(left, sign, body, right);
    ZerosDenote(zeros, digits, base);
    BodyReads(base, prefix, zeros, digits);
    FieldReads(base, left, sign, body, right);
  }

  /** The sign and what is behind it, between blanks. */
  lemma FieldReads(base: nat, left: nat, sign: string, body: string, right: nat)
    requires sign == "" || sign == " " || sign == "+" || sign == "-"
    requires NoSign(body)
    ensures ReadField(Fill(' ', left) + (sign + body) + Fill(' ', right), base) ==
            if sign == "-" then -ReadDigits(body, base) else ReadDigits(body, base)
  {
    hide ReadDigits, ReadSigned, Fill;
    var n, shown := if sign == " " then left + 1 else left, if sign == " " then "" else sign;
    OneBlank(left, sign);
    var u := shown + body;
    assert Fill(' ', left) + (sign + body) + Fill(' ', right) == Fill(' ', n) + (u + Fill(' ', right));
    if u == "" {
      assert u + Fill(' ', right) == Fill(' ', right);
      AllBlank(n, right, base);
      NoneRead(base);
    } else {
      Trimmed(n, u, right, base);
      SignReads(base, shown, body);
    }
  }

  lemma Trimmed(n: nat, u: string, right: nat, base: nat)
    requires u != "" && forall i :: 0 <= i < |u| ==> u[i] != ' '
    ensures ReadField(Fill(' ', n) + (u + Fill(' ', right)), base) == ReadSigned(u, base)
  {
    hide ReadSigned, Fill;
    var t, v := Fill(' ', n) + (u + Fill(' ', right)), u + Fill(' ', right);
    BlanksAre(n, v);
    assert t[n..] == v;
    SolidIs(u, right);
    assert v[..|u|] == u;
  }

  lemma NoneRead(base: nat)
    ensures ReadDigits("", base) == 0
  {
  }

  lemma Dash(left: nat, sign: string, body: string, right: nat)
    requires NoSign(body)
    ensures '-' in Fill(' ', left) + (sign + body) + Fill(' ', right) <==> '-' in sign
  {
    FillIs(' ', left);
    FillIs(' ', right);
  }

  lemma OneBlank(n: nat, sign: string)
    ensures sign == " " ==> Fill(' ', n + 1) == Fill(' ', n) + sign
    ensures sign == "" ==> Fill(' ', n) + sign == Fill(' ', n)
  {
  }

  lemma {:induction false} FillJoin(c: char, m: nat, n: nat)
    ensures Fill(c, m) + Fill(c, n) == Fill(c, m + n)
    decreases n
  {
    if n > 0 { FillJoin(c, m, n - 1); }
  }

  lemma AllBlank(m: nat, n: nat, base: nat)
    ensures ReadField(Fill(' ', m) + Fill(' ', n), base) == 0
  {
    var t := Fill(' ', m) + Fill(' ', n);
    FillIs(' ', m);
    FillIs(' ', n);
    BlanksEnd(t, m + n);
    assert t[m + n..] == "";
  }

  lemma BodyReads(base: nat, prefix: string, zeros: nat, digits: string)
    requires prefix == "" || (base == 16 && (prefix == "0x" || prefix == "0X"))
    requires NoX(digits)
    ensures ReadDigits(prefix + Fill('0', zeros) + digits, base) == Denotes(Fill('0', zeros) + digits, base)
  {
    hide Denotes;
    FillIs('0', zeros);
    var t := prefix + Fill('0', zeros) + digits;
    if prefix == "" { assert t == Fill('0', zeros) + digits; } else { assert t[2..] == Fill('0', zeros) + digits; }
  }

  lemma SignReads(base: nat, sign: string, body: string)
    requires sign == "" || sign == "+" || sign == "-"
    requires sign + body != "" && NoSign(body)
    ensures ReadSigned(sign + body, base) == if sign == "-" then -ReadDigits(body, base) else ReadDigits(body, base)
  {
    hide ReadDigits;
    if sign == "" { assert sign + body == body; } else { assert (sign + body)[1..] == body; }
  }

  // ---- the whole field ------------------------------------------------------------------

  /** The text of an integer conversion: sign, prefix and digits as the conversion, its flags
      and the value ask for; where the width asks for more, blanks behind with the - flag,
      zeros between prefix and digits with the 0 flag - unless there is a - flag or a
      precision - and blanks in front otherwise.  Read back, it is the value; it has a '-'
      for a negative value alone. */
  lemma FieldMeans(cv: Conversion, raw: nat) returns (sign: string, prefix: string, digits: string, pad: nat)
    requires IntegerSpec(cv.c) && Argument(cv.length, raw)
    ensures var v := Value(cv.c, cv.length, raw);
      SignOf(cv, v, sign) && PrefixOf(cv, v, prefix) && DigitsOf(cv, v, digits)
    ensures var n := |sign| + |prefix| + |digits|; pad == if n < cv.width then cv.width - n else 0
    ensures TextOf(LayoutOf(cv, Value(cv.c, cv.length, raw))) ==
      if cv.minus then sign + prefix + digits + Fill(' ', pad)
      else if cv.zero && cv.precision < 0 then sign + prefix + Fill('0', pad) + digits
      else Fill(' ', pad) + sign + prefix + digits
    ensures var t := TextOf(LayoutOf(cv, Value(cv.c, cv.length, raw)));
      && ReadField(t, if cv.c in {'x', 'X', 'p'} then 16 else if cv.c == 'o' then 8 else 10) ==
         Value(cv.c, cv.length, raw)
      && ('-' in t <==> Value(cv.c, cv.length, raw) < 0)
  {
    hide Value, Fetch, Numeral, Denotes, ReadField, DigitFor, TextOf, Fill, Digits, Leading, HexPrefix, Sign, Solid;
    var v := Value(cv.c, cv.length, raw);
    SignIs(cv, v);
    sign, prefix, digits := Sign(cv, v), HexPrefix(cv, v), Fill('0', Leading(cv, v)) + Digits(cv, v);
    pad := Most(cv.width - Solid(cv, v, sign), 0);
    FieldDigits(cv, v);
    FieldText(cv, v, sign, prefix, digits, pad);
    FieldSize(cv, v);
    var padded := ZeroPads(cv);
    var left, zeros, right :=
      if cv.minus || padded then 0 else pad, if padded then pad else 0, if cv.minus then pad else 0;
    CoreReads(cv, v, left, sign, prefix, zeros, digits, right);
    NoPadding(sign, prefix, digits, pad);
  }

  lemma FieldSize(cv: Conversion, v: int)
    ensures Solid(cv, v, Sign(cv, v)) ==
            |Sign(cv, v)| + |HexPrefix(cv, v)| + |Fill('0', Leading(cv, v)) + Digits(cv, v)|
  {
  }

  /** Padding that is not there. */
  lemma NoPadding(sign: string, prefix: string, digits: string, pad: nat)
    ensures Fill(' ', 0) + Core(sign, prefix, 0, digits) + Fill(' ', pad) == sign + prefix + digits + Fill(' ', pad)
    ensures Fill(' ', 0) + Core(sign, prefix, pad, digits) + Fill(' ', 0) == sign + prefix + Fill('0', pad) + digits
    ensures Fill(' ', pad) + Core(sign, prefix, 0, digits) + Fill(' ', 0) == Fill(' ', pad) + sign + prefix + digits
  {
    assert Fill(' ', 0) == "" && Fill('0', 0) == "";
  }

  lemma SignIs(cv: Conversion, v: int)
    ensures SignOf(cv, v, Sign(cv, v)) && PrefixOf(cv, v, HexPrefix(cv, v))
  {
  }

  lemma CorePads(sign: string, prefix: string, zeros: nat, leading: nat, digits: string)
    ensures Core(sign, prefix, zeros, Fill('0', leading) + digits) ==
            sign + prefix + Fill('0', leading + zeros) + digits
  {
    FillJoin('0', zeros, leading);
  }

  lemma FieldText(cv: Conversion, v: int, sign: string, prefix: string, digits: string, pad: nat)
    requires sign == Sign(cv, v) && prefix == HexPrefix(cv, v) && digits == Fill('0', Leading(cv, v)) + Digits(cv, v)
    requires pad == Most(cv.width - Solid(cv, v, sign), 0)
    ensures var padded := ZeroPads(cv);
      TextOf(LayoutOf(cv, v)) ==
      Fill(' ', if cv.minus || padded then 0 else pad) + Core(sign, prefix, if padded then pad else 0, digits) +
      Fill(' ', if cv.minus then pad else 0)
  {
    hide Digits, HexPrefix, Leading, Sign, Fill, Solid, Core;
    var l := LayoutOf(cv, v);
    CorePads(sign, prefix, if ZeroPads(cv) then pad else 0, Leading(cv, v), Digits(cv, v));
    TextCore(l);
  }

  lemma TextCore(l: Layout)
    ensures TextOf(l) == Fill(' ', l.left) + (l.sign + l.prefix + Fill('0', l.zeros) + l.digits) + Fill(' ', l.right)
  {
  }

  /** No value is printed like another one: what a conversion prints gives it away. */
  lemma FieldsDiffer(cv: Conversion, raw: nat, other: nat)
    requires IntegerSpec(cv.c) && Argument(cv.length, raw) && Argument(cv.length, other)
    requires TextOf(LayoutOf(cv, Value(cv.c, cv.length, raw))) == TextOf(LayoutOf(cv, Value(cv.c, cv.length, other)))
    ensures Value(cv.c, cv.length, raw) == Value(cv.c, cv.length, other)
  {
    hide Value, TextOf, LayoutOf, ReadField;
    var a, b, c, d := FieldMeans(cv, raw);
    a, b, c, d := FieldMeans(cv, other);
  }
}
