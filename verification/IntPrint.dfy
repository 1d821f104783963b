/** Laying out an integer conversion, and the two sinks it goes to. */
module IntPrint {
  import opened IntFormat

  // ---- the layout of a conversion --------------------------------------------------

  datatype Layout = Layout(left: nat, sign: string, prefix: string, zeros: nat, digits: string, right: nat)

  function Fill(c: char, n: nat): (s: string)
    ensures |s| == n
  {
    if n == 0 then "" else Fill(c, n - 1) + [c]
  }

  function TextOf(l: Layout): string {
    Fill(' ', l.left) + l.sign + l.prefix + Fill('0', l.zeros) + l.digits + Fill(' ', l.right)
  }

  function Most(a: int, b: int): int { if a < b then b else a }

  function Precision(cv: Conversion): int {
    if cv.c == 'p' then 8 else if cv.precision < 0 then 1 else cv.precision
  }

  /** The 0 flag counts without the - flag and without a precision. */
  predicate ZeroPads(cv: Conversion) { cv.zero && !cv.minus && cv.precision < 0 }

  /** The sign the code prints, whatever the conversion. */
  function Sign(cv: Conversion, value: int): string {
    if value < 0 then "-" else if cv.plus then "+" else if cv.space then " " else ""
  }

  function HexPrefix(cv: Conversion, value: int): string {
    if cv.hash && value != 0 && cv.c == 'x' then "0x" else if cv.hash && value != 0 && cv.c == 'X' then "0X" else ""
  }

  function Digits(cv: Conversion, value: int): string { Numeral(Abs(value), Base(cv.c), Capitals(cv.c)) }

  /** Zeros before the first digit: the precision's, and the one # puts before an octal
      number. */
  function Leading(cv: Conversion, value: int): nat {
    Most(Precision(cv) - |Digits(cv, value)|, if cv.hash && cv.c == 'o' then 1 else 0)
  }

  /** What is not padding, behind a sign. */
  function Solid(cv: Conversion, value: int, sign: string): nat {
    |sign| + |HexPrefix(cv, value)| + Leading(cv, value) + |Digits(cv, value)|
  }

  /** The layout with a given sign. */
  function LayoutWith(cv: Conversion, value: int, sign: string): Layout {
    var spare := Most(cv.width - Solid(cv, value, sign), 0);
    Layout(if cv.minus || ZeroPads(cv) then 0 else spare, sign, HexPrefix(cv, value),
           Leading(cv, value) + (if ZeroPads(cv) then spare else 0), Digits(cv, value), if cv.minus then spare else 0)
  }

  function LayoutOf(cv: Conversion, value: int): Layout { LayoutWith(cv, value, Sign(cv, value)) }

  /** The field is as wide as asked for, or as the number needs; its digits, the zeros
      included, are at least the precision and denote the magnitude of the value. */
  lemma LayoutMeans(cv: Conversion, value: int)
    ensures |TextOf(LayoutOf(cv, value))| == Most(cv.width, Solid(cv, value, Sign(cv, value)))
    ensures var l := LayoutOf(cv, value);
      && Denotes(Fill('0', l.zeros) + l.digits, Base(cv.c)) == Abs(value)
      && l.zeros + |l.digits| >= Precision(cv)
      && (cv.hash && cv.c == 'o' ==> (Fill('0', l.zeros) + l.digits)[0] == '0')
      && (l.left == 0 || l.right == 0)
  {
    var l := LayoutOf(cv, value);
    NumeralDenotes(Abs(value), Base(cv.c), Capitals(cv.c));
    ZerosDenote(l.zeros, l.digits, Base(cv.c));
    if cv.hash && cv.c == 'o' { FillFirst('0', l.zeros); }
  }

  lemma {:induction false} FillFirst(c: char, n: nat)
    requires n > 0
    ensures Fill(c, n)[0] == c
  {
    if n > 1 { FillFirst(c, n - 1); }
  }

  lemma {:induction false} ZerosDenote(n: nat, s: string, base: nat)
    ensures Denotes(Fill('0', n) + s, base) == Denotes(s, base)
    decreases n + |s|
  {
    var t := Fill('0', n) + s;
    if s != [] {
      assert t[..|t| - 1] == Fill('0', n) + s[..|s| - 1];
      ZerosDenote(n, s[..|s| - 1], base);
    } else if n > 0 {
      assert t == Fill('0', n) && t[..|t| - 1] == Fill('0', n - 1) + s;
      ZerosDenote(n - 1, s, base);
    }
  }

  // ---- the layout section 7.19.6.1 of ISO/IEC 9899:1999 asks for -------------------

  /** The + and blank flags are for signed conversions. */
  function StandardLayout(cv: Conversion, value: int): Layout {
    LayoutWith(cv, value, if SignedSpec(cv.c) then Sign(cv, value) else "")
  }

  /** A blank that the flag puts in is one that the field has anyway. */
  predicate BlankUnseen(cv: Conversion, value: int) {
    var n := Solid(cv, value, "");
    cv.width > n && (n == 0 || (!cv.minus && !ZeroPads(cv)))
  }

  lemma {:induction false} NumeralFirst(v: nat, base: nat, upper: bool)
    requires 2 <= base <= 16 && v > 0
    ensures Numeral(v, base, upper)[0] != ' ' && Numeral(v, base, upper)[0] != '+'
    decreases v
  {
    Quotient(v, base);
    if v / base > 0 { NumeralFirst(v / base, base, upper); }
  }

  lemma {:induction false} FillAt(c: char, n: nat, i: nat)
    requires i < n
    ensures Fill(c, n)[i] == c
  {
    if i < n - 1 { FillAt(c, n - 1, i); }
  }

  lemma {:induction false} FillFront(c: char, n: nat)
    ensures [c] + Fill(c, n) == Fill(c, n + 1)
  {
    if n > 0 { FillFront(c, n - 1); }
  }

  /** The text without its padding begins with a digit. */
  lemma SolidFirst(cv: Conversion, value: int, zeros: nat)
    requires zeros > 0 || Digits(cv, value) != []
    ensures var t := HexPrefix(cv, value) + Fill('0', zeros) + Digits(cv, value);
      t != [] && t[0] != ' ' && t[0] != '+'
  {
    if zeros > 0 { FillAt('0', zeros, 0); } else { NumeralFirst(Abs(value), Base(cv.c), Capitals(cv.c)); }
  }

  lemma TextParts(l: Layout)
    ensures TextOf(l) == Fill(' ', l.left) + (l.sign + (l.prefix + Fill('0', l.zeros) + l.digits)) + Fill(' ', l.right)
  {
  }

  /** The flag's sign shows where it is not the blank of a padded field. */
  lemma SignShows(cv: Conversion, value: int, sign: string)
    requires sign == "+" || (sign == " " && !BlankUnseen(cv, value))
    ensures TextOf(LayoutWith(cv, value, sign)) != TextOf(LayoutWith(cv, value, ""))
  {
    hide HexPrefix, Digits, Leading, Fill;
    var a, b, n := LayoutWith(cv, value, sign), LayoutWith(cv, value, ""), Solid(cv, value, "");
    TextParts(a);
    TextParts(b);
    if cv.width > n {
      if !cv.minus && !ZeroPads(cv) {
        FillAt(' ', b.left, a.left);
        assert TextOf(b)[a.left] == ' ' && TextOf(a)[a.left] == sign[0];
      } else if n > 0 {
        SomeDigit(cv, value);
        SolidFirst(cv, value, b.zeros);
        assert TextOf(a)[0] == sign[0];
        assert TextOf(b)[0] == (b.prefix + Fill('0', b.zeros) + b.digits)[0];
      } else if ZeroPads(cv) {
        PaddedSolid(cv, value);
      } else {
        FillAt(' ', b.right, 0);
        assert TextOf(a)[0] == '+' && TextOf(b)[0] == ' ';
      }
    }
  }

  lemma SomeDigit(cv: Conversion, value: int)
    requires Solid(cv, value, "") > 0
    ensures Leading(cv, value) > 0 || Digits(cv, value) != []
  {
  }

  lemma PaddedSolid(cv: Conversion, value: int)
    requires ZeroPads(cv)
    ensures Solid(cv, value, "") > 0
  {
  }

  /** The flag's blank is the last one in front, or the first of a field of blanks. */
  lemma BlankMerges(cv: Conversion, value: int)
    requires BlankUnseen(cv, value)
    ensures TextOf(LayoutWith(cv, value, " ")) == TextOf(LayoutWith(cv, value, ""))
  {
    hide HexPrefix, Digits, Leading;
    var a, b := LayoutWith(cv, value, " "), LayoutWith(cv, value, "");
    if !cv.minus && !ZeroPads(cv) {
      assert Fill(' ', b.left) == Fill(' ', a.left) + " ";
    } else {
      if ZeroPads(cv) { PaddedSolid(cv, value); }
      FillFront(' ', a.right);
    }
  }

  /** The text printed is the standard's exactly when the conversion is signed, or there
      is neither flag, or the flag's blank falls among the blanks of the field. */
  lemma StandardText(cv: Conversion, raw: nat)
    requires IntegerSpec(cv.c) && Argument(cv.length, raw)
    ensures var v := Value(cv.c, cv.length, raw);
      TextOf(LayoutOf(cv, v)) == TextOf(StandardLayout(cv, v)) <==>
      SignedSpec(cv.c) || (!cv.plus && (!cv.space || BlankUnseen(cv, v)))
  {
    hide TextOf, LayoutWith, BlankUnseen;
    var v := Value(cv.c, cv.length, raw);
    if !SignedSpec(cv.c) && (cv.plus || cv.space) {
      if !cv.plus && BlankUnseen(cv, v) { BlankMerges(cv, v); } else { SignShows(cv, v, Sign(cv, v)); }
    }
  }

  /** %+u of 5 is +5 where the standard has 5. */
  lemma PlusUnsigned()
    ensures var cv := Conversion('u', Plain, false, true, false, false, false, 0, -1);
      && Value('u', Plain, 5) == 5
      && TextOf(LayoutOf(cv, 5)) == "+5" && TextOf(StandardLayout(cv, 5)) == "5"
  {
    var cv := Conversion('u', Plain, false, true, false, false, false, 0, -1);
    NumeralOfFive();
    hide Numeral;
    assert LayoutOf(cv, 5) == Layout(0, "+", "", 0, "5", 0);
    assert StandardLayout(cv, 5) == Layout(0, "", "", 0, "5", 0);
    hide LayoutWith;
    assert Fill(' ', 0) == "" && Fill('0', 0) == "";
  }

  lemma NumeralOfFive()
    ensures Numeral(5, 10, false) == "5"
  {
    assert Numeral(5, 10, false) == Numeral(0, 10, false) + "5";
  }

  // ---- the sinks ------------------------------------------------------------------

  /** Where outch() puts characters: a stream, or smax bytes of s from at on. */
  class Sink {
    const toFile: bool
    const s: array<char>
    const at: nat
    const smax: int
    var stream: string
    var sput: nat
    ghost var sent: string
    ghost const was: string

    ghost predicate Valid()
      reads this, s
    {
      && |was| == s.Length && (smax > 0 ==> at + smax <= s.Length) && at <= s.Length
      && (toFile ==> stream == sent && sput == 0)
      && (!toFile ==> stream == "" && sput == Most(0, if |sent| < smax then |sent| else smax))
      && sput <= |sent| && at + sput <= s.Length
      && s[..] == was[..at] + sent[..sput] + was[at + sput..]
    }

    constructor ToFile(s: array<char>)
      ensures Valid() && sent == "" && toFile && this.s == s
    {
      toFile, this.s, at, smax, stream, sput, sent, was := true, s, 0, 0, "", 0, "", s[..];
    }

    constructor ToString(s: array<char>, at: nat, smax: int)
      requires at <= s.Length && (smax > 0 ==> at + smax <= s.Length)
      ensures Valid() && sent == "" && !toFile && this.s == s && this.at == at && this.smax == smax && was == s[..]
    {
      toFile, this.s, this.at, this.smax, stream, sput, sent, was := false, s, at, smax, "", 0, "", s[..];
    }

    method Outch(ch: char)
      requires Valid()
      modifies this, s
      ensures Valid() && sent == old(sent) + [ch]
    {
      if toFile {
        stream := stream + [ch];
      } else if sput < smax {
        s[at + sput] := ch;
        sput := sput + 1;
        assert (sent + [ch])[..sput] == sent + [ch];
      }
      sent := sent + [ch];
    }
  }

  method Repeat(k: Sink, c: char, n: nat) returns (count: nat)
    requires k.Valid()
    modifies k, k.s
    ensures k.Valid() && k.sent == old(k.sent) + Fill(c, n) && count == n
  {
    count := 0;
    while count < n
      invariant count <= n && k.Valid() && k.sent == old(k.sent) + Fill(c, count)
    {
      k.Outch(c);
      count := count + 1;
    }
  }

  method PutReversed(k: Sink, work: array<char>, n: nat, ghost text: string)
    requires k.Valid() && n <= work.Length && work[..n] == Reverse(text) && work != k.s
    modifies k, k.s
    ensures k.Valid() && k.sent == old(k.sent) + text
  {
    var x := n;
    ReverseTwice(text);
    while x > 0
      invariant 0 <= x <= n && k.Valid() && work[..n] == Reverse(text)
      invariant k.sent + Reverse(work[..x]) == old(k.sent) + text
    {
      x := x - 1;
      assert work[..x + 1] == work[..x] + [work[x]];
      ReverseAppend(work[..x], work[x]);
      k.Outch(work[x]);
    }
    assert k.sent + [] == k.sent;
  }

  // ---- the conversion -------------------------------------------------------------

  method CountZeros(cv: Conversion, zero: bool, precision: int, x: nat, sg: nat, pfx: nat, first: char)
    returns (nz: nat)
    requires x > 0 ==> first != '0'
    ensures nz == var n := Most(precision - x, if cv.hash && cv.c == 'o' then 1 else 0);
                  if zero then Most(n, cv.width - sg - pfx - x) else n
  {
    nz := if precision > x then precision - x else 0;
    if cv.hash && cv.c == 'o' && nz == 0 && (x == 0 || first != '0') { nz := 1; }
    if zero && x + nz + sg + pfx < cv.width { nz := cv.width - sg - pfx - x; }
  }

  /** Prints blanks, sign, 0x, zeros, digits and blanks, in that order, into either sink,
      and returns how many characters that is, however many the string sink had room
      for. */
  method PrintInteger(k: Sink, cv: Conversion, raw: nat) returns (extraCh: nat)
    requires k.Valid() && IntegerSpec(cv.c) && Argument(cv.length, raw)
    modifies k, k.s
    ensures k.Valid()
    ensures k.sent == old(k.sent) + TextOf(LayoutOf(cv, Value(cv.c, cv.length, raw)))
    ensures extraCh == |TextOf(LayoutOf(cv, Value(cv.c, cv.length, raw)))|
  {
    hide Value, Fetch, Numeral, Sink.Valid, TextOf, LayoutOf, Denotes, Digit, Reverse;
    ghost var value := Value(cv.c, cv.length, raw);
    FetchValue(cv.c, cv.length, raw);
    var (neg, magnitude) := Fetch(cv.c, cv.length, raw);
    var work := new char[128];
    var x := PutDigits(magnitude, Base(cv.c), Capitals(cv.c), work);
    ghost var ds := Digits(cv, value);
    NumeralDenotes(magnitude, Base(cv.c), Capitals(cv.c));
    if x > 0 { FirstDigit(ds); }
    var sign, prefix, nz, blanks := Measure(cv, neg, x, if x > 0 then work[x - 1] else '0', value);
    extraCh := Emit(k, cv.minus, blanks, sign, prefix, nz, work, x, ds);
  }

  /** What goes around the digits. */
  method Measure(cv: Conversion, neg: bool, x: nat, first: char, ghost value: int)
    returns (sign: string, prefix: string, nz: nat, blanks: nat)
    requires neg == (value < 0) && x == |Digits(cv, value)| && (x > 0 ==> first != '0')
    ensures LayoutOf(cv, value) ==
      Layout(if cv.minus then 0 else blanks, sign, prefix, nz, Digits(cv, value), if cv.minus then blanks else 0)
  {
    hide Numeral;
    var zero := cv.zero && !cv.minus && cv.precision < 0;
    var precision := if cv.precision < 0 then 1 else cv.precision;
    if cv.c == 'p' { precision := 8; }
    sign := if neg then "-" else if cv.plus then "+" else if cv.space then " " else "";
    prefix := if !cv.hash || x == 0 then "" else if cv.c == 'x' then "0x" else if cv.c == 'X' then "0X" else "";
    nz := CountZeros(cv, zero, precision, x, |sign|, |prefix|, first);
    var y := x + nz + |sign| + |prefix|;
    blanks := if y < cv.width then cv.width - y else 0;
    LayoutIs(cv, value, nz, blanks);
  }

  lemma LayoutIs(cv: Conversion, value: int, nz: nat, blanks: nat)
    requires var n, w := Leading(cv, value), |Sign(cv, value)| + |HexPrefix(cv, value)| + |Digits(cv, value)|;
      && nz == (if ZeroPads(cv) then Most(n, cv.width - w) else n)
      && blanks == Most(0, cv.width - w - nz)
    ensures LayoutOf(cv, value) ==
      Layout(if cv.minus then 0 else blanks, Sign(cv, value), HexPrefix(cv, value), nz, Digits(cv, value),
             if cv.minus then blanks else 0)
  {
    hide Leading, Sign, HexPrefix, Digits;
  }

  method Emit(k: Sink, minus: bool, blanks: nat, sign: string, prefix: string, nz: nat, work: array<char>, x: nat,
              ghost ds: string) returns (extraCh: nat)
    requires k.Valid() && x <= work.Length && work[..x] == Reverse(ds) && work != k.s
    modifies k, k.s
    ensures k.Valid()
    ensures var l := Layout(if minus then 0 else blanks, sign, prefix, nz, ds, if minus then blanks else 0);
            k.sent == old(k.sent) + TextOf(l) && extraCh == |TextOf(l)|
  {
    hide Sink.Valid, Reverse, Fill;
    ghost var l := Layout(if minus then 0 else blanks, sign, prefix, nz, ds, if minus then blanks else 0);
    extraCh := Repeat(k, ' ', if minus then 0 else blanks);
    var n := PutString(k, sign);
    extraCh := extraCh + n;
    n := PutString(k, prefix);
    extraCh := extraCh + n;
    n := Repeat(k, '0', nz);
    extraCh := extraCh + n;
    PutReversed(k, work, x, ds);
    extraCh := extraCh + x;
    n := Repeat(k, ' ', if minus then blanks else 0);
    extraCh := extraCh + n;
    Joined(old(k.sent), l);
    assert |ds| == |Reverse(ds)|;
  }

  lemma FirstDigit(s: string)
    requires s != []
    ensures Reverse(s)[|s| - 1] == s[0]
  {
  }

  lemma Joined(before: string, l: Layout)
    ensures before + Fill(' ', l.left) + l.sign + l.prefix + Fill('0', l.zeros) + l.digits + Fill(' ', l.right) ==
            before + TextOf(l)
    ensures l.right == 0 ==>
      before + Fill(' ', l.left) + l.sign + l.prefix + Fill('0', l.zeros) + l.digits == before + TextOf(l)
  {
  }

  method PutString(k: Sink, t: string) returns (n: nat)
    requires k.Valid()
    modifies k, k.s
    ensures k.Valid() && k.sent == old(k.sent) + t && n == |t|
  {
    n := 0;
    while n < |t|
      invariant n <= |t| && k.Valid() && k.sent == old(k.sent) + t[..n]
    {
      k.Outch(t[n]);
      n := n + 1;
    }
    assert t[..n] == t;
  }

  /** Into a string: the first smax characters of what a stream would get; and the count
      is that of all of them. */
  method PrintToString(s: array<char>, at: nat, smax: int, cv: Conversion, raw: nat) returns (count: nat)
    requires at <= s.Length && (smax > 0 ==> at + smax <= s.Length)
    requires IntegerSpec(cv.c) && Argument(cv.length, raw)
    modifies s
    ensures var t := TextOf(LayoutOf(cv, Value(cv.c, cv.length, raw)));
      var n := Most(0, if |t| < smax then |t| else smax);
      count == |t| && s[..] == old(s[..])[..at] + t[..n] + old(s[..])[at + n..]
  {
    hide Value, TextOf, LayoutOf;
    var k := new Sink.ToString(s, at, smax);
    count := PrintInteger(k, cv, raw);
    assert k.sent == TextOf(LayoutOf(cv, Value(cv.c, cv.length, raw)));
  }

  method PrintToStream(cv: Conversion, raw: nat) returns (stream: string, count: nat)
    requires IntegerSpec(cv.c) && Argument(cv.length, raw)
    ensures stream == TextOf(LayoutOf(cv, Value(cv.c, cv.length, raw))) && count == |stream|
  {
    hide Value, TextOf, LayoutOf;
    var none := new char[0];
    var k := new Sink.ToFile(none);
    count := PrintInteger(k, cv, raw);
    assert k.sent == TextOf(LayoutOf(cv, Value(cv.c, cv.length, raw)));
    stream := k.stream;
  }
}
