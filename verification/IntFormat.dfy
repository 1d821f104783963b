/** The integer conversions of printf: d, i, u, o, x, X and p.

    The loop that reads flags, width, precision and length modifier out of the format is
    not here; what it finds is a Conversion.  The argument is its bits: 64 of them for
    ll and j, else 32. */
module IntFormat {
  datatype Length = Plain | H | HH | L | LL

  datatype Conversion = Conversion(
    c: char, length: Length, minus: bool, plus: bool, space: bool, hash: bool, zero: bool, width: int, precision: int)

  predicate IntegerSpec(c: char) { c in {'d', 'i', 'u', 'o', 'x', 'X', 'p'} }

  predicate SignedSpec(c: char) { c == 'd' || c == 'i' }

  const TWO8 := 0x100
  const TWO16 := 0x1_0000
  const TWO32 := 0x1_0000_0000
  const TWO64 := 0x1_0000_0000_0000_0000

  // ---- the value ------------------------------------------------------------------

  /** How many values the argument's type has. */
  function Span(l: Length): nat {
    match l case HH => TWO8 case H => TWO16 case LL => TWO64 case _ => TWO32
  }

  predicate Argument(l: Length, raw: nat) { raw < if l.LL? then TWO64 else TWO32 }

  /** A two's complement number of the given span. */
  function Signed(x: int, span: nat): int
    requires span > 0
  {
    var r := x % span;
    if r >= span / 2 then r - span else r
  }

  /** The value the conversion is of: the argument in its own type, signed for d and i. */
  function Value(c: char, l: Length, raw: nat): int {
    if SignedSpec(c) then Signed(raw, Span(l)) else raw % Span(l)
  }

  /** The value has the low bits of the argument - 8 for hh, 16 for h, 64 for ll, else 32 -
      and lies in the range of the signed type for d and i, of the unsigned one for the
      others. */
  lemma TypedValue(c: char, l: Length, raw: nat) returns (half: int, q: int)
    requires Argument(l, raw)
    ensures half == match l case HH => 0x80 case H => 0x8000 case LL => 0x8000_0000_0000_0000 case _ => 0x8000_0000
    ensures Value(c, l, raw) + q * (2 * half) == raw
    ensures if c == 'd' || c == 'i' then -half <= Value(c, l, raw) < half else 0 <= Value(c, l, raw) < 2 * half
  {
    half := Span(l) / 2;
    q := (raw - Value(c, l, raw)) / Span(l);
    var r := raw % Span(l);
    assert raw == raw / Span(l) * Span(l) + r;
    assert q == raw / Span(l) || q == raw / Span(l) + 1;
  }

  function Abs(x: int): nat { if x < 0 then -x else x }

  /** What the code takes from the argument list: the sign, and the magnitude as an
      unsigned number of 32 or 64 bits. */
  function Fetch(c: char, l: Length, raw: nat): (bool, nat)
    requires Argument(l, raw)
  {
    if l.LL? then
      var hi, lo := raw / TWO32, raw % TWO32;
      if SignedSpec(c) && hi >= 0x8000_0000 then
        var hi', lo' := TWO32 - 1 - hi, (TWO32 - 1 - lo + 1) % TWO32;
        var hi'' := if lo' == 0 then (hi' + 1) % TWO32 else hi';
        (true, hi'' * TWO32 + lo')
      else (false, hi * TWO32 + lo)
    else
      var ivalue := Signed(raw, TWO32);
      var narrowed := match l
        case H => if SignedSpec(c) then Signed(ivalue, TWO16) else ivalue % TWO16
        case HH => if SignedSpec(c) then Signed(ivalue, TWO8) else ivalue % TWO8
        case _ => ivalue;
      var lvalue := if c == 'u' then Signed(narrowed % TWO32, TWO32) else narrowed;
      if lvalue < 0 && SignedSpec(c) then (true, (-lvalue) % TWO32) else (false, lvalue % TWO32)
  }

  lemma Multiple(y: int, n: int, span: nat)
    requires span == TWO8 || span == TWO16 || span == TWO32
    ensures (y + n * span) % span == y % span
  {
  }

  lemma SameResidue(x: int, span: nat)
    requires span == TWO8 || span == TWO16 || span == TWO32
    ensures Signed(x, TWO32) % span == x % span
  {
    var q := if x % TWO32 >= TWO32 / 2 then x / TWO32 + 1 else x / TWO32;
    var k := if span == TWO8 then 0x100_0000 else if span == TWO16 then TWO16 else 1;
    Multiple(Signed(x, TWO32), q * k, span);
  }

  lemma FetchLong(c: char, raw: nat)
    requires raw < TWO64
    ensures Fetch(c, LL, raw) == (Value(c, LL, raw) < 0, Abs(Value(c, LL, raw)))
  {
    var hi, lo := raw / TWO32, raw % TWO32;
    assert raw == hi * TWO32 + lo;
  }

  lemma Narrowed(raw: nat, span: nat)
    requires span == TWO8 || span == TWO16 || span == TWO32
    ensures Signed(Signed(raw, TWO32), span) == Signed(raw, span)
    ensures Signed(raw, TWO32) % span == raw % span
    ensures -0x8000_0000 <= Signed(raw, span) < 0x8000_0000
  {
    SameResidue(raw, span);
  }

  lemma Unchanged(x: int)
    requires 0 <= x < TWO32
    ensures x % TWO32 == x && Signed(x, TWO32) % TWO32 == x
  {
    SameResidue(x, TWO32);
  }

  lemma FetchInt(c: char, l: Length, raw: nat)
    requires raw < TWO32 && !l.LL?
    ensures Fetch(c, l, raw) == (Value(c, l, raw) < 0, Abs(Value(c, l, raw)))
  {
    hide Signed;
    var span := Span(l);
    Narrowed(raw, span);
    Unchanged(raw % span);
    if SignedSpec(c) {
      var v := Signed(raw, span);
      Unchanged(if v < 0 then -v else v);
    }
  }

  /** The least value of each type included. */
  lemma FetchValue(c: char, l: Length, raw: nat)
    requires Argument(l, raw)
    ensures Fetch(c, l, raw) == (Value(c, l, raw) < 0, Abs(Value(c, l, raw)))
    ensures Fetch(c, l, raw).1 < TWO64
  {
    hide Fetch;
    if l.LL? { FetchLong(c, raw); } else { FetchInt(c, l, raw); }
    ValueRange(c, l, raw);
  }

  lemma ValueRange(c: char, l: Length, raw: nat)
    ensures -TWO64 < Value(c, l, raw) < TWO64
  {
  }

  // ---- digits ---------------------------------------------------------------------

  function Base(c: char): (b: nat)
    ensures b == 8 || b == 10 || b == 16
  {
    if c == 'x' || c == 'X' || c == 'p' then 16 else if c == 'o' then 8 else 10
  }

  const UPPER := "0123456789ABCDEF"
  const LOWER := "0123456789abcdef"

  function Digit(d: nat, upper: bool): char
    requires d < 16
  {
    (if upper then UPPER else LOWER)[d]
  }

  predicate Capitals(c: char) { c == 'X' || c == 'p' }

  /** The digits of v, none for 0. */
  function Numeral(v: nat, base: nat, upper: bool): (s: string)
    requires 2 <= base <= 16
    ensures s == [] <==> v == 0
  {
    if v == 0 then "" else Numeral(v / base, base, upper) + [Digit(v % base, upper)]
  }

  function DigitValue(c: char): int {
    if '0' <= c <= '9' then (c - '0') as int
    else if 'A' <= c <= 'F' then (c - 'A') as int + 10
    else if 'a' <= c <= 'f' then (c - 'a') as int + 10
    else 0
  }

  /** What a string of digits denotes. */
  function Denotes(s: string, base: nat): int {
    if s == [] then 0 else Denotes(s[..|s| - 1], base) * base + DigitValue(s[|s| - 1])
  }

  lemma DigitMeans(d: nat, upper: bool)
    requires d < 16
    ensures DigitValue(Digit(d, upper)) == d && (Digit(d, upper) == '0' <==> d == 0)
  {
  }

  /** The digits read back to the value, and do not begin with a zero. */
  lemma {:induction false} NumeralDenotes(v: nat, base: nat, upper: bool)
    requires 2 <= base <= 16
    ensures Denotes(Numeral(v, base, upper), base) == v
    ensures v > 0 ==> Numeral(v, base, upper)[0] != '0'
    decreases v
  {
    hide Digit, DigitValue;
    if v > 0 {
      var s := Numeral(v, base, upper);
      assert s[..|s| - 1] == Numeral(v / base, base, upper);
      DigitMeans(v % base, upper);
      Quotient(v, base);
      NumeralDenotes(v / base, base, upper);
      if v / base == 0 { assert s[0] == Digit(v % base, upper); }
    }
  }

  lemma Quotient(v: nat, base: nat)
    requires v > 0 && 2 <= base
    ensures 0 <= v / base < v && v == v / base * base + v % base
  {
  }

  function P8(n: nat): (p: nat)
    ensures p >= 1
  {
    if n == 0 then 1 else 8 * P8(n - 1)
  }

  function Reverse(s: string): (r: string)
    ensures |r| == |s|
  {
    if s == [] then "" else Reverse(s[1..]) + [s[0]]
  }

  /** The digit loop: into work from the last digit on, never past the 22nd of the 128
      places. */
  method PutDigits(value: nat, base: nat, upper: bool, work: array<char>) returns (x: nat)
    requires value < TWO64 && 8 <= base <= 16 && work.Length == 128
    modifies work
    ensures x == |Numeral(value, base, upper)| <= 22 && work[..x] == Reverse(Numeral(value, base, upper))
  {
    hide Digit, Numeral, Reverse, P8;
    var v := value;
    x := 0;
    EightDigits();
    DigitsEnd(value, base, upper);
    while v > 0
      invariant 0 <= x <= 22 && 0 <= v < P8(22 - x)
      invariant Numeral(v, base, upper) + Reverse(work[..x]) == Numeral(value, base, upper)
      decreases v
    {
      var rem := v % base;
      EighthLess(v, base, 22 - x);
      ghost var done := work[..x];
      work[x] := Digit(rem, upper);
      assert work[..x + 1] == done + [work[x]];
      DigitStep(v, base, upper, done);
      x := x + 1;
      v := v / base;
    }
    DigitsEnd(v, base, upper);
    ReverseTwice(work[..x]);
    assert [] + Reverse(work[..x]) == Reverse(work[..x]);
  }

  lemma DigitStep(v: nat, base: nat, upper: bool, done: string)
    requires v > 0 && 2 <= base <= 16
    ensures Numeral(v, base, upper) + Reverse(done) ==
            Numeral(v / base, base, upper) + Reverse(done + [Digit(v % base, upper)])
  {
    hide Digit;
    ReverseAppend(done, Digit(v % base, upper));
  }

  lemma DigitsEnd(v: nat, base: nat, upper: bool)
    requires 2 <= base <= 16
    ensures Reverse("") == "" && Numeral(v, base, upper) + "" == Numeral(v, base, upper)
    ensures v == 0 ==> Numeral(v, base, upper) == ""
  {
  }

  lemma EightDigits()
    ensures P8(22) >= TWO64
  {
    assert P8(6) == 262144;
    assert P8(11) == 8589934592;
    assert P8(16) == 281474976710656;
    assert P8(21) == 9223372036854775808;
  }

  lemma EighthLess(v: nat, base: nat, n: nat)
    requires 0 < v < P8(n) && base >= 8
    ensures n > 0 && v / base < P8(n - 1) && v / base < v
  {
    var q := v / base;
    Quotient(v, base);
    TimesEight(q, base);
  }

  lemma TimesEight(q: nat, base: nat)
    requires base >= 8
    ensures q * 8 <= q * base
  {
  }

  lemma {:induction false} ReverseAppend(s: string, c: char)
    ensures Reverse(s + [c]) == [c] + Reverse(s)
    decreases |s|
  {
    if s == [] {
      assert s + [c] == [c];
    } else {
      assert (s + [c])[1..] == s[1..] + [c];
      ReverseAppend(s[1..], c);
    }
  }

  lemma {:induction false} ReverseTwice(s: string)
    ensures Reverse(Reverse(s)) == s
    decreases |s|
  {
    if s != [] {
      ReverseAppend(Reverse(s[1..]), s[0]);
      ReverseTwice(s[1..]);
    }
  }
}
