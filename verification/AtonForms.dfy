/** The forms of an IPv4 address that inet_aton() takes, one by one, with their values. */
module AtonForms {
  import opened Wrappers
  import opened Inet
  import opened InetAton

  // ---- a number ---------------------------------------------------------------------

  const DIGITS := "0123456789abcdef"
  const CAPITALS := "0123456789ABCDEF"

  /** Which of the base's digits c is: 0-9, and for 16 a-f or A-F. */
  function DigitOf(c: char, base: nat): (d: Option<nat>)
    requires base <= 16
    ensures d.Some? <==> exists k :: 0 <= k < base && (DIGITS[k] == c || CAPITALS[k] == c)
    ensures d.Some? ==> d.value < base && (DIGITS[d.value] == c || CAPITALS[d.value] == c)
  {
    if base == 0 then None
    else if DIGITS[base - 1] == c || CAPITALS[base - 1] == c then Some(base - 1)
    else DigitOf(c, base - 1)
  }

  lemma DigitIs(c: char, base: nat)
    requires Base(base)
    ensures Digit(c, base) >= 0 <==> DigitOf(c, base).Some?
    ensures DigitOf(c, base).Some? ==> Digit(c, base) == DigitOf(c, base).value
  {
    hide DigitOf;
    var d := Digit(c, base);
    if d >= 0 { DigitNamed(c, base); }
    if DigitOf(c, base).Some? { NamedDigit(c, base, DigitOf(c, base).value); }
  }

  lemma DigitNamed(c: char, base: nat)
    requires Base(base) && Digit(c, base) >= 0
    ensures DIGITS[Digit(c, base)] == c || CAPITALS[Digit(c, base)] == c
  {
  }

  lemma NamedDigit(c: char, base: nat, k: nat)
    requires Base(base) && k < base && (DIGITS[k] == c || CAPITALS[k] == c)
    ensures Digit(c, base) == k
  {
  }

  /** The number a string of digits denotes, if it is one: the last digit, and base times
      what is in front of it. */
  function Reading(t: string, base: nat): Option<nat>
    requires base <= 16
  {
    if t == "" then Some(0)
    else
      match (Reading(t[..|t| - 1], base), DigitOf(t[|t| - 1], base))
      case (Some(v), Some(d)) => Some(v * base + d)
      case _ => None
  }

  lemma {:induction false} ValueLast(t: string, base: nat, v: nat)
    requires Base(base) && t != "" && AllDigits(t, base)
    ensures AllDigits(t[..|t| - 1], base)
    ensures ValueFrom(t, base, v) == ValueFrom(t[..|t| - 1], base, v) * base + Digit(t[|t| - 1], base)
    decreases |t|
  {
    hide Digit;
    var u := t[..|t| - 1];
    if |t| > 1 {
      assert u[1..] == t[1..][..|t[1..]| - 1];
      ValueLast(t[1..], base, v * base + Digit(t[0], base));
    } else {
      assert t[1..] == "" && u == "";
    }
  }

  lemma {:induction false} ReadingIs(t: string, base: nat)
    requires Base(base)
    ensures Reading(t, base).Some? <==> AllDigits(t, base)
    ensures AllDigits(t, base) ==> Reading(t, base) == Some(ValueFrom(t, base, 0))
    decreases |t|
  {
    hide Digit, DigitOf;
    if t != "" {
      var u := t[..|t| - 1];
      ReadingIs(u, base);
      DigitIs(t[|t| - 1], base);
      assert AllDigits(t, base) <==> AllDigits(u, base) && Digit(t[|t| - 1], base) >= 0;
      if AllDigits(t, base) { ValueLast(t, base, 0); }
    }
  }

  /** A part is a decimal number without a leading 0, an octal one with it, or a hexadecimal
      one behind 0x or 0X. */
  predicate IsPart(t: string, v: nat) {
    t != "" &&
    if t[0] != '0' then Reading(t, 10) == Some(v)
    else if |t| > 1 && (t[1] == 'x' || t[1] == 'X') then |t| > 2 && Reading(t[2..], 16) == Some(v)
    else Reading(t[1..], 8) == Some(v)
  }

  lemma PartIs(t: string, v: nat)
    ensures IsPart(t, v) <==> Numeral(t, v)
  {
    hide Reading, AllDigits, ValueFrom;
    if t != "" {
      if HexPrefix(t) { ReadingIs(t[2..], 16); }
      ReadingIs(t, 10);
      ReadingIs(t[1..], 8);
    }
  }

  // ---- a number that is too large ---------------------------------------------------

  lemma {:induction false} ScanFails(t: string, rest: string, base: nat, v: nat)
    requires Base(base) && AllDigits(t, base) && v <= MAX32 && ValueFrom(t, base, v) > MAX32
    ensures Scan(t + rest, base, v).None?
    decreases |t|
  {
    hide Digit;
    if t != "" {
      assert (t + rest)[1..] == t[1..] + rest;
      var d := Digit(t[0], base);
      OverflowTest(v, d, base);
      if v * base + d <= MAX32 { ScanFails(t[1..], rest, base, v * base + d); }
    }
  }

  lemma NumberFails(n: string, v: nat, rest: string)
    requires Numeral(n, v) && v > MAX32 && Ends(rest)
    ensures Number(n + rest).None?
  {
    hide Scan, ValueFrom, Ends;
    var t := n + rest;
    SamePrefix(n, rest);
    if HexPrefix(n) {
      assert t[2..] == n[2..] + rest;
      ScanFails(n[2..], rest, 16, 0);
    } else if n[0] == '0' {
      assert t[1..] == n[1..] + rest;
      ScanFails(n[1..], rest, 8, 0);
    } else {
      ScanFails(n, rest, 10, 0);
    }
  }

  // ---- the parts ----------------------------------------------------------------------

  predicate Numerals(ts: seq<string>, ps: seq<nat>) {
    |ts| == |ps| > 0 && forall i :: 0 <= i < |ts| ==> Numeral(ts[i], ps[i])
  }

  lemma {:induction false} PartsFail(t: string, k: nat, ts: seq<string>, ps: seq<nat>, rest: string)
    requires k <= 3 && Numerals(ts, ps) && |ts| <= 4 - k && t == Join(ts) + rest && Ends(rest)
    requires exists i :: 0 <= i < |ps| && ps[i] > MAX32
    ensures Parts(t, k).None?
    decreases 4 - k
  {
    hide Number, Numeral;
    if |ts| == 1 {
      NumberFails(ts[0], ps[0], rest);
    } else {
      var more := Join(ts[1..]) + rest;
      assert t == ts[0] + (['.'] + more);
      if ps[0] > MAX32 {
        NumberFails(ts[0], ps[0], ['.'] + more);
      } else {
        NumberTakes(ts[0], ps[0], ['.'] + more);
        assert (['.'] + more)[1..] == more;
        var i :| 0 <= i < |ps| && ps[i] > MAX32;
        assert ps[1..][i - 1] == ps[i];
        PartsFail(more, k + 1, ts[1..], ps[1..], rest);
      }
    }
  }

  /** One to four numbers with points between them, and a blank or nothing behind. */
  lemma FormDecides(ts: seq<string>, ps: seq<nat>, rest: string)
    requires Numerals(ts, ps) && |ts| <= 4 && (rest == "" || rest[0] in {' ', '\t', '\n'})
    ensures Aton(Join(ts) + rest) == if Fits(ps) then Some(Gather(ps, |ps| - 1)) else None
  {
    hide Numeral, Gather, Parts;
    var s := Join(ts) + rest;
    if forall i :: 0 <= i < |ps| ==> ps[i] <= MAX32 {
      assert Written(s, ts, ps, rest);
      PartsTake(s, 0, ts, ps, rest);
    } else {
      PartsFail(s, 0, ts, ps, rest);
      assert !Fits(ps);
    }
  }

  predicate Behind(rest: string) { rest == "" || rest[0] == ' ' || rest[0] == '\t' || rest[0] == '\n' }

  /** "a": 32 bits. */
  lemma OneNumber(t: string, v: nat, rest: string)
    requires IsPart(t, v) && Behind(rest)
    ensures Aton(t + rest) == if v <= 0xFFFF_FFFF then Some(v) else None
  {
    hide Aton, Numeral, IsPart;
    PartIs(t, v);
    FormDecides([t], [v], rest);
  }

  /** "a.b": 8 bits and 24. */
  lemma TwoNumbers(t: string, v: nat, u: string, w: nat, rest: string)
    requires IsPart(t, v) && IsPart(u, w) && Behind(rest)
    ensures Aton(t + "." + u + rest) == if v <= 0xFF && w <= 0xFF_FFFF then Some(v * 0x100_0000 + w) else None
  {
    hide Aton, Numeral, IsPart;
    PartIs(t, v);
    PartIs(u, w);
    var ps := [v, w];
    assert [t, u][1..] == [u];
    assert Join([t, u]) == t + "." + u;
    FormDecides([t, u], ps, rest);
    assert Gather(ps, 1) == Gather(ps, 0) + ps[0] * Place(0);
  }

  /** "a.b.c": 8 bits, 8 and 16. */
  lemma ThreeNumbers(t: string, v: nat, u: string, w: nat, x: string, y: nat, rest: string)
    requires IsPart(t, v) && IsPart(u, w) && IsPart(x, y) && Behind(rest)
    ensures Aton(t + "." + u + "." + x + rest) ==
            if v <= 0xFF && w <= 0xFF && y <= 0xFFFF then Some(v * 0x100_0000 + w * 0x1_0000 + y) else None
  {
    hide Aton, Numeral, IsPart;
    PartIs(t, v);
    PartIs(u, w);
    PartIs(x, y);
    var ps := [v, w, y];
    assert [t, u, x][1..] == [u, x] && [u, x][1..] == [x];
    assert Join([u, x]) == u + "." + x;
    assert Join([t, u, x]) + rest == t + "." + u + "." + x + rest;
    FormDecides([t, u, x], ps, rest);
    assert Gather(ps, 1) == Gather(ps, 0) + ps[0] * Place(0);
    assert Gather(ps, 2) == Gather(ps, 1) + ps[1] * Place(1);
  }

  /** "a.b.c.d": 8 bits each. */
  lemma FourNumbers(t: seq<string>, v: seq<nat>, rest: string)
    requires |t| == |v| == 4 && (forall i :: 0 <= i < 4 ==> IsPart(t[i], v[i])) && Behind(rest)
    ensures Aton(t[0] + "." + t[1] + "." + t[2] + "." + t[3] + rest) ==
            if v[0] <= 0xFF && v[1] <= 0xFF && v[2] <= 0xFF && v[3] <= 0xFF
            then Some(v[0] * 0x100_0000 + v[1] * 0x1_0000 + v[2] * 0x100 + v[3]) else None
  {
    hide Aton, Numeral, IsPart;
    PartIs(t[0], v[0]);
    PartIs(t[1], v[1]);
    PartIs(t[2], v[2]);
    PartIs(t[3], v[3]);
    JoinFour(t[0], t[1], t[2], t[3]);
    assert t == [t[0], t[1], t[2], t[3]];
    assert Join(t) + rest == t[0] + "." + t[1] + "." + t[2] + "." + t[3] + rest;
    FormDecides(t, v, rest);
    assert Gather(v, 1) == Gather(v, 0) + v[0] * Place(0);
    assert Gather(v, 2) == Gather(v, 1) + v[1] * Place(1);
    assert Gather(v, 3) == Gather(v, 2) + v[2] * Place(2);
  }

  /** Nothing else is an address: a text that is accepted has one of the four forms. */
  lemma FormsOnly(s: string) returns (t: seq<string>, v: seq<nat>, rest: string)
    requires Aton(s).Some?
    ensures 1 <= |t| == |v| <= 4 && Behind(rest) && forall i :: 0 <= i < |t| ==> IsPart(t[i], v[i])
    ensures s == (match |t|
                  case 1 => t[0]
                  case 2 => t[0] + "." + t[1]
                  case 3 => t[0] + "." + t[1] + "." + t[2]
                  case _ => t[0] + "." + t[1] + "." + t[2] + "." + t[3]) + rest
  {
    hide Aton, Numeral, IsPart, Gather;
    t, v, rest := AtonOnly(s);
    forall i | 0 <= i < |t| ensures IsPart(t[i], v[i]) { PartIs(t[i], v[i]); }
    if |t| == 4 {
      JoinFour(t[0], t[1], t[2], t[3]);
      assert t == [t[0], t[1], t[2], t[3]];
    } else if |t| == 3 {
      assert t[1..][1..] == [t[2]] && Join([t[2]]) == t[2];
      assert Join(t[1..]) == t[1] + "." + t[2];
    } else if |t| == 2 {
      assert t[1..] == [t[1]] && Join([t[1]]) == t[1];
    }
  }

  // ---- the text of an address -----------------------------------------------------------

  /** What inet_ntop() prints: the four octets, the highest first, each a decimal number
      without leading zeros, with points between them. */
  lemma DottedQuad(a: Address) returns (t: seq<string>)
    ensures |t| == 4 && Text(a) == t[0] + "." + t[1] + "." + t[2] + "." + t[3]
    ensures IsOctet(t[0], a / 0x100_0000) && IsOctet(t[1], a / 0x1_0000 % 256)
    ensures IsOctet(t[2], a / 0x100 % 256) && IsOctet(t[3], a % 256)
  {
    hide Decimal, IsOctet, Text;
    var t0, t1, t2, t3 := Decimal(Field(a, 0)), Decimal(Field(a, 1)), Decimal(Field(a, 2)), Decimal(Field(a, 3));
    OctetText(Field(a, 0));
    OctetText(Field(a, 1));
    OctetText(Field(a, 2));
    OctetText(Field(a, 3));
    TextFour(a);
    Points(t0, t1, t2, t3);
    t := [t0, t1, t2, t3];
  }

  lemma Points(t0: string, t1: string, t2: string, t3: string)
    ensures t0 + "." + (t1 + "." + (t2 + "." + t3)) == t0 + "." + t1 + "." + t2 + "." + t3
  {
  }

  /** A decimal number without leading zeros. */
  predicate IsOctet(t: string, v: nat) { Reading(t, 10) == Some(v) && t != "" && (t[0] == '0' ==> |t| == 1) }

  lemma OctetText(b: Octet)
    ensures IsOctet(Decimal(b), b)
  {
    DecimalValue(b);
    ReadingIs(Decimal(b), 10);
  }
}
