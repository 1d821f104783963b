/** inet_aton: an IPv4 address in BSD's forms - one to four parts, each decimal, octal
    or hexadecimal, the last one filling what the others leave. */
module InetAton {
  import opened Wrappers
  import opened Inet

  // ---- one part -------------------------------------------------------------------

  predicate Base(base: nat) { base == 8 || base == 10 || base == 16 }

  function Digit(c: char, base: nat): (d: int)
    requires Base(base)
    ensures -1 <= d < base
  {
    var d := if '0' <= c <= '9' then (c - '0') as int
             else if base == 16 && 'a' <= c <= 'f' then (c - 'a') as int + 10
             else if base == 16 && 'A' <= c <= 'F' then (c - 'A') as int + 10
             else -1;
    if d < base then d else -1
  }

  /** The overflow test lets through exactly what fits 32 bits. */
  lemma OverflowTest(v: nat, d: nat, base: nat)
    requires Base(base) && d < base
    ensures v > (MAX32 - d) / base <==> v * base + d > MAX32
  {
    var q := (MAX32 - d) / base;
    assert q * base <= MAX32 - d < (q + 1) * base;
  }

  /** The digit loop from value v on: the value, and the text after the digits. */
  function Scan(t: string, base: nat, v: nat): (r: Option<(nat, string)>)
    requires Base(base)
    ensures r.Some? ==> |r.value.1| <= |t|
    decreases |t|
  {
    if t == [] || Digit(t[0], base) < 0 then Some((v, t))
    else if v > (MAX32 - Digit(t[0], base)) / base then None
    else Scan(t[1..], base, v * base + Digit(t[0], base))
  }

  predicate HexPrefix(t: string) { |t| > 1 && t[0] == '0' && (t[1] == 'x' || t[1] == 'X') }

  function Number(t: string): (r: Option<(nat, string)>)
    ensures r.Some? ==> |r.value.1| < |t|
  {
    if t == [] || !IsFigure(t[0]) then None
    else if HexPrefix(t) then
      if |t| == 2 || Digit(t[2], 16) < 0 then None else Scan(t[2..], 16, 0)
    else if t[0] == '0' then Scan(t[1..], 8, 0)
    else
      assert Digit(t[0], 10) >= 0;
      Scan(t, 10, 0)
  }

  // ---- the whole address ----------------------------------------------------------

  /** The parts, k of them already read, and the text after the last. */
  function Parts(t: string, k: nat): (r: Option<(seq<nat>, string)>)
    requires k <= 3
    ensures r.Some? ==> 1 <= |r.value.0| <= 4 - k
    decreases 4 - k
  {
    match Number(t)
    case None => None
    case Some(number) =>
      var (v, rest) := number;
      if rest == [] || rest[0] != '.' then Some(([v], rest))
      else if k == 3 then None
      else Prefixed([v], Parts(rest[1..], k + 1))
  }

  /** The parts read before those of r. */
  function Prefixed(ps: seq<nat>, r: Option<(seq<nat>, string)>): Option<(seq<nat>, string)> {
    if r.None? then None else Some((ps + r.value.0, r.value.1))
  }

  lemma PrefixedTwice(ps: seq<nat>, v: nat, r: Option<(seq<nat>, string)>)
    ensures Prefixed(ps, Prefixed([v], r)) == Prefixed(ps + [v], r)
    ensures Prefixed([], r) == r
  {
    if r.Some? {
      assert ps + ([v] + r.value.0) == ps + [v] + r.value.0;
      assert [] + r.value.0 == r.value.0;
    }
  }

  predicate Blank(c: char) { c == ' ' || c == '\t' || c == '\n' }

  function Last(n: nat): nat
    requires n < 4
  {
    match n case 0 => 0xFFFF_FFFF case 1 => 0xFF_FFFF case 2 => 0xFFFF case 3 => 0xFF
  }

  predicate Fits(ps: seq<nat>) {
    && 1 <= |ps| <= 4
    && (forall i :: 0 <= i < |ps| - 1 ==> ps[i] <= 0xFF)
    && ps[|ps| - 1] <= Last(|ps| - 1)
  }

  function Place(i: nat): nat
    requires i < 3
  {
    match i case 0 => 0x100_0000 case 1 => 0x1_0000 case 2 => 0x100
  }

  /** The last part and the first i of the others, each in its place. */
  function Gather(ps: seq<nat>, i: nat): nat
    requires i < |ps| <= 4
  {
    if i == 0 then ps[|ps| - 1] else Gather(ps, i - 1) + ps[i - 1] * Place(i - 1)
  }

  lemma {:induction false} GatherFits(ps: seq<nat>)
    requires Fits(ps)
    ensures Gather(ps, |ps| - 1) <= MAX32
  {
    if |ps| >= 2 { assert Gather(ps, 1) == Gather(ps, 0) + ps[0] * Place(0); }
    if |ps| >= 3 { assert Gather(ps, 2) == Gather(ps, 1) + ps[1] * Place(1); }
    if |ps| == 4 { assert Gather(ps, 3) == Gather(ps, 2) + ps[2] * Place(2); }
  }

  function Aton(s: string): (r: Option<Address>) {
    match Parts(s, 0)
    case None => None
    case Some(parts) =>
      var (ps, rest) := parts;
      if rest != [] && !Blank(rest[0]) then None
      else if !Fits(ps) then None
      else
        GatherFits(ps);
        Some(Gather(ps, |ps| - 1))
  }

  // ---- the code -------------------------------------------------------------------

  /** The digit loop. */
  method ReadDigits(s: string, first: nat, base: nat) returns (r: Option<(nat, nat)>)
    requires first <= |s| && Base(base)
    ensures r.None? <==> Scan(s[first..], base, 0).None?
    ensures r.Some? ==> first <= r.value.1 <= |s| && Scan(s[first..], base, 0) == Some((r.value.0, s[r.value.1..]))
    ensures r.Some? ==> r.value.0 <= MAX32
    ensures r.Some? && first < |s| && Digit(s[first], base) >= 0 ==> first < r.value.1
    ensures r.Some? && (first == |s| || Digit(s[first], base) < 0) ==> first == r.value.1
  {
    hide Digit;
    var p, v := first, 0;
    while p < |s| && Digit(s[p], base) >= 0
      invariant first <= p <= |s| && 0 <= v <= MAX32
      invariant Scan(s[p..], base, v) == Scan(s[first..], base, 0)
    {
      var d := Digit(s[p], base);
      OverflowTest(v, d, base);
      if v > (MAX32 - d) / base { return None; }
      assert s[p..][1..] == s[p + 1..];
      v, p := v * base + d, p + 1;
    }
    return Some((v, p));
  }

  method ReadNumber(s: string, start: nat) returns (r: Option<(nat, nat)>)
    requires start <= |s|
    ensures r.None? <==> Number(s[start..]).None?
    ensures r.Some? ==> start < r.value.1 <= |s| && Number(s[start..]) == Some((r.value.0, s[r.value.1..]))
    ensures r.Some? ==> r.value.0 <= MAX32
  {
    hide Scan;
    var p, base, any := start, 10, false;
    if p == |s| || !IsFigure(s[p]) { return None; }
    if s[p] == '0' {
      base, p, any := 8, p + 1, true;
      if p < |s| && (s[p] == 'x' || s[p] == 'X') {
        base, p, any := 16, p + 1, false;
      }
    }
    assert s[start..][p - start..] == s[p..];
    var first := p;
    r := ReadDigits(s, first, base);
    if r.None? { return None; }
    if !any && r.value.1 == first { return None; }
  }

  /** The first loop: part[..n + 1] is filled, and p is after the last of them. */
  method ReadParts(cp: string, part: array<nat>) returns (ok: bool, n: nat, p: nat)
    requires part.Length == 4
    modifies part
    ensures ok <==> Parts(cp, 0).Some?
    ensures ok ==> n < 4 && p <= |cp| && Parts(cp, 0) == Some((part[..n + 1], cp[p..]))
  {
    hide Number, Prefixed;
    n, p := 0, 0;
    ghost var read: seq<nat> := [];
    assert cp[0..] == cp;
    PrefixedTwice([], 0, Parts(cp, 0));
    while true
      invariant 0 <= n <= 3 && 0 <= p <= |cp| && part[..n] == read
      invariant Parts(cp, 0) == Prefixed(read, Parts(cp[p..], n))
      decreases 3 - n
    {
      var number := ReadNumber(cp, p);
      if number.None? {
        PrefixedNone(read);
        return false, n, p;
      }
      part[n] := number.value.0;
      assert part[..n + 1] == read + [part[n]];
      p := number.value.1;
      if p == |cp| || cp[p] != '.' {
        PrefixedOne(read, part[n], cp[p..]);
        return true, n, p;
      }
      if n == 3 {
        PrefixedNone(read);
        return false, n, p;
      }
      assert cp[p..][1..] == cp[p + 1..];
      PrefixedTwice(read, part[n], Parts(cp[p + 1..], n + 1));
      read := read + [part[n]];
      p, n := p + 1, n + 1;
    }
  }

  lemma PrefixedNone(ps: seq<nat>)
    ensures Prefixed(ps, None).None?
  {
  }

  lemma PrefixedOne(ps: seq<nat>, v: nat, rest: string)
    ensures Prefixed(ps, Some(([v], rest))) == Some((ps + [v], rest))
  {
  }

  method InetAton(cp: string) returns (r: Option<Address>)
    requires '\0' !in cp
    ensures r == Aton(cp)
  {
    hide Parts;
    var part := new nat[4];
    var ok, n, p := ReadParts(cp, part);
    if !ok { return None; }
    ghost var ps := part[..n + 1];
    if p < |cp| && !Blank(cp[p]) { return None; }
    var i := 0;
    while i < n
      invariant 0 <= i <= n && forall j :: 0 <= j < i ==> ps[j] <= 0xFF
    {
      if part[i] > 0xFF { return None; }
      i := i + 1;
    }
    if part[n] > Last(n) { return None; }
    var addr := part[n];
    i := 0;
    while i < n
      invariant 0 <= i <= n && addr == Gather(ps, i)
    {
      addr := addr + part[i] * Place(i);
      i := i + 1;
    }
    GatherFits(ps);
    return Some(addr);
  }

  // ---- what it accepts ------------------------------------------------------------

  predicate AllDigits(t: string, base: nat)
    requires Base(base)
  {
    forall i :: 0 <= i < |t| ==> Digit(t[i], base) >= 0
  }

  /** The value of a string of digits read on from v. */
  function ValueFrom(t: string, base: nat, v: nat): (w: nat)
    requires Base(base) && AllDigits(t, base)
    ensures w >= v
    decreases |t|
  {
    if t == [] then v else ValueFrom(t[1..], base, v * base + Digit(t[0], base))
  }

  /** t is a decimal, octal or hexadecimal number of value v. */
  predicate Numeral(t: string, v: nat) {
    t != [] &&
    if HexPrefix(t) then |t| > 2 && AllDigits(t[2..], 16) && v == ValueFrom(t[2..], 16, 0)
    else if t[0] == '0' then AllDigits(t[1..], 8) && v == ValueFrom(t[1..], 8, 0)
    else AllDigits(t, 10) && v == ValueFrom(t, 10, 0)
  }

  predicate Ends(rest: string) { rest == [] || rest[0] == '.' || Blank(rest[0]) }

  lemma EndsNoDigit(rest: string, base: nat)
    requires Base(base) && Ends(rest) && rest != []
    ensures Digit(rest[0], base) < 0
  {
  }

  lemma {:induction false} ScanTakes(t: string, rest: string, base: nat, v: nat)
    requires Base(base) && AllDigits(t, base) && Ends(rest) && ValueFrom(t, base, v) <= MAX32
    ensures Scan(t + rest, base, v) == Some((ValueFrom(t, base, v), rest))
    decreases |t|
  {
    hide Digit, Ends;
    if t == [] {
      assert t + rest == rest;
      if rest != [] { EndsNoDigit(rest, base); }
    } else {
      assert (t + rest)[1..] == t[1..] + rest;
      OverflowTest(v, Digit(t[0], base), base);
      ScanTakes(t[1..], rest, base, v * base + Digit(t[0], base));
    }
  }

  lemma {:induction false} ScanOnly(t: string, base: nat, v: nat)
    requires Base(base) && v <= MAX32 && Scan(t, base, v).Some?
    ensures var (w, rest) := Scan(t, base, v).value; var k := |t| - |rest|;
            && 0 <= k && t[k..] == rest && (rest == [] || Digit(rest[0], base) < 0)
            && AllDigits(t[..k], base) && w == ValueFrom(t[..k], base, v) <= MAX32
    decreases |t|
  {
    hide Digit;
    var (w, rest) := Scan(t, base, v).value;
    var k := |t| - |rest|;
    if t != [] && Digit(t[0], base) >= 0 {
      OverflowTest(v, Digit(t[0], base), base);
      ScanOnly(t[1..], base, v * base + Digit(t[0], base));
      assert t[..k][1..] == t[1..][..k - 1];
      assert t[k..] == t[1..][k - 1..];
      forall i | 0 <= i < k ensures Digit(t[i], base) >= 0 {
        assert i > 0 ==> t[i] == t[1..][..k - 1][i - 1];
      }
    }
  }

  lemma NumberTakes(n: string, v: nat, rest: string)
    requires Numeral(n, v) && v <= MAX32 && Ends(rest)
    ensures Number(n + rest) == Some((v, rest))
  {
    hide Scan, ValueFrom, Ends;
    var t := n + rest;
    SamePrefix(n, rest);
    if HexPrefix(n) {
      assert t[2..] == n[2..] + rest;
      assert n[2..][0] == n[2] == t[2];
      ScanTakes(n[2..], rest, 16, 0);
    } else if n[0] == '0' {
      assert t[1..] == n[1..] + rest;
      ScanTakes(n[1..], rest, 8, 0);
    } else {
      ScanTakes(n, rest, 10, 0);
    }
  }

  /** What follows a number does not make it look like another. */
  lemma SamePrefix(n: string, rest: string)
    requires n != [] && Ends(rest)
    requires n[0] == '0' && !HexPrefix(n) ==> AllDigits(n[1..], 8)
    ensures HexPrefix(n + rest) <==> HexPrefix(n)
  {
    var t := n + rest;
    if n[0] == '0' && !HexPrefix(n) && |n| > 1 {
      assert Digit(n[1..][0], 8) >= 0 && t[1] == n[1] == n[1..][0];
    }
  }

  lemma NumberOnly(t: string)
    requires Number(t).Some?
    ensures var (v, rest) := Number(t).value; var k := |t| - |rest|;
            0 < k && t[k..] == rest && Numeral(t[..k], v) && v <= MAX32
  {
    var (v, rest) := Number(t).value;
    var k := |t| - |rest|;
    if HexPrefix(t) {
      ScanOnly(t[2..], 16, 0);
      assert t[2..][0] == t[2];
      TakeDrop(t, k, 2);
    } else if t[0] == '0' {
      ScanOnly(t[1..], 8, 0);
      TakeDrop(t, k, 1);
      NoHexInside(t, k);
    } else {
      ScanOnly(t, 10, 0);
      assert Digit(t[0], 10) >= 0;
    }
  }

  lemma TakeDrop(t: string, k: nat, m: nat)
    requires m <= k <= |t|
    ensures t[..k][m..] == t[m..][..k - m] && t[k..] == t[m..][k - m..]
  {
  }

  lemma NoHexInside(t: string, k: nat)
    requires 0 < k <= |t| && !HexPrefix(t)
    ensures !HexPrefix(t[..k])
  {
  }

  /** Parts with a point between each two. */
  function Join(ts: seq<string>): string
    requires |ts| > 0
  {
    if |ts| == 1 then ts[0] else ts[0] + "." + Join(ts[1..])
  }

  ghost predicate Written(t: string, ts: seq<string>, ps: seq<nat>, rest: string) {
    && |ts| == |ps| > 0
    && (forall i :: 0 <= i < |ts| ==> Numeral(ts[i], ps[i]) && ps[i] <= MAX32)
    && t == Join(ts) + rest
    && (rest == [] || rest[0] != '.')
  }

  lemma {:induction false} PartsTake(t: string, k: nat, ts: seq<string>, ps: seq<nat>, rest: string)
    requires k <= 3 && Written(t, ts, ps, rest) && |ts| <= 4 - k && Ends(rest)
    ensures Parts(t, k) == Some((ps, rest))
    decreases 4 - k
  {
    hide Number, Numeral;
    if |ts| == 1 {
      NumberTakes(ts[0], ps[0], rest);
      assert ps == [ps[0]];
    } else {
      var more := Join(ts[1..]) + rest;
      assert t == ts[0] + (['.'] + more);
      NumberTakes(ts[0], ps[0], ['.'] + more);
      assert (['.'] + more)[1..] == more;
      PartsTake(more, k + 1, ts[1..], ps[1..], rest);
      assert ps == [ps[0]] + ps[1..];
    }
  }

  lemma WrittenMore(n: string, v: nat, t: string, ts: seq<string>, ps: seq<nat>, rest: string)
    requires Numeral(n, v) && v <= MAX32 && Written(t, ts, ps, rest)
    ensures Written(n + ['.'] + t, [n] + ts, [v] + ps, rest)
  {
    hide Numeral;
    assert ([n] + ts)[1..] == ts;
    assert n + ['.'] + (Join(ts) + rest) == n + "." + Join(ts) + rest;
  }

  lemma {:induction false} PartsOnly(t: string, k: nat) returns (ts: seq<string>)
    requires k <= 3 && Parts(t, k).Some?
    ensures var (ps, rest) := Parts(t, k).value; Written(t, ts, ps, rest)
    decreases 4 - k
  {
    hide Number, Numeral;
    NumberOnly(t);
    var (v, after) := Number(t).value;
    var n := t[..|t| - |after|];
    assert t == n + after;
    if after == [] || after[0] != '.' {
      ts := [n];
    } else {
      var more := PartsOnly(after[1..], k + 1);
      ts := [n] + more;
      var (ps, rest) := Parts(after[1..], k + 1).value;
      WrittenMore(n, v, after[1..], more, ps, rest);
      assert t == n + ['.'] + after[1..];
    }
  }

  /** inet_aton gives s the address a exactly when s is one to four numbers with
      points between them, then nothing or a blank, whose values fit their fields
      and make up a. */
  lemma AtonAccepts(s: string, ts: seq<string>, ps: seq<nat>, rest: string)
    requires Written(s, ts, ps, rest) && (rest == [] || Blank(rest[0])) && Fits(ps)
    ensures Aton(s) == Some(Gather(ps, |ps| - 1))
  {
    hide Parts, Written, Gather;
    assert |ts| == |ps| by { WrittenLength(s, ts, ps, rest); }
    PartsTake(s, 0, ts, ps, rest);
  }

  lemma WrittenLength(s: string, ts: seq<string>, ps: seq<nat>, rest: string)
    requires Written(s, ts, ps, rest)
    ensures |ts| == |ps|
  {
  }

  lemma AtonOnly(s: string) returns (ts: seq<string>, ps: seq<nat>, rest: string)
    requires Aton(s).Some?
    ensures Written(s, ts, ps, rest) && (rest == [] || Blank(rest[0])) && Fits(ps)
    ensures Aton(s) == Some(Gather(ps, |ps| - 1))
  {
    hide Parts, Written, Gather;
    ts := PartsOnly(s, 0);
    ps, rest := Parts(s, 0).value.0, Parts(s, 0).value.1;
  }

  // ---- what inet_ntop prints ------------------------------------------------------

  lemma {:induction false} ValueAppend(t: string, d: nat, v: nat)
    requires AllDigits(t, 10) && d < 10
    ensures AllDigits(t + [Figure(d)], 10)
    ensures ValueFrom(t + [Figure(d)], 10, v) == ValueFrom(t, 10, v) * 10 + d
    decreases |t|
  {
    var u := t + [Figure(d)];
    assert Digit(Figure(d), 10) == d;
    assert AllDigits(u, 10);
    if t == [] {
      assert u[1..] == [];
    } else {
      assert u[1..] == t[1..] + [Figure(d)];
      ValueAppend(t[1..], d, v * 10 + Digit(t[0], 10));
    }
  }

  lemma {:induction false} DecimalValue(b: Octet)
    ensures AllDigits(Decimal(b), 10) && ValueFrom(Decimal(b), 10, 0) == b && (Decimal(b)[0] == '0' <==> b == 0)
    decreases b
  {
    if b < 10 {
      DecimalOne(b);
      ValueAppend([], b, 0);
      assert [] + [Figure(b)] == Decimal(b);
    } else {
      DecimalAppend(b / 10, b % 10);
      DecimalOne(b % 10);
      DecimalValue(b / 10);
      ValueAppend(Decimal(b / 10), b % 10, 0);
    }
  }

  lemma DecimalNumeral(b: Octet)
    ensures Numeral(Decimal(b), b)
  {
    DecimalValue(b);
    if b == 0 {
      DecimalOne(0);
      assert Decimal(0)[1..] == [];
    }
  }

  /** Every text inet_ntop prints, inet_aton reads back as the same address. */
  lemma AtonOfText(a: Address)
    ensures Aton(Text(a)) == Some(a)
  {
    hide Numeral, Decimal, Aton;
    var ps: seq<nat> := [Field(a, 0), Field(a, 1), Field(a, 2), Field(a, 3)];
    var ts := [Decimal(ps[0]), Decimal(ps[1]), Decimal(ps[2]), Decimal(ps[3])];
    DecimalNumeral(ps[0]);
    DecimalNumeral(ps[1]);
    DecimalNumeral(ps[2]);
    DecimalNumeral(ps[3]);
    JoinFour(ts[0], ts[1], ts[2], ts[3]);
    TextFour(a);
    assert Written(Text(a), ts, ps, "");
    AtonAccepts(Text(a), ts, ps, "");
    GatherFour(a, ps);
  }

  /** Whatever inet_pton accepts, inet_aton accepts with the same value. */
  lemma AtonExtendsPton(s: string, a: Address)
    requires Pton(s, 0, 0) == Some(a)
    ensures Aton(s) == Some(a)
  {
    hide Aton;
    PtonOfText(s);
    AtonOfText(a);
  }

  lemma JoinFour(t0: string, t1: string, t2: string, t3: string)
    ensures Join([t0, t1, t2, t3]) == t0 + "." + (t1 + "." + (t2 + "." + t3))
  {
    assert [t0, t1, t2, t3][1..] == [t1, t2, t3];
    assert [t1, t2, t3][1..] == [t2, t3];
    assert [t2, t3][1..] == [t3];
    assert Join([t2, t3]) == t2 + "." + t3;
    assert Join([t1, t2, t3]) == t1 + "." + Join([t2, t3]);
  }

  lemma TextFour(a: Address)
    ensures Text(a) == Decimal(Field(a, 0)) + "." + (Decimal(Field(a, 1)) + "." +
                       (Decimal(Field(a, 2)) + "." + Decimal(Field(a, 3))))
  {
    hide Decimal, Field;
    assert TextFrom(a, 3) == Decimal(Field(a, 3));
    assert TextFrom(a, 2) == Decimal(Field(a, 2)) + "." + TextFrom(a, 3);
    assert TextFrom(a, 1) == Decimal(Field(a, 1)) + "." + TextFrom(a, 2);
    assert TextFrom(a, 0) == Decimal(Field(a, 0)) + "." + TextFrom(a, 1);
  }

  lemma GatherFour(a: Address, ps: seq<nat>)
    requires |ps| == 4 && forall i :: 0 <= i < 4 ==> ps[i] == Field(a, i)
    ensures Gather(ps, 3) == a
  {
    FieldSplit(a, 0, High(a, 0), Field(a, 0));
    FieldSplit(a, 1, High(a, 1), Field(a, 1));
    FieldSplit(a, 2, High(a, 2), Field(a, 2));
    FieldSplit(a, 3, High(a, 3), Field(a, 3));
    assert High(a, 4) == a && High(a, 0) == 0;
    hide High, Field;
    assert Gather(ps, 1) == ps[3] + ps[0] * Place(0);
    assert Gather(ps, 2) == Gather(ps, 1) + ps[1] * Place(1);
  }
}
