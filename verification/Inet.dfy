/** IPv4 addresses as text: inet_ntop, inet_pton and inet_aton.

    A C string is a seq<char> without NUL; an address is the 32-bit value of s_addr.
    Where the source ors together fields that do not overlap, the model adds. */
module Inet {
  import opened Wrappers

  const AF_INET := 2
  const INET_ADDRSTRLEN := 16
  const MAX32 := 0xFFFF_FFFF

  type Address = a: nat | a <= 0xFFFF_FFFF
  type Octet = b: nat | b <= 255

  /** What inet_pton returns: 1 with the address, 0, or -1 with EAFNOSUPPORT. */
  datatype Conversion = Converted(addr: Address) | Refused | Unsupported

  /** What inet_ntop returns: dst, or NULL with the errno. */
  datatype Formatting = Formatted | NoSpace | BadFamily

  // ---- text -----------------------------------------------------------------------

  function Figure(d: nat): char
    requires d < 10
  {
    '0' + d as char
  }

  predicate IsFigure(c: char) { '0' <= c <= '9' }

  function Decimal(b: Octet): (t: string)
    ensures 1 <= |t| <= 3
  {
    (if b >= 100 then [Figure(b / 100)] else []) +
    (if b >= 10 then [Figure(b / 10 % 10)] else []) + [Figure(b % 10)]
  }

  /** The octet a >> shift, for shift 24, 16, 8 and 0. */
  function Field(a: Address, i: nat): Octet
    requires i < 4
  {
    match i
    case 0 => a / 0x100_0000
    case 1 => a / 0x1_0000 % 256
    case 2 => a / 0x100 % 256
    case 3 => a % 256
  }

  /** The fields from the i-th on, with points between them. */
  function TextFrom(a: Address, i: nat): (t: string)
    requires i < 4
    ensures 1 <= |t| <= 4 * (4 - i) - 1
    decreases 4 - i
  {
    if i == 3 then Decimal(Field(a, 3)) else Decimal(Field(a, i)) + "." + TextFrom(a, i + 1)
  }

  /** The text form of an address. */
  function Text(a: Address): (t: string)
    ensures 7 <= |t| < INET_ADDRSTRLEN
  {
    var t := TextFrom(a, 0);
    assert |TextFrom(a, 2)| >= 3;
    assert |TextFrom(a, 1)| >= 5;
    t
  }

  // ---- inet_ntop ------------------------------------------------------------------

  method PutOctet(tmp: array<char>, start: nat, b: Octet) returns (p: nat)
    requires start + |Decimal(b)| <= tmp.Length
    modifies tmp
    ensures p == start + |Decimal(b)| && tmp[..p] == old(tmp[..start]) + Decimal(b)
  {
    p := start;
    if b >= 100 {
      tmp[p] := Figure(b / 100);
      p := p + 1;
    }
    if b >= 10 {
      tmp[p] := Figure(b / 10 % 10);
      p := p + 1;
    }
    tmp[p] := Figure(b % 10);
    p := p + 1;
  }

  method Format(a: Address, tmp: array<char>) returns (p: nat)
    requires tmp.Length == INET_ADDRSTRLEN
    modifies tmp
    ensures p <= INET_ADDRSTRLEN && tmp[..p] == Text(a) + ['\0']
  {
    hide Text, TextFrom, Decimal, Field;
    p := 0;
    var i := 0;
    FormatStart(a);
    while i < 4
      invariant 0 <= i <= 4 && 0 <= p <= INET_ADDRSTRLEN
      invariant i < 4 ==> tmp[..p] + TextFrom(a, i) == Text(a)
      invariant i == 4 ==> tmp[..p] == Text(a) + ['\0']
    {
      ghost var before := tmp[..p];
      FormatStep(a, i, before);
      p := PutOctet(tmp, p, Field(a, i));
      ghost var after := tmp[..p];
      tmp[p] := if i < 3 then '.' else '\0';
      assert tmp[..p + 1] == after + [tmp[p]];
      p := p + 1;
      i := i + 1;
    }
  }

  lemma FormatStart(a: Address)
    ensures [] + TextFrom(a, 0) == Text(a)
  {
  }

  lemma FormatStep(a: Address, i: nat, before: string)
    requires i < 4 && before + TextFrom(a, i) == Text(a)
    ensures var after := before + Decimal(Field(a, i));
            |after| < INET_ADDRSTRLEN &&
            if i < 3 then after + ['.'] + TextFrom(a, i + 1) == Text(a) else after == Text(a)
  {
    hide Text, Decimal, Field;
    assert |before| + |TextFrom(a, i)| == |Text(a)|;
  }

  method InetNtop(af: int, a: Address, dst: array<char>, size: nat) returns (r: Formatting)
    requires size <= dst.Length
    modifies dst
    ensures r.BadFamily? <==> af != AF_INET
    ensures r.NoSpace? <==> af == AF_INET && |Text(a)| + 1 > size
    ensures r.Formatted? ==> dst[..] == Text(a) + ['\0'] + old(dst[..])[|Text(a)| + 1..]
    ensures !r.Formatted? ==> dst[..] == old(dst[..])
  {
    hide Text;
    if af != AF_INET { return BadFamily; }
    var tmp := new char[INET_ADDRSTRLEN];
    var p := Format(a, tmp);
    assert p == |Text(a)| + 1 by { assert |tmp[..p]| == p; }
    if p > size { return NoSpace; }
    CopyOut(tmp, dst, p);
    return Formatted;
  }

  method CopyOut(tmp: array<char>, dst: array<char>, p: nat)
    requires p <= tmp.Length && p <= dst.Length && tmp != dst
    modifies dst
    ensures dst[..] == tmp[..p] + old(dst[..])[p..]
  {
    var i := 0;
    while i < p
      invariant 0 <= i <= p && dst[i..] == old(dst[..])[i..]
      invariant forall k :: 0 <= k < i ==> dst[k] == tmp[k]
    {
      dst[i] := tmp[i];
      i := i + 1;
    }
    assert dst[..] == dst[..p] + dst[p..];
  }

  // ---- inet_pton ------------------------------------------------------------------

  /** One part: its value and the text after it. */
  function Part(t: string, v: Octet, len: nat): (r: Option<(Octet, string)>)
    ensures r.Some? ==> |r.value.1| + len <= |t| + len && (len == 0 ==> |r.value.1| < |t|)
    decreases |t|
  {
    if t != [] && IsFigure(t[0]) then
      if len > 0 && v == 0 then None else
      var w := v * 10 + (t[0] - '0') as nat;
      if w > 255 then None else Part(t[1..], w, len + 1)
    else if len == 0 then None else Some((v, t))
  }

  /** The parts from the n-th on, gathered onto addr. */
  function Pton(t: string, n: nat, addr: nat): (r: Option<nat>)
    requires n <= 4
    decreases 4 - n
  {
    if n == 4 then
      if t == [] then Some(addr) else None
    else if n > 0 && (t == [] || t[0] != '.') then None
    else
      match Part(if n > 0 then t[1..] else t, 0, 0)
      case None => None
      case Some(part) => Pton(part.1, n + 1, addr * 256 + part.0)
  }

  /** The inner loop: one part of the text from start on. */
  method ReadPart(src: string, start: nat) returns (r: Option<(Octet, nat)>)
    requires start <= |src|
    ensures r.None? <==> Part(src[start..], 0, 0).None?
    ensures r.Some? ==> start <= r.value.1 <= |src| && Part(src[start..], 0, 0) == Some((r.value.0, src[r.value.1..]))
  {
    var p, v: Octet, len: nat := start, 0, 0;
    while p < |src| && IsFigure(src[p])
      invariant start <= p <= |src|
      invariant Part(src[p..], v, len) == Part(src[start..], 0, 0)
    {
      if len > 0 && v == 0 { return None; }
      var w := v * 10 + (src[p] - '0') as nat;
      if w > 255 { return None; }
      assert src[p..][1..] == src[p + 1..];
      v, p, len := w, p + 1, len + 1;
    }
    if len == 0 { return None; }
    return Some((v, p));
  }

  method InetPton(af: int, src: string) returns (r: Conversion)
    requires '\0' !in src
    ensures r.Unsupported? <==> af != AF_INET
    ensures forall a: Address :: r == Converted(a) <==> af == AF_INET && src == Text(a)
  {
    hide Text, Part;
    if af != AF_INET { return Unsupported; }
    var addr: nat, n, p := 0, 0, 0;
    PtonOfText(src);
    assert src[0..] == src;
    while n < 4
      invariant 0 <= n <= 4 && 0 <= p <= |src|
      invariant Pton(src[p..], n, addr) == Pton(src, 0, 0)
    {
      if n > 0 {
        if p == |src| || src[p] != '.' { return Refused; }
        assert src[p..][1..] == src[p + 1..];
        p := p + 1;
      }
      var part := ReadPart(src, p);
      if part.None? { return Refused; }
      addr, p, n := addr * 256 + part.value.0, part.value.1, n + 1;
    }
    if p < |src| { return Refused; }
    return Converted(addr);
  }

  // ---- inet_pton reads back inet_ntop, and nothing else ---------------------------

  predicate Stops(t: string) { t == [] || !IsFigure(t[0]) }

  /** The value the first n fields of a make. */
  function High(a: Address, n: nat): nat
    requires n <= 4
  {
    match n
    case 0 => 0
    case 1 => a / 0x100_0000
    case 2 => a / 0x1_0000
    case 3 => a / 0x100
    case 4 => a
  }

  /** What is left to read when the first n parts have been read. */
  function Left(a: Address, n: nat): string
    requires n <= 4
  {
    if n == 4 then "" else (if n > 0 then "." else "") + TextFrom(a, n)
  }

  lemma FieldSplit(a: Address, n: nat, h: nat, b: Octet)
    requires n < 4
    ensures High(a, n + 1) == h * 256 + b <==> High(a, n) == h && Field(a, n) == b
  {
  }

  lemma DecimalOne(d: nat)
    requires d < 10
    ensures Decimal(d) == [Figure(d)]
  {
  }

  lemma DecimalAppend(v: Octet, d: nat)
    requires 1 <= v && d < 10 && v * 10 + d <= 255
    ensures Decimal(v * 10 + d) == Decimal(v) + Decimal(d)
  {
  }

  lemma LeftSplit(a: Address, n: nat)
    requires n < 4
    ensures Left(a, n) == (if n > 0 then "." else "") + (Decimal(Field(a, n)) + Left(a, n + 1))
    ensures Stops(Left(a, n + 1))
  {
    TextLeft(a, n);
    hide Decimal, Field, TextFrom;
  }

  lemma TextLeft(a: Address, n: nat)
    requires n < 4
    ensures TextFrom(a, n) == Decimal(Field(a, n)) + Left(a, n + 1)
  {
    TextStep(a, n);
    hide Decimal, Field, TextFrom;
    if n < 3 { Regroup(Decimal(Field(a, n)), TextFrom(a, n + 1)); }
  }

  lemma Regroup(d: string, t: string)
    ensures d + "." + t == d + ("." + t)
  {
  }

  lemma TextStep(a: Address, n: nat)
    requires n < 4
    ensures TextFrom(a, n) ==
            if n == 3 then Decimal(Field(a, n)) else Decimal(Field(a, n)) + "." + TextFrom(a, n + 1)
  {
    hide Decimal, Field;
  }

  /** What is read as a part is the decimal form of its value. */
  lemma {:induction false} PartOnly(t: string, v: Octet, len: nat)
    requires Part(t, v, len).Some? && (len == 0 ==> v == 0)
    ensures var (b, rest) := Part(t, v, len).value;
            && Stops(rest)
            && (len == 0 ==> t == Decimal(b) + rest)
            && (len > 0 && v > 0 ==> Decimal(v) + t == Decimal(b) + rest)
            && (len > 0 && v == 0 ==> b == 0 && t == rest)
    decreases |t|
  {
    hide Decimal;
    if t != [] && IsFigure(t[0]) {
      var d := (t[0] - '0') as nat;
      PartOnly(t[1..], v * 10 + d, len + 1);
      DecimalOne(d);
      assert t == Decimal(d) + t[1..];
      if v > 0 { DecimalAppend(v, d); }
    }
  }

  lemma PartStep(d: nat, u: string, v: Octet, len: nat)
    requires d < 10 && v * 10 + d <= 255 && (len > 0 ==> v > 0)
    ensures Part(Decimal(d) + u, v, len) == Part(u, v * 10 + d, len + 1)
  {
    assert (Decimal(d) + u)[1..] == u;
  }

  lemma PartEnd(rest: string, b: Octet, len: nat)
    requires Stops(rest) && len > 0
    ensures Part(rest, b, len) == Some((b, rest))
  {
  }

  lemma PartAccepts(b: Octet, rest: string)
    requires Stops(rest)
    ensures Part(Decimal(b) + rest, 0, 0) == Some((b, rest))
  {
    hide Part, Decimal;
    PartEnd(rest, b, if b < 10 then 1 else if b < 100 then 2 else 3);
    if b < 10 {
      PartStep(b, rest, 0, 0);
    } else {
      DecimalAppend(b / 10, b % 10);
      var last := Decimal(b % 10) + rest;
      if b < 100 {
        assert Decimal(b) + rest == Decimal(b / 10) + last;
        PartStep(b / 10, last, 0, 0);
      } else {
        DecimalAppend(b / 100, b / 10 % 10);
        var tail := Decimal(b / 10 % 10) + last;
        assert Decimal(b) + rest == Decimal(b / 100) + tail;
        PartStep(b / 100, tail, 0, 0);
        PartStep(b / 10 % 10, last, b / 100, 1);
      }
      PartStep(b % 10, rest, b / 10, if b < 100 then 1 else 2);
    }
  }

  lemma {:induction false} PtonAccepts(a: Address, n: nat)
    requires n <= 4
    ensures Pton(Left(a, n), n, High(a, n)) == Some(a)
    decreases 4 - n
  {
    hide Part, Decimal, TextFrom;
    if n < 4 {
      LeftSplit(a, n);
      var b, t := Field(a, n), Left(a, n);
      assert (if n > 0 then t[1..] else t) == Decimal(b) + Left(a, n + 1);
      PartAccepts(b, Left(a, n + 1));
      FieldSplit(a, n, High(a, n), b);
      PtonAccepts(a, n + 1);
    }
  }

  lemma {:induction false} PtonOnly(t: string, n: nat, addr: nat)
    requires n <= 4 && Pton(t, n, addr).Some?
    requires n == 0 ==> addr == 0
    requires n == 1 ==> addr <= 0xFF
    requires n == 2 ==> addr <= 0xFFFF
    requires n == 3 ==> addr <= 0xFF_FFFF
    requires n == 4 ==> addr <= 0xFFFF_FFFF
    ensures var a := Pton(t, n, addr).value; a <= MAX32 && High(a, n) == addr && t == Left(a, n)
    decreases 4 - n
  {
    hide Part, Decimal, Left, High, Field;
    if n == 4 {
      PtonEnd(t, n, addr);
    } else {
      var u := if n > 0 then t[1..] else t;
      var part := Part(u, 0, 0).value;
      PartOnly(u, 0, 0);
      PtonOnly(part.1, n + 1, addr * 256 + part.0);
      var a: Address := Pton(t, n, addr).value;
      FieldSplit(a, n, addr, part.0);
      LeftSplit(a, n);
    }
  }

  lemma PtonEnd(t: string, n: nat, addr: nat)
    requires n == 4 && addr <= MAX32 && t == []
    ensures High(addr, n) == addr && t == Left(addr, n)
  {
  }

  lemma PtonText(a: Address)
    ensures Pton(Text(a), 0, 0) == Some(a)
  {
    PtonAccepts(a, 0);
    assert Left(a, 0) == Text(a);
  }

  /** inet_pton accepts exactly what inet_ntop prints, and gives it its address. */
  lemma PtonOfText(s: string)
    ensures Pton(s, 0, 0).Some? ==> Pton(s, 0, 0).value <= MAX32
    ensures forall a: Address :: Pton(s, 0, 0) == Some(a) <==> s == Text(a)
  {
    hide Pton, TextFrom;
    if Pton(s, 0, 0).Some? { PtonOnly(s, 0, 0); }
    forall a: Address ensures Pton(s, 0, 0) == Some(a) <==> s == Text(a) {
      PtonText(a);
      assert Left(a, 0) == Text(a);
    }
  }

  /** Different addresses have different texts. */
  lemma TextInjective(a: Address, b: Address)
    requires Text(a) == Text(b)
    ensures a == b
  {
    PtonText(a);
    PtonText(b);
  }
}
