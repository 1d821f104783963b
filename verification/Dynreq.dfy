/** The SVC 99 requests of dynalloc() and dynfree(): what they ask for, how a text unit
    is written down, and what fits.

    A string field holds its characters; a null pointer and "" both mean "not given" and
    are the empty sequence.  A char field is its byte. */
module Dynreq {
  import opened Wrappers
  import opened Bytes

  const DYNRQ_TU := 48
  const DYNRQ_BUF := 640

  // ---- text units -----------------------------------------------------------------

  /** An element of a request: a unit of the library's own, with one value or none, or
      the address of one the caller brings. */
  datatype Field = Own(key: nat, value: seq<byte>) | Item(address: nat)

  predicate Legal(f: Field) { f.Own? ==> f.key < 0x1_0000 && |f.value| < 0x1_0000 }

  /** Bytes a unit takes in buf: a header and the value, to a halfword boundary. */
  function Size(f: Field): (n: nat)
    ensures n % 2 == 0
  {
    if f.Item? then 0 else
    var need := if |f.value| > 0 then 6 + |f.value| else 4;
    need + need % 2
  }

  function Used(fs: seq<Field>): (n: nat)
    ensures n % 2 == 0
  {
    if fs == [] then 0 else Used(fs[..|fs| - 1]) + Size(fs[|fs| - 1])
  }

  lemma {:induction false} UsedConcat(a: seq<Field>, b: seq<Field>)
    ensures Used(a + b) == Used(a) + Used(b)
    decreases |b|
  {
    if b == [] {
      assert a + b == a;
    } else {
      assert (a + b)[..|a + b| - 1] == a + b[..|b| - 1];
      UsedConcat(a, b[..|b| - 1]);
    }
  }

  /** The library's units are halfword aligned and do not overlap. */
  lemma {:induction false} UnitsDisjoint(fs: seq<Field>, i: nat, j: nat)
    requires i < j <= |fs|
    ensures Used(fs[..i]) % 2 == 0 && Used(fs[..i]) + Size(fs[i]) <= Used(fs[..j]) <= Used(fs)
  {
    assert fs[..i + 1][..i] == fs[..i] && fs[..i + 1][i] == fs[i];
    assert fs[..j] == fs[..i + 1] + fs[i + 1..j];
    assert fs == fs[..j] + fs[j..];
    UsedConcat(fs[..i + 1], fs[i + 1..j]);
    UsedConcat(fs[..j], fs[j..]);
  }

  function Half(n: nat): seq<byte>
    requires n < 0x1_0000
  {
    [n / 256, n % 256]
  }

  /** The bytes of a unit: key, number of values, and length and bytes of the value. */
  function Encode(f: Field): (r: seq<byte>)
    requires f.Own? && Legal(f)
    ensures |r| <= Size(f)
  {
    Half(f.key) + if |f.value| > 0 then Half(1) + Half(|f.value|) + f.value else Half(0)
  }

  function Halfword(b: seq<byte>, i: nat): nat
    requires i + 1 < |b|
  {
    var high: int, low: int := b[i], b[i + 1];
    high * 256 + low
  }

  /** How SVC 99 reads the unit at offset i. */
  function Decode(b: seq<byte>, i: nat): Option<Field> {
    if i + 4 > |b| then None else
    var key, values := Halfword(b, i), Halfword(b, i + 2);
    if values == 0 then Some(Own(key, []))
    else if values > 1 || i + 6 > |b| || i + 6 + Halfword(b, i + 4) > |b| then None
    else Some(Own(key, b[i + 6..i + 6 + Halfword(b, i + 4)]))
  }

  lemma DecodeEncode(b: seq<byte>, i: nat, f: Field)
    requires f.Own? && Legal(f) && i + |Encode(f)| <= |b| && b[i..i + |Encode(f)|] == Encode(f)
    ensures Decode(b, i) == Some(f)
  {
    var e := Encode(f);
    assert forall k :: 0 <= k < |e| ==> b[i + k] == e[k];
    assert Halfword(b, i) == f.key;
    assert Halfword(b, i + 2) == if |f.value| > 0 then 1 else 0;
    if |f.value| > 0 {
      assert Halfword(b, i + 4) == |f.value|;
      assert e[6..] == f.value;
      assert b[i + 6..i + 6 + |f.value|] == f.value;
    }
  }

  // ---- requests -------------------------------------------------------------------

  /** err (0, -1 no room, -2 bad field) and the elements so far. */
  datatype Req = Req(err: int, fields: seq<Field>)

  predicate Fits(fs: seq<Field>) { |fs| <= DYNRQ_TU && Used(fs) <= DYNRQ_BUF }

  lemma FitsPrefix(a: seq<Field>, b: seq<Field>)
    requires Fits(a + b)
    ensures Fits(a)
  {
    UsedConcat(a, b);
  }

  /** What a part of the code that adds fs, or finds a bad field, does to a request. */
  predicate Next(r: Req, s: Req, fs: seq<Field>, bad: bool) {
    && (r.err != 0 ==> s.err != 0 && s.fields == r.fields)
    && (r.err == 0 && bad ==> s.err != 0)
    && (r.err == 0 && !bad && Fits(r.fields + fs) ==> s == Req(0, r.fields + fs))
    && (r.err == 0 && !bad && !Fits(r.fields + fs) ==> s.err == -1)
    && (s.err == 0 || s.err == -1 || s.err == -2)
    && (r.err != 0 && !bad ==> s.err == r.err)
    && (s.err == -1 ==> r.err == -1 || (r.err == 0 && !Fits(r.fields + fs)))
  }

  lemma NextThen(r: Req, s: Req, t: Req, fs: seq<Field>, gs: seq<Field>, bad: bool, worse: bool)
    requires Next(r, s, fs, bad) && Next(s, t, gs, worse)
    ensures Next(r, t, fs + gs, bad || worse)
  {
    assert r.fields + fs + gs == r.fields + (fs + gs);
    if Fits(r.fields + (fs + gs)) { FitsPrefix(r.fields + fs, gs); }
  }

  lemma NextNothing(r: Req)
    requires r.err == 0 || r.err == -1 || r.err == -2
    requires Fits(r.fields)
    ensures Next(r, r, [], false)
  {
    assert r.fields + [] == r.fields;
  }

  // ---- what the fields of a __dyn_t ask for ---------------------------------------

  type int32 = x: int | -0x8000_0000 <= x <= 0x7FFF_FFFF
  type short = x: int | -0x8000 <= x <= 0x7FFF
  type ushort = x: int | 0 <= x <= 0xFFFF

  datatype Dyn = Dyn(
    ddname: seq<byte>, dsname: seq<byte>, sysout: byte, sysoutname: seq<byte>, member: seq<byte>,
    status: byte, normdisp: byte, conddisp: byte, unit: seq<byte>, volser: seq<byte>,
    dsorg: short, alcunit: byte, primary: int32, secondary: int32, recfm: short, blksize: short, lrecl: ushort,
    volrefds: seq<byte>, dcbrefds: seq<byte>, dcbrefdd: seq<byte>, miscFlags: byte, password: seq<byte>,
    dirblk: int32, avgblk: int32, keylength: short,
    dataclass: seq<byte>, recorg: byte, keyoffset: short, refdd: seq<byte>, like: seq<byte>, dsntype: byte,
    pathname: seq<byte>, rls: byte)

  const DSNT_PDS: byte := 0x40
  const DEF_CLASS: byte := 0x60                       // '-' in EBCDIC
  const CYL: byte := 1
  const TRK: byte := 2
  const GENERATED: seq<byte> := [0x6F, 0x6F, 0x6F, 0x6F, 0x6F, 0x6F, 0x6F, 0x6F]  // "????????"

  predicate Flag(f: byte, bit: nat)
    requires bit > 0
  {
    f / bit % 2 == 1
  }

  /** The low n bytes of v, the high one first. */
  function BigEndian(v: nat, n: nat): (r: seq<byte>)
    ensures |r| == n
  {
    if n == 0 then [] else BigEndian(v / 256, n - 1) + [v % 256]
  }

  function Number(b: seq<byte>): nat {
    if b == [] then 0 else
    var last: int := b[|b| - 1];
    Number(b[..|b| - 1]) * 256 + last
  }

  function Power256(n: nat): (p: nat)
    ensures p >= 1
  {
    if n == 0 then 1 else 256 * Power256(n - 1)
  }

  /** A number that fits its bytes is read back from them. */
  lemma {:induction false} BigEndianReads(v: nat, n: nat)
    requires v < Power256(n)
    ensures Number(BigEndian(v, n)) == v
    decreases n
  {
    if n > 0 {
      var r := BigEndian(v, n);
      assert r[..n - 1] == BigEndian(v / 256, n - 1);
      assert v / 256 < Power256(n - 1);
      BigEndianReads(v / 256, n - 1);
    }
  }

  /** A value of two bytes, of a field that may be negative. */
  function Unsigned16(v: int): (r: nat)
    requires -0x8000 <= v <= 0xFFFF
    ensures r < 0x1_0000
  {
    if v < 0 then v + 0x1_0000 else v
  }

  function Upper(upper: byte -> byte, s: seq<byte>): (r: seq<byte>)
    ensures |r| == |s|
  {
    seq(|s|, i requires 0 <= i < |s| => upper(s[i]))
  }

  /** A string, cut and in upper case. */
  function Text(upper: byte -> byte, key: nat, s: seq<byte>, max: nat): seq<Field> {
    if s == [] then [] else [Own(key, Upper(upper, if |s| > max then s[..max] else s))]
  }

  /** A value of n bytes, or a unit without a value, under a condition. */
  function If(c: bool, key: nat, v: nat, n: nat): seq<Field> { if c then [Own(key, BigEndian(v, n))] else [] }

  function Max(n: nat): nat { if n >= 4 then 0xFFFF_FFFF else Power256(n) - 1 }

  /** A numeric field: 0 or less is not given. */
  function Num(key: nat, v: int, n: nat): seq<Field> {
    if v <= 0 || v > Max(n) then [] else [Own(key, BigEndian(v, n))]
  }

  predicate Refused(d: Dyn) {
    d.dataclass != [] || d.recorg != 0 || d.keyoffset != 0 || d.refdd != [] || d.like != [] ||
    (d.dsntype != 0 && d.dsntype != DSNT_PDS) || d.pathname != [] || d.rls != 0
  }

  function DdName(upper: byte -> byte, d: Dyn): seq<Field> {
    if d.ddname != [] && d.ddname != GENERATED then Text(upper, 0x0001, d.ddname, 8)
    else [Own(0x0055, Fill(BLANK, 8))]
  }

  function Dcb(upper: byte -> byte, d: Dyn): seq<Field> {
    Text(upper, 0x002C, d.dcbrefds, 44) + Text(upper, 0x002D, d.dcbrefdd, 8) +
    If(d.dsorg != 0, 0x003C, Unsigned16(d.dsorg), 2) + Num(0x0049, d.recfm, 1) +
    If(d.blksize != 0, 0x0030, Unsigned16(d.blksize), 2) +
    If(d.lrecl != 0, 0x0042, d.lrecl, 2) + Num(0x0040, d.keylength, 1)
  }

  predicate BadDcb(d: Dyn) { d.recfm > Max(1) || d.recfm < 0 || d.keylength > Max(1) }

  function Space(d: Dyn): seq<Field> {
    If(d.alcunit == CYL, 0x0008, 0, 0) + If(d.alcunit == TRK, 0x0007, 0, 0) +
    Num(0x0009, d.avgblk, 3) + Num(0x000A, d.primary, 3) + Num(0x000B, d.secondary, 3) + Num(0x000C, d.dirblk, 3)
  }

  predicate BadSpace(d: Dyn) {
    d.alcunit > 2 || d.avgblk > Max(3) || d.primary > Max(3) || d.secondary > Max(3) || d.dirblk > Max(3)
  }

  function Flags(f: byte): seq<Field> {
    If(Flag(f, 0x01), 0x001C, 0, 0) + If(Flag(f, 0x02), 0x000D, 0, 0) + If(Flag(f, 0x04), 0x0052, 0, 0) +
    If(Flag(f, 0x08), 0x000E, 8, 1) + If(Flag(f, 0x10), 0x000F, 0, 0) + If(Flag(f, 0x20), 0x0028, 0, 0) +
    If(Flag(f, 0x40), 0x0024, 0, 0) + If(Flag(f, 0x80), 0x0059, 0, 0)
  }

  function Sysout(upper: byte -> byte, d: Dyn): seq<Field> {
    if d.sysout == 0 then []
    else If(true, 0x0018, d.sysout, if d.sysout == DEF_CLASS then 0 else 1) + Text(upper, 0x0019, d.sysoutname, 8)
  }

  function Names(upper: byte -> byte, d: Dyn): seq<Field> {
    DdName(upper, d) + Text(upper, 0x0002, d.dsname, 44) + Text(upper, 0x0003, d.member, 8) +
    If(d.status != 0, 0x0004, d.status, 1) + If(d.normdisp != 0, 0x0005, d.normdisp, 1) +
    If(d.conddisp != 0, 0x0006, d.conddisp, 1)
  }

  function Where(upper: byte -> byte, d: Dyn): seq<Field> {
    Text(upper, 0x0015, d.unit, 8) + Text(upper, 0x0010, d.volser, 6) + Text(upper, 0x0014, d.volrefds, 44)
  }

  predicate AsksName(d: Dyn) {
    d.dsname == [] && d.sysout == 0 && !Flag(d.miscFlags, 0x40) && !Flag(d.miscFlags, 0x20)
  }

  /** What an allocation asks MVS for, in order. */
  function Wanted(upper: byte -> byte, d: Dyn): seq<Field> {
    Names(upper, d) + Sysout(upper, d) + Where(upper, d) + Dcb(upper, d) + Space(d) + Flags(d.miscFlags) +
    Text(upper, 0x0050, d.password, 8) + (if AsksName(d) then [Own(0x0056, Fill(BLANK, 44))] else [])
  }

  predicate Bad(d: Dyn) { Refused(d) || BadDcb(d) || BadSpace(d) }

  /** What an unallocation names; and, with it, what it asks for. */
  function Named(upper: byte -> byte, d: Dyn): seq<Field> {
    Text(upper, 0x0001, d.ddname, 8) + Text(upper, 0x0002, d.dsname, 44) + Text(upper, 0x0003, d.member, 8) +
    If(d.normdisp != 0, 0x0005, d.normdisp, 1)
  }

  // ---- capacity -------------------------------------------------------------------

  /** A list of at most n units in at most the given bytes. */
  predicate Small(fs: seq<Field>, n: nat, bytes: nat) { |fs| <= n && Used(fs) <= bytes }

  lemma SmallConcat(a: seq<Field>, b: seq<Field>, n: nat, m: nat, p: nat, q: nat)
    requires Small(a, n, p) && Small(b, m, q)
    ensures Small(a + b, n + m, p + q)
  {
    UsedConcat(a, b);
  }

  /** A string of up to max characters; none at all when it is not given. */
  lemma TextSmall(upper: byte -> byte, key: nat, s: seq<byte>, max: nat)
    requires max > 0
    ensures Small(Text(upper, key, s, max), if s == [] then 0 else 1, if s == [] then 0 else 6 + max + max % 2)
  {
    OneUsed(Text(upper, key, s, max));
  }

  lemma OneUsed(fs: seq<Field>)
    requires |fs| <= 1
    ensures Used(fs) == if fs == [] then 0 else Size(fs[0])
  {
    if fs != [] { assert fs[..0] == []; }
  }

  lemma NumSmall(key: nat, v: int, n: nat)
    requires n > 0
    ensures Small(Num(key, v, n), 1, 6 + n + n % 2)
  {
    OneUsed(Num(key, v, n));
  }

  /** One more part: the bounds add up. */
  predicate Grows(fs: seq<Field>, more: seq<Field>, n: nat, p: nat, q: nat) {
    Small(fs, n, p) ==> Small(fs + more, n + 1, p + q)
  }

  lemma ThenText(fs: seq<Field>, upper: byte -> byte, key: nat, s: seq<byte>, max: nat, n: nat, p: nat)
    requires max > 0
    ensures Grows(fs, Text(upper, key, s, max), n, p, 6 + max + max % 2)
  {
    TextSmall(upper, key, s, max);
    UsedConcat(fs, Text(upper, key, s, max));
  }

  lemma ThenIf(fs: seq<Field>, c: bool, key: nat, v: nat, w: nat, n: nat, p: nat)
    ensures Grows(fs, If(c, key, v, w), n, p, if w == 0 then 4 else 6 + w + w % 2)
  {
    OneUsed(If(c, key, v, w));
    UsedConcat(fs, If(c, key, v, w));
  }

  lemma ThenNum(fs: seq<Field>, key: nat, v: int, w: nat, n: nat, p: nat)
    requires w > 0
    ensures Grows(fs, Num(key, v, w), n, p, 6 + w + w % 2)
  {
    NumSmall(key, v, w);
    UsedConcat(fs, Num(key, v, w));
  }

  lemma NothingSmall()
    ensures Small([], 0, 0)
  {
  }

  lemma DdNameSmall(upper: byte -> byte, d: Dyn)
    ensures Small(DdName(upper, d), 1, 14)
  {
    hide Upper, Used;
    OneUsed(DdName(upper, d));
  }

  lemma DsNameSmall(upper: byte -> byte, d: Dyn)
    ensures Small(DdName(upper, d) + Text(upper, 0x0002, d.dsname, 44),
                  if d.dsname == [] then 1 else 2, if d.dsname == [] then 14 else 64)
  {
    hide Used, Text, DdName, Small;
    DdNameSmall(upper, d);
    TextSmall(upper, 0x0002, d.dsname, 44);
    var k, b := if d.dsname == [] then 0 else 1, if d.dsname == [] then 0 else 50;
    SmallConcat(DdName(upper, d), Text(upper, 0x0002, d.dsname, 44), 1, k, 14, b);
  }

  lemma NamesSmall(upper: byte -> byte, d: Dyn)
    ensures Small(Names(upper, d), if d.dsname == [] then 5 else 6, if d.dsname == [] then 52 else 102)
  {
    hide Used, Small, Text, If, DdName;
    DsNameSmall(upper, d);
    var k, b := if d.dsname == [] then 0 else 1, if d.dsname == [] then 0 else 50;
    var a1 := DdName(upper, d) + Text(upper, 0x0002, d.dsname, 44);
    ThenText(a1, upper, 0x0003, d.member, 8, 1 + k, 14 + b);
    var a2 := a1 + Text(upper, 0x0003, d.member, 8);
    ThenIf(a2, d.status != 0, 0x0004, d.status, 1, 2 + k, 28 + b);
    var a3 := a2 + If(d.status != 0, 0x0004, d.status, 1);
    ThenIf(a3, d.normdisp != 0, 0x0005, d.normdisp, 1, 3 + k, 36 + b);
    var a4 := a3 + If(d.normdisp != 0, 0x0005, d.normdisp, 1);
    ThenIf(a4, d.conddisp != 0, 0x0006, d.conddisp, 1, 4 + k, 44 + b);
  }

  lemma SysoutSmall(upper: byte -> byte, d: Dyn)
    ensures Small(Sysout(upper, d), 2, 22)
  {
    if d.sysout != 0 {
      var a0 := If(true, 0x0018, d.sysout, if d.sysout == DEF_CLASS then 0 else 1);
      OneUsed(a0);
      ThenText(a0, upper, 0x0019, d.sysoutname, 8, 1, 8);
    }
  }

  lemma WhereSmall(upper: byte -> byte, d: Dyn)
    ensures Small(Where(upper, d), 3, 76)
  {
    hide Used, Small, Text;
    NothingSmall();
    ThenText([], upper, 0x0015, d.unit, 8, 0, 0);
    var a0 := Text(upper, 0x0015, d.unit, 8);
    assert [] + a0 == a0;
    ThenText(a0, upper, 0x0010, d.volser, 6, 1, 14);
    ThenText(a0 + Text(upper, 0x0010, d.volser, 6), upper, 0x0014, d.volrefds, 44, 2, 26);
  }

  lemma DcbSmall(upper: byte -> byte, d: Dyn)
    ensures Small(Dcb(upper, d), 7, 104)
  {
    hide Used, Small, Text, If, Num, BigEndian, Unsigned16;
    NothingSmall();
    ThenText([], upper, 0x002C, d.dcbrefds, 44, 0, 0);
    var a0 := Text(upper, 0x002C, d.dcbrefds, 44);
    assert [] + a0 == a0;
    ThenText(a0, upper, 0x002D, d.dcbrefdd, 8, 1, 50);
    var a1 := a0 + Text(upper, 0x002D, d.dcbrefdd, 8);
    ThenIf(a1, d.dsorg != 0, 0x003C, Unsigned16(d.dsorg), 2, 2, 64);
    var a2 := a1 + If(d.dsorg != 0, 0x003C, Unsigned16(d.dsorg), 2);
    ThenNum(a2, 0x0049, d.recfm, 1, 3, 72);
    var a3 := a2 + Num(0x0049, d.recfm, 1);
    ThenIf(a3, d.blksize != 0, 0x0030, Unsigned16(d.blksize), 2, 4, 80);
    var a4 := a3 + If(d.blksize != 0, 0x0030, Unsigned16(d.blksize), 2);
    ThenIf(a4, d.lrecl != 0, 0x0042, d.lrecl, 2, 5, 88);
    var a5 := a4 + If(d.lrecl != 0, 0x0042, d.lrecl, 2);
    ThenNum(a5, 0x0040, d.keylength, 1, 6, 96);
  }

  lemma AllocSmall(d: Dyn)
    ensures Small(If(d.alcunit == CYL, 0x0008, 0, 0) + If(d.alcunit == TRK, 0x0007, 0, 0), 1, 4)
  {
    hide BigEndian, Used;
    OneUsed(If(d.alcunit == CYL, 0x0008, 0, 0) + If(d.alcunit == TRK, 0x0007, 0, 0));
  }

  lemma SpaceSmall(d: Dyn)
    ensures Small(Space(d), 5, 44)
  {
    hide Used, Small, If, Num;
    AllocSmall(d);
    var a0 := If(d.alcunit == CYL, 0x0008, 0, 0) + If(d.alcunit == TRK, 0x0007, 0, 0);
    ThenNum(a0, 0x0009, d.avgblk, 3, 1, 4);
    var a1 := a0 + Num(0x0009, d.avgblk, 3);
    ThenNum(a1, 0x000A, d.primary, 3, 2, 14);
    var a2 := a1 + Num(0x000A, d.primary, 3);
    ThenNum(a2, 0x000B, d.secondary, 3, 3, 24);
    var a3 := a2 + Num(0x000B, d.secondary, 3);
    ThenNum(a3, 0x000C, d.dirblk, 3, 4, 34);
  }

  lemma FlagsSmall(f: byte)
    ensures Small(Flags(f), 8, 36)
  {
    hide Used, Small, If, Flag;
    NothingSmall();
    ThenIf([], Flag(f, 0x01), 0x001C, 0, 0, 0, 0);
    var a0 := If(Flag(f, 0x01), 0x001C, 0, 0);
    assert [] + a0 == a0;
    ThenIf(a0, Flag(f, 0x02), 0x000D, 0, 0, 1, 4);
    var a1 := a0 + If(Flag(f, 0x02), 0x000D, 0, 0);
    ThenIf(a1, Flag(f, 0x04), 0x0052, 0, 0, 2, 8);
    var a2 := a1 + If(Flag(f, 0x04), 0x0052, 0, 0);
    ThenIf(a2, Flag(f, 0x08), 0x000E, 8, 1, 3, 12);
    var a3 := a2 + If(Flag(f, 0x08), 0x000E, 8, 1);
    ThenIf(a3, Flag(f, 0x10), 0x000F, 0, 0, 4, 20);
    var a4 := a3 + If(Flag(f, 0x10), 0x000F, 0, 0);
    ThenIf(a4, Flag(f, 0x20), 0x0028, 0, 0, 5, 24);
    var a5 := a4 + If(Flag(f, 0x20), 0x0028, 0, 0);
    ThenIf(a5, Flag(f, 0x40), 0x0024, 0, 0, 6, 28);
    var a6 := a5 + If(Flag(f, 0x40), 0x0024, 0, 0);
    ThenIf(a6, Flag(f, 0x80), 0x0059, 0, 0, 7, 32);
  }

  /** All the library ever adds of its own fits, with room for 16 units of the
      caller's: 32 pointers and 398 bytes at most. */
  lemma WantedSmall(upper: byte -> byte, d: Dyn)
    ensures Small(Wanted(upper, d), 32, 398) && Fits(Wanted(upper, d))
  {
    hide Names, Sysout, Where, Dcb, Space, Flags, Text, If;
    var k, b := if d.dsname == [] then 5 else 6, if d.dsname == [] then 52 else 102;
    NamesSmall(upper, d);
    SysoutSmall(upper, d);
    var a1 := Names(upper, d) + Sysout(upper, d);
    SmallConcat(Names(upper, d), Sysout(upper, d), k, 2, b, 22);
    WhereSmall(upper, d);
    var a2 := a1 + Where(upper, d);
    SmallConcat(a1, Where(upper, d), k + 2, 3, b + 22, 76);
    DcbSmall(upper, d);
    var a3 := a2 + Dcb(upper, d);
    SmallConcat(a2, Dcb(upper, d), k + 5, 7, b + 98, 104);
    SpaceSmall(d);
    var a4 := a3 + Space(d);
    SmallConcat(a3, Space(d), k + 12, 5, b + 202, 44);
    FlagsSmall(d.miscFlags);
    var a5 := a4 + Flags(d.miscFlags);
    SmallConcat(a4, Flags(d.miscFlags), k + 17, 8, b + 246, 36);
    ThenText(a5, upper, 0x0050, d.password, 8, k + 25, b + 282);
    var a6 := a5 + Text(upper, 0x0050, d.password, 8);
    var ask := if AsksName(d) then [Own(0x0056, Fill(BLANK, 44))] else [];
    OneUsed(ask);
    SmallConcat(a6, ask, k + 26, |ask|, b + 296, if AsksName(d) then 50 else 0);
  }
}
