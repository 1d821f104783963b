/** What the units of an allocation say, unit by unit: read back out of the request they
    are the caller's fields, under the keys of SVC 99 that stand for them. */
module DynWanted {
  import opened Bytes
  import opened Dynreq
  import opened DynRequest

  const DALDDNAM := 0x0001
  const DALDSNAM := 0x0002
  const DALMEMBR := 0x0003
  const DALSTATS := 0x0004
  const DALNDISP := 0x0005
  const DALCDISP := 0x0006
  const DALTRK := 0x0007
  const DALCYL := 0x0008
  const DALBLKLN := 0x0009
  const DALPRIME := 0x000A
  const DALSECND := 0x000B
  const DALDIR := 0x000C
  const DALRLSE := 0x000D
  const DALSPFRM := 0x000E
  const DALROUND := 0x000F
  const DALVLSER := 0x0010
  const DALVLRDS := 0x0014
  const DALUNIT := 0x0015
  const DALSYSOU := 0x0018
  const DALSPGNM := 0x0019
  const DALCLOSE := 0x001C
  const DALDUMMY := 0x0024
  const DALTERM := 0x0028
  const DALDCBDS := 0x002C
  const DALDCBDD := 0x002D
  const DALBLKSZ := 0x0030
  const DALDSORG := 0x003C
  const DALKYLEN := 0x0040
  const DALLRECL := 0x0042
  const DALRECFM := 0x0049
  const DALPASSW := 0x0050
  const DALPERMA := 0x0052
  const DALRTDDN := 0x0055
  const DALRTDSN := 0x0056
  const DALSHOLD := 0x0059

  // ---- the value of a unit ----------------------------------------------------------

  /** A string that is given: its first max characters in upper case. */
  predicate IsText(upper: byte -> byte, s: seq<byte>, max: nat, value: seq<byte>) {
    && s != [] && |value| == (if |s| < max then |s| else max)
    && forall i :: 0 <= i < |value| ==> value[i] == upper(s[i])
  }

  /** v in n bytes. */
  predicate IsNumber(v: int, n: nat, value: seq<byte>) { |value| == n && Number(value) == v }

  /** n blanks for MVS to fill. */
  predicate IsBlank(n: nat, value: seq<byte>) { |value| == n && forall i :: 0 <= i < n ==> value[i] == BLANK }

  predicate Bit(f: byte, n: nat)
    requires n <= 7
  {
    f / [1, 2, 4, 8, 16, 32, 64, 128][n] % 2 == 1
  }

  /** The caller named no DD, or asked for a generated name: "????????". */
  predicate AnyDd(d: Dyn) { d.ddname == [] || d.ddname == [0x6F, 0x6F, 0x6F, 0x6F, 0x6F, 0x6F, 0x6F, 0x6F] }

  /** A field of two bytes that may be negative. */
  function Halfword16(v: int): int { if v < 0 then v + 65536 else v }

  // ---- what the units say ------------------------------------------------------------

  predicate SaysName(upper: byte -> byte, d: Dyn, key: nat, value: seq<byte>) {
    || (key == DALDDNAM && !AnyDd(d) && IsText(upper, d.ddname, 8, value))
    || (key == DALRTDDN && AnyDd(d) && IsBlank(8, value))
    || (key == DALDSNAM && IsText(upper, d.dsname, 44, value))
    || (key == DALMEMBR && IsText(upper, d.member, 8, value))
    || (key == DALSTATS && d.status != 0 && value == [d.status])
    || (key == DALNDISP && d.normdisp != 0 && value == [d.normdisp])
    || (key == DALCDISP && d.conddisp != 0 && value == [d.conddisp])
  }

  predicate SaysSysout(upper: byte -> byte, d: Dyn, key: nat, value: seq<byte>) {
    || (key == DALSYSOU && d.sysout != 0 && value == if d.sysout == 0x60 then [] else [d.sysout])
    || (key == DALSPGNM && d.sysout != 0 && IsText(upper, d.sysoutname, 8, value))
  }

  predicate SaysWhere(upper: byte -> byte, d: Dyn, key: nat, value: seq<byte>) {
    || (key == DALUNIT && IsText(upper, d.unit, 8, value))
    || (key == DALVLSER && IsText(upper, d.volser, 6, value))
    || (key == DALVLRDS && IsText(upper, d.volrefds, 44, value))
  }

  predicate SaysDcb(upper: byte -> byte, d: Dyn, key: nat, value: seq<byte>) {
    || (key == DALDCBDS && IsText(upper, d.dcbrefds, 44, value))
    || (key == DALDCBDD && IsText(upper, d.dcbrefdd, 8, value))
    || (key == DALDSORG && d.dsorg != 0 && IsNumber(Halfword16(d.dsorg), 2, value))
    || (key == DALRECFM && d.recfm > 0 && IsNumber(d.recfm, 1, value))
    || (key == DALBLKSZ && d.blksize != 0 && IsNumber(Halfword16(d.blksize), 2, value))
    || (key == DALLRECL && d.lrecl != 0 && IsNumber(d.lrecl, 2, value))
    || (key == DALKYLEN && d.keylength > 0 && IsNumber(d.keylength, 1, value))
  }

  predicate SaysSpace(d: Dyn, key: nat, value: seq<byte>) {
    || (key == DALCYL && d.alcunit == 1 && value == [])
    || (key == DALTRK && d.alcunit == 2 && value == [])
    || (key == DALBLKLN && d.avgblk > 0 && IsNumber(d.avgblk, 3, value))
    || (key == DALPRIME && d.primary > 0 && IsNumber(d.primary, 3, value))
    || (key == DALSECND && d.secondary > 0 && IsNumber(d.secondary, 3, value))
    || (key == DALDIR && d.dirblk > 0 && IsNumber(d.dirblk, 3, value))
  }

  predicate SaysFlag(f: byte, key: nat, value: seq<byte>) {
    || (key == DALCLOSE && Bit(f, 0) && value == [])
    || (key == DALRLSE && Bit(f, 1) && value == [])
    || (key == DALPERMA && Bit(f, 2) && value == [])
    || (key == DALSPFRM && Bit(f, 3) && value == [8])
    || (key == DALROUND && Bit(f, 4) && value == [])
    || (key == DALTERM && Bit(f, 5) && value == [])
    || (key == DALDUMMY && Bit(f, 6) && value == [])
    || (key == DALSHOLD && Bit(f, 7) && value == [])
  }

  predicate SaysRest(upper: byte -> byte, d: Dyn, key: nat, value: seq<byte>) {
    || (key == DALPASSW && IsText(upper, d.password, 8, value))
    || (key == DALRTDSN && d.dsname == [] && d.sysout == 0 && !Bit(d.miscFlags, 6) && !Bit(d.miscFlags, 5)
        && IsBlank(44, value))
  }

  /** What an allocation with these fields says under a key. */
  predicate Says(upper: byte -> byte, d: Dyn, key: nat, value: seq<byte>) {
    SaysName(upper, d, key, value) || SaysSysout(upper, d, key, value) || SaysWhere(upper, d, key, value) ||
    SaysDcb(upper, d, key, value) || SaysSpace(d, key, value) || SaysFlag(d.miscFlags, key, value) ||
    SaysRest(upper, d, key, value)
  }

  // ---- one unit ---------------------------------------------------------------------

  lemma TextSays(upper: byte -> byte, key: nat, s: seq<byte>, max: nat, k: nat, value: seq<byte>)
    ensures Own(k, value) in Text(upper, key, s, max) <==> k == key && IsText(upper, s, max, value)
  {
    if s != [] {
      var t := Upper(upper, if |s| > max then s[..max] else s);
      assert IsText(upper, s, max, value) ==> value == t;
      assert IsText(upper, s, max, t);
    }
  }

  lemma {:induction false} NumberUnique(a: seq<byte>, b: seq<byte>)
    requires |a| == |b| && Number(a) == Number(b)
    ensures a == b
    decreases |a|
  {
    if a != [] {
      var x: int, y: int := a[|a| - 1], b[|b| - 1];
      var p, q := Number(a[..|a| - 1]), Number(b[..|b| - 1]);
      assert p * 256 + x == q * 256 + y;
      NumberUnique(a[..|a| - 1], b[..|b| - 1]);
      assert a == a[..|a| - 1] + [a[|a| - 1]] && b == b[..|b| - 1] + [b[|b| - 1]];
    }
  }

  lemma BytesSay(v: nat, n: nat, value: seq<byte>)
    requires v < Power256(n)
    ensures value == BigEndian(v, n) <==> IsNumber(v, n, value)
  {
    BigEndianReads(v, n);
    if IsNumber(v, n, value) { NumberUnique(value, BigEndian(v, n)); }
  }

  lemma Powers()
    ensures Power256(0) == 1 && Power256(1) == 256 && Power256(2) == 65536 && Power256(3) == 16777216
    ensures Max(1) == 0xFF && Max(3) == 0xFF_FFFF
  {
    assert Power256(3) == 256 * Power256(2);
  }

  lemma NumSays(key: nat, v: int, n: nat, k: nat, value: seq<byte>)
    requires 1 <= n <= 3 && v <= Max(n)
    ensures Own(k, value) in Num(key, v, n) <==> k == key && v > 0 && IsNumber(v, n, value)
  {
    if v > 0 { BytesSay(v, n, value); }
  }

  lemma IfSays(c: bool, key: nat, v: nat, n: nat, k: nat, value: seq<byte>)
    requires v < Power256(n)
    ensures Own(k, value) in If(c, key, v, n) <==> k == key && c && IsNumber(v, n, value)
  {
    BytesSay(v, n, value);
  }

  lemma ByteSays(v: byte, value: seq<byte>)
    ensures IsNumber(v, 1, value) <==> value == [v]
    ensures IsNumber(0, 0, value) <==> value == []
  {
    Powers();
    assert Number([]) == 0;
    if |value| == 1 { assert value[..0] == []; }
    assert [v][..0] == [];
  }

  // ---- the parts ----------------------------------------------------------------------

  lemma DdNameSays(upper: byte -> byte, d: Dyn, k: nat, value: seq<byte>)
    ensures Own(k, value) in DdName(upper, d) <==>
      || (k == DALDDNAM && !AnyDd(d) && IsText(upper, d.ddname, 8, value))
      || (k == DALRTDDN && AnyDd(d) && IsBlank(8, value))
  {
    hide Text, IsText;
    TextSays(upper, 0x0001, d.ddname, 8, k, value);
    assert IsBlank(8, value) <==> value == Fill(BLANK, 8);
  }

  lemma NamesSay(upper: byte -> byte, d: Dyn, k: nat, value: seq<byte>)
    ensures Own(k, value) in Names(upper, d) <==> SaysName(upper, d, k, value)
  {
    hide Text, If, IsText, IsNumber, IsBlank, DdName, AnyDd, Power256;
    Powers();
    DdNameSays(upper, d, k, value);
    TextSays(upper, 0x0002, d.dsname, 44, k, value);
    TextSays(upper, 0x0003, d.member, 8, k, value);
    IfSays(d.status != 0, 0x0004, d.status, 1, k, value);
    IfSays(d.normdisp != 0, 0x0005, d.normdisp, 1, k, value);
    IfSays(d.conddisp != 0, 0x0006, d.conddisp, 1, k, value);
    ByteSays(d.status, value);
    ByteSays(d.normdisp, value);
    ByteSays(d.conddisp, value);
  }

  lemma SysoutSays(upper: byte -> byte, d: Dyn, k: nat, value: seq<byte>)
    ensures Own(k, value) in Sysout(upper, d) <==> SaysSysout(upper, d, k, value)
  {
    hide Text, IsText, BigEndian;
    Powers();
    TextSays(upper, 0x0019, d.sysoutname, 8, k, value);
    ByteSays(d.sysout, value);
    BytesSay(d.sysout, 1, value);
    BytesSay(0, 0, value);
    assert BigEndian(d.sysout, 0) == [] == BigEndian(0, 0) by { assert |BigEndian(d.sysout, 0)| == 0; }
  }

  lemma WhereSays(upper: byte -> byte, d: Dyn, k: nat, value: seq<byte>)
    ensures Own(k, value) in Where(upper, d) <==> SaysWhere(upper, d, k, value)
  {
    hide Text, IsText;
    TextSays(upper, 0x0015, d.unit, 8, k, value);
    TextSays(upper, 0x0010, d.volser, 6, k, value);
    TextSays(upper, 0x0014, d.volrefds, 44, k, value);
  }

  lemma DcbSays(upper: byte -> byte, d: Dyn, k: nat, value: seq<byte>)
    requires !BadDcb(d)
    ensures Own(k, value) in Dcb(upper, d) <==> SaysDcb(upper, d, k, value)
  {
    Powers();
    hide Text, If, Num, IsText, IsNumber, Power256, Max;
    TextSays(upper, 0x002C, d.dcbrefds, 44, k, value);
    TextSays(upper, 0x002D, d.dcbrefdd, 8, k, value);
    IfSays(d.dsorg != 0, 0x003C, Unsigned16(d.dsorg), 2, k, value);
    NumSays(0x0049, d.recfm, 1, k, value);
    IfSays(d.blksize != 0, 0x0030, Unsigned16(d.blksize), 2, k, value);
    IfSays(d.lrecl != 0, 0x0042, d.lrecl, 2, k, value);
    NumSays(0x0040, d.keylength, 1, k, value);
  }

  lemma SpaceSays(d: Dyn, k: nat, value: seq<byte>)
    requires !BadSpace(d)
    ensures Own(k, value) in Space(d) <==> SaysSpace(d, k, value)
  {
    Powers();
    hide If, Num, IsNumber, Power256, Max;
    IfSays(d.alcunit == CYL, 0x0008, 0, 0, k, value);
    IfSays(d.alcunit == TRK, 0x0007, 0, 0, k, value);
    ByteSays(0, value);
    NumSays(0x0009, d.avgblk, 3, k, value);
    NumSays(0x000A, d.primary, 3, k, value);
    NumSays(0x000B, d.secondary, 3, k, value);
    NumSays(0x000C, d.dirblk, 3, k, value);
  }

  lemma FlagsSay(f: byte, k: nat, value: seq<byte>)
    ensures Own(k, value) in Flags(f) <==> SaysFlag(f, k, value)
  {
    Powers();
    hide If, IsNumber, Power256;
    IfSays(Flag(f, 0x01), 0x001C, 0, 0, k, value);
    IfSays(Flag(f, 0x02), 0x000D, 0, 0, k, value);
    IfSays(Flag(f, 0x04), 0x0052, 0, 0, k, value);
    IfSays(Flag(f, 0x08), 0x000E, 8, 1, k, value);
    IfSays(Flag(f, 0x10), 0x000F, 0, 0, k, value);
    IfSays(Flag(f, 0x20), 0x0028, 0, 0, k, value);
    IfSays(Flag(f, 0x40), 0x0024, 0, 0, k, value);
    IfSays(Flag(f, 0x80), 0x0059, 0, 0, k, value);
    ByteSays(0, value);
    ByteSays(8, value);
  }

  // ---- the whole request --------------------------------------------------------------

  lemma RestSays(upper: byte -> byte, d: Dyn, k: nat, value: seq<byte>)
    ensures Own(k, value) in
        Text(upper, 0x0050, d.password, 8) + (if AsksName(d) then [Own(0x0056, Fill(BLANK, 44))] else [])
      <==> SaysRest(upper, d, k, value)
  {
    hide Text, IsText;
    TextSays(upper, 0x0050, d.password, 8, k, value);
    assert IsBlank(44, value) <==> value == Fill(BLANK, 44);
  }

  /** The units of a request that is not refused are exactly those its fields ask for. */
  lemma WantedSays(upper: byte -> byte, d: Dyn, k: nat, value: seq<byte>)
    requires !Bad(d)
    ensures Own(k, value) in Wanted(upper, d) <==> Says(upper, d, k, value)
  {
    hide Names, Sysout, Where, Dcb, Space, Flags, Text, AsksName, Refused, BadDcb, BadSpace;
    hide SaysName, SaysSysout, SaysWhere, SaysDcb, SaysSpace, SaysFlag, SaysRest;
    NamesSay(upper, d, k, value);
    SysoutSays(upper, d, k, value);
    WhereSays(upper, d, k, value);
    DcbSays(upper, d, k, value);
    SpaceSays(d, k, value);
    FlagsSay(d.miscFlags, k, value);
    RestSays(upper, d, k, value);
  }

  /** A request is refused exactly when a field is set that has no key here, or one does not
      fit its unit: nothing the caller sets is left out in silence. */
  lemma RefusedExactly(d: Dyn)
    ensures !Bad(d) <==>
      && d.dataclass == [] && d.recorg == 0 && d.keyoffset == 0 && d.refdd == [] && d.like == [] && d.pathname == []
      && d.rls == 0 && (d.dsntype == 0 || d.dsntype == 0x40)
      && d.alcunit <= 2 && 0 <= d.recfm <= 255 && d.keylength <= 255
      && d.avgblk <= 0xFF_FFFF && d.primary <= 0xFF_FFFF && d.secondary <= 0xFF_FFFF && d.dirblk <= 0xFF_FFFF
  {
    Powers();
  }

  /** The place of a key in a request. */
  function Rank(key: nat): nat {
    if key == DALDDNAM || key == DALRTDDN then 0
    else if key == DALDSNAM then 1
    else if key == DALMEMBR then 2
    else if key == DALSTATS then 3
    else if key == DALNDISP then 4
    else if key == DALCDISP then 5
    else if key == DALSYSOU then 6
    else if key == DALSPGNM then 7
    else if key == DALUNIT then 8
    else if key == DALVLSER then 9
    else if key == DALVLRDS then 10
    else RankDcb(key)
  }

  function RankDcb(key: nat): nat {
    if key == DALDCBDS then 11
    else if key == DALDCBDD then 12
    else if key == DALDSORG then 13
    else if key == DALRECFM then 14
    else if key == DALBLKSZ then 15
    else if key == DALLRECL then 16
    else if key == DALKYLEN then 17
    else if key == DALCYL || key == DALTRK then 18
    else if key == DALBLKLN then 19
    else if key == DALPRIME then 20
    else if key == DALSECND then 21
    else if key == DALDIR then 22
    else RankFlag(key)
  }

  function RankFlag(key: nat): nat {
    if key == DALCLOSE then 23
    else if key == DALRLSE then 24
    else if key == DALPERMA then 25
    else if key == DALSPFRM then 26
    else if key == DALROUND then 27
    else if key == DALTERM then 28
    else if key == DALDUMMY then 29
    else if key == DALSHOLD then 30
    else if key == DALPASSW then 31
    else 32
  }

  /** Units of the library's in the order of their keys, no key twice. */
  predicate Ordered(fs: seq<Field>, from: nat, to: nat) {
    && (forall i :: 0 <= i < |fs| ==> fs[i].Own? && from <= Rank(fs[i].key) < to)
    && (forall i, j :: 0 <= i < j < |fs| ==> Rank(fs[i].key) < Rank(fs[j].key))
  }

  lemma OrderedThen(a: seq<Field>, b: seq<Field>, from: nat, mid: nat, to: nat)
    requires from <= mid <= to && Ordered(a, from, mid) && Ordered(b, mid, to)
    ensures Ordered(a + b, from, to)
  {
    hide Rank;
  }

  /** One unit at most. */
  lemma OrderedOne(fs: seq<Field>, from: nat)
    requires |fs| <= 1 && (fs != [] ==> fs[0].Own? && Rank(fs[0].key) == from)
    ensures Ordered(fs, from, from + 1)
  {
  }

  lemma TextOne(upper: byte -> byte, key: nat, s: seq<byte>, max: nat, from: nat)
    requires Rank(key) == from
    ensures Ordered(Text(upper, key, s, max), from, from + 1)
  {
    hide Rank, Upper;
  }

  lemma IfOne(c: bool, key: nat, v: nat, n: nat, from: nat)
    requires Rank(key) == from
    ensures Ordered(If(c, key, v, n), from, from + 1)
  {
    hide Rank, BigEndian;
  }

  lemma NumOne(key: nat, v: int, n: nat, from: nat)
    requires Rank(key) == from
    ensures Ordered(Num(key, v, n), from, from + 1)
  {
    hide Rank, BigEndian, Max;
  }

  lemma DdNameOne(upper: byte -> byte, d: Dyn)
    ensures Ordered(DdName(upper, d), 0, 1)
  {
    hide Upper;
    OrderedOne(DdName(upper, d), 0);
  }

  lemma AllocOne(d: Dyn)
    ensures Ordered(If(d.alcunit == CYL, 0x0008, 0, 0) + If(d.alcunit == TRK, 0x0007, 0, 0), 18, 19)
  {
    hide BigEndian;
    OrderedOne(If(d.alcunit == CYL, 0x0008, 0, 0) + If(d.alcunit == TRK, 0x0007, 0, 0), 18);
  }

  lemma NamesOrdered(upper: byte -> byte, d: Dyn)
    ensures Ordered(Names(upper, d), 0, 6)
  {
    hide Ordered, DdName, Text, If;
    DdNameOne(upper, d);
    TextOne(upper, 0x0002, d.dsname, 44, 1);
    TextOne(upper, 0x0003, d.member, 8, 2);
    IfOne(d.status != 0, 0x0004, d.status, 1, 3);
    IfOne(d.normdisp != 0, 0x0005, d.normdisp, 1, 4);
    IfOne(d.conddisp != 0, 0x0006, d.conddisp, 1, 5);
    var a1 := DdName(upper, d) + Text(upper, 0x0002, d.dsname, 44);
    OrderedThen(DdName(upper, d), Text(upper, 0x0002, d.dsname, 44), 0, 1, 2);
    OrderedThen(a1, Text(upper, 0x0003, d.member, 8), 0, 2, 3);
    var a2 := a1 + Text(upper, 0x0003, d.member, 8);
    OrderedThen(a2, If(d.status != 0, 0x0004, d.status, 1), 0, 3, 4);
    var a3 := a2 + If(d.status != 0, 0x0004, d.status, 1);
    OrderedThen(a3, If(d.normdisp != 0, 0x0005, d.normdisp, 1), 0, 4, 5);
    OrderedThen(a3 + If(d.normdisp != 0, 0x0005, d.normdisp, 1), If(d.conddisp != 0, 0x0006, d.conddisp, 1), 0, 5, 6);
  }

  lemma SysoutOrdered(upper: byte -> byte, d: Dyn)
    ensures Ordered(Sysout(upper, d), 6, 8)
  {
    hide Upper, BigEndian;
    if d.sysout != 0 {
      var a := If(true, 0x0018, d.sysout, if d.sysout == DEF_CLASS then 0 else 1);
      OrderedOne(a, 6);
      TextOne(upper, 0x0019, d.sysoutname, 8, 7);
      OrderedThen(a, Text(upper, 0x0019, d.sysoutname, 8), 6, 7, 8);
    }
  }

  lemma WhereOrdered(upper: byte -> byte, d: Dyn)
    ensures Ordered(Where(upper, d), 8, 11)
  {
    hide Ordered, Text;
    TextOne(upper, 0x0015, d.unit, 8, 8);
    TextOne(upper, 0x0010, d.volser, 6, 9);
    TextOne(upper, 0x0014, d.volrefds, 44, 10);
    OrderedThen(Text(upper, 0x0015, d.unit, 8), Text(upper, 0x0010, d.volser, 6), 8, 9, 10);
    OrderedThen(Text(upper, 0x0015, d.unit, 8) + Text(upper, 0x0010, d.volser, 6), Text(upper, 0x0014, d.volrefds, 44),
                8, 10, 11);
  }

  lemma DcbOrdered(upper: byte -> byte, d: Dyn)
    ensures Ordered(Dcb(upper, d), 11, 18)
  {
    hide Ordered, Text, If, Num, Unsigned16;
    TextOne(upper, 0x002C, d.dcbrefds, 44, 11);
    TextOne(upper, 0x002D, d.dcbrefdd, 8, 12);
    IfOne(d.dsorg != 0, 0x003C, Unsigned16(d.dsorg), 2, 13);
    NumOne(0x0049, d.recfm, 1, 14);
    IfOne(d.blksize != 0, 0x0030, Unsigned16(d.blksize), 2, 15);
    IfOne(d.lrecl != 0, 0x0042, d.lrecl, 2, 16);
    NumOne(0x0040, d.keylength, 1, 17);
    var a1 := Text(upper, 0x002C, d.dcbrefds, 44) + Text(upper, 0x002D, d.dcbrefdd, 8);
    OrderedThen(Text(upper, 0x002C, d.dcbrefds, 44), Text(upper, 0x002D, d.dcbrefdd, 8), 11, 12, 13);
    OrderedThen(a1, If(d.dsorg != 0, 0x003C, Unsigned16(d.dsorg), 2), 11, 13, 14);
    var a2 := a1 + If(d.dsorg != 0, 0x003C, Unsigned16(d.dsorg), 2);
    OrderedThen(a2, Num(0x0049, d.recfm, 1), 11, 14, 15);
    var a3 := a2 + Num(0x0049, d.recfm, 1);
    OrderedThen(a3, If(d.blksize != 0, 0x0030, Unsigned16(d.blksize), 2), 11, 15, 16);
    var a4 := a3 + If(d.blksize != 0, 0x0030, Unsigned16(d.blksize), 2);
    OrderedThen(a4, If(d.lrecl != 0, 0x0042, d.lrecl, 2), 11, 16, 17);
    OrderedThen(a4 + If(d.lrecl != 0, 0x0042, d.lrecl, 2), Num(0x0040, d.keylength, 1), 11, 17, 18);
  }

  lemma SpaceOrdered(d: Dyn)
    ensures Ordered(Space(d), 18, 23)
  {
    hide Ordered, If, Num;
    var a1 := If(d.alcunit == CYL, 0x0008, 0, 0) + If(d.alcunit == TRK, 0x0007, 0, 0);
    AllocOne(d);
    NumOne(0x0009, d.avgblk, 3, 19);
    NumOne(0x000A, d.primary, 3, 20);
    NumOne(0x000B, d.secondary, 3, 21);
    NumOne(0x000C, d.dirblk, 3, 22);
    OrderedThen(a1, Num(0x0009, d.avgblk, 3), 18, 19, 20);
    var a2 := a1 + Num(0x0009, d.avgblk, 3);
    OrderedThen(a2, Num(0x000A, d.primary, 3), 18, 20, 21);
    var a3 := a2 + Num(0x000A, d.primary, 3);
    OrderedThen(a3, Num(0x000B, d.secondary, 3), 18, 21, 22);
    OrderedThen(a3 + Num(0x000B, d.secondary, 3), Num(0x000C, d.dirblk, 3), 18, 22, 23);
  }

  lemma FlagsOrdered(f: byte)
    ensures Ordered(Flags(f), 23, 31)
  {
    hide Ordered, If, Flag;
    IfOne(Flag(f, 0x01), 0x001C, 0, 0, 23);
    IfOne(Flag(f, 0x02), 0x000D, 0, 0, 24);
    IfOne(Flag(f, 0x04), 0x0052, 0, 0, 25);
    IfOne(Flag(f, 0x08), 0x000E, 8, 1, 26);
    IfOne(Flag(f, 0x10), 0x000F, 0, 0, 27);
    IfOne(Flag(f, 0x20), 0x0028, 0, 0, 28);
    IfOne(Flag(f, 0x40), 0x0024, 0, 0, 29);
    IfOne(Flag(f, 0x80), 0x0059, 0, 0, 30);
    var a1 := If(Flag(f, 0x01), 0x001C, 0, 0) + If(Flag(f, 0x02), 0x000D, 0, 0);
    OrderedThen(If(Flag(f, 0x01), 0x001C, 0, 0), If(Flag(f, 0x02), 0x000D, 0, 0), 23, 24, 25);
    OrderedThen(a1, If(Flag(f, 0x04), 0x0052, 0, 0), 23, 25, 26);
    var a2 := a1 + If(Flag(f, 0x04), 0x0052, 0, 0);
    OrderedThen(a2, If(Flag(f, 0x08), 0x000E, 8, 1), 23, 26, 27);
    var a3 := a2 + If(Flag(f, 0x08), 0x000E, 8, 1);
    OrderedThen(a3, If(Flag(f, 0x10), 0x000F, 0, 0), 23, 27, 28);
    var a4 := a3 + If(Flag(f, 0x10), 0x000F, 0, 0);
    OrderedThen(a4, If(Flag(f, 0x20), 0x0028, 0, 0), 23, 28, 29);
    var a5 := a4 + If(Flag(f, 0x20), 0x0028, 0, 0);
    OrderedThen(a5, If(Flag(f, 0x40), 0x0024, 0, 0), 23, 29, 30);
    OrderedThen(a5 + If(Flag(f, 0x40), 0x0024, 0, 0), If(Flag(f, 0x80), 0x0059, 0, 0), 23, 30, 31);
  }

  /** No key twice, and in the order the fields are looked at. */
  lemma WantedOrdered(upper: byte -> byte, d: Dyn)
    ensures Ordered(Wanted(upper, d), 0, 33)
  {
    hide Ordered, Names, Sysout, Where, Dcb, Space, Flags, Text, AsksName;
    NamesOrdered(upper, d);
    SysoutOrdered(upper, d);
    WhereOrdered(upper, d);
    DcbOrdered(upper, d);
    SpaceOrdered(d);
    FlagsOrdered(d.miscFlags);
    var password, ask := Text(upper, 0x0050, d.password, 8), if AsksName(d) then [Own(0x0056, Fill(BLANK, 44))] else [];
    TextOne(upper, 0x0050, d.password, 8, 31);
    OrderedOne(ask, 32);
    var a1 := Names(upper, d) + Sysout(upper, d);
    OrderedThen(Names(upper, d), Sysout(upper, d), 0, 6, 8);
    OrderedThen(a1, Where(upper, d), 0, 8, 11);
    var a2 := a1 + Where(upper, d);
    OrderedThen(a2, Dcb(upper, d), 0, 11, 18);
    var a3 := a2 + Dcb(upper, d);
    OrderedThen(a3, Space(d), 0, 18, 23);
    var a4 := a3 + Space(d);
    OrderedThen(a4, Flags(d.miscFlags), 0, 23, 31);
    OrderedThen(a4 + Flags(d.miscFlags), password, 0, 31, 32);
    OrderedThen(a4 + Flags(d.miscFlags) + password, ask, 0, 32, 33);
  }

  lemma {:induction false} TakenItems(items: seq<Word>)
    ensures forall i :: 0 <= i < |Taken(items)| ==> Taken(items)[i].Item?
  {
    if Taken(items) != [] && !items[0].last { TakenItems(items[1..]); }
  }

  /** Read back out of what goes to SVC 99: first the library's units, each key once and in
      order, one for each field the caller set and with that field's value, and no other;
      then the caller's. */
  lemma RequestSays(upper: byte -> byte, d: Dyn, items: seq<Word>, a: Answer, k: nat, value: seq<byte>)
    requires !Bad(d) && a.Issued? && Delivers(a, Wanted(upper, d) + Taken(items))
    ensures var read := Reads(a.buf, a.tu);
      && read.Some? && |Taken(items)| <= |read.value|
      && Ordered(read.value[..|read.value| - |Taken(items)|], 0, 33)
      && (Own(k, value) in read.value <==> Says(upper, d, k, value))
  {
    hide Says, Wanted, Bad, Ordered, Taken;
    WantedSays(upper, d, k, value);
    WantedOrdered(upper, d);
    TakenItems(items);
    var w, t := Wanted(upper, d), Taken(items);
    assert (w + t)[..|w + t| - |t|] == w;
  }

  /** The units of an unallocation. */
  lemma NamedSays(upper: byte -> byte, d: Dyn, k: nat, value: seq<byte>)
    ensures Own(k, value) in Named(upper, d) <==>
      || (k == DALDDNAM && IsText(upper, d.ddname, 8, value))
      || (k == DALDSNAM && IsText(upper, d.dsname, 44, value))
      || (k == DALMEMBR && IsText(upper, d.member, 8, value))
      || (k == DALNDISP && d.normdisp != 0 && value == [d.normdisp])
  {
    hide Text, If, IsText, IsNumber, Power256;
    Powers();
    TextSays(upper, 0x0001, d.ddname, 8, k, value);
    TextSays(upper, 0x0002, d.dsname, 44, k, value);
    TextSays(upper, 0x0003, d.member, 8, k, value);
    IfSays(d.normdisp != 0, 0x0005, d.normdisp, 1, k, value);
    ByteSays(d.normdisp, value);
  }

  /** The caller's units: all of them up to the first marked one, or up to a null pointer or
      the end of the list in front of it. */
  lemma {:induction false} TakenIs(items: seq<Word>)
    ensures var n := |Taken(items)|;
      && n <= |items| && (forall i :: 0 <= i < n ==> Taken(items)[i] == Item(items[i].address))
      && (forall i :: 0 <= i < n ==> items[i].address != 0 || items[i].last)
      && (forall i :: 0 <= i < n - 1 ==> !items[i].last)
      && (n == |items| || (n > 0 && items[n - 1].last) || (items[n].address == 0 && !items[n].last))
  {
    if Taken(items) != [] && !items[0].last {
      TakenIs(items[1..]);
      var n := |Taken(items)|;
      assert forall i :: 0 < i < n ==> Taken(items)[i] == Taken(items[1..])[i - 1] && items[i] == items[1..][i - 1];
      assert n < |items| ==> items[n] == items[1..][n - 1];
    }
  }
}
