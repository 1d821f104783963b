/** dynalloc() and dynfree(): the request that goes to SVC 99, or the code it is refused
    with. */
module Dynalloc {
  import opened Bytes
  import opened Dynreq
  import opened DynRequest

  method AddDdName(rq: Request, upper: byte -> byte, d: Dyn)
    requires rq.Valid()
    modifies rq, rq.tu, rq.buf
    ensures rq.Valid() && Next(old(rq.View()), rq.View(), DdName(upper, d), false)
  {
    hide Next;
    var intoName := d.ddname == GENERATED;
    if d.ddname != [] && !intoName {
      rq.AddString(upper, 0x0001, d.ddname, 8);
    } else {
      rq.AddReturn(0x0055, 8);
    }
  }

  method AddDcb(rq: Request, upper: byte -> byte, d: Dyn)
    requires rq.Valid()
    modifies rq, rq.tu, rq.buf
    ensures rq.Valid() && Next(old(rq.View()), rq.View(), Dcb(upper, d), BadDcb(d))
  {
    hide Next, Text, If, Num, Max, Unsigned16, Request.Valid, Request.View;
    ghost var r0 := rq.View();
    rq.AddString(upper, 0x002C, d.dcbrefds, 44);
    ghost var f, r := Text(upper, 0x002C, d.dcbrefds, 44), rq.View();
    rq.AddString(upper, 0x002D, d.dcbrefdd, 8);
    f, r := Then(r0, r, rq.View(), f, Text(upper, 0x002D, d.dcbrefdd, 8), false, false);
    rq.AddIf(d.dsorg != 0, 0x003C, Unsigned16(d.dsorg), 2);
    f, r := Then(r0, r, rq.View(), f, If(d.dsorg != 0, 0x003C, Unsigned16(d.dsorg), 2), false, false);
    rq.AddNumber(0x0049, d.recfm, 1);
    f, r := Then(r0, r, rq.View(), f, Num(0x0049, d.recfm, 1), false, d.recfm > Max(1));
    ghost var bad := d.recfm > Max(1) || d.recfm < 0;
    if d.recfm < 0 {
      rq.SetBad();
      f, r := Then(r0, r, rq.View(), f, [], d.recfm > Max(1), true);
    }
    rq.AddIf(d.blksize != 0, 0x0030, Unsigned16(d.blksize), 2);
    f, r := Then(r0, r, rq.View(), f, If(d.blksize != 0, 0x0030, Unsigned16(d.blksize), 2), bad, false);
    rq.AddIf(d.lrecl != 0, 0x0042, d.lrecl, 2);
    f, r := Then(r0, r, rq.View(), f, If(d.lrecl != 0, 0x0042, d.lrecl, 2), bad, false);
    rq.AddNumber(0x0040, d.keylength, 1);
    f, r := Then(r0, r, rq.View(), f, Num(0x0040, d.keylength, 1), bad, d.keylength > Max(1));
  }

  method AddSpace(rq: Request, d: Dyn)
    requires rq.Valid()
    modifies rq, rq.tu, rq.buf
    ensures rq.Valid() && Next(old(rq.View()), rq.View(), Space(d), BadSpace(d))
  {
    hide Next, Text, If, Num, Max, Flag, Request.Valid;
    ghost var r0 := rq.View();
    if d.alcunit == CYL {
      rq.AddBytes(0x0008, 0, 0);
    } else if d.alcunit == TRK {
      rq.AddBytes(0x0007, 0, 0);
    } else if d.alcunit != 0 {
      rq.SetBad();
    } else {
      rq.Nothing();
    }
    ghost var f, r := If(d.alcunit == CYL, 0x0008, 0, 0) + If(d.alcunit == TRK, 0x0007, 0, 0), rq.View();
    AllocUnit(d);
    ghost var bad := d.alcunit > 2;
    rq.AddNumber(0x0009, d.avgblk, 3);
    f, r := Then(r0, r, rq.View(), f, Num(0x0009, d.avgblk, 3), bad, d.avgblk > Max(3));
    bad := bad || d.avgblk > Max(3);
    rq.AddNumber(0x000A, d.primary, 3);
    f, r := Then(r0, r, rq.View(), f, Num(0x000A, d.primary, 3), bad, d.primary > Max(3));
    bad := bad || d.primary > Max(3);
    rq.AddNumber(0x000B, d.secondary, 3);
    f, r := Then(r0, r, rq.View(), f, Num(0x000B, d.secondary, 3), bad, d.secondary > Max(3));
    bad := bad || d.secondary > Max(3);
    rq.AddNumber(0x000C, d.dirblk, 3);
    f, r := Then(r0, r, rq.View(), f, Num(0x000C, d.dirblk, 3), bad, d.dirblk > Max(3));
  }

  lemma AllocUnit(d: Dyn)
    ensures If(d.alcunit == CYL, 0x0008, 0, 0) + If(d.alcunit == TRK, 0x0007, 0, 0) ==
            if d.alcunit == CYL then [Own(0x0008, BigEndian(0, 0))]
            else if d.alcunit == TRK then [Own(0x0007, BigEndian(0, 0))] else []
  {
  }

  method AddFlags(rq: Request, f0: byte)
    requires rq.Valid()
    modifies rq, rq.tu, rq.buf
    ensures rq.Valid() && Next(old(rq.View()), rq.View(), Flags(f0), false)
  {
    hide Next, Text, If, Num, Max, Flag, Request.Valid;
    ghost var r0 := rq.View();
    rq.AddIf(Flag(f0, 0x01), 0x001C, 0, 0);
    ghost var f, r := If(Flag(f0, 0x01), 0x001C, 0, 0), rq.View();
    rq.AddIf(Flag(f0, 0x02), 0x000D, 0, 0);
    f, r := Then(r0, r, rq.View(), f, If(Flag(f0, 0x02), 0x000D, 0, 0), false, false);
    rq.AddIf(Flag(f0, 0x04), 0x0052, 0, 0);
    f, r := Then(r0, r, rq.View(), f, If(Flag(f0, 0x04), 0x0052, 0, 0), false, false);
    rq.AddIf(Flag(f0, 0x08), 0x000E, 8, 1);
    f, r := Then(r0, r, rq.View(), f, If(Flag(f0, 0x08), 0x000E, 8, 1), false, false);
    rq.AddIf(Flag(f0, 0x10), 0x000F, 0, 0);
    f, r := Then(r0, r, rq.View(), f, If(Flag(f0, 0x10), 0x000F, 0, 0), false, false);
    rq.AddIf(Flag(f0, 0x20), 0x0028, 0, 0);
    f, r := Then(r0, r, rq.View(), f, If(Flag(f0, 0x20), 0x0028, 0, 0), false, false);
    rq.AddIf(Flag(f0, 0x40), 0x0024, 0, 0);
    f, r := Then(r0, r, rq.View(), f, If(Flag(f0, 0x40), 0x0024, 0, 0), false, false);
    rq.AddIf(Flag(f0, 0x80), 0x0059, 0, 0);
    f, r := Then(r0, r, rq.View(), f, If(Flag(f0, 0x80), 0x0059, 0, 0), false, false);
  }

  method AddSysout(rq: Request, upper: byte -> byte, d: Dyn)
    requires rq.Valid()
    modifies rq, rq.tu, rq.buf
    ensures rq.Valid() && Next(old(rq.View()), rq.View(), Sysout(upper, d), false)
  {
    hide Next, Text, If, Request.Valid;
    if d.sysout == 0 {
      rq.Nothing();
      return;
    }
    ghost var r0 := rq.View();
    var n := if d.sysout == DEF_CLASS then 0 else 1;
    rq.AddIf(true, 0x0018, d.sysout, n);
    ghost var f, r := If(true, 0x0018, d.sysout, n), rq.View();
    rq.AddString(upper, 0x0019, d.sysoutname, 8);
    f, r := Then(r0, r, rq.View(), f, Text(upper, 0x0019, d.sysoutname, 8), false, false);
  }

  method AddNames(rq: Request, upper: byte -> byte, d: Dyn)
    requires rq.Valid()
    modifies rq, rq.tu, rq.buf
    ensures rq.Valid() && Next(old(rq.View()), rq.View(), Names(upper, d), false)
  {
    hide Next, Text, If, Num, Max, Flag, Request.Valid;
    ghost var r0 := rq.View();
    AddDdName(rq, upper, d);
    ghost var f, r := DdName(upper, d), rq.View();
    rq.AddString(upper, 0x0002, d.dsname, 44);
    f, r := Then(r0, r, rq.View(), f, Text(upper, 0x0002, d.dsname, 44), false, false);
    rq.AddString(upper, 0x0003, d.member, 8);
    f, r := Then(r0, r, rq.View(), f, Text(upper, 0x0003, d.member, 8), false, false);
    rq.AddIf(d.status != 0, 0x0004, d.status, 1);
    f, r := Then(r0, r, rq.View(), f, If(d.status != 0, 0x0004, d.status, 1), false, false);
    rq.AddIf(d.normdisp != 0, 0x0005, d.normdisp, 1);
    f, r := Then(r0, r, rq.View(), f, If(d.normdisp != 0, 0x0005, d.normdisp, 1), false, false);
    rq.AddIf(d.conddisp != 0, 0x0006, d.conddisp, 1);
    f, r := Then(r0, r, rq.View(), f, If(d.conddisp != 0, 0x0006, d.conddisp, 1), false, false);
  }

  method AddWhere(rq: Request, upper: byte -> byte, d: Dyn)
    requires rq.Valid()
    modifies rq, rq.tu, rq.buf
    ensures rq.Valid() && Next(old(rq.View()), rq.View(), Where(upper, d), false)
  {
    hide Next, Text, If, Num, Max, Flag, Request.Valid;
    ghost var r0 := rq.View();
    rq.AddString(upper, 0x0015, d.unit, 8);
    ghost var f, r := Text(upper, 0x0015, d.unit, 8), rq.View();
    rq.AddString(upper, 0x0010, d.volser, 6);
    f, r := Then(r0, r, rq.View(), f, Text(upper, 0x0010, d.volser, 6), false, false);
    rq.AddString(upper, 0x0014, d.volrefds, 44);
    f, r := Then(r0, r, rq.View(), f, Text(upper, 0x0014, d.volrefds, 44), false, false);
  }

  method AddNamed(rq: Request, upper: byte -> byte, d: Dyn)
    requires rq.Valid()
    modifies rq, rq.tu, rq.buf
    ensures rq.Valid() && Next(old(rq.View()), rq.View(), Named(upper, d), false)
  {
    hide Next, Text, If, Num, Max, Flag, Request.Valid;
    ghost var r0 := rq.View();
    rq.AddString(upper, 0x0001, d.ddname, 8);
    ghost var f, r := Text(upper, 0x0001, d.ddname, 8), rq.View();
    rq.AddString(upper, 0x0002, d.dsname, 44);
    f, r := Then(r0, r, rq.View(), f, Text(upper, 0x0002, d.dsname, 44), false, false);
    rq.AddString(upper, 0x0003, d.member, 8);
    f, r := Then(r0, r, rq.View(), f, Text(upper, 0x0003, d.member, 8), false, false);
    rq.AddIf(d.normdisp != 0, 0x0005, d.normdisp, 1);
    f, r := Then(r0, r, rq.View(), f, If(d.normdisp != 0, 0x0005, d.normdisp, 1), false, false);
  }

  /** All that dynalloc() adds of its own. */
  method AddWanted(rq: Request, upper: byte -> byte, d: Dyn)
    requires rq.Valid()
    modifies rq, rq.tu, rq.buf
    ensures rq.Valid() && Next(old(rq.View()), rq.View(), Wanted(upper, d), Bad(d))
  {
    hide Next, Text, Names, Sysout, Where, Dcb, Space, Flags, Refused, BadDcb, BadSpace, AsksName;
    hide Request.Valid, Request.View;
    ghost var r0 := rq.View();
    if Refused(d) { rq.SetBad(); } else { rq.Nothing(); }
    ghost var f: seq<Field>, r := [], rq.View();
    AddNames(rq, upper, d);
    f, r := Then(r0, r, rq.View(), f, Names(upper, d), Refused(d), false);
    AddSysout(rq, upper, d);
    f, r := Then(r0, r, rq.View(), f, Sysout(upper, d), Refused(d), false);
    AddWhere(rq, upper, d);
    f, r := Then(r0, r, rq.View(), f, Where(upper, d), Refused(d), false);
    AddDcb(rq, upper, d);
    f, r := Then(r0, r, rq.View(), f, Dcb(upper, d), Refused(d), BadDcb(d));
    AddSpace(rq, d);
    f, r := Then(r0, r, rq.View(), f, Space(d), Refused(d) || BadDcb(d), BadSpace(d));
    AddFlags(rq, d.miscFlags);
    f, r := Then(r0, r, rq.View(), f, Flags(d.miscFlags), Refused(d) || BadDcb(d) || BadSpace(d), false);
    rq.AddString(upper, 0x0050, d.password, 8);
    ghost var bad := Refused(d) || BadDcb(d) || BadSpace(d);
    f, r := Then(r0, r, rq.View(), f, Text(upper, 0x0050, d.password, 8), bad, false);
    if AsksName(d) { rq.AddReturn(0x0056, 44); } else { rq.Nothing(); }
    f, r := Then(r0, r, rq.View(), f, if AsksName(d) then [Own(0x0056, Fill(BLANK, 44))] else [], Bad(d), false);
    assert [] + Names(upper, d) == Names(upper, d);
  }

  const S99VRBAL := 1
  const S99VRBUN := 2
  const S99NOCNV := 0x40
  const S99NOMNT := 0x20

  lemma {:induction false} TakenSize(items: seq<Word>)
    ensures Used(Taken(items)) == 0
  {
    if Taken(items) != [] && !items[0].last {
      TakenSize(items[1..]);
      UsedConcat([Item(items[0].address)], Taken(items[1..]));
      OneUsed([Item(items[0].address)]);
    } else {
      OneUsed(Taken(items));
    }
  }

  /** A bad field: nothing is issued.  Too many units, which takes more than 16 of the
      caller's: nothing either.  Otherwise the request reads back as exactly what the
      fields ask for, then the caller's units. */
  method Dynalloc(upper: byte -> byte, d: Dyn, items: seq<Word>) returns (a: Answer)
    ensures Bad(d) ==> a == Failed(-2)
    ensures !Bad(d) && |Wanted(upper, d)| + |Taken(items)| > DYNRQ_TU ==> a == Failed(-1)
    ensures !Bad(d) && |Wanted(upper, d)| + |Taken(items)| <= DYNRQ_TU ==>
      && a.Issued? && a.verb == S99VRBAL
      && a.flag1 == S99NOCNV + (if d.unit != [] || d.volser != [] then S99NOMNT else 0)
      && Delivers(a, Wanted(upper, d) + Taken(items))
  {
    hide Wanted, Bad, Taken, Delivers, Used;
    var rq := new Request();
    AddWanted(rq, upper, d);
    ghost var r := rq.View();
    rq.AddItems(items);
    var flag1 := S99NOCNV + if d.unit != [] || d.volser != [] then S99NOMNT else 0;
    WantedSmall(upper, d);
    WantedSome(upper, d);
    TakenSize(items);
    UsedConcat(Wanted(upper, d), Taken(items));
    assert [] + Wanted(upper, d) == Wanted(upper, d);
    a := rq.Issue(S99VRBAL, flag1);
  }

  lemma WantedSome(upper: byte -> byte, d: Dyn)
    ensures Wanted(upper, d) != []
  {
    hide Sysout, Where, Dcb, Space, Flags, If, AsksName;
  }

  /** Without items, and with up to 16, the request always fits. */
  lemma AlwaysFits(upper: byte -> byte, d: Dyn, items: seq<Word>)
    requires |Taken(items)| <= 16
    ensures |Wanted(upper, d)| + |Taken(items)| <= DYNRQ_TU
  {
    WantedSmall(upper, d);
  }

  /** A request with every field set, which is accepted and takes 32 pointers: with 17
      items it no longer fits. */
  lemma SixteenIsTheMost(upper: byte -> byte) returns (d: Dyn)
    ensures !Bad(d) && |Wanted(upper, d)| == 32
  {
    d := Dyn([1], [1], 1, [1], [1], 1, 1, 1, [1], [1], 1, CYL, 1, 1, 1, 1, 1, [1], [1], [1], 0xFF, [1], 1, 1, 1,
             [], 0, 0, [], [], 0, [], 0);
    assert Max(1) == 255 && Max(3) >= 1;
    assert |Flags(0xFF)| == 8;
    assert |Dcb(upper, d)| == 7 && |Space(d)| == 5;
    assert |Names(upper, d)| == 6 && |Sysout(upper, d)| == 2 && |Where(upper, d)| == 3;
  }

  method Dynfree(upper: byte -> byte, d: Dyn, items: seq<Word>) returns (a: Answer)
    ensures d.pathname != [] ==> a == Failed(-2)
    ensures d.pathname == [] && Named(upper, d) == [] && Taken(items) == [] ==> a == Failed(-2)
    ensures d.pathname == [] && |Named(upper, d)| + |Taken(items)| >= DYNRQ_TU ==> a == Failed(-1)
    ensures d.pathname == [] && 0 < |Named(upper, d)| + |Taken(items)| < DYNRQ_TU ==>
      && a.Issued? && a.verb == S99VRBUN && a.flag1 == 0
      && Delivers(a, Named(upper, d) + Taken(items) + [Own(0x0007, [])])
  {
    hide Named, Taken, Delivers, Used, Fill, Next, Request.Valid;
    var rq := new Request();
    if d.pathname != [] { rq.SetBad(); }
    ghost var r0 := rq.View();
    AddNamed(rq, upper, d);
    ghost var r1 := rq.View();
    rq.AddItems(items);
    ghost var r := rq.View();
    NextThen(r0, r1, r, Named(upper, d), Taken(items), false, false);
    ghost var fs := Named(upper, d) + Taken(items);
    rq.Counts();
    if rq.count == 0 && rq.err == 0 { rq.SetBad(); }
    ghost var s := rq.View();
    rq.AddBytes(0x0007, 0, 0);
    RoomToFree(upper, d, items);
    Freed(d.pathname != [], r0, r, s, rq.View(), fs);
    a := rq.Issue(S99VRBUN, 0);
  }

  /** The bytes are never what is missing. */
  lemma RoomToFree(upper: byte -> byte, d: Dyn, items: seq<Word>)
    ensures var fs := Named(upper, d) + Taken(items); Used(fs) <= DYNRQ_BUF && Used(fs + [Own(0x0007, [])]) <= DYNRQ_BUF
  {
    hide Named, Taken, Used;
    NamedSmall(upper, d);
    TakenSize(items);
    UsedConcat(Named(upper, d), Taken(items));
    UsedConcat(Named(upper, d) + Taken(items), [Own(0x0007, [])]);
    OneUsed([Own(0x0007, [])]);
  }

  /** From the request before the units, r0, to the one after the last, t. */
  lemma Freed(bad: bool, r0: Req, r: Req, s: Req, t: Req, fs: seq<Field>)
    requires if bad then r0.err == -2 else r0 == Req(0, [])
    requires Next(r0, r, fs, false)
    requires if r.fields == [] && r.err == 0 then Next(r, s, [], true) else s == r
    requires Next(s, t, [Own(0x0007, BigEndian(0, 0))], false)
    requires Used(fs) <= DYNRQ_BUF && Used(fs + [Own(0x0007, [])]) <= DYNRQ_BUF
    ensures bad || fs == [] ==> t.err == -2
    ensures !bad && |fs| >= DYNRQ_TU ==> t.err == -1
    ensures !bad && 0 < |fs| < DYNRQ_TU ==> t == Req(0, fs + [Own(0x0007, [])])
  {
    hide Used;
    assert [] + fs == fs && BigEndian(0, 0) == [];
    if !bad && fs == [] { assert Fits([] + []) by { OneUsed([]); } }
  }

  lemma NamedSmall(upper: byte -> byte, d: Dyn)
    ensures Small(Named(upper, d), 4, 86)
  {
    NothingSmall();
    hide Used, Small, Text, If;
    ThenText([], upper, 0x0001, d.ddname, 8, 0, 0);
    var a0 := Text(upper, 0x0001, d.ddname, 8);
    assert [] + a0 == a0;
    ThenText(a0, upper, 0x0002, d.dsname, 44, 1, 14);
    var a1 := a0 + Text(upper, 0x0002, d.dsname, 44);
    ThenText(a1, upper, 0x0003, d.member, 8, 2, 64);
    var a2 := a1 + Text(upper, 0x0003, d.member, 8);
    ThenIf(a2, d.normdisp != 0, 0x0005, d.normdisp, 1, 3, 78);
  }

  /** One more part of the code has run. */
  lemma Then(r0: Req, r: Req, s: Req, fs: seq<Field>, gs: seq<Field>, bad: bool, worse: bool)
    returns (hs: seq<Field>, t: Req)
    requires Next(r0, r, fs, bad) && Next(r, s, gs, worse)
    ensures hs == fs + gs && t == s && Next(r0, s, hs, bad || worse) && (gs == [] ==> hs == fs)
  {
    assert fs + [] == fs;
    NextThen(r0, r, s, fs, gs, bad, worse);
    hs, t := fs + gs, s;
  }
}
