/** The DYNRQ structure the adders fill in place, and dynalloc() and dynfree() on top
    of it, up to the request they hand to SVC 99. */
module DynRequest {
  import opened Wrappers
  import opened Bytes
  import opened Dynreq

  /** An element of tu[]: a unit in buf or one of the caller's, and the high-order bit. */
  datatype Entry = Unit(offset: nat, last: bool) | Caller(address: nat, last: bool)

  /** A word of the caller's __miscitems; an unmarked 0 ends the list. */
  datatype Word = Word(address: nat, last: bool)

  /** The caller's units: up to the marked one, or the end of the list. */
  function Taken(items: seq<Word>): seq<Field> {
    if items == [] || (items[0].address == 0 && !items[0].last) then []
    else if items[0].last then [Item(items[0].address)]
    else [Item(items[0].address)] + Taken(items[1..])
  }

  /** What became of a request: not issued, with the code returned, or handed over. */
  datatype Answer = Failed(code: int) | Issued(verb: int, flag1: int, tu: seq<Entry>, buf: seq<byte>)

  // ---- what the arrays hold -------------------------------------------------------

  predicate Holds(b: seq<byte>, e: Entry, o: nat, f: Field) {
    match f
    case Own(_, _) => Legal(f) && o + |Encode(f)| <= |b| && b[o..o + |Encode(f)|] == Encode(f) && e == Unit(o, false)
    case Item(a) => e == Caller(a, false)
  }

  predicate AllHold(b: seq<byte>, tu: seq<Entry>, fs: seq<Field>) {
    fs == [] || (
      var n := |fs| - 1;
      AllHold(b, tu, fs[..n]) && n < |tu| && Holds(b, tu[n], Used(fs[..n]), fs[n]))
  }

  lemma {:induction false} AllHoldFrame(b: seq<byte>, c: seq<byte>, tu: seq<Entry>, ut: seq<Entry>, fs: seq<Field>)
    requires AllHold(b, tu, fs) && |fs| <= |ut| && ut[..|fs|] == tu[..|fs|]
    requires Used(fs) <= |b| && Used(fs) <= |c| && c[..Used(fs)] == b[..Used(fs)]
    ensures AllHold(c, ut, fs)
    decreases |fs|
  {
    if fs != [] {
      var n := |fs| - 1;
      var o, f := Used(fs[..n]), fs[n];
      assert ut[..n] == ut[..|fs|][..n] && tu[..n] == tu[..|fs|][..n];
      assert c[..o] == c[..Used(fs)][..o] && b[..o] == b[..Used(fs)][..o];
      AllHoldFrame(b, c, tu, ut, fs[..n]);
      assert ut[n] == ut[..|fs|][n] && tu[n] == tu[..|fs|][n];
      if f.Own? {
        var e := o + |Encode(f)|;
        assert c[o..e] == c[..Used(fs)][o..e] && b[o..e] == b[..Used(fs)][o..e];
      }
    }
  }

  /** A list of pointers as SVC 99 reads it, up to the marked one. */
  function Reads(b: seq<byte>, tu: seq<Entry>): Option<seq<Field>> {
    if tu == [] then None else
    var head := ReadOne(b, tu[0]);
    if head.None? then None
    else if tu[0].last then Some([head.value])
    else
      var more := Reads(b, tu[1..]);
      if more.None? then None else Some([head.value] + more.value)
  }

  /** tu with its last pointer marked. */
  function Marked(tu: seq<Entry>): (r: seq<Entry>)
    requires tu != []
    ensures |r| == |tu|
  {
    var n := |tu| - 1;
    tu[..n] + [tu[n].(last := true)]
  }

  predicate OnlyLastMarked(tu: seq<Entry>) {
    tu != [] && forall i :: 0 <= i < |tu| ==> (tu[i].last <==> i == |tu| - 1)
  }

  lemma {:induction false} HeldAt(b: seq<byte>, tu: seq<Entry>, fs: seq<Field>, i: nat)
    requires AllHold(b, tu, fs) && i < |fs|
    ensures |fs| <= |tu| && Holds(b, tu[i], Used(fs[..i]), fs[i])
    decreases |fs|
  {
    var n := |fs| - 1;
    if i < n {
      HeldAt(b, tu, fs[..n], i);
      assert fs[..n][..i] == fs[..i];
    }
  }

  function ReadOne(b: seq<byte>, e: Entry): Option<Field> {
    if e.Unit? then Decode(b, e.offset) else Some(Item(e.address))
  }

  lemma HeldReads(b: seq<byte>, e: Entry, o: nat, f: Field)
    requires Holds(b, e, o, f)
    ensures ReadOne(b, e) == Some(f) && !e.last
  {
    if f.Own? { DecodeEncode(b, o, f); }
  }

  lemma {:induction false} ReadsFrom(b: seq<byte>, tu: seq<Entry>, fs: seq<Field>, i: nat)
    requires AllHold(b, tu, fs) && |tu| == |fs| && i < |fs|
    ensures Reads(b, Marked(tu)[i..]) == Some(fs[i..])
    decreases |fs| - i
  {
    HeldAt(b, tu, fs, i);
    HeldReads(b, tu[i], Used(fs[..i]), fs[i]);
    hide Holds, Decode, Used;
    var m := Marked(tu);
    assert m[i..][0] == m[i] && m[i..][1..] == m[i + 1..];
    assert fs[i..] == [fs[i]] + fs[i + 1..];
    if i + 1 < |fs| {
      ReadsFrom(b, tu, fs, i + 1);
    } else {
      assert m[i] == tu[i].(last := true);
      assert ReadOne(b, m[i]) == ReadOne(b, tu[i]);
      assert fs[i..] == [fs[i]];
    }
  }

  lemma {:induction false} NoneMarked(b: seq<byte>, tu: seq<Entry>, fs: seq<Field>)
    requires AllHold(b, tu, fs) && |tu| == |fs| > 0
    ensures OnlyLastMarked(Marked(tu))
  {
    forall i | 0 <= i < |tu| ensures !tu[i].last { HeldAt(b, tu, fs, i); }
  }

  /** The request reads back as fs; only its last pointer is marked; each unit of the
      library's is inside buf, after the end of the one before it. */
  predicate Delivers(r: Answer, fs: seq<Field>)
    requires r.Issued?
  {
    && |r.tu| == |fs| <= DYNRQ_TU && |r.buf| == DYNRQ_BUF
    && OnlyLastMarked(r.tu) && Reads(r.buf, r.tu) == Some(fs) && Used(fs) <= DYNRQ_BUF
    && forall i :: 0 <= i < |fs| && fs[i].Own? ==> r.tu[i].Unit? && r.tu[i].offset == Used(fs[..i])
  }

  lemma Delivered(b: seq<byte>, tu: seq<Entry>, fs: seq<Field>)
    requires AllHold(b, tu, fs) && |tu| == |fs| > 0
    ensures Reads(b, Marked(tu)) == Some(fs) && OnlyLastMarked(Marked(tu))
    ensures forall i :: 0 <= i < |fs| && fs[i].Own? ==>
      Marked(tu)[i].Unit? && Marked(tu)[i].offset == Used(fs[..i])
  {
    ReadsFrom(b, tu, fs, 0);
    NoneMarked(b, tu, fs);
    assert Marked(tu)[0..] == Marked(tu) && fs[0..] == fs;
    forall i | 0 <= i < |fs| && fs[i].Own?
      ensures Marked(tu)[i].Unit? && Marked(tu)[i].offset == Used(fs[..i])
    {
      HeldAt(b, tu, fs, i);
    }
  }

  class Request {
    var err: int
    var count: nat
    var used: nat
    const tu: array<Entry>
    const buf: array<byte>
    ghost var fields: seq<Field>

    ghost predicate Valid()
      reads this, tu, buf
    {
      && tu.Length == DYNRQ_TU && buf.Length == DYNRQ_BUF
      && (err == 0 || err == -1 || err == -2)
      && count == |fields| && used == Used(fields) && Fits(fields)
      && AllHold(buf[..], tu[..], fields)
    }

    ghost function View(): Req
      reads this
    {
      Req(err, fields)
    }

    lemma Counts()
      requires Valid()
      ensures count == |fields| && Fits(fields) && (err == 0 || err == -1 || err == -2)
    {
    }

    constructor ()
      ensures Valid() && View() == Req(0, []) && fresh(tu) && fresh(buf)
    {
      err, count, used, fields := 0, 0, 0, [];
      tu := new Entry[DYNRQ_TU](_ => Caller(0, false));
      buf := new byte[DYNRQ_BUF](_ => 0);
    }

    /** room: the next need bytes of buf, and a pointer to them. */
    method Room(key: nat, len: nat) returns (at: Option<nat>)
      requires Valid() && key < 0x1_0000 && len < 0x1_0000
      modifies this`err, this`count, this`used, tu
      ensures at.Some? <==> old(err) == 0 && Fits(fields + [Own(key, Fill(0, len))])
      ensures at.None? ==> Valid() && err == if old(err) == 0 then -1 else old(err)
      ensures at.Some? ==> err == 0 && at.value == Used(fields) && count == |fields| + 1 <= DYNRQ_TU
      ensures at.Some? ==> used == at.value + Size(Own(key, Fill(0, len))) <= DYNRQ_BUF
      ensures at.Some? ==> tu[|fields|] == Unit(at.value, false) && AllHold(buf[..], tu[..], fields)
    {
      FitsOne(fields, key, len);
      var need := if len > 0 then 6 + len else 4;
      need := need + need % 2;
      if err != 0 { return None; }
      if count >= DYNRQ_TU || used + need > DYNRQ_BUF {
        err := -1;
        return None;
      }
      ghost var t := tu[..];
      at := Some(used);
      used := used + need;
      tu[count] := Unit(at.value, false);
      count := count + 1;
      AllHoldFrame(buf[..], buf[..], t, tu[..], fields);
    }

    /** unit: room, and the header in it. */
    method NewUnit(key: nat, len: nat) returns (at: Option<nat>)
      requires Valid() && key < 0x1_0000 && len < 0x1_0000
      modifies this`err, this`count, this`used, tu, buf
      ensures fields == old(fields)
      ensures at.Some? <==> old(err) == 0 && Fits(fields + [Own(key, Fill(0, len))])
      ensures at.None? ==> Valid() && err == if old(err) == 0 then -1 else old(err)
      ensures at.Some? ==> Opened(at.value, key, len)
      ensures at.Some? ==> err == 0 && AllHold(buf[..], tu[..], fields)
    {
      hide AllHold, Used, Half;
      at := Room(key, len);
      if at.None? { return; }
      ghost var b := buf[..];
      PutHeader(at.value, key, len);
      AllHoldFrame(b, buf[..], tu[..], tu[..], fields);
    }

    method PutHeader(o: nat, key: nat, len: nat)
      requires key < 0x1_0000 && len < 0x1_0000 && o + (if len > 0 then 6 else 4) <= buf.Length
      modifies buf
      ensures buf[..o] == old(buf[..o]) && buf[o..o + 4] == Half(key) + Half(if len > 0 then 1 else 0)
      ensures len > 0 ==> buf[o + 4..o + 6] == Half(len)
    {
      buf[o], buf[o + 1] := key / 256, key % 256;
      buf[o + 2], buf[o + 3] := 0, if len > 0 then 1 else 0;
      if len > 0 { buf[o + 4], buf[o + 5] := len / 256, len % 256; }
    }

    /** A unit whose header is written and whose value is not yet. */
    ghost predicate Opened(o: nat, key: nat, len: nat)
      reads this, tu, buf
    {
      && tu.Length == DYNRQ_TU && buf.Length == DYNRQ_BUF && key < 0x1_0000 && len < 0x1_0000
      && o == Used(fields) && count == |fields| + 1 <= DYNRQ_TU
      && used == o + Size(Own(key, Fill(0, len))) <= DYNRQ_BUF
      && tu[|fields|] == Unit(o, false)
      && buf[o..o + 4] == Half(key) + Half(if len > 0 then 1 else 0)
      && (len > 0 ==> buf[o + 4..o + 6] == Half(len))
    }

    /** The value is written: the unit counts. */
    ghost method Close(o: nat, key: nat, value: seq<byte>, b: seq<byte>)
      requires err == 0 && Opened(o, key, |value|) && |b| == buf.Length
      requires AllHold(b, tu[..], fields) && buf[..o] == b[..o]
      requires value != [] ==> buf[o + 6..o + 6 + |value|] == value
      modifies this`fields
      ensures Valid() && View() == Req(0, old(fields) + [Own(key, value)])
    {
      AllHoldFrame(b, buf[..], tu[..], tu[..], fields);
      hide AllHold;
      WholeUnit(buf[..], o, key, value);
      HeldMore(buf[..], tu[..], fields, Own(key, value));
      assert Size(Own(key, value)) == Size(Own(key, Fill(0, |value|)));
      fields := fields + [Own(key, value)];
    }

    /** The digits of v into the value of the unit at o, from the last one back. */
    method PutNumber(o: nat, v: nat, n: nat)
      requires o + 6 + n <= buf.Length
      modifies buf
      ensures buf[..o + 6] == old(buf[..o + 6]) && buf[o + 6..o + 6 + n] == BigEndian(v, n)
    {
      var i, w := n, v;
      ghost var value := BigEndian(v, n);
      while i > 0
        invariant 0 <= i <= n && buf[..o + 6] == old(buf[..o + 6])
        invariant BigEndian(w, i) + buf[o + 6 + i..o + 6 + n] == value
      {
        ghost var done := buf[o + 6 + i..o + 6 + n];
        buf[o + 6 + i - 1] := w % 256;
        assert buf[o + 6 + (i - 1)..o + 6 + n] == [w % 256] + done;
        w, i := w / 256, i - 1;
      }
      assert buf[o + 6 + i..o + 6 + n] == buf[o + 6..o + 6 + n];
    }

    /** __dynrqb */
    method AddBytes(key: nat, v: nat, n: nat)
      requires Valid() && key < 0x1_0000 && n <= 4
      modifies this, tu, buf
      ensures Valid() && Next(old(View()), View(), [Own(key, BigEndian(v, n))], false)
    {
      hide BigEndian, AllHold;
      ghost var value := BigEndian(v, n);
      FitsSize(fields, Own(key, Fill(0, n)), Own(key, value));
      var at := NewUnit(key, n);
      if at.None? { return; }
      ghost var b := buf[..];
      if n > 0 { PutNumber(at.value, v, n); }
      Close(at.value, key, value, b);
    }


    /** __dynrqs */
    method AddString(upper: byte -> byte, key: nat, s: seq<byte>, max: nat)
      requires Valid() && key < 0x1_0000 && 0 < max < 0x1_0000
      modifies this, tu, buf
      ensures Valid() && Next(old(View()), View(), Text(upper, key, s, max), false)
    {
      hide AllHold, Used;
      if s == [] {
        NextNothing(View());
        return;
      }
      var len := if |s| > max then max else |s|;
      ghost var value := Upper(upper, s[..len]);
      assert |s| <= max ==> s[..len] == s;
      FitsSize(fields, Own(key, Fill(0, len)), Own(key, value));
      var at := NewUnit(key, len);
      if at.None? { return; }
      ghost var b := buf[..];
      PutString(upper, at.value, s, len);
      ghost var o := at.value;
      assert buf[..o] == buf[..o + 6][..o] && b[..o] == b[..o + 6][..o];
      Close(at.value, key, value, b);
    }

    method PutString(upper: byte -> byte, o: nat, s: seq<byte>, len: nat)
      requires o + 6 + len <= buf.Length && len <= |s|
      modifies buf
      ensures buf[..o + 6] == old(buf[..o + 6]) && buf[o + 6..o + 6 + len] == Upper(upper, s[..len])
    {
      var i := 0;
      while i < len
        invariant 0 <= i <= len && buf[..o + 6] == old(buf[..o + 6])
        invariant forall k :: 0 <= k < i ==> buf[o + 6 + k] == upper(s[k])
      {
        buf[o + 6 + i] := upper(s[i]);
        i := i + 1;
      }
    }

    /** __dynrqr */
    method AddReturn(key: nat, n: nat)
      requires Valid() && key < 0x1_0000 && 0 < n < 0x1_0000
      modifies this, tu, buf
      ensures Valid() && Next(old(View()), View(), [Own(key, Fill(BLANK, n))], false)
    {
      hide AllHold, Used;
      FitsSize(fields, Own(key, Fill(0, n)), Own(key, Fill(BLANK, n)));
      var at := NewUnit(key, n);
      if at.None? { return; }
      ghost var b := buf[..];
      PutBlanks(at.value, n);
      Close(at.value, key, Fill(BLANK, n), b);
    }

    method PutBlanks(o: nat, n: nat)
      requires o + 6 + n <= buf.Length
      modifies buf
      ensures buf[..o + 6] == old(buf[..o + 6]) && buf[o + 6..o + 6 + n] == Fill(BLANK, n)
    {
      forall k | o + 6 <= k < o + 6 + n { buf[k] := BLANK; }
    }

    /** One of the caller's units: false when the loop is to stop. */
    method AddItem(address: nat) returns (ok: bool)
      requires Valid()
      modifies this, tu
      ensures Valid() && Next(old(View()), View(), [Item(address)], false) && (ok <==> err == 0)
    {
      hide AllHold, Next;
      if err != 0 {
        NextStuck(View(), [Item(address)]);
        return false;
      }
      if count >= DYNRQ_TU {
        err := -1;
        NextFull(old(View()), View(), [Item(address)]);
        return false;
      }
      ghost var t := tu[..];
      tu[count] := Caller(address, false);
      count := count + 1;
      AllHoldFrame(buf[..], buf[..], t, tu[..], fields);
      assert Holds(buf[..], tu[..][|fields|], Used(fields), Item(address));
      HeldMore(buf[..], tu[..], fields, Item(address));
      NextItem(old(View()), Item(address));
      fields := fields + [Item(address)];
      return true;
    }

    /** __dynrqm: the caller's units, by their addresses. */
    method AddItems(items: seq<Word>)
      requires Valid()
      modifies this, tu
      ensures Valid() && Next(old(View()), View(), Taken(items), false)
    {
      hide Next, Valid;
      var i := 0;
      ghost var done: seq<Field> := [];
      Nothing();
      while i < |items| && !(items[i].address == 0 && !items[i].last)
        invariant 0 <= i <= |items| && Valid()
        invariant done + Taken(items[i..]) == Taken(items)
        invariant Next(old(View()), View(), done, false)
      {
        ghost var r, f, more := View(), Item(items[i].address), Taken(items[i + 1..]);
        assert items[i..][1..] == items[i + 1..];
        assert done + ([f] + more) == done + [f] + more;
        var ok := AddItem(items[i].address);
        NextThen(old(View()), r, View(), done, [f], false, false);
        if items[i].last { return; }
        if !ok {
          Stuck(more);
          NextThen(old(View()), View(), View(), done + [f], more, false, false);
          return;
        }
        done := done + [f];
        i := i + 1;
      }
      assert Taken(items[i..]) == [];
      assert done + [] == done;
    }

    lemma Nothing()
      requires Valid()
      ensures Next(View(), View(), [], false)
    {
      NextNothing(View());
    }

    lemma Stuck(fs: seq<Field>)
      requires Valid() && err != 0
      ensures Next(View(), View(), fs, false)
    {
    }

    /** A field that cannot be passed on. */
    method SetBad()
      requires Valid()
      modifies this`err
      ensures Valid() && err == -2 && Next(old(View()), View(), [], true)
    {
      err := -2;
    }

    /** A numeric field: none from 0 down, an error above what n bytes hold. */
    method AddNumber(key: nat, v: int, n: nat)
      requires Valid() && key < 0x1_0000 && 0 < n <= 4
      modifies this, tu, buf
      ensures Valid() && Next(old(View()), View(), Num(key, v, n), v > Max(n))
    {
      if v <= 0 {
        Nothing();
        return;
      }
      if v > Max(n) {
        SetBad();
        return;
      }
      AddBytes(key, v, n);
    }

    method AddIf(c: bool, key: nat, v: nat, n: nat)
      requires Valid() && key < 0x1_0000 && n <= 4
      modifies this, tu, buf
      ensures Valid() && Next(old(View()), View(), If(c, key, v, n), false)
    {
      if c { AddBytes(key, v, n); } else { Nothing(); }
    }

    /** __dynrqx, up to the SVC: the code when there is one, else the last pointer is
        marked and the request goes out. */
    method Issue(verb: int, flag1: int) returns (r: Answer)
      requires Valid()
      modifies this`err, tu
      ensures old(err) != 0 ==> r == Failed(old(err))
      ensures old(err) == 0 && fields == [] ==> r == Failed(-2)
      ensures old(err) == 0 && fields != [] ==>
        r.Issued? && r.verb == verb && r.flag1 == flag1 && Delivers(r, fields)
    {
      if err == 0 && count == 0 { err := -2; }
      if err != 0 { return Failed(err); }
      ghost var t := tu[..];
      var last := tu[count - 1];
      tu[count - 1] := last.(last := true);
      assert tu[..count] == Marked(t[..count]);
      AllHoldFrame(buf[..], buf[..], t, t[..count], fields);
      Delivered(buf[..], t[..count], fields);
      assert Marked(t[..count])[0..] == Marked(t[..count]);
      return Issued(verb, flag1, tu[..count], buf[..]);
    }
  }

  lemma NextStuck(r: Req, fs: seq<Field>)
    requires r.err == -1 || r.err == -2
    ensures Next(r, r, fs, false)
  {
  }

  lemma NextFull(r: Req, s: Req, fs: seq<Field>)
    requires r.err == 0 && |r.fields| >= DYNRQ_TU && fs != [] && s == Req(-1, r.fields)
    ensures Next(r, s, fs, false)
  {
  }

  lemma NextItem(r: Req, f: Field)
    requires r.err == 0 && Fits(r.fields) && |r.fields| < DYNRQ_TU && f.Item?
    ensures Next(r, Req(0, r.fields + [f]), [f], false)
  {
    assert (r.fields + [f])[..|r.fields|] == r.fields;
  }

  lemma WholeUnit(b: seq<byte>, o: nat, key: nat, value: seq<byte>)
    requires key < 0x1_0000 && |value| < 0x1_0000
    requires o + Size(Own(key, value)) <= |b|
    requires b[o..o + 4] == Half(key) + Half(if value != [] then 1 else 0)
    requires value != [] ==> b[o + 4..o + 6] == Half(|value|) && b[o + 6..o + 6 + |value|] == value
    ensures Holds(b, Unit(o, false), o, Own(key, value))
  {
    var e := Encode(Own(key, value));
    if value != [] {
      assert b[o..o + |e|] == b[o..o + 4] + b[o + 4..o + 6] + b[o + 6..o + |e|];
      assert e == Half(key) + Half(1) + Half(|value|) + value;
    }
  }

  lemma FitsSize(fs: seq<Field>, f: Field, g: Field)
    requires Size(f) == Size(g)
    ensures Fits(fs + [f]) <==> Fits(fs + [g])
  {
    assert (fs + [f])[..|fs|] == fs && (fs + [g])[..|fs|] == fs;
  }

  /** A unit whose header and value are in place is one more that is held. */
  lemma HeldMore(b: seq<byte>, tu: seq<Entry>, fs: seq<Field>, f: Field)
    requires AllHold(b, tu, fs) && |fs| < |tu| && Holds(b, tu[|fs|], Used(fs), f)
    ensures AllHold(b, tu, fs + [f]) && Used(fs + [f]) == Used(fs) + Size(f)
  {
    assert (fs + [f])[..|fs|] == fs;
  }

  lemma FitsOne(fs: seq<Field>, key: nat, len: nat)
    requires Fits(fs)
    ensures Fits(fs + [Own(key, Fill(0, len))]) <==>
            |fs| < DYNRQ_TU && Used(fs) + Size(Own(key, Fill(0, len))) <= DYNRQ_BUF
  {
    assert (fs + [Own(key, Fill(0, len))])[..|fs|] == fs;
  }
}
