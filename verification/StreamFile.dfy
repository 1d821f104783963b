/** The FILE itself: the routines of the stdio core on its mutable fields, each
    proved to carry out its step in StreamSpec. */
module StreamFile {
  import opened Bytes
  import opened AccessMethod
  import opened StreamSpec

  /** What Sane says about a changed record. */
  lemma DirtyFits(s: Stream)
    requires Sane(s) && s.dirty
    ensures s.vol.Ok() && s.vol.dcb.Update? && 0 < s.vol.next
    ensures s.endbuf <= |s.buf| && |Held(s)| <= s.vol.geo.Capacity()
  {
  }

  /** What Sane says about pending bytes. */
  lemma PendingFits(s: Stream)
    requires Sane(s) && s.open && s.dcbout
    ensures s.vol.Ok() && s.vol.dcb.Writes()
    ensures s.upto <= |s.buf| && s.upto <= s.endbuf <= s.vol.geo.Capacity() && |Pending(s)| <= s.vol.geo.Capacity()
  {
  }

  lemma CanClose(s: Stream)
    requires (Sane(s) || Shut(s)) && s.open
    ensures s.vol.Ok() && !s.vol.dcb.Closed?
  {
  }

  /** Updrec once the access method has answered. */
  lemma ChangeWritten(s: Stream, v: Volume, err: int)
    requires Sane(s) && s.dirty
    requires Awrite(s.vol, Packed(s.vol.geo, Held(s), FillByte(s))) == (v, err)
    ensures StreamSpec.Updrec(s) ==
            (if err != 0 then Failed(s.(vol := v).(dirty := false), err) else s.(vol := v).(dirty := false), err)
  {
    hide Awrite, Packed, Held, Sane;
  }

  /** One turn of the loop of __fgets(). */
  lemma LoopStep(s: Stream, room: nat, got: seq<byte>)
    requires Sane(s)
    ensures room == 0 ==> FgetsLoop(s, room, got) == (s, got, 0)
    ensures room > 0 ==> var (t, c) := StreamSpec.Fgetc(s);
      FgetsLoop(s, room, got) ==
      if c == EOF then (t, got, EOF) else if c == NL then (t, got + [NL], NL) else FgetsLoop(t, room - 1, got + [c])
  {
    hide StreamSpec.Fgetc;
  }

  /** How far one record more moves filepos. */
  function Added(s: Stream, newline: bool): nat {
    if s.kind.binary then 0 else Pad(s) + if newline then 0 else 1
  }

  /** WritePending once the access method has answered. */
  lemma PendingWritten(s: Stream, v: Volume, err: int, newline: bool)
    requires Sane(s) && s.open && s.dcbout
    requires Awrite(s.vol, Packed(s.vol.geo, Pending(s), FillByte(s))) == (v, err)
    ensures WritePending(s, newline) ==
            if err != 0 then (Failed(s.(vol := v), err).(upto := 0), err)
            else (s.(vol := v).(filepos := s.filepos + Added(s, newline)).(upto := 0), 0)
  {
    PendingFits(s);
    hide Awrite, Packed, Pending, Sane, Pad;
  }

  /** Where the data of a raw record lies: LRECL says it on F, the RDW on V, the
      access method on U. */
  method Locate(g: Geometry, raw: seq<byte>) returns (off: nat, read: nat)
    requires g.Shape() && g.RecordOk(raw)
    ensures off + read <= |raw| && raw[off..off + read] == RecordData(g, raw)
  {
    match g.recfm {
      case F => off, read := 0, g.lrecl;
      case V => off, read := 4, RdwLength(raw) - 4;
      case U => off, read := 0, |raw|;
    }
  }

  /** The length of a text record without its trailing NULs. */
  method TrimNul(data: seq<byte>) returns (read: nat)
    ensures read <= |data| && data[..read] == StripNul(data)
  {
    read := |data|;
    while read > 0 && data[read - 1] == 0
      invariant read <= |data| && StripNul(data) == StripNul(data[..read])
    {
      assert data[..read][..read - 1] == data[..read - 1];
      read := read - 1;
    }
  }

  class File {
    var kind: Kind
    var open: bool, posend: bool, dcbout: bool, extend: bool
    var enospc: bool, error: bool, eof: bool, updat: bool, dirty: bool
    var ungetch: int
    var filepos: nat
    var buf: array<byte>      // the record being read or written
    var upto: nat             // next byte of it
    var endbuf: nat           // its end
    const asmbuf: array<byte> // what is handed to the access method
    var errno: Errno
    var vol: Volume           // the data set behind the DCB

    ghost function View(): Stream
      reads this, buf
    {
      Stream(kind, open, posend, dcbout, extend, enospc, error, eof, updat, dirty,
             ungetch, filepos, buf[..], upto, endbuf, errno, vol)
    }

    ghost predicate Valid()
      reads this, buf, asmbuf
    {
      Sane(View()) && Buffers()
    }

    /** The two buffers are distinct, and a raw record fits the second. */
    ghost predicate Buffers()
      reads this
    {
      && vol.geo.Shape() && buf != asmbuf
      && asmbuf.Length >= vol.geo.Capacity() + 4 && asmbuf.Length >= vol.geo.lrecl
    }

    /** A new FILE with nothing open. */
    constructor (kind: Kind, posend: bool, dcbout: bool, extend: bool, vol: Volume)
      requires vol.geo.Shape()
      ensures View() == Stream(kind, false, posend, dcbout, extend, false, false, false, false, false,
                               -1, 0, [], 0, 0, NoErr, vol)
      ensures Buffers() && fresh(buf) && fresh(asmbuf)
    {
      this.kind, this.posend, this.dcbout, this.extend, this.vol := kind, posend, dcbout, extend, vol;
      open, enospc, error, eof, updat, dirty := false, false, false, false, false, false;
      ungetch, filepos, upto, endbuf, errno := -1, 0, 0, 0, NoErr;
      buf := new byte[0];
      asmbuf := new byte[vol.geo.Capacity() + 4 + vol.geo.lrecl](_ => 0);
      new;
      assert buf[..] == [];
    }

    /** Mark the stream after an access method failure. */
    method Fail(err: int)
      modifies this`error, this`enospc, this`errno
      ensures View() == Failed(old(View()), err)
    {
      error := true;
      if err == 12 { enospc := true; }
      errno := if err == 12 then ENOSPC else EIO;
    }

    /** len bytes of the record, filled up to LRECL. */
    method PutFixed(len: nat, fill: byte)
      requires buf != asmbuf && len <= buf.Length && len <= vol.geo.lrecl <= asmbuf.Length
      modifies asmbuf
      ensures asmbuf[..vol.geo.lrecl] == buf[..len] + Fill(fill, vol.geo.lrecl - len)
    {
      forall i | 0 <= i < vol.geo.lrecl { asmbuf[i] := fill; }
      forall i | 0 <= i < len { asmbuf[i] := buf[i]; }
    }

    /** len bytes of the record behind their RDW. */
    method PutVariable(len: nat)
      requires buf != asmbuf && len <= buf.Length && len <= 32756 && len + 4 <= asmbuf.Length
      modifies asmbuf
      ensures asmbuf[..len + 4] == Rdw(len) + buf[..len]
    {
      forall i | 0 <= i < len { asmbuf[4 + i] := buf[i]; }
      asmbuf[0], asmbuf[1], asmbuf[2], asmbuf[3] := (len + 4) / 256, (len + 4) % 256, 0, 0;
    }

    /** len bytes of the record as they are. */
    method PutPlain(len: nat)
      requires buf != asmbuf && len <= buf.Length && len <= asmbuf.Length
      modifies asmbuf
      ensures asmbuf[..len] == buf[..len]
    {
      forall i | 0 <= i < len { asmbuf[i] := buf[i]; }
    }

    /** Hand n bytes to the access method. */
    method Write(n: nat) returns (err: int)
      requires vol.Ok() && n <= asmbuf.Length && vol.geo.RecordOk(asmbuf[..n])
      requires vol.dcb.Writes() || (vol.dcb.Update? && 0 < vol.next)
      modifies this`vol
      ensures (vol, err) == old(Awrite(vol, asmbuf[..n])) && vol.geo == old(vol.geo)
    {
      var (v, e) := Awrite(vol, asmbuf[..n]);
      vol, err := v, e;
    }

    /** fixflush(): F is filled to LRECL, U is as long as its data, but not empty. */
    method Fixflush(fill: byte) returns (err: int)
      requires Valid() && open && dcbout && !vol.geo.recfm.V? && fill == FillByte(View())
      modifies asmbuf, this`vol
      ensures (vol, err) == old(Awrite(vol, Packed(vol.geo, Pending(View()), fill))) && Buffers()
    {
      PendingFits(View());
      hide RecordData, Awrite, Rdw, Sane;
      ghost var rec := Packed(vol.geo, Pending(View()), fill);
      var len := upto;
      if vol.geo.recfm.F? {
        PutFixed(len, fill);
        len := vol.geo.lrecl;
        assert asmbuf[..len] == rec;
      } else if len != 0 {
        PutPlain(len);
        assert asmbuf[..len] == rec;
      } else {
        asmbuf[0] := fill;
        len := 1;
        assert asmbuf[..len] == rec;
      }
      err := Write(len);
    }

    /** varflush(): the RDW in front of the data. */
    method Varflush() returns (err: int)
      requires Valid() && open && dcbout && vol.geo.recfm.V?
      modifies asmbuf, this`vol
      ensures (vol, err) == old(Awrite(vol, Packed(vol.geo, Pending(View()), FillByte(View())))) && Buffers()
    {
      PendingFits(View());
      hide RecordData, Awrite, Sane;
      PutVariable(upto);
      assert asmbuf[..upto + 4] == Packed(vol.geo, Pending(View()), FillByte(View()));
      err := Write(upto + 4);
    }

    /** updrec(), up to the write: the record changed in place, as long as it came. */
    method Rebuild() returns (lenwrite: nat)
      requires Valid() && dirty
      modifies asmbuf
      ensures lenwrite <= asmbuf.Length
      ensures asmbuf[..lenwrite] == old(Packed(vol.geo, Held(View()), FillByte(View())))
    {
      DirtyFits(View());
      hide RecordData, Awrite, Rdw, Sane;
      ghost var rec := Packed(vol.geo, Held(View()), FillByte(View()));
      var len := endbuf;
      if !kind.binary && len > 0 { len := len - 1; }
      assert buf[..len] == Held(View());
      var fill: byte := if kind.binary then 0 else BLANK;
      lenwrite := len;
      match vol.geo.recfm {
        case F =>
          PutFixed(len, fill);
          lenwrite := vol.geo.lrecl;
          assert asmbuf[..lenwrite] == rec;
        case V =>
          PutVariable(len);
          lenwrite := len + 4;
          assert asmbuf[..lenwrite] == rec;
        case U =>
          PutPlain(len);
          assert asmbuf[..lenwrite] == rec;
      }
    }

    /** The record changed in place to the access method. */
    method Rewrite() returns (err: int)
      requires Valid() && dirty
      modifies this`vol, asmbuf
      ensures (View().vol, err) == old(Awrite(vol, Packed(vol.geo, Held(View()), FillByte(View()))))
      ensures View() == old(View()).(vol := View().vol) && Buffers()
    {
      DirtyFits(View());
      hide Awrite, Packed, Sane;
      var lenwrite := Rebuild();
      err := Write(lenwrite);
    }

    /** updrec(). */
    method Updrec() returns (err: int)
      requires Valid() && dirty
      modifies asmbuf, this`vol, this`dirty, this`error, this`enospc, this`errno
      ensures View() == StreamSpec.Updrec(old(View())).0 && err == StreamSpec.Updrec(old(View())).1
      ensures Buffers()
    {
      DirtyFits(View());
      ghost var s := View();
      hide Awrite, Packed, Held, Sane, Valid, View, StreamSpec.Updrec, Failed;
      err := Rewrite();
      ChangeWritten(s, View().vol, err);
      Clean();
      if err != 0 { Fail(err); }
    }

    method Clean()
      modifies this`dirty
      ensures View() == old(View()).(dirty := false)
    {
      dirty := false;
    }

    /** The pending bytes to the access method. */
    method WriteOut() returns (err: int)
      requires Valid() && open && dcbout
      modifies this`vol, asmbuf
      ensures (View().vol, err) == old(Awrite(vol, Packed(vol.geo, Pending(View()), FillByte(View()))))
      ensures View() == old(View()).(vol := View().vol) && Buffers()
    {
      PendingFits(View());
      hide Awrite, Packed, Pending, Sane;
      if vol.geo.recfm.V? {
        err := Varflush();
      } else {
        err := Fixflush(if kind.binary then 0 else BLANK);
      }
    }

    /** flushrec() once there is something to write. */
    method WriteRecord(newline: bool) returns (err: int)
      requires Valid() && open && dcbout
      modifies asmbuf, this`vol, this`upto, this`filepos, this`error, this`enospc, this`errno
      ensures View() == WritePending(old(View()), newline).0 && err == WritePending(old(View()), newline).1
      ensures Buffers()
    {
      PendingFits(View());
      ghost var s := View();
      hide Awrite, Packed, Pending, Sane, Valid, View, WritePending, Added, Failed;
      err := WriteOut();
      PendingWritten(s, View().vol, err, newline);
      if err != 0 {
        Fail(err);
        Empty();
      } else {
        Count(newline);
        Empty();
      }
    }

    method Empty()
      modifies this`upto
      ensures View() == old(View()).(upto := 0)
    {
      upto := 0;
    }

    /** The byte view: count the record as it reads back. */
    method Count(newline: bool)
      modifies this`filepos
      ensures View() == old(View()).(filepos := old(filepos) + Added(old(View()), newline))
    {
      if !kind.binary {
        var pad := Padding();
        hide Pad;
        filepos := filepos + pad + if newline then 0 else 1;
      }
    }

    /** The fill bytes that the record reads back with. */
    method Padding() returns (pad: nat)
      ensures pad == Pad(View())
    {
      match vol.geo.recfm {
        case F => pad := if upto < vol.geo.lrecl then vol.geo.lrecl - upto else 0;
        case V => pad := 0;
        case U => pad := if upto == 0 then 1 else 0;
      }
    }

    /** flushrec(), under __fflush() and __fflnl(). */
    method Flushrec(newline: bool) returns (err: int)
      requires Valid()
      modifies asmbuf, this`vol, this`upto, this`filepos, this`dirty, this`error, this`enospc, this`errno
      ensures View() == FlushRec(old(View()), newline).0 && err == FlushRec(old(View()), newline).1
      ensures Valid()
    {
      hide WritePending, StreamSpec.Updrec;
      err := 0;
      if dirty {
        if error {
          dirty := false;
          err := if enospc then 12 else 8;
          errno := if enospc then ENOSPC else EIO;
        } else {
          err := Updrec();
        }
        return;
      }
      if !dcbout { return; }
      if upto == 0 && !newline { return; }
      if error {
        err := if enospc then 12 else 8;
        errno := if enospc then ENOSPC else EIO;
        upto := 0;
        return;
      }
      err := WriteRecord(newline);
    }

    // ---- reading -------------------------------------------------------------------

    /** The bytes of a record, and the newline that ends it on a text stream. */
    method SetRecord(data: seq<byte>)
      requires |data| < buf.Length
      modifies this`upto, this`endbuf, buf
      ensures upto == 0 && endbuf == |data| + (if kind.binary then 0 else 1)
      ensures buf[..] == Overlay(old(buf[..]), if kind.binary then data else data + [NL])
    {
      forall i | 0 <= i < |data| { buf[i] := data[i]; }
      upto := 0;
      endbuf := |data|;
      if !kind.binary {
        buf[endbuf] := NL;
        endbuf := endbuf + 1;
      }
    }

    /** The record just read goes into the buffer. */
    method LoadRecord(raw: seq<byte>)
      requires Valid() && open && !dcbout && !dirty && 0 < vol.next && vol.geo.RecordOk(raw)
      modifies this`upto, this`endbuf, buf
      ensures View() == Load(old(View()), raw)
    {
      var off, read := Locate(vol.geo, raw);
      var data := raw[off..off + read];
      if !kind.binary {
        read := TrimNul(data);
        data := data[..read];
      }
      hide RecordData, StripNul, Sane;
      SetRecord(data);
    }

    /** One __aread(): a record, the end of the data set, or an error. */
    method ReadRecord() returns (ok: bool)
      requires Valid() && open && !dcbout && !dirty
      modifies this`vol, this`error, this`errno, this`eof, this`upto, this`endbuf, buf
      ensures View() == Refill(old(View())).0 && ok == Refill(old(View())).1
      ensures Valid()
    {
      hide Load;
      var (v, rd) := Aread(vol);
      vol := v;
      match rd {
        case ReadError =>
          error, errno := true, EIO;
          ok := false;
        case EndOfFile =>
          eof := true;
          ok := false;
        case Record(raw) =>
          LoadRecord(raw);
          ok := true;
      }
    }

    /** __fgetc() on a DCB that reads, from the pushed-back character on. */
    method GetcBody() returns (c: int)
      requires Valid() && open && !dcbout
      modifies asmbuf, buf, this`vol, this`ungetch, this`filepos, this`upto, this`endbuf
      modifies this`error, this`enospc, this`errno, this`eof, this`dirty
      ensures View() == GetcHere(old(View())).0 && c == GetcHere(old(View())).1
      ensures Valid()
    {
      hide FlushRec, Refill, Take, Valid, Sane;
      SaneView();
      if ungetch != -1 {
        c := ungetch;
        PushBack(-1);
        return;
      }
      if eof { return EOF; }
      if upto >= endbuf {
        ghost var s := View();
        // a record that was written over goes back first
        if dirty {
          var err := Flushrec(false);
          if err != 0 { return EOF; }
        }
        assert FlushRec(s, false) == (View(), 0);
        var ok := ReadRecord();
        if !ok { return EOF; }
      } else {
        InsideRecord();
      }
      c := TakeByte();
    }

    /** The byte at upto. */
    method TakeByte() returns (c: int)
      requires Valid() && OnByte(View())
      modifies this`upto, this`filepos
      ensures View() == Take(old(View())).0 && c == Take(old(View())).1 && Valid()
    {
      c := buf[upto];
      upto := upto + 1;
      filepos := filepos + 1;
      hide Window;
    }

    // ---- opening and turning round ---------------------------------------------------

    /** The DCB opened, for __fpopen(). */
    method OpenDcb() returns (ok: bool)
      requires Shut(View())
      modifies this`vol, this`updat, this`dirty
      ensures View() == StreamSpec.OpenDcb(old(View())).0 && ok == StreamSpec.OpenDcb(old(View())).1
    {
      hide Aopen;
      var mode := Input;
      if dcbout {
        mode := if kind.append || extend then Extend else Output;
      } else if kind.write && !kind.append && !kind.member {
        mode := Update;
      }
      updat, dirty := false, false;
      var (v, done) := Aopen(vol, mode);
      if mode == Update && !done {
        // the device does not update in place
        var (w, done2) := Aopen(v, Input);
        vol, ok := w, done2;
      } else {
        if mode == Update { updat := true; }
        vol, ok := v, done;
      }
    }

    /** The FILE's own buffer, for __fpopen(). */
    method GetBuffer()
      requires Buffers()
      modifies this`open, this`ungetch, this`extend, this`buf, this`upto, this`endbuf
      ensures Buffers() && fresh(buf) && View() == Buffered(old(View()))
    {
      var i := vol.geo.Capacity();
      hide Fill;
      NewBuffer(i + 8);
      upto, endbuf := 0, if dcbout then i else 0;
      Opened();
    }

    method Opened()
      modifies this`open, this`ungetch, this`extend
      ensures View() == old(View()).(open := true, ungetch := -1, extend := old(extend) || (kind.Plus() && dcbout))
    {
      if kind.read && kind.write && dcbout { extend := true; }
      open, ungetch := true, -1;
    }

    method NewBuffer(n: nat)
      modifies this`buf
      ensures fresh(buf) && buf[..] == Fill(0, n)
    {
      buf := new byte[n](_ => 0);
      assert buf[..] == Fill(0, n);
    }

    /** __fpopen(). */
    method Fpopen() returns (err: int)
      requires Shut(View()) && Buffers()
      modifies this`vol, this`updat, this`dirty, this`errno, this`open, this`ungetch, this`extend
      modifies this`buf, this`upto, this`endbuf
      ensures View() == StreamSpec.Fpopen(old(View())).0 && err == StreamSpec.Fpopen(old(View())).1
      ensures Buffers() && (buf == old(buf) || fresh(buf))
    {
      hide StreamSpec.OpenDcb, Aclose, Buffered;
      var ok := OpenDcb();
      if !ok { return 1; }
      if kind.read && kind.write && !vol.geo.dasd {
        vol, updat, errno := Aclose(vol).0, false, EINVAL;
        return 1;
      }
      GetBuffer();
      err := 0;
    }

    /** The DCB closed, for redcb(). */
    method CloseDcb(out: bool) returns (lost: int)
      requires (Valid() || Shut(View())) && Buffers()
      modifies this`vol, this`buf, this`upto, this`endbuf, this`ungetch, this`open, this`dcbout, this`eof, this`errno
      ensures View() == StreamSpec.CloseDcb(old(View()), out).0 && lost == StreamSpec.CloseDcb(old(View()), out).1
      ensures Buffers() && fresh(buf)
    {
      hide Aclose, Sane, Shut;
      lost := 0;
      if open {
        CanClose(View());
        var (v, rc) := Aclose(vol);
        vol, lost := v, rc;
      }
      Reset(out);
    }

    method Reset(out: bool)
      requires Buffers()
      modifies this`buf, this`upto, this`endbuf, this`ungetch, this`open, this`dcbout, this`eof, this`errno
      ensures View() == old(View()).(buf := [], upto := 0, endbuf := 0, ungetch := -1, open := false,
                                     dcbout := out, eof := false, errno := NoErr)
      ensures Buffers() && fresh(buf)
    {
      NoBuffer();
      ungetch, open, dcbout, eof, errno := -1, false, out, false, NoErr;
    }

    method NoBuffer()
      requires Buffers()
      modifies this`buf, this`upto, this`endbuf
      ensures View() == old(View()).(buf := [], upto := 0, endbuf := 0)
      ensures Buffers() && fresh(buf)
    {
      upto, endbuf := 0, 0;
      hide Fill;
      NewBuffer(0);
      assert buf[..] == [];
    }

    /** redcb(): out of the one direction and into the other, or the same again. */
    method Redcb(out: bool) returns (rc: int)
      requires (Valid() || Shut(View())) && Buffers()
      modifies this
      ensures View() == StreamSpec.Redcb(old(View()), out).0 && rc == StreamSpec.Redcb(old(View()), out).1
      ensures Buffers() && fresh(buf)
    {
      hide StreamSpec.Fpopen, StreamSpec.CloseDcb, Sane;
      var lost := CloseDcb(out);
      var err := Fpopen();
      if err != 0 { return -1; }
      if lost != 0 {
        errno := if lost == 12 then ENOSPC else EIO;
        return 1;
      }
      rc := 0;
    }

    /** Characters are read and dropped until there are no more. */
    method ReadToEnd()
      requires Valid() && !dcbout
      modifies this, buf, asmbuf
      ensures View() == SkipAll(old(View()))
      ensures Valid() && (buf == old(buf) || fresh(buf))
      decreases 1
    {
      hide GetcReading, Sane;
      var c := 0;
      while c != EOF
        invariant Valid() && !dcbout && (buf == old(buf) || fresh(buf))
        invariant c != EOF ==> SkipAll(View()) == SkipAll(old(View()))
        invariant c == EOF ==> View() == SkipAll(old(View()))
        decreases c != EOF, |vol.recs| - vol.next, ungetch != -1, endbuf - upto
      {
        c := Fgetc();
      }
    }

    /** skipto(): the position of a DCB just opened; POSEND stands for the end. */
    method Skipto(pos: nat)
      requires Valid() && !dcbout
      modifies this, buf, asmbuf
      ensures View() == SkipTo(old(View()), pos)
      ensures Valid() && (buf == old(buf) || fresh(buf))
      decreases 2
    {
      SetPosition(0);
      hide SkipAll, SkipUntil, Sane, Valid;
      SaneView();
      if posend {
        ReadToEnd();
        ForgetEnd();
      } else {
        SkipForward(pos);
      }
    }

    method SkipForward(pos: nat)
      requires Valid() && !dcbout
      modifies this, buf, asmbuf
      ensures View() == SkipUntil(old(View()), pos)
      ensures Valid() && (buf == old(buf) || fresh(buf))
      decreases 1
    {
      hide GetcReading, Sane;
      var c := 0;
      while c != EOF && filepos < pos
        invariant Valid() && !dcbout && (buf == old(buf) || fresh(buf))
        invariant c != EOF ==> SkipUntil(View(), pos) == SkipUntil(old(View()), pos)
        invariant c == EOF ==> View() == SkipUntil(old(View()), pos)
        decreases c != EOF, |vol.recs| - vol.next, ungetch != -1, endbuf - upto
      {
        c := Fgetc();
      }
    }

    /** A failed reopen: a failed turn to writing keeps the stream readable. */
    method Recover(out: bool, pos: nat)
      requires Shut(View()) && Buffers() && !updat && !dirty && dcbout == out
      modifies this, buf, asmbuf
      ensures View() == StreamSpec.Recover(old(View()), out, pos)
      ensures Valid() && (buf == old(buf) || fresh(buf))
      decreases 3
    {
      hide StreamSpec.Redcb, SkipTo, Sane, Valid;
      var e := if errno == NoErr then EIO else errno;
      if out {
        var r := Redcb(false);
        if r == 0 {
          MakeValid();
          ForgetEnd();
          Skipto(pos);
          SaneView();
        }
      }
      Settle(e);
    }

    method ForgetEnd()
      requires Valid()
      modifies this`posend
      ensures View() == old(View()).(posend := false) && Valid()
    {
      posend := false;
      hide Window;
    }

    /** A stream that is not open is in error. */
    method Settle(e: Errno)
      requires (Sane(View()) || (Shut(View()) && !updat && !dirty && !dcbout)) && Buffers()
      modifies this`error, this`errno
      ensures View() == old(View()).(error := old(error) || !open, errno := e) && Valid()
    {
      if !open { error := true; }
      errno := e;
      hide Window;
    }

    /** The DCB is open the other way: put the position back. */
    method Reposition(out: bool, pos: nat)
      requires Valid() && dcbout == out
      modifies this, buf, asmbuf
      ensures View() == StreamSpec.Reposition(old(View()), out, pos)
      ensures Valid() && (buf == old(buf) || fresh(buf))
      decreases 3
    {
      hide SkipTo;
      if out { filepos := pos; } else { Skipto(pos); }
    }

    /** __fpswt(), from the flush on. */
    method Turn(out: bool, pos: nat) returns (rc: int)
      requires Valid()
      modifies this, buf, asmbuf
      ensures View() == StreamSpec.Turn(old(View()), out, pos).0 && rc == StreamSpec.Turn(old(View()), out, pos).1
      ensures Valid() && (buf == old(buf) || fresh(buf))
      decreases 4
    {
      hide FlushRec, StreamSpec.Redcb, StreamSpec.Recover, StreamSpec.Reposition, Valid, Sane, Buffers;
      SaneView();
      var err := Flushrec(false);
      SaneView();
      if err != 0 { return -1; }
      var r := Redcb(out);
      if r == -1 {
        Recover(out, pos);
        return -1;
      }
      var e := errno;
      MakeValid();
      Reposition(out, pos);
      if r == 0 { return 0; }
      LostBlock(e);
      rc := -1;
    }

    /** The stream reads or writes again, but the CLOSE before that failed. */
    method LostBlock(e: Errno)
      requires Valid()
      modifies this`error, this`enospc, this`errno
      ensures View() == old(View()).(error := true, enospc := old(enospc) || e == ENOSPC, errno := e) && Valid()
    {
      error := true;
      if e == ENOSPC { enospc := true; }
      errno := e;
      hide Window;
    }

    /** The byte that was only looked at goes back where it came from. */
    method Unread(had: bool, c: int)
      requires Valid() && open && !dcbout && (!had ==> 0 < upto && 0 < filepos) && -1 <= c < 256
      modifies this`ungetch, this`upto, this`filepos, this`errno
      ensures View() == (if had then old(View()).(ungetch := c) else PutBack(old(View()))).(errno := EOPNOTSUPP)
      ensures Valid()
    {
      hide Valid, Sane, Window;
      SaneView();
      if had { PushBack(c); } else { Back(); }
      SetErrno(EOPNOTSUPP);
    }

    method PushBack(c: int)
      requires Valid() && -1 <= c < 256 && (open || c == -1)
      modifies this`ungetch
      ensures View() == old(View()).(ungetch := c) && Valid()
    {
      ungetch := c;
      hide Window;
    }

    method SetErrno(e: Errno)
      requires Valid()
      modifies this`errno
      ensures View() == old(View()).(errno := e) && Valid()
    {
      errno := e;
      hide Window;
    }

    /** __fpswt(): turn the DCB round. */
    method Fpswt(out: bool) returns (rc: int)
      requires Valid() && (out ==> !dcbout)
      modifies this, buf, asmbuf
      ensures View() == StreamSpec.Fpswt(old(View()), out).0 && rc == StreamSpec.Fpswt(old(View()), out).1
      ensures Valid() && (buf == old(buf) || fresh(buf))
      decreases 5
    {
      hide StreamSpec.Turn, SkipAll, GetcReading;
      if !open {
        errno := EBADF;
        return -1;
      }
      if out {
        if kind.member {
          errno := EOPNOTSUPP;
          return -1;
        }
        if kind.append && !eof {
          ReadToEnd();
          if error { return -1; }
        } else if !kind.append && !eof {
          // at the end or not: one byte tells
          var had := ungetch != -1;
          var c := Fgetc();
          if error { return -1; }
          if c != EOF {
            Unread(had, c);
            return -1;
          }
        }
      }
      rc := Turn(out, filepos);
    }

    /** __fgetc(): __fpswt() turns a writing DCB round, and reads through here. */
    method Fgetc() returns (c: int)
      requires Valid()
      modifies this, buf, asmbuf
      ensures View() == StreamSpec.Fgetc(old(View())).0 && c == StreamSpec.Fgetc(old(View())).1
      ensures Valid() && (buf == old(buf) || fresh(buf))
      decreases if dcbout then 6 else 0
    {
      hide StreamSpec.Fpswt, GetcHere;
      c := EOF;
      if !kind.read {
        errno := EBADF;
        return;
      }
      if error {
        errno := EIO;
        return;
      }
      if dcbout {
        var rc := Fpswt(false);
        if rc != 0 { return; }
      }
      c := GetcBody();
    }

    // ---- writing bytes -----------------------------------------------------------------

    /** __fpupc() once the record that holds the position is in the buffer. */
    method WriteOver(c: byte) returns (rc: int)
      requires Valid() && OnByte(View()) && updat
      modifies buf, this`upto, this`filepos, this`dirty, this`errno
      ensures View() == Over(old(View()), c).0 && rc == Over(old(View()), c).1
      ensures Valid()
    {
      hide PutByte, Blanked, Window;
      var last := if kind.binary then endbuf else endbuf - 1;
      if !kind.binary && upto >= last {
        if c == NL {
          upto, filepos := upto + 1, filepos + 1;
          return 0;
        }
        errno := EOPNOTSUPP;
        return -1;
      }
      if !kind.binary && c == NL {
        if !vol.geo.recfm.F? {
          errno := EOPNOTSUPP;
          return -1;
        }
        BlankRest();
        return 0;
      }
      OverByte(c);
      rc := 0;
    }

    /** One byte of the record, replaced. */
    method OverByte(c: byte)
      requires Valid() && OnByte(View()) && updat
      modifies buf, this`upto, this`filepos, this`dirty
      ensures View() == PutByte(old(View()), c)
    {
      AddByte(c);
      dirty := true;
    }

    /** A newline inside an F record: the rest of it becomes blanks. */
    method BlankRest()
      requires Valid() && OnByte(View()) && updat && !kind.binary
      modifies buf, this`upto, this`filepos, this`dirty
      ensures View() == Blanked(old(View()))
    {
      var last := endbuf - 1;
      forall i | upto <= i < last { buf[i] := BLANK; }
      assert buf[..] == BlankOut(old(buf[..]), upto, last);
      filepos := filepos + (endbuf - upto);
      upto := endbuf;
      dirty := true;
    }

    /** __fpupc(): 0 written over, 1 the DCB now writes at the end, -1 refused. */
    method Fpupc(c: byte) returns (rc: int)
      requires Valid() && !dcbout && updat
      modifies this, buf, asmbuf
      ensures View() == StreamSpec.Fpupc(old(View()), c).0 && rc == StreamSpec.Fpupc(old(View()), c).1
      ensures Valid() && (buf == old(buf) || fresh(buf))
    {
      PushBack(-1);
      hide StreamSpec.Fgetc, StreamSpec.Fpswt, Over, GetcReading, Valid, Sane;
      SaneView();
      if upto < endbuf {
        InsideRecord();
        rc := WriteOver(c);
        return;
      }
      // between two records
      var k := Fgetc();
      SaneView();
      if error { return -1; }
      if k == EOF {
        rc := Fpswt(true);
        return if rc != 0 then -1 else 1;
      }
      Back();
      rc := WriteOver(c);
    }

    lemma InsideRecord()
      requires Valid() && !dcbout && upto < endbuf
      ensures open ==> OnByte(View())
    {
    }

    /** The byte just read goes back. */
    method Back()
      requires Valid() && open && !dcbout && 0 < upto && 0 < filepos
      modifies this`upto, this`filepos
      ensures View() == PutBack(old(View())) && Valid()
    {
      upto, filepos := upto - 1, filepos - 1;
      hide Window;
    }

    /** __fputc() on a DCB that writes. */
    method PutPending(c: byte) returns (r: int)
      requires Valid() && open && dcbout
      modifies asmbuf, buf, this`vol, this`upto, this`filepos, this`dirty, this`error, this`enospc, this`errno
      ensures View() == Append(old(View()), c).0 && r == Append(old(View()), c).1
      ensures Valid()
    {
      hide FlushRec, Sane, Valid, Pend;
      SaneView();
      if !kind.binary && c == NL {
        SetPosition(filepos + 1);
        var err := Flushrec(true);
        r := if err != 0 then EOF else c;
        return;
      }
      ghost var s := View();
      if upto == endbuf {
        var err := Flushrec(false);
        if err != 0 { return EOF; }
      }
      assert MakeRoom(s) == (View(), 0);
      PutNext(c);
      r := c;
    }

    /** One more pending byte. */
    method PutNext(c: byte)
      requires Valid() && open && dcbout && upto < endbuf
      modifies buf, this`upto, this`filepos
      ensures View() == Pend(old(View()), c) && Valid()
    {
      hide Window;
      AddByte(c);
    }

    method AddByte(c: byte)
      requires upto < buf.Length
      modifies buf, this`upto, this`filepos
      ensures buf[..] == old(buf[..])[old(upto) := c] && upto == old(upto) + 1 && filepos == old(filepos) + 1
    {
      buf[upto] := c;
      upto, filepos := upto + 1, filepos + 1;
    }

    /** __fputc(). */
    method Fputc(c: byte) returns (r: int)
      requires Valid()
      modifies this, buf, asmbuf
      ensures View() == StreamSpec.Fputc(old(View()), c).0 && r == StreamSpec.Fputc(old(View()), c).1
      ensures Valid() && (buf == old(buf) || fresh(buf))
    {
      hide Append, StreamSpec.Fpupc, StreamSpec.Fpswt;
      if !kind.write {
        errno := EBADF;
        return EOF;
      }
      if error {
        errno := if enospc then ENOSPC else EIO;
        return EOF;
      }
      if !dcbout {
        if updat {
          var rc := Fpupc(c);
          if rc < 0 { return EOF; }
          if rc == 0 { return c; }
        } else {
          var rc := Fpswt(true);
          if rc != 0 { return EOF; }
        }
      }
      r := PutPending(c);
    }

    // ---- lines and positions --------------------------------------------------------------

    lemma SaneView()
      requires Valid()
      ensures Sane(View()) && Buffers()
    {
    }

    lemma MakeValid()
      requires Sane(View()) && Buffers()
      ensures Valid()
    {
    }

    /** The loop of __fgets(): cnt characters in s, and the last one read. */
    method GetLine(s: array<byte>, room: nat) returns (cnt: nat, c: int)
      requires Valid() && room <= s.Length && s != buf && s != asmbuf
      modifies this, buf, asmbuf, s
      ensures Valid() && (buf == old(buf) || fresh(buf)) && cnt <= room
      ensures var r := FgetsLoop(old(View()), room, []);
        && View() == r.0 && s[..cnt] == r.1
        && (c == EOF <==> r.2 == EOF)
    {
      hide StreamSpec.Fgetc, Valid, View, Sane, FgetsLoop;
      cnt, c := 0, 0;
      SaneView();
      ghost var r := FgetsLoop(View(), room, []);
      assert s[..0] == [];
      while c != EOF && c != NL && cnt < room
        invariant Valid() && Sane(View()) && (buf == old(buf) || fresh(buf)) && s != buf
        invariant 0 <= cnt <= room
        invariant if c == EOF || c == NL then r.0 == View() && r.1 == s[..cnt] && r.2 == c
                  else r == FgetsLoop(View(), room - cnt, s[..cnt])
        decreases c != EOF && c != NL, room - cnt
      {
        LoopStep(View(), room - cnt, s[..cnt]);
        c := Fgetc();
        SaneView();
        if c != EOF {
          ghost var before := s[..cnt];
          s[cnt] := c;
          assert s[..cnt + 1] == before + [c];
          cnt := cnt + 1;
        }
      }
      if c != EOF && c != NL { LoopStep(View(), 0, s[..cnt]); }
    }

    /** __fgets(): true for the line in s, false for a null pointer. */
    method Fgets(s: array<byte>, n: int) returns (ok: bool)
      requires Valid() && n <= s.Length && s != buf && s != asmbuf
      modifies this, buf, asmbuf, s
      ensures View() == StreamSpec.Fgets(old(View()), n).0
      ensures Valid() && (buf == old(buf) || fresh(buf))
      ensures ok <==> StreamSpec.Fgets(old(View()), n).1.Line?
      ensures ok ==> var line := StreamSpec.Fgets(old(View()), n).1.chars;
                     |line| < n && s[..|line|] == line && s[|line|] == 0
    {
      if eof || n < 1 { return false; }
      hide FgetsLoop, Valid, View;
      var cnt, c := GetLine(s, n - 1);
      ghost var line := s[..cnt];
      if cnt == 0 && c == EOF { return false; }
      s[cnt] := 0;
      assert s[..cnt] == line;
      ok := true;
    }

    /** The end of plusseek(): a target past the end leaves the stream there. */
    method CheckArrival(target: nat) returns (rc: int)
      requires Valid()
      modifies this`eof, this`errno
      ensures View() == Arrived(old(View()), target).0 && rc == Arrived(old(View()), target).1
      ensures Valid()
    {
      rc := 0;
      if filepos != target {
        errno := EINVAL;
        rc := -1;
      }
      eof := false;
    }

    /** plusseek() once the target is known. */
    method MoveTo(target: nat) returns (rc: int)
      requires Valid()
      modifies this, buf, asmbuf
      ensures View() == StreamSpec.MoveTo(old(View()), target).0 && rc == StreamSpec.MoveTo(old(View()), target).1
      ensures Valid() && (buf == old(buf) || fresh(buf))
    {
      hide SkipUntil, StreamSpec.Fpswt, Arrived, Valid, Sane, StepBack;
      SaneView();
      if target == filepos { return 0; }
      if !dcbout {
        if target > filepos {
          SkipForward(target);
          rc := CheckArrival(target);
          return;
        }
        if ungetch == -1 && target >= filepos - upto {
          GoBack(target);
          return 0;
        }
      }
      SetPosition(target);
      rc := Fpswt(false);
      if rc != 0 { return -1; }
      rc := CheckArrival(target);
    }

    method GoBack(target: nat)
      requires Valid() && !dcbout && target <= filepos <= target + upto
      modifies this`upto, this`filepos
      ensures View() == StepBack(old(View()), old(filepos) - target) && Valid()
    {
      upto := upto - (filepos - target);
      filepos := target;
      hide Window;
    }

    method SetPosition(target: nat)
      requires Valid()
      modifies this`filepos
      ensures View() == old(View()).(filepos := target) && Valid()
    {
      filepos := target;
      hide Window;
    }

    /** Where plusseek() counts from: the end, read to and counted. */
    method GoToEnd() returns (rc: int)
      requires Valid()
      modifies this, buf, asmbuf
      ensures View() == AtEnd(old(View())).0 && rc == AtEnd(old(View())).1
      ensures Valid() && (buf == old(buf) || fresh(buf))
    {
      hide SkipAll, StreamSpec.Fpswt;
      rc := 0;
      if posend {
        rc := Fpswt(false);
        if rc != 0 { return; }
      } else if !dcbout {
        ReadToEnd();
      }
      eof := false;
    }

    /** plusseek(). */
    method Plusseek(offset: int, whence: int) returns (rc: int)
      requires Valid()
      modifies this, buf, asmbuf
      ensures View() == StreamSpec.Plusseek(old(View()), offset, whence).0
      ensures rc == StreamSpec.Plusseek(old(View()), offset, whence).1
      ensures Valid() && (buf == old(buf) || fresh(buf))
    {
      hide AtEnd, StreamSpec.MoveTo, Sane;
      var known := whence in {SEEK_SET, SEEK_CUR, SEEK_END};
      if dcbout && !posend {
        var here := if whence == SEEK_SET then offset else filepos + offset;
        if known && here == filepos { return 0; }
      }
      if posend || whence == SEEK_END {
        rc := GoToEnd();
        if rc != 0 { return -1; }
      }
      var target := if whence == SEEK_SET then offset else filepos + offset;
      if !known || target < 0 {
        errno := EINVAL;
        return -1;
      }
      rc := MoveTo(target);
    }

    /** plusseek() on a stream that is not open, where it does not get as far as reading. */
    method PlusseekShut(offset: int, whence: int) returns (rc: int)
      requires !open && !dcbout && Emptied(View()) && StreamSpec.PlusseekShut(View(), offset, whence).Stays?
      modifies this`filepos, this`errno
      ensures StreamSpec.PlusseekShut(old(View()), offset, whence) == Stays(filepos, errno, rc)
    {
      if posend {
        errno := EBADF;
        return -1;
      }
      var target := if whence == SEEK_SET then offset else filepos + offset;
      if whence !in {SEEK_SET, SEEK_CUR, SEEK_END} || target < 0 {
        errno := EINVAL;
        return -1;
      }
      if target == filepos { return 0; }
      if target > filepos {
        errno := EINVAL;
        return -1;
      }
      filepos := target;
      errno := EBADF;
      rc := -1;
    }

    /** fseek() of a '+' stream: the indicators are clear while __fseek() works, and the
        error is put back behind it. */
    method Fseek(offset: int, whence: int) returns (rc: int)
      requires Valid() && kind.Plus() && StreamSpec.Fseek(View(), offset, whence).Did?
      modifies this, buf, asmbuf
      ensures Did(View(), rc) == StreamSpec.Fseek(old(View()), offset, whence)
      ensures Valid() && (buf == old(buf) || fresh(buf))
    {
      if open { rc := SeekOpened(offset, whence); } else { rc := SeekShut(offset, whence); }
    }

    method SeekOpened(offset: int, whence: int) returns (rc: int)
      requires Valid() && open
      modifies this, buf, asmbuf
      ensures (View(), rc) == SeekOpen(old(View()), offset, whence)
      ensures Valid() && (buf == old(buf) || fresh(buf))
    {
      var heldError, heldEnospc := error, enospc;
      ghost var s := View();
      ClearFlags();
      hide StreamSpec.Plusseek, Valid, View, Sane, Buffers;
      SaneView();
      rc := Plusseek(offset, whence);
      SaneView();
      if rc == 0 { PushBack(-1); }
      PutBackError(heldError, heldEnospc, s);
    }

    method SeekShut(offset: int, whence: int) returns (rc: int)
      requires Valid() && !open && kind.Plus() && StreamSpec.Fseek(View(), offset, whence).Did?
      modifies this
      ensures Did(View(), rc) == StreamSpec.Fseek(old(View()), offset, whence)
      ensures Valid() && buf == old(buf)
    {
      CanSeek(View());
      ghost var s := View();
      var heldEnospc := enospc;
      error, enospc, eof := false, false, false;
      rc := PlusseekShut(offset, whence);
      error, enospc := true, heldEnospc;
      ShutSane(s, filepos, errno);
    }

    method ClearFlags()
      requires Valid() && open
      modifies this`error, this`enospc, this`eof
      ensures View() == old(View()).(error := false, enospc := false, eof := false) && Valid()
    {
      error, enospc, eof := false, false, false;
      hide Window;
    }

    method PutBackError(heldError: bool, heldEnospc: bool, ghost s: Stream)
      requires Valid() && heldError == s.error && heldEnospc == s.enospc
      modifies this`error, this`enospc
      ensures View() == Restored(s, old(View())) && Valid()
    {
      error, enospc := error || heldError, enospc || heldEnospc;
      hide Window;
    }
  }
}
