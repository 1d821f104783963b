/** Every device, up to the first failure it lets the program see: until then the calls
    return what they return on a device that never fails. */
module StreamTapes {
  import opened Bytes
  import opened AccessMethod
  import opened StreamSpec
  import opened StreamRefines
  import opened StreamOpen
  import opened StreamRuns
  import opened StreamTheorems
  import D = Doc

  /** The answers in front of the first failure. */
  function Good(answers: seq<Answer>): (r: seq<Answer>)
    ensures NoFailure(r)
  {
    if answers == [] || !answers[0].Fine? then [] else [answers[0]] + Good(answers[1..])
  }

  function CalmVolume(v: Volume): Volume { v.(answers := Good(v.answers)) }

  /** The same stream on a device that does not fail where this one does. */
  function Calm(s: Stream): (t: Stream)
    ensures Sane(s) ==> Sane(t)
    ensures Shut(s) ==> Shut(t)
    ensures SameKind(s, t)
  {
    s.(vol := CalmVolume(s.vol))
  }

  lemma CalmFlags(s: Stream, eof: bool, e: Errno)
    ensures Calm(s.(eof := eof, errno := e)) == Calm(s).(eof := eof, errno := e)
    ensures Calm(s).filepos == s.filepos && Calm(s).errno == s.errno && Calm(s).eof == s.eof
  {
    hide Good, Sane, SameKind, Shut;
  }

  /** Everything but the answers to come is the same. */
  lemma CalmBase(s: Stream)
    ensures var c := Calm(s);
      && c.kind == s.kind && c.open == s.open && c.posend == s.posend && c.dcbout == s.dcbout && c.extend == s.extend
      && c.enospc == s.enospc && c.error == s.error && c.eof == s.eof && c.updat == s.updat && c.dirty == s.dirty
      && c.ungetch == s.ungetch && c.filepos == s.filepos && c.buf == s.buf && c.upto == s.upto
      && c.endbuf == s.endbuf && c.errno == s.errno && c.vol.geo == s.vol.geo
  {
    hide Good, Sane, SameKind, Shut;
  }

  lemma CalmAt(s: Stream, pos: nat, c: int)
    ensures Calm(s.(filepos := pos)) == Calm(s).(filepos := pos)
    ensures Calm(s.(ungetch := c)) == Calm(s).(ungetch := c)
  {
    hide Good, Sane, SameKind, Shut;
  }

  lemma CalmErrors(s: Stream, error: bool, enospc: bool)
    ensures Calm(s.(error := error, enospc := enospc)) == Calm(s).(error := error, enospc := enospc)
    ensures Calm(s.(error := error, enospc := enospc, eof := false)) ==
            Calm(s).(error := error, enospc := enospc, eof := false)
  {
    hide Good, Sane, SameKind, Shut;
  }

  lemma GoodHead(v: Volume)
    requires v.Head().Fine?
    ensures CalmVolume(v).Head() == v.Head() && CalmVolume(v).Rest() == Good(v.Rest())
  {
  }

  // ---- the access method -----------------------------------------------------------

  lemma AwriteCalm(v: Volume, rec: seq<byte>)
    requires v.Ok() && v.geo.RecordOk(rec) && (v.dcb.Writes() || v.dcb.Update?) && Awrite(v, rec).1 == 0
    ensures Awrite(CalmVolume(v), rec) == (CalmVolume(Awrite(v, rec).0), 0)
  {
    hide Good;
    GoodHead(v);
  }

  lemma AreadCalm(v: Volume)
    requires v.Ok() && v.dcb.Reads() && !Aread(v).1.ReadError?
    ensures Aread(CalmVolume(v)) == (CalmVolume(Aread(v).0), Aread(v).1)
  {
    hide Good;
    GoodHead(v);
  }

  lemma AopenCalm(v: Volume, how: Dcb)
    requires v.Ok() && v.dcb.Closed? && !how.Closed?
    requires Aopen(v, how).1 || (how.Update? && !v.geo.updatable)
    ensures Aopen(CalmVolume(v), how) == (CalmVolume(Aopen(v, how).0), Aopen(v, how).1)
  {
    hide Good;
    if Aopen(v, how).1 { GoodHead(v); }
  }

  lemma AcloseCalm(v: Volume)
    requires v.Ok() && !v.dcb.Closed? && Aclose(v).1 == 0
    ensures Aclose(CalmVolume(v)) == (CalmVolume(Aclose(v).0), 0)
  {
    hide Good;
    GoodHead(v);
  }

  // ---- records ---------------------------------------------------------------------

  /** c, on the calm device, is what r is on this one. */
  predicate Same(c: (Stream, int), r: (Stream, int)) { c == (Calm(r.0), r.1) }

  lemma UpdrecCalm(s: Stream)
    requires Sane(s) && s.dirty && Updrec(s).1 == 0
    ensures Same(Updrec(Calm(s)), Updrec(s))
  {
    hide Awrite, Packed, Good;
    assert Held(Calm(s)) == Held(s);
    AwriteCalm(s.vol, Packed(s.vol.geo, Held(s), FillByte(s)));
  }

  lemma WritePendingCalm(s: Stream, newline: bool)
    requires Sane(s) && s.open && s.dcbout && WritePending(s, newline).1 == 0
    ensures Same(WritePending(Calm(s), newline), WritePending(s, newline))
  {
    hide Awrite, Packed, Good;
    assert Pending(Calm(s)) == Pending(s) && Pad(Calm(s)) == Pad(s);
    AwriteCalm(s.vol, Packed(s.vol.geo, Pending(s), FillByte(s)));
  }

  lemma DropCalm(s: Stream, e: Errno)
    ensures Calm(s.(dirty := false, errno := e)) == Calm(s).(dirty := false, errno := e)
    ensures Calm(s.(upto := 0, errno := e)) == Calm(s).(upto := 0, errno := e)
  {
    hide Good, Sane, SameKind, Shut;
  }

  lemma FlushCalm(s: Stream, newline: bool)
    requires Sane(s)
    ensures var r := FlushRec(s, newline); Same(FlushRec(Calm(s), newline), r) || (r.1 != 0 && r.0.error)
  {
    hide Updrec, WritePending, Calm, Sane, SameKind, Shut;
    SaneDrop(s, NoErr);
    CalmBase(s);
    DropCalm(s, FailErrno(s));
    if s.dirty && !s.error && FlushRec(s, newline).1 == 0 { UpdrecCalm(s); }
    if !s.dirty && s.dcbout && !(s.upto == 0 && !newline) && !s.error && FlushRec(s, newline).1 == 0 {
      WritePendingCalm(s, newline);
    }
  }

  lemma LoadCalm(s: Stream, raw: seq<byte>)
    requires Sane(s) && s.open && !s.dcbout && !s.dirty && 0 < s.vol.next && s.vol.geo.RecordOk(raw)
    ensures Load(Calm(s), raw) == Calm(Load(s, raw))
  {
    hide Good, RecordView;
  }

  predicate CanRead(s: Stream) { Sane(s) && s.open && !s.dcbout && !s.dirty }

  lemma CanReadFacts(s: Stream)
    requires CanRead(s)
    ensures s.vol.Ok() && s.vol.dcb.Reads() && CanRead(Calm(s))
  {
    hide Good;
  }

  lemma RefillEnd(s: Stream)
    requires CanRead(s) && s.vol.Ok() && s.vol.dcb.Reads() && Aread(s.vol).1.EndOfFile?
    ensures Refill(s) == (s.(vol := Aread(s.vol).0, eof := true), false)
  {
    hide Aread, Load, Sane;
  }

  lemma RefillRecord(s: Stream)
    requires CanRead(s) && s.vol.Ok() && s.vol.dcb.Reads() && Aread(s.vol).1.Record?
    ensures var (v, rd) := Aread(s.vol); var t := s.(vol := v);
      CanRead(t) && 0 < v.next && v.geo.RecordOk(rd.data) && Refill(s) == (Load(t, rd.data), true)
  {
    SaneVolume(s, Aread(s.vol).0);
    hide Load, Sane;
  }

  lemma RefillFails(s: Stream)
    requires CanRead(s) && s.vol.Ok() && s.vol.dcb.Reads() && Aread(s.vol).1.ReadError?
    ensures Refill(s).0.error
  {
    hide Aread, Load, Sane;
  }

  lemma RefillCalm(s: Stream)
    requires CanRead(s)
    ensures var r := Refill(s); Refill(Calm(s)) == (Calm(r.0), r.1) || r.0.error
  {
    CanReadFacts(s);
    CanReadFacts(Calm(s));
    hide Aread, Load, Good, Sane, Refill, CanRead;
    if Aread(s.vol).1.ReadError? {
      RefillFails(s);
    } else {
      AreadCalm(s.vol);
      if Aread(s.vol).1.EndOfFile? {
        RefillEnd(s);
        RefillEnd(Calm(s));
      } else {
        RefillRecord(s);
        RefillRecord(Calm(s));
        RefillLoads(s);
      }
    }
  }

  lemma RefillLoads(s: Stream)
    requires CanRead(s) && s.vol.Ok() && s.vol.dcb.Reads() && Aread(s.vol).1.Record?
    ensures var (v, rd) := Aread(s.vol); var t := s.(vol := v);
      && CanRead(t) && 0 < v.next && v.geo.RecordOk(rd.data)
      && Calm(t) == Calm(s).(vol := CalmVolume(v)) && Load(Calm(t), rd.data) == Calm(Load(t, rd.data))
  {
    hide Load, Good, Refill, Aread;
    RefillRecord(s);
    LoadCalm(s.(vol := Aread(s.vol).0), Aread(s.vol).1.data);
  }

  lemma TakeCalm(s: Stream)
    requires OnByte(s)
    ensures OnByte(Calm(s)) && Same(Take(Calm(s)), Take(s))
  {
    hide Good;
  }

  lemma GetcHereCalm(s: Stream)
    requires Sane(s) && s.open && !s.dcbout
    ensures var r := GetcHere(s); Same(GetcHere(Calm(s)), r) || r.0.error
  {
    hide FlushRec, Refill, Take, Good, Sane, OnByte, Closer;
    InsideWindow(s);
    if s.ungetch != -1 || s.eof {
    } else if s.upto < s.endbuf {
      TakeCalm(s);
    } else {
      NextRecordCalm(s);
    }
  }

  lemma NextRecordCalm(s: Stream)
    requires Sane(s) && s.open && !s.dcbout && s.ungetch == -1 && !s.eof && s.endbuf <= s.upto
    ensures var r := GetcHere(s); Same(GetcHere(Calm(s)), r) || r.0.error
  {
    hide FlushRec, Refill, Take, Good, Sane, OnByte, Closer;
    FlushCalm(s, false);
    var (t, err) := FlushRec(s, false);
    if err == 0 {
      RefillCalm(t);
      var (u, ok) := Refill(t);
      if ok { TakeCalm(u); TakeError(u); }
    }
  }

  lemma TakeError(s: Stream)
    requires OnByte(s)
    ensures Take(s).0.error == s.error
  {
  }

  lemma GetcReadingCalm(s: Stream)
    requires Sane(s) && !s.dcbout
    ensures var r := GetcReading(s); Same(GetcReading(Calm(s)), r) || r.0.error
  {
    hide GetcHere, Good, Sane;
    StaysSane(s, EIO);
    if s.kind.read && !s.error { GetcHereCalm(s); }
  }

  /** The error flag stays, and ends a loop of reads. */
  lemma {:induction false} SkipAllError(s: Stream)
    requires Sane(s) && !s.dcbout && s.error
    ensures SkipAll(s).error
  {
    hide GetcHere, Sane;
    assert GetcReading(s).1 == EOF;
  }

  lemma {:induction false} SkipUntilError(s: Stream, pos: nat)
    requires Sane(s) && !s.dcbout && s.error
    ensures SkipUntil(s, pos).error
  {
    hide GetcHere, Sane;
    assert GetcReading(s).1 == EOF;
  }

  lemma NextInside(s: Stream)
    requires Sane(s)
    ensures s.vol.next <= |s.vol.recs|
  {
  }

  lemma {:induction false} SkipAllCalm(s: Stream)
    requires Sane(s) && !s.dcbout
    ensures SkipAll(Calm(s)) == Calm(SkipAll(s)) || SkipAll(s).error
    decreases |s.vol.recs| - s.vol.next, s.ungetch != -1, s.endbuf - s.upto
  {
    hide GetcReading, Good, Sane;
    GetcReadingCalm(s);
    var (t, c) := GetcReading(s);
    NextInside(s);
    NextInside(t);
    if t.error { SkipAllError(t); } else if c != EOF { SkipAllCalm(t); }
  }

  lemma {:induction false} SkipUntilCalm(s: Stream, pos: nat)
    requires Sane(s) && !s.dcbout
    ensures SkipUntil(Calm(s), pos) == Calm(SkipUntil(s, pos)) || SkipUntil(s, pos).error
    decreases |s.vol.recs| - s.vol.next, s.ungetch != -1, s.endbuf - s.upto
  {
    hide GetcReading, Good, Sane;
    if s.filepos < pos {
      GetcReadingCalm(s);
      var (t, c) := GetcReading(s);
      NextInside(s);
      NextInside(t);
      if t.error { SkipUntilError(t, pos); } else if c != EOF { SkipUntilCalm(t, pos); }
    }
  }

  lemma SaneAt(s: Stream)
    requires Sane(s)
    ensures Sane(s.(filepos := 0))
  {
  }

  lemma SkipToCalm(s: Stream, pos: nat)
    requires Sane(s) && !s.dcbout
    ensures SkipTo(Calm(s), pos) == Calm(SkipTo(s, pos)) || SkipTo(s, pos).error
  {
    hide SkipAll, SkipUntil, Good, Sane;
    var z := s.(filepos := 0);
    SaneAt(s);
    assert Calm(z) == Calm(s).(filepos := 0);
    if s.posend { EndCalm(s, pos); } else { SkipUntilCalm(z, pos); }
  }

  lemma EndCalm(s: Stream, pos: nat)
    requires Sane(s) && !s.dcbout && s.posend
    ensures SkipTo(Calm(s), pos) == Calm(SkipTo(s, pos)) || SkipTo(s, pos).error
  {
    hide SkipAll, SkipUntil, Good, Sane;
    var z := s.(filepos := 0);
    SaneAt(s);
    SkipAllCalm(z);
    var t := SkipAll(z);
    assert Calm(z) == Calm(s).(filepos := 0);
    assert Calm(t.(posend := false)) == Calm(t).(posend := false);
  }

  // ---- turning round ---------------------------------------------------------------

  /** A stream that reads through INPUT although its device takes UPDAT. */
  predicate Fell(s: Stream) {
    && !s.dcbout && !s.updat && s.kind.write && !s.kind.append && !s.kind.member && s.vol.geo.updatable
  }

  lemma OpenAsCalm(s: Stream)
    requires Shut(s) && (OpenMode(s).Update? ==> s.vol.geo.updatable) && Aopen(s.vol, OpenMode(s)).1
    ensures OpenDcb(Calm(s)) == (Calm(OpenDcb(s).0), OpenDcb(s).1)
  {
    hide Aopen, Good, OpenMode;
    assert OpenMode(Calm(s)) == OpenMode(s) by { SameMode(s); }
    AopenCalm(s.vol, OpenMode(s));
  }

  lemma SameMode(s: Stream)
    ensures OpenMode(Calm(s)) == OpenMode(s)
  {
    hide Good, Sane, Shut;
  }

  lemma OpenInputCalm(s: Stream)
    requires Shut(s) && OpenMode(s).Update? && !s.vol.geo.updatable && OpenDcb(s).1
    ensures OpenDcb(Calm(s)) == (Calm(OpenDcb(s).0), OpenDcb(s).1)
  {
    hide Good, OpenMode;
    assert OpenMode(Calm(s)) == OpenMode(s) by { SameMode(s); }
    assert Aopen(s.vol, Update) == (s.vol, false);
    assert Aopen(Calm(s).vol, Update) == (Calm(s).vol, false);
    hide Aopen;
    AopenCalm(s.vol, Input);
  }

  lemma OpenDcbCalm(s: Stream)
    requires Shut(s)
    ensures var r := OpenDcb(s); OpenDcb(Calm(s)) == (Calm(r.0), r.1) || !r.1 || Fell(r.0)
  {
    hide Aopen, Good;
    if OpenMode(s).Update? && !s.vol.geo.updatable {
      if OpenDcb(s).1 { OpenInputCalm(s); }
    } else if Aopen(s.vol, OpenMode(s)).1 {
      OpenAsCalm(s);
    }
  }

  lemma FpopenCalm(s: Stream)
    requires Shut(s)
    ensures var r := Fpopen(s); Same(Fpopen(Calm(s)), r) || r.1 != 0 || Fell(r.0)
  {
    hide OpenDcb, Calm, Buffered, Aclose;
    OpenDcbCalm(s);
    CalmBase(s);
    BufferedCalm(OpenDcb(s).0);
  }

  lemma BufferedCalm(s: Stream)
    requires s.vol.geo.Shape()
    ensures Calm(s).vol.geo == s.vol.geo && Buffered(Calm(s)) == Calm(Buffered(s))
    ensures Fell(Buffered(s)) == Fell(s)
  {
    hide Good, Sane, Shut, SameKind;
  }

  lemma CloseDcbCalm(s: Stream, out: bool)
    requires Sane(s) || Shut(s)
    ensures var r := CloseDcb(s, out); Same(CloseDcb(Calm(s), out), r) || r.1 != 0
  {
    hide Aclose, Good;
    if s.open && CloseDcb(s, out).1 == 0 { AcloseCalm(s.vol); }
  }

  lemma RedcbCalm(s: Stream, out: bool)
    requires Sane(s) || Shut(s)
    ensures var r := Redcb(s, out); Same(Redcb(Calm(s), out), r) || r.1 != 0 || Fell(r.0)
  {
    hide CloseDcb, Fpopen, Good, Sane, Shut;
    CloseDcbCalm(s, out);
    FpopenCalm(CloseDcb(s, out).0);
  }

  lemma RepositionCalm(s: Stream, out: bool, pos: nat)
    requires Sane(s) && s.dcbout == out
    ensures Reposition(Calm(s), out, pos) == Calm(Reposition(s, out, pos)) || Reposition(s, out, pos).error
  {
    hide SkipTo, Good, Sane;
    if !out { SkipToCalm(s, pos); }
  }

  /** The program sees it: the error flag, the fallback, or a turn to writing that fails. */
  predicate Shows(r: (Stream, int), out: bool) { r.0.error || Fell(r.0) || (out && r.1 != 0) }

  lemma RecoverError(s: Stream, pos: nat)
    requires Shut(s) && !s.updat && !s.dirty && !s.dcbout
    ensures Recover(s, false, pos).error
  {
    hide SkipTo, Redcb;
  }

  lemma TurnCalm(s: Stream, out: bool, pos: nat)
    requires Sane(s)
    ensures var r := Turn(s, out, pos); Same(Turn(Calm(s), out, pos), r) || Shows(r, out)
  {
    hide FlushRec, Redcb, Recover, Reposition, Good, Sane;
    FlushCalm(s, false);
    var (f, err) := FlushRec(s, false);
    if err == 0 {
      RedcbCalm(f, out);
      var (t, rc) := Redcb(f, out);
      if rc == -1 {
        if !out { RecoverError(t, pos); }
      } else {
        RepositionCalm(t, out, pos);
      }
    }
  }

  lemma PutBackCalm(s: Stream)
    requires Sane(s) && s.open && !s.dcbout && 0 < s.upto && 0 < s.filepos
    ensures PutBack(Calm(s)) == Calm(PutBack(s))
  {
    hide Good;
  }

  lemma EndTurnCalm(s: Stream)
    requires Sane(s) && s.open && !s.dcbout && !s.kind.member && s.kind.append && !s.eof
    ensures var r := Fpswt(s, true); Same(Fpswt(Calm(s), true), r) || Shows(r, true)
  {
    hide Turn, SkipAll, Good, Sane;
    SkipAllCalm(s);
    TurnCalm(SkipAll(s), true, SkipAll(s).filepos);
  }

  /** The byte looked at is put back. */
  lemma PeekCalm(s: Stream)
    requires Sane(s) && s.open && !s.dcbout && !s.kind.member && !s.kind.append && !s.eof
    requires !GetcReading(s).0.error && GetcReading(s).1 != EOF
    ensures Same(Fpswt(Calm(s), true), Fpswt(s, true))
  {
    hide Turn, SkipAll, GetcReading, PutBack, Good, Sane;
    GetcReadingCalm(s);
    var t := GetcReading(s).0;
    if s.ungetch == -1 { PutBackCalm(t); }
  }

  lemma PeekTurnCalm(s: Stream)
    requires Sane(s) && s.open && !s.dcbout && !s.kind.member && !s.kind.append && !s.eof
    requires !GetcReading(s).0.error && GetcReading(s).1 == EOF
    ensures var r := Fpswt(s, true); Same(Fpswt(Calm(s), true), r) || Shows(r, true)
  {
    hide Turn, SkipAll, GetcReading, PutBack, Good, Sane;
    GetcReadingCalm(s);
    var t := GetcReading(s).0;
    TurnCalm(t, true, t.filepos);
  }

  lemma FpswtCalm(s: Stream, out: bool)
    requires Sane(s) && (out ==> !s.dcbout)
    ensures var r := Fpswt(s, out); Same(Fpswt(Calm(s), out), r) || Shows(r, out)
  {
    hide Turn, SkipAll, GetcReading, PutBack, Good, Sane;
    if !s.open || (out && s.kind.member) {
    } else if !out || s.eof {
      TurnCalm(s, out, s.filepos);
    } else if s.kind.append {
      EndTurnCalm(s);
    } else if !GetcReading(s).0.error {
      if GetcReading(s).1 == EOF { PeekTurnCalm(s); } else { PeekCalm(s); }
    }
  }

  // ---- the calls -------------------------------------------------------------------

  lemma FlushError(s: Stream, newline: bool)
    requires Sane(s) && s.error
    ensures FlushRec(s, newline).0.error
  {
    hide Updrec, WritePending, Sane;
  }

  lemma RefillError(s: Stream)
    requires CanRead(s) && s.error
    ensures Refill(s).0.error
  {
    hide Aread, Load, Sane;
  }

  lemma GetcHereError(s: Stream)
    requires Sane(s) && s.open && !s.dcbout && s.error
    ensures GetcHere(s).0.error
  {
    hide FlushRec, Refill, Take, Sane, OnByte, Closer;
    InsideWindow(s);
    if s.ungetch != -1 || s.eof {
    } else if s.upto < s.endbuf {
      TakeError(s);
    } else {
      FlushError(s, false);
      var (t, err) := FlushRec(s, false);
      if err == 0 {
        RefillError(t);
        if Refill(t).1 { TakeError(Refill(t).0); }
      }
    }
  }

  lemma FgetcCalm(s: Stream)
    requires Sane(s)
    ensures var r := Fgetc(s); Same(Fgetc(Calm(s)), r) || Shows(r, false)
  {
    hide Fpswt, GetcHere, Calm, Sane, Shut;
    StaysSane(s, EIO);
    CalmBase(s);
    CalmFlags(s, s.eof, EIO);
    CalmFlags(s, s.eof, EBADF);
    if s.kind.read && !s.error {
      if s.dcbout {
        FpswtCalm(s, false);
        var (t, rc) := Fpswt(s, false);
        if rc == 0 {
          GetcHereCalm(t);
          if t.error { GetcHereError(t); }
        }
      } else {
        GetcHereCalm(s);
      }
    }
  }

  lemma PutByteCalm(s: Stream, c: byte)
    requires OnByte(s) && s.updat
    ensures OnByte(Calm(s)) && PutByte(Calm(s), c) == Calm(PutByte(s, c))
  {
    hide Good;
  }

  lemma BlankedCalm(s: Stream)
    requires OnByte(s) && s.updat && !s.kind.binary
    ensures OnByte(Calm(s)) && Blanked(Calm(s)) == Calm(Blanked(s))
  {
    hide Good, BlankOut;
  }

  lemma CalmTaken(s: Stream)
    ensures Calm(s.(upto := s.upto + 1, filepos := s.filepos + 1)) ==
            Calm(s).(upto := s.upto + 1, filepos := s.filepos + 1)
  {
    hide Good, Sane, SameKind, Shut;
  }

  lemma OverCalm(s: Stream, c: byte)
    requires OnByte(s) && s.updat
    ensures OnByte(Calm(s)) && Same(Over(Calm(s), c), Over(s, c))
  {
    PutByteCalm(s, c);
    if !s.kind.binary { BlankedCalm(s); }
    CalmBase(s);
    CalmFlags(s, s.eof, EOPNOTSUPP);
    CalmTaken(s);
    hide Calm, PutByte, Blanked, Sane, OnByte, SameKind, Shut;
  }

  lemma PutBackOn(s: Stream)
    requires Sane(s) && s.open && !s.dcbout && 0 < s.upto && 0 < s.filepos
    ensures PutBack(s).updat == s.updat
  {
  }

  lemma FpupcCalm(s: Stream, c: byte)
    requires Sane(s) && !s.dcbout && s.updat && s.open
    ensures var r := Fpupc(s, c); Same(Fpupc(Calm(s), c), r) || Shows(r, false) || r.1 == -1
  {
    hide Fpswt, Over, GetcReading, PutBack, Calm, Sane, OnByte, SameKind, Shut;
    var t := s.(ungetch := -1);
    Forget(s);
    CalmBase(s);
    CalmAt(s, 0, -1);
    if s.upto < s.endbuf {
      InsideWindow(t);
      OverCalm(t, c);
    } else {
      GetcReadingCalm(t);
      var (u, k) := GetcReading(t);
      CalmBase(u);
      if !u.error {
        if k == EOF {
          FpswtCalm(u, true);
        } else {
          PutBackOn(u);
          PutBackCalm(u);
          OverCalm(PutBack(u), c);
        }
      }
    }
  }

  lemma MakeRoomCalm(s: Stream)
    requires Sane(s) && s.open && s.dcbout
    ensures var r := MakeRoom(s); Same(MakeRoom(Calm(s)), r) || (r.1 != 0 && r.0.error)
  {
    hide FlushRec, Good, Sane;
    FlushCalm(s, false);
  }

  lemma PendCalm(s: Stream, c: byte)
    requires Sane(s) && s.open && s.dcbout && s.upto < s.endbuf
    ensures Pend(Calm(s), c) == Calm(Pend(s, c)) && Pend(s, c).error == s.error
  {
    hide Good;
  }

  lemma AppendCalm(s: Stream, c: byte)
    requires Sane(s) && s.open && s.dcbout
    ensures var r := Append(s, c); Same(Append(Calm(s), c), r) || (r.0.error && r.1 == EOF)
  {
    hide FlushRec, MakeRoom, Pend, Calm, Sane, SameKind, Shut;
    CalmBase(s);
    CalmAt(s, s.filepos + 1, -1);
    if !s.kind.binary && c == NL {
      WritesAt(s, s.filepos + 1);
      var n := s.(filepos := s.filepos + 1);
      FlushCalm(n, true);
    } else {
      MakeRoomCalm(s);
      var (t, err) := MakeRoom(s);
      if err == 0 { PendCalm(t, c); }
    }
  }

  lemma AppendError(s: Stream, c: byte)
    requires Sane(s) && s.open && s.dcbout && s.error
    ensures Append(s, c).0.error
  {
    hide FlushRec, Pend, Good, Sane;
    WritesAt(s, s.filepos + 1);
    FlushError(s.(filepos := s.filepos + 1), true);
    FlushError(s, false);
    var (t, err) := MakeRoom(s);
    if err == 0 { PendCalm(t, c); }
  }

  lemma FputcCalm(s: Stream, c: byte)
    requires Sane(s) && s.open
    ensures var r := Fputc(s, c); Same(Fputc(Calm(s), c), r) || Shows(r, false) || r.1 == EOF
  {
    hide Fpswt, Fpupc, Append, Good, Sane;
    if !s.kind.write || s.error {
    } else if s.dcbout {
      AppendCalm(s, c);
    } else {
      if s.updat { FpupcCalm(s, c); } else { FpswtCalm(s, true); }
      var (t, rc) := if s.updat then Fpupc(s, c) else Fpswt(s, true);
      if t.dcbout && t.open {
        AppendCalm(t, c);
        if t.error { AppendError(t, c); }
      }
    }
  }

  lemma ArrivedCalm(s: Stream, target: nat)
    requires Sane(s)
    ensures Same(Arrived(Calm(s), target), Arrived(s, target)) && Arrived(s, target).0.error == s.error
    ensures Fell(s) ==> Fell(Arrived(s, target).0)
  {
    CalmFlags(s, false, s.errno);
    CalmFlags(s, false, EINVAL);
    hide Calm, Sane, SameKind, Shut;
  }

  lemma StepBackCalm(s: Stream, n: nat)
    requires Sane(s) && !s.dcbout && n <= s.upto && n <= s.filepos
    ensures StepBack(Calm(s), n) == Calm(StepBack(s, n)) && StepBack(s, n).error == s.error
  {
    hide Good;
  }

  lemma SaneMoved(s: Stream, n: nat)
    requires Sane(s)
    ensures Sane(s.(filepos := n))
  {
  }

  lemma MoveToCalm(s: Stream, target: nat)
    requires Sane(s) && !s.error
    ensures var r := MoveTo(s, target); Same(MoveTo(Calm(s), target), r) || Shows(r, false)
  {
    hide Fpswt, SkipUntil, Arrived, StepBack, Calm, Sane, SameKind, Shut;
    CalmBase(s);
    CalmAt(s, target, -1);
    if target == s.filepos {
    } else if !s.dcbout && s.filepos < target {
      SkipUntilCalm(s, target);
      ArrivedCalm(SkipUntil(s, target), target);
    } else if !s.dcbout && s.ungetch == -1 && s.filepos - s.upto <= target {
      StepBackCalm(s, s.filepos - target);
    } else {
      var m := s.(filepos := target);
      SaneMoved(s, target);
      FpswtCalm(m, false);
      ArrivedCalm(Fpswt(m, false).0, target);
    }
  }

  lemma MoveToError(s: Stream, target: nat)
    requires Sane(s) && s.error && !s.dcbout && s.open
    ensures MoveTo(s, target).0.error
  {
    hide Fpswt, SkipUntil, Arrived, StepBack, Good, Sane;
    if target == s.filepos {
    } else if s.filepos < target {
      SkipUntilError(s, target);
      ArrivedCalm(SkipUntil(s, target), target);
    } else if s.ungetch == -1 && s.filepos - s.upto <= target {
      StepBackCalm(s, s.filepos - target);
    } else {
      var m := s.(filepos := target);
      SaneMoved(s, target);
      TurnError(m, target);
      ArrivedCalm(Fpswt(m, false).0, target);
    }
  }

  lemma RedcbError(s: Stream, out: bool)
    requires Sane(s) && s.error
    ensures Redcb(s, out).0.error
  {
    hide Aclose, Aopen, Sane;
  }

  lemma SkipToError(s: Stream, pos: nat)
    requires Sane(s) && !s.dcbout && s.error
    ensures SkipTo(s, pos).error
  {
    hide SkipAll, SkipUntil, Sane;
    SaneAt(s);
    SkipAllError(s.(filepos := 0));
    SkipUntilError(s.(filepos := 0), pos);
  }

  lemma TurnError(s: Stream, pos: nat)
    requires Sane(s) && s.error && s.open && pos == s.filepos
    ensures Fpswt(s, false).0.error
  {
    hide FlushRec, Redcb, SkipTo, Recover, SkipAll, GetcReading, Sane;
    FlushError(s, false);
    var (f, err) := FlushRec(s, false);
    if err == 0 {
      RedcbError(f, false);
      var (t, rc) := Redcb(f, false);
      if rc == -1 { RecoverError(t, pos); } else { SkipToError(t, pos); }
    }
  }

  lemma AtEndCalm(s: Stream)
    requires Sane(s) && !s.posend && !s.error
    ensures var r := AtEnd(s); Same(AtEnd(Calm(s)), r) || (r.0.error && !r.0.dcbout && r.0.open == s.open)
    ensures var (t, rc) := AtEnd(s);
      rc == 0 && t.dcbout == s.dcbout && t.open == s.open && (t.error ==> !t.dcbout)
  {
    hide Fpswt, SkipAll, Good, Sane;
    if !s.dcbout { SkipAllCalm(s); }
  }

  lemma PlusseekCalm(s: Stream, offset: int, whence: int)
    requires Sane(s) && s.open && !s.posend && !s.error
    ensures var r := Plusseek(s, offset, whence); Same(Plusseek(Calm(s), offset, whence), r) || Shows(r, false)
  {
    hide AtEnd, MoveTo, Calm, Sane, SameKind, Shut;
    AtEndCalm(s);
    CalmBase(s);
    var t := if whence == SEEK_END then AtEnd(s).0 else s;
    CalmBase(t);
    CalmFlags(t, t.eof, EINVAL);
    var target := if whence == SEEK_SET then offset else t.filepos + offset;
    if 0 <= target {
      if t.error { MoveToError(t, target); } else { MoveToCalm(t, target); }
    }
  }

  lemma SeekOpenCalm(s: Stream, offset: int, whence: int)
    requires Sane(s) && s.open && !s.posend
    ensures var r := SeekOpen(s, offset, whence); Same(SeekOpen(Calm(s), offset, whence), r) || Shows(r, false)
  {
    hide Plusseek, Calm, Sane, SameKind, Shut, Restored, Fell;
    CanSeek(s);
    var z := s.(error := false, enospc := false, eof := false);
    CalmBase(s);
    CalmErrors(s, false, false);
    PlusseekCalm(z, offset, whence);
    var (t, rc) := Plusseek(z, offset, whence);
    CalmAt(t, 0, -1);
    RestoredCalm(s, t);
    RestoredCalm(s, t.(ungetch := -1));
    FellUnget(t);
  }

  lemma FellUnget(s: Stream)
    ensures Fell(s.(ungetch := -1)) == Fell(s)
  {
  }

  lemma RestoredCalm(s: Stream, t: Stream)
    ensures Restored(Calm(s), Calm(t)) == Calm(Restored(s, t))
    ensures (t.error ==> Restored(s, t).error) && Fell(Restored(s, t)) == Fell(t)
  {
    CalmBase(s);
    CalmBase(t);
    CalmErrors(t, t.error || s.error, t.enospc || s.enospc);
    hide Calm;
  }

  /** The program can tell that the device has failed it: ferror(), a byte refused, or -
      the one silent case - writes over what is there are refused from now on. */
  predicate Reported(op: Op, r: Outcome<int>) {
    r.Did? && (r.stream.error || Fell(r.stream) || (op.DoPutc? && r.ret == EOF))
  }

  lemma StepCalm(s: Stream, op: Op)
    requires Sane(s) && s.open && s.kind.Plus() && !s.posend
    ensures var r := Step(s, op); Step(Calm(s), op) == Did(Calm(r.stream), r.ret) || Reported(op, r)
  {
    hide Fgetc, Fputc, FlushRec, SeekOpen, Good, Sane;
    match op
    case DoGetc => FgetcCalm(s);
    case DoPutc(c) => FputcCalm(s, c);
    case DoFlush => FlushCalm(s, false);
    case DoSeek(offset, whence) => SeekOpenCalm(s, offset, whence);
  }

  // ---- runs ------------------------------------------------------------------------

  /** The first k calls of the run returned what the document returns. */
  predicate AgreesFor(s: Stream, ops: seq<Op>, k: nat)
    requires Sane(s) && s.kind.write && k <= |ops|
  {
    var r := Run(s, ops[..k]);
    && r.Did? && Tidy(Calm(r.stream))
    && (Abstract(r.stream), r.ret) == DocRun(FormOf(s), Abstract(s), ops[..k])
  }

  /** ... and the next one shows the failure. */
  predicate ShowsAt(s: Stream, ops: seq<Op>, k: nat)
    requires Sane(s) && s.kind.write && k < |ops|
  {
    var r := Run(s, ops[..k]); r.Did? && Reported(ops[k], Step(r.stream, ops[k]))
  }

  lemma CalmAbstract(s: Stream)
    requires Sane(s)
    ensures Abstract(Calm(s)) == Abstract(s) && FormOf(Calm(s)) == FormOf(s) && ModeOf(Calm(s)) == ModeOf(s)
  {
    hide Good, Views;
  }

  lemma AgreesLater(s: Stream, ops: seq<Op>, k: nat)
    requires Sane(s) && s.kind.write && s.open && k < |ops|
    requires Step(s, ops[0]).Did? && AgreesFor(Step(s, ops[0]).stream, ops[1..], k)
    requires var r := Step(s, ops[0]); (Abstract(r.stream), r.ret) == DocStep(FormOf(s), Abstract(s), ops[0])
    ensures AgreesFor(s, ops, k + 1)
    ensures Run(s, ops[..k + 1]).stream == Run(Step(s, ops[0]).stream, ops[1..][..k]).stream
  {
    hide Step, DocStep, Tidy, Abstract, Sane;
    assert ops[..k + 1][0] == ops[0] && ops[..k + 1][1..] == ops[1..][..k];
  }

  lemma AgreesNow(s: Stream, ops: seq<Op>)
    requires Sane(s) && s.kind.write && Tidy(Calm(s))
    ensures AgreesFor(s, ops, 0) && Run(s, ops[..0]) == Did(s, [])
  {
    hide Step, DocStep, Tidy, Abstract, Sane, Calm;
    assert ops[..0] == [];
  }

  lemma CalmTidy(s: Stream)
    requires Sane(s) && Tidy(Calm(s))
    ensures s.open && s.kind.Plus() && !s.posend
  {
    hide Good, Views, CleanRecords, Placed, D.Flat;
  }

  lemma StepAgrees(s: Stream, op: Op)
    requires Sane(s) && s.kind.write && s.open && Tidy(Calm(s))
    requires Allowed(FormOf(s), Abstract(s), ModeOf(s), op)
    ensures var r := Step(s, op);
      || Reported(op, r)
      || (&& Tidy(Calm(r.stream)) && (Abstract(r.stream), r.ret) == DocStep(FormOf(s), Abstract(s), op)
          && ModeOf(r.stream) == ModeStep(FormOf(s), Abstract(s), ModeOf(s), op))
  {
    hide Step, DocStep, ModeStep, Allowed, Tidy, Abstract, Calm, ModeOf, Sane, Reported;
    CalmTidy(s);
    CalmAbstract(s);
    StepCalm(s, op);
    StepRefines(Calm(s), op);
    CalmAbstract(Step(s, op).stream);
  }

  /** On every device, every run agrees with the document call by call - up to a first call
      that shows the failure, or to its end. */
  lemma {:induction false} UntilReported(s: Stream, ops: seq<Op>) returns (k: nat)
    requires Sane(s) && s.kind.write && Tidy(Calm(s))
    requires AllowedRun(FormOf(s), Abstract(s), ModeOf(s), ops)
    ensures k <= |ops| && AgreesFor(s, ops, k) && (k < |ops| ==> ShowsAt(s, ops, k))
    decreases |ops|
  {
    hide Step, DocStep, ModeStep, Allowed, Tidy, Abstract, Calm, ModeOf, Sane, Reported, Run, DocRun;
    CalmTidy(s);
    AgreesNow(s, ops);
    if ops == [] { return 0; }
    StepAgrees(s, ops[0]);
    var r := Step(s, ops[0]);
    if Reported(ops[0], r) { return 0; }
    SameForm(s, r.stream);
    var j := UntilReported(r.stream, ops[1..]);
    AgreesLater(s, ops, j);
    return j + 1;
  }

  // ---- from fopen() on -------------------------------------------------------------

  lemma StaysInError(s: Stream)
    requires Sane(s) && s.open && s.error && !s.dcbout && s.kind.append
    ensures var (t, rc) := Fpswt(s, true); rc == 0 ==> t.error
  {
    hide SkipAll, Redcb, Recover, FlushRec, Sane;
    SkipAllError(s);
    FlushError(s, false);
    var f := FlushRec(s, false).0;
    RedcbError(f, true);
  }

  lemma NewFileCalm(m: Mode, v: Volume)
    requires v.Ok() && v.dcb.Closed?
    ensures NewFile(m, false, CalmVolume(v)) == Calm(NewFile(m, false, v))
  {
    hide Good;
  }

  /** fopen() that shows no failure. */
  predicate OpensWell(m: Mode, v: Volume)
    requires v.Ok() && v.dcb.Closed?
  {
    var (s, err) := Fopen(m, false, v); err == 0 && !s.error && !Fell(s)
  }

  lemma FopenCalm(m: Mode, v: Volume)
    requires PlusMode(m) && v.Ok() && v.dcb.Closed? && OpensWell(m, v)
    ensures CalmVolume(v).Ok() && CalmVolume(v).dcb.Closed?
    ensures Same(Fopen(m, false, CalmVolume(v)), Fopen(m, false, v))
  {
    hide Fpopen, Fpswt, Good, Sane;
    var f := NewFile(m, false, v);
    NewFileCalm(m, v);
    FpopenCalm(f);
    var (s, err) := Fpopen(f);
    CalmBase(s);
    if s.posend {
      FpswtCalm(s, false);
      var (t, rc) := Fpswt(s, false);
      if rc == 0 {
        if t.error { StaysInError(t); }
        FpswtCalm(t, true);
      }
    }
  }

  /** The same from fopen() on: up to the first failure the device lets the program see,
      the life of a '+' stream is the life of its document. */
  lemma LifeUntilReported(m: Mode, v: Volume, ops: seq<Op>) returns (k: nat)
    requires LibraryMode(m) && Ready(CalmVolume(v), m.letters.binary) && OpensWell(m, v)
    requires AllowedRun(FormFor(m, v), FirstDoc(m, v), FirstMode(m), ops)
    ensures var s := Fopen(m, false, v).0;
      && Sane(s) && s.kind.write && Abstract(s) == FirstDoc(m, v) && FormOf(s) == FormFor(m, v)
      && k <= |ops| && AgreesFor(s, ops, k) && (k < |ops| ==> ShowsAt(s, ops, k))
  {
    hide Fopen, Step, DocStep, ModeStep, Allowed, AllowedRun, Tidy, Abstract, Run, DocRun, AgreesFor, ShowsAt, Views;
    FopenCalm(m, v);
    FirstOpen(m, CalmVolume(v));
    var s := Fopen(m, false, v).0;
    CalmAbstract(s);
    CalmTidy(s);
    k := UntilReported(s, ops);
  }
}
