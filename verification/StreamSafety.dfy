/** What holds whatever the device answers: reads and writes that fail, opens
    that are refused, and a CLOSE that loses the last block. */
module StreamSafety {
  import opened Bytes
  import opened AccessMethod
  import opened StreamSpec
  import opened StreamRuns

  // ---- a stream in error does nothing more ---------------------------------------

  datatype Call = Fgetc1 | Fgets1(n: int) | Fputc1(c: byte) | Fpupc1(c: byte) | Fflush1 | Fflnl1

  function Make(s: Stream, call: Call): (t: Stream)
    requires Sane(s)
    ensures Sane(t) && SameKind(s, t)
  {
    hide Fgetc, Fgets, Fputc, Fpupc, FlushRec;
    match call
    case Fgetc1 => Fgetc(s).0
    case Fgets1(n) => Fgets(s, n).0
    case Fputc1(c) => Fputc(s, c).0
    case Fpupc1(c) => if !s.dcbout && s.updat then Fpupc(s, c).0 else s
    case Fflush1 => FlushRec(s, false).0
    case Fflnl1 => FlushRec(s, true).0
  }

  function MakeAll(s: Stream, calls: seq<Call>): (t: Stream)
    requires Sane(s)
    ensures Sane(t) && SameKind(s, t)
    decreases |calls|
  {
    hide Make;
    if calls == [] then s else MakeAll(Make(s, calls[0]), calls[1..])
  }

  lemma FgetsInError(s: Stream, n: int)
    requires Sane(s) && s.error
    ensures Fgets(s, n).0.vol == s.vol && Fgets(s, n).0.error
    ensures Fgets(s, n).1.NoLine? || Fgets(s, n).1 == Line([])
  {
    if !s.eof && 1 < n { assert FgetsLoop(s, n - 1, []).0.vol == s.vol; }
  }

  lemma OverInError(s: Stream, c: byte)
    requires OnByte(s) && s.updat && s.error
    ensures Over(s, c).0.vol == s.vol && Over(s, c).0.error
  {
    hide Over, Sane, OnByte;
  }

  lemma PupcInError(s: Stream, c: byte)
    requires Sane(s) && s.error && !s.dcbout && s.updat
    ensures Fpupc(s, c).0.vol == s.vol && Fpupc(s, c).0.error
  {
    hide GetcHere, Fpswt, Over;
    if s.upto < s.endbuf { OverInError(s.(ungetch := -1), c); }
  }

  lemma FlushInError(s: Stream, newline: bool)
    requires Sane(s) && s.error
    ensures FlushRec(s, newline).0.vol == s.vol && FlushRec(s, newline).0.error
  {
    hide Updrec, WritePending;
  }

  lemma GetcInError(s: Stream)
    requires Sane(s) && s.error
    ensures Fgetc(s).0.vol == s.vol && Fgetc(s).0.error && Fgetc(s).1 == EOF
  {
    hide GetcHere, Fpswt, Sane;
  }

  lemma PutcInError(s: Stream, c: byte)
    requires Sane(s) && s.error
    ensures Fputc(s, c).0.vol == s.vol && Fputc(s, c).0.error && Fputc(s, c).1 == EOF
  {
    hide Append, Fpswt, Fpupc, Sane;
  }

  lemma CallInError(s: Stream, call: Call)
    requires Sane(s) && s.error
    ensures var t := Make(s, call); t.vol == s.vol && t.error
  {
    hide Fgets, Fpupc, FlushRec, Fgetc, Fputc, Sane;
    match call
    case Fgetc1 => GetcInError(s);
    case Fgets1(n) => FgetsInError(s, n);
    case Fputc1(c) => PutcInError(s, c);
    case Fpupc1(c) => if !s.dcbout && s.updat { PupcInError(s, c); }
    case Fflush1 => FlushInError(s, false);
    case Fflnl1 => FlushInError(s, true);
  }

  /** Once the error flag is set no sequence of calls reads or changes the data
      set - or asks the device anything - and what was pending or dirty is never
      written later. */
  lemma {:induction false} FailFast(s: Stream, calls: seq<Call>)
    requires Sane(s) && s.error
    ensures var t := MakeAll(s, calls); t.vol == s.vol && t.error
    decreases |calls|
  {
    hide Make;
    if calls != [] {
      CallInError(s, calls[0]);
      FailFast(Make(s, calls[0]), calls[1..]);
    }
  }

  // ---- nothing there is ever dropped ----------------------------------------------

  /** Every output open of the stream is EXTEND. */
  predicate Extends(s: Stream) { s.extend || s.kind.append }

  /** The records that no failing CLOSE can take away. */
  function Secure(s: Stream): (n: nat)
    requires Sane(s) || Shut(s)
    ensures n <= |s.vol.recs|
  {
    if s.open && s.dcbout then s.vol.held else |s.vol.recs|
  }

  /** Nothing secure is lost or resized; on an append stream nothing secure is changed. */
  predicate Keeps(s: Stream, t: Stream)
    requires (Sane(s) || Shut(s)) && (Sane(t) || Shut(t))
  {
    && SameKind(s, t) && Secure(s) <= Secure(t)
    && (forall i :: 0 <= i < Secure(s) ==> |t.vol.recs[i]| == |s.vol.recs[i]|)
    && (s.kind.append ==> t.vol.recs[..Secure(s)] == s.vol.recs[..Secure(s)])
  }

  /** The record changed in the buffer, as the access method would store it. */
  function Rewritten(s: Stream): (r: seq<byte>)
    requires Sane(s) && s.open && s.dirty
    ensures |r| == |s.vol.recs[s.vol.next - 1]|
  {
    Replace(s.vol.geo, s.vol.recs[s.vol.next - 1], Packed(s.vol.geo, Held(s), FillByte(s)))
  }

  /** What record i can come to be without another byte written: itself, itself before a
      rewrite that still waits, or itself as the buffer holds it. */
  function Possible(s: Stream, i: nat): set<seq<byte>>
    requires (Sane(s) || Shut(s)) && i < |s.vol.recs|
  {
    {s.vol.recs[i]} + (if s.vol.dcb.Update? then {s.vol.disk[i]} else {})
    + (if s.open && s.dirty && i == s.vol.next - 1 then {Rewritten(s)} else {})
  }

  /** No record was changed that had not been written to. */
  predicate Quiet(s: Stream, t: Stream)
    requires (Sane(s) || Shut(s)) && (Sane(t) || Shut(t))
  {
    Keeps(s, t) && forall i :: 0 <= i < Secure(s) ==> Possible(t, i) <= Possible(s, i)
  }

  lemma KeepsTransitive(s: Stream, t: Stream, u: Stream)
    requires (Sane(s) || Shut(s)) && (Sane(t) || Shut(t)) && (Sane(u) || Shut(u))
    requires Keeps(s, t) && Keeps(t, u)
    ensures Keeps(s, u)
  {
    hide Sane, Shut;
    forall i | 0 <= i < Secure(s) ensures |u.vol.recs[i]| == |s.vol.recs[i]| {
      assert |t.vol.recs[i]| == |s.vol.recs[i]|;
    }
    if s.kind.append {
      assert u.vol.recs[..Secure(s)] == u.vol.recs[..Secure(t)][..Secure(s)];
      assert t.vol.recs[..Secure(s)] == t.vol.recs[..Secure(t)][..Secure(s)];
    }
  }

  lemma QuietTransitive(s: Stream, t: Stream, u: Stream)
    requires (Sane(s) || Shut(s)) && (Sane(t) || Shut(t)) && (Sane(u) || Shut(u))
    requires Quiet(s, t) && Quiet(t, u)
    ensures Quiet(s, u)
  {
    hide Sane, Shut, Possible;
    KeepsTransitive(s, t, u);
    forall i | 0 <= i < Secure(s) ensures Possible(u, i) <= Possible(s, i) {
      assert Possible(u, i) <= Possible(t, i) <= Possible(s, i);
    }
  }

  /** An append stream is never open UPDAT, so nothing is rewritten. */
  predicate NoUpdateOnAppend(s: Stream) { s.kind.append ==> !s.updat }

  /** The position, the flags and errno are not part of what is kept. */
  predicate Alike(s: Stream, t: Stream) {
    && t.vol == s.vol && t.open == s.open && t.dcbout == s.dcbout && t.buf == s.buf && t.endbuf == s.endbuf
    && (t.dirty ==> s.dirty)
  }

  lemma AlikeQuiet(s: Stream, t: Stream)
    requires (Sane(s) || Shut(s)) && (Sane(t) || Shut(t)) && SameKind(s, t) && Alike(s, t)
    ensures Quiet(s, t)
  {
    hide Packed, Replace;
  }

  /** A change that no one can see, behind one that is quiet. */
  lemma QuietAlike(s: Stream, t: Stream, u: Stream)
    requires (Sane(s) || Shut(s)) && (Sane(t) || Shut(t)) && (Sane(u) || Shut(u))
    requires Quiet(s, t) && SameKind(t, u) && Alike(t, u)
    ensures Quiet(s, u)
  {
    hide Sane, Shut, Quiet;
    AlikeQuiet(t, u);
    QuietTransitive(s, t, u);
  }

  lemma UpdrecQuiet(s: Stream)
    requires Sane(s) && s.dirty && NoUpdateOnAppend(s)
    ensures Quiet(s, Updrec(s).0)
  {
    hide Packed, Quiet;
    var t := Updrec(s).0;
    if t.vol.recs == s.vol.recs {
      ReadQuiet(s, t);
    } else {
      assert t.vol.recs == s.vol.recs[s.vol.next - 1 := Rewritten(s)];
      RewrittenQuiet(s, t);
    }
  }

  lemma RewrittenQuiet(s: Stream, t: Stream)
    requires Sane(s) && Sane(t) && SameKind(s, t) && s.dirty && NoUpdateOnAppend(s)
    requires !s.dcbout && t.open == s.open && !t.dcbout && !t.dirty && t.vol.disk == s.vol.disk
    requires t.vol.recs == s.vol.recs[s.vol.next - 1 := Rewritten(s)]
    ensures Quiet(s, t)
  {
    hide Rewritten;
  }

  lemma WritePendingQuiet(s: Stream, newline: bool)
    requires Sane(s) && s.open && s.dcbout
    ensures Quiet(s, WritePending(s, newline).0)
  {
    hide Packed, Quiet;
    WriteQuiet(s, WritePending(s, newline).0);
  }

  lemma WriteQuiet(s: Stream, t: Stream)
    requires Sane(s) && Sane(t) && SameKind(s, t) && s.open && t.open && s.dcbout && t.dcbout
    requires t.vol.held == s.vol.held && s.vol.recs[..s.vol.held] <= t.vol.recs
    ensures Quiet(s, t)
  {
    hide Rewritten;
  }

  lemma FlushQuiet(s: Stream, newline: bool)
    requires Sane(s) && NoUpdateOnAppend(s)
    ensures var t := FlushRec(s, newline).0; Quiet(s, t) && NoUpdateOnAppend(t)
  {
    hide Updrec, WritePending, Quiet;
    var t := FlushRec(s, newline).0;
    if s.dirty && !s.error { UpdrecQuiet(s); }
    else if s.dcbout && !s.error && !(s.upto == 0 && !newline) { WritePendingQuiet(s, newline); }
    else { AlikeQuiet(s, t); }
  }

  lemma RefillQuiet(s: Stream)
    requires Sane(s) && s.open && !s.dcbout && !s.dirty && NoUpdateOnAppend(s)
    ensures var t := Refill(s).0; Quiet(s, t) && NoUpdateOnAppend(t)
  {
    hide Load, Quiet, Sane;
    ReadQuiet(s, Refill(s).0);
  }

  /** The records as they were, or as they are on the disk. */
  lemma ReadQuiet(s: Stream, t: Stream)
    requires Sane(s) && Sane(t) && SameKind(s, t) && NoUpdateOnAppend(s)
    requires t.open == s.open && !s.dcbout && !t.dcbout && !t.dirty && t.vol.dcb == s.vol.dcb
    requires t.vol.recs == s.vol.recs || (s.vol.dcb.Update? && t.vol.recs == s.vol.disk)
    requires s.vol.dcb.Update? ==> t.vol.disk == s.vol.recs || t.vol.disk == s.vol.disk
    ensures Quiet(s, t)
  {
    hide Packed, Replace, Rewritten;
  }

  lemma TakeQuiet(s: Stream)
    requires OnByte(s)
    ensures Quiet(s, Take(s).0)
  {
    hide Quiet;
    AlikeQuiet(s, Take(s).0);
  }

  lemma GetcHereQuiet(s: Stream)
    requires Sane(s) && s.open && !s.dcbout && NoUpdateOnAppend(s)
    ensures var t := GetcHere(s).0; Quiet(s, t) && NoUpdateOnAppend(t)
  {
    hide FlushRec, Refill, Take, Quiet;
    if s.ungetch != -1 || s.eof {
      AlikeQuiet(s, GetcHere(s).0);
    } else if s.upto < s.endbuf {
      TakeQuiet(s);
    } else {
      FlushQuiet(s, false);
      var (t, err) := FlushRec(s, false);
      if err == 0 {
        RefillQuiet(t);
        var (u, ok) := Refill(t);
        QuietTransitive(s, t, u);
        if ok { TakeQuiet(u); QuietTransitive(s, u, Take(u).0); }
      }
    }
  }

  lemma GetcReadingQuiet(s: Stream)
    requires Sane(s) && !s.dcbout && NoUpdateOnAppend(s)
    ensures var t := GetcReading(s).0; Quiet(s, t) && NoUpdateOnAppend(t)
  {
    hide GetcHere, Quiet;
    if s.kind.read && !s.error { GetcHereQuiet(s); } else { AlikeQuiet(s, GetcReading(s).0); }
  }

  lemma {:induction false} SkipAllQuiet(s: Stream)
    requires Sane(s) && !s.dcbout && NoUpdateOnAppend(s)
    ensures var t := SkipAll(s); Quiet(s, t) && NoUpdateOnAppend(t)
    decreases |s.vol.recs| - s.vol.next, s.ungetch != -1, s.endbuf - s.upto
  {
    hide GetcReading, Quiet;
    GetcReadingQuiet(s);
    var (t, c) := GetcReading(s);
    if c != EOF {
      SkipAllQuiet(t);
      QuietTransitive(s, t, SkipAll(t));
    }
  }

  lemma {:induction false} SkipUntilQuiet(s: Stream, pos: nat)
    requires Sane(s) && !s.dcbout && NoUpdateOnAppend(s)
    ensures var t := SkipUntil(s, pos); Quiet(s, t) && NoUpdateOnAppend(t)
    decreases |s.vol.recs| - s.vol.next, s.ungetch != -1, s.endbuf - s.upto
  {
    hide GetcReading, Quiet;
    if s.filepos < pos {
      GetcReadingQuiet(s);
      var (t, c) := GetcReading(s);
      if c != EOF {
        SkipUntilQuiet(t, pos);
        QuietTransitive(s, t, SkipUntil(t, pos));
      }
    } else {
      AlikeQuiet(s, s);
    }
  }

  lemma SkipToQuiet(s: Stream, pos: nat)
    requires Sane(s) && !s.dcbout && NoUpdateOnAppend(s)
    ensures var t := SkipTo(s, pos); Quiet(s, t) && NoUpdateOnAppend(t)
  {
    hide SkipAll, SkipUntil, Quiet;
    var z := s.(filepos := 0);
    AlikeQuiet(s, z);
    if s.posend {
      SkipAllQuiet(z);
      QuietTransitive(s, z, SkipAll(z));
      QuietAlike(s, SkipAll(z), SkipTo(s, pos));
    } else {
      SkipUntilQuiet(z, pos);
      QuietTransitive(s, z, SkipUntil(z, pos));
    }
  }

  /** Nothing waits, so nothing a failing request can undo. */
  predicate Clean(s: Stream) { !s.dirty && (s.vol.dcb.Update? ==> s.vol.disk == s.vol.recs) }

  /** An open that is not OUTPUT: the records, and nothing waiting. */
  lemma OpenDcbQuiet(s: Stream)
    requires Shut(s) && Extends(s)
    ensures var t := OpenDcb(s).0;
      && t.vol.recs == s.vol.recs && (t.vol.dcb.Update? ==> t.vol.disk == s.vol.recs && !s.kind.append)
      && (t.vol.dcb.Writes() ==> t.vol.held == |s.vol.recs|)
  {
  }

  lemma FpopenQuiet(s: Stream)
    requires Shut(s) && Extends(s)
    ensures var t := Fpopen(s).0;
      && Quiet(s, t) && NoUpdateOnAppend(t) && t.vol.recs == s.vol.recs
      && (t.vol.dcb.Update? ==> t.vol.disk == s.vol.recs)
  {
    hide OpenDcb, Quiet;
    OpenDcbQuiet(s);
    OpenedQuiet(s, Fpopen(s).0);
  }

  lemma OpenedQuiet(s: Stream, t: Stream)
    requires Shut(s) && (Sane(t) || Shut(t)) && SameKind(s, t) && !t.dirty && t.vol.recs == s.vol.recs
    requires t.vol.dcb.Update? ==> t.vol.disk == s.vol.recs && !s.kind.append
    requires t.open && t.dcbout ==> t.vol.held == |s.vol.recs|
    ensures Quiet(s, t)
  {
    hide Rewritten;
  }

  lemma CloseQuiet(s: Stream, out: bool)
    requires (Sane(s) || Shut(s)) && Extends(s) && NoUpdateOnAppend(s)
    ensures var (t, rc) := CloseDcb(s, out); Quiet(s, t) && (rc == 0 ==> t.vol.recs == s.vol.recs)
  {
    hide Packed, Replace;
  }

  /** The turn itself: only an OUTPUT open could empty the data set. */
  lemma RedcbQuiet(s: Stream, out: bool)
    requires (Sane(s) || Shut(s)) && Extends(s) && NoUpdateOnAppend(s)
    ensures var (t, rc) := Redcb(s, out);
      Quiet(s, t) && NoUpdateOnAppend(t) && (rc == 0 ==> t.vol.recs == s.vol.recs && Clean(t))
  {
    hide Fpopen, CloseDcb, Quiet;
    CloseQuiet(s, out);
    var shut := CloseDcb(s, out).0;
    FpopenQuiet(shut);
    var t := Fpopen(shut).0;
    QuietTransitive(s, shut, t);
    if Fpopen(shut).1 == 0 { QuietAlike(s, t, Redcb(s, out).0); }
  }

  lemma RecoverQuiet(s: Stream, out: bool, pos: nat)
    requires Shut(s) && !s.updat && !s.dirty && s.dcbout == out && Extends(s)
    ensures var t := Recover(s, out, pos); Quiet(s, t) && NoUpdateOnAppend(t)
  {
    hide Redcb, SkipTo, Quiet;
    var (w, rc) := if out then Redcb(s, false) else (s, -1);
    if out { RedcbQuiet(s, false); } else { AlikeQuiet(s, s); }
    if rc == 0 {
      var p := w.(posend := false);
      QuietAlike(s, w, p);
      SkipToQuiet(p, pos);
      QuietTransitive(s, p, SkipTo(p, pos));
      QuietAlike(s, SkipTo(p, pos), Recover(s, out, pos));
    } else {
      QuietAlike(s, w, Recover(s, out, pos));
    }
  }

  lemma RepositionQuiet(s: Stream, out: bool, pos: nat)
    requires Sane(s) && s.dcbout == out && NoUpdateOnAppend(s)
    ensures var t := Reposition(s, out, pos); Quiet(s, t) && NoUpdateOnAppend(t)
  {
    hide SkipTo, Quiet;
    if out { AlikeQuiet(s, Reposition(s, out, pos)); } else { SkipToQuiet(s, pos); }
  }

  lemma TurnQuiet(s: Stream, out: bool, pos: nat)
    requires Sane(s) && Extends(s) && NoUpdateOnAppend(s)
    ensures var t := Turn(s, out, pos).0; Quiet(s, t) && NoUpdateOnAppend(t)
  {
    hide FlushRec, Redcb, Recover, Reposition, Quiet;
    FlushQuiet(s, false);
    var (f, err) := FlushRec(s, false);
    if err == 0 {
      RedcbQuiet(f, out);
      var (t, rc) := Redcb(f, out);
      QuietTransitive(s, f, t);
      if rc == -1 {
        RecoverQuiet(t, out, pos);
        QuietTransitive(s, t, Recover(t, out, pos));
      } else {
        RepositionQuiet(t, out, pos);
        QuietTransitive(s, t, Reposition(t, out, pos));
        QuietAlike(s, Reposition(t, out, pos), Turn(s, out, pos).0);
      }
    }
  }

  /** A refused or failed turn changes nothing that was not written to, and a turn that
      follows reading is no different. */
  lemma FpswtQuiet(s: Stream, out: bool)
    requires Sane(s) && (out ==> !s.dcbout) && Extends(s) && NoUpdateOnAppend(s)
    ensures var t := Fpswt(s, out).0; Quiet(s, t) && NoUpdateOnAppend(t)
  {
    hide Turn, SkipAll, GetcReading, Quiet;
    if !s.open || (out && s.kind.member) {
      AlikeQuiet(s, Fpswt(s, out).0);
    } else if !out || s.eof {
      TurnQuiet(s, out, s.filepos);
    } else {
      if s.kind.append { SkipAllQuiet(s); } else { GetcReadingQuiet(s); }
      var (t, c) := if s.kind.append then (SkipAll(s), EOF) else GetcReading(s);
      TurnQuiet(t, out, t.filepos);
      QuietTransitive(s, t, Turn(t, out, t.filepos).0);
      if c != EOF && !t.error { QuietAlike(s, t, Fpswt(s, out).0); }
    }
  }

  lemma FgetcQuiet(s: Stream)
    requires Sane(s) && Extends(s) && NoUpdateOnAppend(s)
    ensures var t := Fgetc(s).0; Quiet(s, t) && NoUpdateOnAppend(t)
  {
    hide Fpswt, GetcHere, Quiet;
    if s.kind.read && !s.error && s.dcbout {
      FpswtQuiet(s, false);
      var (t, rc) := Fpswt(s, false);
      if rc == 0 {
        GetcHereQuiet(t);
        QuietTransitive(s, t, GetcHere(t).0);
      }
    } else if s.kind.read && !s.error {
      GetcHereQuiet(s);
    } else {
      AlikeQuiet(s, Fgetc(s).0);
    }
  }

  lemma QuietKeeps(s: Stream, t: Stream)
    requires (Sane(s) || Shut(s)) && (Sane(t) || Shut(t)) && Quiet(s, t)
    ensures Keeps(s, t)
  {
  }

  lemma AppendKeeps(s: Stream, c: byte)
    requires Sane(s) && s.dcbout && s.open && NoUpdateOnAppend(s)
    ensures var t := Append(s, c).0; Keeps(s, t) && NoUpdateOnAppend(t)
  {
    hide FlushRec, Quiet, Keeps, Sane, Pend;
    var n := s.(filepos := s.filepos + 1);
    WritesAt(s, s.filepos + 1);
    if !s.kind.binary && c == NL {
      AlikeQuiet(s, n);
      FlushQuiet(n, true);
      QuietTransitive(s, n, FlushRec(n, true).0);
      QuietKeeps(s, FlushRec(n, true).0);
    } else {
      if s.upto == s.endbuf { FlushQuiet(s, false); } else { AlikeQuiet(s, s); }
      var (t, err) := MakeRoom(s);
      QuietKeeps(s, t);
      if err == 0 {
        PendKeeps(t, c);
        KeepsTransitive(s, t, Pend(t, c));
      }
    }
  }

  lemma PendKeeps(s: Stream, c: byte)
    requires Sane(s) && s.open && s.dcbout && s.upto < s.endbuf
    ensures Keeps(s, Pend(s, c)) && Pend(s, c).updat == s.updat
  {
    hide Sane, Keeps;
    SameVolumeKeeps(s, Pend(s, c));
  }

  lemma OverKeeps(s: Stream, c: byte)
    requires OnByte(s) && s.updat && NoUpdateOnAppend(s)
    ensures var t := Over(s, c).0; Keeps(s, t) && NoUpdateOnAppend(t)
  {
    assert s.open && !s.dcbout;
    hide Over, Sane, Keeps, OnByte;
    SameVolumeKeeps(s, Over(s, c).0);
  }

  lemma SameVolumeKeeps(s: Stream, t: Stream)
    requires Sane(s) && Sane(t) && SameKind(s, t) && t.vol == s.vol && t.open == s.open && t.dcbout == s.dcbout
    ensures Keeps(s, t)
  {
    hide Sane;
  }

  lemma FpupcKeeps(s: Stream, c: byte)
    requires Sane(s) && !s.dcbout && s.updat && Extends(s) && NoUpdateOnAppend(s)
    ensures var t := Fpupc(s, c).0; Keeps(s, t) && NoUpdateOnAppend(t)
  {
    hide GetcReading, Fpswt, Over, Quiet, Keeps;
    var t := s.(ungetch := -1);
    AlikeQuiet(s, t);
    QuietKeeps(s, t);
    if s.upto < s.endbuf {
      OverKeeps(t, c);
      KeepsTransitive(s, t, Over(t, c).0);
    } else {
      GetcReadingQuiet(t);
      var (u, k) := GetcReading(t);
      QuietTransitive(s, t, u);
      QuietKeeps(s, u);
      if u.error {
      } else if k == EOF {
        FpswtQuiet(u, true);
        QuietTransitive(s, u, Fpswt(u, true).0);
        QuietKeeps(s, Fpswt(u, true).0);
      } else {
        var p := PutBack(u);
        QuietAlike(s, u, p);
        QuietKeeps(s, p);
        OverKeeps(p, c);
        KeepsTransitive(s, p, Over(p, c).0);
      }
    }
  }

  lemma FputcKeeps(s: Stream, c: byte)
    requires Sane(s) && Extends(s) && NoUpdateOnAppend(s)
    ensures var t := Fputc(s, c).0; Keeps(s, t) && NoUpdateOnAppend(t)
  {
    hide Append, Fpupc, Fpswt, Quiet, Keeps;
    if !s.kind.write || s.error {
      AlikeQuiet(s, Fputc(s, c).0);
      QuietKeeps(s, Fputc(s, c).0);
    } else if s.dcbout {
      AppendKeeps(s, c);
    } else if s.updat {
      FpupcKeeps(s, c);
      var (t, rc) := Fpupc(s, c);
      if rc == 1 {
        AppendKeeps(t, c);
        KeepsTransitive(s, t, Append(t, c).0);
      }
    } else {
      FpswtQuiet(s, true);
      var (t, rc) := Fpswt(s, true);
      QuietKeeps(s, t);
      if rc == 0 {
        AppendKeeps(t, c);
        KeepsTransitive(s, t, Append(t, c).0);
      }
    }
  }

  lemma ArrivedQuiet(s: Stream, t: Stream, target: nat)
    requires Sane(s) && Sane(t) && Quiet(s, t) && NoUpdateOnAppend(t)
    ensures Quiet(s, Arrived(t, target).0) && NoUpdateOnAppend(Arrived(t, target).0)
  {
    hide Quiet;
    QuietAlike(s, t, Arrived(t, target).0);
  }

  lemma MoveToQuiet(s: Stream, target: nat)
    requires Sane(s) && Extends(s) && NoUpdateOnAppend(s)
    ensures var t := MoveTo(s, target).0; Quiet(s, t) && NoUpdateOnAppend(t)
  {
    hide Fpswt, SkipUntil, Arrived, Quiet;
    if target == s.filepos {
      AlikeQuiet(s, s);
    } else if !s.dcbout && s.filepos < target {
      SkipUntilQuiet(s, target);
      ArrivedQuiet(s, SkipUntil(s, target), target);
    } else if !s.dcbout && s.ungetch == -1 && s.filepos - s.upto <= target {
      AlikeQuiet(s, MoveTo(s, target).0);
    } else {
      var m := s.(filepos := target);
      AlikeQuiet(s, m);
      FpswtQuiet(m, false);
      var t := Fpswt(m, false).0;
      QuietTransitive(s, m, t);
      ArrivedQuiet(s, t, target);
    }
  }

  lemma AtEndQuiet(s: Stream)
    requires Sane(s) && Extends(s) && NoUpdateOnAppend(s)
    ensures var t := AtEnd(s).0; Quiet(s, t) && NoUpdateOnAppend(t)
  {
    hide Fpswt, SkipAll, Quiet;
    if s.posend {
      FpswtQuiet(s, false);
      QuietAlike(s, Fpswt(s, false).0, AtEnd(s).0);
    } else if s.dcbout {
      AlikeQuiet(s, AtEnd(s).0);
    } else {
      SkipAllQuiet(s);
      QuietAlike(s, SkipAll(s), AtEnd(s).0);
    }
  }

  lemma PlusseekQuiet(s: Stream, offset: int, whence: int)
    requires Sane(s) && Extends(s) && NoUpdateOnAppend(s)
    ensures var t := Plusseek(s, offset, whence).0; Quiet(s, t) && NoUpdateOnAppend(t)
  {
    hide MoveTo, AtEnd, Quiet, Sane;
    AtEndQuiet(s);
    AlikeQuiet(s, s);
    var t := if s.posend || whence == SEEK_END then AtEnd(s).0 else s;
    var target := if whence == SEEK_SET then offset else t.filepos + offset;
    SaneErrno(t);
    QuietAlike(s, t, t.(errno := EINVAL));
    if 0 <= target {
      MoveToQuiet(t, target);
      QuietTransitive(s, t, MoveTo(t, target).0);
    }
  }

  lemma SaneErrno(s: Stream)
    requires Sane(s)
    ensures Sane(s.(errno := EINVAL))
  {
  }

  lemma SeekOpenQuiet(s: Stream, offset: int, whence: int)
    requires Sane(s) && s.open && Extends(s) && NoUpdateOnAppend(s)
    ensures var t := SeekOpen(s, offset, whence).0; Quiet(s, t) && NoUpdateOnAppend(t)
  {
    hide Plusseek, Quiet;
    var z := s.(error := false, enospc := false, eof := false);
    AlikeQuiet(s, z);
    PlusseekQuiet(z, offset, whence);
    var t := Plusseek(z, offset, whence).0;
    QuietTransitive(s, z, t);
    QuietAlike(s, t, SeekOpen(s, offset, whence).0);
  }

  lemma SeekQuiet(s: Stream, offset: int, whence: int)
    requires Sane(s) && s.kind.write && Extends(s) && NoUpdateOnAppend(s)
    requires Step(s, DoSeek(offset, whence)).Did?
    ensures var t := Step(s, DoSeek(offset, whence)).stream; Quiet(s, t) && NoUpdateOnAppend(t)
  {
    hide SeekOpen, PlusseekShut, Quiet, Sane;
    if s.kind.read && s.open {
      SeekOpenQuiet(s, offset, whence);
    } else if s.kind.read {
      ShutQuiet(s, offset, whence);
    } else {
      WriterQuiet(s, offset, whence);
    }
  }

  lemma ShutQuiet(s: Stream, offset: int, whence: int)
    requires Sane(s) && s.kind.Plus() && !s.open && Fseek(s, offset, whence).Did?
    ensures Quiet(s, Fseek(s, offset, whence).stream) && Fseek(s, offset, whence).stream.updat == s.updat
  {
    hide PlusseekShut, SeekOpen, Quiet, Sane;
    AlikeQuiet(s, Fseek(s, offset, whence).stream);
  }

  lemma WriterQuiet(s: Stream, offset: int, whence: int)
    requires Sane(s)
    ensures Quiet(s, WriterSeek(s, offset, whence).0)
  {
    hide Quiet, Sane;
    AlikeQuiet(s, WriterSeek(s, offset, whence).0);
  }

  lemma StepKeeps(s: Stream, op: Op)
    requires Sane(s) && s.kind.write && Extends(s) && NoUpdateOnAppend(s) && Step(s, op).Did?
    ensures var t := Step(s, op).stream; Keeps(s, t) && NoUpdateOnAppend(t) && (!op.DoPutc? ==> Quiet(s, t))
  {
    hide Fgetc, Fputc, FlushRec, Fseek, Quiet, Keeps;
    var t := Step(s, op).stream;
    match op
    case DoPutc(c) => FputcKeeps(s, c);
    case _ =>
      match op {
        case DoGetc => FgetcQuiet(s);
        case DoFlush => FlushQuiet(s, false);
        case DoSeek(offset, whence) => SeekQuiet(s, offset, whence);
      }
      QuietKeeps(s, t);
  }

  /** Over every run, whatever the device answers: the records that are secure -
      all of them on a reading stream, those there at the last output open on a
      writing one - are never dropped or resized, and an append stream never changes
      one.  A run without putc changes none but the record that was dirty already, and
      loses no more of one than a rewrite that was waiting already.  A run that reads
      without a DCB - SeekReaches says which seek does - is not a run of the library. */
  lemma {:induction false} RunKeeps(s: Stream, ops: seq<Op>)
    requires Sane(s) && s.kind.write && Extends(s) && NoUpdateOnAppend(s) && Run(s, ops).Did?
    ensures var t := Run(s, ops).stream;
      && Keeps(s, t) && NoUpdateOnAppend(t)
      && ((forall i :: 0 <= i < |ops| ==> !ops[i].DoPutc?) ==> Quiet(s, t))
    decreases |ops|
  {
    hide Step, Quiet, Keeps;
    if ops != [] {
      StepKeeps(s, ops[0]);
      var t := Step(s, ops[0]).stream;
      RunKeeps(t, ops[1..]);
      var u := Run(t, ops[1..]).stream;
      KeepsTransitive(s, t, u);
      if forall i :: 0 <= i < |ops| ==> !ops[i].DoPutc? { QuietTransitive(s, t, u); }
    } else {
      AlikeQuiet(s, s);
      QuietKeeps(s, s);
    }
  }

  // ---- the turn that succeeds -----------------------------------------------------

  /** The records, the changed one as the buffer holds it. */
  function Committed(s: Stream): (r: seq<seq<byte>>)
    requires Sane(s)
    ensures |r| == |s.vol.recs|
  {
    if s.open && s.dirty && s.vol.kept then s.vol.recs[s.vol.next - 1 := Rewritten(s)] else s.vol.recs
  }

  /** Where no rewrite waits, every record but the one changed in the buffer is what it
      was. */
  lemma QuietElsewhere(s: Stream, t: Stream, i: nat)
    requires Sane(s) && Sane(t) && Quiet(s, t) && (s.vol.dcb.Update? ==> s.vol.disk == s.vol.recs)
    requires i < Secure(s) && !(s.dirty && i == s.vol.next - 1)
    ensures i < |t.vol.recs| && t.vol.recs[i] == s.vol.recs[i]
  {
    hide Sane, Keeps;
    QuietKeeps(s, t);
    KeepsSecure(s, t);
    assert Possible(t, i) <= Possible(s, i);
    assert t.vol.recs[i] in Possible(t, i);
  }

  /** What is clean and quiet is unchanged. */
  lemma CleanQuiet(s: Stream, t: Stream)
    requires Sane(s) && Sane(t) && Clean(s) && Quiet(s, t)
    ensures Secure(s) <= |t.vol.recs| && t.vol.recs[..Secure(s)] == s.vol.recs[..Secure(s)]
  {
    hide Sane, Keeps, Quiet;
    QuietKeeps(s, t);
    KeepsSecure(s, t);
    forall i | 0 <= i < Secure(s) ensures t.vol.recs[i] == s.vol.recs[i] { QuietElsewhere(s, t, i); }
  }

  /** A run without putc, whatever the device answers. */
  lemma RunUnchanged(s: Stream, ops: seq<Op>, i: nat)
    requires Sane(s) && s.kind.write && Extends(s) && NoUpdateOnAppend(s) && Run(s, ops).Did?
    requires s.vol.dcb.Update? ==> s.vol.disk == s.vol.recs
    requires forall k :: 0 <= k < |ops| ==> !ops[k].DoPutc?
    requires i < Secure(s) && !(s.dirty && i == s.vol.next - 1)
    ensures var t := Run(s, ops).stream; i < |t.vol.recs| && t.vol.recs[i] == s.vol.recs[i]
  {
    hide Sane, Quiet, Keeps, Run;
    RunKeeps(s, ops);
    QuietElsewhere(s, Run(s, ops).stream, i);
  }

  lemma KeepsSecure(s: Stream, t: Stream)
    requires Sane(s) && Sane(t) && Keeps(s, t)
    ensures Secure(s) <= Secure(t)
  {
  }

  lemma FlushCommits(s: Stream)
    requires Sane(s)
    ensures var (f, err) := FlushRec(s, false);
      err == 0 ==> Committed(s) <= f.vol.recs && !f.dirty && (!s.dcbout ==> f.vol.recs == Committed(s))
  {
    hide Packed, Replace;
  }

  lemma TurnCommits(s: Stream, out: bool, pos: nat)
    requires Sane(s) && Extends(s) && NoUpdateOnAppend(s) && Turn(s, out, pos).1 == 0
    ensures Committed(s) <= Turn(s, out, pos).0.vol.recs
  {
    hide FlushRec, Redcb, Recover, SkipTo, Quiet;
    FlushCommits(s);
    FlushQuiet(s, false);
    var f := FlushRec(s, false).0;
    RedcbQuiet(f, out);
    if !out {
      var t := Redcb(f, out).0;
      SkipToQuiet(t, pos);
      CleanQuiet(t, SkipTo(t, pos));
      assert t.vol.recs[..Secure(t)] == t.vol.recs;
    }
  }

  /** A read that finds the end has committed the record, or left it in the buffer. */
  lemma EndCommits(s: Stream)
    requires Sane(s) && !s.dcbout && GetcReading(s).1 == EOF && !GetcReading(s).0.error
    ensures Committed(GetcReading(s).0) == Committed(s)
  {
    hide FlushRec, Refill, Committed, Take;
    var t := GetcReading(s).0;
    if s.kind.read && s.ungetch == -1 && !s.eof {
      FlushCommits(s);
      CommittedClean(t);
    } else {
      CommittedAlike(s, t);
    }
  }

  lemma CommittedClean(s: Stream)
    requires Sane(s) && !s.dirty
    ensures Committed(s) == s.vol.recs
  {
    hide Sane;
  }

  lemma CommittedAlike(s: Stream, t: Stream)
    requires Sane(s) && Sane(t) && t == s.(errno := t.errno)
    ensures Committed(t) == Committed(s)
  {
    hide Packed, Replace;
  }

  lemma AppendSkips(s: Stream)
    requires Sane(s) && !s.dcbout && s.kind.append && NoUpdateOnAppend(s)
    ensures Committed(SkipAll(s)) == Committed(s)
  {
    hide SkipAll, Quiet;
    var t := SkipAll(s);
    SkipAllQuiet(s);
    CleanQuiet(s, t);
    QuietKeeps(s, t);
    KeepsSecure(s, t);
    assert t.vol.recs[..|s.vol.recs|] == t.vol.recs && s.vol.recs[..|s.vol.recs|] == s.vol.recs;
  }

  /** The data set before a switch - the changed record as the buffer holds it - is a
      prefix of the one after a switch that succeeds.  After one that does not, the secure
      records are there, and those that nothing waited for are what they were. */
  lemma FpswtKeeps(s: Stream, out: bool)
    requires Sane(s) && (out ==> !s.dcbout) && Extends(s) && NoUpdateOnAppend(s)
    ensures var (t, rc) := Fpswt(s, out);
      && Keeps(s, t) && Quiet(s, t) && (rc == 0 ==> Committed(s) <= t.vol.recs)
      && (Clean(s) ==> t.vol.recs[..Secure(s)] == s.vol.recs[..Secure(s)])
  {
    hide Turn, SkipAll, GetcReading, Quiet, Keeps, Committed, PutBack;
    var (t, rc) := Fpswt(s, out);
    FpswtQuiet(s, out);
    QuietKeeps(s, t);
    KeepsSecure(s, t);
    if Clean(s) { CleanQuiet(s, t); }
    if rc == 0 {
      if !out || s.eof {
        TurnCommits(s, out, s.filepos);
      } else if s.kind.append {
        AppendSkips(s);
        SkipAllQuiet(s);
        TurnCommits(SkipAll(s), out, SkipAll(s).filepos);
      } else {
        EndCommits(s);
        GetcReadingQuiet(s);
        TurnCommits(GetcReading(s).0, out, GetcReading(s).0.filepos);
      }
    }
  }
}
