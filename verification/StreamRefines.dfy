/** Every run of a '+' stream on a device that does not fail is a run of the
    simple document: the turns of the DCB, the buffer and the deferred rewrite
    of a changed record cannot be seen. */
module StreamRefines {
  import opened Bytes
  import opened AccessMethod
  import opened StreamSpec
  import D = Doc

  function FormOf(s: Stream): D.Form {
    D.Form(s.vol.geo, s.kind.binary, s.kind.append)
  }

  function Views(g: Geometry, binary: bool, recs: seq<seq<byte>>): (r: seq<seq<byte>>)
    requires g.Shape() && g.RecordsOk(recs)
    ensures |r| == |recs|
  {
    if recs == [] then [] else [RecordView(g, binary, recs[0])] + Views(g, binary, recs[1..])
  }

  /** The records as a reader sees them, the changed one in the buffer included. */
  function Seen(s: Stream): (r: seq<seq<byte>>)
    requires Sane(s)
    ensures |r| == |s.vol.recs|
  {
    var views := Views(s.vol.geo, s.kind.binary, s.vol.recs);
    if s.dirty then views[s.vol.next - 1 := s.buf[..s.endbuf]] else views
  }

  /** The document that a stream stands for. */
  function Abstract(s: Stream): D.Doc
    requires Sane(s)
  {
    D.Doc(Seen(s), if s.open && s.dcbout then s.buf[..s.upto] else [], s.filepos)
  }

  /** The data bytes of a record survive being read and written back: a text
      record does not end in X'00', a binary record is not empty. */
  predicate CleanData(binary: bool, data: seq<byte>) {
    if binary then data != [] else data == [] || data[|data| - 1] != 0
  }

  /** A record that goes back as it was.  V and U keep their length and so the X'00's
      that a text stream does not show; F is filled up with blanks. */
  predicate CleanRecord(g: Geometry, binary: bool, data: seq<byte>) {
    if binary || g.recfm.F? then CleanData(binary, data) else true
  }

  predicate CleanRecords(g: Geometry, binary: bool, recs: seq<seq<byte>>)
    requires g.Shape() && g.RecordsOk(recs)
  {
    recs == [] || (CleanRecord(g, binary, RecordData(g, recs[0])) && CleanRecords(g, binary, recs[1..]))
  }

  /** What holds between the calls of a run on a device that does not fail. */
  predicate Healthy(s: Stream) {
    && Sane(s) && s.open && !s.error && !s.enospc && s.ungetch == -1
    && s.kind.Plus() && !s.kind.member && s.vol.geo.dasd && NoFailure(s.vol.answers)
    && s.extend && (!s.dcbout ==> (s.updat <==> !s.kind.append && s.vol.geo.updatable))
    && CleanRecords(s.vol.geo, s.kind.binary, s.vol.recs)
  }

  /** A position among records: win is the record read last, the next-th, and
      pos counts the records read less what is left of it. */
  predicate Placed(seen: seq<seq<byte>>, next: nat, win: seq<byte>, upto: nat, pos: nat) {
    && next <= |seen| && upto <= |win|
    && (if next == 0 then win == [] else win != [] && win == seen[next - 1])
    && pos + (|win| - upto) == |D.Flat(seen[..next])|
  }

  /** A changed record keeps its length, its '\n' and its last byte's being data. */
  predicate Rewritable(s: Stream)
    requires Sane(s) && s.dirty
  {
    && s.endbuf == |Views(s.vol.geo, s.kind.binary, s.vol.recs)[s.vol.next - 1]|
    && CleanData(s.kind.binary, Held(s))
    && (!s.kind.binary ==> s.endbuf != 0 && s.buf[s.endbuf - 1] == NL)
  }

  predicate Reading(s: Stream) {
    && Healthy(s) && !s.dcbout
    && s.upto <= s.endbuf && Placed(Seen(s), s.vol.next, s.buf[..s.endbuf], s.upto, s.filepos)
    && (s.dirty ==> Rewritable(s))
    && (s.eof ==> s.upto == s.endbuf && s.vol.next == |s.vol.recs| && !s.vol.kept)
    && (if s.vol.kept then true else !s.dirty && s.vol.next in {0, |s.vol.recs|})
  }

  /** How far the access method can still replace the record in the buffer. */
  function ModeOf(s: Stream): D.Mode {
    if s.dcbout then D.Writing else if s.vol.kept || s.vol.next == 0 then D.Fresh else D.Spent
  }

  /** A DCB that writes, with bytes pending that will read back as they are. */
  predicate Drafting(s: Stream) {
    && Healthy(s) && s.dcbout && !s.dirty && !s.eof
    && (s.upto == 0 || CleanData(s.kind.binary, s.buf[..s.upto]))
  }

  /** A writing stream is at the end, behind the pending bytes. */
  predicate Writing(s: Stream) {
    Drafting(s) && s.filepos == |D.Flat(Seen(s))| + s.upto
  }

  predicate Tidy(s: Stream) { !s.posend && (Reading(s) || Writing(s)) }

  // ---- records ------------------------------------------------------------------

  lemma {:induction false} ViewAt(g: Geometry, binary: bool, recs: seq<seq<byte>>, i: nat)
    requires g.Shape() && g.RecordsOk(recs) && i < |recs|
    ensures Views(g, binary, recs)[i] == RecordView(g, binary, recs[i])
    ensures CleanRecords(g, binary, recs) ==> CleanRecord(g, binary, RecordData(g, recs[i]))
  {
    if i != 0 { ViewAt(g, binary, recs[1..], i - 1); }
  }

  lemma {:induction false} ViewsUpdate(g: Geometry, binary: bool, recs: seq<seq<byte>>, i: nat, raw: seq<byte>)
    requires g.Shape() && g.RecordsOk(recs) && i < |recs| && g.RecordOk(raw)
    ensures Views(g, binary, recs[i := raw]) == Views(g, binary, recs)[i := RecordView(g, binary, raw)]
    ensures CleanRecords(g, binary, recs) && CleanRecord(g, binary, RecordData(g, raw)) ==>
              CleanRecords(g, binary, recs[i := raw])
  {
    hide RecordView, RecordData, CleanRecord;
    if i == 0 {
      assert recs[0 := raw][1..] == recs[1..];
    } else {
      assert recs[i := raw][1..] == recs[1..][i - 1 := raw];
      ViewsUpdate(g, binary, recs[1..], i - 1, raw);
    }
  }

  lemma {:induction false} ViewsAppend(g: Geometry, binary: bool, recs: seq<seq<byte>>, raw: seq<byte>)
    requires g.Shape() && g.RecordsOk(recs) && g.RecordOk(raw)
    ensures Views(g, binary, recs + [raw]) == Views(g, binary, recs) + [RecordView(g, binary, raw)]
    ensures CleanRecords(g, binary, recs) && CleanRecord(g, binary, RecordData(g, raw)) ==>
              CleanRecords(g, binary, recs + [raw])
  {
    if recs == [] {
      assert recs + [raw] == [raw] && [raw][1..] == [];
    } else {
      assert (recs + [raw])[1..] == recs[1..] + [raw];
      ViewsAppend(g, binary, recs[1..], raw);
    }
  }

  lemma {:induction false} StripClean(data: seq<byte>)
    requires CleanData(false, data)
    ensures StripNul(data) == data
  {
  }

  /** A clean record is read back as its data: what Packed() wrote, RecordData()
      finds, padding included. */
  lemma PackedView(g: Geometry, binary: bool, data: seq<byte>, fill: byte)
    requires g.Shape() && |data| <= g.Capacity() && CleanData(binary, data)
    requires !binary ==> fill != 0
    ensures var raw := Packed(g, data, fill);
      && RecordData(g, raw) == (if g.recfm.F? then data + Fill(fill, g.lrecl - |data|) else data)
      && CleanData(binary, RecordData(g, raw))
      && RecordView(g, binary, raw) == (if binary then RecordData(g, raw) else RecordData(g, raw) + [NL])
  {
    var raw := Packed(g, data, fill);
    assert RecordData(g, raw) == (if g.recfm.F? then data + Fill(fill, g.lrecl - |data|) else data);
    if !binary { StripClean(RecordData(g, raw)); }
  }

  /** What is pending reads back as the document's finished record. */
  lemma PendingView(s: Stream)
    requires Sane(s) && s.open && s.dcbout
    requires s.upto == 0 ==> !s.kind.binary
    requires s.upto != 0 ==> CleanData(s.kind.binary, s.buf[..s.upto])
    ensures var raw := Packed(s.vol.geo, Pending(s), FillByte(s));
      && RecordView(s.vol.geo, s.kind.binary, raw) == D.Finish(FormOf(s), s.buf[..s.upto])
      && CleanData(s.kind.binary, RecordData(s.vol.geo, raw))
  {
    PackedView(s.vol.geo, s.kind.binary, Pending(s), FillByte(s));
  }

  lemma {:induction false} StripFill(data: seq<byte>, n: nat)
    requires CleanData(false, data)
    ensures StripNul(data + Fill(0, n)) == data
  {
    if n != 0 {
      StripFill(data, n - 1);
      assert (data + Fill(0, n))[..|data| + n - 1] == data + Fill(0, n - 1);
    } else {
      assert data + Fill(0, 0) == data;
    }
  }

  /** Data handed back over the record was: its data bytes afterwards. */
  lemma ReplacedData(g: Geometry, was: seq<byte>, data: seq<byte>, fill: byte)
    requires g.Shape() && g.RecordOk(was) && |data| <= |RecordData(g, was)|
    ensures RecordData(g, Replace(g, was, Packed(g, data, fill))) ==
              data + Fill(if g.recfm.F? then fill else 0, |RecordData(g, was)| - |data|)
  {
    var rec := Packed(g, data, fill);
    if g.recfm.V? {
      assert rec[4..] == data;
      assert Replace(g, was, rec)[4..] == Fit(data, |was| - 4);
    }
  }

  /** A record handed back at the length it was read with reads as it was handed back. */
  lemma ReplacedView(g: Geometry, binary: bool, was: seq<byte>, data: seq<byte>, fill: byte)
    requires g.Shape() && g.RecordOk(was) && CleanRecord(g, binary, RecordData(g, was)) && CleanData(binary, data)
    requires |data| == |if binary then RecordData(g, was) else StripNul(RecordData(g, was))|
    ensures var raw := Replace(g, was, Packed(g, data, fill));
      && RecordView(g, binary, raw) == (if binary then data else data + [NL])
      && CleanRecord(g, binary, RecordData(g, raw))
  {
    hide Replace, Packed, RecordData;
    ReplacedData(g, was, data, fill);
    if binary {
      assert data + Fill(0, 0) == data;
      assert data + Fill(fill, 0) == data;
    } else if g.recfm.F? {
      StripClean(RecordData(g, was));
      assert data + Fill(fill, 0) == data;
      StripClean(data);
    } else {
      StripFill(data, |RecordData(g, was)| - |data|);
    }
  }

  lemma FinishLength(s: Stream)
    requires s.upto <= |s.buf| && !s.kind.binary
    ensures |D.Finish(FormOf(s), s.buf[..s.upto])| == s.upto + Pad(s) + 1
  {
  }

  /** The record changed in the buffer reads back as the buffer shows it. */
  lemma HeldView(s: Stream)
    requires Reading(s) && s.dirty
    ensures var raw := Replace(s.vol.geo, s.vol.recs[s.vol.next - 1], Packed(s.vol.geo, Held(s), FillByte(s)));
      && RecordView(s.vol.geo, s.kind.binary, raw) == s.buf[..s.endbuf]
      && CleanRecord(s.vol.geo, s.kind.binary, RecordData(s.vol.geo, raw))
  {
    hide D.Flat, CleanRecords, Packed, Replace, RecordData, Views, Placed;
    var was := s.vol.recs[s.vol.next - 1];
    ViewAt(s.vol.geo, s.kind.binary, s.vol.recs, s.vol.next - 1);
    ReplacedView(s.vol.geo, s.kind.binary, was, Held(s), FillByte(s));
    if !s.kind.binary {
      assert Held(s) + [NL] == s.buf[..s.endbuf];
    }
  }

  // ---- reading ------------------------------------------------------------------

  /** Committing a changed record changes nothing that can be seen. */
  lemma CommitRefines(s: Stream)
    requires Reading(s)
    ensures var (t, err) := FlushRec(s, false);
      && err == 0 && !t.dirty && Reading(t) && Seen(t) == Seen(s)
      && t == s.(dirty := false, vol := t.vol) && t.vol == s.vol.(recs := t.vol.recs, answers := t.vol.answers)
      && |t.vol.recs| == |s.vol.recs|
  {
    hide Views, CleanRecords, D.Flat, Packed, Replace, RecordView, RecordData, CleanRecord;
    if s.dirty {
      HeldView(s);
      var raw := Replace(s.vol.geo, s.vol.recs[s.vol.next - 1], Packed(s.vol.geo, Held(s), FillByte(s)));
      ViewsUpdate(s.vol.geo, s.kind.binary, s.vol.recs, s.vol.next - 1, raw);
    }
  }

  /** The bytes still to be read: the rest of the window, then the records. */
  lemma Unread(seen: seq<seq<byte>>, next: nat, win: seq<byte>, upto: nat, pos: nat)
    requires Placed(seen, next, win, upto, pos)
    ensures pos <= |D.Flat(seen)|
    ensures D.Flat(seen)[pos..] == win[upto..] + D.Flat(seen[next..])
    ensures upto < |win| ==> pos < |D.Flat(seen)| && D.Flat(seen)[pos] == win[upto]
    ensures upto == |win| && next == |seen| ==> pos == |D.Flat(seen)|
  {
    assert seen == seen[..next] + seen[next..];
    D.FlatConcat(seen[..next], seen[next..]);
    if next == 0 {
      assert pos == 0 && seen[..0] == [];
    } else {
      D.FlatAt(seen, next - 1);
      assert D.Flat(seen)[pos..] == win[upto..] + D.Flat(seen[next..]);
    }
    if upto < |win| { assert D.Flat(seen)[pos..][0] == win[upto]; }
  }

  /** Another record in the window, at its first byte. */
  lemma PlacedNext(seen: seq<seq<byte>>, next: nat, win: seq<byte>, pos: nat)
    requires Placed(seen, next, win, |win|, pos) && next < |seen| && seen[next] != []
    ensures Placed(seen, next + 1, seen[next], 0, pos)
  {
    D.FlatAt(seen, next);
  }

  /** A record that can be rewritten shows at least one byte. */
  lemma NotEmpty(g: Geometry, binary: bool, raw: seq<byte>)
    requires g.Shape() && g.RecordOk(raw) && CleanRecord(g, binary, RecordData(g, raw))
    ensures RecordView(g, binary, raw) != []
  {
    hide RecordData;
  }

  /** The next record comes into the buffer. */
  lemma RefillRefines(s: Stream)
    requires Reading(s) && !s.dirty && !s.eof && s.upto == s.endbuf
    ensures var (t, ok) := Refill(s);
      && Reading(t) && Seen(t) == Seen(s) && t.filepos == s.filepos
      && (ok <==> s.vol.next < |s.vol.recs|)
      && (ok ==> t.upto == 0 && t.upto < t.endbuf && ModeOf(t) == ModeOf(s))
      && (!ok ==> t.eof && ModeOf(t) == D.EndRead(Abstract(s)))
  {
    hide Views, RecordView, RecordData, D.Flat;
    if s.vol.next < |s.vol.recs| {
      ViewAt(s.vol.geo, s.kind.binary, s.vol.recs, s.vol.next);
      NotEmpty(s.vol.geo, s.kind.binary, s.vol.recs[s.vol.next]);
      PlacedNext(Seen(s), s.vol.next, s.buf[..s.endbuf], s.filepos);
    }
  }

  /** A byte of the window is the byte at the position. */
  lemma TakeRefines(s: Stream)
    requires Reading(s) && s.upto < s.endbuf
    ensures var (t, c) := Take(s);
      && Reading(t) && Seen(t) == Seen(s) && t.filepos == s.filepos + 1 && ModeOf(t) == ModeOf(s)
      && s.filepos < |D.Flat(Seen(s))| && c == D.Flat(Seen(s))[s.filepos]
  {
    hide Views, D.Flat;
    Unread(Seen(s), s.vol.next, s.buf[..s.endbuf], s.upto, s.filepos);
    assert s.buf[..s.endbuf][s.upto] == s.buf[s.upto];
  }

  /** What reading one byte means, seen from the records. */
  predicate Got(s: Stream, t: Stream, c: int)
    requires Sane(s)
  {
    && Reading(t) && Seen(t) == Seen(s)
    && if s.filepos < |D.Flat(Seen(s))|
       then c == D.Flat(Seen(s))[s.filepos] && t.filepos == s.filepos + 1 && !t.eof && ModeOf(t) == ModeOf(s)
       else c == EOF && t.filepos == s.filepos && t.eof && ModeOf(t) == D.EndRead(Abstract(s))
  }

  /** __fgetc() on a reading DCB returns the byte at the position. */
  lemma GetcReadingRefines(s: Stream)
    requires Reading(s)
    ensures var (t, c) := GetcReading(s); Got(s, t, c)
  {
    if s.upto < s.endbuf {
      TakeRefines(s);
    } else if s.eof {
      Unread(Seen(s), s.vol.next, s.buf[..s.endbuf], s.upto, s.filepos);
    } else {
      CommitRefines(s);
      var t := FlushRec(s, false).0;
      RefillRefines(t);
      var (u, ok) := Refill(t);
      if ok {
        TakeRefines(u);
      } else {
        Unread(Seen(u), u.vol.next, u.buf[..u.endbuf], u.upto, u.filepos);
      }
    }
  }

  lemma {:induction false} SkipUntilRefines(s: Stream, pos: nat)
    requires Reading(s)
    ensures var t := SkipUntil(s, pos);
      && Reading(t) && Seen(t) == Seen(s)
      && t.filepos == (if pos <= s.filepos then s.filepos
                       else if pos <= |D.Flat(Seen(s))| then pos else |D.Flat(Seen(s))|)
      && ModeOf(t) == (if pos <= |D.Flat(Seen(s))| then ModeOf(s) else D.EndRead(Abstract(s)))
    decreases |s.vol.recs| - s.vol.next, s.ungetch != -1, s.endbuf - s.upto
  {
    hide Views, CleanRecords, D.Flat, GetcReading;
    Unread(Seen(s), s.vol.next, s.buf[..s.endbuf], s.upto, s.filepos);
    if s.filepos < pos {
      GetcReadingRefines(s);
      var (t, c) := GetcReading(s);
      if c != EOF { SkipUntilRefines(t, pos); }
    }
  }

  lemma {:induction false} SkipAllRefines(s: Stream)
    requires Reading(s)
    ensures var t := SkipAll(s);
      && Reading(t) && Seen(t) == Seen(s) && t.filepos == |D.Flat(Seen(s))|
      && ModeOf(t) == D.EndRead(Abstract(s))
    decreases |s.vol.recs| - s.vol.next, s.ungetch != -1, s.endbuf - s.upto
  {
    hide Views, CleanRecords, D.Flat, GetcReading;
    Unread(Seen(s), s.vol.next, s.buf[..s.endbuf], s.upto, s.filepos);
    GetcReadingRefines(s);
    var (t, c) := GetcReading(s);
    if c != EOF { SkipAllRefines(t); }
  }

  // ---- writing records -------------------------------------------------------------

  /** A flushed record joins the records seen, and filepos counts it as it reads
      back - on a binary stream it counts the bytes written. */
  lemma WritePendingRefines(s: Stream, newline: bool)
    requires Drafting(s) && (s.upto == 0 ==> newline && !s.kind.binary)
    ensures var (t, err) := WritePending(s, newline); var rec := D.Finish(FormOf(s), s.buf[..s.upto]);
      && err == 0 && Drafting(t) && t.upto == 0 && Seen(t) == Seen(s) + [rec]
      && t.filepos == s.filepos + (if s.kind.binary then 0 else |rec| - s.upto - (if newline then 1 else 0))
  {
    hide Views, D.Flat, D.Finish, CleanRecords, RecordData, RecordView;
    PendingView(s);
    if !s.kind.binary { FinishLength(s); }
    var raw := Packed(s.vol.geo, Pending(s), FillByte(s));
    ViewsAppend(s.vol.geo, s.kind.binary, s.vol.recs, raw);
  }

  // ---- turning round -----------------------------------------------------------------

  /** Closed and opened again, with nothing pending: the same records, and an
      output open is EXTEND. */
  lemma RedcbRefines(s: Stream, out: bool)
    requires Healthy(s) && !s.dirty
    ensures var (t, rc) := Redcb(s, out);
      && rc == 0 && Healthy(t) && t.dcbout == out && !t.dirty && !t.eof
      && t.vol.recs == s.vol.recs && Seen(t) == Seen(s) && t.upto == 0
      && (!out ==> t.endbuf == 0 && t.vol.next == 0)
  {
  }

  /** The flush that comes first leaves nothing pending or changed. */
  lemma FlushSettles(s: Stream)
    requires Reading(s) || Drafting(s)
    ensures var (f, err) := FlushRec(s, false);
      && err == 0 && Healthy(f) && !f.dirty && f.dcbout == s.dcbout && SameKind(s, f)
      && Seen(f) == D.Settle(FormOf(s), Abstract(s)).closed
  {
    if !s.dcbout {
      CommitRefines(s);
    } else if s.upto != 0 {
      WritePendingRefines(s, false);
    }
  }

  /** The mode after reading forward to pos from the start. */
  function ModeAt(d: D.Doc, pos: nat): D.Mode {
    if pos <= |D.Flat(d.closed)| then D.Fresh else D.EndRead(d)
  }

  function AtMost(pos: nat, end: nat): nat { if pos <= end then pos else end }

  /** Reopened for reading and skipped forward to pos. */
  lemma ReopenToReading(f: Stream, pos: nat)
    requires Healthy(f) && !f.dirty && !f.posend
    ensures var (t, rc) := Redcb(f, false);
      && rc == 0 && !t.posend && Reading(SkipTo(t, pos)) && Seen(SkipTo(t, pos)) == Seen(f)
      && SkipTo(t, pos).filepos == AtMost(pos, |D.Flat(Seen(f))|)
      && ModeOf(SkipTo(t, pos)) == ModeAt(Abstract(f), pos)
  {
    RedcbRefines(f, false);
    var t := Redcb(f, false).0.(filepos := 0);
    assert Seen(t) == Seen(f);
    assert Placed(Seen(t), 0, t.buf[..0], 0, 0);
    SkipUntilRefines(t, pos);
  }

  /** Turned to reading at pos: nothing pending is lost, and the position is
      pos wherever the records reach that far. */
  lemma TurnToReading(s: Stream, pos: nat)
    requires !s.posend && (Reading(s) || Drafting(s))
    ensures var (t, rc) := Turn(s, false, pos); var e := D.Settle(FormOf(s), Abstract(s));
      && rc == 0 && Reading(t) && Seen(t) == e.closed
      && t.filepos == AtMost(pos, |D.Flat(e.closed)|) && ModeOf(t) == ModeAt(e, pos)
  {
    FlushSettles(s);
    ReopenToReading(FlushRec(s, false).0, pos);
  }

  /** Turned to writing at the end. */
  lemma TurnToWriting(s: Stream)
    requires Reading(s) && s.filepos == |D.Flat(Seen(s))|
    ensures var (t, rc) := Turn(s, true, s.filepos);
      && rc == 0 && Writing(t) && Seen(t) == Seen(s) && t.upto == 0 && t.filepos == s.filepos
  {
    CommitRefines(s);
    var f := FlushRec(s, false).0;
    RedcbRefines(f, true);
    var t := Redcb(f, true).0;
    assert Seen(t.(filepos := s.filepos)) == Seen(t);
  }

  // ---- the calls ---------------------------------------------------------------------

  /** The position of a tidy stream lies inside its document. */
  lemma PositionInside(s: Stream)
    requires Tidy(s)
    ensures s.filepos <= |D.Content(FormOf(s), Abstract(s))|
  {
    if Reading(s) {
      Unread(Seen(s), s.vol.next, s.buf[..s.endbuf], s.upto, s.filepos);
    } else if s.upto != 0 {
      var tail := s.buf[..s.upto];
      D.FlatConcat(Seen(s), [D.Finish(FormOf(s), tail)]);
      D.FlatOne(D.Finish(FormOf(s), tail));
    }
  }

  /** Got is what the document's Getc does, from a settled document. */
  lemma GotIsGetc(s: Stream, t: Stream, u: Stream, c: int)
    requires Tidy(s) && Reading(t) && SameKind(s, t) && t.filepos == s.filepos
    requires Seen(t) == D.Settle(FormOf(s), Abstract(s)).closed && Got(t, u, c)
    requires !s.dcbout ==> ModeOf(t) == ModeOf(s)
    requires s.dcbout ==> ModeOf(t) == D.Fresh
    ensures (Abstract(u), c) == D.Getc(FormOf(s), Abstract(s))
    ensures ModeOf(u) == D.ModeGetc(FormOf(s), Abstract(s), ModeOf(s))
  {
    hide Views, CleanRecords;
  }

  /** __fgetc() is Getc of the document, whichever way the DCB was turned. */
  lemma FgetcRefines(s: Stream)
    requires Tidy(s)
    ensures var (t, c) := Fgetc(s);
      && Tidy(t) && (Abstract(t), c) == D.Getc(FormOf(s), Abstract(s))
      && ModeOf(t) == D.ModeGetc(FormOf(s), Abstract(s), ModeOf(s))
  {
    PositionInside(s);
    if s.dcbout {
      TurnToReading(s, s.filepos);
      var t := Turn(s, false, s.filepos).0;
      assert Fgetc(s) == GetcReading(t);
      GetcReadingRefines(t);
      GotIsGetc(s, t, GetcReading(t).0, GetcReading(t).1);
    } else {
      GetcReadingRefines(s);
      GotIsGetc(s, s, GetcReading(s).0, GetcReading(s).1);
    }
  }

  /** Every flush keeps the position right except one that pads a binary F
      record: there filepos counts the bytes, not the padding. */
  predicate Counted(f: D.Form, d: D.Doc) {
    f.binary && f.geo.recfm.F? ==> d.tail == [] || |d.tail| == f.geo.lrecl
  }

  /** __fflush() is Flush of the document. */
  lemma FflushRefines(s: Stream)
    requires Tidy(s) && Counted(FormOf(s), Abstract(s))
    ensures var (t, err) := FlushRec(s, false);
      && err == 0 && Tidy(t) && Abstract(t) == D.Flush(FormOf(s), Abstract(s))
      && ModeOf(t) == ModeOf(s)
  {
    if !s.dcbout {
      CommitRefines(s);
    } else if s.upto != 0 {
      WritePendingRefines(s, false);
      var rec := D.Finish(FormOf(s), s.buf[..s.upto]);
      D.FlatConcat(Seen(s), [rec]);
      D.FlatOne(rec);
    }
  }

  /** One byte at the end of the pending ones. */
  lemma PutPending(s: Stream, c: byte)
    requires Writing(s) && s.upto < s.endbuf && (c != 0 || s.kind.binary)
    ensures var t := s.(buf := s.buf[s.upto := c], upto := s.upto + 1, filepos := s.filepos + 1);
      Writing(t) && Seen(t) == Seen(s) && t.buf[..t.upto] == s.buf[..s.upto] + [c]
  {
    var t := s.(buf := s.buf[s.upto := c], upto := s.upto + 1, filepos := s.filepos + 1);
    assert t.buf[..t.upto] == s.buf[..s.upto] + [c];
    assert Seen(t) == Seen(s);
  }

  /** A record ended at the end of the document. */
  lemma EndRecord(s: Stream, newline: bool)
    requires Drafting(s) && (s.upto == 0 ==> newline && !s.kind.binary)
    requires s.filepos == |D.Flat(Seen(s))| + s.upto + (if newline then 1 else 0)
    requires newline ==> !s.kind.binary
    requires s.kind.binary ==> s.upto == s.endbuf
    ensures var t := WritePending(s, newline).0;
      && WritePending(s, newline).1 == 0 && Writing(t) && t.upto == 0
      && Seen(t) == Seen(s) + [D.Finish(FormOf(s), s.buf[..s.upto])]
  {
    WritePendingRefines(s, newline);
    var rec := D.Finish(FormOf(s), s.buf[..s.upto]);
    D.FlatConcat(Seen(s), [rec]);
    D.FlatOne(rec);
  }

  lemma AppendNewline(s: Stream)
    requires Writing(s) && !s.kind.binary
    ensures var (t, r) := Append(s, NL);
      Writing(t) && r == NL && Abstract(t) == D.Append(FormOf(s), Abstract(s), NL)
  {
    hide WritePending, Views;
    var n := s.(filepos := s.filepos + 1);
    EndRecord(n, true);
    assert Append(s, NL) == (WritePending(n, true).0, NL as int);
  }

  lemma AppendByte(s: Stream, c: byte)
    requires Writing(s) && (s.kind.binary || (c != 0 && c != NL))
    ensures var (t, r) := Append(s, c);
      Writing(t) && r == c && Abstract(t) == D.Append(FormOf(s), Abstract(s), c)
  {
    if s.upto == s.endbuf {
      EndRecord(s, false);
      var t := WritePending(s, false).0;
      PutPending(t, c);
      assert t.buf[..0] + [c] == [c];
    } else {
      PutPending(s, c);
    }
  }

  /** __fputc() on a writing DCB is Append of the document. */
  lemma AppendRefines(s: Stream, c: byte)
    requires Writing(s) && (c != 0 || s.kind.binary)
    ensures var (t, r) := Append(s, c);
      Writing(t) && r == c && Abstract(t) == D.Append(FormOf(s), Abstract(s), c)
  {
    if !s.kind.binary && c == NL { AppendNewline(s); } else { AppendByte(s, c); }
  }

  // ---- writing over -------------------------------------------------------------------

  /** What a loaded text record leaves in the window. */
  lemma TextWindow(buf: seq<byte>, endbuf: nat, data: seq<byte>)
    requires endbuf <= |buf| && buf[..endbuf] == StripNul(data) + [NL]
    ensures 0 < endbuf && buf[endbuf - 1] == NL && CleanData(false, buf[..endbuf - 1])
  {
    assert buf[endbuf - 1] == buf[..endbuf][endbuf - 1];
    assert buf[..endbuf - 1] == StripNul(data);
  }

  /** The record in the buffer can be written back, changed or not. */
  lemma WindowClean(s: Stream)
    requires Reading(s) && 0 < s.vol.next
    ensures s.endbuf == |Views(s.vol.geo, s.kind.binary, s.vol.recs)[s.vol.next - 1]|
    ensures CleanData(s.kind.binary, Held(s))
    ensures !s.kind.binary ==> s.endbuf != 0 && s.buf[s.endbuf - 1] == NL
  {
    hide Views, D.Flat;
    if !s.dirty {
      var raw := s.vol.recs[s.vol.next - 1];
      ViewAt(s.vol.geo, s.kind.binary, s.vol.recs, s.vol.next - 1);
      assert s.buf[..s.endbuf] == RecordView(s.vol.geo, s.kind.binary, raw);
      if !s.kind.binary {
        TextWindow(s.buf, s.endbuf, RecordData(s.vol.geo, raw));
      }
    }
  }

  lemma PlacedEdit(seen: seq<seq<byte>>, next: nat, win: seq<byte>, upto: nat, pos: nat,
                   view: seq<byte>, moved: nat)
    requires Placed(seen, next, win, upto, pos) && 0 < next
    requires |view| == |win| && upto + moved <= |win|
    ensures Placed(seen[next - 1 := view], next, view, upto + moved, pos + moved)
  {
    var seen' := seen[next - 1 := view];
    D.FlatAt(seen, next - 1);
    D.FlatAt(seen', next - 1);
    assert seen'[..next - 1] == seen[..next - 1];
  }

  /** The buffer with other bytes in it, and the position moved on. */
  function Edit(s: Stream, buf: seq<byte>, moved: nat): Stream {
    s.(buf := buf, upto := s.upto + moved, filepos := s.filepos + moved, dirty := true)
  }

  /** A changed buffer is a changed record. */
  lemma EditRefines(s: Stream, buf: seq<byte>, moved: nat)
    requires Reading(s) && s.updat && s.vol.kept
    requires |buf| == |s.buf| && s.upto + moved <= s.endbuf
    requires Held(Edit(s, buf, moved)) != [] ==> CleanData(s.kind.binary, Held(Edit(s, buf, moved)))
    requires buf[s.endbuf - 1..] == s.buf[s.endbuf - 1..] || s.kind.binary
    ensures var t := Edit(s, buf, moved);
      Reading(t) && t.vol.kept && Seen(t) == Seen(s)[s.vol.next - 1 := buf[..s.endbuf]]
  {
    hide Views, CleanRecords, D.Flat;
    WindowClean(s);
    var t := Edit(s, buf, moved);
    assert !s.kind.binary ==> buf[s.endbuf - 1] == buf[s.endbuf - 1..][0] == NL;
    PlacedEdit(Seen(s), s.vol.next, s.buf[..s.endbuf], s.upto, s.filepos, buf[..s.endbuf], moved);
    assert Seen(t) == Seen(s)[s.vol.next - 1 := buf[..s.endbuf]];
  }

  /** PutByte() is a byte of the record changed. */
  lemma PutByteRefines(s: Stream, c: byte)
    requires Reading(s) && s.updat && s.vol.kept && (c != 0 || s.kind.binary)
    requires s.upto < s.endbuf - (if s.kind.binary then 0 else 1)
    ensures var t := PutByte(s, c); var i := s.vol.next - 1;
      var v: seq<byte> := Seen(s)[i][s.upto := c];
      && Reading(t) && t.vol.kept && Seen(t) == Seen(s)[i := v]
      && t.filepos == s.filepos + 1
  {
    hide Views, CleanRecords, D.Flat;
    WindowClean(s);
    var buf := s.buf[s.upto := c];
    assert Held(Edit(s, buf, 1)) == Held(s)[s.upto := c];
    EditRefines(s, buf, 1);
    assert buf[..s.endbuf] == s.buf[..s.endbuf][s.upto := c];
  }

  lemma BlankedBuffer(buf: seq<byte>, upto: nat, last: nat)
    requires upto < last < |buf|
    ensures CleanData(false, BlankOut(buf, upto, last)[..last])
    ensures BlankOut(buf, upto, last)[..last + 1] == D.BlankFrom(buf[..last + 1], upto)
  {
    var v := buf[..last + 1];
    assert v[..upto] == buf[..upto];
    assert BlankOut(buf, upto, last)[..last + 1] == D.BlankFrom(v, upto);
  }

  /** Blanked() is the rest of the record blanked. */
  lemma BlankedRefines(s: Stream)
    requires Reading(s) && s.updat && s.vol.kept && !s.kind.binary && s.upto < s.endbuf - 1
    ensures var t := Blanked(s); var i := s.vol.next - 1;
      && Reading(t) && t.vol.kept && s.upto < |Seen(s)[i]| == s.endbuf
      && t.filepos == s.filepos + (s.endbuf - s.upto)
      && Seen(t) == Seen(s)[i := D.BlankFrom(Seen(s)[i], s.upto)]
  {
    hide Views, CleanRecords, D.Flat, D.BlankFrom, BlankOut;
    BlankedBuffer(s.buf, s.upto, s.endbuf - 1);
    EditRefines(s, BlankOut(s.buf, s.upto, s.endbuf - 1), s.endbuf - s.upto);
  }

  /** errno is not part of the document. */
  lemma ErrnoUnseen(s: Stream, e: Errno)
    requires Reading(s)
    ensures Reading(s.(errno := e)) && Seen(s.(errno := e)) == Seen(s)
  {
    hide Views, CleanRecords, D.Flat;
  }

  /** c went over the byte at upto of the record in the buffer, or was refused. */
  predicate Overed(s: Stream, t: Stream, rc: int, c: byte)
    requires Sane(s) && 0 < s.vol.next && s.upto < |Seen(s)[s.vol.next - 1]|
  {
    var i := s.vol.next - 1;
    && Reading(t) && t.vol.kept
    && match D.OverRecord(FormOf(s), Seen(s)[i], s.upto, c)
       case Refused => rc == -1 && Seen(t) == Seen(s) && t.filepos == s.filepos
       case Changed(view, moved) =>
         rc == 0 && Seen(t) == Seen(s)[i := view] && t.filepos == s.filepos + moved
  }

  /** On the '\n' of a text record. */
  lemma OverNewline(s: Stream, c: byte)
    requires Reading(s) && s.updat && s.vol.kept && !s.kind.binary && s.upto == s.endbuf - 1
    requires s.upto < |Seen(s)[s.vol.next - 1]| == s.endbuf
    ensures Overed(s, Over(s, c).0, Over(s, c).1, c)
  {
    hide Views, CleanRecords, D.Flat;
    if c == NL {
      TakeRefines(s);
      assert Seen(s)[s.vol.next - 1 := Seen(s)[s.vol.next - 1]] == Seen(s);
    } else {
      ErrnoUnseen(s, EOPNOTSUPP);
    }
  }

  /** Over() on the record in the buffer is OverRecord on that record. */
  lemma OverRefines(s: Stream, c: byte)
    requires Reading(s) && s.updat && s.vol.kept && s.upto < s.endbuf && (c != 0 || s.kind.binary)
    ensures s.upto < |Seen(s)[s.vol.next - 1]| && Overed(s, Over(s, c).0, Over(s, c).1, c)
  {
    hide Views, CleanRecords, D.Flat;
    assert |s.buf[..s.endbuf]| == |Seen(s)[s.vol.next - 1]|;
    if s.kind.binary || (s.upto < s.endbuf - 1 && c != NL) {
      PutByteRefines(s, c);
    } else if s.upto == s.endbuf - 1 {
      OverNewline(s, c);
    } else if s.vol.geo.recfm.F? {
      BlankedRefines(s);
    } else {
      ErrnoUnseen(s, EOPNOTSUPP);
    }
  }

  /** A byte looked at and put back leaves the document alone. */
  lemma PeekRefines(s: Stream)
    requires Reading(s) && s.filepos < |D.Flat(Seen(s))|
    ensures var (u, c) := GetcReading(s);
      && c != EOF && 0 < u.upto && 0 < u.filepos && u.open && !u.dcbout
      && var p := PutBack(u);
         && Reading(p) && Seen(p) == Seen(s) && p.filepos == s.filepos && p.upto < p.endbuf && !p.eof
         && ModeOf(p) == ModeOf(s)
  {
    hide Views, CleanRecords, D.Flat, GetcReading;
    GetcReadingRefines(s);
    StepBackRefines(GetcReading(s).0, 1);
  }

  /** c went over the byte at the position of s, or was refused. */
  predicate WroteOver(s: Stream, t: Stream, rc: int, c: byte)
    requires Sane(s)
  {
    && Reading(t) && t.vol.kept
    && match D.Overwrite(FormOf(s), Seen(s), s.filepos, c)
       case NoChange => rc == -1 && Seen(t) == Seen(s) && t.filepos == s.filepos
       case NewRecords(recs, moved) => rc == 0 && Seen(t) == recs && t.filepos == s.filepos + moved
  }

  /** Over() at a position is Overwrite at that position. */
  lemma OverIsOverwrite(s: Stream, c: byte)
    requires Reading(s) && s.updat && s.vol.kept && s.upto < s.endbuf && (c != 0 || s.kind.binary)
    ensures s.filepos < |D.Flat(Seen(s))| && WroteOver(s, Over(s, c).0, Over(s, c).1, c)
  {
    hide Views, CleanRecords, D.Flat, Over, D.OverRecord;
    var i := s.vol.next - 1;
    OverRefines(s, c);
    Unread(Seen(s), s.vol.next, s.buf[..s.endbuf], s.upto, s.filepos);
    D.FlatAt(Seen(s), i);
    D.OverwriteAt(FormOf(s), Seen(s), i, s.upto, c);
  }

  /** __fpupc() before the end is Overwrite at the position; at the end it turns
      the stream to writing. */
  lemma FpupcRefines(s: Stream, c: byte)
    requires Reading(s) && s.updat && (c != 0 || s.kind.binary)
    requires !D.Lost(FormOf(s), Abstract(s), ModeOf(s))
    ensures var (t, rc) := Fpupc(s, c);
      if s.filepos < |D.Flat(Seen(s))| then WroteOver(s, t, rc, c)
      else rc == 1 && Writing(t) && t.upto == 0 && Seen(t) == Seen(s) && t.filepos == s.filepos
  {
    hide Views, CleanRecords, D.Flat, Over;
    assert s.(ungetch := -1) == s;
    Unread(Seen(s), s.vol.next, s.buf[..s.endbuf], s.upto, s.filepos);
    if s.upto < s.endbuf {
      OverIsOverwrite(s, c);
    } else if s.filepos < |D.Flat(Seen(s))| {
      PeekRefines(s);
      OverIsOverwrite(PutBack(GetcReading(s).0), c);
    } else {
      GetcReadingRefines(s);
      TurnToWriting(GetcReading(s).0);
    }
  }

  /** A stream that does not append turns to writing only at the end; anywhere else the
      turn is refused and nothing has changed.  This is how a stream whose device did not
      accept UPDAT refuses a write before the end. */
  lemma SwitchOnlyAtEnd(s: Stream)
    requires Reading(s) && !s.kind.append
    ensures var (t, rc) := Fpswt(s, true);
      && Sane(t) && Seen(t) == Seen(s) && t.filepos == s.filepos
      && if s.filepos < |D.Flat(Seen(s))| then rc == -1 && Reading(t) && ModeOf(t) == ModeOf(s)
         else rc == 0 && Writing(t) && t.upto == 0
  {
    hide Views, CleanRecords, D.Flat, Turn, GetcReading;
    Unread(Seen(s), s.vol.next, s.buf[..s.endbuf], s.upto, s.filepos);
    if s.eof {
      TurnToWriting(s);
    } else if s.filepos < |D.Flat(Seen(s))| {
      PeekRefines(s);
      GetcReadingRefines(s);
      ErrnoUnseen(PutBack(GetcReading(s).0), EOPNOTSUPP);
    } else {
      GetcReadingRefines(s);
      TurnToWriting(GetcReading(s).0);
    }
  }

  /** An append stream turned to writing is at the end. */
  lemma AppendTurns(s: Stream)
    requires Reading(s) && s.kind.append
    ensures var (t, rc) := Fpswt(s, true);
      && rc == 0 && Writing(t) && t.upto == 0 && Seen(t) == Seen(s)
      && t.filepos == |D.Flat(Seen(s))|
  {
    if s.eof {
      Unread(Seen(s), s.vol.next, s.buf[..s.endbuf], s.upto, s.filepos);
      TurnToWriting(s);
    } else {
      SkipAllRefines(s);
      TurnToWriting(SkipAll(s));
    }
  }

  lemma FputcWriting(s: Stream, c: byte)
    requires Writing(s) && (c != 0 || s.kind.binary)
    ensures var (t, r) := Fputc(s, c);
      Writing(t) && (Abstract(t), r) == D.Putc(FormOf(s), Abstract(s), c)
  {
    AppendRefines(s, c);
    assert s.upto == 0 ==> Abstract(s).(pos := |D.Flat(Seen(s))|) == Abstract(s);
  }

  /** The turn to writing, and then the byte. */
  lemma ThenAppends(s: Stream, t: Stream, c: byte)
    requires Reading(s) && (c != 0 || s.kind.binary) && !D.Inside(FormOf(s), Abstract(s))
    requires Writing(t) && t.upto == 0 && SameKind(s, t)
    requires Seen(t) == Seen(s) && t.filepos == |D.Flat(Seen(s))|
    ensures var (u, r) := Append(t, c);
      Writing(u) && (Abstract(u), r) == D.Putc(FormOf(s), Abstract(s), c)
  {
    hide Views, CleanRecords, D.Flat, Append;
    AppendRefines(t, c);
    assert Abstract(t) == Abstract(s).(pos := |D.Flat(Seen(s))|);
  }

  lemma FputcAppending(s: Stream, c: byte)
    requires Reading(s) && s.kind.append && (c != 0 || s.kind.binary)
    ensures var (t, r) := Fputc(s, c);
      Writing(t) && (Abstract(t), r) == D.Putc(FormOf(s), Abstract(s), c)
  {
    hide Views, CleanRecords, D.Flat, Append, Fpswt;
    AppendTurns(s);
    ThenAppends(s, Fpswt(s, true).0, c);
  }

  lemma FputcInPlace(s: Stream, c: byte)
    requires Reading(s) && s.updat && (c != 0 || s.kind.binary) && ModeOf(s) == D.Fresh
    requires s.filepos < |D.Flat(Seen(s))|
    ensures var (t, r) := Fputc(s, c);
      Reading(t) && ModeOf(t) == D.Fresh && (Abstract(t), r) == D.Putc(FormOf(s), Abstract(s), c)
  {
    hide Views, CleanRecords, D.Flat, Fpupc, Append, D.Overwrite;
    FpupcRefines(s, c);
    var (t, rc) := Fpupc(s, c);
    assert Fputc(s, c) == (t, if rc < 0 then EOF else c as int);
    match D.Overwrite(FormOf(s), Seen(s), s.filepos, c)
    case NoChange => assert Abstract(t) == Abstract(s);
    case NewRecords(recs, moved) => assert Abstract(t) == D.Doc(recs, [], s.filepos + moved);
  }

  /** Where the device did not accept UPDAT, a byte before the end is refused. */
  lemma FputcRefused(s: Stream, c: byte)
    requires Reading(s) && !s.kind.append && !s.updat && s.filepos < |D.Flat(Seen(s))|
    ensures var (t, r) := Fputc(s, c);
      Reading(t) && ModeOf(t) == ModeOf(s) && (Abstract(t), r) == D.Putc(FormOf(s), Abstract(s), c)
  {
    hide Views, CleanRecords, D.Flat, Fpswt;
    SwitchOnlyAtEnd(s);
  }

  lemma FputcAtEnd(s: Stream, c: byte)
    requires Reading(s) && !s.kind.append && (c != 0 || s.kind.binary)
    requires s.filepos >= |D.Flat(Seen(s))|
    ensures var (t, r) := Fputc(s, c);
      Writing(t) && (Abstract(t), r) == D.Putc(FormOf(s), Abstract(s), c)
  {
    hide Views, CleanRecords, D.Flat, Append, Fpswt, Fpupc;
    Unread(Seen(s), s.vol.next, s.buf[..s.endbuf], s.upto, s.filepos);
    if s.updat {
      FpupcRefines(s, c);
      ThenAppends(s, Fpupc(s, c).0, c);
    } else {
      SwitchOnlyAtEnd(s);
      ThenAppends(s, Fpswt(s, true).0, c);
    }
  }

  /** __fputc() is Putc of the document. */
  lemma FputcRefines(s: Stream, c: byte)
    requires Tidy(s) && (c != 0 || s.kind.binary)
    requires !D.Lost(FormOf(s), Abstract(s), ModeOf(s))
    ensures var (t, r) := Fputc(s, c);
      && Tidy(t) && (Abstract(t), r) == D.Putc(FormOf(s), Abstract(s), c)
      && ModeOf(t) == D.ModePutc(FormOf(s), Abstract(s), ModeOf(s))
  {
    hide Views, CleanRecords, D.Flat, Fputc;
    if s.dcbout { FputcWriting(s, c); }
    else if s.kind.append { FputcAppending(s, c); }
    else if s.filepos >= |D.Flat(Seen(s))| { FputcAtEnd(s, c); }
    else if s.updat { FputcInPlace(s, c); }
    else { FputcRefused(s, c); }
  }

  // ---- positioning ---------------------------------------------------------------------

  /** The end-of-file flag is not part of the document. */
  lemma EofUnseen(s: Stream)
    requires Reading(s) || Writing(s)
    ensures Abstract(s.(eof := false)) == Abstract(s)
    ensures Reading(s) ==> Reading(s.(eof := false))
    ensures Writing(s) ==> Writing(s.(eof := false))
  {
    hide Views, CleanRecords, D.Flat;
    assert Seen(s.(eof := false)) == Seen(s);
  }

  /** Back inside the window. */
  lemma StepBackRefines(s: Stream, n: nat)
    requires Reading(s) && !s.eof && n <= s.upto && n <= s.filepos
    ensures var t := StepBack(s, n);
      Reading(t) && Seen(t) == Seen(s) && t.filepos == s.filepos - n
  {
    hide Views, CleanRecords, D.Flat;
    var t := StepBack(s, n);
    assert Seen(t) == Seen(s);
    assert Placed(Seen(s), s.vol.next, s.buf[..s.endbuf], t.upto, t.filepos);
  }

  /** Moving to a target settles the document and stops at its end. */
  predicate Moved(s: Stream, target: nat, t: Stream, rc: int)
    requires Sane(s)
  {
    var e := D.Settle(FormOf(s), Abstract(s)); var end := |D.Flat(e.closed)|;
    && Reading(t) && Seen(t) == e.closed && t.filepos == AtMost(target, end)
    && rc == (if target <= end then 0 else -1) && (rc != 0 ==> t.errno == EINVAL)
    && ModeOf(t) == D.ModeMove(FormOf(s), Abstract(s), ModeOf(s), target)
  }

  lemma ArrivedRefines(s: Stream, w: Stream, target: nat)
    requires Sane(s) && Reading(w)
    requires var e := D.Settle(FormOf(s), Abstract(s));
      Seen(w) == e.closed && w.filepos == AtMost(target, |D.Flat(e.closed)|)
    requires ModeOf(w) == D.ModeMove(FormOf(s), Abstract(s), ModeOf(s), target)
    ensures Moved(s, target, Arrived(w, target).0, Arrived(w, target).1)
  {
    EofUnseen(w);
    ErrnoUnseen(w.(eof := false), EINVAL);
  }

  /** Away from the end: what is pending is ended, the DCB turned to reading. */
  lemma AwayFromEnd(s: Stream, target: nat)
    requires Writing(s) && !s.posend && target != s.filepos
    ensures Moved(s, target, MoveTo(s, target).0, MoveTo(s, target).1)
  {
    var m := s.(filepos := target);
    assert Seen(m) == Seen(s) && Drafting(m);
    TurnToReading(m, target);
    ArrivedRefines(s, Turn(m, false, target).0, target);
  }

  /** Once the end has been read, the window is the last record. */
  lemma SpentWindow(s: Stream)
    requires Reading(s) && ModeOf(s) == D.Spent
    ensures s.filepos - s.upto == D.LastStart(Abstract(s))
  {
    hide Views, CleanRecords;
    var seen := Seen(s);
    assert seen[..|seen|] == seen;
    D.FlatAt(seen, |seen| - 1);
  }

  /** Back past the window: the DCB is closed and opened again. */
  lemma FarBack(s: Stream, target: nat)
    requires Reading(s) && !s.posend && !s.eof && target < s.filepos - s.upto
    ensures Moved(s, target, MoveTo(s, target).0, MoveTo(s, target).1)
  {
    hide Views, Arrived, CleanRecords, D.Flat, SkipTo, Redcb, Moved;
    var m := s.(filepos := target);
    CommitRefines(s);
    var f := FlushRec(s, false).0.(filepos := target);
    assert Seen(f) == Seen(s);
    assert FlushRec(m, false) == (f, 0);
    ReopenToReading(f, target);
    if ModeOf(s) == D.Spent { SpentWindow(s); }
    Unread(Seen(s), s.vol.next, s.buf[..s.endbuf], s.upto, s.filepos);
    var w := Turn(m, false, target).0;
    assert MoveTo(s, target) == Arrived(w, target);
    ArrivedRefines(s, w, target);
  }

  lemma Forward(s: Stream, target: nat)
    requires Reading(s) && s.filepos < target
    ensures Moved(s, target, MoveTo(s, target).0, MoveTo(s, target).1)
  {
    hide Views, CleanRecords, D.Flat, SkipUntil, Fpswt, Moved, Arrived;
    SkipUntilRefines(s, target);
    if ModeOf(s) == D.Spent { SpentWindow(s); }
    ArrivedRefines(s, SkipUntil(s, target), target);
  }

  lemma NearBack(s: Stream, target: nat)
    requires Reading(s) && !s.posend && !s.eof && s.filepos - s.upto <= target < s.filepos
    ensures Moved(s, target, MoveTo(s, target).0, MoveTo(s, target).1)
  {
    hide Views, CleanRecords, D.Flat, SkipUntil, Fpswt, Placed;
    PositionInside(s);
    if ModeOf(s) == D.Spent { SpentWindow(s); }
    StepBackRefines(s, s.filepos - target);
  }

  lemma MoveToRefines(s: Stream, target: nat)
    requires Tidy(s) && !s.eof && target != s.filepos
    ensures Moved(s, target, MoveTo(s, target).0, MoveTo(s, target).1)
  {
    hide Views, CleanRecords, D.Flat, MoveTo, Moved, Placed;
    if s.dcbout {
      AwayFromEnd(s, target);
    } else if s.filepos < target {
      Forward(s, target);
    } else if s.filepos - s.upto <= target {
      NearBack(s, target);
    } else {
      FarBack(s, target);
    }
  }

  /** The same document, at its end when SEEK_END has it read that far. */
  function SeekBase(s: Stream, whence: int): (t: Stream)
    requires Sane(s)
  {
    if whence == SEEK_END && !s.dcbout then SkipAll(s).(eof := false) else s
  }

  lemma SeekBaseRefines(s: Stream, whence: int)
    requires Tidy(s) && !s.eof
    ensures var t := SeekBase(s, whence); var d := Abstract(s);
      && Tidy(t) && !t.eof && t.dcbout == s.dcbout && SameKind(s, t)
      && Abstract(t) == (if whence == SEEK_END && d.tail == [] then d.(pos := |D.Flat(d.closed)|) else d)
      && ModeOf(t) == (if whence == SEEK_END && !s.dcbout then D.EndRead(d) else ModeOf(s))
  {
    if whence == SEEK_END && !s.dcbout {
      SkipAllRefines(s);
      EofUnseen(SkipAll(s));
    }
  }

  /** plusseek() in the terms of SeekBase and MoveTo. */
  lemma PlusseekSteps(s: Stream, offset: int, whence: int)
    requires Sane(s) && !s.posend && !s.eof
    ensures SameKind(s, SeekBase(s, whence)) && Sane(SeekBase(s, whence))
    ensures var t := SeekBase(s, whence);
      var target := if whence == SEEK_SET then offset else t.filepos + offset;
      Plusseek(s, offset, whence) ==
        (if whence !in {SEEK_SET, SEEK_CUR, SEEK_END} || target < 0 then (t.(errno := EINVAL), -1)
         else MoveTo(t, target))
  {
    hide MoveTo, SkipAll, Fpswt, Sane;
    if !s.dcbout { SaneFlags(SkipAll(s), SkipAll(s).(eof := false)); }
  }

  lemma EinvalUnseen(s: Stream)
    requires Tidy(s)
    ensures Tidy(s.(errno := EINVAL)) && Abstract(s.(errno := EINVAL)) == Abstract(s)
  {
    assert Seen(s.(errno := EINVAL)) == Seen(s);
  }

  /** plusseek() is Seek of the document. */
  lemma PlusseekRefines(s: Stream, offset: int, whence: int)
    requires Tidy(s) && !s.eof
    ensures var (t, rc) := Plusseek(s, offset, whence);
      && Tidy(t) && (Abstract(t), rc) == D.Seek(FormOf(s), Abstract(s), offset, whence)
      && (rc != 0 ==> t.errno == EINVAL)
      && ModeOf(t) == D.ModeSeek(FormOf(s), Abstract(s), ModeOf(s), offset, whence)
  {
    hide Plusseek, MoveTo, SeekBase;
    var t := SeekBase(s, whence);
    PlusseekSteps(s, offset, whence);
    SeekBaseRefines(s, whence);
    var target := if whence == SEEK_SET then offset else t.filepos + offset;
    if whence !in {SEEK_SET, SEEK_CUR, SEEK_END} || target < 0 {
      EinvalUnseen(t);
    } else if target != t.filepos {
      MoveToRefines(t, target);
      SeekIsMove(s, t, offset, whence, target, MoveTo(t, target).0, MoveTo(t, target).1);
    }
  }

  lemma SeekIsMove(s: Stream, t: Stream, offset: int, whence: int, target: nat, u: Stream, rc: int)
    requires Tidy(s) && Tidy(t) && SameKind(s, t) && whence in {SEEK_SET, SEEK_CUR, SEEK_END}
    requires Abstract(t) == (if whence == SEEK_END && Abstract(s).tail == []
                             then Abstract(s).(pos := |D.Flat(Seen(s))|) else Abstract(s))
    requires ModeOf(t) == (if whence == SEEK_END && !s.dcbout then D.EndRead(Abstract(s)) else ModeOf(s))
    requires target == (if whence == SEEK_SET then offset else t.filepos + offset)
    requires target != t.filepos && Moved(t, target, u, rc)
    ensures (Abstract(u), rc) == D.Seek(FormOf(s), Abstract(s), offset, whence)
    ensures ModeOf(u) == D.ModeSeek(FormOf(s), Abstract(s), ModeOf(s), offset, whence)
  {
    hide Views, CleanRecords, D.Flat;
  }

  /** fseek() is Seek of the document. */
  lemma FseekRefines(s: Stream, offset: int, whence: int)
    requires Tidy(s)
    ensures var r := Fseek(s, offset, whence);
      && r.Did? && Tidy(r.stream) && (Abstract(r.stream), r.ret) == D.Seek(FormOf(s), Abstract(s), offset, whence)
      && (r.ret != 0 ==> r.stream.errno == EINVAL)
      && ModeOf(r.stream) == D.ModeSeek(FormOf(s), Abstract(s), ModeOf(s), offset, whence)
  {
    hide Plusseek, Views, CleanRecords, D.Flat, Placed, D.Seek, D.ModeSeek, Seen;
    var z := s.(eof := false);
    EofUnseen(s);
    assert z == s.(error := false, enospc := false, eof := false);
    PlusseekRefines(z, offset, whence);
    var (t, rc) := Plusseek(z, offset, whence);
    assert SeekOpen(s, offset, whence) == (t, rc);
  }
}
