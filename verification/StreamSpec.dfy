/** The byte stream over a record data set, one function per routine of the
    stdio core.  A value of Stream is the FILE together with the volume its DCB
    is open on.  Class StreamFile.File carries these steps out on a mutable FILE. */
module StreamSpec {
  import opened Bytes
  import opened AccessMethod

  /** What fopen() fixes for the life of the stream. */
  datatype Kind = Kind(read: bool, write: bool, append: bool, binary: bool, member: bool) {
    predicate Plus() { read && write }
  }

  datatype Stream = Stream(
    kind: Kind, open: bool, posend: bool, dcbout: bool, extend: bool,
    enospc: bool, error: bool, eof: bool, updat: bool, dirty: bool,
    ungetch: int, filepos: nat, buf: seq<byte>, upto: nat, endbuf: nat,
    errno: Errno, vol: Volume)

  /** What every routine relies on and keeps: the FILE and its DCB agree, and
      every index stays inside the buffer. */
  predicate Sane(s: Stream) {
    && s.vol.Ok()
    && (s.open <==> !s.vol.dcb.Closed?)
    && (!s.open ==> s.error && !s.dcbout && Emptied(s)) && -1 <= s.ungetch < 256
    && (s.dirty ==> s.updat)
    && (s.updat ==> s.open && s.vol.dcb.Update?)
    && (s.vol.dcb.Update? ==> s.updat)
    && (s.open ==>
          && |s.buf| == s.vol.geo.Capacity() + 8
          && (s.dcbout <==> s.vol.dcb.Writes())
          && if s.dcbout then s.upto <= s.endbuf == s.vol.geo.Capacity() else Window(s))
  }

  /** Nothing to read without the access method. */
  predicate Emptied(s: Stream) { s.upto == 0 && s.endbuf == 0 && s.ungetch == -1 }

  /** The part of the buffer that holds the record read last.  After an empty
      binary record upto is one past endbuf. */
  predicate Window(s: Stream)
    requires s.vol.geo.Shape()
  {
    && s.endbuf <= s.vol.geo.Capacity() + (if s.kind.binary then 0 else 1)
    && (s.upto <= s.endbuf || (s.kind.binary && s.endbuf == 0 && s.upto == 1))
    && ((s.dirty || 0 < s.upto || 0 < s.endbuf) ==> 0 < s.vol.next)
  }

  /** What no routine changes: POSEND is only ever cleared, EXTEND only ever set. */
  predicate SameKind(s: Stream, t: Stream) {
    && t.kind == s.kind && t.vol.geo == s.vol.geo
    && (t.posend ==> s.posend) && (s.extend ==> t.extend)
  }

  /** The flags and errno are free, except that a closed stream is in error. */
  lemma SaneFlags(s: Stream, t: Stream)
    requires Sane(s)
    requires t == s.(eof := t.eof, error := t.error, enospc := t.enospc, errno := t.errno, posend := t.posend)
    requires t.open || (s.error ==> t.error)
    ensures Sane(t)
  {
  }

  lemma StaysSane(s: Stream, e: Errno)
    requires Sane(s)
    ensures Sane(s.(errno := e)) && (s.open || s.error)
  {
  }

  /** Another state of the volume under the same DCB. */
  lemma SaneVolume(s: Stream, v: Volume)
    requires Sane(s) && s.open && v.Ok() && v.geo == s.vol.geo && v.dcb == s.vol.dcb
    requires !s.dcbout ==> s.vol.next <= v.next
    ensures Sane(s.(vol := v))
  {
  }

  /** What waits in the buffer is given up. */
  lemma SaneDrop(s: Stream, e: Errno)
    requires Sane(s)
    ensures Sane(s.(dirty := false, errno := e)) && (s.dirty ==> s.open && !s.dcbout)
    ensures s.dcbout ==> Sane(s.(upto := 0, errno := e))
    ensures s.open || s.error
  {
  }

  // ---- writing records ----------------------------------------------------

  function FailCode(s: Stream): int { if s.enospc then 12 else 8 }

  function FailErrno(s: Stream): Errno { if s.enospc then ENOSPC else EIO }

  /** The stream after a write that the access method answered with err. */
  function Failed(s: Stream, err: int): Stream {
    s.(error := true, enospc := s.enospc || err == 12, errno := if err == 12 then ENOSPC else EIO)
  }

  /** The raw record for data: F is padded to LRECL, V gets its RDW. */
  function Packed(g: Geometry, data: seq<byte>, fill: byte): (r: seq<byte>)
    requires g.Shape() && |data| <= g.Capacity()
    ensures g.RecordOk(r)
  {
    match g.recfm
    case F => data + Fill(fill, g.lrecl - |data|)
    case V => Rdw(|data|) + data
    case U => data
  }

  function FillByte(s: Stream): byte { if s.kind.binary then 0 else BLANK }

  /** A zero-length U block cannot be written: an empty line becomes one fill byte. */
  function Pending(s: Stream): (data: seq<byte>)
    requires s.upto <= |s.buf|
  {
    if s.upto == 0 && s.vol.geo.recfm.U? then [FillByte(s)] else s.buf[..s.upto]
  }

  /** How much longer than the pending bytes the text record reads back. */
  function Pad(s: Stream): nat {
    match s.vol.geo.recfm
    case F => if s.upto < s.vol.geo.lrecl then s.vol.geo.lrecl - s.upto else 0
    case V => 0
    case U => if s.upto == 0 then 1 else 0
  }

  /** The data bytes of the record in the buffer: its own, not the '\n'
      that __fgetc() added to a text record. */
  function Held(s: Stream): (data: seq<byte>)
    requires s.endbuf <= |s.buf|
  {
    s.buf[..if !s.kind.binary && 0 < s.endbuf then s.endbuf - 1 else s.endbuf]
  }

  /** updrec(): hand the record changed in place back to the access method. */
  function Updrec(s: Stream): (r: (Stream, int))
    requires Sane(s) && s.dirty
    ensures Sane(r.0) && SameKind(s, r.0)
    ensures r.1 != 0 ==> r.0.error
    ensures |r.0.vol.recs| == |s.vol.recs| && r.0.vol.next == s.vol.next
    ensures r.0 == s.(dirty := false, vol := r.0.vol, error := r.0.error, enospc := r.0.enospc, errno := r.0.errno)
  {
    hide Packed;
    var (v, err) := Awrite(s.vol, Packed(s.vol.geo, Held(s), FillByte(s)));
    var t := s.(dirty := false, vol := v);
    (if err != 0 then Failed(t, err) else t, err)
  }

  /** The pending bytes become a record; filepos then counts it as it reads
      back: its padding, and the '\n' a flush without one still gives it. */
  function WritePending(s: Stream, newline: bool): (r: (Stream, int))
    requires Sane(s) && s.open && s.dcbout
    ensures Sane(r.0) && SameKind(s, r.0)
    ensures r.1 != 0 ==> r.0.error
    ensures r.0 == s.(upto := 0, filepos := r.0.filepos, vol := r.0.vol, error := r.0.error,
                      enospc := r.0.enospc, errno := r.0.errno)
  {
    hide Packed;
    var (v, err) := Awrite(s.vol, Packed(s.vol.geo, Pending(s), FillByte(s)));
    var t := s.(vol := v, upto := 0);
    if err != 0 then (Failed(t, err), err)
    else if s.kind.binary then (t, 0)
    else (t.(filepos := s.filepos + Pad(s) + if newline then 0 else 1), 0)
  }

  /** flushrec(), under __fflush() and __fflnl(). */
  function FlushRec(s: Stream, newline: bool): (r: (Stream, int))
    requires Sane(s)
    ensures Sane(r.0) && SameKind(s, r.0) && !r.0.dirty
    ensures r.1 != 0 ==> r.0.error
    ensures r.0.dcbout == s.dcbout && r.0.open == s.open && r.0.updat == s.updat
    ensures r.0.eof == s.eof && r.0.ungetch == s.ungetch
    ensures !s.dirty && !s.dcbout ==> r == (s, 0)
    ensures !s.dcbout ==> r.0.upto == s.upto && r.0.endbuf == s.endbuf && r.0.filepos == s.filepos
    ensures !s.dcbout ==> |r.0.vol.recs| == |s.vol.recs| && r.0.vol.next == s.vol.next
  {
    hide Updrec, WritePending, Sane;
    SaneDrop(s, FailErrno(s));
    if s.dirty then
      if s.error then (s.(dirty := false, errno := FailErrno(s)), FailCode(s))
      else Updrec(s)
    else if !s.dcbout || (s.upto == 0 && !newline) then (s, 0)
    else if s.error then (s.(upto := 0, errno := FailErrno(s)), FailCode(s))
    else WritePending(s, newline)
  }

  // ---- reading records ----------------------------------------------------

  /** The data bytes of a raw record. */
  function RecordData(g: Geometry, raw: seq<byte>): (data: seq<byte>)
    requires g.Shape() && g.RecordOk(raw)
    ensures |data| <= g.Capacity()
  {
    match g.recfm
    case F => raw[..g.lrecl]
    case V => raw[4..RdwLength(raw)]
    case U => raw
  }

  /** What a raw record looks like as bytes of the stream. */
  function RecordView(g: Geometry, binary: bool, raw: seq<byte>): (view: seq<byte>)
    requires g.Shape() && g.RecordOk(raw)
    ensures |view| <= g.Capacity() + (if binary then 0 else 1)
  {
    if binary then RecordData(g, raw) else StripNul(RecordData(g, raw)) + [NL]
  }

  /** There is a record in the buffer and upto is on a byte of it - or on the
      byte after an empty binary record, which __fgetc() does not tell apart. */
  predicate OnByte(s: Stream) {
    && Sane(s) && s.open && !s.dcbout && 0 < s.vol.next
    && (s.upto < s.endbuf || (s.kind.binary && s.upto == s.endbuf == 0))
  }

  /** Where a byte of the record read last can be taken, or a pushed-back one. */
  lemma InsideWindow(s: Stream)
    requires Sane(s) && s.open && !s.dcbout
    ensures s.upto < s.endbuf ==> OnByte(s)
    ensures Sane(s.(ungetch := -1)) && -1 <= s.ungetch < 256
  {
  }

  function Take(s: Stream): (r: (Stream, int))
    requires OnByte(s)
    ensures Sane(r.0) && SameKind(s, r.0) && 0 <= r.1 < 256 && r.0.vol == s.vol
    ensures !r.0.dcbout && r.0.open && r.0.updat == s.updat && r.0.ungetch == s.ungetch
    ensures 0 < r.0.upto == s.upto + 1 && 0 < r.0.filepos && r.0.endbuf == s.endbuf
  {
    (s.(upto := s.upto + 1, filepos := s.filepos + 1), s.buf[s.upto])
  }

  /** The next record, just read as raw, goes into the buffer. */
  function Load(s: Stream, raw: seq<byte>): (t: Stream)
    requires Sane(s) && s.open && !s.dcbout && !s.dirty && 0 < s.vol.next
    requires s.vol.geo.RecordOk(raw)
    ensures Sane(t) && t.upto == 0 && t.endbuf <= |t.buf| - 7
    ensures t == s.(buf := t.buf, upto := 0, endbuf := t.endbuf)
    ensures t.buf[..t.endbuf] == RecordView(s.vol.geo, s.kind.binary, raw)
    ensures t.endbuf == 0 ==> s.kind.binary
  {
    var view := RecordView(s.vol.geo, s.kind.binary, raw);
    s.(buf := Overlay(s.buf, view), upto := 0, endbuf := |view|)
  }

  /** Read a record; the EOF and error flags say why when there is none. */
  function Refill(s: Stream): (r: (Stream, bool))
    requires Sane(s) && s.open && !s.dcbout && !s.dirty
    ensures Sane(r.0) && SameKind(s, r.0) && r.0.open && !r.0.dcbout && !r.0.dirty
    ensures |r.0.vol.recs| == |s.vol.recs| && (r.0.vol.recs == s.vol.recs || r.0.error)
    ensures r.0.ungetch == s.ungetch && r.0.filepos == s.filepos && r.0.updat == s.updat
    ensures r.1 ==> OnByte(r.0) && r.0.vol.next == s.vol.next + 1
  {
    var (v, rd) := Aread(s.vol);
    SaneVolume(s, v);
    SaneFlags(s.(vol := v), s.(vol := v, error := true, errno := EIO));
    SaneFlags(s.(vol := v), s.(vol := v, eof := true));
    assert s.vol.dcb.Reads();
    hide Sane;
    match rd
    case ReadError => (s.(vol := v, error := true, errno := EIO), false)
    case EndOfFile => (s.(vol := v, eof := true), false)
    case Record(raw) => (Load(s.(vol := v), raw), true)
  }

  /** __fgetc() on a DCB that reads, from the pushed-back character on. */
  function GetcHere(s: Stream): (r: (Stream, int))
    requires Sane(s) && s.open && !s.dcbout
    ensures Sane(r.0) && SameKind(s, r.0) && !r.0.dcbout && r.0.open && r.0.updat == s.updat
    ensures -1 <= r.1 < 256
    ensures |r.0.vol.recs| == |s.vol.recs|
    ensures r.1 != EOF ==> Closer(r.0, s)
    ensures r.1 != EOF && s.ungetch == -1 ==>
              0 < r.0.upto && 0 < r.0.filepos && r.0.ungetch == -1
  {
    hide FlushRec, Refill, Sane, Take, OnByte;
    InsideWindow(s);
    if s.ungetch != -1 then (s.(ungetch := -1), s.ungetch)
    else if s.eof then (s, EOF)
    else if s.upto < s.endbuf then Take(s)
    else
      // a record that was written over goes back first
      var (t, err) := FlushRec(s, false);
      if err != 0 then (t, EOF)
      else
        var (u, ok) := Refill(t);
        if ok then Take(u) else (u, EOF)
  }

  /** Undo the Take of a byte that was only looked at. */
  function PutBack(s: Stream): (t: Stream)
    requires Sane(s) && s.open && !s.dcbout && 0 < s.upto && 0 < s.filepos
    ensures OnByte(t)
  {
    s.(upto := s.upto - 1, filepos := s.filepos - 1)
  }

  /** t has fewer characters left to read than s. */
  predicate Closer(t: Stream, s: Stream) {
    var left, left' := |s.vol.recs| - s.vol.next, |t.vol.recs| - t.vol.next;
    || left' < left
    || (left' == left && t.ungetch == -1 && s.ungetch != -1)
    || (left' == left && t.ungetch == s.ungetch && t.endbuf - t.upto < s.endbuf - s.upto && s.upto < s.endbuf)
  }

  /** __fgetc() on a DCB that reads. */
  function GetcReading(s: Stream): (r: (Stream, int))
    requires Sane(s) && !s.dcbout
    ensures Sane(r.0) && SameKind(s, r.0) && !r.0.dcbout && r.0.open == s.open && r.0.updat == s.updat
    ensures -1 <= r.1 < 256
    ensures |r.0.vol.recs| == |s.vol.recs|
    ensures r.1 != EOF ==> Closer(r.0, s)
    ensures r.1 != EOF && s.ungetch == -1 ==>
              0 < r.0.upto && 0 < r.0.filepos && r.0.ungetch == -1
  {
    if !s.kind.read then (s.(errno := EBADF), EOF)
    else if s.error then (s.(errno := EIO), EOF)
    else GetcHere(s)
  }

  /** Read on until the end of the data set, or an error. */
  function SkipAll(s: Stream): (t: Stream)
    requires Sane(s) && !s.dcbout
    ensures Sane(t) && SameKind(s, t) && !t.dcbout && t.open == s.open && t.updat == s.updat
    ensures |t.vol.recs| == |s.vol.recs|
    decreases |s.vol.recs| - s.vol.next, s.ungetch != -1, s.endbuf - s.upto
  {
    var (t, c) := GetcReading(s);
    if c == EOF then t else SkipAll(t)
  }

  /** Read on until filepos reaches pos, the end or an error. */
  function SkipUntil(s: Stream, pos: nat): (t: Stream)
    requires Sane(s) && !s.dcbout
    ensures Sane(t) && SameKind(s, t) && !t.dcbout && t.open == s.open && t.updat == s.updat
    ensures |t.vol.recs| == |s.vol.recs|
    decreases |s.vol.recs| - s.vol.next, s.ungetch != -1, s.endbuf - s.upto
  {
    if pos <= s.filepos then s
    else
      var (t, c) := GetcReading(s);
      if c == EOF then t else SkipUntil(t, pos)
  }

  /** skipto(): from the start to pos, or to the end for POSEND. */
  function SkipTo(s: Stream, pos: nat): (t: Stream)
    requires Sane(s) && !s.dcbout
    ensures Sane(t) && SameKind(s, t) && !t.dcbout && t.open == s.open && t.updat == s.updat
    ensures |t.vol.recs| == |s.vol.recs|
  {
    if s.posend then SkipAll(s.(filepos := 0)).(posend := false)
    else SkipUntil(s.(filepos := 0), pos)
  }

  // ---- opening and turning round -------------------------------------------

  /** The way __fpopen() asks the access method to open the DCB. */
  function OpenMode(s: Stream): (how: Dcb)
    ensures !how.Closed? && (how.Writes() <==> s.dcbout)
  {
    if s.dcbout then if s.kind.append || s.extend then Extend else Output
    else if s.kind.write && !s.kind.append && !s.kind.member then Update
    else Input
  }

  predicate Shut(s: Stream) { s.vol.Ok() && s.vol.dcb.Closed? && !s.open && Emptied(s) }

  /** The DCB opened: an UPDAT open that is refused becomes an INPUT one. */
  function OpenDcb(s: Stream): (r: (Stream, bool))
    requires Shut(s)
    ensures r.0 == s.(vol := r.0.vol, updat := r.0.updat, dirty := false)
    ensures r.0.vol.Ok() && r.0.vol.geo == s.vol.geo && (r.0.updat <==> r.0.vol.dcb.Update?)
    ensures r.1 ==> (r.0.vol.dcb.Writes() <==> s.dcbout) && !r.0.vol.dcb.Closed?
    ensures !r.1 ==> r.0.vol.dcb.Closed?
  {
    var how := OpenMode(s);
    var (v, ok) := Aopen(s.vol, how);
    if how.Update? && !ok then
      var (w, ok2) := Aopen(v, Input);
      (s.(vol := w, updat := false, dirty := false), ok2)
    else (s.(vol := v, updat := how.Update? && ok, dirty := false), ok)
  }

  /** A new, empty buffer under an open DCB. */
  function Buffered(s: Stream): (t: Stream)
    requires s.vol.geo.Shape()
  {
    s.(open := true, ungetch := -1, extend := s.extend || (s.kind.Plus() && s.dcbout),
       buf := Fill(0, s.vol.geo.Capacity() + 8), upto := 0,
       endbuf := if s.dcbout then s.vol.geo.Capacity() else 0)
  }

  /** __fpopen(): '+' needs a device it can reopen the other way. */
  function Fpopen(s: Stream): (r: (Stream, int))
    requires Shut(s)
    ensures SameKind(s, r.0) && r.0.dcbout == s.dcbout
    ensures r.1 == 0 ==> Sane(r.0) && r.0.open && r.0.upto == 0 && !r.0.dirty
    ensures r.1 == 0 ==> r.0.ungetch == -1 && r.0.eof == s.eof && r.0.filepos == s.filepos
    ensures r.1 != 0 ==> Shut(r.0) && !r.0.dirty && !r.0.updat
  {
    hide OpenDcb;
    var (t, ok) := OpenDcb(s);
    if !ok then (t, 1)
    else if s.kind.Plus() && !s.vol.geo.dasd then
      (t.(vol := Aclose(t.vol).0, updat := false, errno := EINVAL), 1)
    else (Buffered(t), 0)
  }

  /** The DCB closed, and the stream set to open the given way. */
  function CloseDcb(s: Stream, out: bool): (r: (Stream, int))
    requires Sane(s) || Shut(s)
    ensures Shut(r.0) && SameKind(s, r.0) && r.0.dcbout == out && r.1 in {0, 8, 12}
    ensures !s.open ==> r.1 == 0
  {
    var (v, rc) := if s.open then Aclose(s.vol) else (s.vol, 0);
    (s.(vol := v, buf := [], upto := 0, endbuf := 0, ungetch := -1,
        open := false, dcbout := out, eof := false, errno := NoErr), rc)
  }

  /** redcb(): 0 done, -1 not reopened, 1 reopened but the CLOSE lost a block. */
  function Redcb(s: Stream, out: bool): (r: (Stream, int))
    requires Sane(s) || Shut(s)
    ensures SameKind(s, r.0) && r.0.dcbout == out && r.1 in {0, -1, 1}
    ensures r.1 != -1 ==> Sane(r.0) && r.0.open && r.0.ungetch == -1
    ensures r.1 == -1 ==> Shut(r.0) && !r.0.updat && !r.0.dirty
    ensures !s.open ==> r.1 != 1
  {
    hide CloseDcb, Fpopen;
    var (shut, lost) := CloseDcb(s, out);
    var (t, err) := Fpopen(shut);
    if err != 0 then (t, -1)
    else if lost != 0 then (t.(errno := if lost == 12 then ENOSPC else EIO), 1)
    else (t, 0)
  }

  /** The DCB is open the other way: put the position back. */
  function Reposition(s: Stream, out: bool, pos: nat): (t: Stream)
    requires Sane(s) && s.dcbout == out
    ensures Sane(t) && SameKind(s, t) && t.dcbout == out && t.open == s.open && t.updat == s.updat
  {
    if out then s.(filepos := pos) else SkipTo(s, pos)
  }

  /** A stream that could not be opened again is in error. */
  lemma InError(s: Stream, e: Errno)
    requires Sane(s) || (Shut(s) && !s.updat && !s.dirty && !s.dcbout)
    ensures Sane(s.(error := s.error || !s.open, errno := e))
  {
  }

  /** The reopen failed: a failed turn to writing keeps the stream readable
      where that is possible, else the stream is in error. */
  function Recover(s: Stream, out: bool, pos: nat): (t: Stream)
    requires Shut(s) && !s.updat && !s.dirty && s.dcbout == out
    ensures Sane(t) && SameKind(s, t)
  {
    hide Redcb, SkipTo, Sane;
    var (w, rc) := if out then Redcb(s, false) else (s, -1);
    var u := if rc == 0 then (SaneFlags(w, w.(posend := false)); SkipTo(w.(posend := false), pos)) else w;
    InError(u, if s.errno == NoErr then EIO else s.errno);
    u.(error := u.error || !u.open, errno := if s.errno == NoErr then EIO else s.errno)
  }

  /** The second half of __fpswt(), from the flush on. */
  function Turn(s: Stream, out: bool, pos: nat): (r: (Stream, int))
    requires Sane(s)
    ensures Sane(r.0) && SameKind(s, r.0) && (r.1 == 0 || r.1 == -1)
    ensures r.1 == 0 ==> r.0.dcbout == out && r.0.open
  {
    var (f, err) := FlushRec(s, false);
    if err != 0 then (f, -1)
    else
      var (t, rc) := Redcb(f, out);
      if rc == -1 then (Recover(t, out, pos), -1)
      else
        var u := Reposition(t, out, pos);
        if rc == 0 then (u, 0)
        else (u.(error := true, enospc := u.enospc || t.errno == ENOSPC, errno := t.errno), -1)
  }

  /** __fpswt(): the callers that turn a stream to writing have a reading DCB. */
  function Fpswt(s: Stream, out: bool): (r: (Stream, int))
    requires Sane(s) && (out ==> !s.dcbout)
    ensures Sane(r.0) && SameKind(s, r.0) && (r.1 == 0 || r.1 == -1)
    ensures r.1 == 0 ==> r.0.dcbout == out && r.0.open
  {
    hide Turn, SkipAll, GetcReading;
    if !s.open then (s.(errno := EBADF), -1)
    else if !out || (s.eof && !s.kind.member) then Turn(s, out, s.filepos)
    else if s.kind.member then (s.(errno := EOPNOTSUPP), -1)
    else if s.kind.append then
      var t := SkipAll(s);
      if t.error then (t, -1) else Turn(t, out, t.filepos)
    else
      var (t, c) := GetcReading(s);
      if t.error then (t, -1)
      else if c == EOF then Turn(t, out, t.filepos)
      else
        var back := if s.ungetch != -1 then t.(ungetch := c)
                    else PutBack(t);
        (back.(errno := EOPNOTSUPP), -1)
  }

  /** __fgetc(). */
  function Fgetc(s: Stream): (r: (Stream, int))
    requires Sane(s)
    ensures Sane(r.0) && SameKind(s, r.0) && -1 <= r.1 < 256
    ensures !s.dcbout ==> r == GetcReading(s)
  {
    hide Fpswt, GetcHere, Sane;
    StaysSane(s, EBADF);
    StaysSane(s, EIO);
    if !s.kind.read then (s.(errno := EBADF), EOF)
    else if s.error then (s.(errno := EIO), EOF)
    else if s.dcbout then
      var (t, rc) := Fpswt(s, false);
      if rc != 0 then (t, EOF) else GetcHere(t)
    else GetcHere(s)
  }

  /** The characters __fgets() stores, and the last one read. */
  function FgetsLoop(s: Stream, room: nat, got: seq<byte>): (r: (Stream, seq<byte>, int))
    requires Sane(s)
    ensures Sane(r.0) && SameKind(s, r.0) && |r.1| <= |got| + room
    decreases room
  {
    hide Fgetc;
    if room == 0 then (s, got, 0)
    else
      var (t, c) := Fgetc(s);
      if c == EOF then (t, got, EOF)
      else if c == NL then (t, got + [NL], NL)
      else FgetsLoop(t, room - 1, got + [c])
  }

  /** What __fgets() leaves: a null pointer, or a line in front of its NUL. */
  datatype Line = NoLine | Line(chars: seq<byte>)

  /** __fgets(). */
  function Fgets(s: Stream, n: int): (r: (Stream, Line))
    requires Sane(s)
    ensures Sane(r.0) && SameKind(s, r.0)
  {
    hide FgetsLoop;
    if s.eof || n < 1 then (s, NoLine)
    else
      var (t, got, c) := FgetsLoop(s, n - 1, []);
      (t, if got == [] && c == EOF then NoLine else Line(got))
  }

  // ---- writing bytes --------------------------------------------------------

  /** memset: bytes from..to of buf made blank. */
  function BlankOut(buf: seq<byte>, from: nat, to: nat): (r: seq<byte>)
    requires from <= to <= |buf|
    ensures |r| == |buf| && r[..from] == buf[..from] && r[to..] == buf[to..]
    ensures forall i :: from <= i < to ==> r[i] == BLANK
  {
    buf[..from] + Fill(BLANK, to - from) + buf[to..]
  }

  /** A newline inside an F record: the rest of it becomes blanks. */
  function Blanked(s: Stream): (t: Stream)
    requires OnByte(s) && s.updat && !s.kind.binary
    ensures Sane(t) && !t.dcbout && SameKind(s, t)
    ensures t.vol == s.vol && t.open && t.error == s.error && t.updat
  {
    s.(buf := BlankOut(s.buf, s.upto, s.endbuf - 1),
       filepos := s.filepos + (s.endbuf - s.upto), upto := s.endbuf, dirty := true)
  }

  /** One byte of the record in the buffer, replaced. */
  function PutByte(s: Stream, c: byte): (t: Stream)
    requires OnByte(s) && s.updat
    ensures Sane(t) && !t.dcbout && SameKind(s, t)
    ensures t.vol == s.vol && t.open && t.error == s.error && t.updat
  {
    s.(buf := s.buf[s.upto := c], upto := s.upto + 1, filepos := s.filepos + 1, dirty := true)
  }

  /** __fpupc() once the record that holds the position is in the buffer. */
  function Over(s: Stream, c: byte): (r: (Stream, int))
    requires OnByte(s) && s.updat
    ensures Sane(r.0) && !r.0.dcbout && SameKind(s, r.0) && (r.1 == 0 || r.1 == -1)
    ensures r.0.vol == s.vol && r.0.open && r.0.error == s.error && r.0.updat
  {
    hide PutByte, Blanked;
    if !s.kind.binary && s.upto == s.endbuf - 1 then
      if c == NL then (s.(upto := s.upto + 1, filepos := s.filepos + 1), 0)
      else (s.(errno := EOPNOTSUPP), -1)
    else if !s.kind.binary && c == NL then
      if s.vol.geo.recfm.F? then (Blanked(s), 0) else (s.(errno := EOPNOTSUPP), -1)
    else
      (PutByte(s, c), 0)
  }

  /** __fpupc(): 0 written over, 1 the DCB now writes at the end, -1 refused. */
  function Fpupc(s: Stream, c: byte): (r: (Stream, int))
    requires Sane(s) && !s.dcbout && s.updat
    ensures Sane(r.0) && SameKind(s, r.0) && r.1 in {0, 1, -1}
    ensures r.1 == 1 ==> r.0.dcbout && r.0.open
  {
    hide Fpswt, Over, GetcReading;
    var t := s.(ungetch := -1);
    if s.upto < s.endbuf then Over(t, c)
    else
      var (u, k) := GetcReading(t);
      if u.error then (u, -1)
      else if k == EOF then
        var (w, rc) := Fpswt(u, true);
        (w, if rc != 0 then -1 else 1)
      else Over(PutBack(u), c)
  }

  /** A full buffer is flushed, and then there is room. */
  function MakeRoom(s: Stream): (r: (Stream, int))
    requires Sane(s) && s.open && s.dcbout
    ensures Sane(r.0) && SameKind(s, r.0) && r.0.open && r.0.dcbout
    ensures r.1 == 0 ==> r.0.upto < r.0.endbuf
  {
    hide Packed, Window;
    if s.upto == s.endbuf then FlushRec(s, false) else (s, 0)
  }

  lemma WritesAt(s: Stream, n: nat)
    requires Sane(s) && s.open && s.dcbout
    ensures Sane(s.(filepos := n))
  {
  }

  /** One more pending byte. */
  function Pend(s: Stream, c: byte): (t: Stream)
    requires Sane(s) && s.open && s.dcbout && s.upto < s.endbuf
    ensures Sane(t) && SameKind(s, t)
  {
    s.(buf := s.buf[s.upto := c], upto := s.upto + 1, filepos := s.filepos + 1)
  }

  /** __fputc() on a DCB that writes. */
  function Append(s: Stream, c: byte): (r: (Stream, int))
    requires Sane(s) && s.dcbout && s.open
    ensures Sane(r.0) && SameKind(s, r.0)
  {
    hide FlushRec, MakeRoom, Sane, Pend;
    WritesAt(s, s.filepos + 1);
    if !s.kind.binary && c == NL then
      var (t, err) := FlushRec(s.(filepos := s.filepos + 1), true);
      (t, if err != 0 then EOF else c)
    else
      var (t, err) := MakeRoom(s);
      if err != 0 then (t, EOF) else (Pend(t, c), c)
  }

  /** __fputc(). */
  function Fputc(s: Stream, c: byte): (r: (Stream, int))
    requires Sane(s)
    ensures Sane(r.0) && SameKind(s, r.0)
  {
    if !s.kind.write then (s.(errno := EBADF), EOF)
    else if s.error then (s.(errno := FailErrno(s)), EOF)
    else if s.dcbout then Append(s, c)
    else if s.updat then
      var (t, rc) := Fpupc(s, c);
      if rc < 0 then (t, EOF) else if rc == 0 then (t, c) else Append(t, c)
    else
      var (t, rc) := Fpswt(s, true);
      if rc != 0 then (t, EOF) else Append(t, c)
  }

  // ---- positioning ------------------------------------------------------------

  /** The end of plusseek(): a target past the end leaves the stream there. */
  function Arrived(s: Stream, target: nat): (r: (Stream, int))
    requires Sane(s)
    ensures Sane(r.0) && SameKind(s, r.0)
  {
    if s.filepos == target then (s.(eof := false), 0)
    else (s.(eof := false, errno := EINVAL), -1)
  }

  /** Back by n bytes of the record in the buffer. */
  function StepBack(s: Stream, n: nat): (t: Stream)
    requires Sane(s) && !s.dcbout && n <= s.upto && n <= s.filepos
    ensures Sane(t)
  {
    s.(upto := s.upto - n, filepos := s.filepos - n)
  }

  /** plusseek() once the target is known. */
  function MoveTo(s: Stream, target: nat): (r: (Stream, int))
    requires Sane(s)
    ensures Sane(r.0) && SameKind(s, r.0)
    ensures target == s.filepos ==> r == (s, 0)
  {
    hide Fpswt, SkipUntil;
    if target == s.filepos then (s, 0)
    else if !s.dcbout && s.filepos < target then Arrived(SkipUntil(s, target), target)
    else if !s.dcbout && s.ungetch == -1 && s.filepos - s.upto <= target then
      (StepBack(s, s.filepos - target), 0)
    else
      var (t, rc) := Fpswt(s.(filepos := target), false);
      if rc != 0 then (t, -1) else Arrived(t, target)
  }

  /** Where plusseek() counts from: SEEK_END reads to the end first. */
  function AtEnd(s: Stream): (r: (Stream, int))
    requires Sane(s)
    ensures Sane(r.0) && SameKind(s, r.0)
  {
    var (t, rc) := if s.posend then Fpswt(s, false)
                   else if s.dcbout then (s, 0)
                   else (SkipAll(s), 0);
    (if rc == 0 then t.(eof := false) else t, rc)
  }

  /** plusseek(). */
  function Plusseek(s: Stream, offset: int, whence: int): (r: (Stream, int))
    requires Sane(s)
    ensures Sane(r.0) && SameKind(s, r.0)
  {
    hide AtEnd, MoveTo, Sane;
    var known := whence in {SEEK_SET, SEEK_CUR, SEEK_END};
    var here := if whence == SEEK_SET then offset else s.filepos + offset;
    if s.dcbout && !s.posend && known && here == s.filepos then (s, 0)
    else
      var (t, rc) := if s.posend || whence == SEEK_END then AtEnd(s) else (s, 0);
      var target := if whence == SEEK_SET then offset else t.filepos + offset;
      StaysSane(t, EINVAL);
      if rc != 0 then (t, -1)
      else if !known || target < 0 then (t.(errno := EINVAL), -1)
      else MoveTo(t, target)
  }

  /** What a call comes to.  NoDcb: it has asked the access method to read although the
      DCB could not be opened again; there is no telling what happens then. */
  datatype Outcome<T> = Did(stream: Stream, ret: T) | NoDcb

  /** plusseek() on a stream that is not open: where it leaves the position, errno and
      what it returns - or that __fgetc() found nothing to keep it from reading. */
  datatype Shutseek = Stays(filepos: nat, errno: Errno, rc: int) | Reads

  /** __fgetc() on a stream that is not open and has nothing in its buffer. */
  predicate GetcReads(s: Stream) { s.kind.read && !s.error && !s.dcbout && s.ungetch == -1 && !s.eof }

  function PlusseekShut(s: Stream, offset: int, whence: int): Shutseek
    requires !s.open && !s.dcbout && Emptied(s)
  {
    var target := if whence == SEEK_SET then offset else s.filepos + offset;
    if s.posend then Stays(s.filepos, EBADF, -1)
    else if whence == SEEK_END && GetcReads(s) then Reads
    else if whence !in {SEEK_SET, SEEK_CUR, SEEK_END} || target < 0 then Stays(s.filepos, EINVAL, -1)
    else if target == s.filepos then Stays(s.filepos, s.errno, 0)
    else if s.filepos < target then if GetcReads(s) then Reads else Stays(s.filepos, EINVAL, -1)
    else Stays(target, EBADF, -1)
  }

  /** __fseek() on a stream that only writes: it can go to where it is. */
  function WriterSeek(s: Stream, offset: int, whence: int): (r: (Stream, int))
    requires Sane(s)
    ensures Sane(r.0) && SameKind(s, r.0)
  {
    hide Sane;
    var known := whence in {SEEK_SET, SEEK_CUR, SEEK_END};
    var here := known && s.filepos == if whence == SEEK_SET then offset else s.filepos + offset;
    var c, e := if here then -1 else s.ungetch, if known && !here then ESPIPE else s.errno;
    WriterSane(s, c, e);
    (s.(eof := false, ungetch := c, errno := e), if here then 0 else -1)
  }

  /** Nowhere else, and no seek moves it. */
  lemma WriterStays(s: Stream, offset: int, whence: int)
    requires Sane(s)
    ensures var (t, rc) := WriterSeek(s, offset, whence);
      && (rc == 0 <==> (whence == 0 && offset == s.filepos) || ((whence == 1 || whence == 2) && offset == 0))
      && (rc != 0 ==> rc == -1 && (0 <= whence <= 2 ==> t.errno == ESPIPE))
      && t == s.(eof := false, ungetch := t.ungetch, errno := t.errno)
  {
    hide Sane;
  }

  lemma WriterSane(s: Stream, c: int, e: Errno)
    requires Sane(s) && (c == -1 || c == s.ungetch)
    ensures Sane(s.(eof := false, ungetch := c, errno := e))
  {
  }

  /** The pushed-back character forgotten. */
  lemma Forget(s: Stream)
    requires Sane(s)
    ensures Sane(s.(ungetch := -1))
  {
  }

  lemma ShutSane(s: Stream, pos: nat, e: Errno)
    requires Sane(s) && !s.open
    ensures Sane(s.(filepos := pos, eof := false, errno := e))
  {
  }

  /** fseek() clears the indicators for the reads it makes, and puts the error back. */
  function Restored(s: Stream, t: Stream): Stream {
    t.(error := t.error || s.error, enospc := t.enospc || s.enospc)
  }

  lemma CanSeek(s: Stream)
    requires Sane(s)
    ensures if s.open then Sane(s.(error := false, enospc := false, eof := false))
            else s.error && !s.dcbout && Emptied(s)
  {
  }

  /** fseek() of an open '+' stream. */
  function SeekOpen(s: Stream, offset: int, whence: int): (r: (Stream, int))
    requires Sane(s) && s.open
    ensures Sane(r.0) && SameKind(s, r.0)
  {
    hide Plusseek, Sane;
    CanSeek(s);
    var (t, rc) := Plusseek(s.(error := false, enospc := false, eof := false), offset, whence);
    Forget(t);
    var u := if rc == 0 then t.(ungetch := -1) else t;
    SaneFlags(u, Restored(s, u));
    (Restored(s, u), rc)
  }

  /** fseek() of a '+' stream. */
  function Fseek(s: Stream, offset: int, whence: int): (r: Outcome<int>)
    requires Sane(s) && s.kind.Plus()
    ensures r.Did? ==> Sane(r.stream) && SameKind(s, r.stream)
    ensures s.open ==> r.Did?
  {
    hide SeekOpen, PlusseekShut, Sane;
    CanSeek(s);
    if s.open then var (t, rc) := SeekOpen(s, offset, whence); Did(t, rc)
    else
      match PlusseekShut(s.(error := false, enospc := false, eof := false), offset, whence)
      case Reads => NoDcb
      case Stays(pos, e, rc) =>
        ShutSane(s, pos, e);
        Did(s.(filepos := pos, eof := false, errno := e), rc)
  }

  /** A stream that could not be opened again is sought in vain - and to the end, or
      forward, at the program's peril. */
  lemma SeekReaches(s: Stream, offset: int, whence: int)
    requires Sane(s) && s.kind.Plus() && !s.posend
    ensures Fseek(s, offset, whence).NoDcb? <==>
            && !s.open
            && (whence == SEEK_END || (whence == SEEK_SET && s.filepos < offset) || (whence == SEEK_CUR && 0 < offset))
    ensures !s.open && Fseek(s, offset, whence).Did? ==>
              var t := Fseek(s, offset, whence).stream; !t.open && t.error && t.vol == s.vol
    ensures !s.open && Fseek(s, offset, whence).Did? ==>
              var Did(t, rc) := Fseek(s, offset, whence);
              var target := if whence == 0 then offset else s.filepos + offset;
              && (rc == 0 <==> (whence == 0 || whence == 1) && target == s.filepos) && (rc == 0 || rc == -1)
              && t.filepos == if (whence == 0 || whence == 1) && 0 <= target < s.filepos then target else s.filepos
  {
    hide SeekOpen;
  }
}
