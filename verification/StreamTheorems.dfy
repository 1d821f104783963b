/** What a program that opens a '+' stream can rely on, on a device that does
    not fail, and exactly where the reliance ends. */
module StreamTheorems {
  import opened Bytes
  import opened AccessMethod
  import opened StreamSpec
  import opened StreamRefines
  import opened StreamOpen
  import opened StreamRuns
  import opened DocFacts
  import D = Doc

  /** The document an "r+", "w+" or "a+" stream starts as. */
  function FirstDoc(m: Mode, v: Volume): D.Doc
    requires v.Ok()
  {
    var seen := Views(v.geo, m.letters.binary, v.recs);
    if !m.dcbout then D.Doc(seen, [], 0)
    else if m.letters.append || m.extend then D.Doc(seen, [], |D.Flat(seen)|)
    else D.Doc([], [], 0)
  }

  function FirstMode(m: Mode): D.Mode { if m.dcbout then D.Writing else D.Fresh }

  function FormFor(m: Mode, v: Volume): D.Form {
    D.Form(v.geo, m.letters.binary, m.letters.append)
  }

  /** fopen() gives a stream to work with. */
  predicate Opens(m: Mode, v: Volume)
    requires v.Ok() && v.dcb.Closed?
  {
    var (s, err) := Fopen(m, false, v); err == 0 && Sane(s) && s.open && s.kind.Plus()
  }

  /** From fopen() to the last call: the whole life of a '+' stream is the life
      of its document. */
  lemma LifeRefines(m: Mode, v: Volume, ops: seq<Op>)
    requires LibraryMode(m) && Ready(v, m.letters.binary)
    requires AllowedRun(FormFor(m, v), FirstDoc(m, v), FirstMode(m), ops)
    ensures Opens(m, v)
    ensures var r := Run(Fopen(m, false, v).0, ops);
      r.Did? && Tidy(r.stream) && (Abstract(r.stream), r.ret) == DocRun(FormFor(m, v), FirstDoc(m, v), ops)
  {
    hide Views, D.Flat, CleanRecords, Run, DocRun, AllowedRun;
    FirstOpen(m, v);
    RunRefines(Fopen(m, false, v).0, ops);
  }

  /** "r+" starts at byte 0, "w+" empty, "a+" behind all there is. */
  lemma FirstOpen(m: Mode, v: Volume)
    requires LibraryMode(m) && Ready(v, m.letters.binary)
    ensures var (s, err) := Fopen(m, false, v);
      && err == 0 && Tidy(s) && Abstract(s) == FirstDoc(m, v) && FormOf(s) == FormFor(m, v)
      && ModeOf(s) == FirstMode(m)
  {
    hide Views, D.Flat, CleanRecords, Fpswt;
    if !m.dcbout { OpenUpdate(m, v); }
    else if m.letters.append { OpenAppend(m, v); }
    else { OpenOutput(m, v); }
  }

  /** No call, and no turn of the DCB, drops or resizes a record that was there
      when "r+" or "a+" opened the data set; "a+" changes no byte of one. */
  lemma NothingTruncated(m: Mode, v: Volume, ops: seq<Op>)
    requires LibraryMode(m) && (m.dcbout ==> m.letters.append) && Ready(v, m.letters.binary)
    requires AllowedRun(FormFor(m, v), FirstDoc(m, v), FirstMode(m), ops)
    ensures Opens(m, v) && Run(Fopen(m, false, v).0, ops).Did?
    ensures var t := Run(Fopen(m, false, v).0, ops).stream; var first := Views(v.geo, m.letters.binary, v.recs);
      KeepsRecords(first, Seen(t)) && (m.letters.append ==> first <= Seen(t))
  {
    hide Views, D.Flat, CleanRecords, Run, DocRun, AllowedRun, Fopen, Healthy;
    LifeRefines(m, v, ops);
    DocRunKeeps(FormFor(m, v), FirstDoc(m, v), ops);
  }

  // ---- the round trip ---------------------------------------------------------------

  /** Lines of text. */
  predicate Writable(lines: seq<seq<byte>>) {
    forall i :: 0 <= i < |lines| ==> NL !in lines[i] && 0 !in lines[i]
  }

  lemma {:induction false} TextHasNoNul(lines: seq<seq<byte>>)
    requires forall i :: 0 <= i < |lines| ==> 0 !in lines[i]
    ensures 0 !in Text(lines)
  {
    if lines != [] { TextHasNoNul(lines[1..]); }
  }

  /** A stream that is writing goes on writing. */
  lemma {:induction false} PutsAllowed(f: D.Form, d: D.Doc, text: seq<byte>, rest: seq<Op>)
    requires f.geo.Shape() && (f.binary || 0 !in text) && DocFacts.AtEnd(d)
    requires AllowedRun(f, DocRun(f, d, Puts(text)).0, D.Writing, rest)
    ensures AllowedRun(f, d, D.Writing, Puts(text) + rest)
    decreases |text|
  {
    if text == [] {
      assert Puts(text) + rest == rest;
    } else {
      var ops := Puts(text) + rest;
      assert ops[1..] == Puts(text[1..]) + rest && Puts(text)[1..] == Puts(text[1..]);
      PutsAtEnd(f, d, text[0]);
      PutsAllowed(f, DocStep(f, d, ops[0]).0, text[1..], rest);
    }
  }

  lemma PutsAtEnd(f: D.Form, d: D.Doc, c: byte)
    requires f.geo.Shape() && DocFacts.AtEnd(d)
    ensures !D.Inside(f, d) && DocFacts.AtEnd(D.Putc(f, d, c).0)
  {
  }

  lemma {:induction false} GetcsAllowed(f: D.Form, d: D.Doc, m: D.Mode, n: nat)
    requires f.geo.Shape()
    ensures AllowedRun(f, d, m, Getcs(n))
    decreases n
  {
    if n != 0 {
      assert Getcs(n)[1..] == Getcs(n - 1);
      GetcsAllowed(f, D.Getc(f, d).0, D.ModeGetc(f, d, m), n - 1);
    }
  }

  const REWIND := DoSeek(0, SEEK_SET)

  function WriteThenRead(lines: seq<seq<byte>>, n: nat): seq<Op> {
    Puts(Text(lines)) + ([REWIND] + Getcs(n))
  }

  /** Rewound and read: the whole content, and nothing changed. */
  lemma RewindReads(f: D.Form, w: D.Doc, n: nat)
    requires f.geo.Shape() && w.tail == [] && w.pos == |D.Flat(w.closed)|
    ensures var ops := [REWIND] + Getcs(n); var (e, outs) := DocRun(f, w, ops);
      && AllowedRun(f, w, D.Writing, ops) && e.closed == w.closed
      && |outs| == n + 1 && IsReadBack(outs[1..], D.Flat(w.closed), 0)
  {
    hide D.Flat, IsReadBack;
    var ops, r := [REWIND] + Getcs(n), w.(pos := 0);
    assert ops[1..] == Getcs(n);
    assert DocStep(f, w, REWIND) == (r, 0);
    GetcsAllowed(f, r, ModeStep(f, w, D.Writing, REWIND), n);
    ReadOn(f, r, n);
    ReadsKeep(f, r, n);
    assert DocRun(f, w, ops).1[1..] == DocRun(f, r, Getcs(n)).1;
  }

  /** The same for the document, from empty. */
  lemma DocRoundTrip(f: D.Form, lines: seq<seq<byte>>, n: nat)
    requires f.geo.Shape() && !f.binary && !f.append && Writable(lines)
    ensures var d := D.Doc([], [], 0); var ops := WriteThenRead(lines, n); var (e, outs) := DocRun(f, d, ops);
      var recs := Finished(f, AllPieces(f.geo.Capacity(), lines));
      && AllowedRun(f, d, D.Writing, ops) && e.closed == recs
      && IsReadBack(outs[|Text(lines)| + 1..], D.Flat(recs), 0)
  {
    assert |D.Flat([])| == 0;
    hide D.Flat, DocStep, IsReadBack, DocRun, AllowedRun, Finished, AllPieces, Text;
    var d, text, rest := D.Doc([], [], 0), Text(lines), [REWIND] + Getcs(n);
    TextHasNoNul(lines);
    PutLines(f, d, lines);
    var recs := Finished(f, AllPieces(f.geo.Capacity(), lines));
    assert d.closed + recs == recs;
    var w := DocRun(f, d, Puts(text)).0;
    RewindReads(f, w, n);
    PutsAllowed(f, d, text, rest);
    DocRunSplit(f, d, Puts(text), rest);
    Behind(DocRun(f, d, Puts(text)).1, DocRun(f, w, rest).1);
  }

  lemma Behind(a: seq<int>, b: seq<int>)
    requires b != []
    ensures (a + b)[|a| + 1..] == b[1..]
  {
  }

  lemma {:induction false} ReadsKeep(f: D.Form, d: D.Doc, n: nat)
    requires f.geo.Shape() && d.tail == []
    ensures DocRun(f, d, Getcs(n)).0.closed == d.closed
    decreases n
  {
    if n != 0 {
      assert Getcs(n)[1..] == Getcs(n - 1);
      ReadsKeep(f, D.Getc(f, d).0, n - 1);
    }
  }

  /** Write lines on a new "w+" text stream, seek to the start and read: the
      lines come back, each as its record reads - one that is too long as several - and
      then EOF, whatever mix of OUTPUT, UPDAT and EXTEND opens that takes.  On V they come
      back exactly. */
  lemma TextRoundTrip(m: Mode, v: Volume, lines: seq<seq<byte>>, n: nat)
    requires LibraryMode(m) && m.dcbout && !m.letters.append && !m.letters.binary
    requires Ready(v, false) && Writable(lines)
    ensures Opens(m, v) && Run(Fopen(m, false, v).0, WriteThenRead(lines, n)).Did?
    ensures var f := FormFor(m, v); var Did(t, outs) := Run(Fopen(m, false, v).0, WriteThenRead(lines, n));
      var pieces := AllPieces(v.geo.Capacity(), lines);
      && Tidy(t) && Seen(t) == Finished(f, pieces)
      && IsReadBack(outs[|Text(lines)| + 1..], D.Flat(Finished(f, pieces)), 0)
      && (v.geo.recfm.V? ==> IsReadBack(outs[|Text(lines)| + 1..], Text(pieces), 0))
  {
    hide Views, D.Flat, CleanRecords, Run, DocRun, AllowedRun, Fopen, Healthy, IsReadBack;
    var f := FormFor(m, v);
    DocRoundTrip(f, lines, n);
    LifeRefines(m, v, WriteThenRead(lines, n));
    if v.geo.recfm.V? { VariableIsExact(f, AllPieces(v.geo.Capacity(), lines)); }
  }

  // ---- the round trip of bytes --------------------------------------------------------

  /** Bytes of a binary stream come one behind the other, each accepted, in records that
      are full. */
  lemma {:induction false} PutBytes(f: D.Form, d: D.Doc, bytes: seq<byte>)
    requires f.geo.Shape() && f.binary && DocFacts.AtEnd(d) && |d.tail| <= f.geo.Capacity()
    requires |D.Flat(d.closed)| == |d.closed| * f.geo.Capacity()
    ensures var (e, outs) := DocRun(f, d, Puts(bytes));
      && DocFacts.AtEnd(e) && |e.tail| <= f.geo.Capacity() && |D.Flat(e.closed)| == |e.closed| * f.geo.Capacity()
      && D.Flat(e.closed) + e.tail == D.Flat(d.closed) + d.tail + bytes
      && |outs| == |bytes| && forall i :: 0 <= i < |outs| ==> outs[i] == bytes[i]
    decreases |bytes|
  {
    hide D.Flat;
    var so := D.Flat(d.closed) + d.tail;
    if bytes == [] {
      assert so + bytes == so;
    } else {
      hide D.Putc;
      assert Puts(bytes)[1..] == Puts(bytes[1..]);
      PutsAtEnd(f, d, bytes[0]);
      PutcAtEnd(f, d, bytes[0]);
      FullRecords(f, d, bytes[0]);
      var e := D.Putc(f, d, bytes[0]).0;
      PutBytes(f, e, bytes[1..]);
      assert so + [bytes[0]] + bytes[1..] == so + bytes;
      var outs := DocRun(f, e, Puts(bytes[1..])).1;
      assert DocRun(f, d, Puts(bytes)).1 == [bytes[0] as int] + outs;
      forall i | 0 <= i < |bytes| ensures ([bytes[0] as int] + outs)[i] == bytes[i] {
        if i > 0 { assert outs[i - 1] == bytes[1..][i - 1]; }
      }
    }
  }

  lemma FullRecords(f: D.Form, d: D.Doc, c: byte)
    requires f.geo.Shape() && f.binary && DocFacts.AtEnd(d) && |d.tail| <= f.geo.Capacity()
    requires |D.Flat(d.closed)| == |d.closed| * f.geo.Capacity()
    ensures var e := D.Putc(f, d, c).0; |D.Flat(e.closed)| == |e.closed| * f.geo.Capacity()
  {
    hide D.Flat;
    PutsAtEnd(f, d, c);
    var e, cap := D.Putc(f, d, c).0, f.geo.Capacity();
    if e.closed != d.closed {
      D.FlatConcat(d.closed, [D.Finish(f, d.tail)]);
      D.FlatOne(D.Finish(f, d.tail));
      OneMore(|d.closed|, cap);
    }
  }

  lemma OneMore(n: nat, cap: nat)
    ensures (n + 1) * cap == n * cap + cap
  {
  }

  /** Ended, the bytes fill whole records on F, with X'00' behind them; on V and U they are
      as they were. */
  lemma SettledBytes(f: D.Form, d: D.Doc, bytes: seq<byte>) returns (pad: nat)
    requires f.geo.Shape() && f.binary && |d.tail| <= f.geo.Capacity()
    requires |D.Flat(d.closed)| == |d.closed| * f.geo.Capacity() && D.Flat(d.closed) + d.tail == bytes
    ensures D.Content(f, d) == bytes + Fill(0, pad)
    ensures if f.geo.recfm.F? then pad < f.geo.lrecl && |bytes| + pad == |D.Settle(f, d).closed| * f.geo.lrecl
            else pad == 0
  {
    hide D.Flat;
    if d.tail == [] {
      pad := 0;
      assert D.Flat(d.closed) + d.tail == D.Flat(d.closed);
      assert bytes + [] == bytes;
    } else {
      var cap := f.geo.Capacity();
      pad := if f.geo.recfm.F? then cap - |d.tail| else 0;
      D.FlatConcat(d.closed, [D.Finish(f, d.tail)]);
      D.FlatOne(D.Finish(f, d.tail));
      OneMore(|d.closed|, cap);
      assert D.Finish(f, d.tail) == d.tail + Fill(0, pad);
    }
  }

  /** Rewound while a record is being written: it is ended, and everything is read. */
  lemma RewindEnds(f: D.Form, w: D.Doc, n: nat)
    requires f.geo.Shape() && DocFacts.AtEnd(w)
    ensures var ops := [REWIND] + Getcs(n); var outs := DocRun(f, w, ops).1;
      AllowedRun(f, w, D.Writing, ops) && |outs| == n + 1 && IsReadBack(outs[1..], D.Content(f, w), 0)
  {
    hide D.Flat, IsReadBack, D.Finish;
    var ops, r := [REWIND] + Getcs(n), D.Seek(f, w, 0, SEEK_SET).0;
    assert ops[1..] == Getcs(n);
    SeekArrives(f, w, 0, SEEK_SET);
    GetcsAllowed(f, r, ModeStep(f, w, D.Writing, REWIND), n);
    ReadOn(f, r, n);
    assert DocRun(f, w, ops).1[1..] == DocRun(f, r, Getcs(n)).1;
  }

  /** The bytes of a run that writes, rewinds and reads. */
  function BytesThenRead(bytes: seq<byte>, n: nat): seq<Op> { Puts(bytes) + ([REWIND] + Getcs(n)) }

  lemma DocBytesBack(f: D.Form, bytes: seq<byte>, n: nat) returns (pad: nat, records: nat)
    requires f.geo.Shape() && f.binary && !f.append
    ensures var ops := BytesThenRead(bytes, n); var outs := DocRun(f, D.Doc([], [], 0), ops).1;
      && AllowedRun(f, D.Doc([], [], 0), D.Writing, ops)
      && (forall i :: 0 <= i < |bytes| ==> outs[i] == bytes[i])
      && IsReadBack(outs[|bytes| + 1..], bytes + Fill(0, pad), 0)
    ensures if f.geo.recfm.F? then pad < f.geo.lrecl && |bytes| + pad == records * f.geo.lrecl else pad == 0
  {
    assert D.Flat([]) == [];
    hide D.Flat, DocStep, IsReadBack, DocRun, AllowedRun;
    var d, rest := D.Doc([], [], 0), [REWIND] + Getcs(n);
    PutBytes(f, d, bytes);
    var (w, done) := DocRun(f, d, Puts(bytes));
    assert [] + [] + bytes == bytes;
    pad := SettledBytes(f, w, bytes);
    records := |D.Settle(f, w).closed|;
    RewindEnds(f, w, n);
    PutsAllowed(f, d, bytes, rest);
    DocRunSplit(f, d, Puts(bytes), rest);
    Behind(done, DocRun(f, w, rest).1);
  }

  /** Write any bytes on a new "w+" binary stream, seek to the start and read: each is
      accepted, they come back, on F with X'00' behind them up to the end of the last record,
      and then EOF. */
  lemma BinaryRoundTrip(m: Mode, v: Volume, bytes: seq<byte>, n: nat) returns (pad: nat, records: nat)
    requires LibraryMode(m) && m.dcbout && !m.letters.append && m.letters.binary && Ready(v, true)
    ensures Opens(m, v) && Run(Fopen(m, false, v).0, BytesThenRead(bytes, n)).Did?
    ensures var Did(t, outs) := Run(Fopen(m, false, v).0, BytesThenRead(bytes, n));
      && Tidy(t) && (forall i :: 0 <= i < |bytes| ==> outs[i] == bytes[i])
      && IsReadBack(outs[|bytes| + 1..], bytes + Fill(0, pad), 0)
    ensures if v.geo.recfm.F? then pad < v.geo.lrecl && |bytes| + pad == records * v.geo.lrecl else pad == 0
  {
    hide Views, D.Flat, CleanRecords, Run, DocRun, AllowedRun, Fopen, Healthy, IsReadBack;
    pad, records := DocBytesBack(FormFor(m, v), bytes, n);
    LifeRefines(m, v, BytesThenRead(bytes, n));
  }

  // ---- refusals --------------------------------------------------------------------------

  /** What fputc() does with a byte over byte k of record i, on a stream whose device
      updates in place: PutcAccepts of the document, and errno for a refusal. */
  lemma FputcAccepts(s: Stream, i: nat, k: nat, c: byte)
    requires Reading(s) && s.updat && (c != 0 || s.kind.binary) && ModeOf(s) == D.Fresh
    requires i < |Seen(s)| && k < |Seen(s)[i]| && s.filepos == |D.Flat(Seen(s)[..i])| + k
    ensures var (t, r) := Fputc(s, c); var was, last, text := Seen(s)[i], k == |Seen(s)[i]| - 1, !s.kind.binary;
      && Reading(t) && |Seen(t)| == |Seen(s)| && (forall j :: 0 <= j < |Seen(s)| && j != i ==> Seen(t)[j] == Seen(s)[j])
      && (r == c <==> !text || (!last && c != NL) || (last && c == NL) || (!last && c == NL && s.vol.geo.recfm.F?))
      && (r == c && (!text || c != NL) ==> Seen(t)[i] == was[k := c] && t.filepos == s.filepos + 1)
      && (r != c ==> r == EOF && Seen(t) == Seen(s) && t.filepos == s.filepos && t.errno == EOPNOTSUPP)
  {
    hide Views, CleanRecords, D.Flat, Fputc;
    D.FlatAt(Seen(s), i);
    FputcInPlace(s, c);
    PutcAccepts(FormOf(s), Abstract(s), i, k, c);
    if Fputc(s, c).1 == EOF { RefusedErrno(s, c); }
  }

  lemma RefusedErrno(s: Stream, c: byte)
    requires Reading(s) && s.updat && s.filepos < |D.Flat(Seen(s))| && Fputc(s, c).1 == EOF
    ensures Fputc(s, c).0.errno == EOPNOTSUPP
  {
    hide Views, CleanRecords, D.Flat, Sane, GetcReading, PutByte, Blanked, Fpswt, Reading, Over, Append;
    UngetchFree(s);
    assert s.(ungetch := -1) == s;
    if s.upto < s.endbuf {
      OverErrno(s, c);
    } else {
      PeekFound(s);
      OverErrno(PutBack(GetcReading(s).0), c);
    }
  }

  lemma OverErrno(s: Stream, c: byte)
    requires OnByte(s) && s.updat && Over(s, c).1 != 0
    ensures Over(s, c).1 == -1 && Over(s, c).0.errno == EOPNOTSUPP
  {
  }

  lemma UngetchFree(s: Stream)
    requires Reading(s)
    ensures s.ungetch == -1 && !s.error && !s.dcbout && s.open && s.kind.write && Sane(s)
    ensures s.upto < s.endbuf ==> OnByte(s)
  {
    hide Views, CleanRecords, D.Flat;
  }

  lemma PeekFound(s: Stream)
    requires Reading(s) && s.filepos < |D.Flat(Seen(s))|
    ensures var (u, c) := GetcReading(s);
      !u.error && c != EOF && u.open && !u.dcbout && 0 < u.upto && 0 < u.filepos && (s.updat ==> u.updat)
  {
    hide Views, CleanRecords, D.Flat, GetcReading;
    PeekRefines(s);
  }

  /** Where fseek() takes a stream, and what it returns: SeekArrives of the document. */
  lemma FseekArrives(s: Stream, offset: int, whence: int)
    requires Tidy(s)
    ensures var r := Fseek(s, offset, whence); var bytes := D.Content(FormOf(s), Abstract(s));
      var pending := s.dcbout && s.upto > 0;
      var target := if whence == 0 then offset else (if whence == 1 || pending then s.filepos else |bytes|) + offset;
      && r.Did? && Tidy(r.stream) && D.Content(FormOf(s), Abstract(r.stream)) == bytes
      && (r.ret == 0 || r.ret == -1)
      && (r.ret == 0 <==> (0 <= whence <= 2 && 0 <= target <= |bytes|) ||
                          (0 <= whence <= 2 && target == s.filepos && (whence != 2 || pending)))
      && (r.ret == 0 ==> r.stream.filepos == target)
      && (r.ret == -1 ==> r.stream.errno == EINVAL)
      && (r.ret == -1 && 0 <= whence <= 2 && target > |bytes| ==> r.stream.filepos == |bytes|)
  {
    hide Views, CleanRecords, D.Flat, Fseek, D.Seek, D.Content;
    FseekRefines(s, offset, whence);
    SeekArrives(FormOf(s), Abstract(s), offset, whence);
  }

  // ---- lines ------------------------------------------------------------------------

  /** How many bytes from pos on make up a line of at most room bytes. */
  function LineLength(bytes: seq<byte>, pos: nat, room: nat): (k: nat)
    ensures k <= room && (pos <= |bytes| ==> pos + k <= |bytes|)
    decreases room
  {
    if room == 0 || |bytes| <= pos then 0
    else if bytes[pos] == NL then 1
    else 1 + LineLength(bytes, pos + 1, room - 1)
  }

  /** The loop of __fgets() on the document. */
  function GetsLoop(f: D.Form, d: D.Doc, room: nat, got: seq<byte>): (D.Doc, seq<byte>, int)
    decreases room
  {
    if room == 0 then (d, got, 0)
    else
      var (e, c) := D.Getc(f, d);
      if c == EOF then (e, got, EOF)
      else if c == NL then (e, got + [NL], NL)
      else GetsLoop(f, e, room - 1, got + [c])
  }

  lemma {:induction false} GetsLoopBytes(f: D.Form, d: D.Doc, room: nat, got: seq<byte>)
    requires 0 < room && d.pos <= |D.Content(f, d)|
    ensures var bytes := D.Content(f, d); var k := LineLength(bytes, d.pos, room);
      var r := GetsLoop(f, d, room, got);
      && r.0 == D.Settle(f, d).(pos := d.pos + k) && r.1 == got + bytes[d.pos..d.pos + k]
      && (k == 0 ==> r.2 == EOF)
    decreases room
  {
    hide D.Flat, D.Finish;
    var bytes := D.Content(f, d);
    var (e, c) := D.Getc(f, d);
    if d.pos == |bytes| {
      assert got + bytes[d.pos..d.pos] == got;
    } else if c == NL || room == 1 {
      assert bytes[d.pos..d.pos + 1] == [c];
      assert LineLength(bytes, d.pos, room) == 1;
      assert GetsLoop(f, d, room, got).0 == e && GetsLoop(f, d, room, got).1 == got + [c];
    } else {
      assert D.Content(f, e) == bytes;
      GetsLoopBytes(f, e, room - 1, got + [c]);
      var k := LineLength(bytes, e.pos, room - 1);
      assert got + [c] + bytes[e.pos..e.pos + k] == got + bytes[d.pos..d.pos + 1 + k];
    }
  }

  lemma TidySane(s: Stream)
    requires Tidy(s)
    ensures Sane(s)
  {
  }

  lemma SameForm(s: Stream, t: Stream)
    requires SameKind(s, t)
    ensures FormOf(t) == FormOf(s)
  {
  }

  lemma {:induction false} FgetsLoopRefines(s: Stream, room: nat, got: seq<byte>)
    requires Tidy(s)
    ensures var (t, chars, c) := FgetsLoop(s, room, got);
      Tidy(t) && (Abstract(t), chars, c) == GetsLoop(FormOf(s), Abstract(s), room, got)
    decreases room
  {
    hide Fgetc, D.Getc, Abstract, Tidy, Sane;
    TidySane(s);
    if room != 0 {
      FgetcRefines(s);
      var (t, c) := Fgetc(s);
      if c != EOF && c != NL {
        SameForm(s, t);
        FgetsLoopRefines(t, room - 1, got + [c]);
      }
    }
  }

  /** __fgets() on the document. */
  function Gets(f: D.Form, d: D.Doc, n: int): (D.Doc, Line) {
    if n < 1 then (d, NoLine)
    else
      var (e, got, c) := GetsLoop(f, d, n - 1, []);
      (e, if got == [] && c == EOF then NoLine else Line(got))
  }

  /** A line is the bytes from the position up to and with the next newline, as
      many as fit; there is a null pointer only when there is no byte. */
  lemma GetsBytes(f: D.Form, d: D.Doc, n: int)
    requires 1 < n && d.pos <= |D.Content(f, d)|
    ensures var bytes := D.Content(f, d); var k := LineLength(bytes, d.pos, n - 1);
      Gets(f, d, n) == (D.Settle(f, d).(pos := d.pos + k),
                        if k == 0 then NoLine else Line(bytes[d.pos..d.pos + k]))
  {
    hide GetsLoop, D.Settle, D.Content;
    GetsLoopBytes(f, d, n - 1, []);
    var bytes := D.Content(f, d);
    var k := LineLength(bytes, d.pos, n - 1);
    assert [] + bytes[d.pos..d.pos + k] == bytes[d.pos..d.pos + k];
  }

  /** __fgets() is Gets of the document, unless the end has been seen: then it
      is a null pointer at once. */
  lemma FgetsRefines(s: Stream, n: int)
    requires Tidy(s)
    ensures var (t, line) := Fgets(s, n);
      Tidy(t) && (Abstract(t), line) == if s.eof then (Abstract(s), NoLine) else Gets(FormOf(s), Abstract(s), n)
  {
    hide FgetsLoop, GetsLoop;
    if !s.eof && 1 <= n { FgetsLoopRefines(s, n - 1, []); }
  }

  // ---- where it ends --------------------------------------------------------------------

  /** Read and written back unchanged, a text record is the record it was unless it is F
      and its data ends in X'00': there the X'00's stripped on reading come back as
      blanks.  V and U are filled up with X'00' to the length they had. */
  lemma RewriteExact(g: Geometry, raw: seq<byte>)
    requires g.Shape() && g.RecordOk(raw)
    ensures Replace(g, raw, Packed(g, StripNul(RecordData(g, raw)), BLANK)) == raw <==>
            !g.recfm.F? || CleanData(false, RecordData(g, raw))
  {
    var data := RecordData(g, raw);
    var back := Replace(g, raw, Packed(g, StripNul(data), BLANK));
    ReplacedData(g, raw, StripNul(data), BLANK);
    if g.recfm.F? && !CleanData(false, data) {
      assert back[|raw| - 1] == BLANK && raw[|raw| - 1] == 0;
    } else {
      if g.recfm.F? { StripClean(data); }
      assert RecordData(g, back) == data;
      SameRecord(g, raw, back);
    }
  }

  lemma SameRecord(g: Geometry, a: seq<byte>, b: seq<byte>)
    requires g.Shape() && g.RecordOk(a) && g.RecordOk(b) && RecordData(g, a) == RecordData(g, b)
    ensures a == b
  {
    if g.recfm.V? {
      assert a == a[..4] + a[4..] && b == b[..4] + b[4..];
      assert a[4..] == RecordData(g, a) && b[4..] == RecordData(g, b);
    }
  }

  /** "r+". */
  const READ_UPDATE := Mode(Letters(true, true, false, false), false, true, false, Options(false, false, false))

  /** One F record that ends in X'00'. */
  function NulRecord(): (v: Volume)
    ensures v.Ok() && v.dcb.Closed?
  {
    Volume(Geometry(F, 3, 3, true, true), [[0xC1, 0xC2, 0]], [], Closed, 0, false, 0, [])
  }

  lemma NulViews()
    ensures Views(NulRecord().geo, false, [[0xC1, 0xC2, 0]]) == [[0xC1, 0xC2, NL]]
    ensures Views(NulRecord().geo, false, [[0xD1, 0xC2, BLANK]]) == [[0xD1, 0xC2, BLANK, NL]]
    ensures RecordView(NulRecord().geo, false, [0xC1, 0xC2, 0]) == [0xC1, 0xC2, NL]
  {
    var g, a: seq<byte>, b: seq<byte> := NulRecord().geo, [0xC1, 0xC2, 0], [0xD1, 0xC2, BLANK];
    assert a[..3] == a && b[..3] == b && a[..2] == [0xC1, 0xC2];
    StripClean([0xC1, 0xC2]);
    assert StripNul(a) == [0xC1, 0xC2];
    assert RecordView(g, false, a) == [0xC1, 0xC2] + [NL] == [0xC1, 0xC2, NL];
    StripClean(b);
    assert RecordView(g, false, b) == b + [NL] == [0xD1, 0xC2, BLANK, NL];
    ViewsOne(g, a);
    ViewsOne(g, b);
  }

  lemma ViewsOne(g: Geometry, raw: seq<byte>)
    requires g.Shape() && g.RecordOk(raw)
    ensures Views(g, false, [raw]) == [RecordView(g, false, raw)]
  {
    assert [raw][1..] == [];
  }

  /** The record in the buffer, its first byte replaced. */
  lemma NulEdited(s: Stream)
    requires Sane(s) && s.dirty && !s.error && s.vol.kept && s.vol.answers == [] && !s.kind.binary
    requires s.vol.geo == NulRecord().geo && s.vol.recs == NulRecord().recs && s.vol.next == 1
    requires s.endbuf == 3 && s.buf[..3] == [0xD1, 0xC2, NL]
    ensures var (t, err) := FlushRec(s, false); err == 0 && Seen(t) == [[0xD1, 0xC2, BLANK, NL]]
  {
    hide Views;
    NulViews();
    assert Held(s) == s.buf[..3][..2] == [0xD1, 0xC2];
    var rec := Packed(s.vol.geo, Held(s), BLANK);
    assert rec == [0xD1, 0xC2, BLANK];
    assert Fit(rec, 3) == rec;
    assert FlushRec(s, false).0.vol.recs == [[0xD1, 0xC2, BLANK]];
  }

  /** Open it "r+", write over its first byte and flush: the third byte, which nobody
      wrote to, has become a blank, and the line is longer. */
  lemma TrailingNulGrows()
    ensures var (s, err) := Fopen(READ_UPDATE, false, NulRecord());
      && err == 0 && Sane(s) && Seen(s) == [[0xC1, 0xC2, NL]]
      && var (t, put) := Fputc(s, 0xD1);
         var (u, flushed) := FlushRec(t, false);
         put == 0xD1 && flushed == 0 && Seen(u) == [[0xD1, 0xC2, BLANK, NL]]
  {
    NulViews();
    hide Views, FlushRec, RecordView, Fputc, Fpopen;
    var s := Fopen(READ_UPDATE, false, NulRecord()).0;
    NulOpened();
    NulRead(s);
    var u := GetcReading(s).0;
    NulPut(s);
    NulEdited(PutByte(PutBack(u), 0xD1));
  }

  /** Opened, read from and written to, step by step. */
  predicate NulAt(s: Stream) {
    && Sane(s) && s.open && !s.dcbout && s.updat && !s.dirty && !s.error && !s.eof && s.ungetch == -1
    && s.kind == Kind(true, true, false, false, false) && s.vol.answers == []
    && s.vol.geo == NulRecord().geo && s.vol.recs == NulRecord().recs
  }

  lemma NulOpened()
    ensures var (s, err) := Fopen(READ_UPDATE, false, NulRecord());
      err == 0 && !s.posend && NulAt(s) && s.vol.next == 0 && s.upto == 0 && s.endbuf == 0 && s.filepos == 0
  {
  }

  lemma NulRead(s: Stream)
    requires NulAt(s) && s.vol.next == 0 && s.upto == 0 && s.endbuf == 0 && s.filepos == 0
    ensures var (u, c) := GetcReading(s);
      && NulAt(u) && c != EOF && u.vol.kept && u.vol.next == 1 && u.filepos == 1
      && u.endbuf == 3 && u.upto == 1 && u.buf[..3] == [0xC1, 0xC2, NL]
  {
    hide FlushRec, RecordView;
    NulViews();
    NotDirtyFlush(s);
  }

  lemma NulPut(s: Stream)
    requires NulAt(s) && s.vol.next == 0 && s.upto == 0 && s.endbuf == 0 && s.filepos == 0
    ensures var u := GetcReading(s).0;
      && 0 < u.upto && 0 < u.filepos && u.open && !u.dcbout
      && var t := PutByte(PutBack(u), 0xD1);
         && Fputc(s, 0xD1) == (t, 0xD1) && t.dirty && t.endbuf == 3 && t.buf[..3] == [0xD1, 0xC2, NL]
         && t.vol == u.vol && !t.error && t.kind == s.kind
  {
    hide GetcReading;
    NulRead(s);
    var u := GetcReading(s).0;
    assert s.(ungetch := -1) == s;
    assert PutByte(PutBack(u), 0xD1).buf[..3] == u.buf[..3][0 := 0xD1];
  }

  lemma NotDirtyFlush(s: Stream)
    requires Sane(s) && !s.dirty && !s.dcbout
    ensures FlushRec(s, false) == (s, 0)
  {
  }

  /** In place, over the last record, after the end has been read: the write is accepted
      or refused as the document says, and the flush drops it. */
  lemma SpentWrite(s: Stream, c: byte)
    requires Tidy(s) && (c != 0 || s.kind.binary) && D.Lost(FormOf(s), Abstract(s), ModeOf(s))
    ensures var (t, r) := Fputc(s, c); var u := FlushRec(t, false).0;
      r == D.Putc(FormOf(s), Abstract(s), c).1 && FlushRec(t, false).1 == 0 && Seen(u) == Seen(s)
  {
    hide Views, CleanRecords, D.Flat, D.Overwrite, Packed, Replace;
    Unread(Seen(s), s.vol.next, s.buf[..s.endbuf], s.upto, s.filepos);
    var k := s.(vol := s.vol.(kept := true));
    assert Seen(k) == Seen(s);
    OverIsOverwrite(k, c);
    assert Over(k, c).1 == Over(s, c).1;
    assert s.(ungetch := -1) == s;
    assert Fpupc(s, c) == Over(s, c);
  }

  /** A byte written and flushed makes the records the document says exactly when the end
      had not been read in front of it - or it changed nothing. */
  lemma PutReachesDisk(s: Stream, c: byte)
    requires Tidy(s) && (c != 0 || s.kind.binary)
    ensures var (t, r) := Fputc(s, c); var u := FlushRec(t, false).0;
      var f, d, m := FormOf(s), Abstract(s), ModeOf(s); var (e, k) := D.Putc(f, d, c);
      && r == k && FlushRec(t, false).1 == 0
      && (Seen(u) == D.Settle(f, e).closed <==> !D.Lost(f, d, m) || e.closed == d.closed)
  {
    hide Views, CleanRecords, D.Flat, D.Overwrite, Fputc, FlushRec, D.Append, D.Finish;
    if D.Lost(FormOf(s), Abstract(s), ModeOf(s)) {
      SpentWrite(s, c);
    } else {
      FputcRefines(s, c);
      FlushSettles(Fputc(s, c).0);
    }
  }

  /** One F record, "ABC". */
  function OneRecord(): (v: Volume)
    ensures Ready(v, false) && Ready(v, true)
  {
    Volume(Geometry(F, 3, 3, true, true), [[0xC1, 0xC2, 0xC3]], [], Closed, 0, false, 0, [])
  }

  lemma OneRecordView()
    ensures Views(OneRecord().geo, false, OneRecord().recs) == [[0xC1, 0xC2, 0xC3, NL]]
  {
    var rec: seq<byte> := [0xC1, 0xC2, 0xC3];
    assert [rec][1..] == [];
    assert rec[..3] == rec;
    StripClean(rec);
    assert rec + [NL] == [0xC1, 0xC2, 0xC3, NL];
  }

  lemma OneRecordDoc(f: D.Form, d: D.Doc)
    requires f == D.Form(OneRecord().geo, false, false) && d == D.Doc([[0xC1, 0xC2, 0xC3, NL]], [], 0)
    ensures D.Seek(f, d, -4, SEEK_END) == (d, 0)
    ensures D.ModeSeek(f, d, D.Fresh, -4, SEEK_END) == D.Spent
    ensures D.Lost(f, d, D.Spent) && D.Putc(f, d, 0xD1).1 == 0xD1
  {
    D.FlatOne(d.closed[0]);
    assert d.closed[..0] == [];
  }

  /** Open it "r+", seek to its first byte from the end, write a J over it and flush:
      each call reports success, and the record is what it was. */
  lemma WriteAfterEndLost()
    ensures var (s, err) := Fopen(READ_UPDATE, false, OneRecord());
      && err == 0 && Sane(s) && s.open && s.kind.Plus()
      && var Did(s1, sought) := Fseek(s, -4, SEEK_END);
         var (s2, put) := Fputc(s1, 0xD1);
         var (s3, flushed) := FlushRec(s2, false);
         sought == 0 && put == 0xD1 && flushed == 0 && Seen(s3) == [[0xC1, 0xC2, 0xC3, NL]]
  {
    hide Fopen, Fputc, FlushRec, Fseek, D.Seek, D.Putc, D.ModeSeek, D.Lost, Placed, Views, CleanRecords;
    var s := Fopen(READ_UPDATE, false, OneRecord()).0;
    FirstOpen(READ_UPDATE, OneRecord());
    OneRecordView();
    OneRecordDoc(FormOf(s), Abstract(s));
    FseekRefines(s, -4, SEEK_END);
    SpentWrite(Fseek(s, -4, SEEK_END).stream, 0xD1);
  }

  /** A flush keeps filepos equal to the length of what is there exactly when it
      does not pad a binary F record. */
  lemma FlushCountsExactly(s: Stream)
    requires Writing(s) && 0 < s.upto
    ensures var t := FlushRec(s, false).0;
      Sane(t) && (t.filepos == |D.Flat(Seen(t))| <==> Counted(FormOf(s), Abstract(s)))
  {
    hide Views, CleanRecords, WritePending;
    WritePendingRefines(s, false);
    var rec := D.Finish(FormOf(s), s.buf[..s.upto]);
    D.FlatConcat(Seen(s), [rec]);
    D.FlatOne(rec);
  }

  const WRITE_BINARY := Mode(Letters(true, true, false, true), false, false, true, Options(false, false, false))

  /** One byte on a new "w+b" stream of 3-byte F records, and a flush: the record has
      three bytes, the position says one. */
  lemma FlushMiscounts()
    ensures var (s, err) := Fopen(WRITE_BINARY, false, OneRecord());
      && err == 0 && Sane(s)
      && var t := FlushRec(Fputc(s, 0xC1).0, false).0;
         t.filepos == 1 && Seen(t) == [[0xC1, 0, 0]]
  {
    hide Fopen, Fputc, FlushRec, WritePending, Views, CleanRecords;
    var v, s := OneRecord(), Fopen(WRITE_BINARY, false, OneRecord()).0;
    FirstOpen(WRITE_BINARY, v);
    FputcRefines(s, 0xC1);
    var t := Fputc(s, 0xC1).0;
    assert Abstract(t) == D.Doc([], [0xC1], 1);
    FlushIsWrite(t);
    WritePendingRefines(t, false);
    assert D.Finish(FormOf(s), [0xC1]) == [0xC1, 0, 0];
  }

  lemma FlushIsWrite(s: Stream)
    requires Writing(s) && 0 < s.upto
    ensures FlushRec(s, false) == WritePending(s, false)
  {
  }

  /** c is the byte at the position, and the position has not left the records read. */
  predicate Returned(s: Stream, t: Stream, c: int)
    requires Sane(s) && Sane(t)
  {
    && Seen(t) == Seen(s) && t.filepos == s.filepos + 1
    && s.filepos < |D.Flat(Seen(s))| && c == D.Flat(Seen(s))[s.filepos]
    && t.filepos <= |D.Flat(Seen(t)[..t.vol.next])|
  }

  /** Reading a binary record returns its first byte exactly when it has one: an empty
      record answers with whatever the buffer held before. */
  lemma EmptyRecordRead(s: Stream)
    requires Sane(s) && s.open && !s.dcbout && !s.dirty && s.kind.read && !s.error && !s.eof
    requires s.ungetch == -1 && s.endbuf <= s.upto && s.kind.binary
    requires NoFailure(s.vol.answers) && s.vol.next < |s.vol.recs|
    requires s.filepos == |D.Flat(Seen(s)[..s.vol.next])|
    ensures var (t, c) := GetcReading(s); var view := RecordView(s.vol.geo, true, s.vol.recs[s.vol.next]);
      && (Returned(s, t, c) <==> view != [])
      && (view == [] ==> c == s.buf[0] && t.filepos == |D.Flat(Seen(t)[..t.vol.next])| + 1)
  {
    hide D.Flat, Views;
    var seen, n := Seen(s), s.vol.next;
    ViewAt(s.vol.geo, true, s.vol.recs, n);
    D.FlatAt(seen, n);
    var (t, c) := GetcReading(s);
    assert Seen(t) == seen && t.vol.next == n + 1;
    if seen[n] != [] { assert D.Flat(seen)[s.filepos] == seen[n][0] == t.buf[..t.endbuf][0]; }
  }

  /** An empty V record and then an A. */
  function EmptyFirst(): (v: Volume)
    ensures v.Ok() && v.dcb.Closed?
  {
    Volume(Geometry(V, 5, 9, true, true), [Rdw(0), Rdw(1) + [0xC1]], [], Closed, 0, false, 0, [])
  }

  lemma EmptyFirstViews()
    ensures Views(EmptyFirst().geo, true, EmptyFirst().recs) == [[], [0xC1]]
  {
    var v := EmptyFirst();
    assert v.recs[1..][0] == v.recs[1] && |v.recs[1..][1..]| == 0;
    assert RecordData(v.geo, v.recs[0]) == [] && RecordData(v.geo, v.recs[1]) == [0xC1];
  }

  /** Read as a binary stream: the first byte read is an X'00' that is nowhere in the
      data set. */
  lemma EmptyRecordMisread()
    ensures var (s, err) := Fopen(READ_UPDATE.(letters := Letters(true, true, false, true)), false, EmptyFirst());
      err == 0 && Sane(s) && !s.dcbout && D.Flat(Seen(s)) == [0xC1] && GetcReading(s).1 == 0
  {
    hide GetcReading, Views;
    var s := Fopen(READ_UPDATE.(letters := Letters(true, true, false, true)), false, EmptyFirst()).0;
    EmptyFirstViews();
    assert Seen(s) == [[], [0xC1]] && Seen(s)[..0] == [];
    assert Seen(s)[1..] == [[0xC1]];
    D.FlatOne([0xC1]);
    ViewAt(s.vol.geo, true, s.vol.recs, 0);
    EmptyRecordRead(s);
  }

  /** An open for output that is refused. */
  lemma OutputRefused(s: Stream)
    requires Shut(s) && s.dcbout && s.vol.Head().Fails?
    ensures Fpopen(s) == (s.(vol := s.vol.(answers := s.vol.Rest()), updat := false, dirty := false), 1)
  {
  }

  /** An open for reading that is refused, as UPDAT and as INPUT. */
  lemma InputRefused(s: Stream)
    requires Shut(s) && !s.dcbout && |s.vol.answers| >= 2 && s.vol.answers[0].Fails? && s.vol.answers[1].Fails?
    ensures Fpopen(s).1 == 1 && Fpopen(s).0.filepos == s.filepos && Fpopen(s).0.errno == s.errno
  {
    assert s.vol.answers[1..][0] == s.vol.answers[1];
  }

  lemma ShutFor(s: Stream, out: bool)
    requires Sane(s) || Shut(s)
    requires s.open ==> s.vol.Head().Fine?
    ensures var (t, rc) := CloseDcb(s, out);
      rc == 0 && t.filepos == s.filepos && t.vol.answers == if s.open then s.vol.Rest() else s.vol.answers
  {
  }

  /** The DCB closed, and refused both ways when it is to be opened again. */
  lemma ReopenRefused(s: Stream, pos: nat)
    requires Sane(s) && s.open && !s.dcbout && !s.dirty && s.kind.write && |s.vol.answers| >= 4
    requires s.vol.answers[0].Fine? && forall i :: 1 <= i < 4 ==> s.vol.answers[i].Fails?
    ensures var (t, rc) := Turn(s, true, pos); rc == -1 && !t.open && t.error && t.filepos == s.filepos
  {
    hide SkipTo, Reposition, CloseDcb, Fpopen, Sane;
    var a := s.vol.answers;
    ShutFor(s, true);
    var shut := CloseDcb(s, true).0;
    assert shut.vol.answers == a[1..] && a[1..][0] == a[1];
    OutputRefused(shut);
    var t := Fpopen(shut).0;
    assert t.vol.answers == a[1..][1..] == a[2..];
    ShutFor(t, false);
    var again := CloseDcb(t, false).0;
    assert again.vol.answers == a[2..] && a[2..][0] == a[2] && a[2..][1] == a[3];
    InputRefused(again);
  }

  /** An empty data set on a device that opens it, and then no more. */
  function OpensOnce(): (v: Volume)
    ensures v.Ok() && v.dcb.Closed?
  {
    var no := Fails(false, 0, false);
    Volume(Geometry(F, 3, 3, true, true), [], [], Closed, 0, false, 0,
           [Fine(false), Fine(false), Fine(false), no, no, no])
  }

  /** "r+", a byte that cannot be appended because neither reopen succeeds, and a seek
      forward: the library reads through a DCB that is not there. */
  lemma SeekWithoutDcb()
    ensures Opens(READ_UPDATE, OpensOnce())
    ensures var (t, put) := Fputc(Fopen(READ_UPDATE, false, OpensOnce()).0, 0xC1);
      && put == EOF && !t.open && t.error
      && Fseek(t, 1, SEEK_SET).NoDcb? && Fseek(t, 0, SEEK_SET).Did?
  {
    hide Fseek, Turn, Append;
    var v, s := OpensOnce(), Fopen(READ_UPDATE, false, OpensOnce()).0;
    assert s.vol.answers == v.answers[1..];
    var u := GetcReading(s).0;
    assert GetcReading(s).1 == EOF && u.eof && u.vol.answers == v.answers[2..] && u.filepos == 0;
    ReopenRefused(u, 0);
    var t := Turn(u, true, 0).0;
    SeekReaches(t, 1, SEEK_SET);
    SeekReaches(t, 0, SEEK_SET);
  }
}
