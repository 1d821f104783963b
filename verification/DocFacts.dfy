/** What the document promises a caller, and hence - by the refinement - what a
    '+' stream promises. */
module DocFacts {
  import opened Bytes
  import opened AccessMethod
  import opened Doc
  import opened StreamRuns

  /** No record is dropped or resized. */
  predicate KeepsRecords(a: seq<seq<byte>>, b: seq<seq<byte>>) {
    |a| <= |b| && forall i :: 0 <= i < |a| ==> |b[i]| == |a[i]|
  }

  /** Writing over a byte keeps every record's length. */
  lemma {:induction false} OverwriteKeeps(f: Form, recs: seq<seq<byte>>, pos: nat, c: byte)
    ensures var r := Overwrite(f, recs, pos, c);
      r.NewRecords? ==> |r.recs| == |recs| && KeepsRecords(recs, r.recs)
  {
    if recs != [] && |recs[0]| <= pos {
      OverwriteKeeps(f, recs[1..], pos - |recs[0]|, c);
      var r := Overwrite(f, recs[1..], pos - |recs[0]|, c);
      if r.NewRecords? {
        forall i | 0 <= i < |recs| ensures |([recs[0]] + r.recs)[i]| == |recs[i]| {
          if i != 0 { assert |r.recs[i - 1]| == |recs[1..][i - 1]|; }
        }
      }
    }
  }

  /** Whatever is called, the records there stay, each as long as it was; only
      Putc changes a byte of them, and never on an append stream. */
  lemma StepKeeps(f: Form, d: Doc, op: Op)
    requires f.geo.Shape()
    ensures var e := DocStep(f, d, op).0;
      && KeepsRecords(d.closed, e.closed)
      && (f.append || !op.DoPutc? ==> d.closed <= e.closed)
  {
    if op.DoPutc? && Inside(f, d) {
      OverwriteKeeps(f, d.closed, d.pos, op.c);
    }
  }

  lemma {:induction false} DocRunKeeps(f: Form, d: Doc, ops: seq<Op>)
    requires f.geo.Shape()
    ensures var e := DocRun(f, d, ops).0;
      && KeepsRecords(d.closed, e.closed)
      && (f.append || (forall i :: 0 <= i < |ops| ==> !ops[i].DoPutc?) ==> d.closed <= e.closed)
    decreases |ops|
  {
    hide DocStep;
    if ops != [] {
      var e := DocStep(f, d, ops[0]).0;
      StepKeeps(f, d, ops[0]);
      DocRunKeeps(f, e, ops[1..]);
      var g := DocRun(f, e, ops[1..]).0;
      forall i | 0 <= i < |d.closed| ensures |g.closed[i]| == |d.closed[i]| {
        assert |e.closed[i]| == |d.closed[i]|;
      }
    }
  }

  // ---- one byte ------------------------------------------------------------------

  /** The content with the bytes from..to replaced by blanks. */
  function BlankRange(s: seq<byte>, from: nat, to: nat): seq<byte>
    requires from <= to <= |s|
  {
    s[..from] + Fill(BLANK, to - from) + s[to..]
  }

  /** What Overwrite promises about the bytes. */
  predicate OneByte(f: Form, before: seq<byte>, pos: nat, c: byte, after: seq<byte>, moved: nat) {
    && 0 < moved && pos + moved <= |before|
    && (f.binary || c != NL ==> moved == 1 && after == SetAt(before, pos, c))
    && (!f.binary && c == NL ==> after == BlankRange(before, pos, pos + moved - 1))
  }

  /** The byte at pos is the last of its record. */
  predicate EndsRecord(recs: seq<seq<byte>>, pos: nat) {
    recs != [] && if pos < |recs[0]| then pos == |recs[0]| - 1 else EndsRecord(recs[1..], pos - |recs[0]|)
  }

  /** A text record keeps its '\n' and gets no other, but for the one that blanks the rest
      of an F record. */
  predicate Accepted(f: Form, last: bool, c: byte) { f.binary || (last <==> c == NL) || (c == NL && f.geo.recfm.F?) }

  lemma OneByteInFirst(f: Form, view: seq<byte>, k: nat, c: byte, rest: seq<byte>)
    requires k < |view|
    ensures OverRecord(f, view, k, c).Changed? <==> Accepted(f, k == |view| - 1, c)
    ensures match OverRecord(f, view, k, c)
      case Refused => !f.binary
      case Changed(w, moved) => OneByte(f, view + rest, k, c, w + rest, moved)
  {
    match OverRecord(f, view, k, c)
    case Refused =>
    case Changed(w, moved) =>
      if f.binary || c != NL {
        assert w + rest == SetAt(view + rest, k, c);
      } else {
        assert w + rest == BlankRange(view + rest, k, k + moved - 1);
      }
  }

  lemma OneByteBehind(f: Form, first: seq<byte>, before: seq<byte>, pos: nat, c: byte, after: seq<byte>, moved: nat)
    requires OneByte(f, before, pos, c, after, moved)
    ensures OneByte(f, first + before, |first| + pos, c, first + after, moved)
  {
    if f.binary || c != NL {
      assert first + after == SetAt(first + before, |first| + pos, c);
    } else {
      assert first + after == BlankRange(first + before, |first| + pos, |first| + pos + moved - 1);
    }
  }

  /** Writing over changes the byte at the position and no other; a newline
      blanks the rest of the record, up to the '\n' it moves behind. */
  lemma {:induction false} OverwriteBytes(f: Form, recs: seq<seq<byte>>, pos: nat, c: byte)
    requires pos < |Flat(recs)|
    ensures Overwrite(f, recs, pos, c).NewRecords? <==> Accepted(f, EndsRecord(recs, pos), c)
    ensures match Overwrite(f, recs, pos, c)
      case NoChange => !f.binary
      case NewRecords(now, moved) => OneByte(f, Flat(recs), pos, c, Flat(now), moved)
  {
    hide OneByte, OverRecord, Accepted;
    var first, rest := recs[0], Flat(recs[1..]);
    if pos < |first| {
      OneByteInFirst(f, first, pos, c, rest);
      match OverRecord(f, first, pos, c)
      case Refused =>
      case Changed(view, moved) => assert ([view] + recs[1..])[1..] == recs[1..];
    } else {
      OverwriteBytes(f, recs[1..], pos - |first|, c);
      match Overwrite(f, recs[1..], pos - |first|, c)
      case NoChange =>
      case NewRecords(now, moved) =>
        OneByteBehind(f, first, rest, pos - |first|, c, Flat(now), moved);
        assert ([first] + now)[1..] == now;
    }
  }

  /** A write is refused where the device does not update in place or the byte would change
      where a text record ends; that leaves contents and position as they were.  An accepted
      one in the middle changes the byte at the position alone. */
  lemma PutcBytes(f: Form, d: Doc, c: byte)
    requires f.geo.Shape() && Inside(f, d)
    ensures Putc(f, d, c).1 == c <==> f.geo.updatable && Accepted(f, EndsRecord(d.closed, d.pos), c)
    ensures var (e, r) := Putc(f, d, c); var before, after := Content(f, d), Content(f, e);
      if r == EOF then e == d && !(f.binary && f.geo.updatable)
      else
        && r == c && f.geo.updatable && d.pos < e.pos <= |before|
        && after == if f.binary || c != NL then SetAt(before, d.pos, c)
                    else BlankRange(before, d.pos, e.pos - 1)
  {
    OverwriteBytes(f, d.closed, d.pos, c);
  }

  // ---- which bytes are accepted --------------------------------------------------------

  /** A byte written over byte k of record i is refused exactly when it would change where
      a text record ends: anything but a newline over its '\n', and a newline in front of
      it unless the format is F.  Accepted, it is stored there and the position moves by
      one, or blanks the rest of an F record and the position moves behind it; no other
      record changes. */
  lemma PutcAccepts(f: Form, d: Doc, i: nat, k: nat, c: byte)
    requires f.geo.Shape() && f.geo.updatable && !f.append && d.tail == []
    requires i < |d.closed| && k < |d.closed[i]| && d.pos == |Flat(d.closed[..i])| + k
    ensures var (e, r) := Putc(f, d, c); var was, last := d.closed[i], k == |d.closed[i]| - 1;
      && (r == c <==> f.binary || (!last && c != NL) || (last && c == NL) || (!last && c == NL && f.geo.recfm.F?))
      && (r != c ==> r == EOF && e == d)
      && (r == c ==> e.tail == [] && |e.closed| == |d.closed| && e.closed == d.closed[i := e.closed[i]])
      && (r == c && (f.binary || c != NL) ==> e.closed[i] == was[k := c] && e.pos == d.pos + 1)
      && (r == c && !f.binary && c == NL ==>
            && |e.closed[i]| == |was| && e.closed[i][..k] == was[..k] && e.closed[i][|was| - 1] == was[|was| - 1]
            && (forall j :: k <= j < |was| - 1 ==> e.closed[i][j] == BLANK)
            && e.pos == |Flat(d.closed[..i + 1])|)
  {
    hide Flat, OverRecord, Overwrite;
    FlatAt(d.closed, i);
    OverwriteAt(f, d.closed, i, k, c);
    RecordAccepts(f, d.closed[i], k, c);
    assert Inside(f, d);
  }

  /** The same of one record. */
  lemma RecordAccepts(f: Form, was: seq<byte>, k: nat, c: byte)
    requires k < |was|
    ensures var r, last := OverRecord(f, was, k, c), k == |was| - 1;
      && (r.Changed? <==> f.binary || (!last && c != NL) || (last && c == NL) || (!last && c == NL && f.geo.recfm.F?))
      && (r.Changed? && (f.binary || c != NL) ==> r == Changed(was[k := c], 1))
      && (r.Changed? && !f.binary && c == NL ==>
            && |r.view| == |was| && r.view[..k] == was[..k] && r.view[|was| - 1] == was[|was| - 1]
            && (forall j :: k <= j < |was| - 1 ==> r.view[j] == BLANK) && k + r.moved == |was|)
  {
  }

  /** Where nothing is written over - at the end, or on an append stream - every byte is
      accepted and comes behind all that was written, for a text stream with the '\n' of a
      record that is full in front of it. */
  lemma PutcAtEnd(f: Form, d: Doc, c: byte)
    requires f.geo.Shape() && !Inside(f, d) && |d.tail| <= f.geo.Capacity()
    requires d.tail != [] ==> AtEnd(d)
    ensures var (e, r) := Putc(f, d, c); var before, after := Flat(d.closed) + d.tail, Flat(e.closed) + e.tail;
      && r == c && AtEnd(e) && |e.tail| <= f.geo.Capacity() && d.closed <= e.closed
      && (f.binary ==> after == before + [c])
      && (!f.binary && c != NL ==> after == before + (if |d.tail| == f.geo.Capacity() then [NL, c] else [c]))
      && (!f.binary && c == NL ==> e.tail == [] && after == Flat(d.closed) + Finish(f, d.tail))
  {
    var e := Putc(f, d, c).0;
    if e.closed != d.closed {
      FlatConcat(d.closed, [Finish(f, d.tail)]);
      FlatOne(Finish(f, d.tail));
    }
  }

  /** How a text record with these bytes reads back: with its newline, behind blanks up to
      LRECL on F, and with one blank for an empty one on U. */
  lemma TextRecord(f: Form, line: seq<byte>)
    requires f.geo.Shape() && !f.binary && |line| <= f.geo.Capacity()
    ensures var r := Finish(f, line);
      && line + [NL] == (match f.geo.recfm
           case F => r[..|line|] + [NL]
           case V => r
           case U => if line == [] then [NL] else r)
      && r[|r| - 1] == NL && |r| == 1 + (match f.geo.recfm
           case F => f.geo.lrecl
           case V => |line|
           case U => if line == [] then 1 else |line|)
      && forall j :: |line| <= j < |r| - 1 ==> r[j] == BLANK
  {
  }

  /** A flush ends the record being written where it stands, and the position is behind it;
      it changes no byte of what would be read, and nothing at all between two records. */
  lemma FlushEnds(f: Form, d: Doc)
    ensures var e := Flush(f, d);
      && e.tail == [] && Content(f, e) == Content(f, d)
      && (d.tail == [] ==> e == d)
      && (d.tail != [] ==> e.closed == d.closed + [Finish(f, d.tail)] && e.pos == |Content(f, d)|)
  {
    hide Flat, Finish;
  }

  // ---- where a seek goes ------------------------------------------------------------------

  /** The place a seek asks for: from the start, from the position, or from the end, which
      a line still being written is at. */
  function SeekTarget(f: Form, d: Doc, offset: int, whence: int): int {
    if whence == SEEK_SET then offset
    else if whence == SEEK_CUR || d.tail != [] then d.pos + offset
    else |Content(f, d)| + offset
  }

  /** A seek succeeds exactly when its place is in the bytes there are, or is the position
      itself; it then is the position.  No byte changes either way.  A seek past the end
      stops at the end, one in front of the start - or to no known place - does not move,
      but to the end if it counted from there. */
  lemma SeekArrives(f: Form, d: Doc, offset: int, whence: int)
    ensures var (e, rc) := Seek(f, d, offset, whence); var known := whence == 0 || whence == 1 || whence == 2;
      var target, end := SeekTarget(f, d, offset, whence), |Content(f, d)|;
      && (rc == 0 || rc == -1) && Content(f, e) == Content(f, d)
      && (rc == 0 <==> known && (0 <= target <= end || (target == d.pos && (whence != 2 || d.tail != []))))
      && (rc == 0 ==> e.pos == target)
      && (rc == -1 && known && target > end ==> e.pos == end)
      && (rc == -1 && (!known || target < 0) ==> e.pos == if whence == 2 && d.tail == [] then end else d.pos)
  {
    hide Flat, Finish;
  }

  // ---- reading back -----------------------------------------------------------------

  function Getcs(n: nat): (ops: seq<Op>)
    ensures |ops| == n && forall i :: 0 <= i < n ==> ops[i] == DoGetc
  {
    seq(n, _ => DoGetc)
  }

  /** What reads from pos on return: the bytes, then EOF. */
  predicate IsReadBack(outs: seq<int>, bytes: seq<byte>, pos: nat) {
    forall k :: 0 <= k < |outs| ==> outs[k] == if pos + k < |bytes| then bytes[pos + k] else EOF
  }

  /** n reads return the bytes from the position on, then EOF. */
  lemma {:induction false} ReadOn(f: Form, d: Doc, n: nat)
    requires f.geo.Shape()
    ensures IsReadBack(DocRun(f, d, Getcs(n)).1, Content(f, d), d.pos)
    decreases n
  {
    if n != 0 {
      var (e, c) := Getc(f, d);
      assert Getcs(n)[1..] == Getcs(n - 1);
      ReadOn(f, e, n - 1);
      assert Content(f, e) == Content(f, d);
      var bytes, rest := Content(f, d), DocRun(f, e, Getcs(n - 1)).1;
      assert IsReadBack(rest, bytes, e.pos);
      assert DocRun(f, d, Getcs(n)).1 == [c] + rest;
      if d.pos < |bytes| {
        ReadBackCons(c, rest, bytes, d.pos);
      }
    }
  }

  lemma ReadBackCons(c: int, rest: seq<int>, bytes: seq<byte>, pos: nat)
    requires pos < |bytes| && c == bytes[pos] && IsReadBack(rest, bytes, pos + 1)
    ensures IsReadBack([c] + rest, bytes, pos)
  {
    forall k | 0 <= k < |[c] + rest|
      ensures ([c] + rest)[k] == if pos + k < |bytes| then bytes[pos + k] else EOF
    {
      if k != 0 { assert ([c] + rest)[k] == rest[k - 1] && pos + 1 + (k - 1) == pos + k; }
    }
  }

  /** The bytes of lines, each ended by a newline. */
  function Text(lines: seq<seq<byte>>): seq<byte> {
    if lines == [] then [] else lines[0] + [NL] + Text(lines[1..])
  }

  /** The lines as records. */
  function Finished(f: Form, lines: seq<seq<byte>>): (r: seq<seq<byte>>)
    ensures |r| == |lines|
  {
    if lines == [] then [] else [Finish(f, lines[0])] + Finished(f, lines[1..])
  }

  function Puts(text: seq<byte>): (ops: seq<Op>)
    ensures |ops| == |text| && forall i :: 0 <= i < |text| ==> ops[i] == DoPutc(text[i])
  {
    seq(|text|, i requires 0 <= i < |text| => DoPutc(text[i]))
  }

  lemma {:induction false} DocRunSplit(f: Form, d: Doc, a: seq<Op>, b: seq<Op>)
    requires f.geo.Shape()
    ensures var (e, outs) := DocRun(f, d, a);
      DocRun(f, d, a + b) == (DocRun(f, e, b).0, outs + DocRun(f, e, b).1)
    decreases |a|
  {
    hide DocStep;
    if a == [] {
      assert a + b == b;
      assert [] + DocRun(f, d, b).1 == DocRun(f, d, b).1;
    } else {
      assert (a + b)[1..] == a[1..] + b;
      var (e, out) := DocStep(f, d, a[0]);
      DocRunSplit(f, e, a[1..], b);
      var (g, outs) := DocRun(f, e, a[1..]);
      assert [out] + (outs + DocRun(f, g, b).1) == [out] + outs + DocRun(f, g, b).1;
    }
  }

  predicate AtEnd(d: Doc) { d.pos == |Flat(d.closed)| + |d.tail| }

  /** A line no longer than a record, byte by byte. */
  lemma {:induction false} PutLine(f: Form, d: Doc, line: seq<byte>)
    requires f.geo.Shape() && !f.binary && AtEnd(d)
    requires |d.tail| + |line| <= f.geo.Capacity() && NL !in line
    ensures DocRun(f, d, Puts(line)).0 == Doc(d.closed, d.tail + line, d.pos + |line|)
    decreases |line|
  {
    if line != [] {
      assert Puts(line)[1..] == Puts(line[1..]);
      var e := Doc(d.closed, d.tail + [line[0]], d.pos + 1);
      assert d.tail == [] ==> d.(pos := |Flat(d.closed)|) == d;
      assert DocStep(f, d, Puts(line)[0]).0 == e;
      PutLine(f, e, line[1..]);
      assert d.tail + line == e.tail + line[1..];
    } else {
      assert d.tail + line == d.tail;
    }
  }

  /** A line in records: as many full ones as it takes, and what is left. */
  function Pieces(cap: nat, line: seq<byte>): (r: seq<seq<byte>>)
    requires cap > 0
    ensures |line| <= cap ==> r == [line]
  {
    if |line| <= cap then [line] else [line[..cap]] + Pieces(cap, line[cap..])
  }

  function AllPieces(cap: nat, lines: seq<seq<byte>>): seq<seq<byte>>
    requires cap > 0
  {
    if lines == [] then [] else Pieces(cap, lines[0]) + AllPieces(cap, lines[1..])
  }

  /** Lines that fit a record are the pieces. */
  lemma {:induction false} ShortPieces(cap: nat, lines: seq<seq<byte>>)
    requires cap > 0 && forall i :: 0 <= i < |lines| ==> |lines[i]| <= cap
    ensures AllPieces(cap, lines) == lines
  {
    if lines != [] {
      ShortPieces(cap, lines[1..]);
      assert [lines[0]] + lines[1..] == lines;
    }
  }

  lemma {:induction false} FinishedConcat(f: Form, a: seq<seq<byte>>, b: seq<seq<byte>>)
    ensures Finished(f, a + b) == Finished(f, a) + Finished(f, b)
  {
    if a == [] {
      assert a + b == b;
    } else {
      assert (a + b)[1..] == a[1..] + b;
      FinishedConcat(f, a[1..], b);
    }
  }

  /** More records at the end, and the position behind them. */
  function More(d: Doc, recs: seq<seq<byte>>): Doc { Doc(d.closed + recs, [], |Flat(d.closed + recs)|) }

  /** Lines written at the end become records, a line that is too long several: each reads
      back as its bytes, padded on F, one blank for an empty line on U. */
  lemma {:induction false} PutLines(f: Form, d: Doc, lines: seq<seq<byte>>)
    requires f.geo.Shape() && !f.binary && d.tail == [] && AtEnd(d)
    requires forall i :: 0 <= i < |lines| ==> NL !in lines[i]
    ensures DocRun(f, d, Puts(Text(lines))).0 == More(d, Finished(f, AllPieces(f.geo.Capacity(), lines)))
    decreases |lines|
  {
    if lines == [] {
      assert d.closed + [] == d.closed;
    } else {
      hide DocStep, DocRun, Finish, Flat, Finished, Pieces;
      var cap, line, rest := f.geo.Capacity(), lines[0], lines[1..];
      var first := Finished(f, Pieces(cap, line));
      PutLong(f, d, line, Text(rest));
      PutLines(f, More(d, first), rest);
      FinishedConcat(f, Pieces(cap, line), AllPieces(cap, rest));
      var others := Finished(f, AllPieces(cap, rest));
      assert d.closed + first + others == d.closed + (first + others);
    }
  }

  /** A line of any length and its newline, and what comes after them. */
  lemma {:induction false} PutLong(f: Form, d: Doc, line: seq<byte>, rest: seq<byte>)
    requires f.geo.Shape() && !f.binary && d.tail == [] && AtEnd(d) && NL !in line
    ensures DocRun(f, d, Puts(line + [NL] + rest)).0 ==
            DocRun(f, More(d, Finished(f, Pieces(f.geo.Capacity(), line))), Puts(rest)).0
    decreases |line|
  {
    var cap := f.geo.Capacity();
    if |line| <= cap {
      FinishedOne(f, line);
      PutRecord(f, d, line, rest, More(d, [Finish(f, line)]));
    } else {
      hide DocStep, DocRun, Finish, Finished, Flat, Puts;
      var a, b := line[..cap], line[cap..];
      var tail, e := b + [NL] + rest, More(d, [Finish(f, a)]);
      assert line + [NL] + rest == a + tail;
      PutsSplit(a, tail);
      PutsFirst(tail);
      PutLine(f, d, a);
      DocRunSplit(f, d, Puts(a), Puts(tail));
      assert [] + a == a;
      PutFull(f, d, a, b[0], Puts(tail));
      PutLong(f, e, b, rest);
      FinishedFirst(f, a, Pieces(cap, b));
      assert e.closed + Finished(f, Pieces(cap, b)) == d.closed + Finished(f, Pieces(cap, line));
    }
  }

  lemma PutsSplit(a: seq<byte>, b: seq<byte>)
    ensures Puts(a + b) == Puts(a) + Puts(b)
  {
  }

  lemma PutsFirst(text: seq<byte>)
    requires text != []
    ensures Puts(text) != [] && Puts(text)[0] == DoPutc(text[0])
  {
  }

  lemma FinishedOne(f: Form, line: seq<byte>)
    ensures Finished(f, [line]) == [Finish(f, line)]
  {
    assert |[line][1..]| == 0;
  }

  lemma FinishedFirst(f: Form, a: seq<byte>, more: seq<seq<byte>>)
    ensures Finished(f, [a] + more) == [Finish(f, a)] + Finished(f, more)
  {
    assert ([a] + more)[1..] == more;
  }

  /** A byte more than a record holds ends it, as if it had been ended before. */
  lemma PutFull(f: Form, d: Doc, a: seq<byte>, c: byte, ops: seq<Op>)
    requires f.geo.Shape() && !f.binary && d.tail == [] && AtEnd(d) && |a| == f.geo.Capacity() && c != NL
    requires ops != [] && ops[0] == DoPutc(c)
    ensures DocRun(f, Doc(d.closed, a, d.pos + |a|), ops) == DocRun(f, More(d, [Finish(f, a)]), ops)
  {
    hide Flat, Finish;
    var m, e := Doc(d.closed, a, d.pos + |a|), More(d, [Finish(f, a)]);
    var g := Doc(e.closed, [c], e.pos + 1);
    assert e.tail + [c] == [c] && e.(pos := |Flat(e.closed)|) == e;
    assert DocStep(f, e, ops[0]) == (g, c as int);
    assert DocStep(f, m, ops[0]) == (g, c as int);
  }

  /** One line and its newline, and what comes after them. */
  lemma PutRecord(f: Form, d: Doc, line: seq<byte>, rest: seq<byte>, e: Doc)
    requires f.geo.Shape() && !f.binary && d.tail == [] && AtEnd(d)
    requires |line| <= f.geo.Capacity() && NL !in line
    requires e == Doc(d.closed + [Finish(f, line)], [], |Flat(d.closed + [Finish(f, line)])|)
    ensures DocRun(f, d, Puts(line + [NL] + rest)).0 == DocRun(f, e, Puts(rest)).0
  {
    hide DocStep, Finish, Flat;
    var tail := [DoPutc(NL)] + Puts(rest);
    assert Puts(line + [NL] + rest) == Puts(line) + tail;
    DocRunSplit(f, d, Puts(line), tail);
    PutLine(f, d, line);
    var m := Doc(d.closed, d.tail + line, d.pos + |line|);
    PutNewline(f, m, line, e);
    assert tail[1..] == Puts(rest);
  }

  lemma PutNewline(f: Form, m: Doc, line: seq<byte>, e: Doc)
    requires f.geo.Shape() && !f.binary && AtEnd(m) && m.tail == [] + line
    requires e == Doc(m.closed + [Finish(f, line)], [], |Flat(m.closed + [Finish(f, line)])|)
    ensures DocStep(f, m, DoPutc(NL)).0 == e
  {
    assert m.tail == line;
  }

  /** On V records the bytes read back are the bytes written. */
  lemma {:induction false} VariableIsExact(f: Form, lines: seq<seq<byte>>)
    requires !f.binary && f.geo.recfm.V?
    ensures Flat(Finished(f, lines)) == Text(lines)
  {
    if lines != [] {
      VariableIsExact(f, lines[1..]);
      assert Finished(f, lines)[1..] == Finished(f, lines[1..]);
    }
  }
}
