/** The simple form of a '+' stream: the records as the reader sees them, the
    line being written, and one position.  Nothing here knows about DCBs,
    buffers, dirty records or the direction the stream is turned. */
module Doc {
  import opened Bytes
  import opened AccessMethod

  datatype Form = Form(geo: Geometry, binary: bool, append: bool)

  /** closed: the byte view of each record; tail: the record being written, not
      ended yet; pos: the position in the bytes. */
  datatype Doc = Doc(closed: seq<seq<byte>>, tail: seq<byte>, pos: nat)

  function Flat(recs: seq<seq<byte>>): seq<byte> {
    if recs == [] then [] else recs[0] + Flat(recs[1..])
  }

  /** How a record with these data bytes reads back. */
  function Finish(f: Form, tail: seq<byte>): (r: seq<byte>) {
    var fill := if f.binary then 0 else BLANK;
    var data := match f.geo.recfm
      case F => if |tail| < f.geo.lrecl then tail + Fill(fill, f.geo.lrecl - |tail|) else tail
      case V => tail
      case U => if tail == [] then [fill] else tail;
    if f.binary then data else data + [NL]
  }

  /** The document with the unfinished record ended where it stands. */
  function Settle(f: Form, d: Doc): Doc {
    if d.tail == [] then d else Doc(d.closed + [Finish(f, d.tail)], [], d.pos)
  }

  function Content(f: Form, d: Doc): seq<byte> { Flat(Settle(f, d).closed) }

  function Getc(f: Form, d: Doc): (Doc, int) {
    var e, bytes := Settle(f, d), Content(f, d);
    if d.pos < |bytes| then (e.(pos := d.pos + 1), bytes[d.pos]) else (e, EOF)
  }

  /** Ending a record moves the position behind it. */
  function Flush(f: Form, d: Doc): Doc {
    if d.tail == [] then d else Settle(f, d).(pos := |Content(f, d)|)
  }

  /** One more byte at the end of the record being written. */
  function Append(f: Form, d: Doc, c: byte): Doc
    requires f.geo.Shape()
  {
    if !f.binary && c == NL then
      var closed := d.closed + [Finish(f, d.tail)];
      Doc(closed, [], |Flat(closed)|)
    else if |d.tail| == f.geo.Capacity() then
      var closed := d.closed + [Finish(f, d.tail)];
      Doc(closed, [c], |Flat(closed)| + 1)
    else Doc(d.closed, d.tail + [c], d.pos + 1)
  }

  /** A record from byte k on made blank, up to its '\n'. */
  function BlankFrom(view: seq<byte>, k: nat): (r: seq<byte>)
    requires k < |view|
    ensures |r| == |view|
  {
    view[..k] + Fill(BLANK, |view| - 1 - k) + [view[|view| - 1]]
  }

  datatype Change = Refused | Changed(view: seq<byte>, moved: nat)

  /** c over byte k of one record: a record never grows and never shrinks. */
  function OverRecord(f: Form, view: seq<byte>, k: nat, c: byte): Change
    requires k < |view|
  {
    if f.binary then Changed(view[k := c], 1)
    else if k == |view| - 1 then if c == NL then Changed(view, 1) else Refused
    else if c != NL then Changed(view[k := c], 1)
    else if f.geo.recfm.F? then Changed(BlankFrom(view, k), |view| - k)
    else Refused
  }

  datatype Changes = NoChange | NewRecords(recs: seq<seq<byte>>, moved: nat)

  /** c over byte pos of the records. */
  function Overwrite(f: Form, recs: seq<seq<byte>>, pos: nat, c: byte): Changes {
    if recs == [] then NoChange
    else if pos < |recs[0]| then
      match OverRecord(f, recs[0], pos, c)
      case Refused => NoChange
      case Changed(view, moved) => NewRecords([view] + recs[1..], moved)
    else
      match Overwrite(f, recs[1..], pos - |recs[0]|, c)
      case NoChange => NoChange
      case NewRecords(rest, moved) => NewRecords([recs[0]] + rest, moved)
  }

  /** A byte written now goes over one that is there. */
  predicate Inside(f: Form, d: Doc) { d.tail == [] && !f.append && d.pos < |Flat(d.closed)| }

  /** Append streams write at the end whatever the position; the others write over what
      is there where the device lets them, and append only at the end. */
  function Putc(f: Form, d: Doc, c: byte): (Doc, int)
    requires f.geo.Shape()
  {
    if !Inside(f, d) then
      (Append(f, if d.tail != [] then d else d.(pos := |Flat(d.closed)|), c), c)
    else if !f.geo.updatable then (d, EOF)
    else
      match Overwrite(f, d.closed, d.pos, c)
      case NoChange => (d, EOF)
      case NewRecords(recs, moved) => (Doc(recs, [], d.pos + moved), c)
  }

  /** Seeking to the position itself does not end an unfinished record; seeking
      past the end stops at the end and fails. */
  function Seek(f: Form, d: Doc, offset: int, whence: int): (Doc, int) {
    if whence !in {SEEK_SET, SEEK_CUR, SEEK_END} then (d, -1)
    else
      var e := if whence == SEEK_END && d.tail == [] then d.(pos := |Flat(d.closed)|) else d;
      var target := if whence == SEEK_SET then offset else e.pos + offset;
      if target < 0 then (e, -1)
      else if target == e.pos then (e, 0)
      else
        var end := |Content(f, e)|;
        (Settle(f, e).(pos := if target <= end then target else end), if target <= end then 0 else -1)
  }

  // ---- the one thing a caller has to keep in mind ------------------------------------

  /** Writing: the last byte went to the end.  Spent: the end has been read, and the
      position has not left the last record since. */
  datatype Mode = Writing | Fresh | Spent

  /** A byte accepted now would not reach the data set. */
  predicate Lost(f: Form, d: Doc, m: Mode) { m.Spent? && f.geo.updatable && Inside(f, d) }

  /** The mode of a stream that has read the end of d. */
  function EndRead(d: Doc): Mode { if d.closed == [] then Fresh else Spent }

  function ModeGetc(f: Form, d: Doc, m: Mode): Mode {
    if |Content(f, d)| <= d.pos then EndRead(Settle(f, d)) else if m.Writing? then Fresh else m
  }

  function ModePutc(f: Form, d: Doc, m: Mode): Mode { if Inside(f, d) then m else Writing }

  /** Where the last record begins. */
  function LastStart(d: Doc): nat {
    if d.closed == [] then 0 else |Flat(d.closed[..|d.closed| - 1])|
  }

  /** Moving a stream that reads: past the end it reads the end; back behind the last
      record it starts over. */
  function ModeMove(f: Form, d: Doc, m: Mode, target: int): Mode {
    if target == d.pos then m
    else if |Content(f, d)| < target then EndRead(Settle(f, d))
    else if m.Writing? || target < LastStart(d) then Fresh
    else m
  }

  function ModeSeek(f: Form, d: Doc, m: Mode, offset: int, whence: int): Mode {
    if whence !in {SEEK_SET, SEEK_CUR, SEEK_END} then m
    else
      var back := whence == SEEK_END && !m.Writing?;
      var e, n := if back then d.(pos := |Flat(d.closed)|) else d, if back then EndRead(d) else m;
      var target := if whence == SEEK_SET then offset else e.pos + offset;
      if target < 0 then n else ModeMove(f, e, n, target)
  }

  // ---- facts about the flattened records -------------------------------------

  lemma {:induction false} FlatConcat(a: seq<seq<byte>>, b: seq<seq<byte>>)
    ensures Flat(a + b) == Flat(a) + Flat(b)
  {
    if a == [] {
      assert a + b == b;
    } else {
      assert (a + b)[1..] == a[1..] + b;
      FlatConcat(a[1..], b);
    }
  }

  lemma FlatOne(r: seq<byte>)
    ensures Flat([r]) == r
  {
    assert [r][1..] == [];
  }

  lemma FlatFrom(recs: seq<seq<byte>>, i: nat)
    requires i < |recs|
    ensures Flat(recs[i..]) == recs[i] + Flat(recs[i + 1..])
  {
    assert recs[i..][0] == recs[i] && recs[i..][1..] == recs[i + 1..];
  }

  lemma FlatUpTo(recs: seq<seq<byte>>, i: nat)
    requires i < |recs|
    ensures Flat(recs[..i + 1]) == Flat(recs[..i]) + recs[i]
  {
    hide Flat;
    FlatOne(recs[i]);
    FlatConcat(recs[..i], [recs[i]]);
    assert recs[..i + 1] == recs[..i] + [recs[i]];
  }

  /** The bytes around record i. */
  lemma FlatAt(recs: seq<seq<byte>>, i: nat)
    requires i < |recs|
    ensures Flat(recs) == Flat(recs[..i]) + recs[i] + Flat(recs[i + 1..])
    ensures Flat(recs[..i + 1]) == Flat(recs[..i]) + recs[i]
    ensures Flat(recs[i..]) == recs[i] + Flat(recs[i + 1..])
  {
    hide Flat;
    FlatFrom(recs, i);
    FlatUpTo(recs, i);
    assert recs == recs[..i + 1] + recs[i + 1..];
    FlatConcat(recs[..i + 1], recs[i + 1..]);
  }

  /** Byte k of record i is what Overwrite reaches at its position. */
  lemma {:induction false} OverwriteAt(f: Form, recs: seq<seq<byte>>, i: nat, k: nat, c: byte)
    requires i < |recs| && k < |recs[i]|
    ensures var r := Overwrite(f, recs, |Flat(recs[..i])| + k, c);
      match OverRecord(f, recs[i], k, c)
      case Refused => r == NoChange
      case Changed(view, moved) => r == NewRecords(recs[i := view], moved)
  {
    if i == 0 {
      assert recs[..0] == [];
      match OverRecord(f, recs[0], k, c)
      case Refused =>
      case Changed(view, moved) => assert [view] + recs[1..] == recs[0 := view];
    } else {
      assert recs[..i][0] == recs[0] && recs[..i][1..] == recs[1..][..i - 1];
      OverwriteAt(f, recs[1..], i - 1, k, c);
      match OverRecord(f, recs[i], k, c)
      case Refused =>
      case Changed(view, moved) =>
        assert [recs[0]] + recs[1..][i - 1 := view] == recs[i := view];
    }
  }
}
