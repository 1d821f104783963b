/** The contract of the BSAM layer under stdio: a data set is a sequence of raw
    records, and a DCB is open on it one way at a time.  What the device answers
    to each request is a tape: an exhausted tape answers Fine for ever, so the
    statements about every volume are statements about every device. */
module AccessMethod {
  import opened Bytes

  datatype Recfm = F | V | U

  /** One answer.  A read that has left a block behind has put the rewrites in that
      block on the disk.  A block that could not be written is gone, with the last `lost`
      records; `taken` says that the record of this very request, begun in a new block,
      is not. */
  datatype Answer = Fine(left: bool) | Fails(noSpace: bool, lost: nat, taken: bool)

  /** A device that does not fail; where blocks end does not matter. */
  predicate NoFailure(answers: seq<Answer>) {
    forall i :: 0 <= i < |answers| ==> answers[i].Fine?
  }

  datatype Dcb = Closed | Input | Update | Output | Extend {
    predicate Reads() { Input? || Update? }
    predicate Writes() { Output? || Extend? }
  }

  /** The attributes the DCB takes from the data set; updatable: its device accepts an
      UPDAT open. */
  datatype Geometry = Geometry(recfm: Recfm, lrecl: nat, blksize: nat, dasd: bool, updatable: bool) {
    predicate Shape() {
      1 <= lrecl <= 32760 && 1 <= blksize <= 32760 && (recfm.V? ==> 4 < lrecl)
    }

    /** Data bytes of the longest record. */
    function Capacity(): (n: nat)
      requires Shape()
      ensures 1 <= n <= 32760
    {
      match recfm
      case F => lrecl
      case V => lrecl - 4
      case U => blksize
    }

    predicate RecordOk(r: seq<byte>)
      requires Shape()
    {
      match recfm
      case F => |r| == lrecl
      case V => 4 <= |r| <= lrecl && r[..4] == Rdw(|r| - 4)
      case U => |r| <= blksize
    }

    predicate RecordsOk(recs: seq<seq<byte>>)
      requires Shape()
    {
      forall i :: 0 <= i < |recs| ==> RecordOk(recs[i])
    }
  }

  /** recs: the records, with the rewrites that still wait in the block buffer; disk: the
      same without them, under UPDAT; next: records read so far; kept: the record read
      last can still be replaced; held: records on the volume when the DCB now open was
      opened, which no failing CLOSE can take away. */
  datatype Volume = Volume(geo: Geometry, recs: seq<seq<byte>>, disk: seq<seq<byte>>, dcb: Dcb,
                           next: nat, kept: bool, held: nat, answers: seq<Answer>)
  {
    predicate Ok() {
      && geo.Shape() && geo.RecordsOk(recs) && next <= |recs| && held <= |recs|
      && (kept ==> 0 < next && dcb.Reads())
      && (dcb.Update? ==> geo.RecordsOk(disk) && SameLengths(disk, recs))
    }

    function Head(): Answer { if answers == [] then Fine(false) else answers[0] }

    function Rest(): seq<Answer> { if answers == [] then [] else answers[1..] }
  }

  predicate SameLengths(a: seq<seq<byte>>, b: seq<seq<byte>>) {
    |a| == |b| && forall i :: 0 <= i < |a| ==> |a[i]| == |b[i]|
  }

  /** The first halfword of a record descriptor word. */
  function RdwLength(r: seq<byte>): (n: int)
    requires 4 <= |r|
  {
    (r[0] as int) * 256 + r[1] as int
  }

  /** The record descriptor word of a variable record with len data bytes. */
  function Rdw(len: nat): (r: seq<byte>)
    requires len <= 32756
    ensures |r| == 4 && RdwLength(r) == len + 4
  {
    [(len + 4) / 256, (len + 4) % 256, 0, 0]
  }

  datatype Read = Record(data: seq<byte>) | EndOfFile | ReadError

  /** The end and an error leave no record to replace.  A read that fails may have been
      the rewrite of the block before it. */
  function Aread(v: Volume): (r: (Volume, Read))
    requires v.Ok() && v.dcb.Reads()
    ensures r.0.Ok() && r.0.geo == v.geo && r.0.dcb == v.dcb && r.0.held == v.held && r.0.answers == v.Rest()
    ensures r.1.Record? ==> v.next < |v.recs| && r.1.data == v.recs[v.next]
    ensures r.0.next == (if r.1.Record? then v.next + 1 else v.next) && (r.0.kept <==> r.1.Record?)
    ensures r.1.EndOfFile? ==> v.next == |v.recs|
    ensures r.1.ReadError? <==> !v.Head().Fine?
    ensures r.0.recs == v.recs || (r.1.ReadError? && v.dcb.Update? && r.0.recs == v.disk)
    ensures v.dcb.Update? ==> r.0.disk == v.disk || r.0.disk == v.recs
  {
    var w := v.(answers := v.Rest(), kept := false);
    match v.Head()
    case Fails(_, lost, _) => (if v.dcb.Update? && 0 < lost then w.(recs := v.disk) else w, ReadError)
    case Fine(left) =>
      if v.next == |v.recs| then (w.(disk := v.recs), EndOfFile)
      else
        (w.(next := v.next + 1, kept := true, disk := if left then v.recs else v.disk), Record(v.recs[v.next]))
  }

  /** data cut, or filled with X'00', to n bytes. */
  function Fit(data: seq<byte>, n: nat): (r: seq<byte>)
    ensures |r| == n
  {
    if n <= |data| then data[..n] else data + Fill(0, n - |data|)
  }

  /** rec moved over the record was, which keeps its length - and on V its RDW. */
  function Replace(g: Geometry, was: seq<byte>, rec: seq<byte>): (r: seq<byte>)
    requires g.Shape() && g.RecordOk(was) && g.RecordOk(rec)
    ensures |r| == |was| && g.RecordOk(r)
  {
    if g.recfm.V? then was[..4] + Fit(rec[4..], |was| - 4) else Fit(rec, |was|)
  }

  /** The records without the last `lost` of those written since the DCB was opened. */
  function Survivors(v: Volume, lost: nat): (recs: seq<seq<byte>>)
    requires v.Ok()
    ensures v.geo.RecordsOk(recs) && v.held <= |recs| && recs <= v.recs
  {
    v.recs[..if v.held + lost <= |v.recs| then |v.recs| - lost else v.held]
  }

  /** UPDAT replaces the record read last, if there is one to replace; the writing DCBs
      append.  A write that fails takes the rest of its block with it.  The code is 0, 12
      (out of space) or 8 (any other failure). */
  function Awrite(v: Volume, rec: seq<byte>): (r: (Volume, int))
    requires v.Ok() && v.geo.RecordOk(rec) && (v.dcb.Writes() || v.dcb.Update?)
    ensures r.0.Ok() && r.1 in {0, 8, 12} && (r.1 == 0 <==> v.Head().Fine?)
    ensures r.1 != 0 && v.dcb.Update? ==> r.0 == v.(answers := v.Rest())
    ensures r.1 != 0 && v.dcb.Writes() ==>
              var recs := Survivors(v, v.Head().lost) + if v.Head().taken then [rec] else [];
              r.0 == v.(answers := v.Rest(), recs := recs, next := |recs|)
    ensures r.1 == 0 && v.dcb.Update? ==>
              r.0 == v.(answers := v.Rest(),
                        recs := if v.kept then v.recs[v.next - 1 := Replace(v.geo, v.recs[v.next - 1], rec)]
                                else v.recs)
    ensures r.1 == 0 && v.dcb.Writes() ==>
              r.0 == v.(answers := v.Rest(), recs := v.recs + [rec], next := |v.recs| + 1)
  {
    var w := v.(answers := v.Rest());
    match v.Head()
    case Fails(noSpace, lost, taken) =>
      var recs := Survivors(v, lost) + if taken then [rec] else [];
      (if v.dcb.Writes() then w.(recs := recs, next := |recs|) else w, if noSpace then 12 else 8)
    case Fine(_) =>
      if v.dcb.Writes() then (w.(recs := v.recs + [rec], next := |v.recs| + 1), 0)
      else if v.kept then
        (w.(recs := v.recs[v.next - 1 := Replace(v.geo, v.recs[v.next - 1], rec)]), 0)
      else (w, 0)
  }

  /** A device that does not update in place refuses UPDAT out of hand. */
  function Aopen(v: Volume, how: Dcb): (r: (Volume, bool))
    requires v.Ok() && v.dcb.Closed? && !how.Closed?
    ensures r.0.Ok() && r.0.geo == v.geo
    ensures r.1 <==> v.Head().Fine? && (how.Update? ==> v.geo.updatable)
    ensures r.0.dcb == (if r.1 then how else Closed)
    ensures r.1 && how.Reads() ==> r.0.next == 0 && r.0.disk == v.recs
    ensures r.1 ==> !r.0.kept
    ensures !how.Output? || !r.1 ==> r.0.recs == v.recs
    ensures r.0.answers == if how.Update? && !v.geo.updatable then v.answers else v.Rest()
  {
    var w := v.(answers := v.Rest());
    if how.Update? && !v.geo.updatable then (v, false)
    else if !v.Head().Fine? then (w, false)
    else if how.Output? then (w.(dcb := how, recs := [], next := 0, kept := false, held := 0), true)
    else
      (w.(dcb := how, disk := v.recs, next := if how.Extend? then |v.recs| else 0, kept := false,
          held := |v.recs|), true)
  }

  /** What still waits in the block buffer goes out here: the last, short block of a
      writing DCB, the rewrites under UPDAT.  When it does not, it is gone.  The code is 0,
      12 or 8, as for Awrite. */
  function Aclose(v: Volume): (r: (Volume, int))
    requires v.Ok() && !v.dcb.Closed?
    ensures r.0.Ok() && r.0.geo == v.geo && r.0.dcb.Closed?
    ensures r.1 in {0, 8, 12} && (r.1 == 0 <==> v.Head().Fine?)
    ensures r.1 == 0 || v.dcb.Input? ==> r.0.recs == v.recs
    ensures v.dcb.Writes() ==> r.0.recs <= v.recs
    ensures r.1 != 0 && v.dcb.Update? ==> r.0.recs == v.disk
    ensures r.0.answers == v.Rest() && v.held <= |r.0.recs| && !r.0.kept
  {
    var w := v.(answers := v.Rest(), dcb := Closed, next := 0, kept := false);
    match v.Head()
    case Fine(_) => (w, 0)
    case Fails(noSpace, lost, _) =>
      var code := if noSpace then 12 else 8;
      (if v.dcb.Update? then w.(recs := v.disk)
       else if v.dcb.Input? then w
       else w.(recs := Survivors(v, lost)), code)
  }
}
