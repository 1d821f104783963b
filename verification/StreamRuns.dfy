/** Whole runs of a '+' stream, from fopen() on. */
module StreamRuns {
  import opened Bytes
  import opened AccessMethod
  import opened StreamSpec
  import opened StreamRefines
  import D = Doc

  datatype Op = DoGetc | DoPutc(c: byte) | DoFlush | DoSeek(offset: int, whence: int)

  /** One call on a stream that may write, and what it returns. */
  function Step(s: Stream, op: Op): (r: Outcome<int>)
    requires Sane(s) && s.kind.write
    ensures r.Did? ==> Sane(r.stream) && SameKind(s, r.stream)
    ensures s.open ==> r.Did?
  {
    hide Fgetc, Fputc, FlushRec, Fseek, WriterSeek;
    match op
    case DoGetc => var (t, c) := Fgetc(s); Did(t, c)
    case DoPutc(c) => var (t, r) := Fputc(s, c); Did(t, r)
    case DoFlush => var (t, err) := FlushRec(s, false); Did(t, err)
    case DoSeek(offset, whence) =>
      if s.kind.read then Fseek(s, offset, whence) else var (t, rc) := WriterSeek(s, offset, whence); Did(t, rc)
  }

  function Run(s: Stream, ops: seq<Op>): (r: Outcome<seq<int>>)
    requires Sane(s) && s.kind.write
    ensures r.Did? ==> Sane(r.stream) && SameKind(s, r.stream) && |r.ret| == |ops|
    decreases |ops|
  {
    hide Step;
    if ops == [] then Did(s, [])
    else
      match Step(s, ops[0])
      case NoDcb => NoDcb
      case Did(t, out) =>
        match Run(t, ops[1..])
        case NoDcb => NoDcb
        case Did(u, outs) => Did(u, [out] + outs)
  }

  function DocStep(f: D.Form, d: D.Doc, op: Op): (D.Doc, int)
    requires f.geo.Shape()
  {
    match op
    case DoGetc => D.Getc(f, d)
    case DoPutc(c) => D.Putc(f, d, c)
    case DoFlush => (D.Flush(f, d), 0)
    case DoSeek(offset, whence) => D.Seek(f, d, offset, whence)
  }

  function DocRun(f: D.Form, d: D.Doc, ops: seq<Op>): (r: (D.Doc, seq<int>))
    requires f.geo.Shape()
    ensures |r.1| == |ops|
    decreases |ops|
  {
    if ops == [] then (d, [])
    else
      var (e, out) := DocStep(f, d, ops[0]);
      var (g, outs) := DocRun(f, e, ops[1..]);
      (g, [out] + outs)
  }

  function ModeStep(f: D.Form, d: D.Doc, m: D.Mode, op: Op): D.Mode {
    match op
    case DoGetc => D.ModeGetc(f, d, m)
    case DoPutc(_) => D.ModePutc(f, d, m)
    case DoFlush => m
    case DoSeek(offset, whence) => D.ModeSeek(f, d, m, offset, whence)
  }

  function ModeRun(f: D.Form, d: D.Doc, m: D.Mode, ops: seq<Op>): D.Mode
    requires f.geo.Shape()
    decreases |ops|
  {
    if ops == [] then m
    else ModeRun(f, DocStep(f, d, ops[0]).0, ModeStep(f, d, m, ops[0]), ops[1..])
  }

  /** X'00' is not written to a text stream, a binary F stream is not flushed in the
      middle of a record, and nothing is written over the last record once the end has
      been read, until the position has been in front of that record. */
  predicate Allowed(f: D.Form, d: D.Doc, m: D.Mode, op: Op) {
    && (op.DoPutc? ==> (op.c != 0 || f.binary) && !D.Lost(f, d, m))
    && (op.DoFlush? ==> Counted(f, d))
  }

  predicate AllowedRun(f: D.Form, d: D.Doc, m: D.Mode, ops: seq<Op>)
    requires f.geo.Shape()
    decreases |ops|
  {
    || ops == []
    || (Allowed(f, d, m, ops[0]) && AllowedRun(f, DocStep(f, d, ops[0]).0, ModeStep(f, d, m, ops[0]), ops[1..]))
  }

  lemma StepRefines(s: Stream, op: Op)
    requires Tidy(s) && Allowed(FormOf(s), Abstract(s), ModeOf(s), op)
    ensures var r := Step(s, op);
      && r.Did? && Tidy(r.stream) && (Abstract(r.stream), r.ret) == DocStep(FormOf(s), Abstract(s), op)
      && ModeOf(r.stream) == ModeStep(FormOf(s), Abstract(s), ModeOf(s), op)
  {
    hide Fgetc, Fputc, FlushRec, Fseek;
    match op
    case DoGetc => FgetcRefines(s);
    case DoPutc(c) => FputcRefines(s, c);
    case DoFlush => FflushRefines(s);
    case DoSeek(offset, whence) => FseekRefines(s, offset, whence);
  }

  /** Every run of calls on the stream returns what the same run on the document
      returns, and leaves the stream standing for the document's last state. */
  lemma {:induction false} RunRefines(s: Stream, ops: seq<Op>)
    requires Tidy(s) && AllowedRun(FormOf(s), Abstract(s), ModeOf(s), ops)
    ensures var r := Run(s, ops);
      && r.Did? && Tidy(r.stream) && (Abstract(r.stream), r.ret) == DocRun(FormOf(s), Abstract(s), ops)
      && ModeOf(r.stream) == ModeRun(FormOf(s), Abstract(s), ModeOf(s), ops)
    decreases |ops|
  {
    hide Step, DocStep, ModeStep, Allowed;
    if ops != [] {
      StepRefines(s, ops[0]);
      RunRefines(Step(s, ops[0]).stream, ops[1..]);
    }
  }
}
