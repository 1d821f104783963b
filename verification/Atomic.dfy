/** The CS operations of s370/atomic.h on one shared word: any number of
    threads, each taking its machine steps at any time. */
module Atomic {
  const WORD: int := 0x1_0000_0000
  const MAX_SIGNED: word := 0x7FFF_FFFF
  const MIN_SIGNED: word := 0x8000_0000

  type word = x: int | 0 <= x < 0x1_0000_0000

  datatype Op = Swap(put: word) | Inc | Dec | Uinc | Udec | Cas(want: word, put: word) {
    predicate Loops() { !Cas? }
  }

  /** What the caller gets: the value replaced, or - from __cas() - rc 0, or rc 1
      with the value found handed back through *expect. */
  datatype Ret = Was(value: word) | Swapped | Found(value: word)

  function Signed(w: word): int { if w < MIN_SIGNED then w else w - WORD }

  /** Register 1 after the instructions between the load and the CS. */
  function Register1(op: Op, r0: word): word {
    match op
    case Swap(v) => v
    case Inc => if r0 == MAX_SIGNED then 0 else (r0 + 1) % WORD
    case Dec => if r0 == MIN_SIGNED then MAX_SIGNED else (r0 - 1) % WORD
    case Uinc => if r0 == WORD - 1 then 0 else r0 + 1
    case Udec => if r0 == 0 then WORD - 1 else r0 - 1
    case Cas(_, v) => v
  }

  // ---- what an operation does when nobody interferes ------------------------------

  function Apply(op: Op, mem: word): (word, Ret) {
    match op
    case Cas(want, v) => if mem == want then (v, Swapped) else (mem, Found(mem))
    case _ => (Register1(op, mem), Was(mem))
  }

  datatype Done = Done(id: nat, op: Op, ret: Ret)

  /** The word after the operations of a log, one after the other. */
  function After(mem: word, log: seq<Done>): word {
    if log == [] then mem else Apply(log[|log| - 1].op, After(mem, log[..|log| - 1])).0
  }

  /** Every operation of the log returned what it returns in that order. */
  predicate Legal(mem: word, log: seq<Done>) {
    forall i :: 0 <= i < |log| ==> log[i].ret == Apply(log[i].op, After(mem, log[..i])).1
  }

  // ---- the machine -------------------------------------------------------------------

  /** since, mark: the number of successful CS, and the length of the log, when register 0
      was loaded. */
  datatype Thread =
    | Idle
    | Loading(id: nat, op: Op)
    | Computing(id: nat, op: Op, r0: word, since: nat, mark: nat)
    | Swapping(id: nat, op: Op, r0: word, r1: word, since: nat, mark: nat)
    | Returning(id: nat, op: Op, ret: Ret)
  {
    predicate Open() { Loading? || Computing? || Swapping? }
    predicate Holds() { Computing? || Swapping? }
  }

  /** mark: how much of the log there was at the event. */
  datatype Event =
    | Invoke(id: nat, op: Op, mark: nat)
    | Respond(id: nat, ret: Ret, mark: nat)

  /** log, events, nextId and the two counters only record what happened. */
  datatype State = State(mem: word, threads: map<nat, Thread>, log: seq<Done>, events: seq<Event>,
                         nextId: nat, wins: nat, losses: nat)

  datatype Step = Call(t: nat, op: Op) | Load(t: nat) | Compute(t: nat) | CompareSwap(t: nat) | Return(t: nat)

  predicate Enabled(s: State, step: Step) {
    && step.t in s.threads
    && match step
       case Call(t, _) => s.threads[t].Idle?
       case Load(t) => s.threads[t].Loading?
       case Compute(t) => s.threads[t].Computing?
       case CompareSwap(t) => s.threads[t].Swapping?
       case Return(t) => s.threads[t].Returning?
  }

  /** __cas() has its registers from its arguments, the others load the word. */
  function Next(s: State, step: Step): State
    requires Enabled(s, step)
  {
    var th := s.threads[step.t];
    match step
    case Call(t, op) =>
      var first := if op.Cas? then Swapping(s.nextId, op, op.want, op.put, 0, 0) else Loading(s.nextId, op);
      s.(threads := s.threads[t := first], nextId := s.nextId + 1,
         events := s.events + [Invoke(s.nextId, op, |s.log|)])
    case Load(t) =>
      s.(threads := s.threads[t := Computing(th.id, th.op, s.mem, s.wins, |s.log|)])
    case Compute(t) =>
      s.(threads := s.threads[t := Swapping(th.id, th.op, th.r0, Register1(th.op, th.r0), th.since, th.mark)])
    case CompareSwap(t) => Cs(s, t)
    case Return(t) =>
      s.(threads := s.threads[t := Idle], events := s.events + [Respond(th.id, th.ret, |s.log|)])
  }

  /** The instruction: compare and swap in one step. */
  function Cs(s: State, t: nat): State
    requires t in s.threads && s.threads[t].Swapping?
  {
    var th := s.threads[t];
    if s.mem == th.r0 then
      var ret := if th.op.Cas? then Swapped else Was(th.r0);
      s.(mem := th.r1, threads := s.threads[t := Returning(th.id, th.op, ret)],
         log := s.log + [Done(th.id, th.op, ret)], wins := s.wins + 1)
    else if th.op.Cas? then
      s.(threads := s.threads[t := Returning(th.id, th.op, Found(s.mem))],
         log := s.log + [Done(th.id, th.op, Found(s.mem))])
    else
      s.(threads := s.threads[t := Loading(th.id, th.op)], losses := s.losses + 1)
  }

  function Start(mem: word, threads: set<nat>): State {
    State(mem, map t | t in threads :: Idle, [], [], 0, 0, 0)
  }

  predicate RunOf(s: State, steps: seq<Step>)
    decreases |steps|
  {
    steps == [] || (Enabled(s, steps[0]) && RunOf(Next(s, steps[0]), steps[1..]))
  }

  function Run(s: State, steps: seq<Step>): State
    requires RunOf(s, steps)
    decreases |steps|
  {
    if steps == [] then s else Run(Next(s, steps[0]), steps[1..])
  }

  // ---- what every step keeps ------------------------------------------------------------

  /** The log explains the word and every returned value. */
  predicate Explained(mem: word, s: State) { Legal(mem, s.log) && After(mem, s.log) == s.mem }

  /** A register 0 loaded since the last successful CS still is the word. */
  predicate Registers(s: State) {
    forall t :: t in s.threads ==>
      var th := s.threads[t];
      && (th.Holds() && th.op.Loops() ==> th.since <= s.wins && (th.since == s.wins ==> th.r0 == s.mem))
      && (th.Computing? ==> th.op.Loops())
      && (th.Loading? ==> th.op.Loops())
      && (th.Swapping? ==> th.r1 == Register1(th.op, th.r0) && (th.op.Cas? ==> th.r0 == th.op.want))
  }

  /** Each call is in at most one place: open in one thread, or once in the log. */
  predicate ThreadIds(s: State) {
    && (forall t :: t in s.threads && !s.threads[t].Idle? ==> s.threads[t].id < s.nextId)
    && (forall t, u :: t in s.threads && u in s.threads && t != u && !s.threads[t].Idle? && !s.threads[u].Idle?
          ==> s.threads[t].id != s.threads[u].id)
  }

  predicate LogIds(s: State) {
    && (forall i :: 0 <= i < |s.log| ==> s.log[i].id < s.nextId)
    && (forall i, j :: 0 <= i < j < |s.log| ==> s.log[i].id != s.log[j].id)
    && (forall t, i :: t in s.threads && s.threads[t].Open() && 0 <= i < |s.log| ==> s.log[i].id != s.threads[t].id)
  }

  predicate ReturnsLogged(s: State) {
    forall t :: t in s.threads && s.threads[t].Returning? ==>
      Done(s.threads[t].id, s.threads[t].op, s.threads[t].ret) in s.log
  }

  predicate Calls(s: State) { ThreadIds(s) && LogIds(s) && ReturnsLogged(s) }

  predicate Logged(log: seq<Done>, id: nat) { exists i :: 0 <= i < |log| && log[i].id == id }

  /** A response comes after its call's place in the log, an invocation before. */
  predicate Timed(s: State) { Stamped(s) && Invocations(s) && Responses(s) }

  predicate Stamped(s: State) {
    && (forall k :: 0 <= k < |s.events| ==> s.events[k].mark <= |s.log| && s.events[k].id < s.nextId)
    && (forall k, m :: 0 <= k < m < |s.events| ==> s.events[k].mark <= s.events[m].mark)
  }

  predicate Invocations(s: State) {
    forall k :: 0 <= k < |s.events| && s.events[k].Invoke? && s.events[k].mark <= |s.log| ==>
      !Logged(s.log[..s.events[k].mark], s.events[k].id)
  }

  predicate Responses(s: State) {
    forall k :: 0 <= k < |s.events| && s.events[k].Respond? && s.events[k].mark <= |s.log| ==>
      exists i :: 0 <= i < s.events[k].mark && s.log[i].id == s.events[k].id && s.log[i].ret == s.events[k].ret
  }

  predicate Invoked(events: seq<Event>, id: nat, op: Op) {
    exists k :: 0 <= k < |events| && events[k].Invoke? && events[k].id == id && events[k].op == op
  }

  /** Nothing is in a thread or in the log that was not called. */
  predicate Begun(s: State) {
    && (forall t :: t in s.threads && !s.threads[t].Idle? ==> Invoked(s.events, s.threads[t].id, s.threads[t].op))
    && (forall i :: 0 <= i < |s.log| ==> Invoked(s.events, s.log[i].id, s.log[i].op))
  }

  /** An operation at or behind mark in the log swapped its value in. */
  predicate SwappedSince(log: seq<Done>, mark: nat) {
    exists i :: mark <= i < |log| && !log[i].ret.Found?
  }

  /** The log has the successes that came after a load. */
  predicate Marked(s: State) {
    forall t :: t in s.threads && s.threads[t].Holds() && s.threads[t].op.Loops() ==>
      && s.threads[t].mark <= |s.log|
      && (s.threads[t].since == s.wins || SwappedSince(s.log, s.threads[t].mark))
  }

  predicate Inv(mem: word, s: State) {
    Explained(mem, s) && Registers(s) && Calls(s) && Timed(s) && Begun(s) && Marked(s)
  }

  lemma StartInv(mem: word, threads: set<nat>)
    ensures Inv(mem, Start(mem, threads))
  {
  }

  lemma LogGrows(mem: word, log: seq<Done>, d: Done)
    requires Legal(mem, log) && d.ret == Apply(d.op, After(mem, log)).1
    ensures Legal(mem, log + [d]) && After(mem, log + [d]) == Apply(d.op, After(mem, log)).0
  {
    var more := log + [d];
    assert more[..|log|] == log;
    forall i | 0 <= i < |more| ensures more[i].ret == Apply(more[i].op, After(mem, more[..i])).1 {
      assert i < |log| ==> more[..i] == log[..i];
    }
  }

  lemma CsExplained(mem: word, s: State, t: nat)
    requires Explained(mem, s) && Registers(s) && t in s.threads && s.threads[t].Swapping?
    ensures Explained(mem, Cs(s, t))
  {
    hide After, Legal;
    var th := s.threads[t];
    if s.mem == th.r0 {
      LogGrows(mem, s.log, Done(th.id, th.op, if th.op.Cas? then Swapped else Was(th.r0)));
    } else if th.op.Cas? {
      LogGrows(mem, s.log, Done(th.id, th.op, Found(s.mem)));
    }
  }

  lemma ExplainedNext(mem: word, s: State, step: Step)
    requires Explained(mem, s) && Registers(s) && Enabled(s, step)
    ensures Explained(mem, Next(s, step))
  {
    hide Cs, After, Legal;
    if step.CompareSwap? { CsExplained(mem, s, step.t); }
  }

  lemma RegistersNext(s: State, step: Step)
    requires Registers(s) && Enabled(s, step)
    ensures Registers(Next(s, step))
  {
  }

  lemma ThreadIdsNext(s: State, step: Step)
    requires ThreadIds(s) && Enabled(s, step)
    ensures ThreadIds(Next(s, step))
  {
  }

  lemma LogIdsNext(s: State, step: Step)
    requires ThreadIds(s) && LogIds(s) && Enabled(s, step)
    ensures LogIds(Next(s, step))
  {
  }

  lemma ReturnsLoggedNext(s: State, step: Step)
    requires ReturnsLogged(s) && Enabled(s, step)
    ensures ReturnsLogged(Next(s, step))
  {
    var t := Next(s, step);
    forall u | u in t.threads && t.threads[u].Returning?
      ensures Done(t.threads[u].id, t.threads[u].op, t.threads[u].ret) in t.log
    {
      if u == step.t {
        assert t.log[|s.log|] == Done(t.threads[u].id, t.threads[u].op, t.threads[u].ret);
      } else {
        var i :| 0 <= i < |s.log| && s.log[i] == Done(t.threads[u].id, t.threads[u].op, t.threads[u].ret);
        assert t.log[i] == s.log[i];
      }
    }
  }

  lemma CallsNext(s: State, step: Step)
    requires Calls(s) && Enabled(s, step)
    ensures Calls(Next(s, step))
  {
    hide Next;
    ThreadIdsNext(s, step);
    LogIdsNext(s, step);
    ReturnsLoggedNext(s, step);
  }

  lemma InvocationsNext(s: State, step: Step)
    requires Stamped(s) && Invocations(s) && Calls(s) && Enabled(s, step)
    ensures Invocations(Next(s, step))
  {
    var t := Next(s, step);
    assert t.log[..|s.log|] == s.log;
    forall k | 0 <= k < |t.events| && t.events[k].Invoke? && t.events[k].mark <= |t.log|
      ensures !Logged(t.log[..t.events[k].mark], t.events[k].id)
    {
      if k < |s.events| { assert t.log[..s.events[k].mark] == s.log[..s.events[k].mark]; }
    }
  }

  lemma ResponsesNext(s: State, step: Step)
    requires Stamped(s) && Responses(s) && ReturnsLogged(s) && Enabled(s, step)
    ensures Responses(Next(s, step))
  {
    var t := Next(s, step);
    if step.Return? {
      var th := s.threads[step.t];
      var i :| 0 <= i < |s.log| && s.log[i] == Done(th.id, th.op, th.ret);
    }
    forall k | 0 <= k < |t.events| && t.events[k].Respond? && t.events[k].mark <= |t.log|
      ensures exists i :: 0 <= i < t.events[k].mark && t.log[i].id == t.events[k].id && t.log[i].ret == t.events[k].ret
    {
      if k < |s.events| {
        var i :| 0 <= i < s.events[k].mark && s.log[i].id == s.events[k].id && s.log[i].ret == s.events[k].ret;
        assert t.log[i] == s.log[i];
      }
    }
  }

  lemma StampedNext(s: State, step: Step)
    requires Stamped(s) && ThreadIds(s) && Enabled(s, step)
    ensures Stamped(Next(s, step))
  {
  }

  lemma TimedNext(s: State, step: Step)
    requires Timed(s) && Calls(s) && Enabled(s, step)
    ensures Timed(Next(s, step))
  {
    hide Next;
    StampedNext(s, step);
    InvocationsNext(s, step);
    ResponsesNext(s, step);
  }

  lemma KeysNext(s: State, step: Step)
    requires Enabled(s, step)
    ensures Next(s, step).threads.Keys == s.threads.Keys
  {
  }

  lemma InvokedStays(events: seq<Event>, e: Event, id: nat, op: Op)
    requires Invoked(events, id, op)
    ensures Invoked(events + [e], id, op)
  {
    var k :| 0 <= k < |events| && events[k].Invoke? && events[k].id == id && events[k].op == op;
    assert (events + [e])[k] == events[k];
  }

  lemma BegunNext(s: State, step: Step)
    requires Begun(s) && Enabled(s, step)
    ensures Begun(Next(s, step))
  {
    var n := Next(s, step);
    if n.events != s.events {
      var e := n.events[|s.events|];
      assert n.events == s.events + [e];
      forall id, op | Invoked(s.events, id, op) ensures Invoked(n.events, id, op) {
        InvokedStays(s.events, e, id, op);
      }
      assert n.events[|s.events|] == e;
    }
  }

  lemma SwappedStays(log: seq<Done>, d: Done, mark: nat)
    requires SwappedSince(log, mark)
    ensures SwappedSince(log + [d], mark)
  {
    var i :| mark <= i < |log| && !log[i].ret.Found?;
    assert (log + [d])[i] == log[i];
  }

  lemma MarkedNext(s: State, step: Step)
    requires Marked(s) && Enabled(s, step)
    ensures Marked(Next(s, step))
  {
    hide SwappedSince;
    var n := Next(s, step);
    if n.log != s.log {
      var d := n.log[|s.log|];
      assert n.log == s.log + [d];
      forall t | t in n.threads && n.threads[t].Holds() && n.threads[t].op.Loops()
        ensures n.threads[t].mark <= |n.log|
        ensures n.threads[t].since == n.wins || SwappedSince(n.log, n.threads[t].mark)
      {
        assert t != step.t && n.threads[t] == s.threads[t];
        if SwappedSince(s.log, n.threads[t].mark) { SwappedStays(s.log, d, n.threads[t].mark); }
        else if !d.ret.Found? { JustSwapped(s.log, d, n.threads[t].mark); }
      }
    }
  }

  lemma JustSwapped(log: seq<Done>, d: Done, mark: nat)
    requires mark <= |log| && !d.ret.Found?
    ensures SwappedSince(log + [d], mark)
  {
    assert (log + [d])[|log|] == d;
  }

  lemma {:induction false} RunInv(mem: word, s: State, steps: seq<Step>)
    requires Inv(mem, s) && RunOf(s, steps)
    ensures Inv(mem, Run(s, steps)) && Run(s, steps).threads.Keys == s.threads.Keys
    decreases |steps|
  {
    if steps != [] {
      hide Explained, Registers, Calls, Timed, Begun, Marked, Next;
      MarkedNext(s, steps[0]);
      BegunNext(s, steps[0]);
      ExplainedNext(mem, s, steps[0]);
      RegistersNext(s, steps[0]);
      CallsNext(s, steps[0]);
      TimedNext(s, steps[0]);
      KeysNext(s, steps[0]);
      RunInv(mem, Next(s, steps[0]), steps[1..]);
    }
  }

  // ---- the theorems ----------------------------------------------------------------------

  /** Every response is the log's. */
  predicate Answered(s: State) {
    forall k :: 0 <= k < |s.events| && s.events[k].Respond? ==>
      exists i :: 0 <= i < |s.log| && s.log[i].id == s.events[k].id && s.log[i].ret == s.events[k].ret
  }

  /** Call i of the log returned at event k, call j began at event m. */
  predicate Apart(s: State, k: nat, m: nat, i: nat, j: nat) {
    && k < m < |s.events| && s.events[k].Respond? && s.events[m].Invoke? && i < |s.log| && j < |s.log|
    && s.log[i].id == s.events[k].id && s.log[j].id == s.events[m].id
  }

  /** A call that returned before another began comes before it in the log. */
  ghost predicate RealTime(s: State) { forall k: nat, m: nat, i: nat, j: nat :: Apart(s, k, m, i, j) ==> i < j }

  lemma InRealTime(s: State, k: nat, m: nat, i: nat, j: nat)
    requires Calls(s) && Timed(s) && Apart(s, k, m, i, j)
    ensures i < j
  {
    var p :| 0 <= p < s.events[k].mark && s.log[p].id == s.events[k].id;
    assert p == i;
    var id, before := s.events[m].id, s.log[..s.events[m].mark];
    forall q | 0 <= q < |before| ensures s.log[q].id != id { assert before[q] == s.log[q]; }
  }

  /** Any interleaving of any number of calls is linearizable at each call's last
      CS: in the order of the log every call returns what it returns alone, from
      the initial word to the word there is now. */
  lemma Linearizable(mem: word, threads: set<nat>, steps: seq<Step>)
    requires RunOf(Start(mem, threads), steps)
    ensures var s := Run(Start(mem, threads), steps);
      && Legal(mem, s.log) && After(mem, s.log) == s.mem && Answered(s) && RealTime(s)
      && Begun(s) && LogIds(s)
  {
    hide Registers, Begun, LogIds, After, Legal;
    StartInv(mem, threads);
    RunInv(mem, Start(mem, threads), steps);
    var s := Run(Start(mem, threads), steps);
    forall k: nat, m: nat, i: nat, j: nat | Apart(s, k, m, i, j) ensures i < j {
      InRealTime(s, k, m, i, j);
    }
  }

  /** Conservation: what the completed unsigned calls add up to. */
  function Net(log: seq<Done>): int {
    if log == [] then 0
    else Net(log[..|log| - 1]) + match log[|log| - 1].op
      case Uinc => 1
      case Udec => -1
      case _ => 0
  }

  predicate Counting(log: seq<Done>) { forall i :: 0 <= i < |log| ==> log[i].op.Uinc? || log[i].op.Udec? }

  lemma ModStep(a: int, d: int)
    requires d == 1 || d == -1
    ensures (a % WORD + d) % WORD == (a + d) % WORD
  {
  }

  /** n completed __uinc() and m completed __udec() calls, interleaved in any way,
      leave the word n - m further modulo 2**32. */
  lemma {:induction false} CountsModulo(mem: word, log: seq<Done>)
    requires Counting(log)
    ensures After(mem, log) == (mem + Net(log)) % WORD
  {
    if log != [] {
      var front := log[..|log| - 1];
      CountsModulo(mem, front);
      var d := if log[|log| - 1].op.Uinc? then 1 else -1;
      ModStep(mem + Net(front), d);
      assert Register1(log[|log| - 1].op, After(mem, front)) == (After(mem, front) + d) % WORD;
    }
  }

  lemma CountersAdd(mem: word, threads: set<nat>, steps: seq<Step>)
    requires RunOf(Start(mem, threads), steps) && Counting(Run(Start(mem, threads), steps).log)
    ensures var s := Run(Start(mem, threads), steps); s.mem == (mem + Net(s.log)) % WORD
  {
    hide Registers, Calls, Timed, Begun, After;
    StartInv(mem, threads);
    RunInv(mem, Start(mem, threads), steps);
    CountsModulo(mem, Run(Start(mem, threads), steps).log);
  }

  /** The signed operations as <s370/atomic.h> promises them. */
  lemma SignedOperations(w: word)
    ensures Signed(Register1(Inc, w)) == if Signed(w) == 0x7FFF_FFFF then 0 else Signed(w) + 1
    ensures Signed(Register1(Dec, w)) == if Signed(w) == -0x8000_0000 then 0x7FFF_FFFF else Signed(w) - 1
  {
  }

  /** __dec() undoes __inc() exactly where __inc() does not reset, and the other
      way round. */
  lemma DecUndoesInc(w: word)
    ensures Register1(Dec, Register1(Inc, w)) == w <==> w != MAX_SIGNED
    ensures Register1(Inc, Register1(Dec, w)) == w <==> w != MIN_SIGNED
    ensures Register1(Udec, Register1(Uinc, w)) == w && Register1(Uinc, Register1(Udec, w)) == w
  {
  }

  // ---- what each operation does to the word ----------------------------------------------

  /** The log only grows, one entry at a step: each of its lengths is met on the way. */
  lemma {:induction false} LogReached(s: State, steps: seq<Step>, i: nat) returns (k: nat)
    requires RunOf(s, steps) && |s.log| <= i <= |Run(s, steps).log|
    ensures s.log <= Run(s, steps).log
    ensures k <= |steps| && RunOf(s, steps[..k]) && Run(s, steps[..k]).log == Run(s, steps).log[..i]
    decreases |steps|
  {
    if steps == [] || i == |s.log| {
      k := 0;
      assert steps[..0] == [] && Run(s, []) == s;
      LogKept(s, steps);
      assert s.log == Run(s, steps).log[..i];
    } else {
      LogStep(s, steps[0]);
      hide Enabled, Next;
      var n := Next(s, steps[0]);
      k := LogReached(n, steps[1..], i);
      k := k + 1;
      assert steps[..k][0] == steps[0] && steps[..k][1..] == steps[1..][..k - 1];
    }
  }

  lemma LogStep(s: State, step: Step)
    requires Enabled(s, step)
    ensures s.log <= Next(s, step).log && |Next(s, step).log| <= |s.log| + 1
  {
  }

  lemma {:induction false} LogKept(s: State, steps: seq<Step>)
    requires RunOf(s, steps)
    ensures s.log <= Run(s, steps).log
    decreases |steps|
  {
    if steps != [] {
      LogStep(s, steps[0]);
      hide Enabled, Next;
      LogKept(Next(s, steps[0]), steps[1..]);
    }
  }

  /** The word depends on the log alone. */
  lemma LogIsWord(mem: word, threads: set<nat>, steps: seq<Step>, more: seq<Step>)
    requires RunOf(Start(mem, threads), steps) && RunOf(Start(mem, threads), more)
    requires Run(Start(mem, threads), steps).log == Run(Start(mem, threads), more).log
    ensures Run(Start(mem, threads), steps).mem == Run(Start(mem, threads), more).mem
  {
    hide Registers, Calls, Timed, Begun, Marked, After, Legal;
    StartInv(mem, threads);
    RunInv(mem, Start(mem, threads), steps);
    RunInv(mem, Start(mem, threads), more);
  }

  /** Entry i of the log of any run: the word was `before` when i calls had completed and
      `after` when this one had.  __swap() stored the new value and returned the old one;
      __cas() stored its new value where it found the expected one, else handed back what it
      found and left it; the counters count, as signed or unsigned numbers, and return the
      word they found. */
  lemma EveryEffect(mem: word, threads: set<nat>, steps: seq<Step>, i: nat)
    returns (j: nat, k: nat, before: word, after: word)
    requires RunOf(Start(mem, threads), steps) && i < |Run(Start(mem, threads), steps).log|
    ensures var s := Start(mem, threads); var log := Run(s, steps).log;
      && j <= |steps| && RunOf(s, steps[..j]) && Run(s, steps[..j]).log == log[..i] && Run(s, steps[..j]).mem == before
      && k <= |steps| && RunOf(s, steps[..k])
      && Run(s, steps[..k]).log == log[..i + 1] && Run(s, steps[..k]).mem == after
    ensures i == 0 ==> before == mem
    ensures i == |Run(Start(mem, threads), steps).log| - 1 ==> after == Run(Start(mem, threads), steps).mem
    ensures var d := Run(Start(mem, threads), steps).log[i];
      match d.op
      case Swap(v) => d.ret == Was(before) && after == v
      case Cas(want, v) => if before == want then d.ret == Swapped && after == v
                           else d.ret == Found(before) && after == before
      case Inc => d.ret == Was(before) && Signed(after) == if Signed(before) == 0x7FFF_FFFF then 0
                                                           else Signed(before) + 1
      case Dec => d.ret == Was(before) && Signed(after) == if Signed(before) == -0x8000_0000 then 0x7FFF_FFFF
                                                           else Signed(before) - 1
      case Uinc => d.ret == Was(before) && after == (before + 1) % WORD
      case Udec => d.ret == Was(before) && after == (before - 1) % WORD
  {
    hide Explained, Run, RunOf;
    var s := Start(mem, threads);
    var log := Run(s, steps).log;
    StartInv(mem, threads);
    j := LogReached(s, steps, i);
    k := LogReached(s, steps, i + 1);
    before, after := Run(s, steps[..j]).mem, Run(s, steps[..k]).mem;
    if i == 0 { FirstWord(mem, threads, steps[..j]); }
    if i == |log| - 1 {
      assert log[..i + 1] == log;
      LogIsWord(mem, threads, steps[..k], steps);
    }
    LogExplains(mem, s, steps[..j]);
    LogExplains(mem, s, steps[..k]);
    LastEffect(mem, Run(s, steps[..j]), Run(s, steps[..k]), log[i]);
  }

  lemma FirstWord(mem: word, threads: set<nat>, steps: seq<Step>)
    requires RunOf(Start(mem, threads), steps) && Run(Start(mem, threads), steps).log == []
    ensures Run(Start(mem, threads), steps).mem == mem
  {
    LogIsWord(mem, threads, steps, []);
  }

  /** One more call in the log. */
  lemma LastEffect(mem: word, s: State, n: State, d: Done)
    requires Explained(mem, s) && Explained(mem, n) && n.log == s.log + [d]
    ensures match d.op
      case Swap(v) => d.ret == Was(s.mem) && n.mem == v
      case Cas(want, v) => if s.mem == want then d.ret == Swapped && n.mem == v
                           else d.ret == Found(s.mem) && n.mem == s.mem
      case Inc => d.ret == Was(s.mem) && Signed(n.mem) == if Signed(s.mem) == 0x7FFF_FFFF then 0 else Signed(s.mem) + 1
      case Dec => d.ret == Was(s.mem) && Signed(n.mem) == if Signed(s.mem) == -0x8000_0000 then 0x7FFF_FFFF
                                                          else Signed(s.mem) - 1
      case Uinc => d.ret == Was(s.mem) && n.mem == (s.mem + 1) % WORD
      case Udec => d.ret == Was(s.mem) && n.mem == (s.mem - 1) % WORD
  {
    assert n.log[..|s.log|] == s.log && n.log[|s.log|] == d;
    assert n.mem == Apply(d.op, s.mem).0 && d.ret == Apply(d.op, s.mem).1;
    SignedOperations(s.mem);
  }

  lemma LogExplains(mem: word, s: State, steps: seq<Step>)
    requires Inv(mem, s) && RunOf(s, steps)
    ensures Explained(mem, Run(s, steps))
  {
    hide Explained, Registers, Calls, Timed, Begun, Marked;
    RunInv(mem, s, steps);
  }

  /** What the call that completed last leaves. */
  lemma LastStored(mem: word, threads: set<nat>, steps: seq<Step>)
    requires RunOf(Start(mem, threads), steps) && Run(Start(mem, threads), steps).log != []
    ensures var s := Run(Start(mem, threads), steps); var d := s.log[|s.log| - 1];
      && (d.op.Swap? || (d.op.Cas? && d.ret == Swapped) ==> s.mem == d.op.put)
      && (d.op.Cas? && d.ret.Found? ==> d.ret.value != d.op.want && s.mem == d.ret.value)
      && (d.op.Cas? ==> !d.ret.Was?) && (!d.op.Cas? ==> d.ret.Was?)
  {
    hide Run, RunOf, Start;
    var j, k, before, after :=
      EveryEffect(mem, threads, steps, |Run(Start(mem, threads), steps).log| - 1);
  }

  // ---- no retry without another's success ---------------------------------------------------

  /** In every run, a CS of a retry loop that fails has a culprit in the log: a call of
      somebody else's whose CS succeeded after this thread loaded the word. */
  lemma FailureIsCharged(mem: word, threads: set<nat>, steps: seq<Step>, t: nat)
    requires RunOf(Start(mem, threads), steps) && t in threads
    requires var s := Run(Start(mem, threads), steps);
      && t in s.threads && s.threads[t].Swapping? && s.threads[t].op.Loops()
      && Cs(s, t).losses == s.losses + 1
    ensures var s := Run(Start(mem, threads), steps); var th := s.threads[t];
      exists i :: th.mark <= i < |s.log| && !s.log[i].ret.Found? && s.log[i].id != th.id
  {
    hide Explained, Timed, Begun;
    StartInv(mem, threads);
    RunInv(mem, Start(mem, threads), steps);
    var s := Run(Start(mem, threads), steps);
    var th := s.threads[t];
    var i :| th.mark <= i < |s.log| && !s.log[i].ret.Found?;
    assert s.log[i].id != th.id;
  }

  /** The threads whose loaded value is out of date. */
  function Stale(s: State): set<nat> {
    set t | t in s.threads && s.threads[t].Holds() && s.threads[t].op.Loops() && s.threads[t].since < s.wins
  }

  /** The retries so far are paid for by the successes. */
  predicate Paid(s: State) {
    s.threads.Keys == {} || s.losses + |Stale(s)| <= (|s.threads.Keys| - 1) * s.wins
  }

  lemma SubsetSize(a: set<nat>, b: set<nat>)
    requires a <= b
    ensures |a| <= |b|
  {
    var rest := b - a;
    assert b == a + rest;
  }

  lemma WinPays(s: State, t: nat)
    requires Paid(s) && t in s.threads && s.threads[t].Swapping? && s.mem == s.threads[t].r0
    ensures Paid(Cs(s, t))
  {
    hide Register1;
    var n, others := Cs(s, t), |s.threads.Keys| - 1;
    assert n.threads.Keys == s.threads.Keys;
    SubsetSize(Stale(n), s.threads.Keys - {t});
    assert others * (s.wins + 1) == others * s.wins + others;
  }

  lemma LossPaid(s: State, t: nat)
    requires Registers(s) && Paid(s) && t in s.threads && s.threads[t].Swapping? && s.mem != s.threads[t].r0
    ensures Paid(Cs(s, t))
  {
    var n := Cs(s, t);
    assert n.threads.Keys == s.threads.Keys;
    if s.threads[t].op.Loops() { assert t in Stale(s); }
    assert Stale(n) == Stale(s) - {t};
  }

  lemma PaidNext(s: State, step: Step)
    requires Registers(s) && Paid(s) && Enabled(s, step)
    ensures Paid(Next(s, step))
  {
    if step.CompareSwap? {
      if s.mem == s.threads[step.t].r0 { WinPays(s, step.t); } else { LossPaid(s, step.t); }
    } else {
      var n := Next(s, step);
      assert n.threads.Keys == s.threads.Keys;
      SubsetSize(Stale(n), Stale(s));
    }
  }

  lemma {:induction false} RunPaid(mem: word, s: State, steps: seq<Step>)
    requires Inv(mem, s) && Paid(s) && RunOf(s, steps)
    ensures Paid(Run(s, steps))
    decreases |steps|
  {
    if steps != [] {
      hide Paid, Registers, Explained, Calls, Timed, Begun, Marked;
      PaidNext(s, steps[0]);
      RunInv(mem, s, [steps[0]]);
      assert Run(s, [steps[0]]) == Next(s, steps[0]);
      RunPaid(mem, Next(s, steps[0]), steps[1..]);
    }
  }

  /** Lock freedom: over any run of n threads at most n - 1 retries happen per
      successful CS. */
  lemma LockFree(mem: word, threads: set<nat>, steps: seq<Step>)
    requires RunOf(Start(mem, threads), steps) && threads != {}
    ensures var s := Run(Start(mem, threads), steps); s.losses <= (|threads| - 1) * s.wins
  {
    var s := Start(mem, threads);
    StartInv(mem, threads);
    hide Inv;
    assert s.threads.Keys == threads;
    RunPaid(mem, s, steps);
    RunInv(mem, s, steps);
  }
}
