/**
 cmd/build-tracer/native_linux_amd64.go: the ptrace stop loop.  Stops of any number of
 tracees arrive interleaved; what is emitted for one tracee depends on its own stops only.
 */
module Tracer {
  import opened Sequences

  /** The registers and strings a syscall stop lets the tracer read. */
  datatype Regs =
    | Readable(nr: nat, rax: nat, path: string, argv: seq<string>, cwd: string, openPath: string, flags: nat)
    | Unreadable

  /** One return of Wait4. */
  datatype Event =
    | SyscallStop(pid: int, regs: Regs)
    | ChildEvent(pid: int, child: int)
    | OtherStop(pid: int)
    | Gone(pid: int, status: int)

  datatype Line =
    | ExecLine(pid: int, cwd: string, path: string, argv: seq<string>)
    | OpenLine(pid: int, path: string, flags: nat, fd: int)

  const SYS_EXECVE := 59
  const SYS_OPENAT := 257
  const TWO_63 := 0x8000_0000_0000_0000
  const TWO_64 := 0x1_0000_0000_0000_0000

  /** int64(rax) */
  function Signed(rax: nat): int {
    var x := rax % TWO_64;
    if x < TWO_63 then x else x - TWO_64
  }

  /** A register holds a number in two's complement, and is read as that number. */
  lemma SignedReads(x: int)
    requires -TWO_63 <= x < TWO_63
    ensures Signed(if x < 0 then x + TWO_64 else x) == x
  {
  }

  /** The values of a pidState's fields. */
  datatype View = View(atEnter: bool, execPath: string, execArgv: seq<string>, execCwd: string,
                       openPath: string, openFlags: nat, openCaptured: bool)

  const FRESH := View(true, "", [], "", "", 0, false)

  /** handleSyscallStop on values. */
  function Handle(v: View, regs: Regs, captureReads: bool): View {
    if regs.Unreadable? then v.(atEnter := !v.atEnter)
    else if v.atEnter then
      if regs.nr == SYS_EXECVE then
        v.(atEnter := false, execPath := regs.path, execArgv := regs.argv, execCwd := regs.cwd)
      else if regs.nr == SYS_OPENAT && captureReads then
        v.(atEnter := false, openPath := regs.openPath, openFlags := regs.flags, openCaptured := true)
      else v.(atEnter := false)
    else
      var v' := if v.execPath != "" then v.(execPath := "", execArgv := [], execCwd := "") else v;
      var v'' := if v.openCaptured then v'.(openPath := "", openFlags := 0, openCaptured := false) else v';
      v''.(atEnter := true)
  }

  /** What one stop writes to the trace. */
  function Written(pid: int, v: View, regs: Regs): seq<Line> {
    if regs.Unreadable? || v.atEnter then []
    else
      (if v.execPath != "" && Signed(regs.rax) == 0 then [ExecLine(pid, v.execCwd, v.execPath, v.execArgv)] else [])
      + (if v.openCaptured && Signed(regs.rax) >= 0 && v.openFlags % 4 == 0
         then [OpenLine(pid, v.openPath, v.openFlags, Signed(regs.rax))] else [])
  }

  class PidState {
    var atEnter: bool
    var execPath: string
    var execArgv: seq<string>
    var execCwd: string
    var openPath: string
    var openFlags: nat
    var openCaptured: bool

    ghost function Values(): View
      reads this
    {
      View(atEnter, execPath, execArgv, execCwd, openPath, openFlags, openCaptured)
    }

    constructor ()
      ensures Values() == FRESH
    {
      atEnter := true;
      execPath, execArgv, execCwd := "", [], "";
      openPath, openFlags, openCaptured := "", 0, false;
    }

    /** handleSyscallStop */
    method HandleSyscallStop(pid: int, regs: Regs, captureReads: bool) returns (lines: seq<Line>)
      modifies this
      ensures Values() == Handle(old(Values()), regs, captureReads)
      ensures lines == Written(pid, old(Values()), regs)
    {
      lines := [];
      if regs.Unreadable? {
        atEnter := !atEnter;
        return;
      }
      if atEnter {
        if regs.nr == SYS_EXECVE {
          execPath, execArgv, execCwd := regs.path, regs.argv, regs.cwd;
        } else if regs.nr == SYS_OPENAT && captureReads {
          openPath, openFlags, openCaptured := regs.openPath, regs.flags, true;
        }
        atEnter := false;
        return;
      }
      if execPath != "" {
        if Signed(regs.rax) == 0 {
          lines := lines + [ExecLine(pid, execCwd, execPath, execArgv)];
        }
        execPath, execArgv, execCwd := "", [], "";
      }
      if openCaptured {
        var ret := Signed(regs.rax);
        if ret >= 0 && openFlags % 4 == 0 {
          lines := lines + [OpenLine(pid, openPath, openFlags, ret)];
        }
        openPath, openFlags, openCaptured := "", 0, false;
      }
      atEnter := true;
    }
  }

  type Table = map<int, View>

  function Entry(m: Table, pid: int): View {
    if pid in m then m[pid] else FRESH
  }

  /** One iteration of the loop on values: an unknown pid is registered first. */
  function StepTable(m: Table, e: Event, captureReads: bool): Table {
    match e
    case SyscallStop(pid, regs) => m[pid := Handle(Entry(m, pid), regs, captureReads)]
    case ChildEvent(pid, child) =>
      var m' := m[pid := Entry(m, pid)];
      if child in m' then m' else m'[child := FRESH]
    case OtherStop(pid) => m[pid := Entry(m, pid)]
    case Gone(pid, _) => m - {pid}
  }

  function StepLines(m: Table, e: Event): seq<Line> {
    if e.SyscallStop? then Written(e.pid, Entry(m, e.pid), e.regs) else []
  }

  function Tables(m: Table, events: seq<Event>, captureReads: bool): Table {
    if events == [] then m
    else StepTable(Tables(m, events[..|events| - 1], captureReads), events[|events| - 1], captureReads)
  }

  function Lines(m: Table, events: seq<Event>, captureReads: bool): seq<Line> {
    if events == [] then []
    else
      var init := events[..|events| - 1];
      Lines(m, init, captureReads) + StepLines(Tables(m, init, captureReads), events[|events| - 1])
  }

  lemma Overwrite(m: Table, pid: int, v: View, v': View)
    ensures m[pid := v][pid := v'] == m[pid := v']
  {
  }

  lemma Discard(m: Table, pid: int, v: View)
    ensures m[pid := v] - {pid} == m - {pid}
  {
  }

  lemma {:induction false} TablesStep(m: Table, events: seq<Event>, n: nat, captureReads: bool, before: seq<Line>)
    requires n < |events|
    ensures Tables(m, events[..n + 1], captureReads)
      == StepTable(Tables(m, events[..n], captureReads), events[n], captureReads)
    ensures Lines(m, events[..n + 1], captureReads)
      == Lines(m, events[..n], captureReads) + StepLines(Tables(m, events[..n], captureReads), events[n])
    ensures before + Lines(m, events[..n + 1], captureReads)
      == (before + Lines(m, events[..n], captureReads)) + StepLines(Tables(m, events[..n], captureReads), events[n])
  {
    PrefixStep(events, n);
  }

  /** The tracer's loop state.  `table` is the abstract value: the fields of every pidState by pid. */
  class Loop {
    const rootPid: int
    const captureReads: bool
    var states: map<int, PidState>
    var trace: seq<Line>
    var rootExit: int
    ghost var table: Table

    ghost predicate Valid()
      reads this, states.Values
    {
      && states.Keys == table.Keys
      && (forall p | p in states :: states[p].Values() == table[p])
      && forall p, q | p in states && q in states && p != q :: states[p] != states[q]
    }

    /** The loop starts with the root tracee registered and its first exec already written. */
    constructor (rootPid: int, rootCwd: string, rootPath: string, rootArgv: seq<string>, captureReads: bool)
      ensures Valid() && this.rootPid == rootPid && this.captureReads == captureReads
      ensures fresh(states.Values) && table == map[rootPid := FRESH]
      ensures trace == [ExecLine(rootPid, rootCwd, rootPath, rootArgv)] && rootExit == 0
    {
      this.rootPid, this.captureReads := rootPid, captureReads;
      var st := new PidState();
      states := map[rootPid := st];
      table := map[rootPid := FRESH];
      trace := [ExecLine(rootPid, rootCwd, rootPath, rootArgv)];
      rootExit := 0;
    }

    method Register(pid: int)
      requires Valid()
      modifies this`states, this`table
      ensures Valid() && fresh(states.Values - old(states.Values))
      ensures pid in states && table == old(table)[pid := Entry(old(table), pid)]
    {
      if pid !in states {
        var st := new PidState();
        states := states[pid := st];
        table := table[pid := FRESH];
      }
    }

    method Syscall(pid: int, regs: Regs)
      requires Valid() && pid in states
      modifies this`trace, this`table, states[pid]
      ensures Valid() && table == old(table)[pid := Handle(old(table[pid]), regs, captureReads)]
      ensures trace == old(trace) + Written(pid, old(table[pid]), regs)
    {
      var lines := states[pid].HandleSyscallStop(pid, regs, captureReads);
      trace := trace + lines;
      table := table[pid := Handle(table[pid], regs, captureReads)];
    }

    /** A syscall stop of a tracee that may not be registered yet. */
    method Stopped(pid: int, regs: Regs)
      requires Valid()
      modifies this`states, this`trace, this`table, states.Values
      ensures Valid() && fresh(states.Values - old(states.Values))
      ensures table == old(table)[pid := Handle(Entry(old(table), pid), regs, captureReads)]
      ensures trace == old(trace) + Written(pid, Entry(old(table), pid), regs)
    {
      hide Handle, Written;
      Register(pid);
      Overwrite(old(table), pid, Entry(old(table), pid), Handle(Entry(old(table), pid), regs, captureReads));
      Syscall(pid, regs);
    }

    /** A tracee has exited or was killed. */
    method Reap(pid: int, status: int)
      requires Valid()
      modifies this`states, this`rootExit, this`table
      ensures Valid() && fresh(states.Values - old(states.Values))
      ensures table == old(table) - {pid}
      ensures rootExit == if pid == rootPid then status else old(rootExit)
    {
      Register(pid);
      if pid == rootPid {
        rootExit := status;
      }
      Discard(old(table), pid, Entry(old(table), pid));
      states, table := states - {pid}, table - {pid};
    }

    /** One iteration of runNative's loop. */
    method Step(e: Event)
      requires Valid()
      modifies this`states, this`trace, this`rootExit, this`table, states.Values
      ensures Valid() && fresh(states.Values - old(states.Values))
      ensures table == StepTable(old(table), e, captureReads)
      ensures trace == old(trace) + StepLines(old(table), e)
      ensures rootExit == if e.Gone? && e.pid == rootPid then e.status else old(rootExit)
    {
      match e
      case SyscallStop(pid, regs) =>
        Stopped(pid, regs);
      case ChildEvent(pid, child) =>
        Register(pid);
        Register(child);
      case OtherStop(pid) =>
        Register(pid);
      case Gone(pid, status) =>
        Reap(pid, status);
    }

    /** The first `n` events have been processed. */
    ghost predicate Processed(start: Table, before: seq<Line>, events: seq<Event>, n: nat, m: Table, lines: seq<Line>)
      requires n <= |events|
    {
      && m == Tables(start, events[..n], captureReads)
      && lines == before + Lines(start, events[..n], captureReads)
    }

    lemma ProcessedStep(start: Table, before: seq<Line>, events: seq<Event>, n: nat, m: Table, lines: seq<Line>)
      requires n < |events| && Processed(start, before, events, n, m, lines)
      ensures Processed(start, before, events, n + 1, StepTable(m, events[n], captureReads), lines + StepLines(m, events[n]))
    {
      TablesStep(start, events, n, captureReads, before);
    }

    lemma NothingProcessed(events: seq<Event>, start: Table, before: seq<Line>)
      ensures Processed(start, before, events, 0, start, before)
    {
    }

    method Advance(events: seq<Event>, n: nat, ghost start: Table, ghost before: seq<Line>)
      requires n < |events| && Valid() && Processed(start, before, events, n, table, trace)
      modifies this`states, this`trace, this`rootExit, this`table, states.Values
      ensures Valid() && fresh(states.Values - old(states.Values))
      ensures Processed(start, before, events, n + 1, table, trace)
    {
      ProcessedStep(start, before, events, n, table, trace);
      Step(events[n]);
    }

    /** Events are processed in order until no tracee is left. */
    method Drain(events: seq<Event>, ghost start: Table, ghost before: seq<Line>) returns (n: nat)
      requires Valid() && Processed(start, before, events, 0, table, trace)
      modifies this`states, this`trace, this`rootExit, this`table, states.Values
      ensures Valid() && n <= |events| && (n < |events| ==> states == map[])
      ensures Processed(start, before, events, n, table, trace)
    {
      hide Processed, Valid;
      n := 0;
      while n < |events| && states != map[]
        invariant n <= |events| && Valid() && fresh(states.Values - old(states.Values))
        invariant Processed(start, before, events, n, table, trace)
      {
        Advance(events, n, start, before);
        n := n + 1;
      }
    }

    /** The loop itself: it stops when no tracee is left (or Wait4 has nothing more to report). */
    method Run(events: seq<Event>) returns (n: nat)
      requires Valid()
      modifies this`states, this`trace, this`rootExit, this`table, states.Values
      ensures Valid() && n <= |events| && (n < |events| ==> states == map[])
      ensures table == Tables(old(table), events[..n], captureReads)
      ensures trace == old(trace) + Lines(old(table), events[..n], captureReads)
    {
      NothingProcessed(events, table, trace);
      n := Drain(events, table, trace);
    }
  }

  // ------------------------------------------------------------- one tracee at a time

  /** What happens to one tracee, in its own order. */
  datatype Own = Stop(regs: Regs) | End

  /** How one event adds to a tracee's own stops. */
  function OwnStep(own: seq<Own>, e: Event, pid: int): seq<Own> {
    match e
    case SyscallStop(p, regs) => if p == pid then own + [Stop(regs)] else own
    case Gone(p, _) => if p == pid then own + [End] else own
    case _ => own
  }

  function OwnStops(events: seq<Event>, pid: int): seq<Own> {
    if events == [] then []
    else
      var before := OwnStops(events[..|events| - 1], pid);
      OwnStep(before, events[|events| - 1], pid)
  }

  function LinesOf(lines: seq<Line>, pid: int): seq<Line> {
    if lines == [] then []
    else
      var before := LinesOf(lines[..|lines| - 1], pid);
      if lines[|lines| - 1].pid == pid then before + [lines[|lines| - 1]] else before
  }

  lemma {:induction false} LinesOfAppend(a: seq<Line>, b: seq<Line>, pid: int)
    ensures LinesOf(a + b, pid) == LinesOf(a, pid) + LinesOf(b, pid)
  {
    if b == [] {
      assert a + b == a;
    } else {
      LinesOfAppend(a, b[..|b| - 1], pid);
      assert (a + b)[..|a + b| - 1] == a + b[..|b| - 1];
    }
  }

  /** One tracee's state after its own stops, and what they wrote. */
  function OwnView(v: View, own: seq<Own>, captureReads: bool): View {
    if own == [] then v
    else
      match own[|own| - 1]
      case Stop(regs) => Handle(OwnView(v, own[..|own| - 1], captureReads), regs, captureReads)
      case End => FRESH
  }

  function OwnLine(pid: int, v: View, o: Own): seq<Line> {
    match o
    case Stop(regs) => Written(pid, v, regs)
    case End => []
  }

  function OwnLines(pid: int, v: View, own: seq<Own>, captureReads: bool): seq<Line> {
    if own == [] then []
    else
      var init := own[..|own| - 1];
      OwnLines(pid, v, init, captureReads) + OwnLine(pid, OwnView(v, init, captureReads), own[|own| - 1])
  }

  lemma OneStepView(m: Table, e: Event, pid: int, v: View, own: seq<Own>, captureReads: bool)
    requires Entry(m, pid) == OwnView(v, own, captureReads)
    ensures Entry(StepTable(m, e, captureReads), pid) == OwnView(v, OwnStep(own, e, pid), captureReads)
  {
    match e
    case SyscallStop(p, regs) => Cut(own, [Stop(regs)]);
    case Gone(p, _) => Cut(own, [End]);
    case _ =>
  }

  lemma OwnMore(pid: int, v: View, own: seq<Own>, o: Own, captureReads: bool)
    ensures OwnLines(pid, v, own + [o], captureReads)
      == OwnLines(pid, v, own, captureReads) + OwnLine(pid, OwnView(v, own, captureReads), o)
  {
    Cut(own, [o]);
  }

  lemma StepLinesOwner(m: Table, e: Event)
    ensures forall l | l in StepLines(m, e) :: l.pid == e.pid
  {
  }

  lemma {:induction false} OneWriter(lines: seq<Line>, writer: int, pid: int)
    requires forall l | l in lines :: l.pid == writer
    ensures LinesOf(lines, pid) == if pid == writer then lines else []
  {
    if lines != [] {
      OneWriter(lines[..|lines| - 1], writer, pid);
      assert lines == lines[..|lines| - 1] + [lines[|lines| - 1]];
    }
  }

  lemma OneStepLines(m: Table, e: Event, pid: int, v: View, own: seq<Own>, captureReads: bool)
    requires Entry(m, pid) == OwnView(v, own, captureReads)
    ensures OwnLines(pid, v, own, captureReads) + LinesOf(StepLines(m, e), pid)
      == OwnLines(pid, v, OwnStep(own, e, pid), captureReads)
  {
    hide Written, Handle;
    var lines := OwnLines(pid, v, own, captureReads);
    StepLinesOwner(m, e);
    OneWriter(StepLines(m, e), e.pid, pid);
    if e.SyscallStop? && e.pid == pid {
      OwnMore(pid, v, own, Stop(e.regs), captureReads);
      assert LinesOf(StepLines(m, e), pid) == OwnLine(pid, OwnView(v, own, captureReads), Stop(e.regs));
    } else {
      assert LinesOf(StepLines(m, e), pid) == [] && lines + [] == lines;
      if e.Gone? && e.pid == pid {
        OwnMore(pid, v, own, End, captureReads);
      }
    }
  }

  lemma OneStep(m: Table, e: Event, pid: int, v: View, own: seq<Own>, captureReads: bool)
    requires Entry(m, pid) == OwnView(v, own, captureReads)
    ensures Entry(StepTable(m, e, captureReads), pid) == OwnView(v, OwnStep(own, e, pid), captureReads)
    ensures OwnLines(pid, v, own, captureReads) + LinesOf(StepLines(m, e), pid)
      == OwnLines(pid, v, OwnStep(own, e, pid), captureReads)
  {
    OneStepView(m, e, pid, v, own, captureReads);
    OneStepLines(m, e, pid, v, own, captureReads);
  }

  /** Interleaving does not matter: a tracee's state and lines are functions of its own stops. */
  lemma {:induction false} InterleavingIrrelevant(m: Table, events: seq<Event>, pid: int, captureReads: bool)
    ensures Entry(Tables(m, events, captureReads), pid) == OwnView(Entry(m, pid), OwnStops(events, pid), captureReads)
    ensures LinesOf(Lines(m, events, captureReads), pid) == OwnLines(pid, Entry(m, pid), OwnStops(events, pid), captureReads)
  {
    if events != [] {
      var init, e := events[..|events| - 1], events[|events| - 1];
      InterleavingIrrelevant(m, init, pid, captureReads);
      LinesOfAppend(Lines(m, init, captureReads), StepLines(Tables(m, init, captureReads), e), pid);
      OneStep(Tables(m, init, captureReads), e, pid, Entry(m, pid), OwnStops(init, pid), captureReads);
    }
  }

  /** In particular fork events never matter, in whichever order they and the child's stops arrive. */
  lemma {:induction false} SameStopsSameLines(m: Table, a: seq<Event>, b: seq<Event>, pid: int, captureReads: bool)
    requires OwnStops(a, pid) == OwnStops(b, pid)
    ensures LinesOf(Lines(m, a, captureReads), pid) == LinesOf(Lines(m, b, captureReads), pid)
  {
    InterleavingIrrelevant(m, a, pid, captureReads);
    InterleavingIrrelevant(m, b, pid, captureReads);
  }

  // ------------------------------------------------------------- what the lines are

  /** A syscall of one tracee, entered and left, or the tracee's end, which may cut a syscall short. */
  datatype Round = Call(enter: Regs, exit: Regs) | Ended

  /** Stops come in enter/exit pairs; an enter at the very end has no exit yet. */
  function Rounds(own: seq<Own>): seq<Round> {
    if own == [] then []
    else if own[0].End? then [Ended] + Rounds(own[1..])
    else if |own| == 1 then []
    else (if own[1].End? then [Ended] else [Call(own[0].regs, own[1].regs)]) + Rounds(own[2..])
  }

  predicate CapturesExec(e: Regs) {
    e.Readable? && e.nr == SYS_EXECVE
  }

  predicate CapturesOpen(e: Regs, captureReads: bool) {
    e.Readable? && e.nr == SYS_OPENAT && captureReads
  }

  /** The line owed for one syscall, from its own enter and exit. */
  function Owed(pid: int, r: Round, captureReads: bool): seq<Line> {
    if r.Ended? || r.exit.Unreadable? then []
    else if CapturesExec(r.enter) && r.enter.path != "" && Signed(r.exit.rax) == 0
      then [ExecLine(pid, r.enter.cwd, r.enter.path, r.enter.argv)]
    else if CapturesOpen(r.enter, captureReads) && Signed(r.exit.rax) >= 0 && r.enter.flags % 4 == 0
      then [OpenLine(pid, r.enter.openPath, r.enter.flags, Signed(r.exit.rax))]
    else []
  }

  function AllOwed(pid: int, rounds: seq<Round>, captureReads: bool): seq<Line> {
    if rounds == [] then [] else Owed(pid, rounds[0], captureReads) + AllOwed(pid, rounds[1..], captureReads)
  }

  /** The lines owed for a tracee's stops. */
  function Paired(pid: int, own: seq<Own>, captureReads: bool): seq<Line> {
    AllOwed(pid, Rounds(own), captureReads)
  }

  /** A syscall that the kernel failed, whatever it was: no line is owed. */
  lemma FailureOwesNothing(pid: int, enter: Regs, exit: Regs, errno: int, captureReads: bool)
    requires 0 < errno < TWO_63 && exit.Readable? && exit.rax == TWO_64 - errno
    ensures Owed(pid, Call(enter, exit), captureReads) == []
  {
    SignedReads(-errno);
  }

  /** An execve (59 on this architecture) that returned zero: its line is owed. */
  lemma SuccessOwesExec(pid: int, enter: Regs, exit: Regs, captureReads: bool)
    requires enter.Readable? && enter.nr == 59 && enter.path != "" && exit.Readable? && exit.rax == 0
    ensures Owed(pid, Call(enter, exit), captureReads) == [ExecLine(pid, enter.cwd, enter.path, enter.argv)]
  {
    SignedReads(0);
  }

  /** A read-only openat (257) that returned a descriptor: its line is owed, with that descriptor. */
  lemma SuccessOwesOpen(pid: int, enter: Regs, exit: Regs)
    requires enter.Readable? && enter.nr == 257 && enter.flags % 4 == 0
    requires exit.Readable? && exit.rax < TWO_63
    ensures Owed(pid, Call(enter, exit), true) == [OpenLine(pid, enter.openPath, enter.flags, exit.rax)]
  {
    SignedReads(exit.rax);
  }

  // ------------------------------------------------------------- stale captures

  /** An exec capture left over from before these rounds is printed in one of them: not cleared, not overwritten. */
  predicate StaleExecPrinted(rounds: seq<Round>) {
    rounds != [] && rounds[0].Call? && !CapturesExec(rounds[0].enter)
    && if rounds[0].exit.Readable? then Signed(rounds[0].exit.rax) == 0 else StaleExecPrinted(rounds[1..])
  }

  predicate StaleOpenPrinted(rounds: seq<Round>, flags: nat, captureReads: bool) {
    rounds != [] && rounds[0].Call? && !CapturesOpen(rounds[0].enter, captureReads)
    && if rounds[0].exit.Readable? then Signed(rounds[0].exit.rax) >= 0 && flags % 4 == 0
       else StaleOpenPrinted(rounds[1..], flags, captureReads)
  }

  /** The exit of round `i` is lost, and what the round captured is later printed as another syscall's. */
  predicate Misreported(rounds: seq<Round>, i: nat, captureReads: bool) {
    && i < |rounds| && rounds[i].Call? && rounds[i].exit.Unreadable?
    && var e := rounds[i].enter;
       || (CapturesExec(e) && e.path != "" && StaleExecPrinted(rounds[i + 1..]))
       || (CapturesOpen(e, captureReads) && StaleOpenPrinted(rounds[i + 1..], e.flags, captureReads))
  }

  ghost predicate SomeMisreported(rounds: seq<Round>, captureReads: bool) {
    exists i :: Misreported(rounds, i, captureReads)
  }

  /** A capture of the given state is stale, and printed in these rounds. */
  predicate Carried(v: View, rounds: seq<Round>, captureReads: bool) {
    || (v.execPath != "" && StaleExecPrinted(rounds))
    || (v.openCaptured && StaleOpenPrinted(rounds, v.openFlags, captureReads))
  }

  function AfterRound(v: View, r: Round, captureReads: bool): View {
    if r.Ended? then FRESH else Handle(Handle(v, r.enter, captureReads), r.exit, captureReads)
  }

  function RoundLines(pid: int, v: View, r: Round, captureReads: bool): seq<Line> {
    if r.Ended? then [] else Written(pid, Handle(v, r.enter, captureReads), r.exit)
  }

  function AllRoundLines(pid: int, v: View, rounds: seq<Round>, captureReads: bool): seq<Line>
    decreases rounds
  {
    if rounds == [] then []
    else
      RoundLines(pid, v, rounds[0], captureReads)
      + AllRoundLines(pid, AfterRound(v, rounds[0], captureReads), rounds[1..], captureReads)
  }

  /** A stale capture is printed in this very round. */
  predicate StaleNow(v: View, r: Round, captureReads: bool) {
    && r.Call? && r.exit.Readable?
    && (|| (v.execPath != "" && !CapturesExec(r.enter) && Signed(r.exit.rax) == 0)
        || (v.openCaptured && !CapturesOpen(r.enter, captureReads) && Signed(r.exit.rax) >= 0 && v.openFlags % 4 == 0))
  }

  /** One round writes what it owes, and more exactly when a stale capture is printed. */
  lemma RoundOwes(pid: int, v: View, r: Round, captureReads: bool)
    requires v.atEnter
    ensures AfterRound(v, r, captureReads).atEnter
    ensures var lines, owed := RoundLines(pid, v, r, captureReads), Owed(pid, r, captureReads);
      if StaleNow(v, r, captureReads) then |lines| > |owed| else lines == owed
  {
  }

  /** Where a stale capture goes in one round: printed, or carried on. */
  lemma CarriedStep(v: View, rounds: seq<Round>, captureReads: bool)
    requires v.atEnter && rounds != []
    ensures var v' := AfterRound(v, rounds[0], captureReads);
      Carried(v, rounds, captureReads) || Misreported(rounds, 0, captureReads)
      <==> StaleNow(v, rounds[0], captureReads) || Carried(v', rounds[1..], captureReads)
  {
  }

  lemma MisreportedLater(rounds: seq<Round>, i: nat, captureReads: bool)
    requires rounds != []
    ensures Misreported(rounds, i + 1, captureReads) <==> Misreported(rounds[1..], i, captureReads)
  {
    if i + 1 < |rounds| {
      DropDrop(rounds, 1, i + 1);
    }
  }

  lemma MisreportedStep(rounds: seq<Round>, captureReads: bool)
    requires rounds != []
    ensures SomeMisreported(rounds, captureReads)
      <==> Misreported(rounds, 0, captureReads) || SomeMisreported(rounds[1..], captureReads)
  {
    if i: nat :| Misreported(rounds, i, captureReads) && i > 0 {
      MisreportedLater(rounds, i - 1, captureReads);
    }
    if i: nat :| Misreported(rounds[1..], i, captureReads) {
      MisreportedLater(rounds, i, captureReads);
    }
  }

  lemma SameStart(a: seq<Line>, x: seq<Line>, b: seq<Line>, y: seq<Line>)
    requires |x| >= |y| && (a == b || |a| > |b|)
    ensures a + x == b + y <==> a == b && x == y
  {
    if a == b {
      Cut(a, x);
      Cut(a, y);
    } else {
      assert |a + x| > |b + y|;
    }
  }

  /** The lines of a tracee hold at least what is owed, and nothing else exactly when no stale capture is printed. */
  lemma {:induction false} RoundsExact(pid: int, v: View, rounds: seq<Round>, captureReads: bool)
    requires v.atEnter
    ensures |AllRoundLines(pid, v, rounds, captureReads)| >= |AllOwed(pid, rounds, captureReads)|
    ensures AllRoundLines(pid, v, rounds, captureReads) == AllOwed(pid, rounds, captureReads)
      <==> !Carried(v, rounds, captureReads) && !SomeMisreported(rounds, captureReads)
    decreases rounds
  {
    if rounds != [] {
      var v' := AfterRound(v, rounds[0], captureReads);
      RoundOwes(pid, v, rounds[0], captureReads);
      CarriedStep(v, rounds, captureReads);
      MisreportedStep(rounds, captureReads);
      RoundsExact(pid, v', rounds[1..], captureReads);
      SameStart(RoundLines(pid, v, rounds[0], captureReads), AllRoundLines(pid, v', rounds[1..], captureReads),
                Owed(pid, rounds[0], captureReads), AllOwed(pid, rounds[1..], captureReads));
    }
  }

  lemma {:induction false} OwnSplit(pid: int, v: View, a: seq<Own>, b: seq<Own>, captureReads: bool)
    ensures OwnView(v, a + b, captureReads) == OwnView(OwnView(v, a, captureReads), b, captureReads)
    ensures OwnLines(pid, v, a + b, captureReads)
      == OwnLines(pid, v, a, captureReads) + OwnLines(pid, OwnView(v, a, captureReads), b, captureReads)
  {
    if b == [] {
      assert a + b == a;
      assert OwnLines(pid, v, a, captureReads) + [] == OwnLines(pid, v, a, captureReads);
    } else {
      var init := b[..|b| - 1];
      InitAppend(a, b);
      OwnSplit(pid, v, a, init, captureReads);
      var va := OwnView(v, a, captureReads);
      Assoc(OwnLines(pid, v, a, captureReads), OwnLines(pid, va, init, captureReads),
            OwnLine(pid, OwnView(va, init, captureReads), b[|b| - 1]));
    }
  }

  lemma FirstOf(pid: int, v: View, own: seq<Own>, captureReads: bool)
    requires own != [] && v.atEnter
    ensures own == own[..1] + own[1..]
    ensures OwnLines(pid, v, own[..1], captureReads) == []
    ensures own[0].End? ==> OwnView(v, own[..1], captureReads) == FRESH
  {
    assert own[..1] == [own[0]] && own[..1][..0] == [];
  }

  lemma PairOf(pid: int, v: View, own: seq<Own>, captureReads: bool)
    requires |own| >= 2 && v.atEnter && own[0].Stop?
    ensures own == own[..2] + own[2..]
    ensures var r := if own[1].End? then Ended else Call(own[0].regs, own[1].regs);
      && OwnView(v, own[..2], captureReads) == AfterRound(v, r, captureReads)
      && OwnLines(pid, v, own[..2], captureReads) == RoundLines(pid, v, r, captureReads)
  {
    assert own[..2][..1] == [own[0]] && own[..1][..0] == [];
    assert own[..2][1] == own[1];
    assert OwnView(v, [own[0]], captureReads) == Handle(v, own[0].regs, captureReads);
    assert OwnLines(pid, v, [own[0]], captureReads) == [];
  }

  lemma FirstRound(pid: int, v: View, r: Round, rest: seq<Round>, captureReads: bool)
    ensures AllRoundLines(pid, v, [r] + rest, captureReads)
      == RoundLines(pid, v, r, captureReads) + AllRoundLines(pid, AfterRound(v, r, captureReads), rest, captureReads)
  {
    assert ([r] + rest)[1..] == rest;
  }

  /** The stop machine goes round by round. */
  lemma {:induction false} OwnByRounds(pid: int, v: View, own: seq<Own>, captureReads: bool)
    requires v.atEnter
    ensures OwnLines(pid, v, own, captureReads) == AllRoundLines(pid, v, Rounds(own), captureReads)
    decreases |own|
  {
    if own == [] {
    } else if own[0].End? || |own| == 1 {
      FirstOf(pid, v, own, captureReads);
      OwnSplit(pid, v, own[..1], own[1..], captureReads);
      if own[0].End? {
        OwnByRounds(pid, FRESH, own[1..], captureReads);
        FirstRound(pid, v, Ended, Rounds(own[1..]), captureReads);
      }
    } else {
      var r := if own[1].End? then Ended else Call(own[0].regs, own[1].regs);
      PairOf(pid, v, own, captureReads);
      OwnSplit(pid, v, own[..2], own[2..], captureReads);
      RoundOwes(pid, v, r, captureReads);
      OwnByRounds(pid, AfterRound(v, r, captureReads), own[2..], captureReads);
      FirstRound(pid, v, r, Rounds(own[2..]), captureReads);
    }
  }

  /** A state with nothing pending: whatever else is stale is never printed. */
  predicate Rested(v: View) {
    v.atEnter && v.execPath == "" && !v.openCaptured
  }

  /** Main result: from rest, a tracee's lines are the lines owed for its syscalls, unless a lost exit is misreported. */
  lemma LinesAreOwed(pid: int, v: View, own: seq<Own>, captureReads: bool)
    requires Rested(v)
    ensures OwnLines(pid, v, own, captureReads) == Paired(pid, own, captureReads)
      <==> !SomeMisreported(Rounds(own), captureReads)
  {
    OwnByRounds(pid, v, own, captureReads);
    RoundsExact(pid, v, Rounds(own), captureReads);
  }

  /** The theorem over whole runs: any interleaving, any tracee. */
  lemma TraceIsExact(events: seq<Event>, rootPid: int, pid: int, captureReads: bool)
    ensures LinesOf(Lines(map[rootPid := FRESH], events, captureReads), pid)
      == Paired(pid, OwnStops(events, pid), captureReads)
      <==> !SomeMisreported(Rounds(OwnStops(events, pid)), captureReads)
  {
    InterleavingIrrelevant(map[rootPid := FRESH], events, pid, captureReads);
    LinesAreOwed(pid, FRESH, OwnStops(events, pid), captureReads);
  }

  /** A guard on single syscalls: no exit is lost after an enter that captured something. */
  ghost predicate NoCaptureLost(rounds: seq<Round>, captureReads: bool) {
    forall r | r in rounds && r.Call? && r.exit.Unreadable? ::
      !CapturesExec(r.enter) && !CapturesOpen(r.enter, captureReads)
  }

  /** Under the guard the trace is exact; unreadable enters and other lost exits do no harm. */
  lemma GuardedTraceIsExact(events: seq<Event>, rootPid: int, pid: int, captureReads: bool)
    requires NoCaptureLost(Rounds(OwnStops(events, pid)), captureReads)
    ensures LinesOf(Lines(map[rootPid := FRESH], events, captureReads), pid)
      == Paired(pid, OwnStops(events, pid), captureReads)
  {
    TraceIsExact(events, rootPid, pid, captureReads);
    var rounds := Rounds(OwnStops(events, pid));
    forall i: nat
      ensures !Misreported(rounds, i, captureReads)
    {
      if i < |rounds| {
        assert rounds[i] in rounds;
      }
    }
  }

  lemma TwoRounds(a: Regs, b: Regs, c: Regs, d: Regs)
    ensures Rounds([Stop(a), Stop(b), Stop(c), Stop(d)]) == [Call(a, b), Call(c, d)]
  {
    var own := [Stop(a), Stop(b), Stop(c), Stop(d)];
    assert own[2..] == [Stop(c), Stop(d)] && own[2..][2..] == [];
    assert Rounds(own[2..]) == [Call(c, d)] + Rounds([]);
  }

  /** An execve without a readable exit, and another syscall after it. */
  lemma LostThenNext(pid: int, enter: Regs, next: Regs)
    requires CapturesExec(enter) && enter.path != "" && next.Readable? && !CapturesExec(next) && Signed(next.rax) == 0
    ensures var rounds := [Call(enter, Unreadable), Call(next, next)];
      && AllRoundLines(pid, FRESH, rounds, false) == [ExecLine(pid, enter.cwd, enter.path, enter.argv)]
      && AllOwed(pid, rounds, false) == []
  {
    var lost, call := Call(enter, Unreadable), Call(next, next);
    var v := AfterRound(FRESH, lost, false);
    FirstRound(pid, FRESH, lost, [call], false);
    FirstRound(pid, v, call, [], false);
    assert [lost, call] == [lost] + [call] && [call] == [call] + [];
    assert [lost, call][1..] == [call] && [call][1..] == [];
    assert RoundLines(pid, v, call, false) == [ExecLine(pid, enter.cwd, enter.path, enter.argv)];
    assert AllOwed(pid, [call], false) == [];
  }

  /**
   A lost exit that is misreported: the registers at an execve's exit cannot be read, and the next
   successful syscall is reported as that execve.
   */
  lemma StaleCaptureAfterUnreadableExit(pid: int, path: string, argv: seq<string>, cwd: string)
    requires path != ""
    ensures var enter := Readable(SYS_EXECVE, 0, path, argv, cwd, "", 0);
      var getpid := Readable(39, 0, "", [], "", "", 0);
      var own := [Stop(enter), Stop(Unreadable), Stop(getpid), Stop(getpid)];
      OwnLines(pid, FRESH, own, false) == [ExecLine(pid, cwd, path, argv)] && Paired(pid, own, false) == []
  {
    var enter := Readable(SYS_EXECVE, 0, path, argv, cwd, "", 0);
    var getpid := Readable(39, 0, "", [], "", "", 0);
    TwoRounds(enter, Unreadable, getpid, getpid);
    OwnByRounds(pid, FRESH, [Stop(enter), Stop(Unreadable), Stop(getpid), Stop(getpid)], false);
    LostThenNext(pid, enter, getpid);
  }
}
