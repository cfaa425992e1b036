/** The transfers that are noted for the files: what the logs hold, and when they follow one another. */
module FdNotes {
  import opened Options
  import opened FdMaps
  import opened FdMachine
  import opened FdInvariant
  import opened FdSafety
  import opened FdPaths
  import opened FdPositions
  import opened FdTransfers

  /** A transfer noted for a file: through which record, whether at a given offset, and what is appended. */
  datatype Noted = Noted(record: Addr, write: bool, positioned: bool, name: string, op: RwOp)

  function LogAt(log: map<string, seq<RwOp>>, name: string): seq<RwOp> {
    if name in log then log[name] else []
  }

  /** The log of a file: of its writes, or of its reads. */
  function LogOf(s: State, write: bool, name: string): seq<RwOp> {
    LogAt(if write then s.writeLog else s.readLog, name)
  }

  /** What a record of the trace adds to the logs: one transfer if it goes through and did not fail. */
  function NotesOf(env: Env, s: State, op: Op): seq<Noted> {
    if !(op.Read? || op.Write? || op.Pread? || op.Pwrite?) || op.retval == -1 then []
    else
      match Resolve(env, s, op.pid, op.fd)
      case Abort(_) => []
      case Ok((s1, e)) =>
        if e.None? || e.value.1 !in s1.maps || !Supported(s1.maps[e.value.1].ftype) then []
        else
          var m := s1.maps[e.value.1];
          var at := if op.Pread? || op.Pwrite? then op.offset else m.curPos;
          [Noted(e.value.1, op.Write? || op.Pwrite?, op.Pread? || op.Pwrite?, m.name, RwOp(at, op.retval))]
  }

  /** The transfers noted for one file, in their order. */
  function Select(notes: seq<Noted>, write: bool, name: string): seq<RwOp> {
    if notes == [] then []
    else
      (if notes[0].write == write && notes[0].name == name then [notes[0].op] else [])
      + Select(notes[1..], write, name)
  }

  lemma {:induction false} SelectSplit(xs: seq<Noted>, ys: seq<Noted>, write: bool, name: string)
    ensures Select(xs + ys, write, name) == Select(xs, write, name) + Select(ys, write, name)
    decreases |xs|
  {
    if xs == [] {
      assert xs + ys == ys;
    } else {
      assert (xs + ys)[1..] == xs[1..] + ys;
      SelectSplit(xs[1..], ys, write, name);
    }
  }

  // ---------- one step ----------

  predicate SameLogs(s: State, s': State) {
    s'.readLog == s.readLog && s'.writeLog == s.writeLog
  }

  lemma GetTableLogs(env: Env, s: State, pid: int)
    ensures GetTable(env, s, pid).Ok? ==> SameLogs(s, GetTable(env, s, pid).value.0)
  {
    hide CopyTable;
  }

  lemma GetEntryLogs(env: Env, s: State, pid: int, t: int, fd: int)
    ensures GetEntry(env, s, pid, t, fd).Ok? ==> SameLogs(s, GetEntry(env, s, pid, t, fd).value.0)
  {
    GetTableLogs(env, s, pid);
    hide GetTable, Bump, OnlyParent;
  }

  lemma ResolveLogs(env: Env, s: State, pid: int, fd: int)
    ensures Resolve(env, s, pid, fd).Ok? ==> SameLogs(s, Resolve(env, s, pid, fd).value.0)
  {
    hide GetTable, GetEntry;
    GetTableLogs(env, s, pid);
    if GetTable(env, s, pid).Ok? && GetTable(env, s, pid).value.1.Some? {
      var (s1, t) := GetTable(env, s, pid).value;
      GetEntryLogs(env, s1, pid, t.value, fd);
    }
  }

  lemma CloseLogs(env: Env, s: State, pid: int, fd: int)
    ensures CloseSpec(env, s, pid, fd).Ok? ==> SameLogs(s, CloseSpec(env, s, pid, fd).value)
  {
    ResolveLogs(env, s, pid, fd);
    hide Resolve;
  }

  lemma DupLogs(env: Env, s: State, pid: int, oldFd: int, newFd: int)
    ensures DupSpec(env, s, pid, oldFd, newFd).Ok? ==> SameLogs(s, DupSpec(env, s, pid, oldFd, newFd).value)
  {
    ResolveLogs(env, s, pid, oldFd);
    if Resolve(env, s, pid, oldFd).Ok? {
      CloseLogs(env, Resolve(env, s, pid, oldFd).value.0, pid, newFd);
    }
    hide Resolve, CloseSpec;
  }

  lemma SeekLogs(env: Env, s: State, pid: int, fd: int, result: int)
    ensures SeekSpec(env, s, pid, fd, result).Ok? ==> SameLogs(s, SeekSpec(env, s, pid, fd, result).value)
  {
    ResolveLogs(env, s, pid, fd);
    hide Resolve;
  }

  lemma OpenLogs(env: Env, s: State, op: Op)
    requires op.Open? || op.Socket? || op.Pipe?
    ensures Step(env, s, op).Ok? ==> SameLogs(s, Step(env, s, op).value)
  {
    GetTableLogs(env, s, op.pid);
    hide GetTable, Bump, OnlyParent;
  }

  lemma CloneLogs(s: State, from: int, child: int, files: bool)
    ensures CloneSpec(s, from, child, files).Ok? ==> SameLogs(s, CloneSpec(s, from, child, files).value)
  {
    hide CopiedTable, CopiedRecords, CopiedUsage, AllLive;
  }

  lemma NoteAppends(log: map<string, seq<RwOp>>, name: string, op: RwOp, other: string)
    ensures LogAt(Note(log, name, op), other) == LogAt(log, other) + if other == name then [op] else []
  {
  }

  lemma SelectOne(n: Noted, write: bool, name: string)
    ensures Select([n], write, name) == if n.write == write && n.name == name then [n.op] else []
    ensures Select([], write, name) == []
  {
    assert [n][1..] == [];
  }

  /** A transfer through a supported record notes itself, unless it failed. */
  lemma TransferLogs(s: State, a: Addr, isWrite: bool, at: Option<int>, retval: int, write: bool, name: string)
    requires Transfer(s, a, isWrite, at, retval).Ok?
    ensures a in s.maps
    ensures LogOf(Transfer(s, a, isWrite, at, retval).value, write, name) == LogOf(s, write, name) +
      if Supported(s.maps[a].ftype) && retval != -1 && write == isWrite && name == s.maps[a].name
      then [RwOp(if at.Some? then at.value else s.maps[a].curPos, retval)] else []
  {
    var op := RwOp(if at.Some? then at.value else s.maps[a].curPos, retval);
    NoteAppends(s.readLog, s.maps[a].name, op, name);
    NoteAppends(s.writeLog, s.maps[a].name, op, name);
    hide Note;
  }

  function TransferOp(pid: int, fd: int, isWrite: bool, at: Option<int>, retval: int): Op {
    match at
    case None => if isWrite then Write(pid, fd, retval) else Read(pid, fd, retval)
    case Some(offset) => if isWrite then Pwrite(pid, fd, offset, retval) else Pread(pid, fd, offset, retval)
  }

  lemma TransferNotes(env: Env, s: State, pid: int, fd: int, isWrite: bool, at: Option<int>, retval: int,
                      write: bool, name: string)
    requires TransferSpec(env, s, pid, fd, isWrite, at, retval).Ok?
    ensures LogOf(TransferSpec(env, s, pid, fd, isWrite, at, retval).value, write, name)
      == LogOf(s, write, name) + Select(NotesOf(env, s, TransferOp(pid, fd, isWrite, at, retval)), write, name)
  {
    var op := TransferOp(pid, fd, isWrite, at, retval);
    ResolveLogs(env, s, pid, fd);
    var notes := NotesOf(env, s, op);
    hide Resolve;
    var (s1, e) := Resolve(env, s, pid, fd).value;
    assert LogOf(s1, write, name) == LogOf(s, write, name);
    assert LogOf(s, write, name) + [] == LogOf(s, write, name);
    if e.Some? {
      TransferLogs(s1, e.value.1, isWrite, at, retval, write, name);
    }
    if notes != [] {
      SelectOne(notes[0], write, name);
      assert notes == [notes[0]];
    }
    hide Transfer, LogOf;
  }

  /** A step appends to the logs exactly the transfers it notes. */
  lemma StepNotes(env: Env, s: State, op: Op, write: bool, name: string)
    requires Step(env, s, op).Ok?
    ensures LogOf(Step(env, s, op).value, write, name)
      == LogOf(s, write, name) + Select(NotesOf(env, s, op), write, name)
  {
    if op.Read? || op.Write? || op.Pread? || op.Pwrite? {
      var isWrite, at := op.Write? || op.Pwrite?, if op.Pread? || op.Pwrite? then Some(op.offset) else None;
      TransferNotes(env, s, op.pid, op.fd, isWrite, at, op.retval, write, name);
    } else {
      assert LogOf(s, write, name) + [] == LogOf(s, write, name);
      if op.Close? {
        CloseLogs(env, s, op.pid, op.fd);
      } else if op.Dup? {
        DupLogs(env, s, op.pid, op.oldFd, op.newFd);
      } else if op.Seek? {
        SeekLogs(env, s, op.pid, op.fd, op.result);
      } else if op.Clone? {
        CloneLogs(s, op.pid, op.child, op.files);
      } else {
        OpenLogs(env, s, op);
      }
      hide OpenSpec, CloseSpec, DupSpec, CloneSpec, PipeSpec, SocketSpec, TransferSpec, SeekSpec;
    }
  }

  // ---------- whole runs ----------

  /** What a run adds to the logs. */
  function Notes(env: Env, s: State, ops: seq<Op>): seq<Noted>
    decreases |ops|
  {
    if ops == [] then []
    else
      NotesOf(env, s, ops[0]) +
      match Step(env, s, ops[0])
      case Abort(_) => []
      case Ok(s1) => Notes(env, s1, ops[1..])
  }

  lemma SelectNone(write: bool, name: string)
    ensures Select([], write, name) == []
  {
  }

  /** After every run, each log is what it was and then the transfers of the run noted for its file, in order. */
  lemma {:induction false} RunNotes(env: Env, s: State, ops: seq<Op>, write: bool, name: string)
    requires Run(env, s, ops).Ok?
    ensures LogOf(Run(env, s, ops).value, write, name)
      == LogOf(s, write, name) + Select(Notes(env, s, ops), write, name)
    decreases |ops|
  {
    hide Step, NotesOf, LogOf, Select;
    SelectNone(write, name);
    if ops == [] {
      assert LogOf(s, write, name) + [] == LogOf(s, write, name);
    } else {
      var s1 := Step(env, s, ops[0]).value;
      StepNotes(env, s, ops[0], write, name);
      RunNotes(env, s1, ops[1..], write, name);
      SelectSplit(NotesOf(env, s, ops[0]), Notes(env, s1, ops[1..]), write, name);
    }
  }

  /** The transfers noted through one record at its position. */
  function Streamed(notes: seq<Noted>, a: Addr): seq<RwOp> {
    if notes == [] then []
    else (if notes[0].record == a && !notes[0].positioned then [notes[0].op] else []) + Streamed(notes[1..], a)
  }

  /** The events that are noted: the transfers that did not fail. */
  function Succeeded(events: seq<Event>): seq<RwOp> {
    if events == [] then []
    else
      match events[0]
      case Moved(at, n) => (if n == -1 then [] else [RwOp(at, n)]) + Succeeded(events[1..])
      case Sought(_) => Succeeded(events[1..])
  }

  lemma {:induction false} StreamedSplit(xs: seq<Noted>, ys: seq<Noted>, a: Addr)
    ensures Streamed(xs + ys, a) == Streamed(xs, a) + Streamed(ys, a)
    decreases |xs|
  {
    if xs == [] {
      assert xs + ys == ys;
    } else {
      assert (xs + ys)[1..] == xs[1..] + ys;
      StreamedSplit(xs[1..], ys, a);
    }
  }

  lemma {:induction false} SucceededSplit(xs: seq<Event>, ys: seq<Event>)
    ensures Succeeded(xs + ys) == Succeeded(xs) + Succeeded(ys)
    decreases |xs|
  {
    if xs == [] {
      assert xs + ys == ys;
    } else {
      assert (xs + ys)[1..] == xs[1..] + ys;
      SucceededSplit(xs[1..], ys);
    }
  }

  lemma StepStreams(env: Env, s: State, op: Op, a: Addr)
    ensures Streamed(NotesOf(env, s, op), a) == Succeeded(EventsOf(env, s, op, a))
  {
    hide Resolve;
    var notes, events := NotesOf(env, s, op), EventsOf(env, s, op, a);
    assert notes != [] ==> notes[1..] == [];
    assert events != [] ==> events[1..] == [];
  }

  /** What a run notes through a record at its position are the events of its history that did not fail, in order. */
  lemma {:induction false} NotedIsHistory(env: Env, s: State, ops: seq<Op>, a: Addr)
    ensures Streamed(Notes(env, s, ops), a) == Succeeded(History(env, s, ops, a))
    decreases |ops|
  {
    hide Step, NotesOf, EventsOf;
    if ops != [] {
      StepStreams(env, s, ops[0], a);
      match Step(env, s, ops[0])
      case Abort(_) =>
        assert NotesOf(env, s, ops[0]) + [] == NotesOf(env, s, ops[0]);
        assert EventsOf(env, s, ops[0], a) + [] == EventsOf(env, s, ops[0], a);
      case Ok(s1) =>
        NotedIsHistory(env, s1, ops[1..], a);
        StreamedSplit(NotesOf(env, s, ops[0]), Notes(env, s1, ops[1..]), a);
        SucceededSplit(EventsOf(env, s, ops[0], a), History(env, s1, ops[1..], a));
    }
  }

  // ---------- when the noted transfers follow one another ----------

  /** Every transfer starts where the one before it ended. */
  predicate Chained(ops: seq<RwOp>) {
    forall i :: 0 <= i < |ops| - 1 ==> ops[i + 1].offset == End(ops[i])
  }

  predicate Failed(e: Event) {
    e.Moved? && e.n == -1
  }

  /** No failed transfer has others that did not fail before and after it. */
  predicate NoFailureBetween(events: seq<Event>)
    requires OnlyMoves(events)
  {
    forall i, j, k {:trigger events[i], events[j], events[k]} ::
      0 <= i < j < k < |events| && !Failed(events[i]) && Failed(events[j]) ==> Failed(events[k])
  }

  /** The failed transfers at the start. */
  function Failures(events: seq<Event>): (n: nat)
    ensures n <= |events| && (forall i :: 0 <= i < n ==> Failed(events[i])) && (n < |events| ==> !Failed(events[n]))
  {
    if events == [] || !Failed(events[0]) then 0
    else
      var n := Failures(events[1..]);
      assert forall i :: 1 <= i < n + 1 ==> events[i] == events[1..][i - 1];
      1 + n
  }

  lemma FirstEvent(pos: nat, events: seq<Event>)
    requires OnlyMoves(events) && Contiguous(pos, events) && events != []
    ensures events[0].Moved? && events[0].at == pos && OnlyMoves(events[1..])
    ensures Contiguous(Wrap64(pos + events[0].n), events[1..])
    ensures Succeeded(events) == (if Failed(events[0]) then [] else [RwOp(pos, events[0].n)]) + Succeeded(events[1..])
    ensures !Failed(events[0]) ==>
      && Succeeded(events) != [] && Succeeded(events)[1..] == Succeeded(events[1..])
      && End(Succeeded(events)[0]) == Wrap64(pos + events[0].n)
    ensures Failed(events[0]) ==> Succeeded(events) == Succeeded(events[1..])
  {
    assert events[0] in events;
  }

  /** The first noted transfer starts short of the position by the failures before it. */
  lemma {:induction false} FirstNoted(pos: nat, events: seq<Event>)
    requires OnlyMoves(events) && Contiguous(pos, events) && pos < TWO_TO_THE_64
    ensures Failures(events) == |events| <==> Succeeded(events) == []
    ensures Succeeded(events) != [] ==> Succeeded(events)[0].offset == Wrap64(pos - Failures(events))
    decreases |events|
  {
    if events != [] {
      hide Wrap64, Contiguous, OnlyMoves;
      FirstEvent(pos, events);
      if Failed(events[0]) {
        WrapInRange(pos - 1);
        FirstNoted(Wrap64(pos - 1), events[1..]);
        WrapTwice(pos - 1, 0 - Failures(events[1..]));
      } else {
        WrapSame(pos);
      }
    }
  }

  lemma WrapSame(x: nat)
    requires x < TWO_TO_THE_64
    ensures Wrap64(x) == x
  {
  }

  lemma WrapInRange(x: int)
    ensures Wrap64(x) < TWO_TO_THE_64
  {
  }

  lemma WrapDiffers(x: int, f: nat)
    requires f < TWO_TO_THE_64
    ensures Wrap64(Wrap64(x) - f) == Wrap64(x) <==> f == 0
  {
  }

  lemma NoFailureTail(events: seq<Event>)
    requires events != [] && OnlyMoves(events)
    ensures Failed(events[0]) ==> (NoFailureBetween(events) <==> NoFailureBetween(events[1..]))
    ensures !Failed(events[0]) ==>
      (NoFailureBetween(events) <==>
        NoFailureBetween(events[1..]) && (Failures(events[1..]) == 0 || Failures(events[1..]) == |events[1..]|))
  {
    assert forall i :: 0 <= i < |events| - 1 ==> events[1..][i] == events[i + 1];
    hide Failed;
    if NoFailureBetween(events) {
      TailHasNone(events);
    } else {
      TailHasOne(events);
    }
  }

  lemma TailHasNone(events: seq<Event>)
    requires events != [] && OnlyMoves(events) && NoFailureBetween(events)
    ensures NoFailureBetween(events[1..])
    ensures Failed(events[0]) || Failures(events[1..]) == 0 || Failures(events[1..]) == |events[1..]|
  {
    var more := events[1..];
    var f := Failures(more);
    assert forall i :: 0 <= i < |more| ==> more[i] == events[i + 1];
    hide Failed;
    forall i, j, k | 0 <= i < j < k < |more| && !Failed(more[i]) && Failed(more[j]) ensures Failed(more[k]) {
      assert !Failed(events[i + 1]) && Failed(events[j + 1]);
      assert Failed(events[k + 1]);
    }
    if 0 < f < |more| {
      assert Failed(more[0]) && !Failed(more[f]);
      assert Failed(events[1]) && !Failed(events[f + 1]);
    }
  }

  lemma TailHasOne(events: seq<Event>)
    requires events != [] && OnlyMoves(events) && !NoFailureBetween(events)
    ensures Failed(events[0]) || 0 < Failures(events[1..]) < |events[1..]| || !NoFailureBetween(events[1..])
    ensures Failed(events[0]) ==> !NoFailureBetween(events[1..])
  {
    var more := events[1..];
    var f := Failures(more);
    assert forall i :: 0 <= i < |more| ==> more[i] == events[i + 1];
    hide Failed;
    var i, j, k :| 0 <= i < j < k < |events| && !Failed(events[i]) && Failed(events[j]) && !Failed(events[k]);
    assert Failed(more[j - 1]) && !Failed(more[k - 1]);
    if i > 0 {
      assert !Failed(more[i - 1]);
    } else if f == 0 {
      assert !Failed(more[0]);
    }
  }

  /** Between seeks the noted transfers follow one another exactly when no failed one lies between two of them. */
  lemma {:induction false} ChainedExactly(pos: nat, events: seq<Event>)
    requires OnlyMoves(events) && Contiguous(pos, events) && pos < TWO_TO_THE_64 && |events| < TWO_TO_THE_64
    ensures Chained(Succeeded(events)) <==> NoFailureBetween(events)
    decreases |events|
  {
    if events == [] {
      NothingChained();
    } else {
      hide Chained, NoFailureBetween, Wrap64, Contiguous;
      var more := events[1..];
      var next := Wrap64(pos + events[0].n);
      WrapInRange(pos + events[0].n);
      FirstEvent(pos, events);
      NoFailureTail(events);
      ChainedExactly(next, more);
      FirstNoted(next, more);
      if !Failed(events[0]) {
        WrapDiffers(pos + events[0].n, Failures(more));
        ChainedTail(Succeeded(events), Succeeded(more));
        assert more == [] ==> Failures(more) == 0;
      }
    }
  }

  lemma NothingChained()
    ensures Chained([]) && OnlyMoves([]) && NoFailureBetween([])
  {
  }

  lemma ChainedTail(ops: seq<RwOp>, rest: seq<RwOp>)
    requires ops != [] && rest == ops[1..]
    ensures Chained(ops) <==> Chained(rest) && (rest != [] ==> rest[0].offset == End(ops[0]))
  {
    assert forall i :: 0 <= i < |rest| ==> rest[i] == ops[i + 1];
    if Chained(ops) {
      forall i | 0 <= i < |rest| - 1 ensures rest[i + 1].offset == End(rest[i]) {
        assert ops[(i + 1) + 1].offset == End(ops[i + 1]);
      }
      assert rest != [] ==> ops[0 + 1].offset == End(ops[0]);
    } else {
      var i :| 0 <= i < |ops| - 1 && ops[i + 1].offset != End(ops[i]);
      if i > 0 {
        assert rest[(i - 1) + 1].offset != End(rest[i - 1]);
      }
    }
  }

  lemma {:induction false} Segment(pos: nat, events: seq<Event>, i: nat, j: nat)
    requires Contiguous(pos, events) && i <= j <= |events|
    ensures Contiguous(After(pos, events[..i]), events[i..j])
  {
    assert events == events[..i] + events[i..];
    AfterSplit(pos, events[..i], events[i..]);
    assert events[i..] == events[i..j] + events[j..];
    AfterSplit(After(pos, events[..i]), events[i..j], events[j..]);
  }

  lemma {:induction false} AfterInRange(pos: nat, events: seq<Event>)
    requires pos < TWO_TO_THE_64 && forall e :: e in events && e.Sought? ==> e.to < TWO_TO_THE_64
    ensures After(pos, events) < TWO_TO_THE_64
    decreases |events|
  {
    if events != [] {
      AfterInRange(match events[0] case Moved(_, n) => Wrap64(pos + n) case Sought(to) => to, events[1..]);
    }
  }

  lemma {:induction false} HistoryInRange(env: Env, s: State, ops: seq<Op>, a: Addr)
    ensures forall e :: e in History(env, s, ops, a) && e.Sought? ==> e.to < TWO_TO_THE_64
    decreases |ops|
  {
    hide Step, Resolve;
    if ops != [] && Step(env, s, ops[0]).Ok? {
      HistoryInRange(env, Step(env, s, ops[0]).value, ops[1..], a);
    }
  }

  lemma EventIsLive(env: Env, s: State, op: Op, a: Addr)
    requires Inv(s) && s.openFd <= s.sockFd && a.gen < s.clock
    ensures EventsOf(env, s, op, a) != [] ==>
      && a in s.maps && Contiguous(s.maps[a].curPos, EventsOf(env, s, op, a))
      && (Step(env, s, op).Ok? ==> a in Step(env, s, op).value.maps)
  {
    var events := EventsOf(env, s, op, a);
    if events != [] {
      ResolvePosition(env, s, op.pid, op.fd, a);
      hide Inv, Resolve;
      assert events == [events[0]] && events[1..] == [];
    }
  }

  /** The history of a record is contiguous from its position on, until it is freed; a freed record has no history. */
  lemma {:induction false} HistoryIsContiguous(env: Env, s: State, ops: seq<Op>, a: Addr)
    requires Inv(s) && Stock(s, |ops|) && (forall op :: op in ops ==> Plausible(op)) && Guarded(env, s, ops)
    requires a.gen < s.clock
    ensures if a in s.maps then Contiguous(s.maps[a].curPos, History(env, s, ops, a)) else History(env, s, ops, a) == []
    decreases |ops|
  {
    hide Inv, Step, Faults, Breaks, EventsOf;
    if ops != [] {
      StepExact(env, s, ops[0]);
      StepEvents(env, s, ops[0], a);
      EventIsLive(env, s, ops[0], a);
      var s1 := Step(env, s, ops[0]).value;
      HistoryIsContiguous(env, s1, ops[1..], a);
      var e, h := EventsOf(env, s, ops[0], a), History(env, s1, ops[1..], a);
      assert History(env, s, ops, a) == e + h;
      if a in s.maps {
        AfterSplit(s.maps[a].curPos, e, h);
        if a !in s1.maps {
          assert h == [] && e + h == e;
        }
      }
    }
  }

  /**
   * Over every sound run, what is noted through a record are the events of its history that did not fail; between two
   * seeks they follow one another exactly when no failed transfer lies between two of them.
   */
  lemma NotedExactly(env: Env, s: State, ops: seq<Op>, a: Addr, i: nat, j: nat)
    requires Inv(s) && Stock(s, |ops|) && (forall op :: op in ops ==> Plausible(op)) && Guarded(env, s, ops)
    requires a in s.maps && s.maps[a].curPos < TWO_TO_THE_64
    requires i <= j <= |History(env, s, ops, a)| < TWO_TO_THE_64 && OnlyMoves(History(env, s, ops, a)[i..j])
    ensures Streamed(Notes(env, s, ops), a) == Succeeded(History(env, s, ops, a))
    ensures Chained(Succeeded(History(env, s, ops, a)[i..j])) <==> NoFailureBetween(History(env, s, ops, a)[i..j])
  {
    assert a.gen < s.clock by { assert Fresh(s); }
    NotedIsHistory(env, s, ops, a);
    HistoryIsContiguous(env, s, ops, a);
    HistoryInRange(env, s, ops, a);
    hide Inv, Guarded, Run, History, Notes;
    var h, pos := History(env, s, ops, a), s.maps[a].curPos;
    Segment(pos, h, i, j);
    AfterInRange(pos, h[..i]);
    ChainedExactly(After(pos, h[..i]), h[i..j]);
  }

  /** A failed read between two that succeed: the second is noted one byte before the end of the first. */
  lemma FailureOverlaps(pos: nat, n: nat, m: nat)
    requires 1 <= n && 1 <= m && pos + n + m < TWO_TO_THE_64
    ensures var events := [Moved(pos, n), Moved(pos + n, -1), Moved(pos + n - 1, m)];
      && Contiguous(pos, events) && !NoFailureBetween(events)
      && Succeeded(events) == [RwOp(pos, n), RwOp(pos + n - 1, m)]
      && pos <= pos + n - 1 < End(RwOp(pos, n))
  {
    var e0, e1, e2 := Moved(pos, n), Moved(pos + n, -1), Moved(pos + n - 1, m);
    var events := [e0, e1, e2];
    assert !Failed(events[0]) && Failed(events[1]) && !Failed(events[2]);
    assert events[1..] == [e1, e2] && [e1, e2][1..] == [e2] && [e2][1..] == [];
    assert Succeeded([e2]) == [RwOp(pos + n - 1, m)];
    assert Succeeded([e1, e2]) == Succeeded([e2]);
    assert Succeeded(events) == [RwOp(pos, n)] + Succeeded([e1, e2]);
    assert Contiguous(pos + n - 1, [e2]) && Contiguous(pos + n, [e1, e2]);
  }

  /** The entry of (pid, fd) and its record, open for transfers at pos. */
  ghost predicate OpenAs(s: State, pid: int, fd: int, a: Addr, pos: nat, name: string) {
    && HasTable(s, pid) && pid >= 0 && fd >= 0 && fd in TableAt(s, s.procs[pid].value)
    && TableAt(s, s.procs[pid].value)[fd] == a && a in s.maps && Supported(s.maps[a].ftype)
    && s.maps[a].curPos == pos && s.maps[a].name == name
  }

  lemma OneRead(env: Env, s: State, pid: int, fd: int, a: Addr, pos: nat, name: string, n: int)
    requires OpenAs(s, pid, fd, a, pos, name)
    ensures var r := Step(env, s, Read(pid, fd, n));
      && r.Ok? && OpenAs(r.value, pid, fd, a, Wrap64(pos + n), name)
      && LogOf(r.value, false, name) == LogOf(s, false, name) + if n == -1 then [] else [RwOp(pos, n)]
  {
    FoundEntry(env, s, pid, fd);
    TransferLogs(s, a, false, None, n, false, name);
    hide Resolve, LogOf, Note;
  }

  /** On any open file: read, fail to read, and read again, and the log has two overlapping reads. */
  lemma FailedReadOverlaps(env: Env, s: State, pid: int, fd: int, a: Addr, pos: nat, name: string, n: nat, m: nat)
    requires OpenAs(s, pid, fd, a, pos, name) && 1 <= n && 1 <= m && pos + n + m < TWO_TO_THE_64
    ensures var r := Run(env, s, [Read(pid, fd, n), Read(pid, fd, -1), Read(pid, fd, m)]);
      r.Ok? && LogOf(r.value, false, name) == LogOf(s, false, name) + [RwOp(pos, n), RwOp(pos + n - 1, m)]
  {
    hide *;
    var o1, o2, o3 := Read(pid, fd, n), Read(pid, fd, -1), Read(pid, fd, m);
    WrapThree(pos, n, m);
    OneRead(env, s, pid, fd, a, pos, name, n);
    var s1 := Step(env, s, o1).value;
    OneRead(env, s1, pid, fd, a, pos + n, name, -1);
    var s2 := Step(env, s1, o2).value;
    OneRead(env, s2, pid, fd, a, pos + n - 1, name, m);
    ThreeSteps(env, s, o1, o2, o3);
    AppendTwice(LogOf(s, false, name), RwOp(pos, n), RwOp(pos + n - 1, m));
  }

  lemma WrapThree(pos: nat, n: nat, m: nat)
    requires 1 <= n && pos + n + m < TWO_TO_THE_64
    ensures Wrap64(pos + n) == pos + n && Wrap64(pos + n + -1) == pos + n - 1
  {
  }

  lemma AppendTwice(log: seq<RwOp>, x: RwOp, y: RwOp)
    ensures log + [x] + [] + [y] == log + [x, y]
  {
  }

  lemma ThreeSteps(env: Env, s: State, o1: Op, o2: Op, o3: Op)
    requires Step(env, s, o1).Ok? && Step(env, Step(env, s, o1).value, o2).Ok?
    ensures Run(env, s, [o1, o2, o3]) == Step(env, Step(env, Step(env, s, o1).value, o2).value, o3)
  {
    hide Step;
    var s1 := Step(env, s, o1).value;
    var s2 := Step(env, s1, o2).value;
    assert [o1, o2, o3][1..] == [o2, o3] && [o2, o3][1..] == [o3] && [o3][1..] == [];
    assert Run(env, s2, [o3]) == Step(env, s2, o3);
    assert Run(env, s1, [o2, o3]) == Run(env, s2, [o3]);
  }

  // ---------- the greatest offset ----------

  /** Successful transfers from pos on, within 64 bits, end where the position is; the greatest end is the last. */
  lemma {:induction false} EndsAtPosition(pos: nat, events: seq<Event>, op: RwOp)
    requires OnlyMoves(events) && Contiguous(pos, events) && pos < TWO_TO_THE_64
    requires (forall e :: e in events ==> e.n >= 0) && pos + Total(events) < TWO_TO_THE_64
    ensures op in Succeeded(events) ==> End(op) <= After(pos, events)
    ensures events != [] ==>
      Succeeded(events) != [] && End(Succeeded(events)[|Succeeded(events)| - 1]) == After(pos, events)
    decreases |events|
  {
    if events != [] {
      var more, next := events[1..], Wrap64(pos + events[0].n);
      TotalNonNegative(more);
      EndsAtPosition(next, more, op);
      PositionIsSum(next, more);
      assert Succeeded(events) == [RwOp(pos, events[0].n)] + Succeeded(more);
    }
  }

  /** simulate_get_max_offset of a file's log after a run: the greatest end of what was logged before and of what
      the run notes. */
  method LoggedMax(env: Env, s: State, ops: seq<Op>, write: bool, name: string) returns (max: nat)
    requires Run(env, s, ops).Ok?
    ensures forall op :: op in LogOf(s, write, name) + Select(Notes(env, s, ops), write, name) ==> End(op) <= max
    ensures max == 0 || exists op ::
      op in LogOf(s, write, name) + Select(Notes(env, s, ops), write, name) && End(op) == max
  {
    RunNotes(env, s, ops, write, name);
    max := MaxOffset(LogOf(Run(env, s, ops).value, write, name));
  }
}
