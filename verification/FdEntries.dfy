/** What a descriptor stands for when it is entered, and what transfers through it leave in the logs. */
module FdEntries {
  import opened Options
  import opened FdMaps
  import opened FdMachine
  import opened FdInvariant
  import opened FdSafety
  import opened FdPositions
  import opened FdNotes

  /** The record behind a descriptor of a process. */
  function RecordOf(s: State, pid: int, fd: int): Option<FdMap> {
    if HasTable(s, pid) && fd in TableAt(s, s.procs[pid].value) && TableAt(s, s.procs[pid].value)[fd] in s.maps then
      Some(s.maps[TableAt(s, s.procs[pid].value)[fd]])
    else None
  }

  /** A descriptor that nothing was opened under, of a process that has a table or is given one. */
  ghost predicate FreshFd(env: Env, s: State, pid: int, fd: int) {
    Inv(s) && pid >= 0 && fd >= 0 && Resolves(env, s, pid) && fd !in EntriesOf(s, pid)
  }

  // ---------- open ----------

  /** A new entry: its record, and the numbers of the supplies and usage counts that go with it. */
  ghost predicate Entered(s: State, pid: int, fd: int, m: FdMap) {
    && pid >= 0 && fd >= 0
    && RecordOf(s, pid, fd) == Some(m) && m.curPos == 0 && Parents(m.parents) == {fd}
  }

  lemma AddedEntry(s: State, t: int, pid: int, fd: int, myFd: int, ftype: FileType, name: string, key: int)
    requires pid >= 0 && fd >= 0 && pid in s.procs && s.procs[pid] == Some(t)
    ensures var s' := AddEntry(s, t, fd, myFd, ftype, name, key);
      && Entered(s', pid, fd, FdMap(myFd, ftype, 0, name, OnlyParent(fd))) && SameLogs(s, s')
      && Usage(s'.usage, key) == Usage(s.usage, key) + 1
      && s'.procs == s.procs && s'.openFd == s.openFd && s'.sockFd == s.sockFd && s'.pipeFd == s.pipeFd
      && Addr(s.clock, fd) in s'.maps
  {
    hide OnlyParent;
  }

  lemma AddedKeeps(s: State, t: int, pid: int, fd: int, myFd: int, ftype: FileType, name: string, key: int, f: int,
                   m: FdMap)
    requires fd >= 0 && Entered(s, pid, f, m) && f != fd && s.procs[pid] == Some(t)
    requires forall a :: a in s.maps ==> a.gen < s.clock
    ensures Entered(AddEntry(s, t, fd, myFd, ftype, name, key), pid, f, m)
  {
    hide OnlyParent, Bump;
  }

  /** Where a call that makes an entry makes it. */
  lemma FreshTable(env: Env, s: State, pid: int, fd: int)
    requires FreshFd(env, s, pid, fd)
    ensures HasTable(s, s.parentPid)
    ensures var g := GetTable(env, s, pid); var t := TableOf(s, pid);
      && g.Ok? && g.value.1 == Some(t) && g.value.0 == s.(procs := g.value.0.procs)
      && pid in g.value.0.procs && g.value.0.procs[pid] == Some(t) && fd !in TableAt(g.value.0, t)
      && (forall a :: a in s.maps ==> a.gen < s.clock)
  {
    GetTableWorks(env, s, pid);
    hide GetTable;
  }

  /** A recorded open enters a record that is ignored exactly if the name map leaves the name out, and otherwise a
      directory exactly if it was opened as one. It has the mapped name, the next number and position 0. */
  lemma OpenedRecord(env: Env, s: State, pid: int, fd: int, name: string, directory: bool)
    requires FreshFd(env, s, pid, fd)
    ensures var r := Step(env, s, Open(pid, fd, name, directory)); var mapped := env.namemap(name);
      && r.Ok? && SameLogs(s, r.value) && RecordOf(r.value, pid, fd).Some?
      && var m := RecordOf(r.value, pid, fd).value;
      && Entered(r.value, pid, fd, m)
      && (m.ftype == Ignored <==> mapped.None?)
      && (m.ftype == Directory <==> mapped.Some? && directory)
      && (m.ftype == Regular <==> mapped.Some? && !directory)
      && m.name == (if mapped.Some? then mapped.value else name)
      && m.myFd == s.openFd && r.value.openFd == s.openFd + 1
      && Usage(r.value.usage, m.myFd) == Usage(s.usage, m.myFd) + 1
  {
    FreshTable(env, s, pid, fd);
    var s1 := GetTable(env, s, pid).value.0;
    OpenIs(env, s, pid, fd, name, directory);
    hide *;
    OpenedAt(env, s1, TableOf(s, pid), pid, fd, name, directory);
    SameLogsTwice(s, s1, OpenAt(env, s1, TableOf(s, pid), fd, name, directory));
  }

  lemma SameLogsTwice(s: State, s1: State, s2: State)
    requires s1 == s.(procs := s1.procs) && SameLogs(s1, s2)
    ensures SameLogs(s, s2)
  {
  }

  lemma OpenedAt(env: Env, s: State, t: int, pid: int, fd: int, name: string, directory: bool)
    requires pid >= 0 && fd >= 0 && pid in s.procs && s.procs[pid] == Some(t)
    ensures var s' := OpenAt(env, s, t, fd, name, directory); var mapped := env.namemap(name);
      && SameLogs(s, s') && RecordOf(s', pid, fd).Some?
      && var m := RecordOf(s', pid, fd).value;
      && Entered(s', pid, fd, m)
      && (m.ftype == Ignored <==> mapped.None?)
      && (m.ftype == Directory <==> mapped.Some? && directory)
      && (m.ftype == Regular <==> mapped.Some? && !directory)
      && m.name == (if mapped.Some? then mapped.value else name)
      && m.myFd == s.openFd && s'.openFd == s.openFd + 1
      && Usage(s'.usage, m.myFd) == Usage(s.usage, m.myFd) + 1
  {
    var mapped := env.namemap(name);
    var ftype := if mapped.None? then Ignored else if directory then Directory else Regular;
    AddedEntry(s, t, pid, fd, s.openFd, ftype, if mapped.None? then name else mapped.value, s.openFd);
    hide AddEntry, OnlyParent, Usage;
  }

  lemma OpenIs(env: Env, s: State, pid: int, fd: int, name: string, directory: bool)
    requires HasTable(s, s.parentPid) && fd >= 0
    requires var g := GetTable(env, s, pid); var t := TableOf(s, pid);
      g.Ok? && g.value.1 == Some(t) && fd !in TableAt(g.value.0, t)
    ensures Step(env, s, Open(pid, fd, name, directory))
      == Ok(OpenAt(env, GetTable(env, s, pid).value.0, TableOf(s, pid), fd, name, directory))
  {
    hide GetTable, TableOf, OpenAt;
  }

  /** A failed open, and one under a number that is in use, changes nothing. */
  lemma OpenedNothing(env: Env, s: State, pid: int, fd: int, name: string, directory: bool)
    requires Inv(s) && (fd == -1 || (pid >= 0 && HasTable(s, pid) && fd in EntriesOf(s, pid) && fd >= 0))
    ensures Step(env, s, Open(pid, fd, name, directory)) == Ok(s)
  {
  }

  lemma RunOfTwo(env: Env, s: State, o: Op, p: Op)
    ensures Run(env, s, [o, p]) == match Step(env, s, o) case Abort(f) => Abort(f) case Ok(s1) => Step(env, s1, p)
  {
    hide Step;
    assert [o, p][1..] == [p] && [p][1..] == [];
    if Step(env, s, o).Ok? {
      var s1 := Step(env, s, o).value;
      assert Run(env, s1, [p]) == match Step(env, s1, p) case Abort(f) => Abort(f) case Ok(s2) => Run(env, s2, []);
    }
  }

  /** A transfer through an entry: what it notes, and where it leaves the position. */
  lemma EntryTransfer(env: Env, s: State, pid: int, fd: int, m: FdMap, isWrite: bool, n: int, write: bool,
                      other: string)
    requires Entered(s, pid, fd, m)
    ensures var r := Step(env, s, Attempt(isWrite, pid, fd, n)); var noted := Supported(m.ftype);
      && r.Ok? && RecordOf(r.value, pid, fd).Some?
      && RecordOf(r.value, pid, fd).value.curPos == (if noted then Wrap64(n) else 0)
      && LogOf(r.value, write, other) == LogOf(s, write, other) +
        (if noted && n != -1 && write == isWrite && other == m.name then [RwOp(0, n)] else [])
      && (!noted ==> r.value == s)
  {
    FoundEntry(env, s, pid, fd);
    var a := TableAt(s, s.procs[pid].value)[fd];
    TransferLogs(s, a, isWrite, None, n, write, other);
    assert LogOf(s, write, other) + [] == LogOf(s, write, other);
    hide Resolve, LogOf, Note;
  }

  /** An open and then a read or write: exactly [0, n) is noted, for the mapped name, unless the name is ignored or the
      transfer failed. */
  lemma OpenedTransfer(env: Env, s: State, pid: int, fd: int, name: string, directory: bool, isWrite: bool, n: int,
                       write: bool, other: string)
    requires FreshFd(env, s, pid, fd)
    ensures var r := Run(env, s, [Open(pid, fd, name, directory), Attempt(isWrite, pid, fd, n)]);
      && r.Ok? && RecordOf(r.value, pid, fd).Some?
      && RecordOf(r.value, pid, fd).value.curPos == (if env.namemap(name).Some? then Wrap64(n) else 0)
      && LogOf(r.value, write, other) == LogOf(s, write, other) +
        (if n != -1 && write == isWrite && env.namemap(name) == Some(other) then [RwOp(0, n)] else [])
  {
    var o := Open(pid, fd, name, directory);
    OpenedRecord(env, s, pid, fd, name, directory);
    var s1 := Step(env, s, o).value;
    EntryTransfer(env, s1, pid, fd, RecordOf(s1, pid, fd).value, isWrite, n, write, other);
    RunOfTwo(env, s, o, Attempt(isWrite, pid, fd, n));
    hide Step, Run, RecordOf, FreshFd, Wrap64;
  }

  // ---------- descriptors nobody opened ----------

  predicate UsesFd(op: Op) {
    op.Close? || op.Read? || op.Write? || op.Pread? || op.Pwrite? || op.Seek?
  }

  /** With fix-missing, a call on a descriptor nobody opened does what it does after an open of a made-up file that is
      no directory; without, it does nothing. */
  lemma MissingIsOpened(env: Env, s: State, op: Op)
    requires UsesFd(op) && FreshFd(env, s, op.pid, op.fd)
    ensures env.fixMissing ==>
      Step(env, s, op) == Run(env, s, [Open(op.pid, op.fd, env.missingName(op.pid, op.fd), false), op])
    ensures !env.fixMissing ==> Step(env, s, op) == Ok(s)
  {
    var o := Open(op.pid, op.fd, env.missingName(op.pid, op.fd), false);
    MissingResolves(env, s, op.pid, op.fd);
    RunOfTwo(env, s, o, op);
    assert Step(env, s, o) == OpenSpec(env, s, op.pid, op.fd, env.missingName(op.pid, op.fd), false);
    hide *;
    if env.fixMissing {
      SameResolve(env, s, Step(env, s, o).value, op);
    } else {
      NothingResolved(env, s, op);
    }
  }

  lemma SameResolve(env: Env, s: State, s1: State, op: Op)
    requires UsesFd(op) && Resolve(env, s, op.pid, op.fd) == Resolve(env, s1, op.pid, op.fd)
    ensures Step(env, s, op) == Step(env, s1, op)
  {
    hide Resolve, CloseEntry, Transfer, Reposition;
  }

  lemma NothingResolved(env: Env, s: State, op: Op)
    requires UsesFd(op) && Resolve(env, s, op.pid, op.fd) == Ok((s, None))
    ensures Step(env, s, op) == Ok(s)
  {
    hide Resolve, CloseEntry, Transfer, Reposition;
  }

  lemma MissingResolves(env: Env, s: State, pid: int, fd: int)
    requires FreshFd(env, s, pid, fd)
    ensures var r := OpenSpec(env, s, pid, fd, env.missingName(pid, fd), false);
      && r.Ok? && (env.fixMissing ==> Resolve(env, s, pid, fd) == Resolve(env, r.value, pid, fd))
    ensures !env.fixMissing ==> Resolve(env, s, pid, fd) == Ok((s, None))
  {
    GetTableWorks(env, s, pid);
    OpenedRecord(env, s, pid, fd, env.missingName(pid, fd), false);
    var (s1, t) := GetTable(env, s, pid).value;
    if env.fixMissing {
      var s2 := OpenSpec(env, s, pid, fd, env.missingName(pid, fd), false).value;
      FoundEntry(env, s2, pid, fd);
    }
  }

  // ---------- sockets and pipes ----------

  /** A recorded socket is entered as one, without a name, under the next number of the descending supply. */
  lemma SocketRecord(env: Env, s: State, pid: int, fd: int)
    requires FreshFd(env, s, pid, fd)
    ensures var r := Step(env, s, Op.Socket(pid, fd));
      && r.Ok? && SameLogs(s, r.value) && RecordOf(r.value, pid, fd).Some?
      && var m := RecordOf(r.value, pid, fd).value;
      && Entered(r.value, pid, fd, m) && m.ftype == FileType.Socket && m.name == ""
      && m.myFd == s.sockFd && r.value.sockFd == s.sockFd - 1
      && Usage(r.value.usage, m.myFd) == Usage(s.usage, m.myFd) + 1
  {
    FreshTable(env, s, pid, fd);
    AddedEntry(GetTable(env, s, pid).value.0, TableOf(s, pid), pid, fd, s.sockFd, FileType.Socket, "", s.sockFd);
    hide AddEntry, GetTable, OnlyParent, FreshFd, Usage, TableOf;
  }

  /** Nothing that is read from or written to a socket is noted, or moves a position. */
  lemma SocketIsSilent(env: Env, s: State, pid: int, fd: int, isWrite: bool, n: int)
    requires FreshFd(env, s, pid, fd)
    ensures Run(env, s, [Op.Socket(pid, fd), Attempt(isWrite, pid, fd, n)]) == Step(env, s, Op.Socket(pid, fd))
  {
    SocketRecord(env, s, pid, fd);
    var s1 := Step(env, s, Op.Socket(pid, fd)).value;
    EntryTransfer(env, s1, pid, fd, RecordOf(s1, pid, fd).value, isWrite, n, isWrite, "");
    RunOfTwo(env, s, Op.Socket(pid, fd), Attempt(isWrite, pid, fd, n));
    hide Step, Run, RecordOf, FreshFd;
  }

  /** Both ends of a recorded pipe are entered as such, without names, under the next two numbers of their supply. */
  lemma PipeRecords(env: Env, s: State, pid: int, fd1: int, fd2: int, retval: int)
    requires FreshFd(env, s, pid, fd1) && FreshFd(env, s, pid, fd2) && fd1 != fd2 && retval != -1
    ensures var r := Step(env, s, Pipe(pid, fd1, fd2, retval));
      && r.Ok? && SameLogs(s, r.value)
      && RecordOf(r.value, pid, fd1).Some? && RecordOf(r.value, pid, fd2).Some?
      && var m1, m2 := RecordOf(r.value, pid, fd1).value, RecordOf(r.value, pid, fd2).value;
      && Entered(r.value, pid, fd1, m1) && m1.ftype == Fifo && m1.name == "" && m1.myFd == s.pipeFd
      && Entered(r.value, pid, fd2, m2) && m2.ftype == Fifo && m2.name == "" && m2.myFd == s.pipeFd - 1
      && r.value.pipeFd == s.pipeFd - 2
  {
    FreshTable(env, s, pid, fd1);
    FreshTable(env, s, pid, fd2);
    var (s1, t) := (GetTable(env, s, pid).value.0, TableOf(s, pid));
    EndEntered(s1, t, pid, fd1);
    var s2 := PipeEnd(s1, t, fd1);
    EndEntered(s2, t, pid, fd2);
    EndKeeps(s2, t, pid, fd2, fd1, RecordOf(s2, pid, fd1).value);
    PipeIs(env, s, pid, fd1, fd2, retval);
    hide PipeEnd, Step, GetTable, OnlyParent, FreshFd, TableOf, RecordOf, Entered, Parents;
    EnteredIs(PipeEnd(s2, t, fd2), pid, fd1, RecordOf(s2, pid, fd1).value);
  }

  lemma EnteredIs(s: State, pid: int, fd: int, m: FdMap)
    requires Entered(s, pid, fd, m)
    ensures RecordOf(s, pid, fd) == Some(m)
  {
  }

  lemma PipeIs(env: Env, s: State, pid: int, fd1: int, fd2: int, retval: int)
    requires FreshFd(env, s, pid, fd1) && FreshFd(env, s, pid, fd2) && fd1 != fd2 && retval != -1
    requires var g := GetTable(env, s, pid); var t := TableOf(s, pid);
      g.Ok? && g.value.1 == Some(t) && fd1 !in TableAt(g.value.0, t) && fd2 !in TableAt(g.value.0, t)
    ensures Step(env, s, Pipe(pid, fd1, fd2, retval))
      == Ok(PipeEnd(PipeEnd(GetTable(env, s, pid).value.0, TableOf(s, pid), fd1), TableOf(s, pid), fd2))
  {
    assert fd1 >= 0 && fd2 >= 0;
    hide GetTable, TableOf, PipeEnd, FreshFd;
  }

  lemma EndEntered(s: State, t: int, pid: int, fd: int)
    requires pid >= 0 && fd >= 0 && pid in s.procs && s.procs[pid] == Some(t)
    requires forall a :: a in s.maps ==> a.gen < s.clock
    ensures var s' := PipeEnd(s, t, fd);
      && RecordOf(s', pid, fd) == Some(FdMap(s.pipeFd, Fifo, 0, "", OnlyParent(fd)))
      && Entered(s', pid, fd, RecordOf(s', pid, fd).value) && SameLogs(s, s')
      && s'.procs == s.procs && s'.pipeFd == s.pipeFd - 1 && (forall a :: a in s'.maps ==> a.gen < s'.clock)
  {
    AddedEntry(s, t, pid, fd, s.pipeFd, Fifo, "", fd);
    hide OnlyParent, Bump;
  }

  lemma EndKeeps(s: State, t: int, pid: int, fd: int, f: int, m: FdMap)
    requires fd >= 0 && Entered(s, pid, f, m) && f != fd && s.procs[pid] == Some(t)
    requires forall a :: a in s.maps ==> a.gen < s.clock
    ensures Entered(PipeEnd(s, t, fd), pid, f, m)
  {
    AddedKeeps(s, t, pid, fd, s.pipeFd, Fifo, "", fd, f, m);
    hide AddEntry;
  }

  /** Nor is anything that goes through a pipe. */
  lemma PipeIsSilent(env: Env, s: State, pid: int, fd1: int, fd2: int, retval: int, first: bool, isWrite: bool, n: int)
    requires FreshFd(env, s, pid, fd1) && FreshFd(env, s, pid, fd2) && fd1 != fd2 && retval != -1
    ensures var o := Pipe(pid, fd1, fd2, retval);
      Run(env, s, [o, Attempt(isWrite, pid, if first then fd1 else fd2, n)]) == Step(env, s, o)
  {
    var o, fd := Pipe(pid, fd1, fd2, retval), if first then fd1 else fd2;
    PipeRecords(env, s, pid, fd1, fd2, retval);
    var s1 := Step(env, s, o).value;
    EntryTransfer(env, s1, pid, fd, RecordOf(s1, pid, fd).value, isWrite, n, isWrite, "");
    RunOfTwo(env, s, o, Attempt(isWrite, pid, fd, n));
    hide Step, Run, RecordOf, FreshFd;
  }

  /** A failed pipe or socket changes nothing. */
  lemma FailedNothing(env: Env, s: State, pid: int, fd1: int, fd2: int)
    ensures Step(env, s, Pipe(pid, fd1, fd2, -1)) == Ok(s) && Step(env, s, Op.Socket(pid, -1)) == Ok(s)
  {
  }

  // ---------- close and dup ----------

  /** Closing a descriptor takes its entry out of the table and no other. Only for a file or a directory is its number
      used once less. */
  lemma ClosedEntry(env: Env, s: State, pid: int, fd: int, k: int)
    requires Inv(s) && pid >= 0 && HasTable(s, pid) && fd in EntriesOf(s, pid)
    ensures RecordOf(s, pid, fd).Some?
    ensures var r := Step(env, s, Close(pid, fd)); var m := RecordOf(s, pid, fd).value;
      && r.Ok? && HasTable(r.value, r.value.parentPid) && EntriesOf(r.value, pid) == EntriesOf(s, pid) - {fd}
      && Usage(r.value.usage, k)
        == Usage(s.usage, k) - if k == m.myFd && (m.ftype == Regular || m.ftype == Directory) then 1 else 0
  {
    var t := s.procs[pid].value;
    TablesExist(s);
    assert FdInvariant.Entry(s, t, fd) && fd >= 0 by { assert Recorded(s); }
    FoundEntry(env, s, pid, fd);
    CloseEntryWorks(s, t, fd);
    hide Inv, Resolve, WithoutParent;
  }

  /** A new alias stands for the record of the old one, and its number is used once more, whatever it stands for. */
  lemma LinkedEntry(env: Env, s: State, pid: int, oldFd: int, newFd: int, k: int)
    requires Inv(s) && pid >= 0 && HasTable(s, pid) && oldFd in EntriesOf(s, pid) && newFd !in EntriesOf(s, pid)
    requires newFd >= 0 && !env.fixMissing && Step(env, s, Dup(pid, oldFd, newFd)).Ok?
    ensures RecordOf(s, pid, oldFd).Some?
    ensures var r := Step(env, s, Dup(pid, oldFd, newFd)).value; var m := RecordOf(s, pid, oldFd).value;
      && HasTable(r, r.parentPid) && EntriesOf(r, pid) == EntriesOf(s, pid)[newFd := EntriesOf(s, pid)[oldFd]]
      && Usage(r.usage, k) == Usage(s.usage, k) + if k == m.myFd then 1 else 0
  {
    var t := s.procs[pid].value;
    TablesExist(s);
    assert FdInvariant.Entry(s, t, oldFd) && oldFd >= 0 && s.tables[t][oldFd] in s.maps by { assert Recorded(s); }
    FoundEntry(env, s, pid, oldFd);
    assert Resolve(env, s, pid, newFd) == Ok((s, None));
    hide Inv, Resolve, WithParent;
  }

  // ---------- clone ----------

  /** A clone of a process that is known already changes nothing. */
  lemma ClonedAlready(env: Env, s: State, from: int, child: int, files: bool)
    requires child >= 0 && HasTable(s, child)
    ensures Step(env, s, Clone(from, child, files)) == Ok(s)
  {
  }

  /** Sharing files with a process nobody knows makes a process without a table: from then on its records are passed
      over, even with fix-missing. */
  lemma ClonedFromNobody(env: Env, s: State, from: int, child: int, op: Op)
    requires Inv(s) && from >= 0 && child >= 0 && !HasTable(s, from) && child !in s.procs
    requires UsesFd(op) && op.pid == child
    ensures Run(env, s, [Clone(from, child, true), op]) == Step(env, s, Clone(from, child, true))
    ensures Step(env, s, Clone(from, child, true)) == Ok(s.(procs := s.procs[child := None]))
  {
    RunOfTwo(env, s, Clone(from, child, true), op);
    var s1 := s.(procs := s.procs[child := None]);
    assert Resolve(env, s1, child, op.fd) == Ok((s1, None));
    NothingResolved(env, s1, op);
    hide Run, Resolve;
  }

  // ---------- the standard streams ----------

  /** At the start, standard output and standard error take transfers silently; standard input is a descriptor nobody
      opened. */
  lemma StandardStreams(env: Env, pid: int, fd: int, isWrite: bool, n: int)
    requires pid >= 0 && 0 <= fd <= 2
    ensures fd != 0 ==> Step(env, Init(pid), Attempt(isWrite, pid, fd, n)) == Ok(Init(pid))
    ensures fd == 0 ==> FreshFd(env, Init(pid), pid, fd)
  {
    if fd == 0 {
      InputIsMissing(env, pid);
    } else {
      hide *;
      var m := FdMap(fd, Special, 0, "", OnlyParent(fd));
      InitRecord(pid, fd);
      EntryTransfer(env, Init(pid), pid, fd, m, isWrite, n, isWrite, "");
      SpecialIsNone();
    }
  }

  /** The first numbers of the three supplies. */
  lemma FirstNumbers(env: Env, pid: int, fd: int, name: string, directory: bool, other: int)
    requires pid >= 0 && fd >= 3 && other >= 3 && fd != other
    ensures var s := Init(pid); var o := Step(env, s, Open(pid, fd, name, directory));
      o.Ok? && RecordOf(o.value, pid, fd).Some? && RecordOf(o.value, pid, fd).value.myFd == 1000
    ensures var s := Init(pid); var o := Step(env, s, Op.Socket(pid, fd));
      o.Ok? && RecordOf(o.value, pid, fd).Some? && RecordOf(o.value, pid, fd).value.myFd == 100_000_000
    ensures var s := Init(pid); var o := Step(env, s, Pipe(pid, fd, other, 0));
      && o.Ok? && RecordOf(o.value, pid, fd).Some? && RecordOf(o.value, pid, other).Some?
      && RecordOf(o.value, pid, fd).value.myFd == 2_147_483_646
      && RecordOf(o.value, pid, other).value.myFd == 2_147_483_645
  {
    InitSupplies(pid, fd);
    InitSupplies(pid, other);
    hide *;
    OpenedRecord(env, Init(pid), pid, fd, name, directory);
    SocketRecord(env, Init(pid), pid, fd);
    PipeRecords(env, Init(pid), pid, fd, other, 0);
  }

  lemma InitSupplies(pid: int, fd: int)
    requires pid >= 0 && fd >= 3
    ensures forall env :: FreshFd(env, Init(pid), pid, fd)
    ensures Init(pid).openFd == 1000 && Init(pid).sockFd == 100_000_000 && Init(pid).pipeFd == 2_147_483_646
  {
    InitIsSound(pid, 0);
    hide Inv, OnlyParent;
  }

  lemma InitRecord(pid: int, fd: int)
    requires pid >= 0 && 1 <= fd <= 2
    ensures Entered(Init(pid), pid, fd, FdMap(fd, Special, 0, "", OnlyParent(fd)))
  {
    var s, parents := Init(pid), OnlyParent(fd);
    hide OnlyParent;
    assert s.maps[Addr(0, fd)] == FdMap(fd, Special, 0, "", parents);
  }

  lemma InputIsMissing(env: Env, pid: int)
    requires pid >= 0
    ensures FreshFd(env, Init(pid), pid, 0)
  {
    InitIsSound(pid, 0);
    hide Inv, OnlyParent;
  }

  lemma SpecialIsNone()
    ensures !Supported(Special)
  {
  }
}
