/** What one trace record does to the descriptor tables in simulate mode (replicate.c).

    Memory is explicit: a descriptor record lives in `maps` under an address, tables hold
    addresses, and free() removes the record, so that an address can dangle. Every step is total:
    it gives the next state, or the fault that stops the program. */
module FdMachine {
  import opened Options
  import opened FdMaps

  /** Each allocation step takes a new generation; a table copy allocates one record per slot. */
  datatype Addr = Addr(gen: nat, slot: int)

  /** One transfer noted for a file: where it started and how many bytes it moved. */
  datatype RwOp = RwOp(offset: int, size: int)

  type Table = map<int, Addr>

  datatype State = State(
    procs: map<int, Option<int>>,  // pid -> its table; None is a NULL table pointer
    tables: map<int, Table>,
    maps: map<Addr, FdMap>,
    usage: map<int, int>,          // my_fd -> how many entries use it
    readLog: map<string, seq<RwOp>>,
    writeLog: map<string, seq<RwOp>>,
    parentPid: int,
    openFd: int, sockFd: int, pipeFd: int,  // what the three supplies hand out next
    nextTable: int, clock: nat)

  /** What the trace does not decide: the command line and the library calls. */
  datatype Env = Env(
    fixMissing: bool,
    namemap: string -> Option<string>,      // None: the file is to be ignored
    missingName: (int, int) -> string)      // name made up for a missing open

  datatype Op =
    | Open(pid: int, fd: int, name: string, directory: bool)
    | Close(pid: int, fd: int)
    | Dup(pid: int, oldFd: int, newFd: int)
    | Clone(pid: int, child: int, files: bool)
    | Pipe(pid: int, fd1: int, fd2: int, retval: int)
    | Socket(pid: int, fd: int)
    | Read(pid: int, fd: int, retval: int)
    | Write(pid: int, fd: int, retval: int)
    | Pread(pid: int, fd: int, offset: int, retval: int)
    | Pwrite(pid: int, fd: int, offset: int, retval: int)
    | Seek(pid: int, fd: int, result: int)  // lseek's return value, _llseek's final offset

  const TWO_TO_THE_64 := 0x1_0000_0000_0000_0000

  /** Arithmetic on cur_pos is unsigned and 64 bits wide. */
  function Wrap64(x: int): nat {
    x % TWO_TO_THE_64
  }

  function TableAt(s: State, t: int): Table {
    if t in s.tables then s.tables[t] else map[]
  }

  function Usage(usage: map<int, int>, k: int): int {
    if k in usage then usage[k] else 0
  }

  function Bump(usage: map<int, int>, k: int): map<int, int> {
    usage[k := Usage(usage, k) + 1]
  }

  /** decrease_fd_usage: the key goes away with its last use. */
  function Drop(usage: map<int, int>, k: int): Outcome<map<int, int>> {
    if k !in usage then Abort(MissingUsage)
    else if usage[k] == 1 then Ok(usage - {k})
    else Ok(usage[k := usage[k] - 1])
  }

  // ---------- processes and their tables ----------

  /** get_process_ht; the hash function asserts that the pid is not negative. */
  function Lookup(s: State, pid: int): Outcome<Option<int>> {
    if pid < 0 then Abort(NegativeKey)
    else Ok(if pid in s.procs then s.procs[pid] else None)
  }

  /** Appending to a hash chain never hides an item that is already in it. */
  function Register(procs: map<int, Option<int>>, pid: int, t: Option<int>): map<int, Option<int>> {
    if pid in procs then procs else procs[pid := t]
  }

  /** The descriptors of tbl whose record has the given my_fd. */
  function Holding(s: State, tbl: Table, k: int): set<int> {
    set fd | fd in tbl && tbl[fd] in s.maps && s.maps[tbl[fd]].myFd == k
  }

  function NewAddrs(s: State, tbl: Table): set<Addr> {
    set fd | fd in tbl :: Addr(s.clock, fd)
  }

  /** The my_fd values that tbl uses. */
  function MyFds(s: State, tbl: Table): set<int> {
    set fd | fd in tbl && tbl[fd] in s.maps :: s.maps[tbl[fd]].myFd
  }

  predicate AllLive(s: State, tbl: Table) {
    forall fd :: fd in tbl ==> tbl[fd] in s.maps
  }

  function CopiedTable(s: State, tbl: Table): Table {
    map fd | fd in tbl :: Addr(s.clock, fd)
  }

  function CopiedRecords(s: State, tbl: Table): map<Addr, FdMap>
    requires AllLive(s, tbl)
  {
    map a | a in NewAddrs(s, tbl) :: s.maps[tbl[a.slot]]
  }

  function CopiedUsage(s: State, tbl: Table): map<int, int> {
    map k | k in MyFds(s, tbl) :: Usage(s.usage, k) + |Holding(s, tbl, k)|
  }

  /** duplicate_process_ht: every entry gets its own copy of the record and is counted. */
  function CopyTable(s: State, t: int): Outcome<State> {
    if !AllLive(s, TableAt(s, t)) then Abort(Dangling)
    else
      Ok(s.(
         tables := s.tables[s.nextTable := CopiedTable(s, TableAt(s, t))],
         maps := s.maps + CopiedRecords(s, TableAt(s, t)),
         usage := s.usage + CopiedUsage(s, TableAt(s, t)),
         nextTable := s.nextTable + 1,
         clock := s.clock + 1))
  }

  function CloneSpec(s: State, from: int, child: int, files: bool): Outcome<State> {
    var known :- Lookup(s, child);
    if known.Some? then Ok(s)
    else
      var source :- Lookup(s, from);
      if files then Ok(s.(procs := Register(s.procs, child, source)))
      else if source.None? then Abort(NullTable)
      else
        var copied :- CopyTable(s, source.value);
        Ok(copied.(procs := Register(s.procs, child, Some(s.nextTable))))
  }

  /** The table of pid; a missing one is repaired by a shared clone of the first process. */
  function GetTable(env: Env, s: State, pid: int): Outcome<(State, Option<int>)> {
    var t :- Lookup(s, pid);
    if t.Some? || !env.fixMissing then Ok((s, t))
    else
      var s1 :- CloneSpec(s, s.parentPid, pid, true);
      var t1 :- Lookup(s1, pid);
      Ok((s1, t1))
  }

  // ---------- entries ----------

  /** A new record with the single parent fd, entered in table t and counted under key. */
  function AddEntry(s: State, t: int, fd: int, myFd: int, ftype: FileType, name: string, key: int): State
    requires fd >= 0
  {
    s.(tables := s.tables[t := TableAt(s, t)[fd := Addr(s.clock, fd)]],
       maps := s.maps[Addr(s.clock, fd) := FdMap(myFd, ftype, 0, name, OnlyParent(fd))],
       usage := Bump(s.usage, key),
       clock := s.clock + 1)
  }

  function OpenAt(env: Env, s: State, t: int, fd: int, name: string, directory: bool): State
    requires fd >= 0
  {
    var mapped := env.namemap(name);
    var ftype := if mapped.None? then Ignored else if directory then Directory else Regular;
    var s1 := AddEntry(s, t, fd, s.openFd, ftype, if mapped.None? then name else mapped.value, s.openFd);
    s1.(openFd := s.openFd + 1)
  }

  function OpenSpec(env: Env, s: State, pid: int, fd: int, name: string, directory: bool): Outcome<State> {
    if fd == -1 then Ok(s)
    else
      var (s1, t) :- GetTable(env, s, pid);
      if t.None? then Ok(s1)
      else if fd < 0 then Abort(NegativeKey)
      else if fd in TableAt(s1, t.value) then Ok(s1)
      else Ok(OpenAt(env, s1, t.value, fd, name, directory))
  }

  function SocketSpec(env: Env, s: State, pid: int, fd: int): Outcome<State> {
    if fd == -1 then Ok(s)
    else
      var (s1, t) :- GetTable(env, s, pid);
      if t.None? then Ok(s1)
      else if fd < 0 then Abort(NegativeKey)
      else if fd in TableAt(s1, t.value) then Ok(s1)
      else Ok(AddEntry(s1, t.value, fd, s1.sockFd, FileType.Socket, "", s1.sockFd).(sockFd := s1.sockFd - 1))
  }

  /** One end of a pipe; it is counted under its recorded number, not under its my_fd. */
  function PipeEnd(s: State, t: int, fd: int): State
    requires fd >= 0
  {
    AddEntry(s, t, fd, s.pipeFd, Fifo, "", fd).(pipeFd := s.pipeFd - 1)
  }

  function PipeSpec(env: Env, s: State, pid: int, fd1: int, fd2: int, retval: int): Outcome<State> {
    if retval == -1 then Ok(s)
    else
      var (s1, t) :- GetTable(env, s, pid);
      if t.None? then Ok(s1)
      else if fd1 < 0 then Abort(NegativeKey)
      else if fd1 in TableAt(s1, t.value) then Ok(s1)
      else if fd2 < 0 then Abort(NegativeKey)
      else if fd2 in TableAt(s1, t.value) then Ok(s1)
      else Ok(PipeEnd(PipeEnd(s1, t.value, fd1), t.value, fd2))
  }

  /** The record behind fd; a missing one is repaired by an open with a made-up name. */
  function GetEntry(env: Env, s: State, pid: int, t: int, fd: int): (r: Outcome<(State, Option<Addr>)>)
    ensures fd < 0 ==> r.Abort?
  {
    if fd < 0 then Abort(NegativeKey)
    else if fd in TableAt(s, t) then Ok((s, Some(TableAt(s, t)[fd])))
    else if !env.fixMissing then Ok((s, None))
    else
      var s1 :- OpenSpec(env, s, pid, fd, env.missingName(pid, fd), false);
      Ok((s1, if fd in TableAt(s1, t) then Some(TableAt(s1, t)[fd]) else None))
  }

  /** Table and record of (pid, fd), both repaired when they are missing. */
  function Resolve(env: Env, s: State, pid: int, fd: int): (r: Outcome<(State, Option<(int, Addr)>)>)
    ensures r.Ok? && r.value.1.Some? ==> fd >= 0
  {
    var (s1, t) :- GetTable(env, s, pid);
    if t.None? then Ok((s1, None))
    else
      var (s2, a) :- GetEntry(env, s1, pid, t.value, fd);
      Ok((s2, if a.None? then None else Some((t.value, a.value))))
  }

  /** Closes entry fd of table t: the record is freed with its last parent. */
  function CloseEntry(s: State, t: int, fd: int, a: Addr): Outcome<State>
    requires fd >= 0
  {
    if a !in s.maps then Abort(Dangling)
    else
      var m := s.maps[a];
      var usage :- if Supported(m.ftype) then Drop(s.usage, m.myFd) else Ok(s.usage);
      var parents :- WithoutParent(m.parents, fd);
      Ok(s.(usage := usage,
            tables := s.tables[t := TableAt(s, t) - {fd}],
            maps := if parents.last == -1 then s.maps - {a} else s.maps[a := m.(parents := parents)]))
  }

  function CloseSpec(env: Env, s: State, pid: int, fd: int): Outcome<State> {
    var (s1, e) :- Resolve(env, s, pid, fd);
    if e.None? then Ok(s1) else CloseEntry(s1, e.value.0, fd, e.value.1)
  }

  /** Enters fd in table t as one more name of the record at a. */
  function LinkEntry(s: State, t: int, fd: int, a: Addr): Outcome<State> {
    if a !in s.maps then Abort(Dangling)
    else if fd < 0 then Abort(NegativeKey)
    else
      var m := s.maps[a];
      var parents :- WithParent(m.parents, fd);
      Ok(s.(maps := s.maps[a := m.(parents := parents)],
            tables := s.tables[t := TableAt(s, t)[fd := a]],
            usage := Bump(s.usage, m.myFd)))
  }

  /** dup, dup2 and dup3. The target is closed first whether it is open or not, because the test
      looks up the source; with newFd == oldFd that frees the entry which is used next. */
  function DupSpec(env: Env, s: State, pid: int, oldFd: int, newFd: int): Outcome<State> {
    if newFd == -1 then Ok(s)
    else
      var (s1, e) :- Resolve(env, s, pid, oldFd);
      if e.None? then Ok(s1)
      else
        var s2 :- CloseSpec(env, s1, pid, newFd);
        if newFd == oldFd then Abort(Dangling)
        else LinkEntry(s2, e.value.0, newFd, e.value.1)
  }

  // ---------- transfers and seeks ----------

  function Note(log: map<string, seq<RwOp>>, name: string, op: RwOp): map<string, seq<RwOp>> {
    log[name := (if name in log then log[name] else []) + [op]]
  }

  /** A transfer through the record at a. A failed one (retval -1) is not noted, but -1 is still
      added to the position; positioned transfers leave the position alone. */
  function Transfer(s: State, a: Addr, write: bool, at: Option<int>, retval: int): Outcome<State> {
    if a !in s.maps then Abort(Dangling)
    else if !Supported(s.maps[a].ftype) then Ok(s)
    else
      var m := s.maps[a];
      var op := RwOp(if at.Some? then at.value else m.curPos, retval);
      var s1 := if retval == -1 then s
                else if write then s.(writeLog := Note(s.writeLog, m.name, op))
                else s.(readLog := Note(s.readLog, m.name, op));
      Ok(if at.Some? then s1 else s1.(maps := s.maps[a := m.(curPos := Wrap64(m.curPos + retval))]))
  }

  function TransferSpec(env: Env, s: State, pid: int, fd: int, write: bool, at: Option<int>, retval: int)
    : Outcome<State>
  {
    var (s1, e) :- Resolve(env, s, pid, fd);
    if e.None? then Ok(s1) else Transfer(s1, e.value.1, write, at, retval)
  }

  function Reposition(s: State, a: Addr, result: int): Outcome<State> {
    if a !in s.maps then Abort(Dangling)
    else if !Supported(s.maps[a].ftype) then Ok(s)
    else Ok(s.(maps := s.maps[a := s.maps[a].(curPos := Wrap64(result))]))
  }

  function SeekSpec(env: Env, s: State, pid: int, fd: int, result: int): Outcome<State> {
    var (s1, e) :- Resolve(env, s, pid, fd);
    if e.None? then Ok(s1) else Reposition(s1, e.value.1, result)
  }

  // ---------- runs ----------

  function Step(env: Env, s: State, op: Op): Outcome<State> {
    match op
    case Open(pid, fd, name, directory) => OpenSpec(env, s, pid, fd, name, directory)
    case Close(pid, fd) => CloseSpec(env, s, pid, fd)
    case Dup(pid, oldFd, newFd) => DupSpec(env, s, pid, oldFd, newFd)
    case Clone(pid, child, files) => CloneSpec(s, pid, child, files)
    case Pipe(pid, fd1, fd2, retval) => PipeSpec(env, s, pid, fd1, fd2, retval)
    case Socket(pid, fd) => SocketSpec(env, s, pid, fd)
    case Read(pid, fd, retval) => TransferSpec(env, s, pid, fd, false, None, retval)
    case Write(pid, fd, retval) => TransferSpec(env, s, pid, fd, true, None, retval)
    case Pread(pid, fd, offset, retval) => TransferSpec(env, s, pid, fd, false, Some(offset), retval)
    case Pwrite(pid, fd, offset, retval) => TransferSpec(env, s, pid, fd, true, Some(offset), retval)
    case Seek(pid, fd, result) => SeekSpec(env, s, pid, fd, result)
  }

  /** The records one after the other; a fault ends the run. */
  function Run(env: Env, s: State, ops: seq<Op>): Outcome<State>
    decreases |ops|
  {
    if ops == [] then Ok(s)
    else
      var s1 :- Step(env, s, ops[0]);
      Run(env, s1, ops[1..])
  }
}
