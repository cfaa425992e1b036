/** replicate.c in its own form: global tables that each record updates in place. */
module Replicator {
  import opened Options
  import opened FdMaps
  import opened FdMachine
  import opened SetFacts

  lemma RecordsWithOneMore(s: State, tbl: Table, done: Table, fd: int)
    requires AllLive(s, Part(tbl, done)) && fd in tbl && fd !in done && tbl[fd] in s.maps
    ensures AllLive(s, Part(tbl, done[fd := Addr(s.clock, fd)]))
    ensures CopiedRecords(s, Part(tbl, done[fd := Addr(s.clock, fd)]))
      == CopiedRecords(s, Part(tbl, done))[Addr(s.clock, fd) := s.maps[tbl[fd]]]
  {
    var p, q := Part(tbl, done), Part(tbl, done[fd := Addr(s.clock, fd)]);
    assert forall f :: f in q ==> f == fd || (f in p && p[f] == q[f]);
    assert forall f :: f in p ==> f in q && p[f] == q[f];
    assert fd in q;
    assert NewAddrs(s, q) == NewAddrs(s, p) + {Addr(s.clock, fd)};
  }

  lemma MyFdsWithOneMore(s: State, tbl: Table, done: Table, fd: int)
    requires fd in tbl && fd !in done && tbl[fd] in s.maps
    ensures MyFds(s, Part(tbl, done[fd := Addr(s.clock, fd)])) == MyFds(s, Part(tbl, done)) + {s.maps[tbl[fd]].myFd}
  {
    var p, q := Part(tbl, done), Part(tbl, done[fd := Addr(s.clock, fd)]);
    forall k | k in MyFds(s, p) ensures k in MyFds(s, q) {
      var f :| f in p && p[f] in s.maps && s.maps[p[f]].myFd == k;
      assert f in q;
    }
    assert fd in q;
    forall k | k in MyFds(s, q) ensures k in MyFds(s, p) || k == s.maps[tbl[fd]].myFd {
      var f :| f in q && q[f] in s.maps && s.maps[q[f]].myFd == k;
      assert f == fd || f in p;
    }
  }

  lemma HeldWithOneMore(s: State, tbl: Table, done: Table, fd: int, k: int)
    requires fd in tbl && fd !in done && tbl[fd] in s.maps
    ensures |Holding(s, Part(tbl, done[fd := Addr(s.clock, fd)]), k)|
         == |Holding(s, Part(tbl, done), k)| + (if k == s.maps[tbl[fd]].myFd then 1 else 0)
  {
    var p, q := Part(tbl, done), Part(tbl, done[fd := Addr(s.clock, fd)]);
    assert fd !in Holding(s, p, k);
    if k == s.maps[tbl[fd]].myFd {
      assert Holding(s, q, k) == Holding(s, p, k) + {fd};
    } else {
      assert Holding(s, q, k) == Holding(s, p, k);
    }
  }

  lemma UsageWithOneMore(s: State, tbl: Table, done: Table, fd: int)
    requires fd in tbl && fd !in done && tbl[fd] in s.maps
    ensures s.usage + CopiedUsage(s, Part(tbl, done[fd := Addr(s.clock, fd)]))
         == Bump(s.usage + CopiedUsage(s, Part(tbl, done)), s.maps[tbl[fd]].myFd)
  {
    var p, q, k0 := Part(tbl, done), Part(tbl, done[fd := Addr(s.clock, fd)]), s.maps[tbl[fd]].myFd;
    MyFdsWithOneMore(s, tbl, done, fd);
    forall k ensures |Holding(s, q, k)| == |Holding(s, p, k)| + (if k == k0 then 1 else 0) {
      HeldWithOneMore(s, tbl, done, fd, k);
    }
    if k0 !in MyFds(s, p) {
      NothingHeld(s, p, k0);
    }
    CopiedUsageIs(s, p);
    CopiedUsageIs(s, q);
    hide Part, Holding, CopiedUsage, MyFds, Usage, Bump;
    BumpOneKey(s.usage, CopiedUsage(s, p), CopiedUsage(s, q), k0);
  }

  lemma CopiedUsageIs(s: State, tbl: Table)
    ensures forall k :: k in CopiedUsage(s, tbl) <==> k in MyFds(s, tbl)
    ensures forall k :: k in MyFds(s, tbl) ==> CopiedUsage(s, tbl)[k] == Usage(s.usage, k) + |Holding(s, tbl, k)|
  {
    hide MyFds, Holding;
  }

  lemma BumpOneKey(usage: map<int, int>, p: map<int, int>, q: map<int, int>, k0: int)
    requires forall k :: k in q <==> k in p || k == k0
    requires forall k :: k in p && k != k0 ==> q[k] == p[k]
    requires q[k0] == (if k0 in p then p[k0] else Usage(usage, k0)) + 1
    ensures usage + q == Bump(usage + p, k0)
  {
    var l, r := usage + q, Bump(usage + p, k0);
    assert k0 in q;
    assert forall k :: k in l <==> k in r;
    assert forall k :: k in l ==> l[k] == r[k];
  }

  lemma NothingHeld(s: State, tbl: Table, k: int)
    requires k !in MyFds(s, tbl)
    ensures |Holding(s, tbl, k)| == 0
  {
    forall fd | fd in tbl && tbl[fd] in s.maps ensures fd !in Holding(s, tbl, k) {
      assert s.maps[tbl[fd]].myFd in MyFds(s, tbl);
    }
    assert Holding(s, tbl, k) == {};
  }

  /** The state now and the new table copy while the table tbl of s is being copied. */
  ghost predicate Copying(s: State, now: State, tbl: Table, copy: Table) {
    && AllLive(s, Part(tbl, copy))
    && now == s.(maps := s.maps + CopiedRecords(s, Part(tbl, copy)), usage := s.usage + CopiedUsage(s, Part(tbl, copy)))
    && copy == CopiedTable(s, Part(tbl, copy))
  }

  /** No address of the generation being handed out is in use yet. */
  ghost predicate Unused(s: State, tbl: Table) {
    (forall a :: a in s.maps ==> a.gen < s.clock) && (forall fd :: fd in tbl ==> tbl[fd].gen < s.clock)
  }

  lemma CopyingStarts(s: State, tbl: Table)
    ensures Copying(s, s, tbl, map[])
  {
    var none: Table := map[];
    assert MyFds(s, Part(tbl, none)) == {};
    assert CopiedUsage(s, Part(tbl, none)) == map[];
  }

  lemma CopyingOneMore(s: State, now: State, tbl: Table, copy: Table, fd: int)
    requires Copying(s, now, tbl, copy) && Unused(s, tbl) && fd in tbl && fd !in copy
    ensures tbl[fd] in now.maps <==> tbl[fd] in s.maps
    ensures tbl[fd] in now.maps ==>
              Copying(s, now.(maps := now.maps[Addr(s.clock, fd) := now.maps[tbl[fd]]],
                              usage := Bump(now.usage, now.maps[tbl[fd]].myFd)),
                      tbl, copy[fd := Addr(s.clock, fd)])
  {
    OldRecordsStay(s, tbl, copy, fd);
    if tbl[fd] in s.maps {
      RecordsWithOneMore(s, tbl, copy, fd);
      UsageWithOneMore(s, tbl, copy, fd);
      TableWithOneMore(s, tbl, copy, fd);
      OneRecordMore(s.maps, CopiedRecords(s, Part(tbl, copy)), Addr(s.clock, fd), s.maps[tbl[fd]]);
      hide Part, CopiedUsage, CopiedTable, CopiedRecords, AllLive, Bump, Unused;
    }
  }

  lemma OneRecordMore(m: map<Addr, FdMap>, c: map<Addr, FdMap>, a: Addr, r: FdMap)
    ensures m + c[a := r] == (m + c)[a := r]
  {
  }

  lemma TableWithOneMore(s: State, tbl: Table, done: Table, fd: int)
    requires fd in tbl
    ensures CopiedTable(s, Part(tbl, done[fd := Addr(s.clock, fd)]))
      == CopiedTable(s, Part(tbl, done))[fd := Addr(s.clock, fd)]
  {
  }

  lemma OldRecordsStay(s: State, tbl: Table, done: Table, fd: int)
    requires AllLive(s, Part(tbl, done)) && Unused(s, tbl) && fd in tbl
    ensures tbl[fd] in s.maps + CopiedRecords(s, Part(tbl, done)) <==> tbl[fd] in s.maps
    ensures tbl[fd] in s.maps ==> (s.maps + CopiedRecords(s, Part(tbl, done)))[tbl[fd]] == s.maps[tbl[fd]]
  {
  }

  lemma CopyingEnds(s: State, now: State, t: int, copy: Table)
    requires Copying(s, now, TableAt(s, t), copy) && TableAt(s, t).Keys <= copy.Keys
    ensures CopyTable(s, t) == Ok(now.(tables := now.tables[s.nextTable := copy],
                                       nextTable := s.nextTable + 1, clock := s.clock + 1))
  {
    WholePart(TableAt(s, t), copy);
    CopyingWhole(s, now, t, TableAt(s, t), copy);
  }

  lemma CopyingWhole(s: State, now: State, t: int, tbl: Table, copy: Table)
    requires tbl == TableAt(s, t) && AllLive(s, tbl) && copy == CopiedTable(s, tbl)
    requires now == s.(maps := s.maps + CopiedRecords(s, tbl), usage := s.usage + CopiedUsage(s, tbl))
    ensures CopyTable(s, t) == Ok(now.(tables := now.tables[s.nextTable := copy],
                                       nextTable := s.nextTable + 1, clock := s.clock + 1))
  {
    hide CopiedRecords, CopiedTable, CopiedUsage, AllLive, TableAt;
  }

  lemma DeadEntry(s: State, t: int, fd: int)
    requires fd in TableAt(s, t) && TableAt(s, t)[fd] !in s.maps
    ensures CopyTable(s, t) == Abort(Dangling)
  {
  }

  lemma CopyKeepsProcs(s: State, t: int)
    requires CopyTable(s, t).Ok?
    ensures CopyTable(s, t).value.procs == s.procs
  {
  }

  class Replicator {
    const env: Env
    var procs: map<int, Option<int>>
    var tables: map<int, Table>
    var maps: map<Addr, FdMap>
    var usage: map<int, int>
    var readLog: map<string, seq<RwOp>>
    var writeLog: map<string, seq<RwOp>>
    var parentPid: int
    var openFd: int
    var sockFd: int
    var pipeFd: int
    var nextTable: int
    var clock: nat

    ghost function Now(): State
      reads this
    {
      State(procs, tables, maps, usage, readLog, writeLog, parentPid, openFd, sockFd, pipeFd, nextTable, clock)
    }

    /** malloc never returns an address in use. */
    ghost predicate Valid()
      reads this
    {
      && (forall a :: a in maps ==> a.gen < clock)
      && (forall t, fd :: t in tables && fd in tables[t] ==> tables[t][fd].gen < clock)
    }

    method GetProcessTable(pid: int) returns (r: Outcome<Option<int>>)
      ensures r == Lookup(Now(), pid)
    {
      if pid < 0 {
        return Abort(NegativeKey);
      }
      r := Ok(if pid in procs then procs[pid] else None);
    }

    method IncreaseUsage(fd: int)
      modifies this`usage
      ensures usage == Bump(old(usage), fd)
    {
      if fd !in usage {
        usage := usage[fd := 1];
      } else {
        usage := usage[fd := usage[fd] + 1];
      }
    }

    /** true: that was the last use. */
    method DecreaseUsage(fd: int) returns (r: Outcome<bool>)
      modifies this`usage
      ensures match Drop(old(usage), fd)
              case Abort(f) => r == Abort(f)
              case Ok(u) => r == Ok(fd !in u) && usage == u
    {
      if fd !in usage {
        return Abort(MissingUsage);
      }
      usage := usage[fd := usage[fd] - 1];
      if usage[fd] == 0 {
        usage := usage - {fd};
        assert usage == old(usage) - {fd};
        return Ok(true);
      }
      r := Ok(false);
    }

    /** The copy of one record, under the address of slot fd, counted as one more use. */
    method CopyRecord(a: Addr, fd: int)
      requires a in maps
      modifies this
      ensures Now() == old(Now()).(maps := old(maps)[Addr(clock, fd) := old(maps)[a]],
                                   usage := Bump(old(usage), old(maps)[a].myFd))
    {
      var m := maps[a];
      maps := maps[Addr(clock, fd) := m];
      IncreaseUsage(m.myFd);
    }

    /** Copies table t with all its records; the new table is the result. */
    method DuplicateTable(t: int) returns (r: Outcome<int>)
      requires Valid()
      modifies this
      ensures r.Ok? ==> Valid()
      ensures match CopyTable(old(Now()), t)
              case Abort(f) => r == Abort(f)
              case Ok(s) => r == Ok(old(nextTable)) && Now() == s
    {
      hide Copying, CopyTable, Bump, CopiedRecords, CopiedUsage, CopiedTable, AllLive;
      ghost var s := Now();
      var tbl := if t in tables then tables[t] else map[];
      var copy: Table := map[];
      var todo := tbl.Keys;
      CopyingStarts(s, tbl);
      while todo != {}
        invariant tbl.Keys <= todo + copy.Keys && todo <= tbl.Keys && todo !! copy.Keys
        invariant Copying(s, Now(), tbl, copy) && clock == s.clock
        invariant forall a :: a in maps ==> a.gen <= s.clock
        invariant forall fd :: fd in copy ==> copy[fd].gen == s.clock
        invariant tables == s.tables && nextTable == s.nextTable
        decreases todo
      {
        var fd := Choose(todo);
        CopyingOneMore(s, Now(), tbl, copy, fd);
        if tbl[fd] !in maps {
          DeadEntry(s, t, fd);
          return Abort(Dangling);
        }
        CopyRecord(tbl[fd], fd);
        copy, todo := copy[fd := Addr(clock, fd)], todo - {fd};
      }
      CopyingEnds(s, Now(), t, copy);
      r := Ok(nextTable);
      tables := tables[nextTable := copy];
      nextTable := nextTable + 1;
      clock := clock + 1;
    }

    /** The call did what the step function says. */
    ghost predicate Did(spec: Outcome<State>, r: Outcome<()>)
      reads this
    {
      match spec
      case Abort(f) => r == Abort(f)
      case Ok(s) => r.Ok? && Now() == s && Valid()
    }

    method Clone(from: int, child: int, files: bool) returns (r: Outcome<()>)
      requires Valid()
      modifies this
      ensures Did(CloneSpec(old(Now()), from, child, files), r)
    {
      hide CopyTable;
      var known :- GetProcessTable(child);
      if known.Some? {
        return Ok(());
      }
      var source :- GetProcessTable(from);
      var table := source;
      if !files {
        if source.None? {
          return Abort(NullTable);
        }
        ghost var s := Now();
        var copy :- DuplicateTable(source.value);
        CopyKeepsProcs(s, source.value);
        table := Some(copy);
      }
      if child !in procs {
        procs := procs[child := table];
      }
      r := Ok(());
    }

    method MissingTable(pid: int) returns (r: Outcome<Option<int>>)
      requires Valid() && Lookup(Now(), pid) == Ok(None)
      modifies this
      ensures match GetTable(env, old(Now()), pid)
              case Abort(f) => r == Abort(f)
              case Ok((s, t)) => r == Ok(t) && Now() == s && Valid()
    {
      if !env.fixMissing {
        return Ok(None);
      }
      var _ :- Clone(parentPid, pid, true);
      r := GetProcessTable(pid);
    }

    method Table(pid: int) returns (r: Outcome<Option<int>>)
      requires Valid()
      modifies this
      ensures match GetTable(env, old(Now()), pid)
              case Abort(f) => r == Abort(f)
              case Ok((s, t)) => r == Ok(t) && Now() == s && Valid()
    {
      var t :- GetProcessTable(pid);
      if t.None? {
        r := MissingTable(pid);
      } else {
        r := Ok(t);
      }
    }

    /** A new record under a new entry of table t, counted under key. */
    method Insert(t: int, fd: int, myFd: int, ftype: FileType, name: string, key: int)
      requires Valid() && fd >= 0
      modifies this
      ensures Now() == AddEntry(old(Now()), t, fd, myFd, ftype, name, key) && Valid()
    {
      hide OnlyParent, Bump;
      Link(t, fd, Addr(clock, fd), FdMap(myFd, ftype, 0, name, OnlyParent(fd)));
      IncreaseUsage(key);
      clock := clock + 1;
    }

    method Open(pid: int, fd: int, name: string, directory: bool) returns (r: Outcome<()>)
      requires Valid()
      modifies this
      ensures Did(OpenSpec(env, old(Now()), pid, fd, name, directory), r)
    {
      hide GetTable;
      if fd == -1 {
        return Ok(());
      }
      var t :- Table(pid);
      if t.None? {
        return Ok(());
      }
      if fd < 0 {
        return Abort(NegativeKey);
      }
      if t.value !in tables || fd !in tables[t.value] {
        var mapped := env.namemap(name);
        var ftype := Regular;
        if mapped.None? {
          ftype := Ignored;
        } else if directory {
          ftype := Directory;
        }
        var myFd := openFd;
        openFd := openFd + 1;
        Insert(t.value, fd, myFd, ftype, if mapped.None? then name else mapped.value, myFd);
      }
      r := Ok(());
    }

    method OpenSocket(pid: int, fd: int) returns (r: Outcome<()>)
      requires Valid()
      modifies this
      ensures Did(SocketSpec(env, old(Now()), pid, fd), r)
    {
      if fd == -1 {
        return Ok(());
      }
      var t :- Table(pid);
      if t.None? {
        return Ok(());
      }
      if fd < 0 {
        return Abort(NegativeKey);
      }
      if t.value !in tables || fd !in tables[t.value] {
        var myFd := sockFd;
        sockFd := sockFd - 1;
        Insert(t.value, fd, myFd, FileType.Socket, "", myFd);
      }
      r := Ok(());
    }

    method InsertPipeEnd(t: int, fd: int)
      requires Valid() && fd >= 0
      modifies this
      ensures Now() == PipeEnd(old(Now()), t, fd) && Valid()
    {
      var myFd := pipeFd;
      pipeFd := pipeFd - 1;
      Insert(t, fd, myFd, Fifo, "", fd);
    }

    method OpenPipe(pid: int, fd1: int, fd2: int, retval: int) returns (r: Outcome<()>)
      requires Valid()
      modifies this
      ensures Did(PipeSpec(env, old(Now()), pid, fd1, fd2, retval), r)
    {
      if retval == -1 {
        return Ok(());
      }
      var t :- Table(pid);
      if t.None? {
        return Ok(());
      }
      if fd1 < 0 {
        return Abort(NegativeKey);
      }
      if t.value in tables && fd1 in tables[t.value] {
        return Ok(());
      }
      if fd2 < 0 {
        return Abort(NegativeKey);
      }
      if t.value in tables && fd2 in tables[t.value] {
        return Ok(());
      }
      hide AddEntry, PipeEnd;
      InsertPipeEnd(t.value, fd1);
      InsertPipeEnd(t.value, fd2);
      r := Ok(());
    }

    method Entry(pid: int, t: int, fd: int) returns (r: Outcome<Option<Addr>>)
      requires Valid()
      modifies this
      ensures r.Ok? ==> fd >= 0
      ensures match GetEntry(env, old(Now()), pid, t, fd)
              case Abort(f) => r == Abort(f)
              case Ok((s, a)) => r == Ok(a) && Now() == s && Valid()
    {
      if fd < 0 {
        return Abort(NegativeKey);
      }
      if t in tables && fd in tables[t] {
        return Ok(Some(tables[t][fd]));
      }
      if !env.fixMissing {
        return Ok(None);
      }
      var _ :- Open(pid, fd, env.missingName(pid, fd), false);
      r := Ok(if t in tables && fd in tables[t] then Some(tables[t][fd]) else None);
    }

    /** Table and record of (pid, fd). */
    method Find(pid: int, fd: int) returns (r: Outcome<Option<(int, Addr)>>)
      requires Valid()
      modifies this
      ensures match Resolve(env, old(Now()), pid, fd)
              case Abort(f) => r == Abort(f)
              case Ok((s, e)) => r == Ok(e) && Now() == s && Valid()
    {
      var t :- Table(pid);
      if t.None? {
        return Ok(None);
      }
      var a :- Entry(pid, t.value, fd);
      r := Ok(if a.None? then None else Some((t.value, a.value)));
    }

    method Close(pid: int, fd: int) returns (r: Outcome<()>)
      requires Valid()
      modifies this
      ensures Did(CloseSpec(env, old(Now()), pid, fd), r)
    {
      hide Resolve, WithoutParent;
      var e :- Find(pid, fd);
      if e.None? {
        return Ok(());
      }
      var (t, a) := e.value;
      if a !in maps {
        return Abort(Dangling);
      }
      var m := maps[a];
      if Supported(m.ftype) {
        var _ :- DecreaseUsage(m.myFd);
      }
      var parents :- WithoutParent(m.parents, fd);
      Unlink(t, fd, a, parents);
      r := Ok(());
    }

    /** Takes the entry out, and its record if no name is left. */
    method Unlink(t: int, fd: int, a: Addr, parents: ParentArray)
      requires a in maps
      modifies this
      ensures Now() == old(Now()).(
        tables := old(tables)[t := TableAt(old(Now()), t) - {fd}],
        maps := if parents.last == -1 then old(maps) - {a} else old(maps)[a := old(maps)[a].(parents := parents)])
    {
      var tbl := if t in tables then tables[t] else map[];
      tables := tables[t := tbl - {fd}];
      if parents.last == -1 {
        maps := maps - {a};
      } else {
        maps := maps[a := maps[a].(parents := parents)];
      }
    }

    method Duplicate(pid: int, oldFd: int, newFd: int) returns (r: Outcome<()>)
      requires Valid()
      modifies this
      ensures Did(DupSpec(env, old(Now()), pid, oldFd, newFd), r)
    {
      hide Resolve, CloseSpec, WithParent;
      if newFd == -1 {
        return Ok(());
      }
      var e :- Find(pid, oldFd);
      if e.None? {
        return Ok(());
      }
      var (t, a) := e.value;
      var _ :- Close(pid, newFd);
      if newFd == oldFd || a !in maps {
        return Abort(Dangling);
      }
      if newFd < 0 {
        return Abort(NegativeKey);
      }
      var m := maps[a];
      var parents :- WithParent(m.parents, newFd);
      Link(t, newFd, a, m.(parents := parents));
      IncreaseUsage(m.myFd);
      r := Ok(());
    }

    /** Enters fd in table t as a name of the record at a, which becomes m. */
    method Link(t: int, fd: int, a: Addr, m: FdMap)
      modifies this
      ensures Now() == old(Now()).(
        tables := old(tables)[t := TableAt(old(Now()), t)[fd := a]], maps := old(maps)[a := m])
    {
      maps := maps[a := m];
      var tbl := if t in tables then tables[t] else map[];
      tables := tables[t := tbl[fd := a]];
    }

    method NoteTransfer(name: string, write: bool, op: RwOp)
      modifies this
      ensures Now() == if write then old(Now()).(writeLog := Note(old(writeLog), name, op))
                       else old(Now()).(readLog := Note(old(readLog), name, op))
    {
      if write {
        writeLog := Note(writeLog, name, op);
      } else {
        readLog := Note(readLog, name, op);
      }
    }

    /** read, write, pread and pwrite; `at` is the offset of the latter two. */
    method Transfer(pid: int, fd: int, write: bool, at: Option<int>, retval: int) returns (r: Outcome<()>)
      requires Valid()
      modifies this
      ensures Did(TransferSpec(env, old(Now()), pid, fd, write, at, retval), r)
    {
      hide Resolve, Note;
      var e :- Find(pid, fd);
      if e.None? {
        return Ok(());
      }
      var a := e.value.1;
      if a !in maps {
        return Abort(Dangling);
      }
      var m := maps[a];
      if !Supported(m.ftype) {
        return Ok(());
      }
      if retval != -1 {
        NoteTransfer(m.name, write, RwOp(if at.Some? then at.value else m.curPos, retval));
      }
      if at.None? {
        maps := maps[a := m.(curPos := Wrap64(m.curPos + retval))];
      }
      r := Ok(());
    }

    method SetPosition(pid: int, fd: int, result: int) returns (r: Outcome<()>)
      requires Valid()
      modifies this
      ensures Did(SeekSpec(env, old(Now()), pid, fd, result), r)
    {
      var e :- Find(pid, fd);
      if e.None? {
        return Ok(());
      }
      var a := e.value.1;
      if a !in maps {
        return Abort(Dangling);
      }
      if Supported(maps[a].ftype) {
        maps := maps[a := maps[a].(curPos := Wrap64(result))];
      }
      r := Ok(());
    }

    method Replicate(op: Op) returns (r: Outcome<()>)
      requires Valid()
      modifies this
      ensures Did(Step(env, old(Now()), op), r)
    {
      match op
      case Open(pid, fd, name, directory) => r := Open(pid, fd, name, directory);
      case Close(pid, fd) => r := Close(pid, fd);
      case Dup(pid, oldFd, newFd) => r := Duplicate(pid, oldFd, newFd);
      case Clone(pid, child, files) => r := Clone(pid, child, files);
      case Pipe(pid, fd1, fd2, retval) => r := OpenPipe(pid, fd1, fd2, retval);
      case Socket(pid, fd) => r := OpenSocket(pid, fd);
      case Read(pid, fd, retval) => r := Transfer(pid, fd, false, None, retval);
      case Write(pid, fd, retval) => r := Transfer(pid, fd, true, None, retval);
      case Pread(pid, fd, offset, retval) => r := Transfer(pid, fd, false, Some(offset), retval);
      case Pwrite(pid, fd, offset, retval) => r := Transfer(pid, fd, true, Some(offset), retval);
      case Seek(pid, fd, result) => r := SetPosition(pid, fd, result);
    }

    /** The loop over the trace; it stops where the program would. */
    method ReplicateAll(ops: seq<Op>) returns (r: Outcome<()>)
      requires Valid()
      modifies this
      ensures Did(Run(env, old(Now()), ops), r)
    {
      ghost var start := Now();
      var i := 0;
      while i < |ops|
        invariant 0 <= i <= |ops| && Valid()
        invariant Run(env, start, ops) == Run(env, Now(), ops[i..])
      {
        assert ops[i..][1..] == ops[i + 1..];
        var _ :- Replicate(ops[i]);
        i := i + 1;
      }
      r := Ok(());
    }
  }
}
