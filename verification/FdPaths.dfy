/** Every step that goes through is a short path of elementary changes to one table. */
module FdPaths {
  import opened Options
  import opened FdMaps
  import opened FdMachine
  import opened FdInvariant
  import opened FdSafety

  datatype Change =
    | Add(fd: int)                // a new record under a new entry
    | Shut(fd: int)               // an entry closed
    | Link(source: int, fd: int)  // one more name for a record
    | Copy(table: int)            // a table copied with all its records
    | Move(fd: int)               // a position set
    | Quiet                       // tables and records stay

  /** s' is s after one change to table t. */
  ghost predicate Does(s: State, t: int, c: Change, s': State) {
    match c
    case Add(fd) =>
      && t in s.tables && fd >= 0 && fd !in s.tables[t] && s'.procs == s.procs
      && s'.tables == s.tables[t := s.tables[t][fd := Addr(s.clock, fd)]]
      && Addr(s.clock, fd) in s'.maps && s'.maps == s.maps[Addr(s.clock, fd) := s'.maps[Addr(s.clock, fd)]]
      && Parents(s'.maps[Addr(s.clock, fd)].parents) == {fd} && s'.maps[Addr(s.clock, fd)].curPos == 0
      && s'.clock == s.clock + 1
    case Shut(fd) =>
      Entry(s, t, fd) && fd >= 0 && CloseEntry(s, t, fd, s.tables[t][fd]) == Ok(s')
    case Link(source, fd) =>
      && Entry(s, t, source) && s.tables[t][source] in s.maps && fd >= 0 && fd !in s.tables[t]
      && !Full(s.maps[s.tables[t][source]].parents)
      && LinkEntry(s, t, fd, s.tables[t][source]) == Ok(s')
    case Copy(u) =>
      u in s.tables && CopyTable(s, u) == Ok(s')
    case Move(fd) =>
      && Entry(s, t, fd) && s.tables[t][fd] in s.maps && s.tables[t][fd] in s'.maps
      && s'.tables == s.tables && s'.procs == s.procs && s'.clock == s.clock
      && s'.maps == s.maps[s.tables[t][fd] := s.maps[s.tables[t][fd]].(curPos := s'.maps[s.tables[t][fd]].curPos)]
    case Quiet =>
      && s'.tables == s.tables && s'.maps == s.maps && s'.clock == s.clock
      && forall p :: p in s.procs ==> p in s'.procs && s'.procs[p] == s.procs[p]
  }

  ghost predicate Path(s: State, t: int, states: seq<State>, changes: seq<Change>, s': State) {
    && |states| == |changes| + 1 && states[0] == s && states[|changes|] == s'
    && forall i :: 0 <= i < |changes| ==> Inv(states[i]) && Does(states[i], t, changes[i], states[i + 1])
  }

  lemma JoinPaths(s: State, t: int, xs: seq<State>, cs: seq<Change>, s1: State, ys: seq<State>, ds: seq<Change>,
                  s2: State)
    requires Path(s, t, xs, cs, s1) && Path(s1, t, ys, ds, s2)
    ensures Path(s, t, xs + ys[1..], cs + ds, s2)
  {
    hide Inv, Does;
    var zs, es := xs + ys[1..], cs + ds;
    forall i | 0 <= i < |es| ensures Inv(zs[i]) && Does(zs[i], t, es[i], zs[i + 1]) {
      if i < |cs| {
        assert Does(xs[i], t, cs[i], xs[i + 1]);
      } else {
        assert Does(ys[i - |cs|], t, ds[i - |cs|], ys[i - |cs| + 1]);
        assert zs[i] == ys[i - |cs|];
      }
    }
  }

  lemma OneChange(s: State, t: int, c: Change, s': State)
    requires Inv(s) && Does(s, t, c, s')
    ensures Path(s, t, [s, s'], [c], s')
  {
    hide Inv, Does;
  }

  ghost predicate Copyless(changes: seq<Change>) {
    forall c :: c in changes ==> !c.Copy?
  }

  /** No table is copied and no position set. */
  ghost predicate Still(changes: seq<Change>) {
    forall c :: c in changes ==> !c.Copy? && !c.Move?
  }

  lemma OpenAtPath(env: Env, s: State, t: int, fd: int, name: string, directory: bool)
    requires Inv(s) && t in s.tables && fd >= 0 && fd !in s.tables[t]
    ensures Does(s, t, Add(fd), OpenAt(env, s, t, fd, name, directory))
  {
  }

  lemma GetTablePath(env: Env, s: State, pid: int) returns (states: seq<State>, changes: seq<Change>)
    requires Inv(s) && GetTable(env, s, pid).Ok? && pid >= 0
    ensures Path(s, TableOf(s, pid), states, changes, GetTable(env, s, pid).value.0) && Still(changes)
  {
    var s1 := GetTable(env, s, pid).value.0;
    states, changes := [s, s1], [Quiet];
    OneChange(s, TableOf(s, pid), Quiet, s1);
  }

  lemma ResolvePath(env: Env, s: State, pid: int, fd: int) returns (states: seq<State>, changes: seq<Change>)
    requires Inv(s) && s.openFd <= s.sockFd && Resolve(env, s, pid, fd).Ok?
    ensures Path(s, TableOf(s, pid), states, changes, Resolve(env, s, pid, fd).value.0) && Still(changes)
  {
    ResolveFaults(env, s, pid, fd);
    GetTableWorks(env, s, pid);
    states, changes := GetTablePath(env, s, pid);
    var (s1, t) := GetTable(env, s, pid).value;
    if t.Some? {
      GetEntryWorks(env, s1, pid, t.value, fd);
      var (s2, a) := GetEntry(env, s1, pid, t.value, fd).value;
      if s2 != s1 {
        OpenAtPath(env, s1, t.value, fd, env.missingName(pid, fd), false);
        OneChange(s1, t.value, Add(fd), s2);
        JoinPaths(s, t.value, states, changes, s1, [s1, s2], [Add(fd)], s2);
        states, changes := states + [s1, s2][1..], changes + [Add(fd)];
      }
    }
  }

  lemma ClosePath(env: Env, s: State, pid: int, fd: int) returns (states: seq<State>, changes: seq<Change>)
    requires Inv(s) && s.openFd <= s.sockFd && CloseSpec(env, s, pid, fd).Ok?
    ensures Path(s, TableOf(s, pid), states, changes, CloseSpec(env, s, pid, fd).value) && Still(changes)
  {
    states, changes := ResolvePath(env, s, pid, fd);
    ResolveFaults(env, s, pid, fd);
    ResolveWorks(env, s, pid, fd);
    var (s1, e) := Resolve(env, s, pid, fd).value;
    if e.Some? {
      var t := e.value.0;
      var s2 := CloseEntry(s1, t, fd, e.value.1).value;
      OneChange(s1, t, Shut(fd), s2);
      JoinPaths(s, t, states, changes, s1, [s1, s2], [Shut(fd)], s2);
      states, changes := states + [s1, s2][1..], changes + [Shut(fd)];
    }
  }

  lemma Extend(s: State, t: int, states: seq<State>, changes: seq<Change>, s1: State, c: Change, s2: State)
      returns (states': seq<State>, changes': seq<Change>)
    requires Path(s, t, states, changes, s1) && Inv(s1) && Does(s1, t, c, s2)
    ensures Path(s, t, states', changes', s2) && changes' == changes + [c]
  {
    hide Inv, Does;
    assert Path(s1, t, [s1, s2], [c], s2);
    JoinPaths(s, t, states, changes, s1, [s1, s2], [c], s2);
    states', changes' := states + [s1, s2][1..], changes + [c];
  }

  lemma LinkPath(s: State, t: int, oldFd: int, newFd: int)
    requires Inv(s) && Entry(s, t, oldFd) && newFd >= 0 && newFd !in s.tables[t]
    requires LinkEntry(s, t, newFd, s.tables[t][oldFd]).Ok? && Inv(LinkEntry(s, t, newFd, s.tables[t][oldFd]).value)
    ensures Does(s, t, Link(oldFd, newFd), LinkEntry(s, t, newFd, s.tables[t][oldFd]).value)
  {
    LinkAfterClose(s, t, oldFd, newFd);
  }

  /** dup once the source entry is found: close the target, then link it. */
  lemma DupFoundPath(env: Env, s: State, pid: int, t: int, oldFd: int, newFd: int)
      returns (states: seq<State>, changes: seq<Change>)
    requires Inv(s) && s.openFd <= s.sockFd && Lookup(s, pid) == Ok(Some(t)) && TableOf(s, pid) == t
    requires Entry(s, t, oldFd) && newFd >= 0 && newFd != oldFd
    requires CloseSpec(env, s, pid, newFd).Ok?
    requires LinkEntry(CloseSpec(env, s, pid, newFd).value, t, newFd, s.tables[t][oldFd]).Ok?
    requires Inv(LinkEntry(CloseSpec(env, s, pid, newFd).value, t, newFd, s.tables[t][oldFd]).value)
    ensures Path(s, t, states, changes,
                 LinkEntry(CloseSpec(env, s, pid, newFd).value, t, newFd, s.tables[t][oldFd]).value)
    ensures Still(changes)
  {
    hide Inv, Does, CloseSpec, LinkEntry;
    var s2 := CloseSpec(env, s, pid, newFd).value;
    states, changes := ClosePath(env, s, pid, newFd);
    CloseBeforeDup(env, s, pid, t, oldFd, newFd);
    LinkPath(s2, t, oldFd, newFd);
    states, changes := Extend(s, t, states, changes, s2, Link(oldFd, newFd),
                              LinkEntry(s2, t, newFd, s.tables[t][oldFd]).value);
  }

  lemma DupPath(env: Env, s: State, pid: int, oldFd: int, newFd: int) returns (states: seq<State>, changes: seq<Change>)
    requires Inv(s) && Stock(s, 1) && newFd != -1 && DupSpec(env, s, pid, oldFd, newFd).Ok?
    requires Inv(DupSpec(env, s, pid, oldFd, newFd).value)
    ensures Path(s, TableOf(s, pid), states, changes, DupSpec(env, s, pid, oldFd, newFd).value) && Still(changes)
  {
    hide Inv, Resolve, CloseSpec, LinkEntry, Does;
    TablesExist(s);
    ResolveFaults(env, s, pid, oldFd);
    ResolveWorks(env, s, pid, oldFd);
    states, changes := ResolvePath(env, s, pid, oldFd);
    var (s1, e) := Resolve(env, s, pid, oldFd).value;
    if e.Some? {
      var (t, a) := e.value;
      if newFd < 0 { NegativeClose(env, s1, pid, t, newFd); }
      var states1, changes1 := DupFoundPath(env, s1, pid, t, oldFd, newFd);
      JoinPaths(s, t, states, changes, s1, states1, changes1, DupSpec(env, s, pid, oldFd, newFd).value);
      states, changes := states + states1[1..], changes + changes1;
    }
  }

  lemma BothEndsPath(s: State, t: int, fd1: int, fd2: int)
    requires Inv(s) && Stock(s, 1) && t in s.tables && fd1 != fd2 && fd1 >= 0 && fd2 >= 0
    requires fd1 !in s.tables[t] && fd2 !in s.tables[t] && PipeHarmless(s, fd1)
    ensures var s1 := PipeEnd(s, t, fd1);
            Does(s, t, Add(fd1), s1) && Inv(s1) && Does(s1, t, Add(fd2), BothEnds(s, t, fd1, fd2))
  {
    PipeEndKeepsInv(s, t, fd1);
    hide Inv, PipeHarmless;
  }

  lemma PipePath(env: Env, s: State, pid: int, fd1: int, fd2: int, retval: int)
      returns (states: seq<State>, changes: seq<Change>)
    requires Inv(s) && Stock(s, 1) && fd1 != fd2 && retval != -1
    requires !Faults(env, s, Pipe(pid, fd1, fd2, retval)) && !Breaks(env, s, Pipe(pid, fd1, fd2, retval))
    requires PipeSpec(env, s, pid, fd1, fd2, retval).Ok?
    ensures Path(s, TableOf(s, pid), states, changes, PipeSpec(env, s, pid, fd1, fd2, retval).value) && Still(changes)
  {
    hide Inv, PipeHarmless, PipeEnd, Does;
    TablesExist(s);
    GetTableWorks(env, s, pid);
    states, changes := GetTablePath(env, s, pid);
    var (s1, t) := GetTable(env, s, pid).value;
    SamePipeHarmless(s, s1, fd1);
    SamePipeHarmless(s, s1, fd2);
    if t.Some? && fd1 !in s1.tables[t.value] && fd2 !in s1.tables[t.value] {
      BothEndsPath(s1, t.value, fd1, fd2);
      var s2 := PipeEnd(s1, t.value, fd1);
      states, changes := Extend(s, t.value, states, changes, s1, Add(fd1), s2);
      states, changes := Extend(s, t.value, states, changes, s2, Add(fd2), BothEnds(s1, t.value, fd1, fd2));
    }
  }

  lemma TransferPath(env: Env, s: State, pid: int, fd: int, write: bool, at: Option<int>, retval: int)
      returns (states: seq<State>, changes: seq<Change>)
    requires Inv(s) && s.openFd <= s.sockFd && TransferSpec(env, s, pid, fd, write, at, retval).Ok?
    ensures Path(s, TableOf(s, pid), states, changes, TransferSpec(env, s, pid, fd, write, at, retval).value)
    ensures Copyless(changes)
  {
    TablesExist(s);
    ResolveFaults(env, s, pid, fd);
    ResolveWorks(env, s, pid, fd);
    states, changes := ResolvePath(env, s, pid, fd);
    var (s1, e) := Resolve(env, s, pid, fd).value;
    hide Inv, Resolve;
    if e.Some? {
      var (t, a) := e.value;
      var s2 := Transfer(s1, a, write, at, retval).value;
      var c := if at.Some? || !Supported(s1.maps[a].ftype) then Quiet else Move(fd);
      assert Does(s1, t, c, s2);
      states, changes := Extend(s, t, states, changes, s1, c, s2);
    }
  }

  lemma SeekPath(env: Env, s: State, pid: int, fd: int, result: int)
      returns (states: seq<State>, changes: seq<Change>)
    requires Inv(s) && s.openFd <= s.sockFd && SeekSpec(env, s, pid, fd, result).Ok?
    ensures Path(s, TableOf(s, pid), states, changes, SeekSpec(env, s, pid, fd, result).value) && Copyless(changes)
  {
    TablesExist(s);
    ResolveFaults(env, s, pid, fd);
    ResolveWorks(env, s, pid, fd);
    states, changes := ResolvePath(env, s, pid, fd);
    var (s1, e) := Resolve(env, s, pid, fd).value;
    hide Inv, Resolve;
    if e.Some? {
      var (t, a) := e.value;
      var s2 := Reposition(s1, a, result).value;
      var c := if !Supported(s1.maps[a].ftype) then Quiet else Move(fd);
      assert Does(s1, t, c, s2);
      states, changes := Extend(s, t, states, changes, s1, c, s2);
    }
  }

  lemma NewEntryDoes(env: Env, s: State, op: Op)
    requires Inv(s) && Stock(s, 1) && (op.Open? || op.Socket?) && op.fd != -1 && Step(env, s, op).Ok?
    ensures GetTable(env, s, op.pid).Ok?
    ensures var (s1, t) := GetTable(env, s, op.pid).value; var s2 := Step(env, s, op).value;
            Inv(s1) && (s2 == s1 || (t == Some(TableOf(s, op.pid)) && Does(s1, t.value, Add(op.fd), s2)))
  {
    GetTableWorks(env, s, op.pid);
    hide Inv;
  }

  lemma NewEntryPath(env: Env, s: State, op: Op) returns (states: seq<State>, changes: seq<Change>)
    requires Inv(s) && Stock(s, 1) && (op.Open? || op.Socket?) && Step(env, s, op).Ok?
    ensures Path(s, TableOf(s, op.pid), states, changes, Step(env, s, op).value) && Still(changes)
  {
    TablesExist(s);
    if op.fd == -1 {
      states, changes := QuietPath(s, TableOf(s, op.pid));
    } else {
      NewEntryDoes(env, s, op);
      states, changes := GetTablePath(env, s, op.pid);
      hide Inv, Does;
      var (s1, t) := GetTable(env, s, op.pid).value;
      var s2 := Step(env, s, op).value;
      if s2 != s1 {
        states, changes := Extend(s, t.value, states, changes, s1, Add(op.fd), s2);
      }
    }
  }

  lemma CopyDoes(s: State, t: int)
    requires t in s.tables && CopyTable(s, t).Ok?
    ensures Does(s, t, Copy(t), CopyTable(s, t).value) && CopyTable(s, t).value.procs == s.procs
  {
  }

  lemma RegisterDoes(s: State, t: int, pid: int, v: Option<int>)
    ensures Does(s, t, Quiet, s.(procs := Register(s.procs, pid, v)))
  {
  }

  lemma CloneIsCopyThenRegister(s: State, from: int, child: int)
    requires CloneSpec(s, from, child, false).Ok? && !HasTable(s, child)
    ensures HasTable(s, from) && CopyTable(s, s.procs[from].value).Ok?
    ensures CloneSpec(s, from, child, false).value
         == CopyTable(s, s.procs[from].value).value.(procs := Register(s.procs, child, Some(s.nextTable)))
  {
    hide CopyTable;
  }

  /** A copying clone copies the table and then registers the new process. */
  lemma CopyThenRegister(s: State, from: int, child: int)
    requires Inv(s) && CloneSpec(s, from, child, false).Ok? && !HasTable(s, child)
    ensures HasTable(s, from) && HasTable(s, s.parentPid)
    ensures var s1 := CopyTable(s, TableOf(s, from)); var s2 := CloneSpec(s, from, child, false).value;
            s1.Ok? && Inv(s1.value) && Does(s, TableOf(s, from), Copy(TableOf(s, from)), s1.value)
            && Does(s1.value, TableOf(s, from), Quiet, s2)
  {
    hide Inv, CopyTable, Does, CloneSpec;
    TablesExist(s);
    CloneIsCopyThenRegister(s, from, child);
    var t := s.procs[from].value;
    CopyTableKeepsInv(s, t);
    CopyDoes(s, t);
    RegisterDoes(CopyTable(s, t).value, t, child, Some(s.nextTable));
  }

  lemma CopyPath(s: State, from: int, child: int) returns (states: seq<State>, changes: seq<Change>)
    requires Inv(s) && CloneSpec(s, from, child, false).Ok? && !HasTable(s, child)
    ensures Path(s, TableOf(s, from), states, changes, CloneSpec(s, from, child, false).value)
    ensures changes == [Copy(TableOf(s, from)), Quiet]
  {
    hide Inv, Does, CopyTable, CloneSpec;
    TablesExist(s);
    CopyThenRegister(s, from, child);
    OneChange(s, TableOf(s, from), Copy(TableOf(s, from)), CopyTable(s, TableOf(s, from)).value);
    var t, s1 := TableOf(s, from), CopyTable(s, TableOf(s, from)).value;
    states, changes := Extend(s, t, [s, s1], [Copy(t)], s1, Quiet, CloneSpec(s, from, child, false).value);
  }

  /** clone: sharing changes no table; copying copies the table of the caller. */
  lemma ClonePath(s: State, from: int, child: int, files: bool) returns (states: seq<State>, changes: seq<Change>)
    requires Inv(s) && CloneSpec(s, from, child, files).Ok?
    ensures Path(s, TableOf(s, from), states, changes, CloneSpec(s, from, child, files).value)
    ensures changes == if files || HasTable(s, child) then [Quiet] else [Copy(TableOf(s, from)), Quiet]
  {
    TablesExist(s);
    hide Inv;
    if files || HasTable(s, child) {
      var s2 := CloneSpec(s, from, child, files).value;
      OneChange(s, TableOf(s, from), Quiet, s2);
      states, changes := [s, s2], [Quiet];
    } else {
      states, changes := CopyPath(s, from, child);
    }
  }

  predicate Transfers(op: Op) {
    op.Read? || op.Write? || op.Pread? || op.Pwrite? || op.Seek?
  }

  predicate CopyingClone(s: State, op: Op) {
    op.Clone? && !op.files && !HasTable(s, op.child)
  }

  /** A sound step is a path of changes to the table of its process; only a copying clone copies. */
  lemma StepPath(env: Env, s: State, op: Op) returns (states: seq<State>, changes: seq<Change>)
    requires Inv(s) && Stock(s, 1) && Plausible(op) && !Faults(env, s, op) && !Breaks(env, s, op)
    ensures Step(env, s, op).Ok? && Inv(Step(env, s, op).value)
    ensures Path(s, TableOf(s, op.pid), states, changes, Step(env, s, op).value)
    ensures if CopyingClone(s, op) then changes == [Copy(TableOf(s, op.pid)), Quiet] else Copyless(changes)
    ensures Transfers(op) || CopyingClone(s, op) || Still(changes)
  {
    StepExact(env, s, op);
    TablesExist(s);
    hide Inv, Does, OpenSpec, CloseSpec, DupSpec, CloneSpec, PipeSpec, SocketSpec, TransferSpec, SeekSpec, Faults,
      Breaks;
    match op
    case Open(_, _, _, _) => states, changes := NewEntryPath(env, s, op);
    case Socket(_, _) => states, changes := NewEntryPath(env, s, op);
    case Close(pid, fd) => states, changes := ClosePath(env, s, pid, fd);
    case Dup(pid, oldFd, newFd) =>
      if newFd == -1 {
        states, changes := QuietPath(s, TableOf(s, pid));
      } else {
        states, changes := DupPath(env, s, pid, oldFd, newFd);
      }
    case Clone(pid, child, files) => states, changes := ClonePath(s, pid, child, files);
    case Pipe(pid, fd1, fd2, retval) =>
      if retval == -1 {
        states, changes := QuietPath(s, TableOf(s, pid));
      } else {
        states, changes := PipePath(env, s, pid, fd1, fd2, retval);
      }
    case Read(pid, fd, retval) => states, changes := TransferPath(env, s, pid, fd, false, None, retval);
    case Write(pid, fd, retval) => states, changes := TransferPath(env, s, pid, fd, true, None, retval);
    case Pread(pid, fd, offset, retval) =>
      states, changes := TransferPath(env, s, pid, fd, false, Some(offset), retval);
    case Pwrite(pid, fd, offset, retval) =>
      states, changes := TransferPath(env, s, pid, fd, true, Some(offset), retval);
    case Seek(pid, fd, result) => states, changes := SeekPath(env, s, pid, fd, result);
  }

  lemma QuietPath(s: State, t: int) returns (states: seq<State>, changes: seq<Change>)
    ensures Path(s, t, states, changes, s) && changes == []
  {
    states, changes := [s], [];
  }
}
