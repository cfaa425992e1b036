/** When a step faults and when it keeps the invariant: both exactly, for every record. */
module FdSafety {
  import opened Options
  import opened FdMaps
  import opened FdMachine
  import opened FdInvariant

  predicate HasTable(s: State, pid: int) {
    pid in s.procs && s.procs[pid].Some?
  }

  /** A table is found or made up for pid. It is not for a pid that was cloned, with shared tables,
      from a process nobody knew: that one holds a NULL table for good. */
  predicate Resolves(env: Env, s: State, pid: int) {
    HasTable(s, pid) || (env.fixMissing && pid !in s.procs)
  }

  /** The table that records of pid work on: its own, or that of the first process. */
  function TableOf(s: State, pid: int): int
    requires HasTable(s, s.parentPid)
  {
    if HasTable(s, pid) then s.procs[pid].value else s.procs[s.parentPid].value
  }

  function EntriesOf(s: State, pid: int): Table
    requires HasTable(s, s.parentPid)
  {
    TableAt(s, TableOf(s, pid))
  }

  /** The record of oldFd still lists newFd, which is no longer (or never was) its alias here. */
  predicate StaleParent(s: State, tbl: Table, oldFd: int, newFd: int) {
    && oldFd in tbl && tbl[oldFd] in s.maps && newFd in Parents(s.maps[tbl[oldFd]].parents)
    && !(newFd in tbl && tbl[newFd] == tbl[oldFd])
  }

  /** The steps that stop the program. */
  predicate Faults(env: Env, s: State, op: Op)
    requires HasTable(s, s.parentPid)
  {
    match op
    case Open(pid, fd, _, _) => fd != -1 && (pid < 0 || (Resolves(env, s, pid) && fd < 0))
    case Socket(pid, fd) => fd != -1 && (pid < 0 || (Resolves(env, s, pid) && fd < 0))
    case Close(pid, fd) => pid < 0 || (Resolves(env, s, pid) && fd < 0)
    case Read(pid, fd, _) => pid < 0 || (Resolves(env, s, pid) && fd < 0)
    case Write(pid, fd, _) => pid < 0 || (Resolves(env, s, pid) && fd < 0)
    case Pread(pid, fd, _, _) => pid < 0 || (Resolves(env, s, pid) && fd < 0)
    case Pwrite(pid, fd, _, _) => pid < 0 || (Resolves(env, s, pid) && fd < 0)
    case Seek(pid, fd, _) => pid < 0 || (Resolves(env, s, pid) && fd < 0)
    case Pipe(pid, fd1, fd2, retval) =>
      retval != -1 && (pid < 0 || (Resolves(env, s, pid) && (fd1 < 0 || (fd1 !in EntriesOf(s, pid) && fd2 < 0))))
    case Clone(pid, child, files) =>
      child < 0 || (!HasTable(s, child) && (pid < 0 || (!files && !HasTable(s, pid))))
    case Dup(pid, oldFd, newFd) =>
      newFd != -1 && (pid < 0 || (Resolves(env, s, pid) && (oldFd < 0 ||
        ((oldFd in EntriesOf(s, pid) || env.fixMissing) &&
         (newFd < 0 || newFd == oldFd || StaleParent(s, EntriesOf(s, pid), oldFd, newFd))))))
  }

  /** The steps that run but leave the bookkeeping wrong: the 21st alias of a record, and a pipe end
      counted under a number that belongs to an open file. */
  ghost predicate Breaks(env: Env, s: State, op: Op)
    requires HasTable(s, s.parentPid)
  {
    match op
    case Dup(pid, oldFd, newFd) =>
      newFd != -1 && Resolves(env, s, pid) && oldFd in EntriesOf(s, pid)
      && EntriesOf(s, pid)[oldFd] in s.maps
      && Full(s.maps[EntriesOf(s, pid)[oldFd]].parents)
      && newFd !in Parents(s.maps[EntriesOf(s, pid)[oldFd]].parents)
    case Pipe(pid, fd1, fd2, retval) =>
      retval != -1 && Resolves(env, s, pid) && fd1 !in EntriesOf(s, pid) && fd2 !in EntriesOf(s, pid)
      && (!PipeHarmless(s, fd1) || !PipeHarmless(s, fd2))
    case _ => false
  }

  /** The supplies last for n more records. */
  predicate Stock(s: State, n: nat) {
    s.openFd + 3 * n <= s.sockFd && LAST_SOCKET_FD + 2 * n <= s.pipeFd
  }

  /** What one record takes from the supplies at most. */
  predicate Spends(s: State, s': State) {
    && s'.openFd - s'.sockFd <= s.openFd - s.sockFd + 3
    && s.pipeFd - 2 <= s'.pipeFd
  }

  /** pipe(2) returns two different descriptors. */
  predicate Plausible(op: Op) {
    op.Pipe? ==> op.fd1 != op.fd2
  }

  lemma GetTableWorks(env: Env, s: State, pid: int)
    requires Inv(s) && pid >= 0
    ensures GetTable(env, s, pid).Ok?
    ensures var (s1, t) := GetTable(env, s, pid).value;
            && Inv(s1) && s1 == s.(procs := s1.procs)
            && (t.Some? <==> Resolves(env, s, pid))
            && (t.Some? ==> t.value == TableOf(s, pid) && t.value in s.tables && Lookup(s1, pid) == Ok(t))
  {
    var (s1, t) := GetTable(env, s, pid).value;
    RegisterKeepsInv(s, pid, s.procs[s.parentPid]);
  }

  lemma GetEntryWorks(env: Env, s: State, pid: int, t: int, fd: int)
    requires Inv(s) && s.openFd <= s.sockFd && Lookup(s, pid) == Ok(Some(t)) && fd >= 0
    ensures GetEntry(env, s, pid, t, fd).Ok?
    ensures var (s1, a) := GetEntry(env, s, pid, t, fd).value;
            && Inv(s1) && (a.Some? <==> fd in s.tables[t] || env.fixMissing)
            && (a.Some? ==> Entry(s1, t, fd) && a.value == s1.tables[t][fd])
            && s1 == if fd in s.tables[t] || a.None? then s else OpenAt(env, s, t, fd, env.missingName(pid, fd), false)
  {
    if fd !in s.tables[t] && env.fixMissing {
      OpenAtKeepsInv(env, s, t, fd, env.missingName(pid, fd), false);
    }
  }

  /** What the repaired lookup of (pid, fd) finds. */
  lemma ResolveWorks(env: Env, s: State, pid: int, fd: int)
    requires Inv(s) && s.openFd <= s.sockFd && pid >= 0 && (Resolves(env, s, pid) ==> fd >= 0)
    ensures Resolve(env, s, pid, fd).Ok?
    ensures var (s1, e) := Resolve(env, s, pid, fd).value;
            && Inv(s1) && (e.Some? <==> Resolves(env, s, pid) && (fd in EntriesOf(s, pid) || env.fixMissing))
            && (e.Some? ==> e.value.0 == TableOf(s, pid) && e.value.1 in s1.maps
                            && Lookup(s1, pid) == Ok(Some(TableOf(s, pid)))
                            && Entry(s1, e.value.0, fd) && e.value.1 == s1.tables[e.value.0][fd])
            && s1.sockFd == s.sockFd && s1.pipeFd == s.pipeFd && s.openFd <= s1.openFd <= s.openFd + 1
            && (e.None? || fd in EntriesOf(s, pid) ==> s1 == s.(procs := s1.procs))
  {
    GetTableWorks(env, s, pid);
    var (s1, t) := GetTable(env, s, pid).value;
    if t.Some? {
      GetEntryWorks(env, s1, pid, t.value, fd);
    }
  }

  lemma ResolveFaults(env: Env, s: State, pid: int, fd: int)
    requires Inv(s) && s.openFd <= s.sockFd
    ensures Resolve(env, s, pid, fd).Abort? <==> pid < 0 || (Resolves(env, s, pid) && fd < 0)
  {
    if pid >= 0 {
      GetTableWorks(env, s, pid);
      if !(Resolves(env, s, pid) && fd < 0) {
        ResolveWorks(env, s, pid, fd);
      }
    }
  }

  lemma OpenStep(env: Env, s: State, pid: int, fd: int, name: string, directory: bool)
    requires Inv(s) && Stock(s, 1)
    ensures var r := OpenSpec(env, s, pid, fd, name, directory);
            && (r.Abort? <==> fd != -1 && (pid < 0 || (Resolves(env, s, pid) && fd < 0)))
            && (r.Ok? ==> Inv(r.value) && Spends(s, r.value))
  {
    if fd != -1 && pid >= 0 {
      GetTableWorks(env, s, pid);
      var (s1, t) := GetTable(env, s, pid).value;
      if t.Some? && fd >= 0 && fd !in s1.tables[t.value] {
        OpenAtKeepsInv(env, s1, t.value, fd, name, directory);
      }
    }
  }

  lemma SocketStep(env: Env, s: State, pid: int, fd: int)
    requires Inv(s) && Stock(s, 1)
    ensures var r := SocketSpec(env, s, pid, fd);
            && (r.Abort? <==> fd != -1 && (pid < 0 || (Resolves(env, s, pid) && fd < 0)))
            && (r.Ok? ==> Inv(r.value) && Spends(s, r.value))
  {
    hide Inv;
    if fd != -1 && pid >= 0 {
      GetTableWorks(env, s, pid);
      var (s1, t) := GetTable(env, s, pid).value;
      if t.Some? && fd >= 0 && fd !in s1.tables[t.value] {
        SocketKeepsInv(s1, t.value, fd);
      }
    }
  }

  lemma TablesExist(s: State)
    requires Inv(s)
    ensures HasTable(s, s.parentPid)
    ensures forall p :: HasTable(s, p) ==> s.procs[p].value in s.tables
  {
  }

  lemma CloneStep(s: State, from: int, child: int, files: bool)
    requires Inv(s)
    ensures var r := CloneSpec(s, from, child, files);
            && (r.Abort? <==> child < 0 || (!HasTable(s, child) && (from < 0 || (!files && !HasTable(s, from)))))
            && (r.Ok? ==> Inv(r.value) && Spends(s, r.value))
  {
    TablesExist(s);
    hide Inv;
    if child >= 0 && !HasTable(s, child) && from >= 0 {
      if files {
        RegisterKeepsInv(s, child, Lookup(s, from).value);
      } else if HasTable(s, from) {
        CopyTableKeepsInv(s, s.procs[from].value);
        var s1 := CopyTable(s, s.procs[from].value).value;
        RegisterKeepsInv(s1, child, Some(s.nextTable));
      }
    }
  }

  lemma CloseStep(env: Env, s: State, pid: int, fd: int)
    requires Inv(s) && s.openFd <= s.sockFd
    ensures var r := CloseSpec(env, s, pid, fd);
            && (r.Abort? <==> pid < 0 || (Resolves(env, s, pid) && fd < 0))
            && (r.Ok? ==> Inv(r.value) && Spends(s, r.value))
  {
    ResolveFaults(env, s, pid, fd);
    if Resolve(env, s, pid, fd).Ok? {
      ResolveWorks(env, s, pid, fd);
      var (s1, e) := Resolve(env, s, pid, fd).value;
      if e.Some? {
        CloseEntryKeepsInv(s1, e.value.0, fd);
      }
    }
  }

  lemma TransferStep(env: Env, s: State, pid: int, fd: int, write: bool, at: Option<int>, retval: int)
    requires Inv(s) && Stock(s, 1)
    ensures var r := TransferSpec(env, s, pid, fd, write, at, retval);
            && (r.Abort? <==> pid < 0 || (Resolves(env, s, pid) && fd < 0))
            && (r.Ok? ==> Inv(r.value) && Spends(s, r.value))
  {
    hide Inv;
    ResolveFaults(env, s, pid, fd);
    if Resolve(env, s, pid, fd).Ok? {
      ResolveWorks(env, s, pid, fd);
      var (s1, e) := Resolve(env, s, pid, fd).value;
      if e.Some? {
        var a := e.value.1;
        var s2 := Transfer(s1, a, write, at, retval).value;
        if at.Some? || !Supported(s1.maps[a].ftype) {
          NoteKeepsInv(s1, s2);
        } else {
          MoveKeepsInv(s1, s2, a, Wrap64(s1.maps[a].curPos + retval));
        }
      }
    }
  }

  lemma SeekStep(env: Env, s: State, pid: int, fd: int, result: int)
    requires Inv(s) && Stock(s, 1)
    ensures var r := SeekSpec(env, s, pid, fd, result);
            && (r.Abort? <==> pid < 0 || (Resolves(env, s, pid) && fd < 0))
            && (r.Ok? ==> Inv(r.value) && Spends(s, r.value))
  {
    ResolveFaults(env, s, pid, fd);
    if Resolve(env, s, pid, fd).Ok? {
      ResolveWorks(env, s, pid, fd);
      var (s1, e) := Resolve(env, s, pid, fd).value;
      if e.Some? && Supported(s1.maps[e.value.1].ftype) {
        MoveKeepsInv(s1, Reposition(s1, e.value.1, result).value, e.value.1, Wrap64(result));
      }
    }
  }

  // ---------- pipe ----------

  lemma PipeEndWatches(s: State, t: int, fd: int, k: int)
    requires Recorded(s) && Fresh(s) && t in s.tables && fd >= 0 && fd !in s.tables[t]
    ensures Watched(PipeEnd(s, t, fd), k) <==> Watched(s, k)
  {
    var s' := PipeEnd(s, t, fd);
    forall u, f | Entry(s', u, f) && (u, f) != (t, fd)
      ensures Entry(s, u, f) && s'.maps[s'.tables[u][f]] == s.maps[s.tables[u][f]]
    {
      assert Entry(s, u, f);
    }
    forall u, f | Entry(s, u, f)
      ensures Entry(s', u, f) && s.tables[u][f] in s'.maps && s'.maps[s'.tables[u][f]] == s.maps[s.tables[u][f]]
    {
    }
  }

  /** Counting a pipe end under a number in use, or one an open may still get, breaks the invariant. */
  lemma HarmfulPipe(s: State, s': State, k: int, n: nat)
    requires Inv(s) && (s.openFd <= k <= s.sockFd || Watched(s, k))
    requires s'.openFd == s.openFd && s'.sockFd == s.sockFd
    requires k in s'.usage && n >= 1 && Usage(s'.usage, k) == Usage(s.usage, k) + n
    requires Watched(s, k) ==> Watched(s', k) && Users(s', k) == Users(s, k)
    ensures !Inv(s')
  {
    if Watched(s, k) {
      var t, fd :| Entry(s, t, fd) && s.tables[t][fd] in s.maps
        && Supported(s.maps[s.tables[t][fd]].ftype) && s.maps[s.tables[t][fd]].myFd == k;
      assert Usage(s.usage, k) == |Users(s, k)|;
      var t', fd' :| Entry(s', t', fd') && s'.tables[t'][fd'] in s'.maps
        && Supported(s'.maps[s'.tables[t'][fd']].ftype) && s'.maps[s'.tables[t'][fd']].myFd == k;
    }
  }

  lemma PipeEndUsers(s: State, t: int, fd: int, k: int)
    requires Recorded(s) && Fresh(s) && t in s.tables && fd >= 0 && fd !in s.tables[t] && k < s.pipeFd
    ensures Users(PipeEnd(s, t, fd), k) == Users(s, k)
  {
    var s1 := AddEntry(s, t, fd, s.pipeFd, Fifo, "", fd);
    AddEntryUsers(s, t, fd, s.pipeFd, Fifo, "", fd, k);
    SameParts(s1, s1.(pipeFd := s.pipeFd - 1));
  }

  lemma WatchedInRange(s: State, k: int)
    requires Inv(s) && Watched(s, k)
    ensures FIRST_OPEN_FD <= k < s.openFd
  {
  }

  /** Both ends of a pipe, one after the other. */
  function BothEnds(s: State, t: int, fd1: int, fd2: int): State
    requires fd1 >= 0 && fd2 >= 0
  {
    PipeEnd(PipeEnd(s, t, fd1), t, fd2)
  }

  lemma PipeEndLinks(s: State, t: int, fd: int)
    requires Rooted(s) && Recorded(s) && Owned(s) && Fresh(s)
    requires t in s.tables && fd >= 0 && fd !in s.tables[t]
    ensures var s' := PipeEnd(s, t, fd); Rooted(s') && Recorded(s') && Owned(s') && Fresh(s')
  {
    AddEntryLinks(s, t, fd, s.pipeFd, Fifo, "", fd);
  }

  lemma HarmlessPipe(s: State, t: int, fd1: int, fd2: int)
    requires Inv(s) && Stock(s, 1) && t in s.tables && fd1 != fd2 && fd1 >= 0 && fd2 >= 0
    requires fd1 !in s.tables[t] && fd2 !in s.tables[t]
    requires PipeHarmless(s, fd1) && PipeHarmless(s, fd2)
    ensures Inv(BothEnds(s, t, fd1, fd2))
  {
    var s1 := PipeEnd(s, t, fd1);
    PipeEndWatches(s, t, fd1, fd2);
    PipeEndKeepsInv(s, t, fd1);
    hide Inv;
    PipeEndKeepsInv(s1, t, fd2);
  }

  lemma HarmfulPipes(s: State, t: int, fd1: int, fd2: int, k: int)
    requires Inv(s) && Stock(s, 1) && t in s.tables && fd1 != fd2 && fd1 >= 0 && fd2 >= 0
    requires fd1 !in s.tables[t] && fd2 !in s.tables[t]
    requires k in {fd1, fd2} && !PipeHarmless(s, k)
    ensures !Inv(BothEnds(s, t, fd1, fd2))
  {
    var s1, s2 := PipeEnd(s, t, fd1), BothEnds(s, t, fd1, fd2);
    PipeEndLinks(s, t, fd1);
    if Watched(s, k) {
      WatchedInRange(s, k);
      PipeEndWatches(s, t, fd1, k);
      PipeEndWatches(s1, t, fd2, k);
      PipeEndUsers(s, t, fd1, k);
      PipeEndUsers(s1, t, fd2, k);
    }
    hide Recorded, Owned, Fresh, Rooted, Counted;
    HarmfulPipe(s, s2, k, 1);
  }

  lemma PipeInv(s: State, t: int, fd1: int, fd2: int)
    requires Inv(s) && Stock(s, 1) && t in s.tables && fd1 != fd2 && fd1 >= 0 && fd2 >= 0
    requires fd1 !in s.tables[t] && fd2 !in s.tables[t]
    ensures Inv(BothEnds(s, t, fd1, fd2)) <==> PipeHarmless(s, fd1) && PipeHarmless(s, fd2)
  {
    hide Inv, BothEnds, PipeHarmless;
    if !PipeHarmless(s, fd1) {
      HarmfulPipes(s, t, fd1, fd2, fd1);
    } else if !PipeHarmless(s, fd2) {
      HarmfulPipes(s, t, fd1, fd2, fd2);
    } else {
      HarmlessPipe(s, t, fd1, fd2);
    }
  }

  lemma SamePipeHarmless(s: State, s1: State, fd: int)
    requires s1 == s.(procs := s1.procs)
    ensures PipeHarmless(s1, fd) <==> PipeHarmless(s, fd)
  {
  }

  lemma BothEndsSpend(s: State, t: int, fd1: int, fd2: int)
    requires fd1 >= 0 && fd2 >= 0
    ensures Spends(s, BothEnds(s, t, fd1, fd2))
  {
  }

  lemma PipeStep(env: Env, s: State, pid: int, fd1: int, fd2: int, retval: int)
    requires Inv(s) && Stock(s, 1) && fd1 != fd2
    ensures var r := PipeSpec(env, s, pid, fd1, fd2, retval);
            && (r.Abort? <==> Faults(env, s, Pipe(pid, fd1, fd2, retval)))
            && (r.Ok? ==> (Inv(r.value) <==> !Breaks(env, s, Pipe(pid, fd1, fd2, retval))) && Spends(s, r.value))
  {
    hide Inv, PipeHarmless, AddEntry;
    if retval != -1 && pid >= 0 {
      GetTableWorks(env, s, pid);
      var (s1, t) := GetTable(env, s, pid).value;
      SamePipeHarmless(s, s1, fd1);
      SamePipeHarmless(s, s1, fd2);
      if t.Some? && fd1 >= 0 && fd1 !in s.tables[t.value] && fd2 >= 0 && fd2 !in s.tables[t.value] {
        PipeInv(s1, t.value, fd1, fd2);
        BothEndsSpend(s1, t.value, fd1, fd2);
        assert PipeSpec(env, s, pid, fd1, fd2, retval) == Ok(BothEnds(s1, t.value, fd1, fd2));
      }
    }
  }

  // ---------- dup ----------

  /** What closing newFd leaves of the record that oldFd points to. */
  lemma CloseEntryBeforeDup(s: State, t: int, oldFd: int, newFd: int)
    requires Inv(s) && Entry(s, t, oldFd) && Entry(s, t, newFd) && newFd != oldFd
    ensures var r := CloseEntry(s, t, newFd, s.tables[t][newFd]);
            var a := s.tables[t][oldFd];
            && r.Ok? && Inv(r.value) && Entry(r.value, t, oldFd) && r.value.tables[t][oldFd] == a && a in r.value.maps
            && newFd !in r.value.tables[t]
            && (if s.tables[t][newFd] == a
                then Parents(r.value.maps[a].parents) == Parents(s.maps[a].parents) - {newFd}
                     && !Full(r.value.maps[a].parents)
                else r.value.maps[a] == s.maps[a])
  {
    CloseEntryKeepsInv(s, t, newFd);
  }

  lemma SameEntryAfterOpen(env: Env, s: State, pid: int, t: int, oldFd: int, newFd: int)
    requires Inv(s) && s.openFd <= s.sockFd && Lookup(s, pid) == Ok(Some(t))
    requires Entry(s, t, oldFd) && newFd >= 0 && newFd != oldFd
    ensures var r := GetEntry(env, s, pid, t, newFd);
            r.Ok? && var s1 := r.value.0; var a := s.tables[t][oldFd];
            && Entry(s1, t, oldFd) && s1.tables[t][oldFd] == a && a in s1.maps && s1.maps[a] == s.maps[a]
            && (newFd in s.tables[t] ==> s1 == s)
            && (newFd !in s.tables[t] && newFd in s1.tables[t] ==> s1.tables[t][newFd] != a)
            && s.openFd <= s1.openFd <= s.openFd + 1 && s1.sockFd == s.sockFd && s1.pipeFd == s.pipeFd
  {
  }

  lemma CloseBeforeDup(env: Env, s: State, pid: int, t: int, oldFd: int, newFd: int)
    requires Inv(s) && s.openFd <= s.sockFd && Lookup(s, pid) == Ok(Some(t))
    requires Entry(s, t, oldFd) && newFd >= 0 && newFd != oldFd
    ensures var r := CloseSpec(env, s, pid, newFd);
            var a := s.tables[t][oldFd];
            && r.Ok? && Inv(r.value) && Entry(r.value, t, oldFd) && r.value.tables[t][oldFd] == a && a in r.value.maps
            && newFd !in r.value.tables[t]
            && (if newFd in s.tables[t] && s.tables[t][newFd] == a
                then Parents(r.value.maps[a].parents) == Parents(s.maps[a].parents) - {newFd}
                     && !Full(r.value.maps[a].parents)
                else r.value.maps[a] == s.maps[a])
            && s.openFd <= r.value.openFd <= s.openFd + 1 && r.value.sockFd == s.sockFd && r.value.pipeFd == s.pipeFd
  {
    GetEntryWorks(env, s, pid, t, newFd);
    var (s1, e) := GetEntry(env, s, pid, t, newFd).value;
    assert Resolve(env, s, pid, newFd) == Ok((s1, if e.None? then None else Some((t, e.value))));
    SameEntryAfterOpen(env, s, pid, t, oldFd, newFd);
    hide Inv, GetEntry, CloseEntry;
    if e.Some? {
      CloseEntryBeforeDup(s1, t, oldFd, newFd);
    }
  }

  /** The last part of dup: entering the new name. */
  lemma LinkAfterClose(s: State, t: int, oldFd: int, newFd: int)
    requires Inv(s) && Entry(s, t, oldFd) && newFd >= 0 && newFd !in s.tables[t]
    ensures var m := s.maps[s.tables[t][oldFd]];
            var r := LinkEntry(s, t, newFd, s.tables[t][oldFd]);
            && (r.Abort? <==> newFd in Parents(m.parents))
            && (r.Ok? ==> (Inv(r.value) <==> !Full(m.parents)) && r.value == s.(tables := r.value.tables,
                                                                               maps := r.value.maps,
                                                                               usage := r.value.usage))
  {
    var m := s.maps[s.tables[t][oldFd]];
    if newFd !in Parents(m.parents) {
      if Full(m.parents) {
        var s' := LinkEntry(s, t, newFd, s.tables[t][oldFd]).value;
        assert Entry(s', t, newFd) && newFd !in Parents(s'.maps[s'.tables[t][newFd]].parents);
      } else {
        LinkEntryKeepsInv(s, t, newFd, oldFd);
      }
    }
  }

  /** dup on a state where both the table and the source entry are there. */
  lemma DupFound(env: Env, s: State, pid: int, t: int, oldFd: int, newFd: int)
    requires Inv(s) && s.openFd <= s.sockFd && Lookup(s, pid) == Ok(Some(t))
    requires Entry(s, t, oldFd) && newFd >= 0 && newFd != oldFd
    ensures var m := s.maps[s.tables[t][oldFd]];
            var r := CloseSpec(env, s, pid, newFd);
            r.Ok? && var r' := LinkEntry(r.value, t, newFd, s.tables[t][oldFd]);
            && (r'.Abort? <==> StaleParent(s, s.tables[t], oldFd, newFd))
            && (r'.Ok? ==> (Inv(r'.value) <==> !(Full(m.parents) && newFd !in Parents(m.parents)))
                           && r'.value.openFd <= s.openFd + 1 && r'.value.sockFd == s.sockFd
                           && r'.value.pipeFd == s.pipeFd)
  {
    CloseBeforeDup(env, s, pid, t, oldFd, newFd);
    var s2 := CloseSpec(env, s, pid, newFd).value;
    EntryIsRecorded(s, t, newFd);
    hide Inv, CloseSpec, LinkEntry;
    LinkAfterClose(s2, t, oldFd, newFd);
  }

  lemma EntryIsRecorded(s: State, t: int, fd: int)
    requires Inv(s)
    ensures Entry(s, t, fd) ==> s.tables[t][fd] in s.maps && fd in Parents(s.maps[s.tables[t][fd]].parents)
  {
  }

  lemma NegativeClose(env: Env, s: State, pid: int, t: int, fd: int)
    requires Lookup(s, pid) == Ok(Some(t)) && fd < 0
    ensures CloseSpec(env, s, pid, fd).Abort?
  {
  }

  lemma NewRecord(env: Env, s: State, pid: int, fd: int)
    requires Inv(s) && s.openFd <= s.sockFd && pid >= 0 && fd >= 0
    requires Resolves(env, s, pid) && fd !in EntriesOf(s, pid) && env.fixMissing
    ensures var r := Resolve(env, s, pid, fd);
            && r.Ok? && r.value.1.Some? && r.value.1.value.1 in r.value.0.maps
            && var p := r.value.0.maps[r.value.1.value.1].parents; Parents(p) == {fd} && p.last == 0
  {
    GetTableWorks(env, s, pid);
  }

  lemma DupStep(env: Env, s: State, pid: int, oldFd: int, newFd: int)
    requires Inv(s) && Stock(s, 1)
    ensures var r := DupSpec(env, s, pid, oldFd, newFd);
            && (r.Abort? <==> Faults(env, s, Dup(pid, oldFd, newFd)))
            && (r.Ok? ==> (Inv(r.value) <==> !Breaks(env, s, Dup(pid, oldFd, newFd))) && Spends(s, r.value))
  {
    TablesExist(s);
    hide Inv, Resolve, CloseSpec, LinkEntry;
    if newFd != -1 {
      ResolveFaults(env, s, pid, oldFd);
      if Resolve(env, s, pid, oldFd).Ok? {
        ResolveWorks(env, s, pid, oldFd);
        var (s1, e) := Resolve(env, s, pid, oldFd).value;
        if e.Some? {
          if newFd < 0 {
            NegativeClose(env, s1, pid, e.value.0, newFd);
          } else if newFd != oldFd {
            DupFound(env, s1, pid, e.value.0, oldFd, newFd);
            if oldFd !in EntriesOf(s, pid) {
              NewRecord(env, s, pid, oldFd);
            }
          }
        }
      }
    }
  }

  // ---------- every step, every run ----------

  /** A step faults exactly on the faulting records, and otherwise keeps the invariant exactly when
      it is not one of the two breaking records. */
  lemma StepExact(env: Env, s: State, op: Op)
    requires Inv(s) && Stock(s, 1) && Plausible(op)
    ensures Step(env, s, op).Abort? <==> Faults(env, s, op)
    ensures Step(env, s, op).Ok? ==>
              (Inv(Step(env, s, op).value) <==> !Breaks(env, s, op)) && Spends(s, Step(env, s, op).value)
  {
    hide Inv, OpenSpec, CloseSpec, DupSpec, CloneSpec, PipeSpec, SocketSpec, TransferSpec, SeekSpec;
    match op
    case Open(pid, fd, name, directory) => OpenStep(env, s, pid, fd, name, directory);
    case Close(pid, fd) => CloseStep(env, s, pid, fd);
    case Dup(pid, oldFd, newFd) => DupStep(env, s, pid, oldFd, newFd);
    case Clone(pid, child, files) => CloneStep(s, pid, child, files);
    case Pipe(pid, fd1, fd2, retval) => PipeStep(env, s, pid, fd1, fd2, retval);
    case Socket(pid, fd) => SocketStep(env, s, pid, fd);
    case Read(pid, fd, retval) => TransferStep(env, s, pid, fd, false, None, retval);
    case Write(pid, fd, retval) => TransferStep(env, s, pid, fd, true, None, retval);
    case Pread(pid, fd, offset, retval) => TransferStep(env, s, pid, fd, false, Some(offset), retval);
    case Pwrite(pid, fd, offset, retval) => TransferStep(env, s, pid, fd, true, Some(offset), retval);
    case Seek(pid, fd, result) => SeekStep(env, s, pid, fd, result);
  }

  /** No record of the run is a faulting or a breaking one when its turn comes. */
  ghost predicate Guarded(env: Env, s: State, ops: seq<Op>)
    decreases |ops|
  {
    ops == [] ||
    (HasTable(s, s.parentPid) && !Faults(env, s, ops[0]) && !Breaks(env, s, ops[0])
     && (Step(env, s, ops[0]).Ok? ==> Guarded(env, Step(env, s, ops[0]).value, ops[1..])))
  }

  /** The run gets through, and the invariant holds after each of its records. */
  ghost predicate SoundRun(env: Env, s: State, ops: seq<Op>)
    decreases |ops|
  {
    Inv(s) && (ops == [] || (Step(env, s, ops[0]).Ok? && SoundRun(env, Step(env, s, ops[0]).value, ops[1..])))
  }

  lemma {:induction false} RunExact(env: Env, s: State, ops: seq<Op>)
    requires Inv(s) && Stock(s, |ops|) && forall op :: op in ops ==> Plausible(op)
    ensures SoundRun(env, s, ops) <==> Guarded(env, s, ops)
    decreases |ops|
  {
    TablesExist(s);
    hide Inv, Step, Faults, Breaks;
    if ops != [] {
      StepExact(env, s, ops[0]);
      if Step(env, s, ops[0]).Ok? {
        var s1 := Step(env, s, ops[0]).value;
        if !Breaks(env, s, ops[0]) {
          RunExact(env, s1, ops[1..]);
        } else {
          assert !SoundRun(env, s1, ops[1..]);
        }
      }
    }
  }

  lemma {:induction false} SoundRunEnds(env: Env, s: State, ops: seq<Op>)
    requires SoundRun(env, s, ops)
    ensures Run(env, s, ops).Ok? && Inv(Run(env, s, ops).value)
    decreases |ops|
  {
    hide Inv, Step;
    if ops != [] {
      SoundRunEnds(env, Step(env, s, ops[0]).value, ops[1..]);
    }
  }

  /** Pipe ends recorded below the first number of the open supply are harmless. */
  lemma LowPipeIsHarmless(s: State, fd: int)
    requires Inv(s) && fd < FIRST_OPEN_FD
    ensures PipeHarmless(s, fd)
  {
  }

  // ---------- the start, and what a broken step leads to ----------

  /** replicate_init, as far as a lookup can see it: the item for stdin is filed in the chain of
      key 1, where looking for 0 does not reach it, and counted under 1. */
  function Init(pid: int): State
    requires pid >= 0
  {
    var std := (fd: int) requires fd >= 0 => FdMap(fd, Special, 0, "", OnlyParent(fd));
    State(map[pid := Some(0)],
          map[0 := map[1 := Addr(0, 1), 2 := Addr(0, 2)]],
          map[Addr(0, 1) := std(1), Addr(0, 2) := std(2)],
          map[1 := 2, 2 := 1],
          map[], map[], pid, FIRST_OPEN_FD, LAST_SOCKET_FD, INT_MAX - 1, 1, 1)
  }

  lemma InitEntries(pid: int, t: int, fd: int)
    requires pid >= 0
    ensures var s := Init(pid);
            Entry(s, t, fd) ==> t == 0 && fd >= 0 && s.tables[t][fd] == Addr(0, fd) && Addr(0, fd) in s.maps
                                && Parents(s.maps[Addr(0, fd)].parents) == {fd} && s.maps[Addr(0, fd)].ftype == Special
  {
  }

  /** Long traces start within the invariant and within the supplies. */
  lemma InitIsSound(pid: int, n: nat)
    requires pid >= 0 && n <= 33_333_000
    ensures Inv(Init(pid)) && Stock(Init(pid), n)
  {
    InitParts(pid);
    InitLinks(pid);
    hide Init, Supplied, Rooted, Fresh, Recorded, Owned, Counted;
  }

  lemma InitParts(pid: int)
    requires pid >= 0
    ensures Supplied(Init(pid)) && Rooted(Init(pid)) && Fresh(Init(pid)) && Stock(Init(pid), 33_333_000)
  {
    hide OnlyParent;
  }

  lemma InitLinks(pid: int)
    requires pid >= 0
    ensures Recorded(Init(pid)) && Owned(Init(pid)) && Counted(Init(pid))
  {
    var s := Init(pid);
    forall t, fd | Entry(s, t, fd)
      ensures t == 0 && fd >= 0 && s.tables[t][fd] == Addr(0, fd) && Addr(0, fd) in s.maps
      ensures Parents(s.maps[Addr(0, fd)].parents) == {fd} && s.maps[Addr(0, fd)].ftype == Special
    {
      InitEntries(pid, t, fd);
    }
    hide Init, Users, Parents;
  }

  /** Once an alias is not recorded, closing the recorded ones frees the record under it, and the
      next transfer through the alias reads freed memory. */
  lemma UnrecordedAliasDangles(s: State, t: int, fd: int, alias: int, write: bool, at: Option<int>, retval: int)
    requires Entry(s, t, fd) && Entry(s, t, alias) && s.tables[t][fd] == s.tables[t][alias] && s.tables[t][fd] in s.maps
    requires fd >= 0 && Parents(s.maps[s.tables[t][fd]].parents) == {fd} && alias != fd
    requires Supported(s.maps[s.tables[t][fd]].ftype) ==> s.maps[s.tables[t][fd]].myFd in s.usage
    ensures var r := CloseEntry(s, t, fd, s.tables[t][fd]);
            r.Ok? && Entry(r.value, t, alias)
            && Transfer(r.value, r.value.tables[t][alias], write, at, retval) == Abort(Dangling)
  {
    NoParentsLeft(WithoutParent(s.maps[s.tables[t][fd]].parents, fd).value);
  }
}
