/** File positions: the record behind a descriptor against an open file description of POSIX. */
module FdPositions {
  import opened Options
  import opened FdMaps
  import opened FdMachine
  import opened FdInvariant
  import opened FdSafety
  import opened FdPaths
  import opened FdAliases
  import opened SetFacts

  /** The reference: descriptors name open file descriptions, and a description has one offset. A
      fork copies the table but not the descriptions. */
  datatype Posix = Posix(procs: map<int, int>, tables: map<int, map<int, int>>, offsets: map<int, int>,
                         nextTable: int, nextDesc: int)

  function PosixOpen(p: Posix, t: int, fd: int): Posix
    requires t in p.tables
  {
    p.(tables := p.tables[t := p.tables[t][fd := p.nextDesc]],
       offsets := p.offsets[p.nextDesc := 0],
       nextDesc := p.nextDesc + 1)
  }

  function PosixClose(p: Posix, t: int, fd: int): Posix
    requires t in p.tables
  {
    p.(tables := p.tables[t := p.tables[t] - {fd}])
  }

  function PosixDup(p: Posix, t: int, oldFd: int, newFd: int): Posix
    requires t in p.tables && oldFd in p.tables[t]
  {
    p.(tables := p.tables[t := p.tables[t][newFd := p.tables[t][oldFd]]])
  }

  function PosixShare(p: Posix, child: int, t: int): Posix {
    p.(procs := p.procs[child := t])
  }

  function PosixFork(p: Posix, child: int, t: int): Posix
    requires t in p.tables
  {
    p.(procs := p.procs[child := p.nextTable],
       tables := p.tables[p.nextTable := p.tables[t]],
       nextTable := p.nextTable + 1)
  }

  function PosixSet(p: Posix, t: int, fd: int, offset: int): Posix
    requires t in p.tables && fd in p.tables[t]
  {
    p.(offsets := p.offsets[p.tables[t][fd] := offset])
  }

  ghost predicate SameTables(s: State, p: Posix) {
    && (forall q :: q in p.procs <==> HasTable(s, q))
    && (forall q :: q in p.procs ==> p.procs[q] == s.procs[q].value)
    && p.tables.Keys == s.tables.Keys && p.nextTable == s.nextTable
    && (forall t, fd :: Entry(s, t, fd) <==> t in p.tables && fd in p.tables[t])
  }

  ghost predicate SameAliases(s: State, p: Posix)
    requires SameTables(s, p)
  {
    forall t, fd, u, g :: Entry(s, t, fd) && Entry(s, u, g) ==>
      (s.tables[t][fd] == s.tables[u][g] <==> p.tables[t][fd] == p.tables[u][g])
  }

  ghost predicate SameOffsets(s: State, p: Posix)
    requires SameTables(s, p)
  {
    forall t, fd :: Entry(s, t, fd) ==>
      && s.tables[t][fd] in s.maps && p.tables[t][fd] in p.offsets && p.tables[t][fd] < p.nextDesc
      && p.offsets[p.tables[t][fd]] == s.maps[s.tables[t][fd]].curPos
  }

  /** s and p agree: same tables, same aliases, same offsets. */
  ghost predicate Agree(s: State, p: Posix) {
    SameTables(s, p) && SameAliases(s, p) && SameOffsets(s, p)
  }

  /** The entries after an open: one new pair, the rest as before. */
  ghost predicate OneMore(s: State, t: int, fd: int, s': State, p: Posix, p': Posix)
    requires SameTables(s, p) && SameTables(s', p')
  {
    forall u, f :: Entry(s', u, f) ==>
      if (u, f) == (t, fd) then s'.tables[u][f] == Addr(s.clock, fd) && p'.tables[u][f] == p.nextDesc
      else Entry(s, u, f) && s'.tables[u][f] == s.tables[u][f] && p'.tables[u][f] == p.tables[u][f]
  }

  lemma AddTables(s: State, t: int, fd: int, s': State, p: Posix)
    requires Does(s, t, Add(fd), s') && SameTables(s, p) && s'.nextTable == s.nextTable
    ensures t in p.tables && SameTables(s', PosixOpen(p, t, fd)) && OneMore(s, t, fd, s', p, PosixOpen(p, t, fd))
  {
    forall u, f ensures Entry(s', u, f) <==> Entry(s, u, f) || (u, f) == (t, fd) {}
  }

  lemma AddAliases(s: State, t: int, fd: int, s': State, p: Posix)
    requires SameTables(s, p) && SameAliases(s, p) && SameOffsets(s, p) && t in p.tables
    requires SameTables(s', PosixOpen(p, t, fd)) && OneMore(s, t, fd, s', p, PosixOpen(p, t, fd))
    requires forall u, f :: Entry(s, u, f) ==> s.tables[u][f] != Addr(s.clock, fd)
    ensures SameAliases(s', PosixOpen(p, t, fd))
  {
    hide PosixOpen;
    var p' := PosixOpen(p, t, fd);
    forall u, f, v, g | Entry(s', u, f) && Entry(s', v, g)
      ensures s'.tables[u][f] == s'.tables[v][g] <==> p'.tables[u][f] == p'.tables[v][g]
    {
      assert (u, f) != (t, fd) ==> Entry(s, u, f);
      assert (v, g) != (t, fd) ==> Entry(s, v, g);
    }
  }

  lemma AddOffsets(s: State, t: int, fd: int, s': State, p: Posix)
    requires SameTables(s, p) && SameOffsets(s, p) && t in p.tables && Does(s, t, Add(fd), s')
    requires SameTables(s', PosixOpen(p, t, fd)) && OneMore(s, t, fd, s', p, PosixOpen(p, t, fd))
    requires forall u, f :: Entry(s, u, f) ==> s.tables[u][f] != Addr(s.clock, fd)
    ensures SameOffsets(s', PosixOpen(p, t, fd))
  {
    assert forall u, f :: Entry(s', u, f) && (u, f) != (t, fd) ==> Entry(s, u, f);
  }

  lemma AgreeAdd(s: State, t: int, fd: int, s': State, p: Posix)
    requires Inv(s) && Does(s, t, Add(fd), s') && Agree(s, p) && s'.nextTable == s.nextTable
    ensures t in p.tables && Agree(s', PosixOpen(p, t, fd))
  {
    hide Inv, Entry, SameTables, SameAliases, SameOffsets, OneMore, PosixOpen;
    FreshAddr(s, t, fd);
    AddTables(s, t, fd, s', p);
    AddAliases(s, t, fd, s', p);
    AddOffsets(s, t, fd, s', p);
  }

  /** Entries that were there before, pointing to the same records and descriptions. */
  lemma EntriesAgree(s: State, s': State, p: Posix, p': Posix)
    requires Agree(s, p) && SameTables(s', p') && p'.offsets == p.offsets && p'.nextDesc == p.nextDesc
    requires forall u, f :: Entry(s', u, f) ==>
      && Entry(s, u, f) && p'.tables[u][f] == p.tables[u][f] && s'.tables[u][f] == s.tables[u][f]
      && s'.tables[u][f] in s'.maps && s'.tables[u][f] in s.maps
      && s'.maps[s'.tables[u][f]].curPos == s.maps[s'.tables[u][f]].curPos
    ensures Agree(s', p')
  {
  }

  lemma AgreeShut(s: State, t: int, fd: int, s': State, p: Posix)
    requires Shutting(s, t, fd, s') && Recorded(s') && Agree(s, p) && s'.nextTable == s.nextTable && s'.procs == s.procs
    ensures t in p.tables && Agree(s', PosixClose(p, t, fd))
  {
    ShutTables(s, t, fd, s', p);
    forall u, f | Entry(s', u, f) ensures s'.tables[u][f] in s'.maps {
      hide Agree, Shutting;
    }
    hide Recorded, SameTables, Entry, PosixClose, Parents;
    EntriesAgree(s, s', p, PosixClose(p, t, fd));
  }

  lemma ShutTables(s: State, t: int, fd: int, s': State, p: Posix)
    requires Entry(s, t, fd) && s'.tables == s.tables[t := s.tables[t] - {fd}]
    requires SameTables(s, p) && s'.nextTable == s.nextTable && s'.procs == s.procs
    ensures t in p.tables
    ensures var p' := PosixClose(p, t, fd);
      && SameTables(s', p') && p'.offsets == p.offsets && p'.nextDesc == p.nextDesc
      && forall u, f :: Entry(s', u, f) ==>
           Entry(s, u, f) && p'.tables[u][f] == p.tables[u][f] && s'.tables[u][f] == s.tables[u][f]
  {
    forall u, f ensures Entry(s', u, f) <==> Entry(s, u, f) && (u, f) != (t, fd) {}
  }

  lemma LinkTables(s: State, t: int, source: int, fd: int, s': State, p: Posix)
    requires Linking(s, t, source, fd, s') && SameTables(s, p) && s'.nextTable == s.nextTable && s'.procs == s.procs
    ensures t in p.tables && source in p.tables[t] && SameTables(s', PosixDup(p, t, source, fd))
    ensures forall u, f :: Entry(s', u, f) ==> var f0 := if (u, f) == (t, fd) then source else f;
              Entry(s, u, f0) && s'.tables[u][f] == s.tables[u][f0]
              && PosixDup(p, t, source, fd).tables[u][f] == p.tables[u][f0]
  {
    assert Entry(s, t, source) && s'.tables == s.tables[t := s.tables[t][fd := s.tables[t][source]]];
    LinkedEntries(s, t, fd, s.tables[t][source], s');
    hide Linking;
    SameEntry(s, p, t, source);
    LinkedPosix(p, t, source, fd);
    hide PosixDup;
    SameAfterLink(s, s', p, PosixDup(p, t, source, fd), t, fd);
    hide SameTables;
    forall u, f | Entry(s', u, f)
      ensures Entry(s, u, if (u, f) == (t, fd) then source else f)
    {
    }
  }

  lemma SameEntry(s: State, p: Posix, t: int, f: int)
    requires SameTables(s, p) && Entry(s, t, f)
    ensures t in p.tables && f in p.tables[t] && forall u, g :: Entry(s, u, g) ==> u in p.tables && g in p.tables[u]
  {
  }

  lemma SameAfterLink(s: State, s': State, p: Posix, q: Posix, t: int, fd: int)
    requires SameTables(s, p) && t in s.tables && s'.nextTable == s.nextTable && s'.procs == s.procs
    requires s'.tables.Keys == s.tables.Keys && forall u, f :: Entry(s', u, f) <==> Entry(s, u, f) || (u, f) == (t, fd)
    requires q.procs == p.procs && q.tables.Keys == p.tables.Keys && q.nextTable == p.nextTable
    requires forall u, f ::
      u in q.tables && f in q.tables[u] <==> (u in p.tables && f in p.tables[u]) || (u, f) == (t, fd)
    ensures SameTables(s', q)
  {
    assert forall r :: HasTable(s', r) <==> HasTable(s, r);
  }

  lemma LinkedEntries(s: State, t: int, fd: int, a: Addr, s': State)
    requires t in s.tables && s'.tables == s.tables[t := s.tables[t][fd := a]]
    ensures s'.tables.Keys == s.tables.Keys
    ensures forall u, f :: Entry(s', u, f) <==> Entry(s, u, f) || (u, f) == (t, fd)
    ensures forall u, f :: Entry(s', u, f) ==> s'.tables[u][f] == if (u, f) == (t, fd) then a else s.tables[u][f]
  {
  }

  lemma LinkedPosix(p: Posix, t: int, source: int, fd: int)
    requires t in p.tables && source in p.tables[t]
    ensures var q := PosixDup(p, t, source, fd);
      && q.procs == p.procs && q.tables.Keys == p.tables.Keys && q.nextTable == p.nextTable
      && (forall u, f ::
            u in q.tables && f in q.tables[u] <==> (u in p.tables && f in p.tables[u]) || (u, f) == (t, fd))
      && (forall u, f :: u in q.tables && f in q.tables[u] ==>
            q.tables[u][f] == if (u, f) == (t, fd) then p.tables[t][source] else p.tables[u][f])
  {
  }

  lemma LinkAliases(s: State, t: int, source: int, fd: int, s': State, p: Posix)
    requires SameTables(s, p) && SameAliases(s, p) && t in p.tables && source in p.tables[t]
    requires SameTables(s', PosixDup(p, t, source, fd))
    requires forall u, f :: Entry(s', u, f) ==> var f0 := if (u, f) == (t, fd) then source else f;
              Entry(s, u, f0) && s'.tables[u][f] == s.tables[u][f0]
              && PosixDup(p, t, source, fd).tables[u][f] == p.tables[u][f0]
    ensures SameAliases(s', PosixDup(p, t, source, fd))
  {
    hide SameTables, PosixDup, Entry;
  }

  lemma LinkOffsets(s: State, t: int, source: int, fd: int, s': State, p: Posix)
    requires SameTables(s, p) && SameOffsets(s, p) && t in p.tables && source in p.tables[t]
    requires SameTables(s', PosixDup(p, t, source, fd))
    requires forall a :: a in s.maps ==> a in s'.maps && s'.maps[a].curPos == s.maps[a].curPos
    requires forall u, f :: Entry(s', u, f) ==> var f0 := if (u, f) == (t, fd) then source else f;
              Entry(s, u, f0) && s'.tables[u][f] == s.tables[u][f0]
              && PosixDup(p, t, source, fd).tables[u][f] == p.tables[u][f0]
    ensures SameOffsets(s', PosixDup(p, t, source, fd))
  {
    hide SameTables, Entry;
  }

  lemma AgreeLink(s: State, t: int, source: int, fd: int, s': State, p: Posix)
    requires Linking(s, t, source, fd, s') && Agree(s, p) && s'.nextTable == s.nextTable && s'.procs == s.procs
    ensures t in p.tables && source in p.tables[t] && Agree(s', PosixDup(p, t, source, fd))
  {
    LinkTables(s, t, source, fd, s', p);
    assert forall a :: a in s.maps ==> a in s'.maps && s'.maps[a].curPos == s.maps[a].curPos;
    hide Linking, Entry, SameTables, SameAliases, SameOffsets, PosixDup;
    LinkAliases(s, t, source, fd, s', p);
    LinkOffsets(s, t, source, fd, s', p);
  }

  lemma AgreeMove(s: State, t: int, fd: int, s': State, p: Posix)
    requires Does(s, t, Move(fd), s') && Agree(s, p) && s'.nextTable == s.nextTable
    ensures t in p.tables && fd in p.tables[t]
    ensures Agree(s', PosixSet(p, t, fd, s'.maps[s.tables[t][fd]].curPos))
  {
    forall u, f ensures Entry(s', u, f) <==> Entry(s, u, f) {}
  }

  // ---------- steps ----------

  /** A call that the kernel granted: known process, the descriptors it says, counts that fit. */
  ghost predicate Granted(s: State, op: Op) {
    HasTable(s, op.pid) && op.pid >= 0 &&
    var tbl := TableAt(s, s.procs[op.pid].value);
    match op
    case Open(pid, fd, _, _) => fd >= 0 && fd !in tbl
    case Close(pid, fd) => fd in tbl
    case Dup(pid, oldFd, newFd) => oldFd in tbl && newFd >= 0 && newFd != oldFd
    case Clone(pid, child, files) => child >= 0 && child !in s.procs
    case Read(pid, fd, n) => Transferable(s, tbl, fd, n)
    case Write(pid, fd, n) => Transferable(s, tbl, fd, n)
    case Seek(pid, fd, to) =>
      fd in tbl && tbl[fd] in s.maps && Supported(s.maps[tbl[fd]].ftype) && 0 <= to < TWO_TO_THE_64
    case _ => false
  }

  ghost predicate Transferable(s: State, tbl: Table, fd: int, n: int) {
    fd in tbl && tbl[fd] in s.maps && Supported(s.maps[tbl[fd]].ftype)
    && n >= 0 && s.maps[tbl[fd]].curPos + n < TWO_TO_THE_64
  }

  ghost predicate PosixKnows(p: Posix, op: Op) {
    && op.pid in p.procs && p.procs[op.pid] in p.tables
    && ((op.Read? || op.Write? || op.Seek?) ==>
          op.fd in p.tables[p.procs[op.pid]] && p.tables[p.procs[op.pid]][op.fd] in p.offsets)
    && (op.Dup? ==> op.oldFd in p.tables[p.procs[op.pid]])
  }

  /** What POSIX makes of a granted call. */
  ghost function PosixStep(p: Posix, op: Op): Posix {
    if !PosixKnows(p, op) then p
    else
      var t := p.procs[op.pid];
      match op
      case Open(_, fd, _, _) => PosixOpen(p, t, fd)
      case Close(_, fd) => PosixClose(p, t, fd)
      case Dup(_, oldFd, newFd) => PosixDup(p, t, oldFd, newFd)
      case Clone(_, child, files) => if files then PosixShare(p, child, t) else PosixFork(p, child, t)
      case Read(_, fd, n) => PosixSet(p, t, fd, p.offsets[p.tables[t][fd]] + n)
      case Write(_, fd, n) => PosixSet(p, t, fd, p.offsets[p.tables[t][fd]] + n)
      case Seek(_, fd, to) => PosixSet(p, t, fd, to)
      case _ => p
  }

  ghost function PosixRun(p: Posix, ops: seq<Op>): Posix
    decreases |ops|
  {
    if ops == [] then p else PosixRun(PosixStep(p, ops[0]), ops[1..])
  }

  lemma GrantedIsDefined(s: State, p: Posix, op: Op)
    requires Inv(s) && Agree(s, p) && Granted(s, op)
    ensures op.pid in p.procs && p.procs[op.pid] == s.procs[op.pid].value && p.procs[op.pid] in p.tables
    ensures (op.Read? || op.Write? || op.Seek?) ==>
              && Entry(s, p.procs[op.pid], op.fd) && op.fd >= 0
              && op.fd in p.tables[p.procs[op.pid]] && p.tables[p.procs[op.pid]][op.fd] in p.offsets
    ensures op.Close? ==> Entry(s, p.procs[op.pid], op.fd) && op.fd >= 0
    ensures op.Dup? ==> Entry(s, p.procs[op.pid], op.oldFd) && op.oldFd >= 0 && op.oldFd in p.tables[p.procs[op.pid]]
  {
    TablesExist(s);
  }

  /** A granted lookup repairs nothing. */
  lemma FoundEntry(env: Env, s: State, pid: int, fd: int)
    requires HasTable(s, pid) && pid >= 0 && fd >= 0 && fd in TableAt(s, s.procs[pid].value)
    ensures Resolve(env, s, pid, fd) == Ok((s, Some((s.procs[pid].value, TableAt(s, s.procs[pid].value)[fd]))))
  {
  }

  lemma AgreeClose(env: Env, s: State, p: Posix, pid: int, fd: int)
    requires Inv(s) && Agree(s, p) && Granted(s, Close(pid, fd))
    ensures var r := CloseSpec(env, s, pid, fd); var t := s.procs[pid].value;
            && r.Ok? && Inv(r.value) && t in p.tables && Agree(r.value, PosixClose(p, t, fd))
            && r.value.procs == s.procs && r.value.nextTable == s.nextTable
  {
    hide Inv, Agree, Does, CloseEntry;
    GrantedIsDefined(s, p, Close(pid, fd));
    FoundEntry(env, s, pid, fd);
    var t := s.procs[pid].value;
    CloseEntryKeepsInv(s, t, fd);
    var s' := CloseEntry(s, t, fd, s.tables[t][fd]).value;
    CloseIsShut(s, t, fd);
    ShutShape(s, t, fd, s');
    LinkParts(s');
    AgreeShut(s, t, fd, s', p);
  }

  lemma CloseIsShut(s: State, t: int, fd: int)
    requires Entry(s, t, fd) && fd >= 0 && CloseEntry(s, t, fd, s.tables[t][fd]).Ok?
    ensures var s' := CloseEntry(s, t, fd, s.tables[t][fd]).value;
            Does(s, t, Shut(fd), s') && s'.procs == s.procs && s'.nextTable == s.nextTable
  {
  }

  /** A granted transfer or seek moves the one record behind the descriptor. */
  lemma TransferMoves(env: Env, s: State, op: Op)
    requires Granted(s, op) && (op.Read? || op.Write? || op.Seek?) && op.fd >= 0 && s.procs[op.pid].value in s.tables
    ensures var t := s.procs[op.pid].value; var r := Step(env, s, op);
            && r.Ok? && Does(s, t, Move(op.fd), r.value) && r.value.nextTable == s.nextTable
            && r.value.maps[s.tables[t][op.fd]].curPos
               == if op.Seek? then op.result else s.maps[s.tables[t][op.fd]].curPos + op.retval
  {
    FoundEntry(env, s, op.pid, op.fd);
    hide Resolve;
  }

  lemma AgreeTransfer(env: Env, s: State, p: Posix, op: Op)
    requires Inv(s) && Agree(s, p) && Granted(s, op) && (op.Read? || op.Write? || op.Seek?)
    ensures Step(env, s, op).Ok? && Agree(Step(env, s, op).value, PosixStep(p, op))
  {
    hide Inv, Agree, Step, Does, Granted;
    GrantedIsDefined(s, p, op);
    TransferMoves(env, s, op);
    var t := p.procs[op.pid];
    AgreeMove(s, t, op.fd, Step(env, s, op).value, p);
    AgreeOffset(s, p, t, op.fd);
  }

  lemma AgreeOffset(s: State, p: Posix, t: int, fd: int)
    requires Agree(s, p) && Entry(s, t, fd)
    ensures t in p.tables && fd in p.tables[t] && p.tables[t][fd] in p.offsets && s.tables[t][fd] in s.maps
    ensures p.offsets[p.tables[t][fd]] == s.maps[s.tables[t][fd]].curPos
  {
  }

  lemma AgreeShare(s: State, p: Posix, from: int, child: int)
    requires Inv(s) && Agree(s, p) && Granted(s, Clone(from, child, true))
    ensures var r := CloneSpec(s, from, child, true);
            r.Ok? && from in p.procs && Agree(r.value, PosixShare(p, child, p.procs[from]))
  {
    GrantedIsDefined(s, p, Clone(from, child, true));
    ShareIs(s, from, child);
    var s', p' := CloneSpec(s, from, child, true).value, PosixShare(p, child, p.procs[from]);
    hide Inv, CloneSpec;
    ShareTables(s, s', p, from, child);
    assert forall u, f :: Entry(s', u, f) <==> Entry(s, u, f);
    assert forall u, f :: Entry(s', u, f) ==> s.tables[u][f] in s.maps;
    hide SameTables, Entry;
    EntriesAgree(s, s', p, p');
  }

  lemma ShareIs(s: State, from: int, child: int)
    requires HasTable(s, from) && from >= 0 && child >= 0 && child !in s.procs
    ensures CloneSpec(s, from, child, true) == Ok(s.(procs := s.procs[child := s.procs[from]]))
  {
  }

  lemma ShareTables(s: State, s': State, p: Posix, from: int, child: int)
    requires SameTables(s, p) && HasTable(s, from) && child !in s.procs
      && s' == s.(procs := s.procs[child := s.procs[from]])
    ensures from in p.procs && SameTables(s', PosixShare(p, child, p.procs[from]))
  {
    forall u, f ensures Entry(s', u, f) <==> Entry(s, u, f) {
    }
  }

  /** Descriptions that no table names do not matter. */
  lemma AgreeRegardless(s: State, p: Posix, p': Posix)
    requires Agree(s, p) && p'.procs == p.procs && p'.tables == p.tables && p'.nextTable == p.nextTable
    requires forall t, fd :: t in p.tables && fd in p.tables[t] ==>
               var d := p.tables[t][fd];
               d < p'.nextDesc && d in p'.offsets && (d in p.offsets ==> p'.offsets[d] == p.offsets[d])
    ensures Agree(s, p')
  {
  }

  lemma ForgetDesc(s: State, p: Posix, t: int, fd: int)
    requires t in p.tables && fd !in p.tables[t]
    requires forall u, f :: u in p.tables && f in p.tables[u] ==>
      p.tables[u][f] < p.nextDesc && p.tables[u][f] in p.offsets
    requires Agree(s, PosixClose(PosixOpen(p, t, fd), t, fd))
    ensures Agree(s, PosixClose(p, t, fd))
  {
    OpenedAndClosed(p, t, fd);
    hide Agree, PosixOpen, PosixClose;
    AgreeRegardless(s, PosixClose(PosixOpen(p, t, fd), t, fd), PosixClose(p, t, fd));
  }

  lemma OpenedAndClosed(p: Posix, t: int, fd: int)
    requires t in p.tables && fd !in p.tables[t]
    requires forall u, f :: u in p.tables && f in p.tables[u] ==>
      p.tables[u][f] < p.nextDesc && p.tables[u][f] in p.offsets
    ensures t in PosixOpen(p, t, fd).tables
    ensures var p', q := PosixClose(p, t, fd), PosixClose(PosixOpen(p, t, fd), t, fd);
      && q.procs == p'.procs && q.tables == p'.tables && q.nextTable == p'.nextTable
      && forall u, f :: u in q.tables && f in q.tables[u] ==>
           var d := q.tables[u][f];
           d < p'.nextDesc && d in p'.offsets && (d in q.offsets ==> p'.offsets[d] == q.offsets[d])
  {
    assert p.tables[t][fd := p.nextDesc] - {fd} == p.tables[t] - {fd};
  }

  /** A missing target of dup is made up and closed again. */
  lemma AgreeMadeUp(env: Env, s: State, p: Posix, pid: int, newFd: int)
    requires Inv(s) && s.openFd <= s.sockFd && Agree(s, p) && HasTable(s, pid) && pid >= 0 && newFd >= 0
    requires env.fixMissing && newFd !in TableAt(s, s.procs[pid].value)
    ensures var r := CloseSpec(env, s, pid, newFd); var t := s.procs[pid].value;
            && r.Ok? && t in p.tables && Agree(r.value, PosixClose(p, t, newFd))
            && r.value.procs == s.procs && r.value.nextTable == s.nextTable
  {
    hide Inv, Agree, Does, CloseEntry, OpenAt, CloseSpec, Shutting, PosixOpen, PosixClose;
    TablesExist(s);
    var t, name := s.procs[pid].value, env.missingName(pid, newFd);
    var s1 := OpenAt(env, s, t, newFd, name, false);
    OpenAtPath(env, s, t, newFd, name, false);
    OpenAtKeepsInv(env, s, t, newFd, name, false);
    MadeUpClose(env, s, pid, newFd);
    AgreeAdd(s, t, newFd, s1, p);
    CloseEntryKeepsInv(s1, t, newFd);
    CloseIsShut(s1, t, newFd);
    var s2 := CloseEntry(s1, t, newFd, s1.tables[t][newFd]).value;
    ShutShape(s1, t, newFd, s2);
    LinkParts(s2);
    AgreeShut(s1, t, newFd, s2, PosixOpen(p, t, newFd));
    OldDescs(s, p);
    NoSuchEntry(s, p, t, newFd);
    ForgetDesc(s2, p, t, newFd);
  }

  lemma NoSuchEntry(s: State, p: Posix, t: int, fd: int)
    requires Agree(s, p) && t in s.tables && fd !in s.tables[t]
    ensures t in p.tables && fd !in p.tables[t]
  {
    assert !Entry(s, t, fd);
  }

  lemma MadeUpClose(env: Env, s: State, pid: int, fd: int)
    requires HasTable(s, pid) && pid >= 0 && fd >= 0 && env.fixMissing
    requires s.procs[pid].value in s.tables && fd !in s.tables[s.procs[pid].value]
    ensures var t := s.procs[pid].value; var s1 := OpenAt(env, s, t, fd, env.missingName(pid, fd), false);
            && t in s1.tables && fd in s1.tables[t] && s1.procs == s.procs && s1.nextTable == s.nextTable
            && CloseSpec(env, s, pid, fd) == CloseEntry(s1, t, fd, s1.tables[t][fd])
  {
    hide CloseEntry;
  }

  /** dup closes its target first. */
  lemma AgreeCloseTarget(env: Env, s: State, p: Posix, pid: int, oldFd: int, newFd: int)
    requires Inv(s) && s.openFd <= s.sockFd && Agree(s, p) && Granted(s, Dup(pid, oldFd, newFd))
    ensures var r := CloseSpec(env, s, pid, newFd); var t := s.procs[pid].value;
            && r.Ok? && t in p.tables && Agree(r.value, PosixClose(p, t, newFd))
            && r.value.procs == s.procs && r.value.nextTable == s.nextTable
  {
    TablesExist(s);
    var t := s.procs[pid].value;
    if newFd in s.tables[t] {
      hide Inv, Agree, CloseSpec;
      AgreeClose(env, s, p, pid, newFd);
    } else if env.fixMissing {
      hide Inv, Agree, CloseSpec;
      AgreeMadeUp(env, s, p, pid, newFd);
    } else {
      hide Inv, Agree;
      NoEntryNoClose(s, p, t, newFd);
    }
  }

  lemma OldDescs(s: State, p: Posix)
    requires Agree(s, p)
    ensures forall t, fd :: t in p.tables && fd in p.tables[t] ==>
      p.tables[t][fd] < p.nextDesc && p.tables[t][fd] in p.offsets
  {
    forall t, fd | t in p.tables && fd in p.tables[t]
      ensures p.tables[t][fd] < p.nextDesc && p.tables[t][fd] in p.offsets
    {
      assert Entry(s, t, fd);
    }
  }

  lemma NoEntryNoClose(s: State, p: Posix, t: int, fd: int)
    requires Agree(s, p) && t in s.tables && fd !in s.tables[t]
    ensures t in p.tables && PosixClose(p, t, fd) == p
  {
    assert !Entry(s, t, fd);
    assert p.tables[t] - {fd} == p.tables[t];
  }

  lemma DupIsCloseAndLink(env: Env, s: State, pid: int, t: int, oldFd: int, newFd: int)
    requires HasTable(s, pid) && s.procs[pid].value == t && pid >= 0 && Entry(s, t, oldFd) && oldFd >= 0
    requires newFd >= 0 && newFd != oldFd && CloseSpec(env, s, pid, newFd).Ok?
    ensures DupSpec(env, s, pid, oldFd, newFd)
         == LinkEntry(CloseSpec(env, s, pid, newFd).value, t, newFd, s.tables[t][oldFd])
  {
    FoundEntry(env, s, pid, oldFd);
    hide Resolve, CloseSpec, LinkEntry;
  }

  lemma AgreeDup(env: Env, s: State, p: Posix, pid: int, oldFd: int, newFd: int)
    requires Inv(s) && Stock(s, 1) && Agree(s, p) && Granted(s, Dup(pid, oldFd, newFd))
    requires HasTable(s, s.parentPid)
    requires !Faults(env, s, Dup(pid, oldFd, newFd)) && !Breaks(env, s, Dup(pid, oldFd, newFd))
    ensures DupSpec(env, s, pid, oldFd, newFd).Ok?
    ensures pid in p.procs && p.procs[pid] in p.tables && oldFd in p.tables[p.procs[pid]]
    ensures Agree(DupSpec(env, s, pid, oldFd, newFd).value, PosixDup(p, p.procs[pid], oldFd, newFd))
  {
    hide Inv, Agree, Does, CloseSpec, LinkEntry, Faults, Breaks, DupSpec, Linking, PosixDup, PosixClose;
    GrantedIsDefined(s, p, Dup(pid, oldFd, newFd));
    DupStep(env, s, pid, oldFd, newFd);
    AgreeCloseTarget(env, s, p, pid, oldFd, newFd);
    var t := s.procs[pid].value;
    CloseBeforeDup(env, s, pid, t, oldFd, newFd);
    DupIsCloseAndLink(env, s, pid, t, oldFd, newFd);
    var s2 := CloseSpec(env, s, pid, newFd).value;
    var s3 := LinkEntry(s2, t, newFd, s.tables[t][oldFd]).value;
    LinkPath(s2, t, oldFd, newFd);
    LinkShape(s2, t, oldFd, newFd, s3);
    LinkKeepsRest(s2, t, newFd, s.tables[t][oldFd]);
    AgreeLink(s2, t, oldFd, newFd, s3, PosixClose(p, t, newFd));
    CloseThenDup(p, t, oldFd, newFd);
  }

  lemma CloseThenDup(p: Posix, t: int, oldFd: int, newFd: int)
    requires t in p.tables && oldFd in p.tables[t] && newFd != oldFd
    ensures PosixDup(PosixClose(p, t, newFd), t, oldFd, newFd) == PosixDup(p, t, oldFd, newFd)
  {
    assert (p.tables[t] - {newFd})[newFd := p.tables[t][oldFd]] == p.tables[t][newFd := p.tables[t][oldFd]];
  }

  lemma LinkKeepsRest(s: State, t: int, fd: int, a: Addr)
    requires LinkEntry(s, t, fd, a).Ok?
    ensures LinkEntry(s, t, fd, a).value.procs == s.procs && LinkEntry(s, t, fd, a).value.nextTable == s.nextTable
  {
  }

  lemma AgreeOpen(env: Env, s: State, p: Posix, op: Op)
    requires Inv(s) && Stock(s, 1) && Agree(s, p) && Granted(s, op) && op.Open?
    ensures Step(env, s, op).Ok? && op.pid in p.procs && p.procs[op.pid] in p.tables
    ensures Agree(Step(env, s, op).value, PosixOpen(p, p.procs[op.pid], op.fd))
  {
    hide Inv, Agree, OpenAt, Does;
    TablesExist(s);
    GrantedIsDefined(s, p, op);
    var t := s.procs[op.pid].value;
    OpenAtPath(env, s, t, op.fd, op.name, op.directory);
    OpenKeepsNextTable(env, s, t, op.fd, op.name, op.directory);
    AgreeAdd(s, t, op.fd, OpenAt(env, s, t, op.fd, op.name, op.directory), p);
  }

  lemma OpenKeepsNextTable(env: Env, s: State, t: int, fd: int, name: string, directory: bool)
    requires fd >= 0
    ensures OpenAt(env, s, t, fd, name, directory).nextTable == s.nextTable
  {
  }

  /** Without copying clones, every granted call keeps the agreement with POSIX. */
  lemma StepRefinesPosix(env: Env, s: State, p: Posix, op: Op)
    requires Inv(s) && Stock(s, 1) && HasTable(s, s.parentPid) && Agree(s, p) && Granted(s, op)
    requires !Faults(env, s, op) && !Breaks(env, s, op) && !CopyingClone(s, op)
    ensures Step(env, s, op).Ok? && Inv(Step(env, s, op).value)
    ensures Agree(Step(env, s, op).value, PosixStep(p, op)) && Spends(s, Step(env, s, op).value)
  {
    StepExact(env, s, op);
    GrantedIsDefined(s, p, op);
    hide Inv, Agree, Faults, Breaks, OpenSpec, CloseSpec, DupSpec, CloneSpec;
    match op
    case Open(_, _, _, _) => AgreeOpen(env, s, p, op);
    case Close(pid, fd) => AgreeClose(env, s, p, pid, fd);
    case Dup(pid, oldFd, newFd) => AgreeDup(env, s, p, pid, oldFd, newFd);
    case Clone(pid, child, files) => AgreeShare(s, p, pid, child);
    case _ => AgreeTransfer(env, s, p, op);
  }

  ghost predicate GrantedRun(env: Env, s: State, ops: seq<Op>)
    decreases |ops|
  {
    ops == [] ||
    (HasTable(s, s.parentPid) && Granted(s, ops[0]) && !CopyingClone(s, ops[0])
     && !Faults(env, s, ops[0]) && !Breaks(env, s, ops[0])
     && (Step(env, s, ops[0]).Ok? ==> GrantedRun(env, Step(env, s, ops[0]).value, ops[1..])))
  }

  /** Over every such run, each position is that of its POSIX open file description. */
  lemma {:induction false} RunRefinesPosix(env: Env, s: State, p: Posix, ops: seq<Op>)
    requires Inv(s) && Stock(s, |ops|) && Agree(s, p) && GrantedRun(env, s, ops)
    ensures Run(env, s, ops).Ok? && Agree(Run(env, s, ops).value, PosixRun(p, ops))
    decreases |ops|
  {
    hide Inv, Agree, Step, Faults, Breaks, Granted, PosixStep;
    if ops != [] {
      StepRefinesPosix(env, s, p, ops[0]);
      RunRefinesPosix(env, Step(env, s, ops[0]).value, PosixStep(p, ops[0]), ops[1..]);
    }
  }

  // ---------- from the start ----------

  /** The POSIX state at the start: two descriptors with a description each. */
  function PosixInit(pid: int): Posix {
    Posix(map[pid := 0], map[0 := map[1 := 1, 2 := 2]], map[1 := 0, 2 := 0], 1, 3)
  }

  lemma InitAgrees(pid: int)
    requires pid >= 0
    ensures Agree(Init(pid), PosixInit(pid))
  {
    InitIsPlain(pid);
    var s, p := Init(pid), PosixInit(pid);
    hide Init, OnlyParent, Parents;
    forall t, fd ensures Entry(s, t, fd) <==> t == 0 && (fd == 1 || fd == 2) {
    }
    InitTables(s, p);
    hide SameTables;
  }

  lemma InitTables(s: State, p: Posix)
    requires s.procs.Keys == p.procs.Keys && (forall q :: q in p.procs ==> s.procs[q] == Some(p.procs[q]))
    requires s.tables.Keys == p.tables.Keys && s.nextTable == p.nextTable
    requires forall t, fd :: Entry(s, t, fd) <==> t in p.tables && fd in p.tables[t]
    ensures SameTables(s, p)
  {
  }

  lemma InitIsPlain(pid: int)
    requires pid >= 0
    ensures var s := Init(pid);
      && s.procs == map[pid := Some(0)] && s.nextTable == 1
      && s.tables == map[0 := map[1 := Addr(0, 1), 2 := Addr(0, 2)]] && Addr(0, 1) in s.maps && Addr(0, 2) in s.maps
      && s.maps[Addr(0, 1)].curPos == 0 && s.maps[Addr(0, 2)].curPos == 0
  {
    hide OnlyParent;
  }

  /** From the start on, every run of granted calls without a copying clone keeps the positions of POSIX. */
  lemma StartRefinesPosix(env: Env, pid: int, ops: seq<Op>)
    requires pid >= 0 && |ops| <= 33_333_000 && GrantedRun(env, Init(pid), ops)
    ensures Run(env, Init(pid), ops).Ok? && Agree(Run(env, Init(pid), ops).value, PosixRun(PosixInit(pid), ops))
  {
    InitIsSound(pid, |ops|);
    InitAgrees(pid);
    hide Init, PosixInit, Inv, Agree, GrantedRun;
    RunRefinesPosix(env, Init(pid), PosixInit(pid), ops);
  }

  // ---------- failed transfers ----------

  /** Entry (pid, fd) is open for transfers, and n more bytes do not leave 64 bits. */
  ghost predicate OpenFor(s: State, pid: int, fd: int, n: int) {
    && HasTable(s, pid) && pid >= 0 && fd >= 0 && s.procs[pid].value in s.tables
    && var tbl := TableAt(s, s.procs[pid].value);
      && fd in tbl && tbl[fd] in s.maps && Supported(s.maps[tbl[fd]].ftype)
      && s.maps[tbl[fd]].curPos + n < TWO_TO_THE_64 && s.maps[tbl[fd]].curPos < TWO_TO_THE_64
  }

  function Attempt(write: bool, pid: int, fd: int, n: int): Op {
    if write then Write(pid, fd, n) else Read(pid, fd, n)
  }

  lemma AttemptMoves(env: Env, s: State, write: bool, pid: int, fd: int, n: int)
    requires OpenFor(s, pid, fd, n)
    ensures var t := s.procs[pid].value; var r := Step(env, s, Attempt(write, pid, fd, n));
            && r.Ok? && Does(s, t, Move(fd), r.value) && r.value.nextTable == s.nextTable
              && s.tables[t][fd] in r.value.maps
            && r.value.maps[s.tables[t][fd]].curPos == Wrap64(s.maps[s.tables[t][fd]].curPos + n)
  {
    FoundEntry(env, s, pid, fd);
    hide Resolve;
  }

  /** POSIX moves the offset by the n bytes transferred, and leaves it where it is when the transfer fails, which is
      recorded as -1. The program's position agrees with that exactly if the transfer did not fail. */
  lemma TransferAgreesExactly(env: Env, s: State, p: Posix, write: bool, pid: int, fd: int, n: int)
    requires Agree(s, p) && OpenFor(s, pid, fd, n) && n >= -1
    ensures Step(env, s, Attempt(write, pid, fd, n)).Ok? && pid in p.procs && p.procs[pid] in p.tables
    ensures var t := p.procs[pid]; fd in p.tables[t] && p.tables[t][fd] in p.offsets
    ensures var t, s' := p.procs[pid], Step(env, s, Attempt(write, pid, fd, n)).value;
      Agree(s', if n == -1 then p else PosixSet(p, t, fd, p.offsets[p.tables[t][fd]] + n)) <==> n != -1
  {
    hide *;
    AttemptedEntry(s, p, pid, fd, n);
    AttemptMoves(env, s, write, pid, fd, n);
    TransferSettles(s, p, s.procs[pid].value, fd, n, Step(env, s, Attempt(write, pid, fd, n)).value);
  }

  lemma TransferSettles(s: State, p: Posix, t: int, fd: int, n: int, s': State)
    requires Agree(s, p) && Does(s, t, Move(fd), s') && s'.nextTable == s.nextTable && n >= -1
    requires t in s.tables && fd in s.tables[t] && s.tables[t][fd] in s.maps && s.tables[t][fd] in s'.maps
    requires s.maps[s.tables[t][fd]].curPos < TWO_TO_THE_64 && s.maps[s.tables[t][fd]].curPos + n < TWO_TO_THE_64
    requires s'.maps[s.tables[t][fd]].curPos == Wrap64(s.maps[s.tables[t][fd]].curPos + n)
    requires t in p.tables && fd in p.tables[t] && p.tables[t][fd] in p.offsets
    requires p.offsets[p.tables[t][fd]] == s.maps[s.tables[t][fd]].curPos
    ensures Agree(s', if n == -1 then p else PosixSet(p, t, fd, p.offsets[p.tables[t][fd]] + n)) <==> n != -1
  {
    hide *;
    if n != -1 {
      WrapSmall(s.maps[s.tables[t][fd]].curPos + n);
      AgreeMove(s, t, fd, s', p);
    } else {
      MovedEntry(s, t, fd, s');
      MovedApart(s', p, t, fd, s.maps[s.tables[t][fd]].curPos);
    }
  }

  lemma WrapSmall(x: int)
    requires 0 <= x < TWO_TO_THE_64
    ensures Wrap64(x) == x
  {
  }

  lemma AttemptedEntry(s: State, p: Posix, pid: int, fd: int, n: int)
    requires Agree(s, p) && OpenFor(s, pid, fd, n)
    ensures HasTable(s, pid) && pid in p.procs && p.procs[pid] == s.procs[pid].value && Entry(s, s.procs[pid].value, fd)
    ensures var t := s.procs[pid].value;
      && t in s.tables && fd in s.tables[t] && s.tables[t][fd] in s.maps
      && 0 <= s.maps[s.tables[t][fd]].curPos < TWO_TO_THE_64 && s.maps[s.tables[t][fd]].curPos + n < TWO_TO_THE_64
      && t in p.tables && fd in p.tables[t] && p.tables[t][fd] in p.offsets
      && p.offsets[p.tables[t][fd]] == s.maps[s.tables[t][fd]].curPos
  {
    var t := s.procs[pid].value;
    assert Entry(s, t, fd);
    AgreeOffset(s, p, t, fd);
  }

  lemma MovedEntry(s: State, t: int, fd: int, s': State)
    requires Does(s, t, Move(fd), s') && t in s.tables && fd in s.tables[t]
    ensures Entry(s', t, fd) && s'.tables[t][fd] == s.tables[t][fd] && s.tables[t][fd] in s'.maps
  {
  }

  lemma MovedApart(s: State, p: Posix, t: int, fd: int, pos: nat)
    requires Entry(s, t, fd) && s.tables[t][fd] in s.maps && pos < TWO_TO_THE_64
    requires s.maps[s.tables[t][fd]].curPos == Wrap64(pos - 1)
    requires t in p.tables && fd in p.tables[t] && p.tables[t][fd] in p.offsets && p.offsets[p.tables[t][fd]] == pos
    ensures !Agree(s, p)
  {
  }

  // ---------- fork ----------

  /** A copying clone keeps the agreement exactly when there is nothing to copy: POSIX shares the
      offsets of a forked table, the copy of the records does not. */
  lemma ForkRefinesPosix(s: State, p: Posix, from: int, child: int)
    requires Inv(s) && Agree(s, p) && Granted(s, Clone(from, child, false))
    ensures var r := CloneSpec(s, from, child, false);
            && r.Ok? && from in p.procs && p.procs[from] in p.tables
            && (Agree(r.value, PosixFork(p, child, p.procs[from])) <==> EntriesAt(s, from) == map[])
  {
    hide Inv, CopyTable;
    GrantedIsDefined(s, p, Clone(from, child, false));
    CopyingCloneStarts(s, from, child);
    CloneIsCopyThenRegister(s, from, child);
    var t, n := s.procs[from].value, s.nextTable;
    LinkParts(s);
    CopyTableCopies(s, t);
    CopyIsTwin(s, t);
    CopyTableRest(s, t);
    var s', p' := CloneSpec(s, from, child, false).value, PosixFork(p, child, t);
    hide Rooted, Recorded, Owned, Fresh, CloneSpec, Agree, CopyOf;
    if EntriesAt(s, from) != map[] {
      var fd := SomeKey(EntriesAt(s, from));
      TwinsDisagree(s', p', t, n, fd);
    } else {
      assert CopyOf(s, s', t) by { SameCopy(s, CopyTable(s, t).value, s', t); }
      EmptyFork(s, s', p, from, child);
    }
  }

  lemma SameCopy(s: State, s1: State, s': State, t: int)
    requires CopyOf(s, s1, t) && s'.tables == s1.tables && s'.maps == s1.maps
    ensures CopyOf(s, s', t)
  {
    assert forall u, f :: Entry(s', u, f) <==> Entry(s1, u, f);
  }

  lemma TwinsDisagree(s: State, p: Posix, t: int, n: int, fd: int)
    requires t in s.tables && n in s.tables && Twins(s, s.tables[t], s.tables[n]) && fd in s.tables[t]
    requires t in p.tables && n in p.tables && p.tables[n] == p.tables[t]
    ensures !Agree(s, p)
  {
    assert Entry(s, t, fd) && Entry(s, n, fd);
  }

  lemma EmptyFork(s: State, s': State, p: Posix, from: int, child: int)
    requires Agree(s, p) && from in p.procs && p.procs[from] in p.tables && child !in s.procs
    requires EntriesAt(s, from) == map[] && HasTable(s, from) && s.procs[from].value in s.tables
      && s.nextTable !in s.tables
    requires CopyOf(s, s', s.procs[from].value) && s'.nextTable == s.nextTable + 1
    requires s'.procs == s.procs[child := Some(s.nextTable)] && s'.tables.Keys == s.tables.Keys + {s.nextTable}
    ensures Agree(s', PosixFork(p, child, p.procs[from]))
  {
    var t, p' := s.procs[from].value, PosixFork(p, child, p.procs[from]);
    EmptyForkTables(s, s', p, from, child);
    CopyKeepsRecords(s, s', t);
    hide SameTables, CopyOf, PosixFork, Entry;
    EntriesAgree(s, s', p, p');
  }

  lemma CopyKeepsRecords(s: State, s': State, t: int)
    requires CopyOf(s, s', t)
    ensures forall a :: a in s.maps ==> a in s'.maps && s'.maps[a] == s.maps[a]
  {
  }

  lemma EmptyForkTables(s: State, s': State, p: Posix, from: int, child: int)
    requires SameTables(s, p) && from in p.procs && p.procs[from] in p.tables && child !in s.procs
    requires EntriesAt(s, from) == map[] && HasTable(s, from) && s.procs[from].value in s.tables
      && s.nextTable !in s.tables
    requires CopyOf(s, s', s.procs[from].value) && s'.nextTable == s.nextTable + 1
    requires s'.procs == s.procs[child := Some(s.nextTable)] && s'.tables.Keys == s.tables.Keys + {s.nextTable}
    ensures var p' := PosixFork(p, child, p.procs[from]);
      && SameTables(s', p') && p'.offsets == p.offsets && p'.nextDesc == p.nextDesc
      && forall u, f :: Entry(s', u, f) ==>
           Entry(s, u, f) && p'.tables[u][f] == p.tables[u][f] && s'.tables[u][f] == s.tables[u][f]
  {
    var t := s.procs[from].value;
    forall f ensures f !in p.tables[t] && !Entry(s, t, f) {
      assert Entry(s, t, f) <==> f in p.tables[t];
    }
    assert forall u, f :: Entry(s', u, f) <==> Entry(s, u, f);
  }

  /** What the difference is: a read by the parent moves the child's POSIX offset, but not the
      position the program keeps for the child. */
  lemma ForkSplitsPosition(env: Env, s: State, p: Posix, from: int, child: int, fd: int, n: int)
    requires Inv(s) && Agree(s, p) && Granted(s, Clone(from, child, false)) && Granted(s, Read(from, fd, n)) && n > 0
    ensures var ops := [Clone(from, child, false), Read(from, fd, n)];
            var r := Run(env, s, ops); var q := PosixRun(p, ops);
            && r.Ok? && HasTable(r.value, child) && fd in EntriesAt(r.value, child)
            && EntriesAt(r.value, child)[fd] in r.value.maps
            && child in q.procs && q.procs[child] in q.tables && fd in q.tables[q.procs[child]]
            && q.tables[q.procs[child]][fd] in q.offsets
            && q.offsets[q.tables[q.procs[child]][fd]] == r.value.maps[EntriesAt(r.value, child)[fd]].curPos + n
  {
    var c, rd, t := Clone(from, child, false), Read(from, fd, n), s.procs[from].value;
    hide Inv, CloneSpec, Does, Agree, Twins, Step, PosixStep;
    TablesExist(s);
    GrantedIsDefined(s, p, rd);
    AgreeOffset(s, p, t, fd);
    CopyingCloneStarts(s, from, child);
    var s1, p1 := CloneSpec(s, from, child, false).value, PosixFork(p, child, t);
    CloneStep(s, from, child, false);
    TablesExist(s1);
    StillGranted(s, s1, from, fd, n);
    ReadAfterFork(env, s1, t, s1.procs[child].value, from, fd, n);
    PosixReadAfterFork(p, from, child, fd, n);
    assert Step(env, s, c) == Ok(s1) by { CloneStepIs(env, s, from, child); }
    TwoSteps(env, s, p, c, rd);
  }

  lemma CloneStepIs(env: Env, s: State, from: int, child: int)
    ensures Step(env, s, Clone(from, child, false)) == CloneSpec(s, from, child, false)
  {
  }

  lemma TwoSteps(env: Env, s: State, p: Posix, c: Op, d: Op)
    requires Step(env, s, c).Ok?
    ensures Run(env, s, [c, d]) == Step(env, Step(env, s, c).value, d)
    ensures PosixRun(p, [c, d]) == PosixStep(PosixStep(p, c), d)
  {
    hide Step, PosixStep;
    OneStep(env, Step(env, s, c).value, PosixStep(p, c), d);
    assert [c, d][1..] == [d];
  }

  lemma OneStep(env: Env, s: State, p: Posix, c: Op)
    ensures Run(env, s, [c]) == Step(env, s, c) && PosixRun(p, [c]) == PosixStep(p, c)
  {
    hide Step, PosixStep;
    assert [c][1..] == [];
  }

  lemma StillGranted(s: State, s1: State, from: int, fd: int, n: int)
    requires Granted(s, Read(from, fd, n)) && HasTable(s1, from) && s1.procs[from] == s.procs[from]
    requires SameView(s, s1, s.procs[from].value)
    ensures Granted(s1, Read(from, fd, n))
    ensures s1.maps[TableAt(s, s.procs[from].value)[fd]] == s.maps[TableAt(s, s.procs[from].value)[fd]]
  {
  }

  lemma PosixReadAfterFork(p: Posix, from: int, child: int, fd: int, n: int)
    requires from in p.procs && p.procs[from] in p.tables && fd in p.tables[p.procs[from]] && from != child
    requires p.tables[p.procs[from]][fd] in p.offsets && p.nextTable !in p.tables
    ensures var t := p.procs[from]; var q := PosixStep(PosixStep(p, Clone(from, child, false)), Read(from, fd, n));
            && child in q.procs && q.procs[child] in q.tables && fd in q.tables[q.procs[child]]
            && q.tables[q.procs[child]][fd] == p.tables[t][fd] && p.tables[t][fd] in q.offsets
            && q.offsets[p.tables[t][fd]] == p.offsets[p.tables[t][fd]] + n
  {
  }

  lemma ReadAfterFork(env: Env, s: State, t: int, u: int, from: int, fd: int, n: int)
    requires HasTable(s, from) && s.procs[from].value == t && t in s.tables && u in s.tables && fd >= 0
    requires Granted(s, Read(from, fd, n)) && Twins(s, s.tables[t], s.tables[u])
    ensures var r := Step(env, s, Read(from, fd, n));
            && r.Ok? && r.value.procs == s.procs && r.value.tables == s.tables
            && fd in s.tables[u] && s.tables[u][fd] in r.value.maps
            && r.value.maps[s.tables[u][fd]] == s.maps[s.tables[t][fd]]
  {
    TransferMoves(env, s, Read(from, fd, n));
    assert fd in s.tables[t];
    hide Step;
  }
}
