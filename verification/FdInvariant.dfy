/** What every step keeps: no entry dangles, every alias is recorded, and the usage counts are the
    numbers of entries. */
module FdInvariant {
  import opened Options
  import opened FdMaps
  import opened FdMachine
  import opened SetFacts

  const FIRST_OPEN_FD := 1000
  const LAST_SOCKET_FD := 100_000_000
  const INT_MAX := 0x7fff_ffff

  ghost predicate Entry(s: State, t: int, fd: int) {
    t in s.tables && fd in s.tables[t]
  }

  /** The first process has a table, and no table pointer dangles. */
  ghost predicate Rooted(s: State) {
    && s.parentPid >= 0
    && s.parentPid in s.procs && s.procs[s.parentPid].Some?
    && (forall p :: p in s.procs && s.procs[p].Some? ==> s.procs[p].value in s.tables)
    && (forall t :: t in s.tables ==> t < s.nextTable)
  }

  /** Every entry points to a live record that records the entry's own number. */
  ghost predicate Recorded(s: State) {
    forall t, fd :: Entry(s, t, fd) ==>
      fd >= 0 && s.tables[t][fd] in s.maps && fd in Parents(s.maps[s.tables[t][fd]].parents)
  }

  /** No record is shared between two tables. */
  ghost predicate Owned(s: State) {
    forall t, fd, t', fd' :: Entry(s, t, fd) && Entry(s, t', fd') && s.tables[t][fd] == s.tables[t'][fd']
      ==> t == t'
  }

  ghost predicate Fresh(s: State) {
    forall a :: a in s.maps ==> a.gen < s.clock
  }

  /** The entries, over all distinct tables, whose record has my_fd k. */
  ghost function Users(s: State, k: int): set<(int, int)> {
    set t, fd | t in s.tables && fd in s.tables[t]
                && s.tables[t][fd] in s.maps && s.maps[s.tables[t][fd]].myFd == k :: (t, fd)
  }

  /** The usage count of an open file or directory is the number of entries that use it. */
  ghost predicate Counted(s: State) {
    forall t, fd :: Entry(s, t, fd) && s.tables[t][fd] in s.maps && Supported(s.maps[s.tables[t][fd]].ftype)
      ==> var k := s.maps[s.tables[t][fd]].myFd; Usage(s.usage, k) == |Users(s, k)|
  }

  /** Each supply hands out numbers from its own range. */
  ghost predicate InRange(s: State, m: FdMap) {
    match m.ftype
    case Regular | Directory | Ignored => FIRST_OPEN_FD <= m.myFd < s.openFd
    case Socket => s.sockFd < m.myFd <= LAST_SOCKET_FD
    case Fifo => s.pipeFd < m.myFd < INT_MAX
    case Special => 0 <= m.myFd < 3
  }

  ghost predicate Supplied(s: State) {
    && FIRST_OPEN_FD <= s.openFd <= s.sockFd + 1
    && s.sockFd <= LAST_SOCKET_FD <= s.pipeFd < INT_MAX
    && (forall a :: a in s.maps ==> InRange(s, s.maps[a]))
    && (forall a, b :: (a in s.maps && b in s.maps && s.maps[a].myFd == s.maps[b].myFd
                        && Supported(s.maps[a].ftype)) ==> Supported(s.maps[b].ftype))
    && (forall k :: k in s.usage ==> k < s.openFd || s.sockFd < k)
  }

  ghost predicate Inv(s: State) {
    Rooted(s) && Recorded(s) && Owned(s) && Fresh(s) && Counted(s) && Supplied(s)
  }

  // ---------- one entry more ----------

  lemma AddEntryUsers(s: State, t: int, fd: int, myFd: int, ftype: FileType, name: string, key: int, k: int)
    requires Recorded(s) && Fresh(s) && t in s.tables && fd >= 0 && fd !in s.tables[t]
    ensures var s' := AddEntry(s, t, fd, myFd, ftype, name, key);
            Users(s', k) == Users(s, k) + (if k == myFd then {(t, fd)} else {})
    ensures (t, fd) !in Users(s, k)
  {
    hide OnlyParent, Bump, Parents;
  }

  lemma AddEntryLinks(s: State, t: int, fd: int, myFd: int, ftype: FileType, name: string, key: int)
    requires Rooted(s) && Recorded(s) && Owned(s) && Fresh(s)
    requires t in s.tables && fd >= 0 && fd !in s.tables[t]
    ensures var s' := AddEntry(s, t, fd, myFd, ftype, name, key);
            Rooted(s') && Recorded(s') && Owned(s') && Fresh(s')
  {
    var s' := AddEntry(s, t, fd, myFd, ftype, name, key);
    forall u, f | Entry(s', u, f) && (u, f) != (t, fd)
      ensures Entry(s, u, f) && s'.tables[u][f] == s.tables[u][f]
    {
    }
  }

  /** k is the my_fd of a supported record that some entry points to. */
  ghost predicate Watched(s: State, k: int) {
    exists t, fd :: Entry(s, t, fd) && s.tables[t][fd] in s.maps
      && Supported(s.maps[s.tables[t][fd]].ftype) && s.maps[s.tables[t][fd]].myFd == k
  }

  lemma AddEntryCounts(s: State, t: int, fd: int, myFd: int, ftype: FileType, name: string, key: int)
    requires Recorded(s) && Fresh(s) && Counted(s) && t in s.tables && fd >= 0 && fd !in s.tables[t]
    requires !Watched(s, key) && !Watched(s, myFd)
    requires Supported(ftype) ==> key == myFd && Users(s, myFd) == {} && myFd !in s.usage
    ensures Counted(AddEntry(s, t, fd, myFd, ftype, name, key))
  {
    var s' := AddEntry(s, t, fd, myFd, ftype, name, key);
    forall u, f | Entry(s', u, f) && s'.tables[u][f] in s'.maps && Supported(s'.maps[s'.tables[u][f]].ftype)
      ensures var k := s'.maps[s'.tables[u][f]].myFd; Usage(s'.usage, k) == |Users(s', k)|
    {
      var k := s'.maps[s'.tables[u][f]].myFd;
      AddEntryUsers(s, t, fd, myFd, ftype, name, key, k);
      AddEntryOld(s, t, fd, myFd, ftype, name, key, u, f);
      hide Users, AddEntry, Recorded, Fresh;
      if (u, f) != (t, fd) {
        assert Watched(s, k);
      }
    }
  }

  /** Every entry but the new one was there before, with the same record; only the count of key changes. */
  lemma AddEntryOld(s: State, t: int, fd: int, myFd: int, ftype: FileType, name: string, key: int, u: int, f: int)
    requires Recorded(s) && Fresh(s) && t in s.tables && fd >= 0 && fd !in s.tables[t]
    requires Entry(AddEntry(s, t, fd, myFd, ftype, name, key), u, f)
    ensures var s' := AddEntry(s, t, fd, myFd, ftype, name, key);
      && (forall k :: Usage(s'.usage, k) == Usage(s.usage, k) + if k == key then 1 else 0)
      && s'.tables[u][f] in s'.maps
      && ((u, f) == (t, fd) ==> s'.maps[s'.tables[u][f]].myFd == myFd && s'.maps[s'.tables[u][f]].ftype == ftype)
      && ((u, f) != (t, fd) ==>
            && Entry(s, u, f) && s.tables[u][f] == s'.tables[u][f] && s.tables[u][f] in s.maps
            && s'.maps[s.tables[u][f]] == s.maps[s.tables[u][f]])
  {
    hide OnlyParent;
    assert (u, f) != (t, fd) ==> Entry(s, u, f);
  }

  lemma UnwatchedOutside(s: State, k: int)
    requires Supplied(s) && Recorded(s)
    requires k < FIRST_OPEN_FD || s.openFd <= k
    ensures !Watched(s, k)
  {
  }

  lemma NoUsersOutside(s: State, k: int)
    requires Supplied(s) && s.openFd <= k <= s.sockFd
    ensures Users(s, k) == {} && k !in s.usage
  {
  }

  /** A new record n takes its number from a supply that moves past it. */
  lemma AddedSupplied(s: State, s': State, n: Addr)
    requires Supplied(s) && n in s'.maps && s'.maps == s.maps[n := s'.maps[n]]
    requires s.openFd <= s'.openFd <= s'.sockFd + 1 && s'.sockFd <= s.sockFd
    requires LAST_SOCKET_FD <= s'.pipeFd <= s.pipeFd
    requires InRange(s', s'.maps[n]) && !InRange(s, s'.maps[n]) && !s'.maps[n].ftype.Special?
    requires forall k :: k in s'.usage ==> k < s'.openFd || s'.sockFd < k
    ensures Supplied(s')
  {
    forall a | a in s'.maps ensures InRange(s', s'.maps[a]) {
      assert a != n ==> InRange(s, s.maps[a]);
    }
    forall a, b | a in s'.maps && b in s'.maps && s'.maps[a].myFd == s'.maps[b].myFd && Supported(s'.maps[a].ftype)
      ensures Supported(s'.maps[b].ftype)
    {
      assert a != n ==> InRange(s, s.maps[a]);
      assert b != n ==> InRange(s, s.maps[b]);
    }
  }

  lemma OpenAtKeepsInv(env: Env, s: State, t: int, fd: int, name: string, directory: bool)
    requires Inv(s) && t in s.tables && fd >= 0 && fd !in s.tables[t] && s.openFd <= s.sockFd
    ensures Inv(OpenAt(env, s, t, fd, name, directory))
  {
    hide Rooted, Recorded, Owned, Fresh, Counted, Watched;
    var s' := OpenAt(env, s, t, fd, name, directory);
    var m := s'.maps[Addr(s.clock, fd)];
    var s1 := AddEntry(s, t, fd, s.openFd, m.ftype, m.name, s.openFd);
    assert s' == s1.(openFd := s.openFd + 1);
    AddEntryLinks(s, t, fd, s.openFd, m.ftype, m.name, s.openFd);
    UnwatchedOutside(s, s.openFd);
    NoUsersOutside(s, s.openFd);
    AddEntryCounts(s, t, fd, s.openFd, m.ftype, m.name, s.openFd);
    SameParts(s1, s');
    AddedSupplied(s, s', Addr(s.clock, fd));
  }

  /** Linking and counting do not look at the supplies and the transfers. */
  lemma SameParts(s: State, s': State)
    requires s' == s.(openFd := s'.openFd, sockFd := s'.sockFd, pipeFd := s'.pipeFd,
                      readLog := s'.readLog, writeLog := s'.writeLog)
    ensures (Rooted(s') <==> Rooted(s)) && (Recorded(s') <==> Recorded(s)) && (Owned(s') <==> Owned(s))
    ensures (Fresh(s') <==> Fresh(s)) && (Counted(s') <==> Counted(s))
    ensures forall k :: Users(s', k) == Users(s, k)
  {
    assert forall k :: Users(s', k) == Users(s, k);
    assert forall t, fd :: Entry(s', t, fd) <==> Entry(s, t, fd);
  }

  lemma SocketKeepsInv(s: State, t: int, fd: int)
    requires Inv(s) && t in s.tables && fd >= 0 && fd !in s.tables[t] && s.openFd <= s.sockFd
    ensures Inv(AddEntry(s, t, fd, s.sockFd, FileType.Socket, "", s.sockFd).(sockFd := s.sockFd - 1))
  {
    hide Rooted, Recorded, Owned, Fresh, Counted, Watched;
    var s1 := AddEntry(s, t, fd, s.sockFd, FileType.Socket, "", s.sockFd);
    AddEntryLinks(s, t, fd, s.sockFd, FileType.Socket, "", s.sockFd);
    UnwatchedOutside(s, s.sockFd);
    AddEntryCounts(s, t, fd, s.sockFd, FileType.Socket, "", s.sockFd);
    SameParts(s1, s1.(sockFd := s.sockFd - 1));
    AddedSupplied(s, s1.(sockFd := s.sockFd - 1), Addr(s.clock, fd));
  }

  /** A pipe end does no harm when the number it is counted under is neither in use by an open file
      nor still to be handed out to one. */
  ghost predicate PipeHarmless(s: State, fd: int) {
    !Watched(s, fd) && !(s.openFd <= fd <= s.sockFd)
  }

  lemma PipeEndKeepsInv(s: State, t: int, fd: int)
    requires Inv(s) && t in s.tables && fd >= 0 && fd !in s.tables[t] && LAST_SOCKET_FD < s.pipeFd
    requires PipeHarmless(s, fd)
    ensures Inv(PipeEnd(s, t, fd))
  {
    hide Rooted, Recorded, Owned, Fresh, Counted, Watched;
    var s1 := AddEntry(s, t, fd, s.pipeFd, Fifo, "", fd);
    AddEntryLinks(s, t, fd, s.pipeFd, Fifo, "", fd);
    UnwatchedOutside(s, s.pipeFd);
    AddEntryCounts(s, t, fd, s.pipeFd, Fifo, "", fd);
    AddedSupplied(s, s1.(pipeFd := s.pipeFd - 1), Addr(s.clock, fd));
    SameParts(s1, s1.(pipeFd := s.pipeFd - 1));
  }

  // ---------- steps that hand out no new number ----------

  /** Some record of s has the number and type of m. */
  ghost predicate Kin(s: State, m: FdMap) {
    exists b :: b in s.maps && s.maps[b].myFd == m.myFd && s.maps[b].ftype == m.ftype
  }

  lemma SuppliedByKin(s: State, s': State)
    requires Supplied(s)
    requires s'.openFd == s.openFd && s'.sockFd == s.sockFd && s'.pipeFd == s.pipeFd
    requires forall a :: a in s'.maps ==> Kin(s, s'.maps[a])
    requires forall k :: k in s'.usage ==> k in s.usage || exists b :: b in s.maps && s.maps[b].myFd == k
    ensures Supplied(s')
  {
    forall a | a in s'.maps ensures InRange(s', s'.maps[a]) {
      var b :| b in s.maps && s.maps[b].myFd == s'.maps[a].myFd && s.maps[b].ftype == s'.maps[a].ftype;
      assert InRange(s, s.maps[b]);
    }
    forall a, b | a in s'.maps && b in s'.maps && s'.maps[a].myFd == s'.maps[b].myFd && Supported(s'.maps[a].ftype)
      ensures Supported(s'.maps[b].ftype)
    {
      assert Kin(s, s'.maps[a]) && Kin(s, s'.maps[b]);
    }
    forall k | k in s'.usage ensures k < s'.openFd || s'.sockFd < k {
      if k !in s.usage {
        var b :| b in s.maps && s.maps[b].myFd == k;
        assert InRange(s, s.maps[b]);
      }
    }
  }

  // ---------- one entry less ----------

  /** Closing an entry succeeds. It frees the record only when no other entry points to it. */
  lemma CloseEntryWorks(s: State, t: int, fd: int)
    requires Inv(s) && Entry(s, t, fd)
    ensures CloseEntry(s, t, fd, s.tables[t][fd]).Ok?
    ensures var s' := CloseEntry(s, t, fd, s.tables[t][fd]).value;
            s.tables[t][fd] !in s'.maps ==>
              forall u, f :: Entry(s', u, f) ==> s'.tables[u][f] != s.tables[t][fd]
  {
    var m := s.maps[s.tables[t][fd]];
    if Supported(m.ftype) {
      assert (t, fd) in Users(s, m.myFd);
      assert Usage(s.usage, m.myFd) == |Users(s, m.myFd)|;
    }
    var parents := WithoutParent(m.parents, fd).value;
    NoParentsLeft(parents);
  }

  lemma CloseEntryUsers(s: State, t: int, fd: int, k: int)
    requires Recorded(s) && Owned(s) && Entry(s, t, fd) && CloseEntry(s, t, fd, s.tables[t][fd]).Ok?
    ensures Users(CloseEntry(s, t, fd, s.tables[t][fd]).value, k) == Users(s, k) - {(t, fd)}
  {
    var s' := CloseEntry(s, t, fd, s.tables[t][fd]).value;
    forall u, f | Entry(s', u, f) ensures s'.tables[u][f] in s'.maps {
      assert Entry(s, u, f);
      NoParentsLeft(WithoutParent(s.maps[s.tables[t][fd]].parents, fd).value);
    }
  }

  lemma CloseEntryLinks(s: State, t: int, fd: int)
    requires Inv(s) && Entry(s, t, fd)
    ensures var r := CloseEntry(s, t, fd, s.tables[t][fd]);
            r.Ok? && Rooted(r.value) && Recorded(r.value) && Owned(r.value) && Fresh(r.value)
  {
    CloseEntryWorks(s, t, fd);
    assert Recorded(s) && Owned(s) && Rooted(s) && Fresh(s) && fd >= 0;
    CloseEntryLeaves(s, t, fd);
    hide *;
    LinksLeft(s, t, fd, CloseEntry(s, t, fd, s.tables[t][fd]).value);
  }

  /** s' is s without entry fd of table t, and without its record if no other name is recorded. */
  ghost predicate Left(s: State, t: int, fd: int, s': State)
    requires Entry(s, t, fd)
  {
    var a := s.tables[t][fd];
    && s'.tables == s.tables[t := s.tables[t] - {fd}] && s'.procs == s.procs && s'.parentPid == s.parentPid
    && s'.nextTable == s.nextTable && s'.clock == s.clock
    && (forall b :: b in s'.maps ==> b in s.maps)
      && (forall b :: b in s.maps && b != a ==> b in s'.maps && s'.maps[b] == s.maps[b])
    && (a in s'.maps ==> a in s.maps && Parents(s'.maps[a].parents) == Parents(s.maps[a].parents) - {fd})
    && (a !in s'.maps ==> forall u, f :: Entry(s', u, f) ==> s'.tables[u][f] != a)
  }

  lemma LinksLeft(s: State, t: int, fd: int, s': State)
    requires Rooted(s) && Recorded(s) && Owned(s) && Fresh(s) && Entry(s, t, fd) && Left(s, t, fd, s')
    ensures Rooted(s') && Recorded(s') && Owned(s') && Fresh(s')
  {
    RecordedLeft(s, t, fd, s');
    forall u, f | Entry(s', u, f) ensures Entry(s, u, f) && s'.tables[u][f] == s.tables[u][f] {
      hide Left;
    }
    hide Recorded, Parents;
  }

  lemma RecordedLeft(s: State, t: int, fd: int, s': State)
    requires Recorded(s) && Owned(s) && Entry(s, t, fd) && Left(s, t, fd, s')
    ensures Recorded(s')
  {
    hide Parents;
    forall u, f | Entry(s', u, f)
      ensures f >= 0 && s'.tables[u][f] in s'.maps && f in Parents(s'.maps[s'.tables[u][f]].parents)
    {
      assert Entry(s, u, f) && s'.tables[u][f] == s.tables[u][f];
    }
  }

  lemma CloseEntryLeaves(s: State, t: int, fd: int)
    requires Entry(s, t, fd) && s.tables[t][fd] in s.maps && fd >= 0 && CloseEntry(s, t, fd, s.tables[t][fd]).Ok?
    requires var s' := CloseEntry(s, t, fd, s.tables[t][fd]).value;
      s.tables[t][fd] !in s'.maps ==> forall u, f :: Entry(s', u, f) ==> s'.tables[u][f] != s.tables[t][fd]
    ensures Left(s, t, fd, CloseEntry(s, t, fd, s.tables[t][fd]).value)
  {
    hide Parents, Drop;
  }

  /** The count of k after entry e, which used k0, is gone. */
  lemma UsageAfterClose(usage: map<int, int>, users: set<(int, int)>, e: (int, int), k: int, k0: int, counted: bool)
    requires Usage(usage, k) == |users| && (e in users <==> k0 == k) && (k0 == k ==> counted)
    requires counted ==> Drop(usage, k0).Ok?
    ensures Usage(if counted then Drop(usage, k0).value else usage, k) == |users - {e}|
  {
    if e !in users {
      assert users - {e} == users;
    }
  }

  lemma CloseEntryUsage(s: State, t: int, fd: int, u: int, f: int)
    requires Recorded(s) && Owned(s) && Entry(s, t, fd) && CloseEntry(s, t, fd, s.tables[t][fd]).Ok?
    requires Entry(s, u, f) && Supported(s.maps[s.tables[u][f]].ftype)
    requires var k := s.maps[s.tables[u][f]].myFd; Usage(s.usage, k) == |Users(s, k)|
    requires s.maps[s.tables[t][fd]].myFd == s.maps[s.tables[u][f]].myFd ==> Supported(s.maps[s.tables[t][fd]].ftype)
    ensures var k := s.maps[s.tables[u][f]].myFd;
            var s' := CloseEntry(s, t, fd, s.tables[t][fd]).value;
            Usage(s'.usage, k) == |Users(s', k)|
  {
    var k, m := s.maps[s.tables[u][f]].myFd, s.maps[s.tables[t][fd]];
    CloseEntryUsers(s, t, fd, k);
    UsageAfterClose(s.usage, Users(s, k), (t, fd), k, m.myFd, Supported(m.ftype));
  }

  lemma CloseEntryCounts(s: State, t: int, fd: int)
    requires Inv(s) && Entry(s, t, fd)
    ensures var r := CloseEntry(s, t, fd, s.tables[t][fd]);
            r.Ok? && Counted(r.value)
  {
    CloseEntryWorks(s, t, fd);
    var s' := CloseEntry(s, t, fd, s.tables[t][fd]).value;
    forall u, f | Entry(s', u, f) && s'.tables[u][f] in s'.maps && Supported(s'.maps[s'.tables[u][f]].ftype)
      ensures var k := s'.maps[s'.tables[u][f]].myFd; Usage(s'.usage, k) == |Users(s', k)|
    {
      assert Entry(s, u, f);
      CloseEntryUsage(s, t, fd, u, f);
    }
  }

  lemma CloseEntryKeepsInv(s: State, t: int, fd: int)
    requires Inv(s) && Entry(s, t, fd)
    ensures var r := CloseEntry(s, t, fd, s.tables[t][fd]);
            r.Ok? && Inv(r.value)
  {
    CloseEntryLinks(s, t, fd);
    CloseEntryCounts(s, t, fd);
    var s' := CloseEntry(s, t, fd, s.tables[t][fd]).value;
    forall a | a in s'.maps ensures Kin(s, s'.maps[a]) {
      assert a in s.maps;
    }
    SuppliedByKin(s, s');
  }

  /** decrease_fd_usage reports the last use exactly when the closed entry was the only user. */
  lemma LastUse(s: State, t: int, fd: int)
    requires Inv(s) && Entry(s, t, fd) && Supported(s.maps[s.tables[t][fd]].ftype)
    ensures var k := s.maps[s.tables[t][fd]].myFd;
            Drop(s.usage, k).Ok? && (k !in Drop(s.usage, k).value <==> Users(s, k) == {(t, fd)})
  {
    var k := s.maps[s.tables[t][fd]].myFd;
    assert (t, fd) in Users(s, k);
    assert Usage(s.usage, k) == |Users(s, k)|;
    if |Users(s, k)| == 1 {
      assert |Users(s, k) - {(t, fd)}| == 0;
    }
  }

  // ---------- one name more ----------

  lemma LinkEntryUsers(s: State, t: int, fd: int, a: Addr, k: int)
    requires Recorded(s) && t in s.tables && fd !in s.tables[t] && a in s.maps
    requires LinkEntry(s, t, fd, a).Ok?
    ensures var s' := LinkEntry(s, t, fd, a).value;
            Users(s', k) == Users(s, k) + (if k == s.maps[a].myFd then {(t, fd)} else {})
    ensures (t, fd) !in Users(s, k)
  {
    hide Recorded, WithParent, Bump;
  }

  lemma LinkEntryCounts(s: State, t: int, fd: int, source: int)
    requires Recorded(s) && Counted(s) && Entry(s, t, source) && fd !in s.tables[t]
    requires LinkEntry(s, t, fd, s.tables[t][source]).Ok?
    ensures Counted(LinkEntry(s, t, fd, s.tables[t][source]).value)
  {
    var a := s.tables[t][source];
    var s' := LinkEntry(s, t, fd, a).value;
    forall u, f | Entry(s', u, f) && s'.tables[u][f] in s'.maps && Supported(s'.maps[s'.tables[u][f]].ftype)
      ensures var k := s'.maps[s'.tables[u][f]].myFd; Usage(s'.usage, k) == |Users(s', k)|
    {
      LinkEntryOld(s, t, fd, source, u, f);
      var f0 := if (u, f) == (t, fd) then source else f;
      var k := s.maps[s.tables[u][f0]].myFd;
      LinkEntryUsers(s, t, fd, a, k);
      LinkEntryUsage(s, t, fd, a, k);
      hide Users, Recorded, LinkEntry;
    }
  }

  /** Every entry after the link has a record that was there before, under the same name or under the source's. */
  lemma LinkEntryOld(s: State, t: int, fd: int, source: int, u: int, f: int)
    requires Recorded(s) && Entry(s, t, source) && fd !in s.tables[t] && LinkEntry(s, t, fd, s.tables[t][source]).Ok?
    requires Entry(LinkEntry(s, t, fd, s.tables[t][source]).value, u, f)
    ensures var s', f0 := LinkEntry(s, t, fd, s.tables[t][source]).value, if (u, f) == (t, fd) then source else f;
      && Entry(s, u, f0) && s.tables[u][f0] == s'.tables[u][f] && s.tables[u][f0] in s.maps
        && s.tables[u][f0] in s'.maps
      && s'.maps[s.tables[u][f0]].myFd == s.maps[s.tables[u][f0]].myFd
      && s'.maps[s.tables[u][f0]].ftype == s.maps[s.tables[u][f0]].ftype
  {
    assert Entry(s, u, if (u, f) == (t, fd) then source else f);
    hide WithParent, Bump;
  }

  lemma LinkEntryUsage(s: State, t: int, fd: int, a: Addr, k: int)
    requires LinkEntry(s, t, fd, a).Ok?
    ensures a in s.maps
    ensures Usage(LinkEntry(s, t, fd, a).value.usage, k) == Usage(s.usage, k) + if k == s.maps[a].myFd then 1 else 0
  {
    hide WithParent;
  }

  lemma LinkEntryLinks(s: State, t: int, fd: int, source: int)
    requires Rooted(s) && Recorded(s) && Owned(s) && Fresh(s)
    requires Entry(s, t, source) && fd >= 0 && fd !in s.tables[t]
    requires fd !in Parents(s.maps[s.tables[t][source]].parents)
    requires !Full(s.maps[s.tables[t][source]].parents)
    ensures var r := LinkEntry(s, t, fd, s.tables[t][source]);
            r.Ok? && Rooted(r.value) && Recorded(r.value) && Owned(r.value) && Fresh(r.value)
  {
    var s' := LinkEntry(s, t, fd, s.tables[t][source]).value;
    forall u, f | Entry(s', u, f)
      ensures f >= 0 && s'.tables[u][f] in s'.maps && f in Parents(s'.maps[s'.tables[u][f]].parents)
    {
      assert (u, f) == (t, fd) || Entry(s, u, f);
    }
    forall u, f, u', f' | Entry(s', u, f) && Entry(s', u', f') && s'.tables[u][f] == s'.tables[u'][f']
      ensures u == u'
    {
      assert (u, f) == (t, fd) || Entry(s, u, f);
      assert (u', f') == (t, fd) || Entry(s, u', f');
    }
  }

  /** A new name for a record keeps the invariant as long as the record has a free parent slot. */
  lemma LinkEntryKeepsInv(s: State, t: int, fd: int, source: int)
    requires Inv(s) && Entry(s, t, source) && fd >= 0 && fd !in s.tables[t]
    requires fd !in Parents(s.maps[s.tables[t][source]].parents)
    requires !Full(s.maps[s.tables[t][source]].parents)
    ensures var r := LinkEntry(s, t, fd, s.tables[t][source]);
            r.Ok? && Inv(r.value)
  {
    var s' := LinkEntry(s, t, fd, s.tables[t][source]).value;
    LinkEntryLinks(s, t, fd, source);
    LinkEntryCounts(s, t, fd, source);
    forall a | a in s'.maps ensures Kin(s, s'.maps[a]) {
      assert a in s.maps;
    }
    SuppliedByKin(s, s');
  }

  // ---------- a table more ----------

  /** s' has the entries of s and, in a new table, copies of those of t. */
  ghost predicate CopyOf(s: State, s': State, t: int) {
    && (forall u, f :: Entry(s', u, f) <==> Entry(s, u, f) || (u == s.nextTable && Entry(s, t, f)))
    && (forall u, f :: Entry(s, u, f) ==> Entry(s', u, f) && s'.tables[u][f] == s.tables[u][f])
    && (forall a :: a in s.maps ==> a in s'.maps && s'.maps[a] == s.maps[a])
    && (forall f :: Entry(s, t, f) ==>
          && s.tables[t][f] in s.maps && Entry(s', s.nextTable, f)
          && s'.tables[s.nextTable][f] in s'.maps
          && s'.maps[s'.tables[s.nextTable][f]] == s.maps[s.tables[t][f]])
  }

  lemma CopyTableWorks(s: State, t: int)
    requires Recorded(s) && t in s.tables
    ensures AllLive(s, s.tables[t]) && CopyTable(s, t).Ok?
  {
    assert forall f :: f in s.tables[t] ==> Entry(s, t, f);
  }

  lemma CopiedRecordsAt(s: State, tbl: Table)
    requires AllLive(s, tbl) && Fresh(s)
    ensures forall f :: f in tbl ==> Addr(s.clock, f) in s.maps + CopiedRecords(s, tbl)
                                     && (s.maps + CopiedRecords(s, tbl))[Addr(s.clock, f)] == s.maps[tbl[f]]
    ensures forall a :: a in s.maps ==> (s.maps + CopiedRecords(s, tbl))[a] == s.maps[a]
    ensures forall a :: a in s.maps + CopiedRecords(s, tbl) ==> a in s.maps || (a.gen == s.clock && a.slot in tbl)
  {
    assert forall f :: f in tbl ==> Addr(s.clock, f) in NewAddrs(s, tbl);
  }

  lemma CopyTableCopies(s: State, t: int)
    requires Rooted(s) && Recorded(s) && Fresh(s) && t in s.tables
    ensures CopyTable(s, t).Ok? && CopyOf(s, CopyTable(s, t).value, t)
  {
    CopyTableWorks(s, t);
    CopiedRecordsAt(s, s.tables[t]);
    CopyOfFromParts(s, CopyTable(s, t).value, t);
  }

  lemma CopyOfFromParts(s: State, s': State, t: int)
    requires Recorded(s) && t in s.tables && s.nextTable !in s.tables
    requires s'.tables == s.tables[s.nextTable := CopiedTable(s, s.tables[t])]
    requires forall f :: f in s.tables[t] ==> Addr(s.clock, f) in s'.maps
                                              && s'.maps[Addr(s.clock, f)] == s.maps[s.tables[t][f]]
    requires forall a :: a in s.maps ==> a in s'.maps && s'.maps[a] == s.maps[a]
    ensures CopyOf(s, s', t)
  {
    assert forall f :: f in s.tables[t] ==> Entry(s, t, f);
  }

  lemma CopiedUsers(s: State, s': State, t: int, k: int)
    requires Recorded(s) && t in s.tables && s.nextTable !in s.tables && CopyOf(s, s', t)
    ensures |Users(s', k)| == |Users(s, k)| + |Holding(s, s.tables[t], k)|
  {
    var copies := Tagged(s.nextTable, Holding(s, s.tables[t], k));
    forall u, f | (u, f) in Users(s', k) ensures (u, f) in Users(s, k) + copies {
      assert Entry(s', u, f);
      assert u == s.nextTable ==> Entry(s, t, f);
      assert u != s.nextTable ==> Entry(s, u, f);
    }
    forall u, f | (u, f) in Users(s, k) + copies ensures (u, f) in Users(s', k) {
      assert u == s.nextTable ==> Entry(s, t, f);
      assert u != s.nextTable ==> Entry(s, u, f);
    }
    assert Users(s', k) == Users(s, k) + copies;
    assert Users(s, k) !! copies;
    SizeOfTagged(s.nextTable, Holding(s, s.tables[t], k));
  }

  lemma LinksOfCopy(s: State, s': State, t: int)
    requires Recorded(s) && Owned(s) && Fresh(s) && t in s.tables && s.nextTable !in s.tables && CopyOf(s, s', t)
    requires forall f :: Entry(s, t, f) ==> s'.tables[s.nextTable][f] == Addr(s.clock, f)
    ensures Recorded(s') && Owned(s')
  {
    forall u, f | Entry(s', u, f)
      ensures f >= 0 && s'.tables[u][f] in s'.maps && f in Parents(s'.maps[s'.tables[u][f]].parents)
    {
      assert if u == s.nextTable then Entry(s, t, f) else Entry(s, u, f);
    }
    forall u, f, u', f' | Entry(s', u, f) && Entry(s', u', f') && s'.tables[u][f] == s'.tables[u'][f']
      ensures u == u'
    {
      assert if u == s.nextTable then Entry(s, t, f) else Entry(s, u, f);
      assert if u' == s.nextTable then Entry(s, t, f') else Entry(s, u', f');
    }
  }

  lemma CopyTableLinks(s: State, t: int)
    requires Rooted(s) && Recorded(s) && Owned(s) && Fresh(s) && t in s.tables
    ensures var r := CopyTable(s, t);
            r.Ok? && Rooted(r.value) && Recorded(r.value) && Owned(r.value) && Fresh(r.value)
  {
    CopyTableCopies(s, t);
    CopyTableBasics(s, t);
    hide Rooted, Recorded, Owned, Fresh, CopyOf, CopyTable;
    LinksOfCopy(s, CopyTable(s, t).value, t);
  }

  lemma CopyTableBasics(s: State, t: int)
    requires Rooted(s) && Recorded(s) && Fresh(s) && t in s.tables
    ensures var r := CopyTable(s, t);
      && r.Ok? && Rooted(r.value) && Fresh(r.value) && s.nextTable !in s.tables
      && forall f :: Entry(s, t, f) ==> r.value.tables[s.nextTable][f] == Addr(s.clock, f)
  {
    CopyTableWorks(s, t);
    CopiedRecordsAt(s, s.tables[t]);
    CopyTableIs(s, t);
    hide Recorded, CopyTable, CopiedTable, CopiedRecords, CopiedUsage, AllLive;
  }

  lemma CopyTableIs(s: State, t: int)
    requires t in s.tables && AllLive(s, s.tables[t])
    ensures CopyTable(s, t) == Ok(s.(
      tables := s.tables[s.nextTable := CopiedTable(s, s.tables[t])], maps := s.maps + CopiedRecords(s, s.tables[t]),
      usage := s.usage + CopiedUsage(s, s.tables[t]), nextTable := s.nextTable + 1, clock := s.clock + 1))
    ensures forall f :: f in s.tables[t] ==>
      f in CopiedTable(s, s.tables[t]) && CopiedTable(s, s.tables[t])[f] == Addr(s.clock, f)
  {
    hide AllLive, CopiedRecords, CopiedUsage;
  }

  lemma CopiedUsageAt(s: State, tbl: Table, k: int)
    ensures Usage(s.usage + CopiedUsage(s, tbl), k) == Usage(s.usage, k) + |Holding(s, tbl, k)|
  {
    if k !in MyFds(s, tbl) {
      forall fd | fd in tbl && tbl[fd] in s.maps ensures fd !in Holding(s, tbl, k) {
        assert s.maps[tbl[fd]].myFd in MyFds(s, tbl);
      }
      assert Holding(s, tbl, k) == {};
    }
  }

  lemma CopyTableCounts(s: State, t: int)
    requires Rooted(s) && Recorded(s) && Fresh(s) && Counted(s) && t in s.tables
    ensures CopyTable(s, t).Ok? && Counted(CopyTable(s, t).value)
  {
    CopyTableCopies(s, t);
    var s' := CopyTable(s, t).value;
    forall u, f | Entry(s', u, f) && s'.tables[u][f] in s'.maps && Supported(s'.maps[s'.tables[u][f]].ftype)
      ensures var k := s'.maps[s'.tables[u][f]].myFd; Usage(s'.usage, k) == |Users(s', k)|
    {
      var k := s'.maps[s'.tables[u][f]].myFd;
      CopiedUsageAt(s, s.tables[t], k);
      CopiedUsers(s, s', t, k);
      assert if u == s.nextTable then Entry(s, t, f) else Entry(s, u, f);
    }
  }

  lemma CopyTableKeepsInv(s: State, t: int)
    requires Inv(s) && t in s.tables
    ensures CopyTable(s, t).Ok? && Inv(CopyTable(s, t).value)
  {
    CopyTableLinks(s, t);
    CopyTableCounts(s, t);
    CopiedRecordsAt(s, s.tables[t]);
    var s' := CopyTable(s, t).value;
    forall a | a in s'.maps ensures Kin(s, s'.maps[a]) {
      if a !in s.maps {
        assert s.tables[t][a.slot] in s.maps;
      }
    }
    SuppliedByKin(s, s');
  }

  // ---------- steps that touch no entry ----------

  lemma RegisterKeepsInv(s: State, pid: int, t: Option<int>)
    requires Inv(s) && (t.Some? ==> t.value in s.tables)
    ensures Inv(s.(procs := Register(s.procs, pid, t)))
  {
    var s' := s.(procs := Register(s.procs, pid, t));
    assert forall k :: Users(s', k) == Users(s, k);
    assert forall u, f :: Entry(s', u, f) <==> Entry(s, u, f);
  }

  lemma MoveKeepsInv(s: State, s': State, a: Addr, pos: nat)
    requires Inv(s) && a in s.maps
    requires s' == s.(maps := s.maps[a := s.maps[a].(curPos := pos)], readLog := s'.readLog, writeLog := s'.writeLog)
    ensures Inv(s')
  {
    forall k ensures Users(s', k) == Users(s, k) {
    }
    assert forall u, f :: Entry(s', u, f) <==> Entry(s, u, f);
    forall b | b in s'.maps ensures Kin(s, s'.maps[b]) {
      assert b in s.maps;
    }
    SuppliedByKin(s, s');
  }

  lemma NoteKeepsInv(s: State, s': State)
    requires Inv(s) && s' == s.(readLog := s'.readLog, writeLog := s'.writeLog)
    ensures Inv(s')
  {
    SameParts(s, s');
  }
}
