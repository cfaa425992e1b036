/** Sharing over whole runs: when a record is freed, and who sees whose tables. */
module FdAliases {
  import opened Options
  import opened FdMaps
  import opened FdMachine
  import opened FdInvariant
  import opened FdSafety
  import opened FdPaths

  // ---------- parents are exactly the aliases ----------

  /** Entries f and g of table t point to the same record. */
  ghost predicate Same(s: State, t: int, f: int, g: int) {
    Entry(s, t, f) && Entry(s, t, g) && s.tables[t][f] == s.tables[t][g]
  }

  ghost predicate InParents(s: State, t: int, fd: int, g: int) {
    Entry(s, t, fd) && s.tables[t][fd] in s.maps && g in Parents(s.maps[s.tables[t][fd]].parents)
  }

  ghost predicate PointedTo(s: State, a: Addr) {
    exists t, fd :: Entry(s, t, fd) && s.tables[t][fd] == a
  }

  /** Every record lists exactly the entries that point to it, and no record is left over. */
  ghost predicate Tight(s: State) {
    && (forall t, fd, g :: Entry(s, t, fd) ==> (InParents(s, t, fd, g) <==> Same(s, t, fd, g)))
    && (forall a :: a in s.maps ==> PointedTo(s, a))
  }

  ghost predicate AliasFree(s: State, t: int) {
    forall f, g :: Same(s, t, f, g) ==> f == g
  }

  lemma TightAdd(s: State, t: int, fd: int, s': State)
    requires Inv(s) && Tight(s) && Does(s, t, Add(fd), s')
    ensures Tight(s')
  {
    hide Inv, Recorded, Owned;
    FreshAddr(s, t, fd);
    forall u, f, g | Entry(s', u, f) ensures InParents(s', u, f, g) <==> Same(s', u, f, g) {
      if (u, f) != (t, fd) {
        assert Entry(s, u, f) && (InParents(s, u, f, g) <==> Same(s, u, f, g)) && Same(s, u, f, f);
        assert (u, g) != (t, fd) ==> (Entry(s, u, g) <==> Entry(s', u, g));
      } else {
        assert g != fd ==> (Entry(s, t, g) <==> Entry(s', t, g));
      }
    }
    forall a | a in s'.maps ensures PointedTo(s', a) {
      if a == Addr(s.clock, fd) {
        assert Entry(s', t, fd);
      } else {
        var u, f :| Entry(s, u, f) && s.tables[u][f] == a;
        assert Entry(s', u, f);
      }
    }
  }

  lemma FreshAddr(s: State, t: int, fd: int)
    requires Inv(s)
    ensures Addr(s.clock, fd) !in s.maps && forall u, f :: Entry(s, u, f) ==> s.tables[u][f] != Addr(s.clock, fd)
  {
  }

  /** With exact parents, a close frees the record exactly when it takes the last alias. */
  lemma FreedAtLastClose(s: State, t: int, fd: int)
    requires Inv(s) && Tight(s) && Entry(s, t, fd)
    ensures var r := CloseEntry(s, t, fd, s.tables[t][fd]);
            r.Ok? && (s.tables[t][fd] !in r.value.maps <==> forall g :: Same(s, t, fd, g) ==> g == fd)
  {
    CloseEntryWorks(s, t, fd);
    var before := Parents(s.maps[s.tables[t][fd]].parents);
    var p := WithoutParent(s.maps[s.tables[t][fd]].parents, fd).value;
    NoParentsLeft(p);
    if p.last != -1 {
      var g := p.ids[0];
      assert g in Parents(p) && InParents(s, t, fd, g);
    } else {
      forall g | Same(s, t, fd, g) ensures g == fd {
        assert InParents(s, t, fd, g);
        assert g in before;
      }
    }
  }

  /** What a close and a link leave of the records, without the counting. */
  ghost predicate Shutting(s: State, t: int, fd: int, s': State) {
    && Entry(s, t, fd) && s'.tables == s.tables[t := s.tables[t] - {fd}]
    && (forall a :: a in s'.maps ==> a in s.maps && s'.maps[a].curPos == s.maps[a].curPos)
    && (forall a :: a in s'.maps && a != s.tables[t][fd] ==> s'.maps[a] == s.maps[a])
    && (s.tables[t][fd] in s'.maps ==>
          Parents(s'.maps[s.tables[t][fd]].parents) == Parents(s.maps[s.tables[t][fd]].parents) - {fd})
    && (forall a :: a in s.maps && a != s.tables[t][fd] ==> a in s'.maps)
  }

  ghost predicate Linking(s: State, t: int, source: int, fd: int, s': State) {
    && Entry(s, t, source) && s.tables[t][source] in s.maps && fd !in s.tables[t]
    && s'.tables == s.tables[t := s.tables[t][fd := s.tables[t][source]]]
    && (forall a :: a in s'.maps <==> a in s.maps)
    && (forall a :: a in s.maps ==> s'.maps[a].curPos == s.maps[a].curPos)
    && (forall a :: a in s.maps && a != s.tables[t][source] ==> s'.maps[a] == s.maps[a])
    && Parents(s'.maps[s.tables[t][source]].parents) == Parents(s.maps[s.tables[t][source]].parents) + {fd}
  }

  lemma ShutShape(s: State, t: int, fd: int, s': State)
    requires Does(s, t, Shut(fd), s')
    ensures Shutting(s, t, fd, s')
  {
    hide Drop;
  }

  lemma LinkShape(s: State, t: int, source: int, fd: int, s': State)
    requires Does(s, t, Link(source, fd), s')
    ensures Linking(s, t, source, fd, s')
  {
  }

  lemma ShutParents(s: State, t: int, fd: int, s': State, u: int, f: int, g: int)
    requires Recorded(s') && Owned(s) && Shutting(s, t, fd, s') && Entry(s', u, f)
    requires InParents(s, u, f, g) <==> Same(s, u, f, g)
    ensures InParents(s', u, f, g) <==> Same(s', u, f, g)
  {
    hide Parents;
    assert Entry(s, u, f);
    assert s.tables[u][f] == s.tables[t][fd] ==> u == t;
  }

  lemma TightShut(s: State, t: int, fd: int, s': State)
    requires Inv(s) && Tight(s) && Does(s, t, Shut(fd), s')
    ensures Tight(s')
  {
    hide CloseEntry, Inv;
    FreedAtLastClose(s, t, fd);
    CloseEntryKeepsInv(s, t, fd);
    ShutShape(s, t, fd, s');
    hide Does;
    LinkParts(s);
    LinkParts(s');
    TightShutting(s, t, fd, s');
  }

  lemma LinkParts(s: State)
    requires Inv(s)
    ensures Rooted(s) && Recorded(s) && Owned(s) && Fresh(s)
  {
  }

  lemma TightShutting(s: State, t: int, fd: int, s': State)
    requires Recorded(s') && Owned(s) && Tight(s) && Shutting(s, t, fd, s')
    requires s.tables[t][fd] !in s'.maps <==> forall g :: Same(s, t, fd, g) ==> g == fd
    ensures Tight(s')
  {
    hide Recorded, Owned, InParents;
    forall u, f, g | Entry(s', u, f) ensures InParents(s', u, f, g) <==> Same(s', u, f, g) {
      hide Same;
      assert Entry(s, u, f);
      ShutParents(s, t, fd, s', u, f, g);
    }
    ShutPointers(s, t, fd, s');
  }

  lemma ShutPointers(s: State, t: int, fd: int, s': State)
    requires (forall a :: a in s.maps ==> PointedTo(s, a)) && Shutting(s, t, fd, s')
    requires s.tables[t][fd] !in s'.maps <==> forall g :: Same(s, t, fd, g) ==> g == fd
    ensures forall a :: a in s'.maps ==> PointedTo(s', a)
  {
    hide InParents, Parents;
    forall a | a in s'.maps ensures PointedTo(s', a) {
      assert PointedTo(s, a);
      var u, f :| Entry(s, u, f) && s.tables[u][f] == a;
      if (u, f) != (t, fd) {
        assert Entry(s', u, f);
      } else {
        var g :| Same(s, t, fd, g) && g != fd;
        assert Entry(s', t, g);
      }
    }
  }

  lemma LinkParents(s: State, t: int, source: int, fd: int, s': State, u: int, f: int, g: int)
    requires Recorded(s) && Owned(s) && Linking(s, t, source, fd, s') && Entry(s', u, f)
    requires var f0 := if (u, f) == (t, fd) then source else f; InParents(s, u, f0, g) <==> Same(s, u, f0, g)
    ensures InParents(s', u, f, g) <==> Same(s', u, f, g)
  {
    hide Parents;
    var f0 := if (u, f) == (t, fd) then source else f;
    assert Entry(s, u, f0) && s.tables[u][f0] == s'.tables[u][f] && s.tables[u][f0] in s.maps;
    assert s.tables[u][f0] == s.tables[t][source] ==> u == t;
    hide Recorded, Owned;
    LinkSame(s, t, source, fd, s', u, f, g);
    assert InParents(s', u, f, g) <==> InParents(s, u, f0, g) || (s.tables[u][f0] == s.tables[t][source] && g == fd);
  }

  lemma LinkSame(s: State, t: int, source: int, fd: int, s': State, u: int, f: int, g: int)
    requires Linking(s, t, source, fd, s') && Entry(s', u, f)
    requires var f0 := if (u, f) == (t, fd) then source else f;
      Entry(s, u, f0) && (s.tables[u][f0] == s.tables[t][source] ==> u == t)
    ensures var f0 := if (u, f) == (t, fd) then source else f;
      Same(s', u, f, g) <==> Same(s, u, f0, g) || (s.tables[u][f0] == s.tables[t][source] && g == fd)
  {
    hide Parents;
  }

  lemma TightLink(s: State, t: int, source: int, fd: int, s': State)
    requires Inv(s) && Tight(s) && Does(s, t, Link(source, fd), s')
    ensures Tight(s')
  {
    hide LinkEntry, Inv;
    LinkShape(s, t, source, fd, s');
    LinkParts(s);
    hide Does;
    TightLinking(s, t, source, fd, s');
  }

  lemma TightLinking(s: State, t: int, source: int, fd: int, s': State)
    requires Recorded(s) && Owned(s) && Tight(s) && Linking(s, t, source, fd, s')
    ensures Tight(s')
  {
    hide Recorded, Owned, Same, InParents, PointedTo, Parents;
    forall u, f, g | Entry(s', u, f) ensures InParents(s', u, f, g) <==> Same(s', u, f, g) {
      var f0 := if (u, f) == (t, fd) then source else f;
      assert Entry(s, u, f0);
      LinkParents(s, t, source, fd, s', u, f, g);
    }
    LinkPointers(s, t, source, fd, s');
  }

  lemma LinkPointers(s: State, t: int, source: int, fd: int, s': State)
    requires (forall a :: a in s.maps ==> PointedTo(s, a)) && Linking(s, t, source, fd, s')
    ensures forall a :: a in s'.maps ==> PointedTo(s', a)
  {
    LinkEntries(s, t, source, fd, s');
    hide PointedTo, Parents, Entry;
    PointersStay(s, s');
  }

  lemma LinkEntries(s: State, t: int, source: int, fd: int, s': State)
    requires Entry(s, t, source) && fd !in s.tables[t]
      && s'.tables == s.tables[t := s.tables[t][fd := s.tables[t][source]]]
    ensures forall u, f :: Entry(s, u, f) ==> Entry(s', u, f) && s'.tables[u][f] == s.tables[u][f]
  {
  }

  lemma PointersStay(s: State, s': State)
    requires forall a :: a in s'.maps ==> PointedTo(s, a)
    requires forall u, f :: Entry(s, u, f) ==> Entry(s', u, f) && s'.tables[u][f] == s.tables[u][f]
    ensures forall a :: a in s'.maps ==> PointedTo(s', a)
  {
    forall a | a in s'.maps ensures PointedTo(s', a) {
      var u, f :| Entry(s, u, f) && s.tables[u][f] == a;
      assert Entry(s', u, f);
    }
  }

  lemma TightCopyOf(s: State, u: int, s': State)
    requires Tight(s) && Fresh(s) && u in s.tables && s.nextTable !in s.tables && CopyOf(s, s', u)
    requires forall f :: Entry(s, u, f) ==> s'.tables[s.nextTable][f] == Addr(s.clock, f)
    requires forall a :: a in s'.maps ==> a in s.maps || (a.gen == s.clock && Entry(s, u, a.slot))
    ensures Tight(s') <==> AliasFree(s, u)
  {
    var n := s.nextTable;
    forall f, g ensures Same(s', n, f, g) <==> f == g && Entry(s, u, f) {
      assert (Entry(s', n, f) <==> Entry(s, u, f)) && (Entry(s', n, g) <==> Entry(s, u, g));
    }
    forall f, g ensures InParents(s', n, f, g) <==> InParents(s, u, f, g) {
      assert Entry(s', n, f) <==> Entry(s, u, f);
      assert Entry(s, u, f) ==> s'.maps[s'.tables[n][f]] == s.maps[s.tables[u][f]];
    }
    if AliasFree(s, u) {
      forall v, f, g | Entry(s', v, f) ensures InParents(s', v, f, g) <==> Same(s', v, f, g) {
        if v == n {
          assert Entry(s, u, f) && (InParents(s, u, f, g) <==> Same(s, u, f, g));
          assert Same(s, u, f, f);
        } else {
          assert Entry(s, v, f) && (InParents(s, v, f, g) <==> Same(s, v, f, g)) && Same(s, v, f, f);
          assert Entry(s', v, g) <==> Entry(s, v, g);
        }
      }
      forall a | a in s'.maps ensures PointedTo(s', a) {
        if a in s.maps {
          var v, f :| Entry(s, v, f) && s.tables[v][f] == a;
          assert Entry(s', v, f);
        } else {
          assert Entry(s', n, a.slot);
        }
      }
    } else {
      var f, g :| Same(s, u, f, g) && f != g;
      assert InParents(s', n, f, g) && !Same(s', n, f, g);
      assert Entry(s', n, f);
    }
  }

  /** A copied table has exact parents exactly when no record of it had two names. */
  lemma TightCopy(s: State, u: int, s': State)
    requires Inv(s) && Tight(s) && u in s.tables && CopyTable(s, u) == Ok(s')
    ensures Tight(s') <==> AliasFree(s, u)
  {
    CopyTableCopies(s, u);
    CopiedRecordsAt(s, s.tables[u]);
    TightCopyOf(s, u, s');
  }

  lemma TightRest(s: State, t: int, c: Change, s': State)
    requires Tight(s) && Does(s, t, c, s') && (c.Move? || c.Quiet?)
    ensures Tight(s')
  {
    assert forall u, f :: Entry(s', u, f) <==> Entry(s, u, f);
    forall u, f, g | Entry(s', u, f) ensures InParents(s', u, f, g) <==> Same(s', u, f, g) {
      assert InParents(s, u, f, g) <==> Same(s, u, f, g);
    }
    forall a | a in s'.maps ensures PointedTo(s', a) {
      assert PointedTo(s, a);
      var u, f :| Entry(s, u, f) && s.tables[u][f] == a;
      assert Entry(s', u, f);
    }
  }

  lemma TightChange(s: State, t: int, c: Change, s': State)
    requires Inv(s) && Tight(s) && Does(s, t, c, s')
    ensures Tight(s') <==> !(c.Copy? && !AliasFree(s, c.table))
  {
    match c
    case Add(fd) => TightAdd(s, t, fd, s');
    case Shut(fd) => TightShut(s, t, fd, s');
    case Link(source, fd) => TightLink(s, t, source, fd, s');
    case Copy(u) => TightCopy(s, u, s');
    case Move(_) => TightRest(s, t, c, s');
    case Quiet => TightRest(s, t, c, s');
  }

  lemma {:induction false} TightPath(s: State, t: int, states: seq<State>, changes: seq<Change>, s': State)
    requires Path(s, t, states, changes, s') && Copyless(changes) && Tight(s)
    ensures Tight(s')
    decreases |changes|
  {
    hide Inv, Does, Tight;
    if |changes| > 0 {
      assert Does(states[0], t, changes[0], states[1]);
      TightChange(s, t, changes[0], states[1]);
      assert Path(states[1], t, states[1..], changes[1..], s') by {
        assert forall i :: 0 <= i < |changes| - 1 ==>
          states[1..][i] == states[i + 1] && changes[1..][i] == changes[i + 1];
      }
      TightPath(states[1], t, states[1..], changes[1..], s');
    }
  }

  /** Parents stay exact through every sound step, except, exactly, a copying clone of a table in
      which some record has two names. */
  lemma TightStep(env: Env, s: State, op: Op)
    requires Inv(s) && Stock(s, 1) && Plausible(op) && !Faults(env, s, op) && !Breaks(env, s, op) && Tight(s)
    ensures Step(env, s, op).Ok?
    ensures Tight(Step(env, s, op).value) <==> !(CopyingClone(s, op) && !AliasFree(s, TableOf(s, op.pid)))
  {
    TablesExist(s);
    hide Inv, Does, Tight, Step, Faults, Breaks;
    var states, changes := StepPath(env, s, op);
    if CopyingClone(s, op) {
      assert Does(states[0], TableOf(s, op.pid), changes[0], states[1]);
      assert Does(states[1], TableOf(s, op.pid), changes[1], states[2]);
      TightChange(s, TableOf(s, op.pid), changes[0], states[1]);
      TightQuiet(states[1], TableOf(s, op.pid), states[2]);
    } else {
      TightPath(s, TableOf(s, op.pid), states, changes, Step(env, s, op).value);
    }
  }

  lemma TightQuiet(s: State, t: int, s': State)
    requires Does(s, t, Quiet, s')
    ensures Tight(s') <==> Tight(s)
  {
    assert forall u, f :: Entry(s', u, f) <==> Entry(s, u, f);
    assert forall u, f, g :: Same(s', u, f, g) <==> Same(s, u, f, g);
    assert forall u, f, g :: InParents(s', u, f, g) <==> InParents(s, u, f, g);
    forall a ensures PointedTo(s', a) <==> PointedTo(s, a) {
    }
  }

  /** With exact parents no dup meets a stale one: among valid numbers it faults only onto itself. */
  lemma TightDup(env: Env, s: State, pid: int, oldFd: int, newFd: int)
    requires Inv(s) && Tight(s) && pid >= 0 && oldFd >= 0 && newFd >= 0
    ensures Faults(env, s, Dup(pid, oldFd, newFd)) <==>
              newFd == oldFd && Resolves(env, s, pid) && (oldFd in EntriesOf(s, pid) || env.fixMissing)
  {
    var t := TableOf(s, pid);
    if StaleParent(s, EntriesOf(s, pid), oldFd, newFd) {
      assert Entry(s, t, oldFd) && InParents(s, t, oldFd, newFd) && !Same(s, t, oldFd, newFd);
    }
  }

  // ---------- who sees whose changes ----------

  /** Table u and everything it points to are the same in both states. */
  ghost predicate SameView(s: State, s': State, u: int) {
    && TableAt(s, u) == TableAt(s', u)
    && forall fd :: fd in TableAt(s, u) && TableAt(s, u)[fd] in s.maps ==>
         TableAt(s, u)[fd] in s'.maps && s'.maps[TableAt(s, u)[fd]] == s.maps[TableAt(s, u)[fd]]
  }

  lemma CopyFrame(s: State, t: int, u: int)
    requires Rooted(s) && Recorded(s) && Fresh(s) && t in s.tables && u in s.tables
    ensures CopyTable(s, t).Ok? && u in CopyTable(s, t).value.tables && SameView(s, CopyTable(s, t).value, u)
  {
    CopyTableWorks(s, t);
    CopiedRecordsAt(s, s.tables[t]);
  }

  /** Records of other tables survive a change that spares every record but one of table t. */
  lemma SpareFrame(s: State, t: int, fd: int, s': State, u: int)
    requires Recorded(s) && Owned(s) && Entry(s, t, fd) && u in s.tables && u != t
    requires u in s'.tables && s'.tables[u] == s.tables[u]
    requires forall a :: a in s.maps && a != s.tables[t][fd] ==> a in s'.maps && s'.maps[a] == s.maps[a]
    ensures SameView(s, s', u)
  {
    forall f | f in s.tables[u] ensures s.tables[u][f] != s.tables[t][fd] {
      assert Entry(s, u, f);
    }
    hide Recorded, Owned;
  }

  lemma AddFrame(s: State, t: int, fd: int, s': State, u: int)
    requires Fresh(s) && Does(s, t, Add(fd), s') && u in s.tables && u != t
    ensures u in s'.tables && SameView(s, s', u)
  {
  }

  lemma MoveFrame(s: State, t: int, fd: int, s': State, u: int)
    requires Recorded(s) && Owned(s) && Does(s, t, Move(fd), s') && u in s.tables && u != t
    ensures u in s'.tables && SameView(s, s', u)
  {
    hide Recorded, Owned, SameView;
    SpareFrame(s, t, fd, s', u);
  }

  lemma ShutFrame(s: State, t: int, fd: int, s': State, u: int)
    requires Recorded(s) && Owned(s) && Shutting(s, t, fd, s') && u in s.tables && u != t
    ensures u in s'.tables && SameView(s, s', u)
  {
    hide Recorded, Owned, SameView;
    SpareFrame(s, t, fd, s', u);
  }

  lemma LinkFrame(s: State, t: int, source: int, fd: int, s': State, u: int)
    requires Recorded(s) && Owned(s) && Linking(s, t, source, fd, s') && u in s.tables && u != t
    ensures u in s'.tables && SameView(s, s', u)
  {
    hide Recorded, Owned, SameView;
    SpareFrame(s, t, source, s', u);
  }

  lemma QuietFrame(s: State, t: int, s': State, u: int)
    requires Does(s, t, Quiet, s') && u in s.tables
    ensures u in s'.tables && SameView(s, s', u)
  {
  }

  lemma CopyDone(s: State, t: int, v: int, s': State)
    requires Does(s, t, Copy(v), s')
    ensures v in s.tables && CopyTable(s, v) == Ok(s')
  {
  }

  lemma ChangeFrame(s: State, t: int, c: Change, s': State, u: int)
    requires Inv(s) && Does(s, t, c, s') && u in s.tables && u != t
    ensures u in s'.tables && SameView(s, s', u)
  {
    hide *;
    LinkParts(s);
    match c
    case Copy(v) =>
      CopyDone(s, t, v, s');
      CopyFrame(s, v, u);
    case Shut(fd) =>
      ShutShape(s, t, fd, s');
      ShutFrame(s, t, fd, s', u);
    case Link(source, fd) =>
      LinkShape(s, t, source, fd, s');
      LinkFrame(s, t, source, fd, s', u);
    case Add(fd) => AddFrame(s, t, fd, s', u);
    case Move(fd) => MoveFrame(s, t, fd, s', u);
    case Quiet => QuietFrame(s, t, s', u);
  }

  lemma ChangeKeepsTables(s: State, t: int, c: Change, s': State)
    requires Does(s, t, c, s')
    ensures forall u :: u in s.tables ==> u in s'.tables
    ensures forall p :: HasTable(s, p) ==> HasTable(s', p) && s'.procs[p] == s.procs[p]
  {
  }

  lemma {:induction false} PathFrame(s: State, t: int, states: seq<State>, changes: seq<Change>, s': State, u: int)
    requires Path(s, t, states, changes, s') && u in s.tables
    ensures u != t ==> u in s'.tables && SameView(s, s', u)
    ensures forall p :: HasTable(s, p) ==> HasTable(s', p) && s'.procs[p] == s.procs[p]
    decreases |changes|
  {
    hide Inv, Does;
    if |changes| > 0 {
      assert Does(states[0], t, changes[0], states[1]);
      ChangeKeepsTables(s, t, changes[0], states[1]);
      if u != t { ChangeFrame(s, t, changes[0], states[1], u); }
      assert Path(states[1], t, states[1..], changes[1..], s') by {
        assert forall i :: 0 <= i < |changes| - 1 ==>
          states[1..][i] == states[i + 1] && changes[1..][i] == changes[i + 1];
      }
      PathFrame(states[1], t, states[1..], changes[1..], s', u);
    }
  }

  /** A sound step of one process never changes a table other than its own, nor any record behind
      it, and no process ever changes its table. */
  lemma StepFrame(env: Env, s: State, op: Op, u: int)
    requires Inv(s) && Stock(s, 1) && Plausible(op) && !Faults(env, s, op) && !Breaks(env, s, op)
    requires u in s.tables
    ensures Step(env, s, op).Ok?
    ensures var s' := Step(env, s, op).value;
            && (u != TableOf(s, op.pid) ==> u in s'.tables && SameView(s, s', u))
            && (forall p :: HasTable(s, p) ==> HasTable(s', p) && s'.procs[p] == s.procs[p])
  {
    TablesExist(s);
    hide Inv, Does, Step, Faults, Breaks;
    var states, changes := StepPath(env, s, op);
    PathFrame(s, TableOf(s, op.pid), states, changes, Step(env, s, op).value, u);
  }

  /** No record of the run is by a process that works on table u. */
  ghost predicate OthersOnly(env: Env, s: State, ops: seq<Op>, u: int)
    decreases |ops|
  {
    ops == [] ||
    (HasTable(s, s.parentPid) && TableOf(s, ops[0].pid) != u
     && (Step(env, s, ops[0]).Ok? ==> OthersOnly(env, Step(env, s, ops[0]).value, ops[1..], u)))
  }

  /** Over a whole run, a table changes only through the processes that share it. */
  lemma {:induction false} RunFrame(env: Env, s: State, ops: seq<Op>, u: int)
    requires Inv(s) && Stock(s, |ops|) && (forall op :: op in ops ==> Plausible(op)) && Guarded(env, s, ops)
    requires u in s.tables
    ensures Run(env, s, ops).Ok? && u in Run(env, s, ops).value.tables
    ensures OthersOnly(env, s, ops, u) ==> SameView(s, Run(env, s, ops).value, u)
    ensures forall p :: HasTable(s, p) ==>
              HasTable(Run(env, s, ops).value, p) && Run(env, s, ops).value.procs[p] == s.procs[p]
    decreases |ops|
  {
    hide Inv, Step, Faults, Breaks;
    if ops != [] {
      StepExact(env, s, ops[0]);
      StepFrame(env, s, ops[0], u);
      var s1 := Step(env, s, ops[0]).value;
      StepKeepsTable(env, s, ops[0], u);
      RunFrame(env, s1, ops[1..], u);
    }
  }

  lemma StepKeepsTable(env: Env, s: State, op: Op, u: int)
    requires Inv(s) && Stock(s, 1) && Plausible(op) && !Faults(env, s, op) && !Breaks(env, s, op)
    requires u in s.tables
    ensures Step(env, s, op).Ok? && u in Step(env, s, op).value.tables
  {
    TablesExist(s);
    hide Inv, Does, Step, Faults, Breaks;
    var states, changes := StepPath(env, s, op);
    PathKeepsTable(s, TableOf(s, op.pid), states, changes, Step(env, s, op).value, u);
  }

  lemma {:induction false} PathKeepsTable(s: State, t: int, states: seq<State>, changes: seq<Change>, s': State, u: int)
    requires Path(s, t, states, changes, s') && u in s.tables
    ensures u in s'.tables
    decreases |changes|
  {
    hide Inv, Does;
    if |changes| > 0 {
      assert Does(states[0], t, changes[0], states[1]);
      ChangeKeepsTables(s, t, changes[0], states[1]);
      assert Path(states[1], t, states[1..], changes[1..], s') by {
        assert forall i :: 0 <= i < |changes| - 1 ==>
          states[1..][i] == states[i + 1] && changes[1..][i] == changes[i + 1];
      }
      PathKeepsTable(states[1], t, states[1..], changes[1..], s', u);
    }
  }

  // ---------- clone ----------

  /** After a sharing clone, recorded or made up, both processes have one and the same table. */
  lemma SharingClone(env: Env, s: State, from: int, child: int)
    requires Inv(s) && HasTable(s, from) && child >= 0 && from >= 0 && child !in s.procs
    ensures var r := CloneSpec(s, from, child, true);
            r.Ok? && HasTable(r.value, child) && r.value.procs[child] == r.value.procs[from] == s.procs[from]
    ensures var r := GetTable(env, s, child);
            env.fixMissing ==> r.Ok? && HasTable(r.value.0, child) && r.value.0.procs[child] == s.procs[s.parentPid]
  {
    GetTableWorks(env, s, child);
  }

  /** Processes that share a table share it, and so see the same descriptors, forever. */
  lemma SharedForever(env: Env, s: State, ops: seq<Op>, p: int, q: int)
    requires Inv(s) && Stock(s, |ops|) && (forall op :: op in ops ==> Plausible(op)) && Guarded(env, s, ops)
    requires HasTable(s, p) && HasTable(s, q) && s.procs[p] == s.procs[q]
    ensures var r := Run(env, s, ops);
            r.Ok? && HasTable(r.value, p) && HasTable(r.value, q) && r.value.procs[p] == r.value.procs[q]
            && EntriesAt(r.value, p) == EntriesAt(r.value, q)
  {
    TablesExist(s);
    RunFrame(env, s, ops, s.procs[p].value);
  }

  function EntriesAt(s: State, pid: int): Table {
    if HasTable(s, pid) then TableAt(s, s.procs[pid].value) else map[]
  }

  /** Two tables with the same numbers on equal but separate records. */
  ghost predicate Twins(s: State, mine: Table, its: Table) {
    mine.Keys == its.Keys &&
    forall fd :: fd in mine ==>
      mine[fd] in s.maps && its[fd] in s.maps && its[fd] != mine[fd] && s.maps[its[fd]] == s.maps[mine[fd]]
  }

  lemma CopyIsTwin(s: State, t: int)
    requires Rooted(s) && Recorded(s) && Fresh(s) && t in s.tables
    ensures var r := CopyTable(s, t);
            && r.Ok? && s.nextTable !in s.tables && s.nextTable in r.value.tables
            && TableAt(r.value, t) == s.tables[t] && Twins(r.value, s.tables[t], r.value.tables[s.nextTable])
  {
    CopyTableWorks(s, t);
    CopiedRecordsAt(s, s.tables[t]);
    assert forall fd :: fd in s.tables[t] ==> Entry(s, t, fd);
  }

  lemma CopyTableRest(s: State, t: int)
    requires CopyTable(s, t).Ok?
    ensures var s' := CopyTable(s, t).value;
            && s'.procs == s.procs && s'.tables.Keys == s.tables.Keys + {s.nextTable} && s'.nextTable == s.nextTable + 1
  {
    hide AllLive, CopiedTable, CopiedRecords, CopiedUsage;
  }

  /** A copying clone gives the child equal records under the same numbers, in a table of its own. */
  lemma CopyingCloneStarts(s: State, from: int, child: int)
    requires Inv(s) && HasTable(s, from) && from >= 0 && child >= 0 && child !in s.procs
    ensures CloneSpec(s, from, child, false).Ok?
    ensures var s2 := CloneSpec(s, from, child, false).value;
            && HasTable(s2, child) && s2.procs[child].value !in s.tables
            && HasTable(s2, from) && s2.procs[from] == s.procs[from] && SameView(s, s2, s.procs[from].value)
            && Twins(s2, EntriesAt(s2, from), EntriesAt(s2, child))
  {
    hide Inv, Rooted, Recorded, Fresh, CopyTable, CloneSpec;
    TablesExist(s);
    LinkParts(s);
    CloneStep(s, from, child, false);
    CopyIsTwin(s, s.procs[from].value);
    CopyTableRest(s, s.procs[from].value);
    CopyFrame(s, s.procs[from].value, s.procs[from].value);
    CloneIsCopyThenRegister(s, from, child);
    var s1, s2 := CopyTable(s, s.procs[from].value).value, CloneSpec(s, from, child, false).value;
    SameTwins(s1, s2, s.tables[s.procs[from].value], s1.tables[s.nextTable]);
  }

  lemma SameTwins(s: State, s': State, mine: Table, its: Table)
    requires Twins(s, mine, its) && s'.maps == s.maps
    ensures Twins(s', mine, its)
  {
  }

  /** From then on, whatever the one side does, the other side's view stays as it was. */
  lemma CopyingCloneSeparates(env: Env, s: State, from: int, child: int, ops: seq<Op>)
    requires Inv(s) && HasTable(s, from) && from >= 0 && child >= 0 && child !in s.procs
    requires var r := CloneSpec(s, from, child, false);
             r.Ok? && Inv(r.value) && Stock(r.value, |ops|) && Guarded(env, r.value, ops)
    requires forall op :: op in ops ==> Plausible(op)
    ensures var s1 := CloneSpec(s, from, child, false).value; var r := Run(env, s1, ops);
            && r.Ok? && HasTable(s1, child) && HasTable(s1, from)
            && (OthersOnly(env, s1, ops, s1.procs[child].value) ==> SameView(s1, r.value, s1.procs[child].value))
            && (OthersOnly(env, s1, ops, s1.procs[from].value) ==> SameView(s1, r.value, s1.procs[from].value))
  {
    CopyingCloneStarts(s, from, child);
    var s1 := CloneSpec(s, from, child, false).value;
    hide Inv, CloneSpec, Step;
    TablesExist(s1);
    RunFrame(env, s1, ops, s1.procs[child].value);
    RunFrame(env, s1, ops, s1.procs[from].value);
  }
}
