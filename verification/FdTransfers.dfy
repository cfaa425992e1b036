/** The transfers through one record: where each starts, and where the position ends up. */
module FdTransfers {
  import opened Options
  import opened FdMaps
  import opened FdMachine
  import opened FdInvariant
  import opened FdSafety
  import opened FdPaths

  datatype Event = Moved(at: nat, n: int) | Sought(to: nat)

  /** What a record of the trace does to the position of the record at a. */
  function EventsOf(env: Env, s: State, op: Op, a: Addr): seq<Event> {
    if op.Read? || op.Write? || op.Seek? then
      match Resolve(env, s, op.pid, op.fd)
      case Abort(_) => []
      case Ok((s1, e)) =>
        if e.None? || e.value.1 != a || a !in s1.maps || !Supported(s1.maps[a].ftype) then []
        else if op.Seek? then [Sought(Wrap64(op.result))]
        else [Moved(s1.maps[a].curPos, op.retval)]
    else []
  }

  function History(env: Env, s: State, ops: seq<Op>, a: Addr): seq<Event>
    decreases |ops|
  {
    if ops == [] then []
    else
      EventsOf(env, s, ops[0], a) +
      match Step(env, s, ops[0])
      case Abort(_) => []
      case Ok(s1) => History(env, s1, ops[1..], a)
  }

  /** The position after the events: the last seek, or the start, plus the bytes moved since. */
  function After(pos: nat, events: seq<Event>): nat
    decreases |events|
  {
    if events == [] then pos
    else
      match events[0]
      case Moved(_, n) => After(Wrap64(pos + n), events[1..])
      case Sought(to) => After(to, events[1..])
  }

  /** Every transfer starts where the one before it, or the last seek, left off. */
  predicate Contiguous(pos: nat, events: seq<Event>)
    decreases |events|
  {
    events == [] ||
    match events[0]
    case Moved(at, n) => at == pos && Contiguous(Wrap64(pos + n), events[1..])
    case Sought(to) => Contiguous(to, events[1..])
  }

  lemma {:induction false} AfterSplit(pos: nat, es: seq<Event>, fs: seq<Event>)
    ensures After(pos, es + fs) == After(After(pos, es), fs)
    ensures Contiguous(pos, es + fs) <==> Contiguous(pos, es) && Contiguous(After(pos, es), fs)
    decreases |es|
  {
    if es == [] {
      assert es + fs == fs;
    } else {
      assert (es + fs)[1..] == es[1..] + fs;
      AfterSplit(match es[0] case Moved(_, n) => Wrap64(pos + n) case Sought(to) => to, es[1..], fs);
    }
  }

  lemma ChangeKeepsPosition(s: State, t: int, c: Change, s': State, a: Addr)
    requires Fresh(s) && Does(s, t, c, s') && !c.Move? && !c.Copy? && a.gen < s.clock
    ensures s.clock <= s'.clock
    ensures a in s'.maps ==> a in s.maps && s'.maps[a].curPos == s.maps[a].curPos && s'.maps[a].ftype == s.maps[a].ftype
  {
  }

  lemma {:induction false} PathKeepsPosition(s: State, t: int, states: seq<State>, changes: seq<Change>, s': State,
                                             a: Addr)
    requires Path(s, t, states, changes, s') && Still(changes) && a.gen < s.clock
    ensures s.clock <= s'.clock
    ensures a in s'.maps ==> a in s.maps && s'.maps[a].curPos == s.maps[a].curPos && s'.maps[a].ftype == s.maps[a].ftype
    decreases |changes|
  {
    if |changes| > 0 {
      FirstChange(s, t, states, changes, s');
      hide Does, Inv, Path, Fresh;
      ChangeKeepsPosition(s, t, changes[0], states[1], a);
      PathKeepsPosition(states[1], t, states[1..], changes[1..], s', a);
    }
  }

  lemma FirstChange(s: State, t: int, states: seq<State>, changes: seq<Change>, s': State)
    requires Path(s, t, states, changes, s') && |changes| > 0 && Still(changes)
    ensures |states| > 1 && Fresh(s) && Does(s, t, changes[0], states[1])
      && Path(states[1], t, states[1..], changes[1..], s')
    ensures !changes[0].Move? && !changes[0].Copy? && Still(changes[1..])
  {
    PathParts(s, t, states, changes, s');
    assert Fresh(s) by {
      hide Path, Does, Still;
    }
    assert changes[0] in changes && forall c :: c in changes[1..] ==> c in changes;
  }

  lemma PathParts(s: State, t: int, states: seq<State>, changes: seq<Change>, s': State)
    requires Path(s, t, states, changes, s') && |changes| > 0
    ensures |states| > 1 && Inv(s) && Does(s, t, changes[0], states[1])
      && Path(states[1], t, states[1..], changes[1..], s')
  {
    hide Inv, Does;
    assert Does(states[0], t, changes[0], states[1]) && Inv(states[0]);
    assert forall i :: 0 <= i < |changes| - 1 ==> states[1..][i] == states[i + 1] && changes[1..][i] == changes[i + 1];
  }

  /** One event, or none, and the position it leads to. */
  ghost predicate Explains(s: State, s': State, a: Addr, events: seq<Event>) {
    s.clock <= s'.clock &&
    (a in s'.maps ==>
      a in s.maps && Contiguous(s.maps[a].curPos, events) && s'.maps[a].curPos == After(s.maps[a].curPos, events))
  }

  lemma ResolvePosition(env: Env, s: State, pid: int, fd: int, a: Addr)
    requires Inv(s) && s.openFd <= s.sockFd && a.gen < s.clock && Resolve(env, s, pid, fd).Ok?
    ensures var s1 := Resolve(env, s, pid, fd).value.0;
            && s.clock <= s1.clock
            && (a in s1.maps ==> a in s.maps && s1.maps[a].curPos == s.maps[a].curPos)
  {
    TablesExist(s);
    hide Inv, Resolve, Path;
    var states, changes := ResolvePath(env, s, pid, fd);
    PathKeepsPosition(s, TableOf(s, pid), states, changes, Resolve(env, s, pid, fd).value.0, a);
  }

  lemma TransferPosition(s: State, b: Addr, write: bool, at: Option<int>, retval: int, a: Addr)
    requires Transfer(s, b, write, at, retval).Ok?
    ensures var s' := Transfer(s, b, write, at, retval).value;
      && b in s.maps && s'.clock == s.clock && (a in s'.maps <==> a in s.maps)
      && (a in s.maps && a == b && at.None? && Supported(s.maps[a].ftype)
          ==> s'.maps[a].curPos == Wrap64(s.maps[a].curPos + retval))
      && (a in s.maps && !(a == b && at.None? && Supported(s.maps[a].ftype)) ==> s'.maps[a].curPos == s.maps[a].curPos)
  {
  }

  lemma SeekPosition(s: State, b: Addr, result: int, a: Addr)
    requires Reposition(s, b, result).Ok?
    ensures var s' := Reposition(s, b, result).value;
      && b in s.maps && s'.clock == s.clock && (a in s'.maps <==> a in s.maps)
      && (a in s.maps && a == b && Supported(s.maps[a].ftype) ==> s'.maps[a].curPos == Wrap64(result))
      && (a in s.maps && !(a == b && Supported(s.maps[a].ftype)) ==> s'.maps[a].curPos == s.maps[a].curPos)
  {
  }

  lemma OneEvent(pos: nat, e: Event)
    ensures match e
            case Moved(at, n) => (Contiguous(pos, [e]) <==> at == pos) && After(pos, [e]) == Wrap64(pos + n)
            case Sought(to) => Contiguous(pos, [e]) && After(pos, [e]) == to
    ensures Contiguous(pos, []) && After(pos, []) == pos
  {
    assert [e][1..] == [];
  }

  lemma TransferEvent(env: Env, s: State, op: Op, a: Addr)
    requires Inv(s) && s.openFd <= s.sockFd && a.gen < s.clock && Transfers(op) && Step(env, s, op).Ok?
    ensures Explains(s, Step(env, s, op).value, a, EventsOf(env, s, op, a))
  {
    ResolvePosition(env, s, op.pid, op.fd, a);
    hide Inv, Resolve;
    var (s1, e) := Resolve(env, s, op.pid, op.fd).value;
    if e.Some? {
      hide Explains;
      if op.Seek? {
        SeekExplains(s1, e.value.1, op.result, a);
      } else {
        var at := if op.Pread? || op.Pwrite? then Some(op.offset) else None;
        TransferExplains(s1, e.value.1, op.Write? || op.Pwrite?, at, op.retval, a);
      }
      ExplainsFrom(s, s1, Step(env, s, op).value, a, EventsOf(env, s, op, a));
    } else {
      OneEvent(if a in s.maps then s.maps[a].curPos else 0, Sought(0));
    }
  }

  lemma ExplainsFrom(s: State, s1: State, s': State, a: Addr, events: seq<Event>)
    requires Explains(s1, s', a, events) && s.clock <= s1.clock
    requires a in s1.maps ==> a in s.maps && s1.maps[a].curPos == s.maps[a].curPos
    ensures Explains(s, s', a, events)
  {
  }

  lemma SeekExplains(s: State, b: Addr, result: int, a: Addr)
    requires Reposition(s, b, result).Ok?
    ensures b in s.maps && Explains(s, Reposition(s, b, result).value, a,
      if a == b && Supported(s.maps[b].ftype) then [Sought(Wrap64(result))] else [])
  {
    SeekPosition(s, b, result, a);
    hide Reposition, Contiguous, After, Wrap64;
    OneEvent(if a in s.maps then s.maps[a].curPos else 0, Sought(Wrap64(result)));
  }

  lemma TransferExplains(s: State, b: Addr, write: bool, at: Option<int>, retval: int, a: Addr)
    requires Transfer(s, b, write, at, retval).Ok?
    ensures b in s.maps && Explains(s, Transfer(s, b, write, at, retval).value, a,
      if a == b && at.None? && Supported(s.maps[b].ftype) then [Moved(s.maps[b].curPos, retval)] else [])
  {
    TransferPosition(s, b, write, at, retval, a);
    hide Transfer, Contiguous, After, Wrap64;
    OneEvent(if a in s.maps then s.maps[a].curPos else 0, Moved(if a in s.maps then s.maps[a].curPos else 0, retval));
  }

  lemma CopyEvent(s: State, from: int, child: int, a: Addr)
    requires Inv(s) && a.gen < s.clock && CloneSpec(s, from, child, false).Ok? && !HasTable(s, child)
    ensures Explains(s, CloneSpec(s, from, child, false).value, a, [])
  {
    hide Inv, CopyTable, CloneSpec;
    TablesExist(s);
    CloneIsCopyThenRegister(s, from, child);
    CopyTableKeepsRecords(s, s.procs[from].value, a);
  }

  lemma CopyTableKeepsRecords(s: State, t: int, a: Addr)
    requires Inv(s) && t in s.tables && a.gen < s.clock
    ensures var r := CopyTable(s, t);
            r.Ok? && s.clock <= r.value.clock && (a in r.value.maps ==> a in s.maps && r.value.maps[a] == s.maps[a])
  {
    CopyTableWorks(s, t);
    CopiedRecordsAt(s, s.tables[t]);
  }

  /** A sound step moves the position of a record exactly as its events say. */
  lemma StepEvents(env: Env, s: State, op: Op, a: Addr)
    requires Inv(s) && Stock(s, 1) && Plausible(op) && !Faults(env, s, op) && !Breaks(env, s, op) && a.gen < s.clock
    ensures Step(env, s, op).Ok? && Explains(s, Step(env, s, op).value, a, EventsOf(env, s, op, a))
  {
    TablesExist(s);
    StepExact(env, s, op);
    if Transfers(op) {
      TransferEvent(env, s, op, a);
    } else if CopyingClone(s, op) {
      hide Inv, Path, CloneSpec, Faults, Breaks;
      CopyEvent(s, op.pid, op.child, a);
    } else {
      hide Inv, Path, Step, Faults, Breaks;
      var states, changes := StepPath(env, s, op);
      PathKeepsPosition(s, TableOf(s, op.pid), states, changes, Step(env, s, op).value, a);
    }
  }

  /** Over every sound run: the transfers through a record are contiguous between seeks, whatever
      alias each of them used, and the position is where they lead. */
  lemma {:induction false} RunEvents(env: Env, s: State, ops: seq<Op>, a: Addr)
    requires Inv(s) && Stock(s, |ops|) && (forall op :: op in ops ==> Plausible(op)) && Guarded(env, s, ops)
    requires a.gen < s.clock
    ensures Run(env, s, ops).Ok? && Explains(s, Run(env, s, ops).value, a, History(env, s, ops, a))
    decreases |ops|
  {
    hide Inv, Step, Faults, Breaks, EventsOf;
    if ops != [] {
      StepExact(env, s, ops[0]);
      StepEvents(env, s, ops[0], a);
      var s1 := Step(env, s, ops[0]).value;
      RunEvents(env, s1, ops[1..], a);
      if a in s.maps {
        AfterSplit(s.maps[a].curPos, EventsOf(env, s, ops[0], a), History(env, s1, ops[1..], a));
      }
    }
  }

  // ---------- what contiguity means ----------

  predicate OnlyMoves(events: seq<Event>) {
    forall e :: e in events ==> e.Moved?
  }

  function Total(events: seq<Event>): int {
    if events == [] then 0 else (if events[0].Moved? then events[0].n else 0) + Total(events[1..])
  }

  /** Without seeks the position is the start plus all bytes moved. */
  lemma {:induction false} PositionIsSum(pos: nat, events: seq<Event>)
    requires OnlyMoves(events) && pos < TWO_TO_THE_64
    ensures After(pos, events) == Wrap64(pos + Total(events))
    decreases |events|
  {
    if events != [] {
      PositionIsSum(Wrap64(pos + events[0].n), events[1..]);
      WrapTwice(pos + events[0].n, Total(events[1..]));
    }
  }

  lemma WrapTwice(x: int, y: int)
    ensures Wrap64(Wrap64(x) + y) == Wrap64(x + y)
  {
    var q := x / TWO_TO_THE_64;
    assert x == q * TWO_TO_THE_64 + Wrap64(x);
    WrapShift(Wrap64(x) + y, q);
  }

  lemma WrapShift(z: int, q: int)
    ensures Wrap64(z + q * TWO_TO_THE_64) == Wrap64(z)
  {
  }

  /** After a seek the position is the seek result plus the bytes moved since. */
  lemma PositionSinceSeek(pos: nat, before: seq<Event>, to: nat, since: seq<Event>)
    requires OnlyMoves(since) && to < TWO_TO_THE_64
    ensures After(pos, before + [Sought(to)] + since) == Wrap64(to + Total(since))
  {
    assert before + [Sought(to)] + since == before + ([Sought(to)] + since);
    AfterSplit(pos, before, [Sought(to)] + since);
    assert ([Sought(to)] + since)[1..] == since;
    PositionIsSum(to, since);
  }

  /** Between seeks, successful transfers within 64 bits never overlap. */
  lemma {:induction false} TransfersDisjoint(pos: nat, events: seq<Event>, i: nat, j: nat)
    requires OnlyMoves(events) && Contiguous(pos, events) && pos < TWO_TO_THE_64
    requires forall e :: e in events ==> e.n >= 0
    requires pos + Total(events) < TWO_TO_THE_64
    requires i < j < |events|
    ensures pos <= events[i].at && events[i].at + events[i].n <= events[j].at
    ensures j == i + 1 ==> events[i].at + events[i].n == events[j].at
    ensures events[j].at + events[j].n <= pos + Total(events)
    decreases |events|
  {
    TotalNonNegative(events[1..]);
    var next := Wrap64(pos + events[0].n);
    if i > 0 {
      TransfersDisjoint(next, events[1..], i - 1, j - 1);
    } else if j > 1 {
      TransfersDisjoint(next, events[1..], 0, j - 1);
    } else {
      TotalNonNegative(events[1..][1..]);
    }
  }

  lemma {:induction false} TotalNonNegative(events: seq<Event>)
    requires OnlyMoves(events) && forall e :: e in events ==> e.n >= 0
    ensures Total(events) >= 0
  {
    if events != [] {
      TotalNonNegative(events[1..]);
    }
  }

  // ---------- simulate_get_max_offset ----------

  function End(op: RwOp): nat {
    Wrap64(op.offset + op.size)
  }

  /** The greatest end of the noted transfers, or 0 when there is none. */
  method MaxOffset(ops: seq<RwOp>) returns (max: nat)
    ensures forall op :: op in ops ==> End(op) <= max
    ensures max == 0 || exists op :: op in ops && End(op) == max
  {
    max := 0;
    for i := 0 to |ops|
      invariant forall op :: op in ops[..i] ==> End(op) <= max
      invariant max == 0 || exists op :: op in ops[..i] && End(op) == max
    {
      var off := Wrap64(ops[i].offset + ops[i].size);
      assert ops[..i + 1] == ops[..i] + [ops[i]];
      if off > max {
        max := off;
        assert ops[i] in ops[..i + 1];
      }
    }
    assert ops[..|ops|] == ops;
  }
}
