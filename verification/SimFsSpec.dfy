/** simfs.c as functions of the tree: what each simulated call answers and what it does to the known paths. */
module SimFsSpec {
  import opened Options
  import opened PathText
  import opened Trie
  import opened SimFsText

  datatype SimData = SimData(physical: bool, physSize: nat, virtSize: nat, created: bool)

  type View = map<Path, SimData>

  /** The files on the real disk and their sizes. */
  type Disk = map<Path, nat>

  const SIMFS_OK := 0
  const SIMFS_ENOENT := 1
  const SIMFS_EENT := 2

  /** A size of -1 in 64 bits. */
  const UNKNOWN: nat := 0xFFFF_FFFF_FFFF_FFFF

  const Virtual := SimData(false, UNKNOWN, 0, false)

  function OfDisk(size: nat): SimData {
    SimData(true, size, 0, false)
  }

  /** The root is known, and with a path all its prefixes. */
  ghost predicate Closed(v: View) {
    [] in v && forall p, k :: p in v && 0 <= k <= |p| ==> p[..k] in v
  }

  // ---------- what is known, and what the disk adds ----------

  /** How many components of the path the tree has. */
  ghost function Have(v: View, p: Path): (k: nat)
    requires [] in v
    ensures k <= |p| && p[..k] in v && (k < |p| ==> p[..k + 1] !in v)
  {
    assert p[..0] == [];
    Reach(v.Keys, p, 0)
  }

  /** How many components there are when those from k on are looked up on the disk, until one is missing. */
  ghost function OnDisk(disk: Disk, p: Path, k: nat): (j: nat)
    requires k <= |p|
    ensures k <= j <= |p| && (forall i :: k < i <= j ==> p[..i] in disk)
    ensures j < |p| ==> p[..j + 1] !in disk
    decreases |p| - k
  {
    if k < |p| && p[..k + 1] in disk then OnDisk(disk, p, k + 1) else k
  }

  ghost function Seen(v: View, disk: Disk, p: Path): (j: nat)
    requires [] in v
    ensures Have(v, p) <= j <= |p|
  {
    OnDisk(disk, p, Have(v, p))
  }

  ghost function Prefixes(p: Path, j: nat): (s: set<Path>)
    requires j <= |p|
    ensures forall q :: q in s <==> q <= p && |q| <= j
  {
    var s := set i | 0 <= i <= j :: p[..i];
    assert forall q: Path :: q <= p ==> q == p[..|q|];
    s
  }

  /** The tree with the first j components of p, as the disk has them. */
  ghost function PopulatedTo(v: View, disk: Disk, p: Path, j: nat): View
    requires j <= |p|
  {
    map q | q in v.Keys + Prefixes(p, j) :: if q in v then v[q] else OfDisk(if q in disk then disk[q] else 0)
  }

  /** The tree after the disk has been asked. */
  ghost function Populated(v: View, disk: Disk, p: Path): View
    requires [] in v
  {
    PopulatedTo(v, disk, p, Seen(v, disk, p))
  }

  /** The tree with the path and all above it. */
  ghost function With(v: View, p: Path): View {
    map q | q in v.Keys + Prefixes(p, |p|) :: if q in v then v[q] else Virtual
  }

  /** The tree without the path and all below it; the root stays. */
  ghost function Without(v: View, p: Path): View {
    map q | q in v && (q == [] || !(p <= q)) :: v[q]
  }

  ghost function MarkCreated(v: View, p: Path): View {
    if p in v then v[p := v[p].(created := true)] else v
  }

  // ---------- the calls ----------

  ghost function StatSpec(v: View, disk: Disk, name: string, retval: int): (int, View)
    requires [] in v
  {
    var p := Parts(name);
    if Exact(name) && p in v then
      if retval == 0 then (SIMFS_OK, v)
      else (SIMFS_EENT, if v[p].physical then Without(v, p) else v)
    else
      var w := Populated(v, disk, p);
      if retval != 0 then (if p in w then (SIMFS_EENT, Without(w, p)) else (SIMFS_OK, w))
      else if p in w then (SIMFS_OK, w) else (SIMFS_ENOENT, With(w, p))
  }

  /** As stat, except that the answer is left unset when the path has to be made up. */
  ghost function AccessSpec(v: View, disk: Disk, name: string, retval: int, unset: int): (int, View)
    requires [] in v
  {
    var (rv, w) := StatSpec(v, disk, name, retval);
    (if rv == SIMFS_ENOENT then unset else rv, w)
  }

  ghost function UnlinkSpec(v: View, disk: Disk, name: string, retval: int): (int, View)
    requires [] in v
  {
    var p := Parts(name);
    if Exact(name) && p in v then (if retval == 0 then SIMFS_OK else SIMFS_EENT, Without(v, p))
    else
      var w := Populated(v, disk, p);
      if retval == 0 then (SIMFS_ENOENT, Without(With(w, p), p))
      else if p in w then (SIMFS_EENT, Without(w, p))
      else (SIMFS_OK, w)
  }

  /** The text of what is known and found: the part of the name that the tree has, and then the components found. */
  ghost function Spelled(v: View, disk: Disk, name: string): string
    requires [] in v
  {
    var p := Parts(name);
    Extend(KnownPart(name, Have(v, p)), p[Have(v, p)..Seen(v, disk, p)])
  }

  /** The text of the name after as many characters. */
  ghost function Missing(v: View, disk: Disk, name: string): string
    requires [] in v
  {
    var e := Spelled(v, disk, name);
    if |e| <= |name| then name[|e|..] else ""
  }

  /** mkdir takes the path for existing when the text spells the name to the letter. */
  ghost predicate There(v: View, disk: Disk, name: string)
    requires [] in v
  {
    Spelled(v, disk, name) == name
  }

  /** mkdir expects to succeed when the missing text, less a slash at either end, has no slash. */
  ghost predicate MkdirReady(v: View, disk: Disk, name: string)
    requires [] in v
  {
    Slashes(TrimHead(TrimTail(Missing(v, disk, name)))) == 0
  }

  /** open does not take the slash at the end off. */
  ghost predicate CreatReady(v: View, disk: Disk, name: string)
    requires [] in v
  {
    Slashes(TrimHead(Missing(v, disk, name))) == 0
  }

  ghost function MkdirSpec(v: View, disk: Disk, name: string, retval: int): (int, View)
    requires [] in v
  {
    var p := Parts(name);
    var w := Populated(v, disk, p);
    var ready := MkdirReady(v, disk, name);
    if There(v, disk, name) then (if retval != 0 then SIMFS_OK else SIMFS_EENT, w)
    else if retval != 0 then (if ready then (SIMFS_EENT, Without(w, p)) else (SIMFS_OK, w))
    else (if ready then SIMFS_OK else SIMFS_ENOENT, MarkCreated(With(w, p), p))
  }

  ghost function CreatSpec(v: View, disk: Disk, name: string, creat: bool, excl: bool, retval: int): (int, View)
    requires [] in v
  {
    var p := Parts(name);
    var w := Populated(v, disk, p);
    var ready := CreatReady(v, disk, name);
    if There(v, disk, name) then
      if creat then (if excl && retval != -1 then SIMFS_EENT else SIMFS_OK, w)
      else if retval == -1 then (SIMFS_EENT, Without(w, p)) else (SIMFS_OK, w)
    else if !creat then
      if retval == -1 then (SIMFS_OK, w) else (SIMFS_ENOENT, With(w, p))
    else if retval == -1 then (if ready then (SIMFS_EENT, Without(w, p)) else (SIMFS_OK, w))
    else (if ready then SIMFS_OK else SIMFS_ENOENT, MarkCreated(With(w, p), p))
  }

  datatype Call =
    | Access(name: string, retval: int, unset: int)
    | Stat(name: string, retval: int)
    | Mkdir(name: string, retval: int)
    | Unlink(name: string, retval: int)
    | Creat(name: string, creat: bool, excl: bool, retval: int)

  ghost function Step(v: View, disk: Disk, c: Call): (int, View)
    requires [] in v
  {
    match c
    case Access(name, retval, unset) => AccessSpec(v, disk, name, retval, unset)
    case Stat(name, retval) => StatSpec(v, disk, name, retval)
    case Mkdir(name, retval) => MkdirSpec(v, disk, name, retval)
    case Unlink(name, retval) => UnlinkSpec(v, disk, name, retval)
    case Creat(name, creat, excl, retval) => CreatSpec(v, disk, name, creat, excl, retval)
  }

  // ---------- facts about the tree ----------

  lemma PrefixOf(v: View, p: Path, q: Path)
    requires Closed(v) && p in v && q <= p
    ensures q in v
  {
    assert q == p[..|q|];
  }

  lemma HaveIs(v: View, p: Path)
    requires Closed(v)
    ensures forall q :: q <= p ==> (q in v <==> |q| <= Have(v, p))
    ensures p in v <==> Have(v, p) == |p|
  {
    var k := Have(v, p);
    forall q | q <= p ensures q in v <==> |q| <= k {
      assert q == p[..|q|];
      if |q| <= k {
        assert p[..k][..|q|] == q;
      } else {
        assert q[..k + 1] == p[..k + 1];
      }
    }
    assert p[..|p|] == p;
  }

  /** Asking the disk adds exactly the longest run of missing prefixes that exist there, with their sizes. */
  lemma PopulatedFacts(v: View, disk: Disk, p: Path)
    requires Closed(v)
    ensures var w := Populated(v, disk, p);
      && (forall q :: q in v ==> q in w && w[q] == v[q])
      && (forall q :: q in w && q !in v ==> q <= p && q in disk && w[q] == OfDisk(disk[q]))
      && (forall q :: q <= p ==> (q in w <==> |q| <= Seen(v, disk, p)))
      && (p in w <==> Seen(v, disk, p) == |p|)
  {
    HaveIs(v, p);
    var w, j := Populated(v, disk, p), Seen(v, disk, p);
    forall q | q in w && q !in v ensures q <= p && q in disk {
      assert q == p[..|q|];
    }
    assert p <= p;
  }

  lemma PopulatedClosed(v: View, disk: Disk, p: Path)
    requires Closed(v)
    ensures Closed(Populated(v, disk, p))
  {
    PopulatedFacts(v, disk, p);
    var w := Populated(v, disk, p);
    hide Populated;
    forall q, k | q in w && 0 <= k <= |q| ensures q[..k] in w {
      if q !in v {
        assert q[..k] <= p;
      }
    }
  }

  lemma WithFacts(v: View, p: Path)
    requires Closed(v)
    ensures Closed(With(v, p)) && p in With(v, p)
    ensures forall q :: q in With(v, p) <==> q in v || q <= p
    ensures forall q :: q in v ==> With(v, p)[q] == v[q]
  {
    assert forall q: Path :: q <= p ==> |q| <= |p|;
    forall q, k | q in With(v, p) && 0 <= k <= |q| ensures q[..k] in With(v, p) {
      if q !in v {
        assert q[..k] <= p;
      }
    }
  }

  lemma WithoutFacts(v: View, p: Path)
    requires Closed(v)
    ensures Closed(Without(v, p))
  {
    var w := Without(v, p);
    forall q, k | q in w && 0 <= k <= |q| ensures q[..k] in w {
      assert p <= q[..k] ==> p <= q;
    }
  }

  /** Whether a call whose operand is known takes it out of the tree. */
  predicate Kills(v: View, c: Call) {
    match c
    case Access(name, retval, _) => retval != 0 && !(Exact(name) && Parts(name) in v && !v[Parts(name)].physical)
    case Stat(name, retval) => retval != 0 && !(Exact(name) && Parts(name) in v && !v[Parts(name)].physical)
    case Mkdir(name, retval) => retval != 0 && 1 <= Surplus(name) <= 2
    case Unlink(_, _) => true
    case Creat(name, creat, _, retval) => retval == -1 && Surplus(name) == if creat then 1 else 0
  }

  /** When the operand is known, the surplus slashes of its name decide how mkdir and open see it. */
  lemma KnownOperand(v: View, disk: Disk, name: string)
    requires Closed(v) && Parts(name) in v
    ensures There(v, disk, name) <==> Surplus(name) == 0
    ensures MkdirReady(v, disk, name) <==> Surplus(name) <= 2
    ensures CreatReady(v, disk, name) <==> Surplus(name) <= 1
  {
    var p := Parts(name);
    HaveIs(v, p);
    KnownRest(name);
    var t := KnownPart(name, |p|);
    ExtendNone(t);
    assert p[|p|..|p|] == [];
    hide Parts, KnownPart, Surplus, Extend, Slashes, TrimHead, TrimTail;
    assert Spelled(v, disk, name) == t;
    TrimmedSlashes(name[|t|..]);
    assert t == name <==> |t| == |name|;
  }

  /** u is the tree as it was, or with paths the call found or made up. */
  ghost predicate Kept(v: View, disk: Disk, p: Path, u: View)
    requires [] in v
  {
    var w := Populated(v, disk, p);
    u == v || u == w || u == With(w, p) || u == MarkCreated(With(w, p), p)
  }

  /** u is such a tree without the operand and all below it. */
  ghost predicate Shorn(v: View, disk: Disk, p: Path, u: View)
    requires [] in v
  {
    var w := Populated(v, disk, p);
    u == Without(v, p) || u == Without(w, p) || u == Without(With(w, p), p)
  }

  lemma StatShape(v: View, disk: Disk, c: Call)
    requires [] in v && (c.Stat? || c.Access?)
    ensures var p, u := Parts(c.name), Step(v, disk, c).1;
      && (Kept(v, disk, p, u) || (Kills(v, c) && Shorn(v, disk, p, u)))
      && (p in v && p in Populated(v, disk, p) && Kills(v, c) ==> Shorn(v, disk, p, u))
  {
    hide Populated, With, Without, MarkCreated, Parts, Exact;
  }

  lemma UnlinkShape(v: View, disk: Disk, c: Call)
    requires [] in v && c.Unlink?
    ensures var p, u := Parts(c.name), Step(v, disk, c).1;
      && (Kept(v, disk, p, u) || (Kills(v, c) && Shorn(v, disk, p, u)))
      && (p in v && p in Populated(v, disk, p) ==> Shorn(v, disk, p, u))
  {
    hide Populated, With, Without, MarkCreated, Parts, Exact;
  }

  lemma Shapes(v: View, disk: Disk, p: Path)
    requires [] in v
    ensures var w := Populated(v, disk, p);
      && Kept(v, disk, p, w) && Kept(v, disk, p, With(w, p)) && Kept(v, disk, p, MarkCreated(With(w, p), p))
      && Shorn(v, disk, p, Without(w, p))
  {
    hide Populated, With, Without, MarkCreated;
  }

  lemma MkdirShape(v: View, disk: Disk, name: string, retval: int)
    requires Closed(v)
    ensures var p, u := Parts(name), MkdirSpec(v, disk, name, retval).1;
      && (Kept(v, disk, p, u) || Shorn(v, disk, p, u))
      && (p in v ==> if Kills(v, Mkdir(name, retval)) then Shorn(v, disk, p, u) else Kept(v, disk, p, u))
  {
    if Parts(name) in v {
      KnownOperand(v, disk, name);
    }
    Shapes(v, disk, Parts(name));
    assert [] in v;
    hide Closed, Populated, With, Without, MarkCreated, Parts, There, MkdirReady, Surplus, Kept, Shorn;
  }

  lemma CreatShape(v: View, disk: Disk, name: string, creat: bool, excl: bool, retval: int)
    requires Closed(v)
    ensures var p, u := Parts(name), CreatSpec(v, disk, name, creat, excl, retval).1;
      && (Kept(v, disk, p, u) || Shorn(v, disk, p, u))
      && (p in v ==> if Kills(v, Creat(name, creat, excl, retval)) then Shorn(v, disk, p, u) else Kept(v, disk, p, u))
  {
    if Parts(name) in v {
      KnownOperand(v, disk, name);
    }
    Shapes(v, disk, Parts(name));
    assert [] in v;
    hide Closed, Populated, With, Without, MarkCreated, Parts, There, CreatReady, Surplus, Kept, Shorn;
  }

  lemma StepIs(v: View, disk: Disk, c: Call)
    requires [] in v
    ensures c.Mkdir? ==> Step(v, disk, c) == MkdirSpec(v, disk, c.name, c.retval)
    ensures c.Creat? ==> Step(v, disk, c) == CreatSpec(v, disk, c.name, c.creat, c.excl, c.retval)
  {
    hide MkdirSpec, CreatSpec;
  }

  /** What any call does to the tree; when the operand is known, it is taken out exactly by a killing call. */
  lemma StepShape(v: View, disk: Disk, c: Call)
    requires Closed(v)
    ensures var p, u := Parts(c.name), Step(v, disk, c).1;
      && (Kept(v, disk, p, u) || Shorn(v, disk, p, u))
      && (p in v ==> if Kills(v, c) then Shorn(v, disk, p, u) else Kept(v, disk, p, u))
  {
    var p := Parts(c.name);
    PopulatedFacts(v, disk, p);
    HaveIs(v, p);
    hide Step, Kills, Kept, Cut, Populated, Closed, Seen, Have, Parts;
    if c.Stat? || c.Access? {
      StatShape(v, disk, c);
    } else if c.Unlink? {
      UnlinkShape(v, disk, c);
    } else if c.Mkdir? {
      MkdirShape(v, disk, c.name, c.retval);
      StepIs(v, disk, c);
    } else {
      CreatShape(v, disk, c.name, c.creat, c.excl, c.retval);
      StepIs(v, disk, c);
    }
  }

  lemma MarkKeepsClosed(v: View, p: Path)
    requires Closed(v)
    ensures Closed(MarkCreated(v, p))
  {
  }

  lemma KeptFacts(v: View, disk: Disk, p: Path, u: View)
    requires Closed(v) && Kept(v, disk, p, u)
    ensures Closed(u) && (forall q :: q in v ==> q in u)
    ensures forall q :: !(q <= p) ==> (q in u <==> q in v) && (q in v ==> u[q] == v[q])
  {
    var w := Populated(v, disk, p);
    PopulatedFacts(v, disk, p);
    PopulatedClosed(v, disk, p);
    WithFacts(w, p);
    MarkKeepsClosed(With(w, p), p);
    hide Populated, With, Closed;
  }

  lemma ShornFacts(v: View, disk: Disk, p: Path, u: View)
    requires Closed(v) && Shorn(v, disk, p, u)
    ensures Closed(u) && (forall q :: q in v ==> (q in u <==> q == [] || !(p <= q)))
    ensures forall q :: !(q <= p) && !(p <= q) ==> (q in u <==> q in v) && (q in v ==> u[q] == v[q])
  {
    var w := Populated(v, disk, p);
    PopulatedFacts(v, disk, p);
    PopulatedClosed(v, disk, p);
    WithFacts(w, p);
    WithoutFacts(v, p);
    WithoutFacts(w, p);
    WithoutFacts(With(w, p), p);
    hide Populated, With, Closed;
  }

  /** Every call keeps the tree closed under prefixes. */
  lemma StepKeepsClosed(v: View, disk: Disk, c: Call)
    requires Closed(v)
    ensures Closed(Step(v, disk, c).1)
  {
    assert [] in v;
    hide *;
    var p, u := Parts(c.name), Step(v, disk, c).1;
    StepShape(v, disk, c);
    if Kept(v, disk, p, u) {
      KeptFacts(v, disk, p, u);
    } else {
      ShornFacts(v, disk, p, u);
    }
  }

  // ---------- what a call leaves behind ----------

  predicate Succeeded(c: Call) {
    if c.Creat? then c.retval != -1 else c.retval == 0
  }

  /** Paths that are neither above nor below the operand stay as they were. */
  lemma Elsewhere(v: View, disk: Disk, c: Call, q: Path)
    requires Closed(v) && !(q <= Parts(c.name)) && !(Parts(c.name) <= q)
    ensures var w := Step(v, disk, c).1; (q in w <==> q in v) && (q in v ==> w[q] == v[q])
  {
    assert [] in v;
    hide *;
    var p, u := Parts(c.name), Step(v, disk, c).1;
    StepShape(v, disk, c);
    if Kept(v, disk, p, u) {
      KeptFacts(v, disk, p, u);
    } else {
      ShornFacts(v, disk, p, u);
    }
  }

  /** A text that spells the name has all its components. */
  lemma ThereIsFound(v: View, disk: Disk, name: string)
    requires Closed(v) && There(v, disk, name)
    ensures Parts(name) in Populated(v, disk, Parts(name))
  {
    var p := Parts(name);
    PopulatedFacts(v, disk, p);
    ExtendedParts(name, Have(v, p), Seen(v, disk, p));
    assert |p[..Seen(v, disk, p)]| == Seen(v, disk, p);
    hide Parts, KnownPart, Extend, Populated, Seen, Have, Closed;
  }

  /** A recorded success of anything but unlink leaves the path and all above it present. */
  lemma SuccessLeavesPath(v: View, disk: Disk, c: Call, q: Path)
    requires Closed(v) && !c.Unlink? && Succeeded(c) && q <= Parts(c.name)
    ensures q in Step(v, disk, c).1
  {
    var p := Parts(c.name);
    PopulatedFacts(v, disk, p);
    PopulatedClosed(v, disk, p);
    var w := Populated(v, disk, p);
    WithFacts(w, p);
    HaveIs(v, p);
    if (c.Mkdir? || c.Creat?) && There(v, disk, c.name) {
      ThereIsFound(v, disk, c.name);
    }
    assert p in w ==> q in w by {
      if p in w {
        PrefixOf(w, p, q);
      }
    }
    assert p in v ==> q in v by {
      if p in v {
        PrefixOf(v, p, q);
      }
    }
    assert [] in v;
    hide Populated, With, Without, Closed, Parts, There, MkdirReady, CreatReady, Exact;
  }

  /** Whatever was recorded and found, unlink leaves neither the path nor anything below it. */
  lemma UnlinkLeavesNothing(v: View, disk: Disk, c: Call, q: Path)
    requires Closed(v) && c.Unlink? && Parts(c.name) <= q && q != []
    ensures q !in Step(v, disk, c).1
  {
    var p := Parts(c.name);
    PopulatedClosed(v, disk, p);
    var w := Populated(v, disk, p);
    hide Populated, With, Parts;
    if q in w && p !in w {
      PrefixOf(w, q, p);
    }
    if q in v && p !in v {
      PrefixOf(v, q, p);
    }
  }

  /** After a recorded failure of stat or access the path is gone, unless it was there, exactly so, and virtual only. */
  lemma FailureLeavesPath(v: View, disk: Disk, c: Call)
    requires Closed(v) && (c.Stat? || c.Access?) && c.retval != 0 && Parts(c.name) != []
    ensures Parts(c.name) in Step(v, disk, c).1
      <==> Exact(c.name) && Parts(c.name) in v && !v[Parts(c.name)].physical
  {
    hide Populated, Parts;
  }

  /** stat answers 0 exactly when the recorded outcome is what the tree and the disk lead to expect. */
  lemma StatAnswer(v: View, disk: Disk, name: string, retval: int)
    requires Closed(v)
    ensures (StatSpec(v, disk, name, retval).0 == SIMFS_OK)
      <==> (retval == 0 <==> Parts(name) in Populated(v, disk, Parts(name)))
  {
    var p := Parts(name);
    PopulatedFacts(v, disk, p);
    hide Populated, Parts;
  }

  /** access answers whatever its result happens to hold, exactly when a recorded success names a path that neither the
      tree nor the disk has; that is where stat answers ENOENT. */
  lemma AccessAnswer(v: View, disk: Disk, name: string, retval: int)
    requires Closed(v)
    ensures (forall unset :: AccessSpec(v, disk, name, retval, unset).0 == unset)
      <==> retval == 0 && Parts(name) !in Populated(v, disk, Parts(name))
    ensures (forall unset :: AccessSpec(v, disk, name, retval, unset).0 == StatSpec(v, disk, name, retval).0)
      <==> !(retval == 0 && Parts(name) !in Populated(v, disk, Parts(name)))
  {
    var p := Parts(name);
    PopulatedFacts(v, disk, p);
    var rv := StatSpec(v, disk, name, retval).0;
    assert rv == SIMFS_ENOENT <==> retval == 0 && p !in Populated(v, disk, p);
    hide Populated, Parts, StatSpec, Closed;
    var one, two := AccessSpec(v, disk, name, retval, 5).0, AccessSpec(v, disk, name, retval, 6).0;
    assert one == (if rv == SIMFS_ENOENT then 5 else rv) && two == (if rv == SIMFS_ENOENT then 6 else rv);
  }

  /** With nothing but the root known and an empty disk, a recorded success of access can be answered as if all
      were well. */
  lemma AccessSaysNothing(name: string)
    requires Parts(name) != []
    ensures var v, disk: Disk := map[[] := Virtual], map[];
      StatSpec(v, disk, name, 0).0 == SIMFS_ENOENT && AccessSpec(v, disk, name, 0, SIMFS_OK).0 == SIMFS_OK
  {
    var v, disk: Disk := map[[] := Virtual], map[];
    PopulatedFacts(v, disk, Parts(name));
    hide Populated, Parts;
  }

  /** What a recorded mkdir, or open that creates the file exclusively, should be answered. */
  ghost function Intended(v: View, disk: Disk, p: Path): int
    requires [] in v && p != []
  {
    var w := Populated(v, disk, p);
    if p in w then SIMFS_EENT else if p[..|p| - 1] in w then SIMFS_OK else SIMFS_ENOENT
  }

  /** The spelling of the name tells what the components tell. */
  ghost predicate SpelledRight(v: View, disk: Disk, name: string, ready: bool)
    requires [] in v && Parts(name) != []
  {
    var p := Parts(name);
    var w := Populated(v, disk, p);
    if p in v then Exact(name)
    else if p in w then SinglyFrom(name, Have(v, p))
    else (ready <==> p[..|p| - 1] in w)
  }

  /** The text spells the name when every component is there and the slashes are as they would be written. */
  lemma ThereExactly(v: View, disk: Disk, name: string)
    requires Closed(v) && FromRoot(name) && Parts(name) != []
    ensures var p := Parts(name);
      There(v, disk, name) <==>
        p in Populated(v, disk, p) && if p in v then Exact(name) else Have(v, p) < |p| && SinglyFrom(name, Have(v, p))
  {
    var p := Parts(name);
    HaveIs(v, p);
    PopulatedFacts(v, disk, p);
    Spelling(name, Have(v, p), Seen(v, disk, p));
    hide Populated, Parts, Exact, SinglyFrom, Closed, KnownPart, Extend;
  }

  /** mkdir is answered as intended exactly when the spelling of the name tells what its components tell. */
  lemma MkdirAnswer(v: View, disk: Disk, name: string)
    requires Closed(v) && FromRoot(name) && Parts(name) != []
    ensures Have(v, Parts(name)) < |Parts(name)| || Parts(name) in v
    ensures MkdirSpec(v, disk, name, 0).0 == Intended(v, disk, Parts(name))
      <==> SpelledRight(v, disk, name, MkdirReady(v, disk, name))
  {
    ThereExactly(v, disk, name);
    HaveIs(v, Parts(name));
    assert [] in v;
    hide Populated, Parts, Closed, There, MkdirReady, Exact, SinglyFrom;
  }

  /** So is an open that creates the file exclusively. */
  lemma CreatAnswer(v: View, disk: Disk, name: string)
    requires Closed(v) && FromRoot(name) && Parts(name) != []
    ensures CreatSpec(v, disk, name, true, true, 0).0 == Intended(v, disk, Parts(name))
      <==> SpelledRight(v, disk, name, CreatReady(v, disk, name))
  {
    ThereExactly(v, disk, name);
    HaveIs(v, Parts(name));
    assert [] in v;
    hide Populated, Parts, Closed, There, CreatReady, Exact, SinglyFrom;
  }

  /** For a name with single slashes the spelling tells the state of the components. */
  lemma SingleSlashTells(v: View, disk: Disk, name: string)
    requires Closed(v) && SingleSlash(name) && Parts(name) != []
    ensures var p, w := Parts(name), Populated(v, disk, Parts(name));
      && (There(v, disk, name) <==> p in w && (Trailing(name) ==> p in v))
      && (!There(v, disk, name) ==> (MkdirReady(v, disk, name) <==> p[..|p| - 1] in w))
      && (!There(v, disk, name) ==> (CreatReady(v, disk, name) <==> p in w || (p[..|p| - 1] in w && !Trailing(name))))
  {
    var p := Parts(name);
    HaveIs(v, p);
    ParentFacts(v, disk, p);
    SpelledIsText(v, disk, name);
    KnownPartIsKnown(name, Have(v, p));
    assert [] in v && Have(v, p) <= Seen(v, disk, p) <= |p|;
    hide *;
    MissingText(name, Have(v, p), Seen(v, disk, p), KnownPart(name, Have(v, p)));
  }

  lemma SpelledIsText(v: View, disk: Disk, name: string)
    requires [] in v
    ensures var p := Parts(name); var e := Extend(KnownPart(name, Have(v, p)), p[Have(v, p)..Seen(v, disk, p)]);
      && (There(v, disk, name) <==> e == name)
      && (e <= name ==>
        && (MkdirReady(v, disk, name) <==> Slashes(TrimHead(TrimTail(name[|e|..]))) == 0)
        && (CreatReady(v, disk, name) <==> Slashes(TrimHead(name[|e|..])) == 0))
  {
    hide Parts, Extend, KnownPart, Slashes, TrimHead, TrimTail;
  }

  /** Whatever tree and disk are, mkdir and exclusive open are answered as intended, exactly if the name is spelled with
      single slashes and none at its end. */
  lemma AnsweredRight(name: string)
    requires FromRoot(name) && Parts(name) != []
    ensures (forall v, disk :: Closed(v) ==>
               MkdirSpec(v, disk, name, 0).0 == Intended(v, disk, Parts(name)))
      <==> name == Join(Parts(name))
    ensures (forall v, disk :: Closed(v) ==>
               CreatSpec(v, disk, name, true, true, 0).0 == Intended(v, disk, Parts(name)))
      <==> name == Join(Parts(name))
  {
    hide *;
    if name == Join(Parts(name)) {
      forall v, disk | Closed(v)
        ensures [] in v && MkdirSpec(v, disk, name, 0).0 == Intended(v, disk, Parts(name))
        ensures CreatSpec(v, disk, name, true, true, 0).0 == Intended(v, disk, Parts(name))
      {
        PlainIsRight(v, disk, name);
      }
    } else {
      var v, disk := OnlyOnDisk(name);
      assert Closed(v);
    }
  }

  lemma PlainIsRight(v: View, disk: Disk, name: string)
    requires Closed(v) && Parts(name) != [] && name == Join(Parts(name))
    ensures [] in v && MkdirSpec(v, disk, name, 0).0 == Intended(v, disk, Parts(name))
    ensures CreatSpec(v, disk, name, true, true, 0).0 == Intended(v, disk, Parts(name))
  {
    TokensAreComponents(name, '/');
    JoinEnds(Parts(name));
    SingleSlashTells(v, disk, name);
    assert [] in v && !Trailing(name);
    hide Populated, Parts, Closed, There, MkdirReady, CreatReady;
  }

  lemma PlainlyAbsent(v: View, disk: Disk, name: string)
    requires [] in v && Parts(name) != [] && Parts(name) in Populated(v, disk, Parts(name)) && !There(v, disk, name)
    ensures MkdirSpec(v, disk, name, 0).0 != Intended(v, disk, Parts(name))
    ensures CreatSpec(v, disk, name, true, true, 0).0 != Intended(v, disk, Parts(name))
  {
    hide Populated, Parts, There, MkdirReady, CreatReady;
  }

  /** A path that only the disk has is taken for missing, unless it is spelled plainly. */
  lemma OnlyOnDisk(name: string) returns (v: View, disk: Disk)
    requires FromRoot(name) && Parts(name) != [] && name != Join(Parts(name))
    ensures Closed(v) && [] in v
    ensures MkdirSpec(v, disk, name, 0).0 != Intended(v, disk, Parts(name))
    ensures CreatSpec(v, disk, name, true, true, 0).0 != Intended(v, disk, Parts(name))
  {
    var p := Parts(name);
    v, disk := map[[] := Virtual], map q | q in Prefixes(p, |p|) :: 0;
    assert Closed(v);
    PrefixesFound(v, disk, p);
    NotSpelled(name);
    ThereExactly(v, disk, name);
    hide *;
    PlainlyAbsent(v, disk, name);
  }

  lemma NotSpelled(name: string)
    requires Parts(name) != [] && name != Join(Parts(name))
    ensures !SinglyFrom(name, 0)
  {
    var p := Parts(name);
    TokensAreComponents(name, '/');
    JoinEnds(p);
    assert p[0..] == p && KnownPart(name, 0) == "";
    hide Tokens, Join, KnownPart;
    assert Join(p) == "/" + Join(p)[1..];
  }

  lemma PrefixesFound(v: View, disk: Disk, p: Path)
    requires Closed(v) && p != [] && v == map[[] := Virtual] && disk == map q | q in Prefixes(p, |p|) :: 0
    ensures Have(v, p) == 0 && p !in v && p in Populated(v, disk, p)
  {
    HaveIs(v, p);
    PopulatedFacts(v, disk, p);
    assert p[..1] !in v;
  }

  lemma ParentFacts(v: View, disk: Disk, p: Path)
    requires Closed(v) && p != []
    ensures var w := Populated(v, disk, p);
      && (p in w <==> Seen(v, disk, p) == |p|) && (p[..|p| - 1] in w <==> Seen(v, disk, p) >= |p| - 1)
  {
    PopulatedFacts(v, disk, p);
    assert p[..|p| - 1] <= p;
  }

  // ---------- what can make a known path disappear ----------

  /** A known path disappears exactly when a killing call names it or a path above it. */
  lemma Disappears(v: View, disk: Disk, c: Call, q: Path)
    requires Closed(v) && q in v
    ensures q !in Step(v, disk, c).1 <==> Kills(v, c) && q != [] && Parts(c.name) <= q
  {
    assert [] in v;
    hide *;
    var p, u := Parts(c.name), Step(v, disk, c).1;
    StepShape(v, disk, c);
    if p <= q {
      PrefixOf(v, q, p);
    }
    if Kept(v, disk, p, u) {
      KeptFacts(v, disk, p, u);
      if p <= q && q != [] && Kills(v, c) {
        ShornFacts(v, disk, p, u);
      }
    } else {
      ShornFacts(v, disk, p, u);
    }
  }

  // ---------- whole runs ----------

  ghost function After(v: View, disk: Disk, cs: seq<Call>): (w: View)
    requires Closed(v)
    ensures Closed(w)
    decreases |cs|
  {
    if cs == [] then v
    else
      StepKeepsClosed(v, disk, cs[|cs| - 1]);
      var u := After(v, disk, cs[..|cs| - 1]);
      StepKeepsClosed(u, disk, cs[|cs| - 1]);
      Step(u, disk, cs[|cs| - 1]).1
  }

  /** No call of the run, in the state it meets, kills q or a path above it. */
  ghost predicate Spared(v: View, disk: Disk, cs: seq<Call>, q: Path)
    requires Closed(v)
  {
    forall i :: 0 <= i < |cs| ==> !(Kills(After(v, disk, cs[..i]), cs[i]) && Parts(cs[i].name) <= q)
  }

  lemma AfterNext(v: View, disk: Disk, cs: seq<Call>, i: nat)
    requires Closed(v) && i < |cs|
    ensures After(v, disk, cs[..i + 1]) == Step(After(v, disk, cs[..i]), disk, cs[i]).1
  {
    assert cs[..i + 1][..i] == cs[..i];
  }

  /** A known path stays known throughout a run exactly when the run spares it. */
  lemma {:induction false} KnownThroughout(v: View, disk: Disk, cs: seq<Call>, q: Path)
    requires Closed(v) && q in v && q != []
    ensures Spared(v, disk, cs, q) <==> forall i :: 0 <= i <= |cs| ==> q in After(v, disk, cs[..i])
    decreases |cs|
  {
    hide Step, Kills, Parts, Closed, After;
    assert cs[..0] == [] && After(v, disk, []) == v by { AfterNone(v, disk); }
    for i := 0 to |cs|
      invariant Spared(v, disk, cs, q) ==> forall j :: 0 <= j <= i ==> q in After(v, disk, cs[..j])
      invariant (forall j :: 0 <= j <= i ==> q in After(v, disk, cs[..j]))
        ==> forall j :: 0 <= j < i ==> !(Kills(After(v, disk, cs[..j]), cs[j]) && Parts(cs[j].name) <= q)
    {
      AfterNext(v, disk, cs, i);
      if q in After(v, disk, cs[..i]) {
        Disappears(After(v, disk, cs[..i]), disk, cs[i], q);
      }
    }
  }

  lemma AfterNone(v: View, disk: Disk)
    requires Closed(v)
    ensures After(v, disk, []) == v
  {
  }

  /** One mismatch does not cascade: after a recorded success on a path, and a run that spares it, its recorded
      success answers 0. */
  lemma NoCascade(v: View, disk: Disk, first: Call, cs: seq<Call>, name: string)
    requires Closed(v) && !first.Unlink? && Succeeded(first) && Parts(first.name) == Parts(name) != []
    requires Closed(Step(v, disk, first).1) && Spared(Step(v, disk, first).1, disk, cs, Parts(name))
    ensures StatSpec(After(Step(v, disk, first).1, disk, cs), disk, name, 0).0 == SIMFS_OK
  {
    hide Parts, Step, After, Spared;
    var u, q := Step(v, disk, first).1, Parts(name);
    SuccessLeavesPath(v, disk, first, q);
    KnownThroughout(u, disk, cs, q);
    assert cs[..|cs|] == cs;
    var w := After(u, disk, cs);
    StatAnswer(w, disk, name, 0);
    PopulatedFacts(w, disk, q);
  }

  /** Two or three slashes after a known directory make a failing recorded mkdir forget it, with all below it. */
  lemma SlashesForget(v: View, disk: Disk, cs: Path, three: bool, retval: int)
    requires Closed(v) && Components(cs, '/') && cs != [] && cs in v && retval != 0
    ensures var name := Join(cs) + (if three then "///" else "//");
      && MkdirSpec(v, disk, name, retval).0 == SIMFS_EENT
      && forall q :: cs <= q ==> q !in MkdirSpec(v, disk, name, retval).1
  {
    var tail := if three then "///" else "//";
    var name := Join(cs) + tail;
    TokensOfJoin(cs);
    SlashesAfter(Join(cs), tail);
    JoinEnds(cs);
    TrailingIs(name, |Join(cs)|);
    KnownOperand(v, disk, name);
    PopulatedClosed(v, disk, cs);
    PopulatedFacts(v, disk, cs);
    hide Populated, Parts, There, MkdirReady, Join;
  }

  lemma {:induction false} SlashesAfter(a: string, tail: string)
    requires AllSlashes(tail) && tail != ""
    ensures Parts(a + tail) == Parts(a) && (a + tail)[|a|..] == tail
    decreases |tail|
  {
    hide Tokens;
    var init := tail[..|tail| - 1];
    assert a + tail == (a + init) + ['/'];
    TrailingDelim(a + init, '/');
    if init != "" {
      SlashesAfter(a, init);
    } else {
      assert a + init == a;
    }
  }

  /** A failing recorded mkdir of the root is answered EENT, and forgets every path but the root. */
  lemma FailingRootMkdirForgetsAll(v: View, disk: Disk, retval: int)
    requires Closed(v) && retval != 0
    ensures Parts("/") == [] && MkdirSpec(v, disk, "/", retval).0 == SIMFS_EENT
    ensures forall q :: q in MkdirSpec(v, disk, "/", retval).1 <==> q == []
  {
    TokensOfPiece("", '/');
    SlashesAfter("", "/");
    assert "" + "/" == "/";
    TrailingIs("/", 0);
    KnownOperand(v, disk, "/");
    PopulatedClosed(v, disk, []);
    hide Parts, There, MkdirReady, Populated;
  }
}
