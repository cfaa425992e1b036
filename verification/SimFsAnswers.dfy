/** What each call of simfs.c answers, whatever was recorded, and what it leaves in the tree. */
module SimFsAnswers {
  import opened Options
  import opened PathText
  import opened Trie
  import opened SimFsText
  import opened SimFsSpec

  // ---------- answers ----------

  /** Whether the tree, or the disk below it, has the path; its parent. */
  ghost predicate Found(v: View, disk: Disk, p: Path)
    requires [] in v
  {
    p in Populated(v, disk, p)
  }

  ghost predicate ParentFound(v: View, disk: Disk, p: Path)
    requires [] in v && p != []
  {
    p[..|p| - 1] in Populated(v, disk, p)
  }

  /** The path is found, and the name spells what was not known of it with single slashes. */
  ghost predicate Taken(v: View, disk: Disk, name: string)
    requires [] in v && Parts(name) != []
  {
    var p := Parts(name);
    Found(v, disk, p) && if p in v then Exact(name) else Have(v, p) < |p| && SinglyFrom(name, Have(v, p))
  }

  /** stat and unlink of a path: 0 if the recorded outcome is the one expected, 1 if the call succeeded and should have
      failed, 2 the other way round. */
  predicate Answered(answer: int, expected: bool, succeeded: bool) {
    && (answer == 0 <==> (succeeded <==> expected))
    && (answer == 1 <==> succeeded && !expected)
    && (answer == 2 <==> !succeeded && expected)
  }

  /** stat expects to succeed exactly if the path is found. */
  lemma StatAnswers(v: View, disk: Disk, name: string, retval: int)
    requires Closed(v)
    ensures Answered(Step(v, disk, Stat(name, retval)).0, Found(v, disk, Parts(name)), retval == 0)
  {
    PopulatedFacts(v, disk, Parts(name));
    hide Populated, Parts;
  }

  /** unlink expects to succeed if the path is known under the very name; and a failure, if the path is found. */
  lemma UnlinkAnswers(v: View, disk: Disk, name: string, retval: int)
    requires Closed(v)
    ensures var p := Parts(name);
      var expected := if retval == 0 then p in v && Exact(name) else Found(v, disk, p);
      Answered(Step(v, disk, Unlink(name, retval)).0, expected, retval == 0)
  {
    PopulatedFacts(v, disk, Parts(name));
    hide Populated, Parts;
  }

  /** So it is answered as the path is found or not, except, exactly, after a recorded success on a path that only the
      disk has, or that the name spells with surplus slashes. */
  lemma UnlinkRightExactly(v: View, disk: Disk, name: string, retval: int)
    requires Closed(v)
    ensures var p := Parts(name);
      Answered(Step(v, disk, Unlink(name, retval)).0, Found(v, disk, p), retval == 0)
      <==> !(retval == 0 && Found(v, disk, p) && !(p in v && Exact(name)))
  {
    PopulatedFacts(v, disk, Parts(name));
    UnlinkAnswers(v, disk, name, retval);
    hide Populated, Parts, Step;
  }

  /** mkdir, of a path that is there or not, with its parent ready or not. */
  predicate MkdirAnswered(answer: int, there: bool, ready: bool, succeeded: bool) {
    && (answer == 0 <==> (succeeded <==> !there && ready))
    && (answer == 1 <==> succeeded && !there && !ready)
    && (answer == 2 <==> if succeeded then there else !there && ready)
  }

  /** open, of a path that is there or not, with its parent ready or not. A failed O_CREAT without O_EXCL on a path that
      is there passes for expected. */
  predicate OpenAnswered(answer: int, there: bool, ready: bool, creat: bool, excl: bool, succeeded: bool) {
    var expected := if there then !(creat && excl) else creat && ready;
    && (answer == 0 <==> (succeeded <==> expected) || (there && creat && !excl))
    && (answer == 1 <==> succeeded && !expected && !there)
    && (answer == 2 <==> if succeeded then !expected && there else expected && !(there && creat))
  }

  /** Whatever the name and the outcome, mkdir goes by the spelling. */
  lemma MkdirAnswers(v: View, disk: Disk, name: string, retval: int)
    requires Closed(v) && FromRoot(name) && Parts(name) != []
    ensures MkdirAnswered(Step(v, disk, Mkdir(name, retval)).0, Taken(v, disk, name), MkdirReady(v, disk, name),
                          retval == 0)
  {
    ThereExactly(v, disk, name);
    hide Populated, Parts, Closed, There, MkdirReady, Exact, SinglyFrom;
  }

  /** So does open, with any flags. */
  lemma OpenAnswers(v: View, disk: Disk, name: string, creat: bool, excl: bool, retval: int)
    requires Closed(v) && FromRoot(name) && Parts(name) != []
    ensures OpenAnswered(Step(v, disk, Creat(name, creat, excl, retval)).0, Taken(v, disk, name),
                         CreatReady(v, disk, name), creat, excl, retval != -1)
  {
    ThereExactly(v, disk, name);
    hide Populated, Parts, Closed, There, CreatReady, Exact, SinglyFrom;
  }

  /** The answer is that of the components exactly if the spelling tells what they tell, as far as the outcome makes
      it matter. */
  lemma MkdirRightExactly(v: View, disk: Disk, name: string, retval: int)
    requires Closed(v) && FromRoot(name) && Parts(name) != []
    ensures var p, answer := Parts(name), Step(v, disk, Mkdir(name, retval)).0;
      var found, parent := Found(v, disk, p), ParentFound(v, disk, p);
      var there, ready := Taken(v, disk, name), MkdirReady(v, disk, name);
      MkdirAnswered(answer, found, parent, retval == 0)
      <==> if retval == 0 then (found ==> there) && (!found ==> (ready <==> parent))
           else (!there && ready <==> !found && parent)
  {
    MkdirAnswers(v, disk, name, retval);
    hide Populated, Parts, Step, MkdirReady, Exact, SinglyFrom;
  }

  lemma OpenRightExactly(v: View, disk: Disk, name: string, creat: bool, excl: bool, retval: int)
    requires Closed(v) && FromRoot(name) && Parts(name) != []
    ensures var p, answer := Parts(name), Step(v, disk, Creat(name, creat, excl, retval)).0;
      var found, parent := Found(v, disk, p), ParentFound(v, disk, p);
      var there, ready := Taken(v, disk, name), CreatReady(v, disk, name);
      OpenAnswered(answer, found, parent, creat, excl, retval != -1)
      <==> if !creat then (found ==> there)
           else if retval == -1 then (!there && ready <==> !found && parent)
           else if excl then (found ==> there) && (!found ==> (ready <==> parent))
           else (there || ready <==> parent)
  {
    OpenAnswers(v, disk, name, creat, excl, retval);
    if Found(v, disk, Parts(name)) {
      FoundParent(v, disk, Parts(name));
    }
    hide Populated, Parts, Step, CreatReady, Exact, SinglyFrom;
  }

  lemma FoundParent(v: View, disk: Disk, p: Path)
    requires Closed(v) && p != [] && Found(v, disk, p)
    ensures ParentFound(v, disk, p)
  {
    ParentFacts(v, disk, p);
  }

  /** For names spelled with single slashes and none at their end, the components alone decide. */
  lemma PlainAnswers(v: View, disk: Disk, name: string, retval: int, creat: bool, excl: bool)
    requires Closed(v) && Parts(name) != [] && name == Join(Parts(name))
    ensures var p := Parts(name); var found, parent := Found(v, disk, p), ParentFound(v, disk, p);
      && MkdirAnswered(Step(v, disk, Mkdir(name, retval)).0, found, parent, retval == 0)
      && OpenAnswered(Step(v, disk, Creat(name, creat, excl, retval)).0, found, parent, creat, excl, retval != -1)
  {
    TokensAreComponents(name, '/');
    JoinEnds(Parts(name));
    assert !Trailing(name) && [] in v;
    SingleSlashTells(v, disk, name);
    ThereExactly(v, disk, name);
    hide Populated, Parts, Closed, There, MkdirReady, CreatReady, Exact, SinglyFrom;
  }

  // ---------- the tree ----------

  /** Failures of stat and access leave a path that the tree only made up. */
  predicate Virtually(v: View, c: Call) {
    (c.Stat? || c.Access?) && Exact(c.name) && Parts(c.name) in v && !v[Parts(c.name)].physical
  }

  /** The operand and all below it are taken out after unlink, and after a failure that was not expected. */
  ghost predicate TakesOut(v: View, disk: Disk, c: Call)
    requires [] in v
  {
    c.Unlink? || (!Succeeded(c) && Step(v, disk, c).0 == 2 && !Virtually(v, c))
  }

  /** Where a path is, among the trees that a call can leave. */
  ghost predicate Members(v: View, w: View, p: Path, q: Path) {
    && (p in v ==> w == v)
    && (q in With(w, p) <==> q in w || q <= p)
    && (q in MarkCreated(With(w, p), p) <==> q in w || q <= p)
    && (q in Without(w, p) <==> q in w && (q == [] || !(p <= q)))
    && (q in Without(With(w, p), p) <==> (q in w || q <= p) && (q == [] || !(p <= q)))
    && (p in w && q <= p ==> q in w) && (q in w && p <= q ==> p in w)
  }

  lemma MembersOf(v: View, disk: Disk, p: Path, q: Path)
    requires Closed(v)
    ensures Members(v, Populated(v, disk, p), p, q) && [] in v
  {
    PopulatedClosed(v, disk, p);
    if p in v {
      KnownIsPopulated(v, disk, p);
    }
    assert [] in v;
    hide *;
    MembersIn(v, Populated(v, disk, p), p, q);
  }

  lemma MembersIn(v: View, w: View, p: Path, q: Path)
    requires Closed(w) && (p in v ==> w == v)
    ensures Members(v, w, p, q)
  {
    WithFacts(w, p);
    if p in w && q <= p {
      PrefixOf(w, p, q);
    }
    if p <= q && q in w {
      PrefixOf(w, q, p);
    }
    hide With, Closed;
    WithoutIs(w, p, q);
    WithoutIs(With(w, p), p, q);
    MarkIs(With(w, p), p, q);
    hide Without, MarkCreated;
  }

  lemma WithoutIs(w: View, p: Path, q: Path)
    ensures q in Without(w, p) <==> q in w && (q == [] || !(p <= q))
    ensures q in Without(w, p) ==> Without(w, p)[q] == w[q]
  {
  }

  lemma MarkIs(w: View, p: Path, q: Path)
    ensures q in MarkCreated(w, p) <==> q in w
    ensures q in w ==> MarkCreated(w, p)[q] == w[q].(created := w[q].created || q == p)
  {
  }

  /** After any call the tree has, of its own paths, those the disk was asked for and found, and those a recorded
      success proves, exactly the ones that the call does not take out. */
  lemma TreeAfter(v: View, disk: Disk, c: Call, q: Path)
    requires Closed(v)
    ensures var p := Parts(c.name);
      q in Step(v, disk, c).1 <==>
        && (q in Populated(v, disk, p) || (Succeeded(c) && q <= p))
        && !(TakesOut(v, disk, c) && q != [] && p <= q)
  {
    MembersOf(v, disk, Parts(c.name), q);
    hide *;
    if c.Stat? || c.Access? {
      TreeAfterStat(v, disk, c, q);
    } else if c.Unlink? {
      TreeAfterUnlink(v, disk, c, q);
    } else {
      if There(v, disk, c.name) {
        ThereIsFound(v, disk, c.name);
      }
      TreeAfterMaking(v, disk, c, q);
    }
  }

  lemma TreeAfterStat(v: View, disk: Disk, c: Call, q: Path)
    requires [] in v && (c.Stat? || c.Access?)
    requires Members(v, Populated(v, disk, Parts(c.name)), Parts(c.name), q)
    ensures var p := Parts(c.name);
      q in Step(v, disk, c).1 <==>
        && (q in Populated(v, disk, p) || (Succeeded(c) && q <= p))
        && !(TakesOut(v, disk, c) && q != [] && p <= q)
  {
    hide Populated, With, Without, MarkCreated, Parts, Exact;
  }

  lemma TreeAfterUnlink(v: View, disk: Disk, c: Call, q: Path)
    requires [] in v && c.Unlink?
    requires Members(v, Populated(v, disk, Parts(c.name)), Parts(c.name), q)
    ensures var p := Parts(c.name);
      q in Step(v, disk, c).1 <==>
        && (q in Populated(v, disk, p) || (Succeeded(c) && q <= p))
        && !(TakesOut(v, disk, c) && q != [] && p <= q)
  {
    hide Populated, With, Without, MarkCreated, Parts, Exact;
  }

  lemma TreeAfterMaking(v: View, disk: Disk, c: Call, q: Path)
    requires [] in v && (c.Mkdir? || c.Creat?)
    requires There(v, disk, c.name) ==> Parts(c.name) in Populated(v, disk, Parts(c.name))
    requires Members(v, Populated(v, disk, Parts(c.name)), Parts(c.name), q)
    ensures var p := Parts(c.name);
      q in Step(v, disk, c).1 <==>
        && (q in Populated(v, disk, p) || (Succeeded(c) && q <= p))
        && !(TakesOut(v, disk, c) && q != [] && p <= q)
  {
    hide Populated, With, Without, MarkCreated, Parts, There, MkdirReady, CreatReady, Exact;
  }

  /** Asking the disk for a path that is known adds nothing. */
  lemma KnownIsPopulated(v: View, disk: Disk, p: Path)
    requires Closed(v) && p in v
    ensures Populated(v, disk, p) == v
  {
    HaveIs(v, p);
    PopulatedFacts(v, disk, p);
    var w := Populated(v, disk, p);
    hide Populated, Closed;
    forall q ensures q in w <==> q in v {
    }
  }

  /** What the tree holds about a path before the call marks anything: what it did; what the disk says; or nothing. */
  ghost function Held(v: View, disk: Disk, p: Path, q: Path): SimData
    requires [] in v
  {
    if q in v then v[q]
    else if q in Populated(v, disk, p) && q in disk then SimData(true, disk[q], 0, false)
    else SimData(false, 0xFFFF_FFFF_FFFF_FFFF, 0, false)
  }

  /** A recorded success of mkdir, or of an open with O_CREAT, on a path that did not seem to be there. */
  ghost predicate Makes(v: View, disk: Disk, c: Call)
    requires [] in v
  {
    Succeeded(c) && (c.Mkdir? || (c.Creat? && c.creat)) && !There(v, disk, c.name)
  }

  /** What the trees that a call can leave hold about a path. */
  ghost predicate Contents(v: View, w: View, p: Path, q: Path, held: SimData) {
    && (p in v ==> w == v) && (p in w && q <= p ==> q in w)
    && (q in w ==> w[q] == held)
    && (q in With(w, p) ==> With(w, p)[q] == held)
    && (var m := MarkCreated(With(w, p), p); q in m ==> m[q] == held.(created := held.created || q == p))
    && (q in Without(w, p) ==> Without(w, p)[q] == held)
    && (q in Without(With(w, p), p) ==> Without(With(w, p), p)[q] == held)
  }

  lemma ContentsOf(v: View, disk: Disk, p: Path, q: Path)
    requires Closed(v)
    ensures Contents(v, Populated(v, disk, p), p, q, Held(v, disk, p, q)) && [] in v
  {
    PopulatedFacts(v, disk, p);
    MembersOf(v, disk, p, q);
    var w := Populated(v, disk, p);
    assert (p in v ==> w == v) && (p in w && q <= p ==> q in w) by {
      hide Populated, With, Without, MarkCreated;
    }
    assert q in w ==> w[q] == Held(v, disk, p, q) by {
      hide Populated, Members;
    }
    assert q !in w ==> Held(v, disk, p, q) == Virtual by {
      hide Populated, Members;
    }
    hide *;
    ContentsIn(v, w, p, q, Held(v, disk, p, q));
  }

  lemma ContentsIn(v: View, w: View, p: Path, q: Path, held: SimData)
    requires (p in v ==> w == v) && (p in w && q <= p ==> q in w)
    requires q in w ==> w[q] == held
    requires q !in w ==> held == Virtual
    ensures Contents(v, w, p, q, held)
  {
    assert q in With(w, p) ==> With(w, p)[q] == held;
    hide With;
    WithoutIs(w, p, q);
    WithoutIs(With(w, p), p, q);
    MarkIs(With(w, p), p, q);
    hide Without, MarkCreated;
  }

  /** After any call each path has what the tree held about it, or what the disk says, or nothing for one made up; and
      exactly the path that the call makes is marked as created. */
  lemma DataAfter(v: View, disk: Disk, c: Call, q: Path)
    requires Closed(v) && q in Step(v, disk, c).1
    ensures var held := Held(v, disk, Parts(c.name), q);
      Step(v, disk, c).1[q] == held.(created := held.created || (q == Parts(c.name) && Makes(v, disk, c)))
  {
    ContentsOf(v, disk, Parts(c.name), q);
    hide *;
    if c.Stat? || c.Access? || c.Unlink? {
      DataAfterAsking(v, disk, c, q, Held(v, disk, Parts(c.name), q));
    } else {
      DataAfterMaking(v, disk, c, q, Held(v, disk, Parts(c.name), q));
    }
  }

  lemma DataAfterAsking(v: View, disk: Disk, c: Call, q: Path, held: SimData)
    requires [] in v && q in Step(v, disk, c).1 && (c.Stat? || c.Access? || c.Unlink?)
    requires Contents(v, Populated(v, disk, Parts(c.name)), Parts(c.name), q, held)
    ensures Step(v, disk, c).1[q] == held && !Makes(v, disk, c)
  {
    hide Populated, With, Without, MarkCreated, Parts, Exact;
  }

  lemma DataAfterMaking(v: View, disk: Disk, c: Call, q: Path, held: SimData)
    requires [] in v && q in Step(v, disk, c).1 && (c.Mkdir? || c.Creat?)
    requires Contents(v, Populated(v, disk, Parts(c.name)), Parts(c.name), q, held)
    ensures Step(v, disk, c).1[q] == held.(created := held.created || (q == Parts(c.name) && Makes(v, disk, c)))
  {
    hide Populated, With, Without, MarkCreated, Parts, There, MkdirReady, CreatReady;
  }
}
