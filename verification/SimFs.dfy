/** simfs.c: the simulated file system, a trie of the paths a replay has found or made up. */
module SimFs {
  import opened Options
  import opened PathText
  import opened Trie
  import opened SimFsSpec
  import opened SimFsText
  import PathNormal

  lemma {:induction false} WithoutDotsComponents(cs: Path)
    requires Components(cs, '/')
    ensures Components(PathNormal.WithoutDots(cs), '/')
  {
    if cs != [] {
      WithoutDotsComponents(cs[1..]);
    }
  }

  /** The polished name of a path that polishing gets right has single slashes and starts with one, unless it is
      empty. */
  lemma PolishedName(cs: Path)
    requires PathNormal.Tame(cs) && PathNormal.NoneHidden(PathNormal.Follow([], cs))
    ensures PathNormal.Normalise(Join(cs)).Some?
    ensures var name := PathNormal.Normalise(Join(cs)).value;
      && SingleSlash(name) && FromRoot(name)
      && Parts(name) == PathNormal.WithoutDots(PathNormal.Follow([], cs))
  {
    PathNormal.NormaliseExact(cs);
    assert [] + cs == cs;
    PathNormal.FollowOrigin([], cs);
    var stack := PathNormal.Follow([], cs);
    WithoutDotsComponents(stack);
    var kept := PathNormal.WithoutDots(stack);
    hide PathNormal.Normalise;
    TokensOfJoin(kept);
    JoinEnds(kept);
    if stack != [] && kept == [] {
      RootParts();
      JoinNone();
    }
  }

  lemma RootParts()
    ensures Parts("/") == [] && SingleSlash("/")
  {
    TokensOfPiece("", '/');
    TrailingDelim("", '/');
    assert "" + ['/'] == "/";
    assert Join([]) + "/" == "/";
  }

  /** Asking the disk about one more component. */
  lemma OneMore(v: View, disk: Disk, p: Path, j: nat)
    requires Closed(v) && Have(v, p) <= j < |p|
    ensures p[..j + 1] !in PopulatedTo(v, disk, p, j)
    ensures p[..j + 1] in disk ==>
      PopulatedTo(v, disk, p, j + 1) == PopulatedTo(v, disk, p, j)[p[..j + 1] := OfDisk(disk[p[..j + 1]])]
  {
    HaveIs(v, p);
    assert p[..j + 1] <= p;
    assert forall q: Path :: q <= p && |q| == j + 1 ==> q == p[..j + 1];
  }

  lemma PopulatedNothing(v: View, disk: Disk, p: Path)
    requires Closed(v)
    ensures PopulatedTo(v, disk, p, Have(v, p)) == v
  {
    HaveIs(v, p);
    PopulatedFacts(v, disk, p);
  }

  lemma OnDiskIs(disk: Disk, p: Path, k: nat, j: nat)
    requires k <= j <= |p| && (forall i :: k < i <= j ==> p[..i] in disk) && (j < |p| ==> p[..j + 1] !in disk)
    ensures OnDisk(disk, p, k) == j
    decreases j - k
  {
    if k < j {
      assert p[..k + 1] in disk;
      OnDiskIs(disk, p, k + 1, j);
    }
  }

  /** Inserting a path whose parent is there adds one path. */
  lemma InsertedOne(v: View, u: View, p: Path, data: SimData)
    requires Closed(v) && p != [] && p !in v && p[..|p| - 1] in v
    requires forall q :: q in u <==> q in v || q <= p
    requires forall q :: q in u ==> u[q] == if q in v then v[q] else data
    ensures u == v[p := data]
  {
    forall q | q <= p && q != p ensures q in v {
      assert q == p[..|q|] && |q| < |p|;
      PrefixOf(v, p[..|p| - 1], q);
    }
    assert p <= p;
  }

  // ---------- the loop of simfs_populate ----------

  /** The next token, and room in the missing part for it and a slash. */
  predicate Pending(s: Option<(string, string)>, p: Path, j: nat, existing: string, room: int) {
    match s
    case None => j == |p|
    case Some((t, rest)) =>
      && j < |p| && p[j..] == [t] + Parts(rest) && NulFree(t) && NulFree(rest)
      && (|Slashed(existing)| - |existing|) + |t| + |rest| + (if rest == "" then 0 else 1) <= room
  }

  /** v is v0 after the disk had the components up to j; existing spells them. */
  ghost predicate Populating(v0: View, v: View, disk: Disk, p: Path, j: nat, existing0: string, existing: string) {
    && Closed(v0) && j <= |p| && Have(v0, p) <= j && v == PopulatedTo(v0, disk, p, j)
    && (forall i :: Have(v0, p) < i <= j ==> p[..i] in disk)
    && Components(p, '/') && Parts(existing) == p[..j] && NulFree(existing)
    && existing == Extend(existing0, p[Have(v0, p)..j]) && |existing| >= |existing0|
  }

  /** p is the known components of a name followed by the missing ones. */
  ghost predicate Halves(v0: View, p: Path, existing0: string, missing0: string) {
    && NulFree(existing0) && NulFree(missing0)
    && (missing0 != "" && Slashed(existing0) != existing0 ==> missing0[0] == '/')
    && [] in v0 && p == Parts(existing0) + Parts(missing0) && Have(v0, p) == |Parts(existing0)|
  }

  lemma StartPopulating(v0: View, disk: Disk, existing0: string, missing0: string, p: Path)
    requires Closed(v0) && Halves(v0, p, existing0, missing0)
    ensures Populating(v0, v0, disk, p, |Parts(existing0)|, existing0, existing0)
    ensures Pending(Strtok(missing0, '/'), p, |Parts(existing0)|, existing0, |missing0|)
  {
    PartsTogether(existing0, missing0);
    assert [] in v0;
    hide *;
    NothingYet(v0, disk, p, existing0);
    StartPending(missing0, p, |Parts(existing0)|, existing0, |missing0|);
  }

  lemma PartsTogether(a: string, b: string)
    ensures var p, j := Parts(a) + Parts(b), |Parts(a)|;
      Components(p, '/') && p[..j] == Parts(a) && p[j..] == Parts(b)
  {
    TokensAreComponents(a, '/');
    TokensAreComponents(b, '/');
    hide Tokens;
  }

  lemma NothingYet(v0: View, disk: Disk, p: Path, existing0: string)
    requires Closed(v0) && Components(p, '/') && Parts(existing0) == p[..Have(v0, p)] && NulFree(existing0)
    ensures Populating(v0, v0, disk, p, Have(v0, p), existing0, existing0)
  {
    var j := Have(v0, p);
    PopulatedNothing(v0, disk, p);
    ExtendNone(existing0);
    hide Tokens, Extend, PopulatedTo, Have, Parts;
    assert p[j..j] == [];
  }

  lemma ExtendNone(e: string)
    ensures Extend(e, []) == e
  {
  }

  lemma StartPending(text: string, p: Path, j: nat, existing: string, room: int)
    requires j <= |p| && p[j..] == Parts(text) && NulFree(text) && |text| <= room
    requires text != "" && Slashed(existing) != existing ==> text[0] == '/' || |text| < room
    ensures Pending(Strtok(text, '/'), p, j, existing, room)
  {
    hide Tokens;
    if Strtok(text, '/').Some? {
      StrtokPieces(text, '/');
    } else {
      assert |p[j..]| == 0;
    }
  }

  lemma PopulatedHas(v: View, disk: Disk, p: Path, j: nat)
    requires j <= |p|
    ensures p[..j] in PopulatedTo(v, disk, p, j)
  {
    assert p[..j] in Prefixes(p, j);
  }

  /** The path looked up next, whether or not the disk has it. */
  lemma NextComponent(v0: View, v: View, disk: Disk, p: Path, j: nat, existing0: string, existing: string,
                      t: string, rest: string, room: int)
    requires Populating(v0, v, disk, p, j, existing0, existing) && Pending(Some((t, rest)), p, j, existing, room)
    ensures j < |p|
    ensures var longer, q := Slashed(existing) + t, p[..j + 1];
      && NulFree(longer) && Parts(longer) == q && q != [] && q !in v && q[..|q| - 1] in v
      && (q !in disk ==> Seen(v0, disk, p) == j)
      && (q in disk ==> PopulatedTo(v0, disk, p, j + 1) == v[q := OfDisk(disk[q])])
      && |existing| <= |longer| && longer[..|existing|] == existing && |longer| <= |existing| + room
      && longer == Extend(existing0, p[Have(v0, p)..j + 1])
  {
    assert [] in v0;
    hide Tokens, Closed, Have, PopulatedTo, Extend, OnDisk;
    NextText(p, Have(v0, p), j, existing0, existing, t, rest, room);
    NextView(v0, disk, p, j);
  }

  lemma NextText(p: Path, k: nat, j: nat, existing0: string, existing: string, t: string, rest: string, room: int)
    requires k <= j <= |p| && Components(p, '/') && Parts(existing) == p[..j] && NulFree(existing)
    requires existing == Extend(existing0, p[k..j]) && Pending(Some((t, rest)), p, j, existing, room)
    ensures j < |p|
    ensures var longer := Slashed(existing) + t;
      && NulFree(longer) && Parts(longer) == p[..j + 1] && longer == Extend(existing0, p[k..j + 1])
      && |existing| <= |longer| && longer[..|existing|] == existing && |longer| <= |existing| + room
  {
    assert t == p[j] by { assert p[j..][0] == t; }
    hide Parts;
    SlashedTokens(existing, t);
    assert p[..j] + [t] == p[..j + 1];
    assert p[k..j + 1][..j - k] == p[k..j];
  }

  lemma NextView(v0: View, disk: Disk, p: Path, j: nat)
    requires Closed(v0) && Have(v0, p) <= j < |p| && forall i :: Have(v0, p) < i <= j ==> p[..i] in disk
    ensures var v, q := PopulatedTo(v0, disk, p, j), p[..j + 1];
      && q != [] && q !in v && q[..|q| - 1] in v
      && (q !in disk ==> Seen(v0, disk, p) == j)
      && (q in disk ==> PopulatedTo(v0, disk, p, j + 1) == v[q := OfDisk(disk[q])])
  {
    OneMore(v0, disk, p, j);
    PopulatedHas(v0, disk, p, j);
    assert p[..j + 1][..j] == p[..j];
    if p[..j + 1] !in disk {
      OnDiskIs(disk, p, Have(v0, p), j);
    }
    hide PopulatedTo, Closed, Have;
  }

  /** One component further. */
  lemma Advance(v0: View, v: View, disk: Disk, p: Path, j: nat, existing0: string, existing: string,
                t: string, rest: string, room: int)
    requires Populating(v0, v, disk, p, j, existing0, existing) && Pending(Some((t, rest)), p, j, existing, room)
    requires j < |p| && p[..j + 1] in disk
    ensures var longer, q := Slashed(existing) + t, p[..j + 1];
      && Populating(v0, v[q := OfDisk(disk[q])], disk, p, j + 1, existing0, longer)
      && Pending(Strtok(rest, '/'), p, j + 1, longer, room - (|longer| - |existing|))
  {
    hide Tokens, Closed, Have, PopulatedTo, Extend;
    NextComponent(v0, v, disk, p, j, existing0, existing, t, rest, room);
    assert Component(t, '/') by { assert p[j..][0] == t == p[j]; }
    assert p[j + 1..] == p[j..][1..] == Parts(rest);
    StartPending(rest, p, j + 1, Slashed(existing) + t, room - (|Slashed(existing) + t| - |existing|));
  }

  /** What simfs_populate leaves of the tree and of the known part, and what it answers. */
  ghost predicate PopulateDone(v0: View, v: View, disk: Disk, p: Path, existing0: string, existing: string, rv: int) {
    && [] in v0 && v == PopulatedTo(v0, disk, p, Seen(v0, disk, p))
    && existing == Extend(existing0, p[Have(v0, p)..Seen(v0, disk, p)])
    && rv == if Seen(v0, disk, p) == |p| then 1 else 0
  }

  lemma Finish(v0: View, v: View, disk: Disk, p: Path, existing0: string, existing: string)
    requires [] in v0 && Populating(v0, v, disk, p, |p|, existing0, existing)
    ensures PopulateDone(v0, v, disk, p, existing0, existing, 1)
  {
    OnDiskIs(disk, p, Have(v0, p), |p|);
  }

  lemma Interrupted(v0: View, v: View, disk: Disk, p: Path, j: nat, existing0: string, existing: string)
    requires [] in v0 && Populating(v0, v, disk, p, j, existing0, existing)
    requires Seen(v0, disk, p) == j < |p|
    ensures PopulateDone(v0, v, disk, p, existing0, existing, 0)
  {
  }

  lemma DoneIs(v0: View, v: View, disk: Disk, p: Path, existing0: string, existing: string, rv: int)
    requires [] in v0 && PopulateDone(v0, v, disk, p, existing0, existing, rv)
    ensures v == Populated(v0, disk, p) && existing == Extend(existing0, p[Have(v0, p)..Seen(v0, disk, p)])
  {
  }

  lemma WithoutNothing(v: View, p: Path)
    requires Closed(v) && p !in v
    ensures Without(v, p) == v
  {
    forall q | q in v ensures !(p <= q) {
      if p <= q {
        PrefixOf(v, q, p);
      }
    }
  }

  lemma ShornIs(v: View, u: View, p: Path)
    requires (forall q :: q in u <==> q in v && (q == [] || !(p <= q))) && (forall q :: q in u ==> u[q] == v[q])
    ensures u == Without(v, p)
  {
    assert forall q :: q in u <==> q in Without(v, p);
  }

  lemma SpelledFacts(v: View, disk: Disk, name: string)
    requires Closed(v) && FromRoot(name)
    ensures var t, e := KnownPart(name, Have(v, Parts(name))), Spelled(v, disk, name);
      && t <= e && t <= name && |e| <= |name| && (e == name <==> There(v, disk, name))
      && Missing(v, disk, name) == name[|t|..][|e| - |t|..] && (e != name ==> Missing(v, disk, name) != "")
  {
    var p := Parts(name);
    assert [] in v;
    Spelling(name, Have(v, p), Seen(v, disk, p));
    hide Parts, Extend, KnownPart, Have, Seen, Exact, SinglyFrom, Closed;
    var t, e := KnownPart(name, Have(v, p)), Spelled(v, disk, name);
    assert name[|t|..][|e| - |t|..] == name[|e|..];
  }

  lemma UpdateTwice(v: View, p: Path, x: SimData, y: SimData)
    ensures v[p := x][p := y] == v[p := y]
  {
  }

  class SimFs {
    const fs: Trie<SimData>
    const disk: Disk

    ghost predicate Valid()
      reads this, fs
    {
      fs.Valid() && fs.delim == '/'
    }

    ghost function View(): (v: View)
      reads this, fs
      requires Valid()
      ensures Closed(v)
    {
      ViewClosed();
      fs.View()
    }

    lemma ViewClosed()
      requires Valid()
      ensures Closed(fs.View())
    {
      assert fs.path[ROOT] == [] && [] in fs.View();
      forall p, k | p in fs.View() && 0 <= k <= |p| ensures p[..k] in fs.View() {
        fs.Closed(p, p[..k]);
      }
    }

    /** simfs_init. */
    constructor (disk: Disk)
      ensures Valid() && fresh(fs) && this.disk == disk
      ensures View() == map[[] := Virtual.(physical := true)]
    {
      fs := new Trie('/', Virtual.(physical := true));
      this.disk := disk;
    }

    /** How every call starts: the known part of the name, and its node. */
    method Walk(name: string) returns (n: nat, existing: string)
      requires Valid() && NulFree(name)
      ensures Known(name, Have(View(), Parts(name)), existing)
      ensures Parts(name) in fs.at ==> n == fs.at[Parts(name)]
    {
      hide *;
      FsValid();
      var buff := new char[|name| + 1];
      Overwrite(buff, name);
      assert buff[..] == name + ['\0'];
      n := fs.LongestPrefix(name, buff);
      MatchedIsHave(name);
      ghost var t := KnownText(buff[..], name, fs.Matched(name));
      existing := Text(buff[..]);
      StuckNode(name, n);
    }

    lemma FsValid()
      requires Valid()
      ensures fs.Valid() && fs.delim == '/' && View() == fs.View() && Closed(View()) && [] in View()
    {
    }

    lemma MatchedIsHave(name: string)
      requires Valid()
      ensures fs.Matched(name) == Have(View(), Parts(name))
    {
      hide Tokens;
      HaveIs(View(), Parts(name));
      var p, k := Parts(name), fs.Matched(name);
      assert p[..k] <= p && (k < |p| ==> p[..k + 1] <= p);
      fs.AtView();
    }

    lemma StuckNode(name: string, n: nat)
      requires Valid() && fs.Stuck(name, n, fs.Matched(name))
      ensures Parts(name) in fs.at ==> n == fs.at[Parts(name)]
    {
      hide Tokens;
      MatchedIsHave(name);
      fs.AtView();
      HaveIs(View(), Parts(name));
      var p := Parts(name);
      assert p[..|p|] == p;
    }

    /** The rest of the name after its known part. */
    method SkipCommon(name: string, existing: string) returns (missing: string)
      requires existing <= name
      ensures missing == name[|existing|..]
    {
      var i := 0;
      while i < |existing| && existing[i] == name[i]
        invariant 0 <= i <= |existing|
      {
        i := i + 1;
      }
      missing := name[i..];
    }

    /** trie_insert2, when only the last component is missing. */
    method InsertLast(existing: string, data: SimData) returns (n: nat)
      requires Valid() && NulFree(existing) && Parts(existing) != [] && Parts(existing) !in View()
      requires Parts(existing)[..|Parts(existing)| - 1] in View()
      modifies fs
      ensures fs.Valid() && fs.delim == '/' && fs.View() == old(View())[Parts(existing) := data]
      ensures Parts(existing) in fs.at && n == fs.at[Parts(existing)]
    {
      assert Parts(existing) == Tokens(existing, '/');
      FsValid();
      hide *;
      ghost var v := View();
      n := fs.Insert2(existing, data);
      InsertedOne(v, fs.View(), Parts(existing), data);
    }

    /** The new node gets the size of the file on the disk. */
    method AddFromDisk(existing: string, size: nat)
      requires Valid() && NulFree(existing) && Parts(existing) != [] && Parts(existing) !in View()
      requires Parts(existing)[..|Parts(existing)| - 1] in View()
      modifies fs
      ensures Valid() && View() == old(View())[Parts(existing) := OfDisk(size)]
    {
      hide *;
      UpdateTwice(View(), Parts(existing), OfDisk(0), OfDisk(size));
      var n := InsertLast(existing, OfDisk(0));
      SetSize(n, Parts(existing), OfDisk(size));
    }

    /** simfs->phys_size = st.st_size. */
    method SetSize(n: nat, ghost p: Path, data: SimData)
      requires fs.Valid() && fs.delim == '/' && p in fs.at && n == fs.at[p]
      modifies fs
      ensures Valid() && View() == old(fs.View())[p := data]
    {
      AtInserted(p);
      hide *;
      fs.Put(n, data);
      NowValid();
    }

    lemma AtInserted(p: Path)
      requires fs.Valid() && p in fs.at
      ensures fs.at[p] in fs.heap && fs.at[p] in fs.path && fs.path[fs.at[p]] == p
    {
      fs.NodeOf(p);
    }

    lemma NowValid()
      requires fs.Valid() && fs.delim == '/'
      ensures Valid() && View() == fs.View()
    {
    }

    /** One round of the loop of simfs_populate: adds the component if the disk has it, and cuts it off again if not. */
    method PopulateOne(existing1: string, t: string, ghost v0: View, ghost p: Path, ghost j: nat,
                       ghost existing0: string,
                       ghost rest: string, ghost room: int) returns (rv: int, existing: string)
      requires Valid() && Populating(v0, View(), disk, p, j, existing0, existing1)
      requires Pending(Some((t, rest)), p, j, existing1, room)
      modifies fs
      ensures Valid() && (rv == 0 || rv == 1)
      ensures rv == 1 ==>
        && |existing1| <= |existing| <= |existing1| + room
        && Populating(v0, View(), disk, p, j + 1, existing0, existing)
        && Pending(Strtok(rest, '/'), p, j + 1, existing, room - (|existing| - |existing1|))
      ensures rv == 0 ==> existing == existing1 && View() == old(View()) && Seen(v0, disk, p) == j < |p|
    {
      hide *;
      NextComponent(v0, View(), disk, p, j, existing0, existing1, t, rest, room);
      var c := |existing1|;
      existing := Slashed(existing1) + t;
      if Parts(existing) in disk {
        Advance(v0, View(), disk, p, j, existing0, existing1, t, rest, room);
        AddFromDisk(existing, disk[Parts(existing)]);
        rv := 1;
      } else {
        existing := existing[..c];
        rv := 0;
      }
    }

    /** simfs_populate: looks the missing components up on the disk, until one does not exist there. */
    method Populate(existing0: string, missing0: string, ghost p: Path)
      returns (rv: int, existing: string, missing: string)
      requires Valid() && Halves(View(), p, existing0, missing0)
      modifies fs
      ensures Valid() && PopulateDone(old(View()), View(), disk, p, existing0, existing, rv)
      ensures |existing0| <= |existing| && |existing| - |existing0| <= |missing0|
      ensures missing == missing0[|existing| - |existing0|..]
    {
      FsValid();
      hide *;
      ghost var v0 := View();
      StartPopulating(v0, disk, existing0, missing0, p);
      var misOff;
      rv, existing, misOff := PopulateLoop(existing0, missing0, v0, p, |Parts(existing0)|);
      missing := missing0[misOff..];
    }

    method PopulateLoop(existing0: string, missing0: string, ghost v0: View, ghost p: Path, ghost k: nat)
      returns (rv: int, existing: string, misOff: nat)
      requires [] in v0 && Valid() && Populating(v0, View(), disk, p, k, existing0, existing0)
      requires Pending(Strtok(missing0, '/'), p, k, existing0, |missing0|)
      modifies fs
      ensures Valid() && PopulateDone(v0, View(), disk, p, existing0, existing, rv)
      ensures |existing0| <= |existing| && misOff == |existing| - |existing0| <= |missing0|
    {
      hide *;
      ghost var j := k;
      var s := Strtok(missing0, '/');
      misOff, existing, rv := 0, existing0, 1;
      while s.Some?
        invariant 0 <= j && Valid() && Populating(v0, View(), disk, p, j, existing0, existing)
        invariant |existing0| <= |existing| && misOff == |existing| - |existing0| <= |missing0|
        invariant rv == 1 && Pending(s, p, j, existing, |missing0| - misOff)
        decreases match s case None => 0 case Some((t, rest)) => |rest| + 1
      {
        var (t, rest) := s.value;
        var c := |existing|;
        rv, existing := PopulateOne(existing, t, v0, p, j, existing0, rest, |missing0| - misOff);
        if rv == 0 {
          Interrupted(v0, View(), disk, p, j, existing0, existing);
          return;
        }
        misOff := misOff + (|existing| - c);
        j := j + 1;
        s := Strtok(rest, '/');
      }
      AllDone(p, j, existing, |missing0| - misOff);
      Finish(v0, View(), disk, p, existing0, existing);
    }

    lemma AllDone(p: Path, j: nat, existing: string, room: int)
      requires Pending(None, p, j, existing, room)
      ensures j == |p|
    {
    }

    /** trie_delete of a name. */
    method Forget(name: string)
      requires Valid()
      modifies fs
      ensures Valid() && View() == Without(old(View()), Parts(name))
    {
      assert Parts(name) == Tokens(name, '/');
      FsValid();
      hide *;
      label before:
      var _ := fs.Delete(name);
      Forgotten@before(Parts(name));
    }

    twostate lemma Forgotten(p: Path)
      requires old(Valid()) && fs.Valid()
      requires p !in old(fs.View()) ==> fs.View() == old(fs.View())
      requires p in old(fs.View()) ==> fs.Pruned(old(fs.View()), old(fs.at), p)
      ensures Valid() && View() == Without(old(View()), p)
    {
      if p !in old(fs.View()) {
        WithoutNothing(old(View()), p);
      } else {
        ShornIs(old(View()), fs.View(), p);
      }
      hide Tree, DataAt;
    }

    /** trie_insert of a name. */
    method Add(name: string) returns (n: nat)
      requires Valid() && NulFree(name)
      modifies fs
      ensures Valid() && View() == With(old(View()), Parts(name))
      ensures Parts(name) in fs.at && n == fs.at[Parts(name)]
    {
      assert Parts(name) == Tokens(name, '/');
      FsValid();
      hide *;
      ghost var v := View();
      n := fs.Insert2(name, Virtual);
      Added(v, fs.View(), Parts(name));
      NowValid();
    }

    lemma Added(v: View, u: View, p: Path)
      requires forall q :: q in u <==> q in v || q <= p
      requires forall q :: q in u ==> u[q] == if q in v then v[q] else Virtual
      ensures u == With(v, p)
    {
      assert forall q :: q <= p ==> |q| <= |p|;
      assert forall q :: q in u <==> q in With(v, p);
    }

    /** simfs->created = 1. */
    method SetCreated(n: nat, ghost p: Path)
      requires Valid() && p in fs.at && n == fs.at[p]
      modifies fs
      ensures Valid() && View() == MarkCreated(old(View()), p)
    {
      FsValid();
      NodeData(p, n);
      assert MarkCreated(View(), p) == View()[p := View()[p].(created := true)];
      hide *;
      SetSize(n, p, fs.heap[n].data.(created := true));
    }

    lemma NodeData(p: Path, n: nat)
      requires Valid() && p in fs.at && n == fs.at[p]
      ensures n in fs.heap && p in View() && View()[p] == fs.heap[n].data
    {
    }

    lemma AtIsView(p: Path)
      requires Valid()
      ensures p in fs.at <==> p in View()
    {
      fs.AtView();
    }

    /** What the known part of a name tells. */
    lemma WalkFacts(name: string, existing: string)
      requires Valid() && NulFree(name) && Known(name, Have(View(), Parts(name)), existing)
      requires FromRoot(name)
      ensures existing <= name && Halves(View(), Parts(name), existing, name[|existing|..])
      ensures existing == name <==> Exact(name) && Parts(name) in View()
    {
      hide Tokens;
      var v, p := View(), Parts(name);
      var k := Have(v, p);
      KnownSplits(name, k, existing);
      KnownWhole(name, k, existing);
      HaveIs(v, p);
      assert p[..k] + p[k..] == p;
    }

    lemma PopulateFacts(v: View, p: Path)
      requires Closed(v)
      ensures Populated(v, disk, p) == PopulatedTo(v, disk, p, Seen(v, disk, p))
      ensures Seen(v, disk, p) == |p| <==> p in Populated(v, disk, p)
    {
      PopulatedFacts(v, disk, p);
    }

    /** simfs_stat. */
    method Stat(name: string, retval: int) returns (rv: int)
      requires Valid() && NulFree(name) && FromRoot(name)
      modifies fs
      ensures Valid() && (rv, View()) == StatSpec(old(View()), disk, name, retval)
    {
      FsValid();
      hide Valid, View, Parts, Populated, PopulatedTo, With, Without, Exact, Known, Closed, Seen, Have;
      ghost var v, p := View(), Parts(name);
      var n, existing := Walk(name);
      WalkFacts(name, existing);
      AtIsView(p);
      if existing == name {
        NodeData(p, n);
        rv := SIMFS_OK;
        if retval != 0 {
          if fs.heap[n].data.physical {
            Forget(name);
          }
          rv := SIMFS_EENT;
        }
      } else {
        var missing := SkipCommon(name, existing);
        PopulateFacts(v, p);
        var onDisk;
        onDisk, existing, missing := Populate(existing, missing, p);
        rv := SIMFS_OK;
        if retval != 0 {
          if onDisk != 0 {
            Forget(name);
            rv := SIMFS_EENT;
          }
        } else if onDisk == 0 {
          var _ := Add(name);
          rv := SIMFS_ENOENT;
        }
      }
    }

    /** simfs_access; unset is what its answer happens to be where it is never assigned. */
    method Access(name: string, retval: int, unset: int) returns (rv: int)
      requires Valid() && NulFree(name) && FromRoot(name)
      modifies fs
      ensures Valid() && (rv, View()) == AccessSpec(old(View()), disk, name, retval, unset)
    {
      FsValid();
      ghost var v, p := View(), Parts(name);
      ghost var spec := StatSpec(v, disk, name, retval);
      assert AccessSpec(v, disk, name, retval, unset) == (if spec.0 == SIMFS_ENOENT then unset else spec.0, spec.1);
      hide Valid, View, Parts, Populated, PopulatedTo, With, Without, Exact, Known, Closed, Seen, Have, AccessSpec;
      var n, existing := Walk(name);
      WalkFacts(name, existing);
      AtIsView(p);
      rv := unset;
      if existing == name {
        NodeData(p, n);
        if retval == 0 {
          rv := SIMFS_OK;
        } else {
          if fs.heap[n].data.physical {
            Forget(name);
          }
          rv := SIMFS_EENT;
        }
      } else {
        var missing := SkipCommon(name, existing);
        PopulateFacts(v, p);
        var onDisk;
        onDisk, existing, missing := Populate(existing, missing, p);
        if retval != 0 {
          if onDisk != 0 {
            Forget(name);
            rv := SIMFS_EENT;
          } else {
            rv := SIMFS_OK;
          }
        } else if onDisk == 0 {
          var _ := Add(name);
        } else {
          rv := SIMFS_OK;
        }
      }
    }

    /** simfs_unlink. */
    method Unlink(name: string, retval: int) returns (rv: int)
      requires Valid() && NulFree(name) && FromRoot(name)
      modifies fs
      ensures Valid() && (rv, View()) == UnlinkSpec(old(View()), disk, name, retval)
    {
      FsValid();
      hide Valid, View, Parts, Populated, PopulatedTo, With, Without, Exact, Known, Closed, Seen, Have;
      ghost var v, p := View(), Parts(name);
      var n, existing := Walk(name);
      WalkFacts(name, existing);
      if existing == name {
        rv := if retval == 0 then SIMFS_OK else SIMFS_EENT;
        Forget(name);
      } else {
        var missing := SkipCommon(name, existing);
        PopulateFacts(v, p);
        var onDisk;
        onDisk, existing, missing := Populate(existing, missing, p);
        rv := SIMFS_OK;
        if retval != 0 {
          if onDisk != 0 {
            Forget(name);
            rv := SIMFS_EENT;
          }
        } else {
          var _ := Add(name);
          Forget(name);
          rv := SIMFS_ENOENT;
        }
      }
    }

    /** How mkdir and open start: the populated part of the name and the part still missing. */
    method Start(name: string) returns (existing: string, missing: string)
      requires Valid() && NulFree(name) && FromRoot(name)
      modifies fs
      ensures Valid() && View() == Populated(old(View()), disk, Parts(name))
      ensures existing == name <==> There(old(View()), disk, name)
      ensures missing == Missing(old(View()), disk, name) && (existing != name ==> missing != "")
    {
      FsValid();
      hide *;
      ghost var v, p := View(), Parts(name);
      var n;
      n, existing := Walk(name);
      WalkFacts(name, existing);
      missing := SkipCommon(name, existing);
      PopulateFacts(v, p);
      SpellingFacts(name, existing);
      var allThere;
      ghost var known := existing;
      allThere, existing, missing := Populate(existing, missing, p);
      DoneIs(v, View(), disk, p, known, existing, allThere);
    }

    lemma SpellingFacts(name: string, known: string)
      requires Valid() && FromRoot(name) && Known(name, Have(View(), Parts(name)), known)
      ensures var v, p := View(), Parts(name);
        var e := Extend(known, p[Have(v, p)..Seen(v, disk, p)]);
        && known <= e && known <= name && |e| <= |name| && (e == name <==> There(v, disk, name))
        && Missing(v, disk, name) == name[|known|..][|e| - |known|..]
        && (e != name ==> Missing(v, disk, name) != "")
    {
      FsValid();
      hide *;
      KnownIs(name, Have(View(), Parts(name)), known);
      SpelledFacts(View(), disk, name);
      SpelledIs(View(), name);
    }

    lemma SpelledIs(v: View, name: string)
      requires [] in v
      ensures var p := Parts(name);
        Spelled(v, disk, name) == Extend(KnownPart(name, Have(v, p)), p[Have(v, p)..Seen(v, disk, p)])
    {
    }

    /** How mkdir takes a slash off the end of the missing part, and then one off its start. */
    method TrimBoth(m: string) returns (missing: string)
      requires m != ""
      ensures missing == TrimHead(TrimTail(m))
    {
      missing := m;
      if missing[|missing| - 1] == '/' {
        missing := missing[..|missing| - 1];
      }
      if missing != "" && missing[0] == '/' {
        missing := missing[1..];
      }
    }

    /** strccount. */
    method CountSlashes(s: string) returns (n: nat)
      ensures n == Slashes(s)
    {
      n := 0;
      var i := 0;
      while i < |s|
        invariant 0 <= i <= |s| && n == Slashes(s[..i])
      {
        assert s[..i + 1] == s[..i] + [s[i]];
        SlashesSplit(s[..i], [s[i]]);
        assert Slashes([s[i]]) == if s[i] == '/' then 1 else 0;
        if s[i] == '/' {
          n := n + 1;
        }
        i := i + 1;
      }
      assert s[..|s|] == s;
    }

    /** simfs_mkdir. */
    method Mkdir(name: string, retval: int) returns (rv: int)
      requires Valid() && NulFree(name) && FromRoot(name)
      modifies fs
      ensures Valid() && (rv, View()) == MkdirSpec(old(View()), disk, name, retval)
    {
      FsValid();
      hide Valid, View, Parts, Populated, PopulatedTo, With, Without, Closed, Seen, Have, There, Slashes, Missing,
        TrimTail;
      var existing, missing := Start(name);
      if existing == name {
        rv := if retval != 0 then SIMFS_OK else SIMFS_EENT;
      } else {
        missing := TrimBoth(missing);
        var count := CountSlashes(missing);
        if retval != 0 {
          rv := SIMFS_OK;
          if count == 0 {
            Forget(name);
            rv := SIMFS_EENT;
          }
        } else {
          rv := if count == 0 then SIMFS_OK else SIMFS_ENOENT;
          var n := Add(name);
          SetCreated(n, Parts(name));
        }
      }
    }

    /** simfs_creat, which also replays open; creat and excl are the flags O_CREAT and O_EXCL. */
    method Creat(name: string, creat: bool, excl: bool, retval: int) returns (rv: int)
      requires Valid() && NulFree(name) && FromRoot(name)
      modifies fs
      ensures Valid() && (rv, View()) == CreatSpec(old(View()), disk, name, creat, excl, retval)
    {
      FsValid();
      hide Valid, View, Parts, Populated, PopulatedTo, With, Without, Closed, Seen, Have, There, Slashes, Missing;
      var existing, missing := Start(name);
      if existing == name {
        if creat {
          rv := if excl && retval != -1 then SIMFS_EENT else SIMFS_OK;
        } else if retval == -1 {
          Forget(name);
          rv := SIMFS_EENT;
        } else {
          rv := SIMFS_OK;
        }
      } else {
        if missing[0] == '/' {
          missing := missing[1..];
        }
        var count := CountSlashes(missing);
        if !creat {
          rv := SIMFS_OK;
          if retval != -1 {
            var _ := Add(name);
            rv := SIMFS_ENOENT;
          }
        } else if retval == -1 {
          rv := SIMFS_OK;
          if count == 0 {
            Forget(name);
            rv := SIMFS_EENT;
          }
        } else {
          rv := if count == 0 then SIMFS_OK else SIMFS_ENOENT;
          var n := Add(name);
          SetCreated(n, Parts(name));
        }
      }
    }
  }
}
