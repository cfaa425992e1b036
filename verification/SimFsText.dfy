/** How simfs.c reads the state of a path off the spelling of its known and its missing part. */
module SimFsText {
  import opened Options
  import opened PathText
  import opened Trie

  // ---------- how the name is spelled ----------

  function Parts(name: string): Path {
    Tokens(name, '/')
  }

  /** The name does not end in a slash, but for a single one after a component. */
  predicate Exact(name: string) {
    name == "" || name[|name| - 1] != '/' || (|name| >= 2 && name[|name| - 2] != '/')
  }

  /** Slashes are single; there may be one at the end. */
  predicate SingleSlash(name: string) {
    name == Join(Parts(name)) || name == Join(Parts(name)) + "/"
  }

  predicate Trailing(name: string) {
    name != "" && name[|name| - 1] == '/'
  }

  // ---------- tokens ----------

  lemma {:induction false} HasToken(s: string, d: char, i: nat)
    requires i < |s| && s[i] != d
    ensures Tokens(s, d) != []
    decreases |s|
  {
    var n := FirstDelim(s, d);
    if n == 0 {
      HasToken(s[1..], d, i - 1);
    }
  }

  lemma NoToken(s: string, d: char)
    requires Tokens(s, d) == []
    ensures forall i :: 0 <= i < |s| ==> s[i] == d
  {
    hide Tokens;
    forall i | 0 <= i < |s| ensures s[i] == d {
      if s[i] != d {
        HasToken(s, d, i);
      }
    }
  }

  /** Only one delimiter of the key can be the one that ends the k-th token. */
  lemma CutUnique(key: string, d: char, k: nat, e: nat, f: nat)
    requires Cut(key, d, k, e) && Cut(key, d, k, f) && e <= f
    ensures e == f
  {
    hide Tokens;
    if e < f {
      assert key[..f] == key[..e] + [d] + key[e + 1..f];
      TokensSplit(key[..e], key[e + 1..f], d);
      assert key[e + 1..f][f - 1 - e - 1] == key[f - 1];
      HasToken(key[e + 1..f], d, f - 1 - e - 1);
    }
  }

  // ---------- the known part ----------

  /** What trie_longest_prefix leaves in a copy of the name, k components being known. */
  predicate Known(name: string, k: nat, t: string) {
    && (Whole(name, '/', k) ==> t == name)
    && (!Whole(name, '/', k) && k == 0 ==> t == "")
    && (!Whole(name, '/', k) && k > 0 ==> t != "" && Cut(name, '/', k, |t| - 1) && t == name[..|t|])
  }

  /** The end of the k-th token. */
  function EndOf(s: string, d: char, k: nat): (e: nat)
    requires 1 <= k <= |Tokens(s, d)|
    ensures e <= |s|
    decreases |s|
  {
    var n := FirstDelim(s, d);
    if n == 0 then 1 + EndOf(s[1..], d, k)
    else if k == 1 then n
    else n + 1 + EndOf(s[n + 1..], d, k - 1)
  }

  /** e is the end of a token, and k tokens lie before it. */
  predicate TokenEnd(s: string, d: char, k: nat, e: nat) {
    && 0 < e <= |s| && s[e - 1] != d && (e < |s| ==> s[e] == d)
    && k <= |Tokens(s, d)| && Tokens(s[..e], d) == Tokens(s, d)[..k]
  }

  lemma {:induction false} EndOfCuts(s: string, d: char, k: nat)
    requires 1 <= k <= |Tokens(s, d)|
    ensures TokenEnd(s, d, k, EndOf(s, d, k))
    decreases |s|
  {
    hide Tokens, FirstDelim, EndOf, TokenEnd;
    var n := FirstDelim(s, d);
    EndOfStep(s, d, k);
    if n > 0 && k == 1 {
      EndOfFirst(s, d);
    } else {
      var rest, k' := s[n + 1..], if n == 0 then k else k - 1;
      EndOfCuts(rest, d, k');
      EndFurther(s, d, n, k, EndOf(rest, d, k'));
    }
  }

  lemma EndFurther(s: string, d: char, n: nat, k: nat, e: nat)
    requires n == FirstDelim(s, d) < |s| && 1 <= k <= |Tokens(s, d)|
    requires Tokens(s, d) == (if n == 0 then [] else [s[..n]]) + Tokens(s[n + 1..], d)
    requires TokenEnd(s[n + 1..], d, if n == 0 then k else k - 1, e)
    ensures TokenEnd(s, d, k, n + 1 + e)
  {
    hide Tokens, FirstDelim;
    var rest := s[n + 1..];
    assert s[..n + 1 + e] == s[..n] + [d] + rest[..e];
    TokensSplit(s[..n], rest[..e], d);
    TokensOfPiece(s[..n], d);
  }

  lemma EndOfStep(s: string, d: char, k: nat)
    requires 1 <= k <= |Tokens(s, d)|
    ensures s != ""
    ensures var n, e := FirstDelim(s, d), EndOf(s, d, k);
      if n > 0 && k == 1 then e == n
      else
        && n < |s| && Tokens(s, d) == (if n == 0 then [] else [s[..n]]) + Tokens(s[n + 1..], d)
        && 1 <= (if n == 0 then k else k - 1) <= |Tokens(s[n + 1..], d)|
        && e == n + 1 + EndOf(s[n + 1..], d, if n == 0 then k else k - 1)
  {
  }

  lemma EndOfFirst(s: string, d: char)
    requires s != "" && FirstDelim(s, d) > 0
    ensures TokenEnd(s, d, 1, FirstDelim(s, d))
  {
    var n := FirstDelim(s, d);
    assert s[n - 1] in s[..n];
    TokensOfPiece(s[..n], d);
  }

  /** The known part, computed: up to the slash after the k-th component, or the whole name if there is none. */
  function KnownPart(name: string, k: nat): string {
    if 1 <= k <= |Parts(name)| then
      var e := EndOf(name, '/', k);
      if e < |name| then name[..e + 1] else name
    else ""
  }

  lemma KnownIs(name: string, k: nat, t: string)
    requires Known(name, k, t) && k <= |Parts(name)|
    ensures t == KnownPart(name, k)
  {
    hide Tokens;
    TokensOfPiece("", '/');
    if k > 0 {
      EndOfCuts(name, '/', k);
      var e := EndOf(name, '/', k);
      if e == |name| {
        EndIsWhole(name, k);
      } else if Whole(name, '/', k) {
        RestIsEmpty(name, k, e);
      } else if e <= |t| - 1 {
        CutUnique(name, '/', k, e, |t| - 1);
      } else {
        CutUnique(name, '/', k, |t| - 1, e);
      }
    } else if Whole(name, '/', k) {
      HasToken(name, '/', |name| - 1);
    }
  }

  lemma EndIsWhole(name: string, k: nat)
    requires TokenEnd(name, '/', k, |name|)
    ensures Whole(name, '/', k)
  {
    hide Tokens;
    assert name[..|name|] == name;
    assert |Parts(name)[..k]| == k;
  }

  /** A cut after all tokens is followed by slashes only. */
  lemma RestIsEmpty(name: string, k: nat, e: nat)
    requires Cut(name, '/', k, e) && k == |Parts(name)|
    ensures Parts(name[e + 1..]) == [] && name[|name| - 1] == '/'
  {
    hide Tokens;
    var a, b := name[..e], name[e + 1..];
    assert name == a + ['/'] + b;
    TokensSplit(a, b, '/');
    assert |Parts(a)| == k;
    assert |Parts(b)| == 0;
    NoToken(b, '/');
    assert b != "" ==> b[|b| - 1] == name[|name| - 1];
  }

  lemma KnownText(now: seq<char>, name: string, k: nat) returns (t: string)
    requires NulFree(name) && Filled(name + ['\0'], now, name, '/', k)
    ensures Holds(now, t) && NulFree(t) && Text(now) == t && Known(name, k, t)
  {
    hide Tokens;
    var was := name + ['\0'];
    if Whole(name, '/', k) {
      t := name;
    } else if k == 0 {
      t := "";
    } else {
      var e: nat :| Cut(name, '/', k, e) && now == name[..e] + [was[e]] + ['\0'] + was[e + 2..];
      t := name[..e + 1];
    }
    HeldText(now, t);
  }

  /** The known part is the beginning of the name; the rest of the name holds the unknown components. */
  lemma KnownSplits(name: string, k: nat, t: string)
    requires Known(name, k, t) && k <= |Parts(name)|
    ensures t <= name && Parts(t) == Parts(name)[..k] && Parts(name[|t|..]) == Parts(name)[k..]
  {
    hide Tokens;
    var p := Parts(name);
    if t == "" {
      TokensOfPiece("", '/');
      assert name[0..] == name && p[0..] == p;
    } else if t == name {
      TokensOfPiece("", '/');
      if !Whole(name, '/', k) {
        assert t == name[..|t| - 1] + ['/'];
        TrailingDelim(name[..|t| - 1], '/');
        assert |p| == |p[..k]|;
      }
      assert p[..k] == p && name[|t|..] == "";
    } else {
      var a, b := name[..|t| - 1], name[|t|..];
      assert name == a + ['/'] + b && t == a + ['/'];
      TokensSplit(a, b, '/');
      TrailingDelim(a, '/');
    }
  }

  /** The known part is the whole name exactly when every component is known and the name ends in none but a single
      slash. */
  lemma KnownWhole(name: string, k: nat, t: string)
    requires Known(name, k, t) && k <= |Parts(name)|
    ensures t == name <==> Exact(name) && k == |Parts(name)|
  {
    hide Tokens;
    KnownSplits(name, k, t);
    var p := Parts(name);
    TokensOfPiece("", '/');
    if t == name {
      assert name[|t|..] == "";
    } else if k == |p| {
      var b := name[|t|..];
      assert Parts(b) == [];
      NoToken(b, '/');
      assert b[|b| - 1] == name[|name| - 1];
      assert |b| >= 2 ==> b[|b| - 2] == name[|name| - 2];
      assert |b| == 1 && t != "" ==> t[|t| - 1] == name[|name| - 2];
    }
  }

  // ---------- populating ----------

  function Slashed(e: string): string {
    if e == "" || e[|e| - 1] != '/' then e + "/" else e
  }

  /** e with the components appended, one slash before each. */
  function Extend(e: string, cs: Path): string {
    if cs == [] then e else Slashed(Extend(e, cs[..|cs| - 1])) + cs[|cs| - 1]
  }

  lemma SlashedTokens(e: string, c: string)
    requires Component(c, '/')
    ensures Parts(Slashed(e) + c) == Parts(e) + [c]
  {
    hide Tokens;
    TokensOfPiece(c, '/');
    if e == "" || e[|e| - 1] != '/' {
      TokensSplit(e, c, '/');
    } else {
      var a := e[..|e| - 1];
      TokensSplit(a, c, '/');
      TrailingDelim(a, '/');
      assert e == a + ['/'];
    }
  }

  lemma {:induction false} ExtendIsJoin(e: string, cs: Path)
    requires Components(cs, '/') && cs != []
    ensures Extend(e, cs) == Slashed(e) + Join(cs)[1..]
    decreases |cs|
  {
    hide Join;
    var init, last := cs[..|cs| - 1], cs[|cs| - 1];
    assert cs == init + [last];
    JoinSnoc(init, last);
    JoinEnds(init);
    if init != [] {
      ExtendIsJoin(e, init);
    } else {
      JoinNone();
      assert Join(init) == "" && Extend(e, init) == e;
    }
  }

  lemma {:induction false} ExtendGrows(e: string, cs: Path)
    ensures e <= Extend(e, cs)
    decreases |cs|
  {
    if cs != [] {
      ExtendGrows(e, cs[..|cs| - 1]);
    }
  }

  // ---------- names with single slashes ----------

  function Tail(name: string): string {
    if Trailing(name) then "/" else ""
  }

  lemma {:induction false} JoinEnds(cs: Path)
    requires Components(cs, '/')
    ensures cs != [] ==> Join(cs) != "" && Join(cs)[0] == '/' && Join(cs)[|Join(cs)| - 1] != '/'
  {
    if cs != [] {
      var init, last := cs[..|cs| - 1], cs[|cs| - 1];
      assert cs == init + [last] && Component(last, '/');
      JoinSnoc(init, last);
    }
  }

  lemma SingleSlashForm(name: string)
    requires SingleSlash(name)
    ensures name == Join(Parts(name)) + Tail(name) && Components(Parts(name), '/')
  {
    TokensAreComponents(name, '/');
    JoinEnds(Parts(name));
    hide Tokens, Join;
  }

  /** The known and the populated part of a name with single slashes. */
  lemma PopulatedText(name: string, k: nat, j: nat, t: string)
    requires SingleSlash(name) && k <= j <= |Parts(name)| && Known(name, k, t)
    ensures var p := Parts(name);
      Extend(t, p[k..j]) == if 0 < k == j && (k < |p| || Trailing(name)) then Join(p[..j]) + "/" else Join(p[..j])
  {
    var p := Parts(name);
    SingleSlashForm(name);
    EndsInToken(name, k);
    JoinNone();
    assert p[..0] == [] && p[..|p|] == p;
    if k == j {
      assert p[k..j] == [] && Extend(t, p[k..j]) == t;
      hide Parts, Join;
      if !Whole(name, '/', k) && k > 0 {
        KnownIsJoin(name, k, t);
      }
    } else {
      hide Parts, Join, Extend;
      if k > 0 {
        KnownIsJoin(name, k, t);
      }
      ExtendJoined(p, k, j, t);
    }
  }

  lemma ExtendJoined(p: Path, k: nat, j: nat, t: string)
    requires Components(p, '/') && k < j <= |p| && t == if k == 0 then "" else Join(p[..k]) + "/"
    ensures Extend(t, p[k..j]) == Join(p[..j])
  {
    hide Join, Extend;
    JoinNone();
    JoinEnds(p[k..j]);
    JoinEnds(p[..k]);
    ExtendIsJoin(t, p[k..j]);
    JoinSplit(p[..k], p[k..j]);
    assert p[..j] == p[..k] + p[k..j] && p[..0] == [];
    assert Slashed(t) == Join(p[..k]) + "/";
    assert Join(p[k..j]) == "/" + Join(p[k..j])[1..];
  }

  lemma EndsInToken(name: string, k: nat)
    ensures !Whole(name, '/', k) && 0 < k == |Parts(name)| ==> Trailing(name)
  {
  }

  /** Unless the name is known to its end, the known part ends in a slash. */
  lemma KnownIsJoin(name: string, k: nat, t: string)
    requires SingleSlash(name) && 0 < k <= |Parts(name)| && Known(name, k, t) && !Whole(name, '/', k)
    ensures t == Join(Parts(name)[..k]) + "/"
  {
    hide Tokens, Join;
    var p := Parts(name);
    SingleSlashForm(name);
    JoinSplit(p[..k], p[k..]);
    assert p == p[..k] + p[k..];
    JoinEnds(p[..k]);
    JoinEnds(p[k..]);
    JoinNone();
    var f := |Join(p[..k])|;
    assert name[..f] == Join(p[..k]);
    TokensOfJoin(p[..k]);
    assert k == |p| ==> p[k..] == [];
    assert Cut(name, '/', k, f);
    if f <= |t| - 1 {
      CutUnique(name, '/', k, f, |t| - 1);
    } else {
      CutUnique(name, '/', k, |t| - 1, f);
    }
  }

  lemma JoinNone()
    ensures Join([]) == ""
  {
  }

  // ---------- counting slashes ----------

  function Slashes(s: string): nat {
    if s == "" then 0 else Slashes(s[1..]) + if s[0] == '/' then 1 else 0
  }

  lemma {:induction false} SlashesSplit(a: string, b: string)
    ensures Slashes(a + b) == Slashes(a) + Slashes(b)
  {
    if a == "" {
      assert a + b == b;
    } else {
      assert (a + b)[1..] == a[1..] + b;
      SlashesSplit(a[1..], b);
    }
  }

  lemma {:induction false} NoSlashes(c: string)
    requires '/' !in c
    ensures Slashes(c) == 0
  {
    if c != "" {
      NoSlashes(c[1..]);
    }
  }

  /** A joined path has as many slashes as components. */
  lemma {:induction false} SlashesOfJoin(cs: Path)
    requires Components(cs, '/')
    ensures Slashes(Join(cs)) == |cs|
  {
    if cs != [] {
      assert Join(cs) == "/" + cs[0] + Join(cs[1..]);
      assert Component(cs[0], '/');
      NoSlashes(cs[0]);
      SlashesSplit("/" + cs[0], Join(cs[1..]));
      SlashesSplit("/", cs[0]);
      SlashesOfJoin(cs[1..]);
    }
  }

  function TrimHead(m: string): string {
    if m != "" && m[0] == '/' then m[1..] else m
  }

  function TrimTail(m: string): string {
    if m != "" && m[|m| - 1] == '/' then m[..|m| - 1] else m
  }

  lemma Trims(r: string, tail: string)
    requires r != "" && r[0] != '/' && r[|r| - 1] != '/' && (tail == "" || tail == "/")
    ensures TrimTail("/" + r + tail) == "/" + r && TrimTail(r + tail) == r
    ensures TrimHead("/" + r) == TrimHead(r) == r
    ensures TrimHead("/" + r + tail) == TrimHead(r + tail) == r + tail
  {
  }

  /** What is left of a joined path after its first slash. */
  lemma RestOfJoin(cs: Path) returns (r: string)
    requires Components(cs, '/') && cs != []
    ensures Join(cs) == "/" + r && r != "" && r[0] != '/' && r[|r| - 1] != '/'
    ensures Slashes(r) == |cs| - 1
  {
    r := Join(cs)[1..];
    assert Component(cs[0], '/') && Join(cs) == "/" + cs[0] + Join(cs[1..]);
    assert r == cs[0] + Join(cs[1..]);
    JoinEnds(cs);
    SlashesOfJoin(cs[1..]);
    NoSlashes(cs[0]);
    SlashesSplit(cs[0], Join(cs[1..]));
  }

  /**
   * The spelling tells the state: the populated part is the whole name, or the slashes left in the missing part
   * count the components that are missing besides the last.
   */
  lemma MissingText(name: string, k: nat, j: nat, t: string)
    requires SingleSlash(name) && k <= j <= |Parts(name)| && Known(name, k, t)
    ensures var p := Parts(name); var e := Extend(t, p[k..j]);
      && e <= name
      && (e == name <==> j == |p| && (Trailing(name) ==> k == |p| && p != []))
      && (e != name ==>
        var m := name[|e|..];
        && m != ""
        && (Slashes(TrimHead(TrimTail(m))) == 0 <==> |p| - j <= 1)
        && (Slashes(TrimHead(m)) == 0 <==> |p| - j == 0 || (|p| - j == 1 && !Trailing(name))))
  {
    hide Parts, Join, Known, Slashes, Extend, TrimHead, TrimTail;
    var p := Parts(name);
    PopulatedText(name, k, j, t);
    SingleSlashForm(name);
    JoinSplit(p[..j], p[j..]);
    assert p == p[..j] + p[j..];
    JoinNone();
    NoSlashes("");
    if j < |p| {
      var r := RestOfJoin(p[j..]);
      Trims(r, Tail(name));
      SlashesSplit(r, Tail(name));
      OneSlash();
      var m := name[|Extend(t, p[k..j])|..];
      assert m == if 0 < k == j then r + Tail(name) else "/" + r + Tail(name);
      assert |p| - j == 1 <==> Slashes(r) == 0;
    } else {
      assert p[j..] == [] && p[..j] == p;
      OneSlash();
      assert Extend(t, p[k..j]) != name ==> name[|Extend(t, p[k..j])|..] == "/";
    }
  }

  lemma OneSlash()
    ensures Slashes("/") == 1 && TrimHead("/") == "" && TrimTail("/") == "" && TrimHead("") == ""
  {
  }

  // ---------- names with any number of slashes ----------

  /** What polishing leaves, and so what every call works on: a path from the root, or nothing at all. */
  predicate FromRoot(name: string) {
    name == "" || name[0] == '/'
  }

  lemma KnownPartIsKnown(name: string, k: nat)
    requires k <= |Parts(name)|
    ensures Known(name, k, KnownPart(name, k))
  {
    hide Tokens;
    if k == 0 {
      if Whole(name, '/', k) {
        HasToken(name, '/', |name| - 1);
      }
    } else {
      EndOfCuts(name, '/', k);
      var e := EndOf(name, '/', k);
      if e == |name| {
        assert name[..e] == name;
        assert |Parts(name)[..k]| == |Parts(name)|;
      } else if Whole(name, '/', k) {
        RestIsEmpty(name, k, e);
      }
    }
  }

  /** Joining with single slashes is the shortest way to spell a path, and the only one of its length. */
  lemma {:induction false} Shortest(r: string)
    requires Parts(r) != []
    ensures |Join(Parts(r))| <= |r| + 1
    ensures |Join(Parts(r))| == |r| + 1 <==> r == Join(Parts(r))[1..]
    decreases |r|
  {
    var n := FirstDelim(r, '/');
    TokensOfPiece("", '/');
    TokensStep(r, '/');
    TokensAreComponents(r, '/');
    var cs, rest := Parts(r), AfterDelim(r, n);
    hide Tokens, FirstDelim, Join;
    if n == 0 {
      Shortest(rest);
      JoinHead(cs);
    } else if Parts(rest) == [] {
      JoinHead(cs);
      JoinNone();
      assert cs[1..] == [];
      assert n == |r| ==> r[..n] == r;
    } else {
      Shortest(rest);
      JoinHead(cs);
      assert cs[1..] == Parts(rest) && cs[0] == r[..n];
      JoinHead(Parts(rest));
      ShortestStep(r, n, rest, Join(cs), Join(Parts(rest)));
    }
  }

  lemma JoinHead(cs: Path)
    requires Components(cs, '/') && cs != []
    ensures Join(cs) == "/" + cs[0] + Join(cs[1..]) && cs[0] != "" && Join(cs)[1] != '/' && Join(cs)[0] == '/'
  {
    assert Component(cs[0], '/');
  }

  lemma ShortestStep(r: string, n: nat, rest: string, j: string, j': string)
    requires n < |r| && r[n] == '/' && rest == r[n + 1..] && j == "/" + r[..n] + j' && j' != "" && j'[0] == '/'
    ensures |j| - |r| == |j'| - |rest| && (r == j[1..] <==> rest == j'[1..])
  {
    assert r == r[..n] + "/" + rest;
    assert j[1..] == r[..n] + j';
    assert j' == "/" + j'[1..];
    assert j[1..][n + 1..] == j'[1..];
  }

  /** From the k-th component on, the name has single slashes only, and none at its end. */
  predicate SinglyFrom(name: string, k: nat)
    requires k < |Parts(name)|
  {
    name == Slashed(KnownPart(name, k)) + Join(Parts(name)[k..])[1..]
  }

  /** What follows the known part and its slash holds the components that are not known. */
  lemma RestOfName(name: string, k: nat)
    requires FromRoot(name) && k < |Parts(name)|
    ensures var u := Slashed(KnownPart(name, k)); u <= name && Parts(name[|u|..]) == Parts(name)[k..]
    ensures KnownPart(name, k) <= name
  {
    hide Tokens;
    KnownPartIsKnown(name, k);
    KnownSplits(name, k, KnownPart(name, k));
    TokensOfPiece("", '/');
    if k == 0 {
      assert name == "" + ['/'] + name[1..];
      TokensSplit("", name[1..], '/');
      assert Parts(name)[0..] == Parts(name);
    }
  }

  /** How the text grows while the components from k to j are found. */
  lemma GrownText(name: string, k: nat, j: nat)
    requires FromRoot(name) && k < j <= |Parts(name)|
    ensures var p, t := Parts(name), KnownPart(name, k); var e := Extend(t, p[k..j]);
      |e| <= |name| && (|e| == |name| <==> j == |p| && SinglyFrom(name, k)) && (|e| == |name| ==> e == name)
  {
    var p, u := Parts(name), Slashed(KnownPart(name, k));
    RestOfName(name, k);
    TokensAreComponents(name, '/');
    var r := name[|u|..];
    Shortest(r);
    SinglyIs(name, k);
    hide *;
    ExtendIsJoin(KnownPart(name, k), p[k..j]);
    JoinedPart(p, k, j);
    GrownLength(name, u, r, Join(p[k..]), Join(p[k..j]), j == |p|);
  }

  lemma SinglyIs(name: string, k: nat)
    requires k < |Parts(name)|
    ensures SinglyFrom(name, k) <==> name == Slashed(KnownPart(name, k)) + Join(Parts(name)[k..])[1..]
  {
  }

  lemma JoinedPart(p: Path, k: nat, j: nat)
    requires Components(p, '/') && k < j <= |p|
    ensures Components(p[k..j], '/') && p[k..j] != [] && Join(p[k..j]) != "" && Join(p[k..]) != ""
    ensures |Join(p[k..j])| <= |Join(p[k..])| && (j < |p| <==> |Join(p[k..j])| < |Join(p[k..])|)
    ensures j == |p| ==> Join(p[k..j]) == Join(p[k..])
  {
    assert Components(p[k..j], '/') && Components(p[j..], '/') && Components(p[k..], '/');
    JoinEnds(p[k..j]);
    JoinEnds(p[j..]);
    hide Join;
    assert p[k..j] + p[j..] == p[k..];
    JoinSplit(p[k..j], p[j..]);
    JoinNone();
    if j == |p| {
      assert p[j..] == [] && p[k..j] == p[k..];
    }
  }

  lemma GrownLength(name: string, u: string, r: string, whole: string, part: string, all: bool)
    requires u <= name && r == name[|u|..] && whole != "" && part != "" && |part| <= |whole|
    requires |whole| <= |r| + 1 && (|whole| == |r| + 1 <==> r == whole[1..])
    requires (all ==> part == whole) && (!all ==> |part| < |whole|)
    ensures |u + part[1..]| <= |name| && (|u + part[1..]| == |name| <==> all && name == u + whole[1..])
    ensures |u + part[1..]| == |name| ==> u + part[1..] == name
  {
    assert name == u + r;
    SamePrefix(u, r, whole[1..]);
  }

  lemma SamePrefix(u: string, a: string, b: string)
    ensures u + a == u + b <==> a == b
  {
    assert (u + a)[|u|..] == a && (u + b)[|u|..] == b;
  }

  /** The text spells the whole name exactly when every component is found and no slash is left over. */
  lemma Spelling(name: string, k: nat, j: nat)
    requires FromRoot(name) && k <= j <= |Parts(name)|
    ensures var p, t := Parts(name), KnownPart(name, k); var e := Extend(t, p[k..j]);
      && t <= name && t <= e && |e| <= |name| && (|e| == |name| <==> e == name)
      && (e == name <==> j == |p| && if k == |p| then Exact(name) else SinglyFrom(name, k))
  {
    var p, t := Parts(name), KnownPart(name, k);
    KnownPartIsKnown(name, k);
    KnownSplits(name, k, t);
    ExtendGrows(t, p[k..j]);
    KnownWhole(name, k, t);
    hide Parts, KnownPart, Known, Exact, SinglyFrom;
    if k == j {
      ExtendNone(t);
      assert p[k..j] == [];
    } else {
      GrownText(name, k, j);
    }
  }

  lemma ExtendNone(e: string)
    ensures Extend(e, []) == e
  {
  }

  lemma {:induction false} ExtendParts(e: string, cs: Path)
    requires Components(cs, '/')
    ensures Parts(Extend(e, cs)) == Parts(e) + cs
    decreases |cs|
  {
    hide Parts;
    if cs != [] {
      var init := cs[..|cs| - 1];
      ExtendParts(e, init);
      SlashedTokens(Extend(e, init), cs[|cs| - 1]);
    }
  }

  /** The text of what is known and found has just those components. */
  lemma ExtendedParts(name: string, k: nat, j: nat)
    requires k <= j <= |Parts(name)|
    ensures Parts(Extend(KnownPart(name, k), Parts(name)[k..j])) == Parts(name)[..j]
  {
    hide *;
    var p := Parts(name);
    KnownPartIsKnown(name, k);
    KnownSplits(name, k, KnownPart(name, k));
    SliceOfParts(name, k, j);
    ExtendParts(KnownPart(name, k), p[k..j]);
  }

  lemma SliceOfParts(name: string, k: nat, j: nat)
    requires k <= j <= |Parts(name)|
    ensures Components(Parts(name)[k..j], '/') && Parts(name)[..k] + Parts(name)[k..j] == Parts(name)[..j]
  {
    TokensAreComponents(name, '/');
    hide Tokens;
  }

  // ---------- slashes at the end ----------

  function TrailingSlashes(name: string): (n: nat)
    ensures n <= |name|
  {
    if Trailing(name) then 1 + TrailingSlashes(name[..|name| - 1]) else 0
  }

  /** The slashes at the end of a name that no known text covers: all but one after a component, all of them after
      none. */
  function Surplus(name: string): nat {
    var n := TrailingSlashes(name);
    if n == 0 || Parts(name) == [] then n else n - 1
  }

  predicate AllSlashes(s: string) {
    forall i :: 0 <= i < |s| ==> s[i] == '/'
  }

  lemma {:induction false} TrailingIs(name: string, i: nat)
    requires i <= |name| && AllSlashes(name[i..]) && (i == 0 || name[i - 1] != '/')
    ensures TrailingSlashes(name) == |name| - i
    decreases |name|
  {
    if i < |name| {
      var init := name[..|name| - 1];
      assert name[|name| - 1] == name[i..][|name| - 1 - i];
      forall l | 0 <= l < |init[i..]| ensures init[i..][l] == '/' {
        assert init[i..][l] == name[i..][l];
      }
      TrailingIs(init, i);
    }
  }

  /** When every component is known, what is left of the name are the surplus slashes. */
  lemma KnownRest(name: string)
    ensures var t := KnownPart(name, |Parts(name)|);
      && t <= name && AllSlashes(name[|t|..]) && |name| - |t| == Surplus(name) && (Exact(name) <==> Surplus(name) == 0)
  {
    hide Tokens;
    var n := |Parts(name)|;
    var t := KnownPart(name, n);
    KnownPartIsKnown(name, n);
    KnownSplits(name, n, t);
    KnownWhole(name, n, t);
    var r := name[|t|..];
    assert Parts(r) == [];
    NoToken(r, '/');
    if n == 0 {
      TrailingIs(name, 0);
      assert name[0..] == name;
    } else {
      EndOfCuts(name, '/', n);
      var e := EndOf(name, '/', n);
      assert e < |name| ==> name[e..] == ['/'] + r;
      TrailingIs(name, e);
    }
  }

  /** How many of m slashes are still there after the trimming. */
  lemma TrimmedSlashes(m: string)
    requires AllSlashes(m)
    ensures Slashes(TrimHead(TrimTail(m))) == 0 <==> |m| <= 2
    ensures Slashes(TrimHead(m)) == 0 <==> |m| <= 1
  {
    SlashesAll(TrimHead(TrimTail(m)));
    SlashesAll(TrimHead(m));
  }

  lemma {:induction false} SlashesAll(m: string)
    requires AllSlashes(m)
    ensures Slashes(m) == |m|
  {
    if m != "" {
      SlashesAll(m[1..]);
    }
  }
}
