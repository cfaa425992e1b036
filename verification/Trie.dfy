/** adt/fs_trie.c: a tree of named nodes, used as a set of paths. */
module Trie {
  import opened Options
  import opened PathText

  /** A node: its list of children, and the node on whose list it is itself. */
  datatype Node<T> = Node(key: string, children: seq<nat>, owner: nat, data: T)

  type Path = seq<string>

  const TRIE_OK := 0
  const TRIE_MANY := 2
  const TRIE_ERR := -1

  const ROOT: nat := 0

  /** list_remove: the list without its first occurrence of n. */
  function Unlink(ns: seq<nat>, n: nat): (r: seq<nat>) {
    if ns == [] then [] else if ns[0] == n then ns[1..] else [ns[0]] + Unlink(ns[1..], n)
  }

  predicate NoRepeats(ns: seq<nat>) {
    forall i, j :: 0 <= i < j < |ns| ==> ns[i] != ns[j]
  }

  lemma {:induction false} UnlinkKeeps(ns: seq<nat>, n: nat)
    requires NoRepeats(ns)
    ensures NoRepeats(Unlink(ns, n))
    ensures forall m :: m in Unlink(ns, n) <==> m in ns && m != n
  {
    if ns != [] {
      var rest := Unlink(ns[1..], n);
      UnlinkKeeps(ns[1..], n);
      assert forall m :: m in ns <==> m == ns[0] || m in ns[1..];
      assert ns[0] !in ns[1..];
      assert ns[0] != n ==> Unlink(ns, n)[1..] == rest;
    }
  }

  // ---------- the shape of the tree ----------

  /** Every node has a path of its own, and every path its node. */
  ghost predicate Named<T>(heap: map<nat, Node<T>>, path: map<nat, Path>, at: map<Path, nat>) {
    && (forall n :: n in heap ==> n in path && path[n] in at && at[path[n]] == n)
    && (forall p :: p in at ==> at[p] in heap && at[p] in path && path[at[p]] == p)
  }

  /** n is on its owner's list, and its path is one component longer. */
  ghost predicate Hangs<T>(heap: map<nat, Node<T>>, path: map<nat, Path>, d: char, n: nat)
    requires n in heap
  {
    var o := heap[n].owner;
    && o in heap && n in heap[o].children
    && n in path && o in path && path[n] == path[o] + [heap[n].key] && Component(heap[n].key, d)
  }

  /** Every node but the root hangs on another. */
  ghost predicate Linked<T>(heap: map<nat, Node<T>>, path: map<nat, Path>, d: char) {
    && ROOT in heap && ROOT in path && path[ROOT] == []
    && forall n {:trigger Hangs(heap, path, d, n)} :: n in heap && n != ROOT ==> Hangs(heap, path, d, n)
  }

  /** What a node lists are nodes, which name it as their owner, and no list repeats a node. */
  ghost predicate Listed<T>(heap: map<nat, Node<T>>) {
    && (forall n, c :: n in heap && c in heap[n].children ==> c in heap && c != ROOT && heap[c].owner == n)
    && (forall n :: n in heap ==> NoRepeats(heap[n].children))
  }

  ghost predicate Tree<T>(heap: map<nat, Node<T>>, path: map<nat, Path>, at: map<Path, nat>, d: char) {
    Named(heap, path, at) && Linked(heap, path, d) && Listed(heap)
  }

  /** The data at every path. */
  ghost function DataAt<T>(heap: map<nat, Node<T>>, at: map<Path, nat>): map<Path, T>
    requires forall p :: p in at ==> at[p] in heap
  {
    map p | p in at :: heap[at[p]].data
  }

  /** Siblings have different keys. */
  lemma SiblingsDiffer<T>(heap: map<nat, Node<T>>, path: map<nat, Path>, at: map<Path, nat>, d: char, n: nat, i: nat,
                          j: nat)
    requires Tree(heap, path, at, d) && n in heap && i < j < |heap[n].children|
    ensures heap[n].children[i] in heap && heap[n].children[j] in heap
    ensures heap[heap[n].children[i]].key != heap[heap[n].children[j]].key
  {
    var a, b := heap[n].children[i], heap[n].children[j];
    assert a in heap[n].children && b in heap[n].children;
    assert a != b;
    assert Hangs(heap, path, d, a) && Hangs(heap, path, d, b);
  }

  /** A child with key k is the node of the path one component longer. */
  lemma ChildIs<T>(heap: map<nat, Node<T>>, path: map<nat, Path>, at: map<Path, nat>, d: char, n: nat, c: nat)
    requires Tree(heap, path, at, d) && n in heap && c in heap[n].children
    ensures c in heap && n in path && c in path && path[c] == path[n] + [heap[c].key] && path[c] in at
      && at[path[c]] == c
    ensures Component(heap[c].key, d)
  {
    assert Hangs(heap, path, d, c);
  }

  /** The node of the path one component longer is a child with that key. */
  lemma IsChild<T>(heap: map<nat, Node<T>>, path: map<nat, Path>, at: map<Path, nat>, d: char, n: nat, k: string)
    requires Tree(heap, path, at, d) && n in heap && n in path && path[n] + [k] in at
    ensures at[path[n] + [k]] in heap && heap[at[path[n] + [k]]].key == k && at[path[n] + [k]] in heap[n].children
    ensures Component(k, d)
  {
    var p := path[n] + [k];
    var c := at[p];
    assert c != ROOT && Hangs(heap, path, d, c);
    var o := heap[c].owner;
    assert p[..|p| - 1] == path[n] && p[..|p| - 1] == path[o];
    assert o == n;
  }

  /** The paths of a tree are closed under prefixes. */
  lemma {:induction false} PrefixClosed<T>(heap: map<nat, Node<T>>, path: map<nat, Path>, at: map<Path, nat>,
                                           d: char, p: Path, k: nat)
    requires Tree(heap, path, at, d) && p in at && k <= |p|
    ensures p[..k] in at && Components(p, d)
    decreases |p|
  {
    if p == [] {
      assert p[..k] == p;
    } else {
      var n := at[p];
      assert n != ROOT && Hangs(heap, path, d, n);
      var o := path[heap[n].owner];
      assert o == p[..|p| - 1] && o in at;
      PrefixClosed(heap, path, at, d, o, if k < |p| then k else 0);
      assert k < |p| ==> o[..k] == p[..k];
      assert k == |p| ==> p[..k] == p;
      assert p == o + [heap[n].key];
    }
  }

  // ---------- linking and unlinking a leaf ----------

  function Linking<T>(heap: map<nat, Node<T>>, n: nat, c: nat, key: string, data: T): map<nat, Node<T>>
    requires n in heap
  {
    heap[n := heap[n].(children := heap[n].children + [c])][c := Node(key, [], n, data)]
  }

  lemma LinkingNames<T>(heap: map<nat, Node<T>>, path: map<nat, Path>, at: map<Path, nat>, n: nat, c: nat,
                        key: string, data: T)
    requires Named(heap, path, at) && n in heap && c !in heap && path[n] + [key] !in at
    ensures Named(Linking(heap, n, c, key, data), path[c := path[n] + [key]], at[path[n] + [key] := c])
  {
    assert forall m :: m in Linking(heap, n, c, key, data) <==> m in heap || m == c;
  }

  lemma LinkingLinks<T>(heap: map<nat, Node<T>>, path: map<nat, Path>, d: char, n: nat, c: nat, key: string, data: T)
    requires Linked(heap, path, d) && n in heap && c !in heap && n in path && Component(key, d)
    ensures Linked(Linking(heap, n, c, key, data), path[c := path[n] + [key]], d)
  {
    var h, ps := Linking(heap, n, c, key, data), path[c := path[n] + [key]];
    forall m | m in h && m != ROOT ensures Hangs(h, ps, d, m) {
      if m != c {
        assert Hangs(heap, path, d, m);
      }
    }
  }

  lemma LinkingLists<T>(heap: map<nat, Node<T>>, n: nat, c: nat, key: string, data: T)
    requires Listed(heap) && ROOT in heap && n in heap && c !in heap
    ensures Listed(Linking(heap, n, c, key, data))
  {
    var h := Linking(heap, n, c, key, data);
    forall m, e | m in h && e in h[m].children ensures e in h && e != ROOT && h[e].owner == m {
      if e != c {
        assert m in heap && e in heap[m].children;
      }
    }
    forall m | m in h ensures NoRepeats(h[m].children) {
      if m == n {
        assert forall i :: 0 <= i < |heap[n].children| ==> heap[n].children[i] in heap[n].children;
      } else if m != c {
        assert h[m] == heap[m];
      }
    }
  }

  lemma LinkingKeepsTree<T>(heap: map<nat, Node<T>>, path: map<nat, Path>, at: map<Path, nat>, d: char, n: nat,
                            c: nat, key: string, data: T)
    requires Tree(heap, path, at, d) && n in heap && c !in heap && Component(key, d)
    requires n in path && path[n] + [key] !in at
    ensures Tree(Linking(heap, n, c, key, data), path[c := path[n] + [key]], at[path[n] + [key] := c], d)
  {
    LinkingNames(heap, path, at, n, c, key, data);
    LinkingLinks(heap, path, d, n, c, key, data);
    LinkingLists(heap, n, c, key, data);
    hide Named, Listed, Linking;
  }

  lemma LinkingKeys<T>(heap: map<nat, Node<T>>, n: nat, c: nat, key: string, data: T)
    requires n in heap
    ensures forall m :: m in Linking(heap, n, c, key, data) <==> m in heap || m == c
  {
  }

  lemma LinkingView<T>(heap: map<nat, Node<T>>, path: map<nat, Path>, at: map<Path, nat>, n: nat, c: nat,
                       key: string, data: T)
    requires Named(heap, path, at) && n in heap && c !in heap && path[n] + [key] !in at
    ensures var h, a := Linking(heap, n, c, key, data), at[path[n] + [key] := c];
      && (forall p :: p in a ==> a[p] in h)
      && DataAt(h, a) == DataAt(heap, at)[path[n] + [key] := data]
  {
    var h, a := Linking(heap, n, c, key, data), at[path[n] + [key] := c];
    assert forall p :: p in a ==> a[p] in h;
    assert forall p :: p in at ==> h[a[p]].data == heap[at[p]].data;
  }

  function Unlinking<T>(heap: map<nat, Node<T>>, n: nat): map<nat, Node<T>>
    requires n in heap && heap[n].owner in heap
  {
    var o := heap[n].owner;
    heap[o := heap[o].(children := Unlink(heap[o].children, n))] - {n}
  }

  lemma UnlinkingLinks<T>(heap: map<nat, Node<T>>, path: map<nat, Path>, d: char, n: nat)
    requires Linked(heap, path, d) && Listed(heap) && n in heap && n != ROOT && heap[n].children == []
    ensures heap[n].owner in heap && Linked(Unlinking(heap, n), path - {n}, d)
  {
    assert Hangs(heap, path, d, n);
    var o := heap[n].owner;
    UnlinkKeeps(heap[o].children, n);
    var h, ps := Unlinking(heap, n), path - {n};
    forall m | m in h && m != ROOT ensures Hangs(h, ps, d, m) {
      assert Hangs(heap, path, d, m);
    }
  }

  lemma UnlinkingLists<T>(heap: map<nat, Node<T>>, n: nat)
    requires Listed(heap) && n in heap && heap[n].owner in heap && n != ROOT && n in heap[heap[n].owner].children
    ensures Listed(Unlinking(heap, n))
  {
    var o, h := heap[n].owner, Unlinking(heap, n);
    UnlinkKeeps(heap[o].children, n);
    forall m, e | m in h && e in h[m].children ensures e in h && e != ROOT && h[e].owner == m {
      assert e in heap[m].children;
    }
    forall m | m in h ensures NoRepeats(h[m].children) {
      assert m != o ==> h[m] == heap[m];
    }
  }

  lemma UnlinkingKeepsTree<T>(heap: map<nat, Node<T>>, path: map<nat, Path>, at: map<Path, nat>, d: char, n: nat)
    requires Tree(heap, path, at, d) && n in heap && n != ROOT && heap[n].children == []
    ensures heap[n].owner in heap && n in path
    ensures Tree(Unlinking(heap, n), path - {n}, at - {path[n]}, d)
  {
    assert Hangs(heap, path, d, n);
    UnlinkingLinks(heap, path, d, n);
    UnlinkingLists(heap, n);
    UnlinkingNames(heap, path, at, n);
    hide Named, Linked, Listed, Unlinking;
  }

  lemma UnlinkingNames<T>(heap: map<nat, Node<T>>, path: map<nat, Path>, at: map<Path, nat>, n: nat)
    requires Named(heap, path, at) && n in heap && heap[n].owner in heap
    ensures n in path && Named(Unlinking(heap, n), path - {n}, at - {path[n]})
  {
    UnlinkingKeys(heap, n);
    hide Unlinking;
  }

  lemma UnlinkingKeys<T>(heap: map<nat, Node<T>>, n: nat)
    requires n in heap && heap[n].owner in heap
    ensures forall m :: m in Unlinking(heap, n) <==> m in heap && m != n
  {
  }

  function Putting<T>(heap: map<nat, Node<T>>, n: nat, data: T): map<nat, Node<T>>
    requires n in heap
  {
    heap[n := heap[n].(data := data)]
  }

  lemma PutLists<T>(heap: map<nat, Node<T>>, n: nat, data: T)
    requires Listed(heap) && n in heap
    ensures Listed(Putting(heap, n, data))
  {
    var h := Putting(heap, n, data);
    assert forall m :: m in h <==> m in heap;
    assert forall m :: m in h ==> h[m].children == heap[m].children && h[m].owner == heap[m].owner;
    forall m, c | m in h && c in h[m].children ensures c in h && c != ROOT && h[c].owner == m {
      assert c in heap[m].children;
    }
  }

  lemma PutLinks<T>(heap: map<nat, Node<T>>, path: map<nat, Path>, d: char, n: nat, data: T)
    requires Linked(heap, path, d) && n in heap
    ensures Linked(Putting(heap, n, data), path, d)
  {
    var h := Putting(heap, n, data);
    forall m | m in h && m != ROOT ensures Hangs(h, path, d, m) {
      assert Hangs(heap, path, d, m);
    }
  }

  lemma PutKeepsTree<T>(heap: map<nat, Node<T>>, path: map<nat, Path>, at: map<Path, nat>, d: char, n: nat, data: T)
    requires Tree(heap, path, at, d) && n in heap
    ensures Tree(Putting(heap, n, data), path, at, d)
  {
    PutLists(heap, n, data);
    PutLinks(heap, path, d, n, data);
    hide Listed, Linked;
  }

  lemma PutView<T>(heap: map<nat, Node<T>>, path: map<nat, Path>, at: map<Path, nat>, n: nat, data: T)
    requires Named(heap, path, at) && n in heap
    ensures path[n] in at && DataAt(Putting(heap, n, data), at) == DataAt(heap, at)[path[n] := data]
  {
    var h := Putting(heap, n, data);
    var v, w := DataAt(h, at), DataAt(heap, at)[path[n] := data];
    assert path[n] in at;
    forall p ensures p in v <==> p in w {
    }
    forall p | p in v ensures v[p] == w[p] {
      if at[p] == n {
        assert path[at[p]] == p;
      }
    }
  }

  // ---------- the whole structure ----------

  /** The nodes form a tree, next is not in use yet, and no path is longer than depth. */
  ghost predicate Fits<T>(heap: map<nat, Node<T>>, path: map<nat, Path>, at: map<Path, nat>, d: char, next: nat,
                          depth: nat) {
    && Tree(heap, path, at, d)
    && (forall n :: n in heap ==> n < next)
    && (forall p :: p in at ==> |p| <= depth)
  }

  lemma LinkingFits<T>(heap: map<nat, Node<T>>, path: map<nat, Path>, at: map<Path, nat>, d: char, next: nat,
                       depth: nat,
                       n: nat, key: string, data: T)
    requires Fits(heap, path, at, d, next, depth) && n in heap && Component(key, d)
    requires n in path && path[n] + [key] !in at
    ensures var h, a := Linking(heap, n, next, key, data), at[path[n] + [key] := next];
      && Fits(h, path[next := path[n] + [key]], a, d, next + 1, depth + |path[n]| + 1)
      && next in h
      && (forall p :: p in at ==> at[p] in heap) && (forall p :: p in a ==> a[p] in h)
      && DataAt(h, a) == DataAt(heap, at)[path[n] + [key] := data]
  {
    LinkingKeepsTree(heap, path, at, d, n, next, key, data);
    LinkingKeys(heap, n, next, key, data);
    LinkingView(heap, path, at, n, next, key, data);
    hide Linked, Listed, Linking, DataAt;
  }

  lemma UnlinkingFits<T>(heap: map<nat, Node<T>>, path: map<nat, Path>, at: map<Path, nat>, d: char, next: nat,
                         depth: nat, n: nat)
    requires Fits(heap, path, at, d, next, depth) && n in heap && n != ROOT && heap[n].children == []
    ensures heap[n].owner in heap && n in path
    ensures Fits(Unlinking(heap, n), path - {n}, at - {path[n]}, d, next, depth)
  {
    UnlinkingKeepsTree(heap, path, at, d, n);
    UnlinkingKeys(heap, n);
    hide Tree, Unlinking;
  }

  lemma PutFits<T>(heap: map<nat, Node<T>>, path: map<nat, Path>, at: map<Path, nat>, d: char, next: nat, depth: nat,
                   n: nat, data: T)
    requires Fits(heap, path, at, d, next, depth) && n in heap
    ensures Fits(Putting(heap, n, data), path, at, d, next, depth)
  {
    PutKeepsTree(heap, path, at, d, n, data);
    hide Tree;
  }

  // ---------- removing a subtree ----------

  /** h1 is h0 without some of the nodes strictly below n, whose path is p. */
  ghost predicate Trimmed<T>(h0: map<nat, Node<T>>, p0: map<nat, Path>, h1: map<nat, Node<T>>, p1: map<nat, Path>,
                             n: nat, p: Path) {
    && (forall m :: m in h1 ==>
      && m in h0 && m in p0 && m in p1 && p1[m] == p0[m]
      && h1[m].key == h0[m].key && h1[m].owner == h0[m].owner && h1[m].data == h0[m].data)
    && n in h1
    && (forall m :: m in h0 && m in p0 && m != n && !(p <= p0[m]) ==> m in h1 && h1[m] == h0[m])
  }

  /** h1 is h0 without n, whose path is p, and everything below it. */
  ghost predicate Removed<T>(h0: map<nat, Node<T>>, p0: map<nat, Path>, h1: map<nat, Node<T>>, p1: map<nat, Path>,
                             n: nat, p: Path) {
    && n in h0
    && (forall m :: m in h1 <==> m in h0 && m in p0 && !(p <= p0[m]))
    && (forall m :: m in h1 ==> m in p1 && p1[m] == p0[m])
    && (forall m :: m in h1 && m != h0[n].owner ==> h1[m] == h0[m])
    && (h0[n].owner in h1 ==>
      && h0[n].owner in h0
      && h1[h0[n].owner] == h0[h0[n].owner].(children := Unlink(h0[h0[n].owner].children, n)))
  }

  lemma TrimStep<T>(h0: map<nat, Node<T>>, p0: map<nat, Path>, h1: map<nat, Node<T>>, p1: map<nat, Path>,
                    h2: map<nat, Node<T>>, p2: map<nat, Path>, n: nat, p: Path, c: nat, k: string)
    requires Trimmed(h0, p0, h1, p1, n, p) && p1[n] == p && c in h1 && h1[c].owner == n
    requires Removed(h1, p1, h2, p2, c, p + [k])
    ensures Trimmed(h0, p0, h2, p2, n, p) && n in p2 && p2[n] == p
    ensures h2[n].children == Unlink(h1[n].children, c)
  {
    assert !(p + [k] <= p);
  }

  lemma TrimDone<T>(heap: map<nat, Node<T>>, path: map<nat, Path>, at: map<Path, nat>, d: char, n: nat, m: nat)
    requires Tree(heap, path, at, d) && n in heap && n in path && heap[n].children == []
    requires m in heap && m in path && path[n] <= path[m]
    ensures m == n
  {
    if m != n {
      var p, q := path[n], path[m];
      assert q[..|p|] == p;
      assert q[..|q|] == q;
      if |q| > |p| {
        PrefixClosed(heap, path, at, d, q, |p| + 1);
        assert q[..|p| + 1] == p + [q[|p|]];
        IsChild(heap, path, at, d, n, q[|p|]);
      }
    }
  }

  lemma TrimRemoves<T>(h0: map<nat, Node<T>>, p0: map<nat, Path>, a0: map<Path, nat>, h1: map<nat, Node<T>>,
                       p1: map<nat, Path>,
                       a1: map<Path, nat>, d: char, n: nat)
    requires Tree(h0, p0, a0, d) && Tree(h1, p1, a1, d)
    requires n in h0 && n != ROOT && n in p0 && Trimmed(h0, p0, h1, p1, n, p0[n]) && h1[n].children == []
    ensures h1[n].owner in h1 && Removed(h0, p0, Unlinking(h1, n), p1 - {n}, n, p0[n])
  {
    assert Hangs(h0, p0, d, n) && Hangs(h1, p1, d, n) && p1[n] == p0[n];
    forall m | m in h1 ensures m in p1 && (p0[n] <= p1[m] ==> m == n) {
      if p0[n] <= p1[m] {
        TrimDone(h1, p1, a1, d, n, m);
      }
    }
    forall m | m in h0 ensures m in p0 {
    }
    hide Tree, Hangs;
    RemovedLast(h0, p0, h1, p1, n);
  }

  lemma RemovedLast<T>(h0: map<nat, Node<T>>, p0: map<nat, Path>, h1: map<nat, Node<T>>, p1: map<nat, Path>, n: nat)
    requires n in h0 && n in p0 && Trimmed(h0, p0, h1, p1, n, p0[n])
    requires h1[n].owner in h1 && h0[n].owner in p0 && |p0[h0[n].owner]| < |p0[n]| && h0[n].owner in h0
    requires (forall m :: m in h1 ==> m in p1 && (p0[n] <= p1[m] ==> m == n)) && (forall m :: m in h0 ==> m in p0)
    ensures Removed(h0, p0, Unlinking(h1, n), p1 - {n}, n, p0[n])
  {
  }

  // ---------- walking down a key ----------

  /** How far a walk down toks gets: the first k of them lead to a node, one more does not. */
  ghost function Reach(v: set<Path>, toks: Path, k: nat): (r: nat)
    requires k <= |toks| && toks[..k] in v
    ensures k <= r <= |toks| && toks[..r] in v
    ensures r < |toks| ==> toks[..r + 1] !in v
    decreases |toks| - k
  {
    if k < |toks| && toks[..k + 1] in v then Reach(v, toks, k + 1) else k
  }

  lemma {:induction false} ReachIs(v: set<Path>, toks: Path, k: nat, r: nat)
    requires k <= r <= |toks| && (forall j :: k <= j <= r ==> toks[..j] in v)
    requires r < |toks| ==> toks[..r + 1] !in v
    ensures Reach(v, toks, k) == r
    decreases r - k
  {
    if k < r {
      assert toks[..k + 1] in v;
      ReachIs(v, toks, k + 1, r);
    }
  }

  /** The k-th token of key ends just before the delimiter at e. */
  predicate Cut(key: string, d: char, k: nat, e: nat) {
    && 0 < e < |key| && key[e] == d && key[e - 1] != d
    && k <= |Tokens(key, d)| && Tokens(key[..e], d) == Tokens(key, d)[..k]
  }

  /** The key is spelled out to its end: it ends in a token, and all tokens are matched. */
  predicate Whole(key: string, d: char, k: nat) {
    key != "" && key[|key| - 1] != d && k == |Tokens(key, d)|
  }

  /** What a walk that matched k tokens leaves in the buffer. */
  ghost predicate Filled(was: seq<char>, now: seq<char>, key: string, d: char, k: nat) {
    |now| == |was| && |key| < |was| &&
    if Whole(key, d, k) then now == key + ['\0'] + was[|key| + 1..]
    else if k == 0 then now == ['\0'] + was[1..]
    else exists e: nat :: Cut(key, d, k, e) && now == key[..e] + [was[e]] + ['\0'] + was[e + 2..]
  }

  lemma TrailingDelim(a: string, d: char)
    ensures Tokens(a + [d], d) == Tokens(a, d)
  {
    TokensSplit(a, "", d);
    assert a + [d] + "" == a + [d];
  }

  /** Where the scanner stands: part is the text since the last delimiter before pos, k tokens lie before it. */
  predicate Scanning(key: string, d: char, pos: nat, start: nat, part: string, k: nat) {
    && start <= pos <= |key| && part == key[start..pos] && d !in part
    && (start == 0 || key[start - 1] == d)
    && k <= |Tokens(key, d)| && Tokens(key[..start], d) == Tokens(key, d)[..k]
  }

  /** The text before start, and the rest after it, together make the tokens of the key. */
  lemma TokensAround(key: string, d: char, start: nat)
    requires start <= |key| && (start == 0 || key[start - 1] == d)
    ensures Tokens(key, d) == Tokens(key[..start], d) + Tokens(key[start..], d)
  {
    hide Tokens;
    if start == 0 {
      assert key[..0] == "" && key[0..] == key;
      TokensOfPiece("", d);
    } else {
      var a := key[..start - 1];
      TrailingDelim(a, d);
      TokensSplit(a, key[start..], d);
      assert key[..start] == a + [d];
      assert key == a + [d] + key[start..];
    }
  }

  lemma ScanChar(key: string, d: char, pos: nat, start: nat, part: string, k: nat)
    requires Scanning(key, d, pos, start, part, k) && pos < |key| && key[pos] != d
    ensures Scanning(key, d, pos + 1, start, part + [key[pos]], k)
  {
  }

  /** The text since the last delimiter is empty just after a delimiter, and at the very start. */
  lemma ScanPart(key: string, d: char, pos: nat, start: nat, part: string, k: nat)
    requires Scanning(key, d, pos, start, part, k)
    ensures part == "" <==> pos == 0 || key[pos - 1] == d
    ensures start + |part| == pos
  {
    assert part != "" ==> part[|part| - 1] == key[pos - 1];
  }

  /** A delimiter right after a delimiter, or at the very start, ends no token. */
  lemma ScanEmpty(key: string, d: char, pos: nat, start: nat, k: nat)
    requires Scanning(key, d, pos, start, "", k) && pos < |key| && key[pos] == d
    ensures start == pos && Scanning(key, d, pos + 1, pos + 1, "", k)
  {
    hide Tokens;
    assert |key[start..pos]| == 0;
    TrailingDelim(key[..pos], d);
    assert key[..pos + 1] == key[..pos] + [d];
  }

  /** A delimiter after some text ends token number k, and cuts the key there. */
  lemma ScanToken(key: string, d: char, pos: nat, start: nat, part: string, k: nat)
    requires Scanning(key, d, pos, start, part, k) && pos < |key| && key[pos] == d && part != ""
    ensures k < |Tokens(key, d)| && Tokens(key, d)[k] == part
    ensures Cut(key, d, k + 1, pos)
    ensures Scanning(key, d, pos + 1, pos + 1, "", k + 1)
  {
    hide Tokens;
    TokensAround(key, d, start);
    TokensAround(key[..pos], d, start);
    TokensOfPiece(part, d);
    TokensSplit(part, key[pos + 1..], d);
    TrailingDelim(key[..pos], d);
    Slices(key, d, pos, start, part);
    assert Tokens(key[start..], d) == [part] + Tokens(key[pos + 1..], d);
    OneMoreToken(Tokens(key, d), k, part, Tokens(key[start..], d));
  }

  lemma Slices(key: string, d: char, pos: nat, start: nat, part: string)
    requires start <= pos < |key| && key[pos] == d && part == key[start..pos] && part != ""
    ensures key[..pos][..start] == key[..start] && key[..pos][start..] == part
    ensures key[start..] == part + [d] + key[pos + 1..] && key[..pos + 1] == key[..pos] + [d]
    ensures 0 < pos && part[|part| - 1] == key[pos - 1]
  {
  }

  lemma OneMoreToken(toks: seq<string>, k: nat, part: string, rest: seq<string>)
    requires k <= |toks| && toks == toks[..k] + rest && rest != [] && rest[0] == part
    ensures k < |toks| && toks[k] == part && toks[..k] + [part] == toks[..k + 1]
  {
  }

  lemma {:induction false} LastIndexIs(s: string, d: char, start: nat)
    requires start <= |s| && (start == 0 || s[start - 1] == d) && d !in s[start..]
    ensures LastIndex(s, d) == if start == 0 then None else Some(start - 1)
    decreases |s|
  {
    if start < |s| {
      var init := s[..|s| - 1];
      assert s[start..] == init[start..] + [s[|s| - 1]];
      LastIndexIs(init, d, start);
    }
  }

  /** At the end of the key, what is left is the last token, if it is not empty. */
  lemma ScanEnd(key: string, d: char, start: nat, part: string, k: nat)
    requires Scanning(key, d, |key|, start, part, k)
    ensures start <= |key| && part == key[start..]
    ensures part == "" ==> k == |Tokens(key, d)| && (key == "" || key[|key| - 1] == d)
    ensures part != "" ==> k + 1 == |Tokens(key, d)| && Tokens(key, d)[k] == part && key[|key| - 1] != d
    ensures LastIndex(key, d).None? ==> start == 0 && part == key && k == 0
    ensures LastIndex(key, d).Some? ==> start == LastIndex(key, d).value + 1
  {
    hide Tokens;
    TokensAround(key, d, start);
    assert key[start..] == part;
    assert key[..0] == "";
    TokensOfPiece("", d);
    TokensOfPiece(part, d);
    assert part != "" ==> part[|part| - 1] == key[|key| - 1];
    LastIndexIs(key, d, start);
  }

  /** The buffer while scanning: the delimiter that cut off the k-th token lies before start. */
  ghost predicate Partly(was: seq<char>, now: seq<char>, key: string, d: char, k: nat, start: nat) {
    |now| == |was| && |key| < |was| &&
    if k == 0 then now == ['\0'] + was[1..]
    else exists e: nat :: e < start && Cut(key, d, k, e) && now == key[..e] + [was[e]] + ['\0'] + was[e + 2..]
  }

  lemma PartlyAtStart(was: seq<char>, now: seq<char>, key: string, d: char)
    requires |key| < |was| && now == ['\0'] + was[1..]
    ensures Partly(was, now, key, d, 0, 0)
  {
  }

  lemma PartlyLater(was: seq<char>, now: seq<char>, key: string, d: char, k: nat, start: nat, later: nat)
    requires Partly(was, now, key, d, k, start) && start <= later
    ensures Partly(was, now, key, d, k, later)
  {
    hide Cut;
  }

  lemma PartlyStep(was: seq<char>, now: seq<char>, key: string, d: char, k: nat, start: nat, c: nat)
    requires Partly(was, now, key, d, k, start) && start < c && Cut(key, d, k + 1, c)
    ensures Partly(was, (key[..c] + now[c..])[c + 1 := '\0'], key, d, k + 1, c + 1)
  {
    hide Cut;
    assert c < |key| by { CutBounds(key, d, k + 1, c); }
    if k > 0 {
      var e: nat :| e < start && Cut(key, d, k, e) && now == key[..e] + [was[e]] + ['\0'] + was[e + 2..];
      CutBounds(key, d, k, e);
    }
    assert now[c..] == was[c..];
    assert (key[..c] + now[c..])[c + 1 := '\0'] == key[..c] + [was[c]] + ['\0'] + was[c + 2..];
  }

  lemma CutBounds(key: string, d: char, k: nat, e: nat)
    requires Cut(key, d, k, e)
    ensures 0 < e < |key|
  {
  }

  lemma PartlyFilled(was: seq<char>, now: seq<char>, key: string, d: char, k: nat, start: nat)
    requires Partly(was, now, key, d, k, start)
    requires key == "" || key[|key| - 1] == d || k < |Tokens(key, d)|
    ensures Filled(was, now, key, d, k)
  {
    hide Cut, Tokens;
  }

  lemma PartlyTail(was: seq<char>, now: seq<char>, key: string, d: char, k: nat, start: nat)
    requires Partly(was, now, key, d, k, start)
    ensures |key| < |was| == |now| && now[|key| + 1..] == was[|key| + 1..]
  {
    if k > 0 {
      var e: nat :| e < start && Cut(key, d, k, e) && now == key[..e] + [was[e]] + ['\0'] + was[e + 2..];
      CutBounds(key, d, k, e);
    }
  }

  lemma WholeFilled(was: seq<char>, now: seq<char>, key: string, d: char, k: nat)
    requires |key| < |was| && key != "" && key[|key| - 1] != d && k == |Tokens(key, d)|
    requires now == key + ['\0'] + was[|key| + 1..]
    ensures Filled(was, now, key, d, k)
  {
  }

  /** Copies the matched part and terminates it, one character after the delimiter's place. */
  method Keep(buff: array<char>, key: string, count: nat)
    requires count < |key| < buff.Length
    modifies buff
    ensures buff[..] == (key[..count] + old(buff[..])[count..])[count + 1 := '\0']
  {
    Copy(buff, 0, key[..count]);
    assert buff[..] == key[..count] + old(buff[..])[count..];
    buff[count + 1] := '\0';
  }

  /** strcpy over the start of the buffer. */
  method Overwrite(buff: array<char>, key: string)
    requires |key| < buff.Length
    modifies buff
    ensures buff[..] == key + ['\0'] + old(buff[..])[|key| + 1..]
  {
    Store(buff, 0, key);
    assert old(buff[..0]) == [];
  }

  /** The text in a zeroed buffer: as much of the key as trie_insert2 need not insert again. */
  predicate FoundText(key: string, d: char, k: nat, t: string) {
    && (t == key <==> Whole(key, d, k) || key == "")
    && (t != key ==> t == "" || Cut(key, d, k, |t|))
    && (t == "" <==> k == 0 && !Whole(key, d, k))
    && t <= key
  }

  lemma FilledText(now: seq<char>, key: string, d: char, k: nat, was: seq<char>) returns (t: string)
    requires NulFree(key) && Filled(was, now, key, d, k) && (forall i :: 0 <= i < |was| ==> was[i] == '\0')
    ensures Holds(now, t) && Text(now) == t && NulFree(t) && FoundText(key, d, k, t)
  {
    hide Tokens;
    if Whole(key, d, k) {
      t := key;
    } else if k == 0 {
      t := "";
    } else {
      var e: nat :| Cut(key, d, k, e) && now == key[..e] + [was[e]] + ['\0'] + was[e + 2..];
      t := key[..e];
    }
    HeldText(now, t);
  }

  lemma TextBounds(key: string, d: char, k: nat, t: string)
    requires FoundText(key, d, k, t) && t != key && NulFree(key) && d != '\0'
    ensures |t| < |key| && t == key[..|t|] && key[|t|] != '\0'
    ensures k > 0 <==> t != ""
  {
    hide Tokens;
    assert key[|t|] in key;
  }

  /** What follows the found text are the tokens the tree could not follow. */
  lemma RestTokens(key: string, d: char, k: nat, t: string)
    requires FoundText(key, d, k, t) && k <= |Tokens(key, d)|
    ensures t == key ==> k == |Tokens(key, d)|
    ensures t != key ==> Tokens(key[|t|..], d) == Tokens(key, d)[k..]
  {
    hide Tokens;
    if key == "" {
      TokensOfPiece("", d);
    } else if t == key {
    } else if t == "" {
      assert key[0..] == key;
    } else {
      var e := |t|;
      assert t == key[..e];
      TokensSplit(key[..e], key[e + 1..], d);
      assert key == key[..e] + [d] + key[e + 1..];
      TokensSplit("", key[e + 1..], d);
      TokensOfPiece("", d);
      assert key[e..] == "" + [d] + key[e + 1..];
    }
  }

  /** v is v0 with the first j tokens added, which was all there is of them; the nodes of v0 are still there. */
  ghost predicate Grown<T>(v0: map<Path, T>, v: map<Path, T>, a0: map<Path, nat>, a: map<Path, nat>, toks: Path,
                           j: nat, data: T) {
    && j <= |toks|
    && (forall i :: j < i <= |toks| ==> toks[..i] !in a && toks[..i] !in v0)
    && (forall p :: p in v <==> p in v0 || (p <= toks && |p| <= j))
    && (forall p :: p in v ==> v[p] == if p in v0 then v0[p] else data)
    && (forall p :: p in a0 ==> p in a && a[p] == a0[p])
  }

  lemma GrownStep<T>(v0: map<Path, T>, v: map<Path, T>, a0: map<Path, nat>, a: map<Path, nat>, toks: Path, j: nat,
                     data: T, c: nat)
    requires Grown(v0, v, a0, a, toks, j, data) && j < |toks|
    requires toks[..j + 1] !in a
    ensures Grown(v0, v[toks[..j + 1] := data], a0, a[toks[..j + 1] := c], toks, j + 1, data)
  {
    assert forall p: Path :: p <= toks && |p| == j + 1 ==> p == toks[..j + 1];
    assert forall i :: j + 1 < i <= |toks| ==> |toks[..i]| != |toks[..j + 1]|;
  }

  class Trie<T> {
    const delim: char
    var heap: map<nat, Node<T>>
    var next: nat
    ghost var depth: nat
    ghost var path: map<nat, Path>
    ghost var at: map<Path, nat>

    ghost predicate Valid()
      reads this
    {
      Fits(heap, path, at, delim, next, depth)
    }

    /** The data at every path of the tree. */
    ghost function View(): map<Path, T>
      reads this
      requires Valid()
    {
      DataAt(heap, at)
    }

    constructor (delim: char, data: T)
      ensures Valid() && this.delim == delim && View() == map[[] := data]
    {
      this.delim := delim;
      heap := map[ROOT := Node([delim], [], ROOT, data)];
      next := 1;
      depth := 0;
      path := map[ROOT := []];
      at := map[[] := ROOT];
    }

    /** trie_find_child. */
    method FindChild(n: nat, key: string) returns (r: Option<nat>)
      requires Valid() && n in heap
      ensures r == if path[n] + [key] in at then Some(at[path[n] + [key]]) else None
      ensures r.Some? ==> Component(key, delim)
    {
      var i := 0;
      while i < |heap[n].children|
        invariant 0 <= i <= |heap[n].children|
        invariant forall j :: 0 <= j < i ==> heap[n].children[j] in heap && heap[heap[n].children[j]].key != key
      {
        var c := heap[n].children[i];
        ChildIs(heap, path, at, delim, n, c);
        if heap[c].key == key {
          return Some(c);
        }
        i := i + 1;
      }
      if path[n] + [key] in at {
        IsChild(heap, path, at, delim, n, key);
        assert false;
      }
      r := None;
    }

    /** trie_find: the node of the path the key spells, if there is one. */
    method Find(key: string) returns (r: Option<nat>)
      requires Valid()
      ensures r == if Tokens(key, delim) in at then Some(at[Tokens(key, delim)]) else None
    {
      hide Tokens, Listed;
      ghost var toks := Tokens(key, delim);
      ghost var k := 0;
      var n := ROOT;
      var s := Strtok(key, delim);
      while s.Some?
        invariant k <= |toks| && n in heap && path[n] == toks[..k]
        invariant match s
                  case None => k == |toks|
                  case Some((t, rest)) => toks[k..] == [t] + Tokens(rest, delim)
        decreases match s case None => 0 case Some((t, rest)) => |rest| + 1
      {
        var (t, rest) := s.value;
        assert t == toks[k] && toks[..k] + [t] == toks[..k + 1];
        var c := FindChild(n, t);
        if c.None? {
          if toks in at {
            PrefixClosed(heap, path, at, delim, toks, k + 1);
            assert false;
          }
          return None;
        }
        n := c.value;
        k := k + 1;
        assert toks[k..] == Tokens(rest, delim);
        s := Strtok(rest, delim);
      }
      assert toks[..k] == toks;
      r := Some(n);
    }

    /** The first k tokens lead to n. */
    ghost predicate Stands(key: string, n: nat, k: nat)
      reads this
    {
      var toks := Tokens(key, delim);
      && k <= |toks| && n in heap && n in path && path[n] == toks[..k]
      && toks[..k] in at && at[toks[..k]] == n
      && (forall j :: 0 <= j <= k ==> toks[..j] in at)
    }

    /** The number of tokens of the key the tree can follow. */
    ghost function Matched(key: string): (k: nat)
      reads this
      requires Valid()
      ensures k <= |Tokens(key, delim)| && Tokens(key, delim)[..k] in at
      ensures k < |Tokens(key, delim)| ==> Tokens(key, delim)[..k + 1] !in at
    {
      var toks := Tokens(key, delim);
      assert toks[..0] == path[ROOT];
      Reach(at.Keys, toks, 0)
    }

    /** The first k tokens lead to n, and the walk cannot go on. */
    ghost predicate Stuck(key: string, n: nat, k: nat)
      reads this
      requires Valid()
    {
      k == Matched(key) && n == at[Tokens(key, delim)[..k]]
    }

    lemma StartScan(key: string)
      requires Valid()
      ensures Scanning(key, delim, 0, 0, "", 0) && Stands(key, ROOT, 0) && ROOT in heap
    {
      TokensOfPiece("", delim);
      assert key[..0] == "";
      assert Tokens(key, delim)[..0] == [];
    }

    /** One token down, or the end of the walk. */
    lemma StepScan(key: string, n: nat, k: nat)
      requires Valid() && Stands(key, n, k) && k < |Tokens(key, delim)|
      ensures n in heap && n in path
      ensures var p := path[n] + [Tokens(key, delim)[k]];
        && (p in at ==> at[p] in heap && Stands(key, at[p], k + 1))
        && (p !in at ==> Stuck(key, n, k))
    {
      hide Tokens;
      var toks := Tokens(key, delim);
      assert toks[..0] == [];
      assert path[n] + [toks[k]] == toks[..k + 1];
      if toks[..k + 1] !in at {
        ReachIs(at.Keys, toks, 0, k);
      }
    }

    lemma AtRoot(key: string, n: nat)
      requires Valid() && Stands(key, n, 0)
      ensures n == ROOT
    {
    }

    lemma StuckAt(key: string, n: nat, k: nat)
      requires Valid() && Stuck(key, n, k)
      ensures k == Matched(key)
    {
    }

    lemma EndWalk(key: string, n: nat)
      requires Valid() && Stands(key, n, |Tokens(key, delim)|)
      ensures Stuck(key, n, |Tokens(key, delim)|)
    {
      var toks := Tokens(key, delim);
      assert toks[..0] == [];
      ReachIs(at.Keys, toks, 0, |toks|);
    }

    /** trie_longest_prefix: walks down the key in one pass, and leaves the text of the matched part in buff. */
    method LongestPrefix(key: string, buff: array<char>) returns (n: nat)
      requires Valid() && |key| < buff.Length && delim != '\0'
      modifies buff
      ensures Stuck(key, n, Matched(key))
      ensures Filled(old(buff[..]), buff[..], key, delim, Matched(key))
    {
      hide Tokens, Valid, Stands, Stuck, Matched, Filled, LastIndex, Whole, Cut, Partly, Scanning;
      ghost var was := buff[..];
      var c, lastc, part := 0, '\0', "";
      ghost var start, k := 0, 0;
      buff[0] := '\0';
      n := ROOT;
      PartlyAtStart(was, buff[..], key, delim);
      StartScan(key);
      while c < |key|
        invariant c <= |key| && n in heap && Scanning(key, delim, c, start, part, k) && Stands(key, n, k)
        invariant c == 0 || lastc == key[c - 1]
        invariant c == 0 ==> lastc == '\0'
        invariant Partly(was, buff[..], key, delim, k, start)
      {
        ScanPart(key, delim, c, start, part, k);
        if lastc == delim && key[c] == delim {
          ScanEmpty(key, delim, c, start, k);
          PartlyLater(was, buff[..], key, delim, k, start, c + 1);
          start := c + 1;
        } else {
          if key[c] == delim && c != 0 {
            ScanToken(key, delim, c, start, part, k);
            StepScan(key, n, k);
            var found := FindChild(n, part);
            if found.None? {
              StuckAt(key, n, k);
              PartlyFilled(was, buff[..], key, delim, k, start);
              return;
            }
            n := found.value;
            PartlyStep(was, buff[..], key, delim, k, start, c);
            Keep(buff, key, c);
            part, start, k := "", c + 1, k + 1;
          } else if key[c] == delim {
            ScanEmpty(key, delim, c, start, k);
            PartlyLater(was, buff[..], key, delim, k, start, c + 1);
            start := c + 1;
          }
          if key[c] != delim {
            ScanChar(key, delim, c, start, part, k);
            part := part + [key[c]];
          }
        }
        lastc := key[c];
        c := c + 1;
      }
      n := LastPortion(key, n, buff, was, start, part, k);
    }

    /** The end of trie_longest_prefix: what follows the last delimiter has not been looked up yet. */
    method LastPortion(key: string, m: nat, buff: array<char>, ghost was: seq<char>, ghost start: nat,
                       ghost part: string, ghost k: nat)
      returns (n: nat)
      requires Valid() && |key| < buff.Length && |was| == buff.Length
      requires m in heap && Stands(key, m, k) && Scanning(key, delim, |key|, start, part, k)
      requires Partly(was, buff[..], key, delim, k, start)
      modifies buff
      ensures Stuck(key, n, Matched(key))
      ensures Filled(was, buff[..], key, delim, Matched(key))
    {
      hide Tokens, Valid, Stands, Stuck, Matched, Filled, LastIndex, Whole, Cut, Partly, Scanning;
      n := m;
      ScanEnd(key, delim, start, part, k);
      var slash := LastIndex(key, delim);
      var last := if slash.None? then key else key[slash.value + 1..];
      if slash.None? {
        AtRoot(key, n);
      }
      if last == "" {
        EndWalk(key, n);
        StuckAt(key, n, k);
      } else {
        StepScan(key, n, k);
      }
      var found := FindChild(if slash.None? then ROOT else n, last);
      if found.Some? {
        PartlyTail(was, buff[..], key, delim, k, start);
        Overwrite(buff, key);
        n := found.value;
        EndWalk(key, n);
        StuckAt(key, n, k + 1);
        WholeFilled(was, buff[..], key, delim, k + 1);
      } else {
        if last != "" {
          StuckAt(key, n, k);
        }
        PartlyFilled(was, buff[..], key, delim, k, start);
      }
    }

    /** Links a new node as the last child of n. */
    method AddChild(n: nat, key: string, data: T) returns (c: nat)
      requires Valid() && n in heap && Component(key, delim)
      requires n in path && path[n] + [key] !in at
      modifies this
      ensures Valid() && c == old(next) && c in heap && c in path && path[c] == old(path[n]) + [key]
      ensures at == old(at)[old(path[n]) + [key] := c]
      ensures View() == old(View())[old(path[n]) + [key] := data]
    {
      c := next;
      hide Fits, DataAt, Linking, Component;
      LinkingFits(heap, path, at, delim, next, depth, n, key, data);
      heap := Linking(heap, n, c, key, data);
      at := at[path[n] + [key] := c];
      path := path[c := path[n] + [key]];
      next := next + 1;
      depth := depth + |old(path[n])| + 1;
    }

    /** Where a stuck walk stands, and which prefixes of the tokens the tree has. */
    lemma StuckFacts(key: string, n: nat)
      requires Valid() && Stuck(key, n, Matched(key))
      ensures n in heap && n in path && path[n] == Tokens(key, delim)[..Matched(key)]
      ensures n == ROOT <==> Matched(key) == 0
      ensures forall p :: p <= Tokens(key, delim) ==> (p in at <==> |p| <= Matched(key))
    {
      hide Tokens;
      var toks, k := Tokens(key, delim), Matched(key);
      assert path[ROOT] == [];
      forall p | p <= toks ensures p in at <==> |p| <= k {
        assert p == toks[..|p|];
        if |p| <= k {
          PrefixClosed(heap, path, at, delim, toks[..k], |p|);
          assert toks[..k][..|p|] == p;
        } else {
          assert p[..k + 1] == toks[..k + 1];
          if p in at {
            PrefixClosed(heap, path, at, delim, p, k + 1);
          }
        }
      }
    }

    /** A tree grown by the first j tokens, which lead to n. */
    ghost predicate Growing(v0: map<Path, T>, a0: map<Path, nat>, toks: Path, j: nat, n: nat, data: T)
      reads this
    {
      && Valid() && n in heap && n in path && j <= |toks| && path[n] == toks[..j]
      && Components(toks, delim) && Grown(v0, View(), a0, at, toks, j, data)
    }

    lemma GrowStart(key: string, n: nat, data: T)
      requires Valid() && Stuck(key, n, Matched(key))
      ensures Growing(View(), at, Tokens(key, delim), Matched(key), n, data)
    {
      hide Tokens;
      TokensAreComponents(key, delim);
      StuckFacts(key, n);
    }

    lemma GrowReady(v0: map<Path, T>, a0: map<Path, nat>, toks: Path, j: nat, n: nat, data: T)
      requires Growing(v0, a0, toks, j, n, data) && j < |toks|
      ensures Valid() && n in heap && n in path && Component(toks[j], delim)
      ensures path[n] + [toks[j]] == toks[..j + 1] && toks[..j + 1] !in at
    {
      hide View;
      assert toks[..j] + [toks[j]] == toks[..j + 1];
    }

    lemma GrowEnd(v0: map<Path, T>, a0: map<Path, nat>, toks: Path, n: nat, data: T)
      requires Growing(v0, a0, toks, |toks|, n, data)
      ensures Valid() && toks in at && n == at[toks]
      ensures forall p :: p in View() <==> p in v0 || p <= toks
      ensures forall p :: p in View() ==> View()[p] == if p in v0 then v0[p] else data
      ensures forall p :: p in a0 ==> p in at && at[p] == a0[p]
    {
      hide View;
      assert toks[..|toks|] == toks;
      assert forall p: Path :: p <= toks ==> |p| <= |toks|;
    }

    lemma RootIffNone(key: string, n: nat)
      requires Valid() && Stuck(key, n, Matched(key))
      ensures n == ROOT <==> Matched(key) == 0
    {
      StuckFacts(key, n);
    }

    /** trie_insert2: adds the missing part of the path the key spells. create makes nodes with the given data. */
    method Insert2(key: string, data: T) returns (r: nat)
      requires Valid() && NulFree(key) && delim != '\0'
      modifies this
      ensures Valid() && Tokens(key, delim) in at && r == at[Tokens(key, delim)]
      ensures forall p :: p in View() <==> p in old(View()) || p <= Tokens(key, delim)
      ensures forall p :: p in View() ==> View()[p] == if p in old(View()) then old(View())[p] else data
      ensures forall p :: p in old(at) ==> p in at && at[p] == old(at)[p]
    {
      hide Tokens, Tree, Filled, FoundText, Component, View, Growing, Matched, Valid, Stuck;
      ghost var toks, v0, a0 := Tokens(key, delim), View(), at;
      var prefix := new char[|key| + 1](_ => '\0');
      ghost var was := prefix[..];
      var n := LongestPrefix(key, prefix);
      ghost var k := Matched(key);
      ghost var t := FilledText(prefix[..], key, delim, k, was);
      GrowStart(key, n, data);
      RestTokens(key, delim, k, t);
      if Text(prefix[..]) == key {
        GrowEnd(v0, a0, toks, n, data);
        return n;
      }
      TextBounds(key, delim, k, t);
      var i := 0;
      if n != ROOT {
        while prefix[0] != '\0' && prefix[i] == key[i]
          invariant 0 <= i <= |t|
          decreases |t| - i
        {
          i := i + 1;
        }
      }
      RootIffNone(key, n);
      r := AddRest(key[i..], n, data, v0, a0, toks, k);
      GrowEnd(v0, a0, toks, r, data);
    }

    /** One round of that loop. */
    method AddNext(x: string, n: nat, data: T, ghost v0: map<Path, T>, ghost a0: map<Path, nat>, ghost toks: Path,
                   ghost j: nat)
      returns (r: nat)
      requires Growing(v0, a0, toks, j, n, data) && j < |toks| && toks[j] == x
      modifies this
      ensures Growing(v0, a0, toks, j + 1, r, data)
    {
      hide Valid, View, Grown, Component;
      GrowReady(v0, a0, toks, j, n, data);
      GrownStep(v0, View(), a0, at, toks, j, data, next);
      r := AddChild(n, x, data);
    }

    /** The loop of trie_insert2 that adds a node for every token of rest. */
    method AddRest(text: string, n: nat, data: T, ghost v0: map<Path, T>, ghost a0: map<Path, nat>, ghost toks: Path,
                   ghost k: nat)
      returns (r: nat)
      requires Growing(v0, a0, toks, k, n, data)
      requires k <= |toks| && toks[k..] == Tokens(text, delim)
      modifies this
      ensures Growing(v0, a0, toks, |toks|, r, data)
    {
      hide Tokens, Growing;
      r := n;
      ghost var j := k;
      var s := Strtok(text, delim);
      while s.Some?
        invariant 0 <= j <= |toks| && Growing(v0, a0, toks, j, r, data)
        invariant match s
                  case None => j == |toks|
                  case Some((x, rest)) => toks[j..] == [x] + Tokens(rest, delim)
        decreases match s case None => 0 case Some((x, rest)) => |rest| + 1
      {
        var (x, rest) := s.value;
        assert x == toks[j] && toks[j + 1..] == Tokens(rest, delim);
        r := AddNext(x, r, data, v0, a0, toks, j);
        j := j + 1;
        s := Strtok(rest, delim);
      }
    }

    /** trie_delete2: unlinks everything below n, last first on each branch, and then n itself unless it is the root. */
    method Delete2(n: nat) returns (r: int)
      requires Valid() && n in heap && n in path
      modifies this
      ensures Valid() && depth == old(depth)
      ensures n != ROOT ==> Removed(old(heap), old(path), heap, path, n, old(path[n]))
      ensures n == ROOT ==> Trimmed(old(heap), old(path), heap, path, n, []) && heap[ROOT].children == []
      ensures r == if old(heap[n].children) == [] then TRIE_OK else TRIE_MANY
      decreases depth - |path[n]|
    {
      hide Valid, Trimmed, Removed, Unlinking;
      ghost var h0, p0, p, d0 := heap, path, path[n], depth;
      label before:
      TrimStart(n);
      r := TRIE_OK;
      if |heap[n].children| != 0 {
        var cs := heap[n].children;
        for i := 0 to |cs|
          invariant Valid() && depth == d0
          invariant Trimmed(h0, p0, heap, path, n, p) && n in heap && n in path && path[n] == p
          invariant heap[n].children == cs[i..]
        {
          ghost var h1, p1 := heap, path;
          ChildFacts(n, cs[i]);
          var _ := Delete2(cs[i]);
          TrimStep(h0, p0, h1, p1, heap, path, n, p, cs[i], h1[cs[i]].key);
        }
        r := TRIE_MANY;
      }
      if n != ROOT {
        TrimAll@before(n);
        UnlinkNode(n);
      }
    }

    lemma ChildFacts(n: nat, c: nat)
      requires Valid() && n in heap && |heap[n].children| > 0 && c == heap[n].children[0]
      ensures n in path && c in heap && c in path && c != ROOT && heap[c].owner == n
      ensures path[c] == path[n] + [heap[c].key] && |path[n]| < |path[c]| <= depth
      ensures Unlink(heap[n].children, c) == heap[n].children[1..]
    {
      assert c in heap[n].children;
      ChildIs(heap, path, at, delim, n, c);
    }

    lemma TrimStart(n: nat)
      requires Valid() && n in heap && n in path
      ensures Trimmed(heap, path, heap, path, n, path[n]) && (n == ROOT ==> path[n] == [])
    {
      assert forall m :: m in heap ==> m in path;
    }

    twostate lemma TrimAll(n: nat)
      requires old(Valid()) && Valid() && n in old(heap) && n != ROOT && n in old(path)
      requires Trimmed(old(heap), old(path), heap, path, n, old(path[n])) && n in heap && heap[n].children == []
      ensures heap[n].owner in heap && Removed(old(heap), old(path), Unlinking(heap, n), path - {n}, n, old(path[n]))
    {
      hide Tree, Trimmed, Removed, Unlinking;
      TrimRemoves(old(heap), old(path), old(at), heap, path, at, delim, n);
    }

    /** list_remove2 and delete_node: takes a leaf off its owner's list. */
    method UnlinkNode(n: nat)
      requires Valid() && n in heap && n != ROOT && heap[n].children == []
      modifies this
      ensures Valid() && depth == old(depth)
      ensures old(heap[n].owner in heap) && heap == Unlinking(old(heap), n) && path == old(path) - {n}
    {
      UnlinkingFits(heap, path, at, delim, next, depth, n);
      hide Fits, Unlinking;
      heap := Unlinking(heap, n);
      at := at - {path[n]};
      path := path - {n};
    }

    /** The tree v0 without the subtree at p, but never without the root. */
    ghost predicate Pruned(v0: map<Path, T>, a0: map<Path, nat>, p: Path)
      reads this
      requires Valid()
    {
      && (forall q :: q in at ==> q in a0 && at[q] == a0[q])
      && (forall q :: q in View() <==> q in v0 && (q == [] || !(p <= q)))
      && (forall q :: q in View() ==> View()[q] == v0[q])
    }

    twostate lemma RemovedPrunes(n: nat)
      requires old(Valid()) && Valid() && n in old(heap) && n != ROOT && n in old(path)
      requires Removed(old(heap), old(path), heap, path, n, old(path[n]))
      ensures Pruned(old(View()), old(at), old(path[n]))
    {
      hide Listed;
      assert old(Hangs(heap, path, delim, n));
      forall q | q in old(at) && !(old(path[n]) <= q) ensures q in at && at[q] == old(at[q])
        && heap[at[q]].data == old(heap[at[q]].data) {
        assert old(at[q] in heap && path[at[q]] == q);
        assert path[old(at[q])] == q;
      }
    }

    twostate lemma TrimmedPrunes()
      requires old(Valid()) && Valid()
      requires Trimmed(old(heap), old(path), heap, path, ROOT, []) && heap[ROOT].children == []
      ensures Pruned(old(View()), old(at), [])
    {
      assert path[ROOT] == [];
      forall q | q in at ensures q == [] {
        TrimDone(heap, path, at, delim, ROOT, at[q]);
      }
    }

    lemma AtView()
      requires Valid()
      ensures forall p :: p in at <==> p in View()
    {
    }

    lemma NodeOf(p: Path)
      requires Valid() && p in at
      ensures at[p] in heap && at[p] in path && path[at[p]] == p && (at[p] == ROOT ==> p == [])
    {
    }

    /** A node without children is one whose path no other path extends. */
    lemma LeafIff(n: nat)
      requires Valid() && n in heap && n in path
      ensures heap[n].children == [] <==> forall q :: q in at && path[n] <= q ==> q == path[n]
    {
      if heap[n].children == [] {
        forall q | q in at && path[n] <= q ensures q == path[n] {
          TrimDone(heap, path, at, delim, n, at[q]);
        }
      } else {
        ChildFacts(n, heap[n].children[0]);
        var c := heap[n].children[0];
        assert path[c] in at && path[n] <= path[c];
      }
    }

    /** trie_delete: removes exactly the path the key spells and everything below it; the root stays. */
    method Delete(key: string) returns (r: int)
      requires Valid()
      modifies this
      ensures Valid()
      ensures Tokens(key, delim) !in old(View()) ==> r == TRIE_ERR && View() == old(View()) && at == old(at)
      ensures Tokens(key, delim) in old(View()) ==>
        && Pruned(old(View()), old(at), Tokens(key, delim))
        && (r == TRIE_OK || r == TRIE_MANY)
        && (r == TRIE_OK <==> forall q :: q in old(View()) && Tokens(key, delim) <= q ==> q == Tokens(key, delim))
    {
      hide Tokens, Valid, View, Pruned, Removed, Trimmed;
      var node := Find(key);
      AtView();
      if node.None? {
        r := TRIE_ERR;
      } else {
        var n := node.value;
        NodeOf(Tokens(key, delim));
        LeafIff(n);
        label before:
        r := Delete2(n);
        if n == ROOT {
          TrimmedPrunes@before();
        } else {
          RemovedPrunes@before(n);
        }
      }
    }

    /** Changes what a node carries. */
    method Put(n: nat, data: T)
      requires Valid() && n in heap && n in path
      modifies this
      ensures Valid() && at == old(at)
      ensures View() == old(View())[old(path[n]) := data]
    {
      PutFits(heap, path, at, delim, next, depth, n, data);
      PutView(heap, path, at, n, data);
      hide Fits, DataAt, Putting;
      heap := Putting(heap, n, data);
    }

    /** The paths of the tree are closed under prefixes and made of components. */
    lemma Closed(p: Path, q: Path)
      requires Valid() && p in View() && q <= p
      ensures q in View() && Components(p, delim)
    {
      PrefixClosed(heap, path, at, delim, p, |q|);
      assert p[..|q|] == q;
    }
  }
}
