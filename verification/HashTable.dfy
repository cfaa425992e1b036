/** adt/hash_table.c: a table of chains, each an intrusive list. */
module HashTable {
  import opened Options
  import opened IntrusiveList

  // ---------- the hash functions ----------

  /** ht_hash_int: negative keys stop the program. */
  function HashInt(entries: nat, key: int): Option<nat>
    requires entries > 0
  {
    if key < 0 then None else Some(key % entries)
  }

  const M64 := 0x1_0000_0000_0000_0000

  /** The 64-bit sum: each character times a power of 65599. */
  function Polynomial(s: seq<int>): int {
    if s == [] then 4357 else 65599 * Polynomial(s[..|s| - 1]) + s[|s| - 1]
  }

  /** ht_hash_str: shifts and subtractions for a multiplication, and only the low 64 bits are kept. Characters are
      signed. */
  method HashStr(entries: nat, str: seq<int>) returns (h: nat)
    requires 0 < entries < M64
    ensures h == Polynomial(str) % M64 % entries && h < entries
  {
    var index := 4357;
    var i := 0;
    while i < |str|
      invariant 0 <= i <= |str| && index == Polynomial(str[..i]) % M64
    {
      assert str[..i + 1][..i] == str[..i];
      ModStep(Polynomial(str[..i]), str[i]);
      index := (str[i] + (index * 64) % M64 + (index * 65536) % M64 - index) % M64;
      i := i + 1;
    }
    assert str[..i] == str;
    h := index % entries;
  }

  /** Dropping high bits early makes no difference. */
  lemma ModStep(p: int, c: int)
    ensures (c + (p % M64 * 64) % M64 + (p % M64 * 65536) % M64 - p % M64) % M64 == (65599 * p + c) % M64
  {
    var x := p % M64;
    var q, a, b := p / M64, x * 64 / M64, x * 65536 / M64;
    assert p == q * M64 + x;
    assert c + (x * 64) % M64 + (x * 65536) % M64 - x == 65599 * p + c + (-a - b - 65599 * q) * M64;
    ModPlus(65599 * p + c, -a - b - 65599 * q);
  }

  lemma ModPlus(x: int, k: int)
    ensures (x + k * M64) % M64 == x % M64
  {
  }

  // ---------- chains of elements ----------

  /** The position of the first element with key k, or the length of the chain. */
  function FirstMatch<K(==), E>(chain: seq<E>, key: E -> K, k: K): (i: nat)
    ensures i <= |chain| && (i < |chain| ==> key(chain[i]) == k)
    ensures forall j :: 0 <= j < i ==> key(chain[j]) != k
  {
    if chain == [] || key(chain[0]) == k then 0 else 1 + FirstMatch(chain[1..], key, k)
  }

  /** The chain of a key, which hash picks among n; the key of an element. */
  datatype Scheme<!K(==), !E> = Scheme(hash: K -> nat, key: E -> K)

  ghost predicate Sized<K(!new), E>(s: Scheme<K, E>, n: nat) {
    forall k :: s.hash(k) < n
  }

  /** Every element is on the chain of its key. */
  ghost predicate Hashed<K(!new), E>(cs: seq<seq<E>>, s: Scheme<K, E>) {
    Sized(s, |cs|) && forall b, i :: 0 <= b < |cs| && 0 <= i < |cs[b]| ==> s.hash(s.key(cs[b][i])) == b
  }

  /** No key occurs twice. */
  ghost predicate Unique<K(!new), E>(cs: seq<seq<E>>, s: Scheme<K, E>) {
    forall b, i, j :: 0 <= b < |cs| && 0 <= i < j < |cs[b]| ==> s.key(cs[b][i]) != s.key(cs[b][j])
  }

  ghost function Lookup<K(!new), E>(cs: seq<seq<E>>, s: Scheme<K, E>, k: K): Option<E>
    requires Sized(s, |cs|)
  {
    var chain := cs[s.hash(k)];
    var i := FirstMatch(chain, s.key, k);
    if i < |chain| then Some(chain[i]) else None
  }

  ghost function Inserted<K(!new), E>(cs: seq<seq<E>>, s: Scheme<K, E>, k: K, e: E): seq<seq<E>>
    requires Sized(s, |cs|)
  {
    cs[s.hash(k) := cs[s.hash(k)] + [e]]
  }

  function WithoutAt<E>(chain: seq<E>, i: nat): seq<E> {
    if i < |chain| then chain[..i] + chain[i + 1..] else chain
  }

  ghost function Removed<K(!new), E>(cs: seq<seq<E>>, s: Scheme<K, E>, k: K): seq<seq<E>>
    requires Sized(s, |cs|)
  {
    var chain := cs[s.hash(k)];
    cs[s.hash(k) := WithoutAt(chain, FirstMatch(chain, s.key, k))]
  }

  /** All elements, chain by chain. */
  function Flat<E>(cs: seq<seq<E>>): seq<E> {
    if cs == [] then [] else Flat(cs[..|cs| - 1]) + cs[|cs| - 1]
  }

  lemma FlatNone<E>()
    ensures Flat<E>([]) == []
  {
  }

  lemma FlatNext<E>(cs: seq<seq<E>>, i: nat)
    requires i < |cs|
    ensures Flat(cs[..i + 1]) == Flat(cs[..i]) + cs[i]
  {
    assert cs[..i + 1][..i] == cs[..i];
  }

  /** The chains, the first i of them emptied. */
  ghost function EmptyTo<E>(cs: seq<seq<E>>, i: nat): seq<seq<E>>
    requires i <= |cs|
  {
    seq(i, _ => []) + cs[i..]
  }

  lemma EmptyToNext<E>(cs: seq<seq<E>>, i: nat)
    requires i < |cs|
    ensures |EmptyTo(cs, i)| == |cs| && EmptyTo(cs, i)[i] == cs[i]
    ensures EmptyTo(cs, i + 1) == EmptyTo(cs, i)[i := []]
  {
  }

  lemma EmptyToEnds<E>(cs: seq<seq<E>>)
    ensures EmptyTo(cs, 0) == cs && EmptyTo(cs, |cs|) == seq(|cs|, _ => []) && cs[..0] == []
  {
    assert cs[0..] == cs && cs[|cs|..] == [];
  }

  // ---------- what a lookup finds ----------

  lemma {:induction false} FirstMatchIs<K, E>(chain: seq<E>, key: E -> K, k: K, i: nat)
    requires i <= |chain| && (i < |chain| ==> key(chain[i]) == k) && forall j :: 0 <= j < i ==> key(chain[j]) != k
    ensures FirstMatch(chain, key, k) == i
  {
    if i > 0 {
      assert key(chain[0]) != k;
      FirstMatchIs(chain[1..], key, k, i - 1);
    }
  }

  /** A key is found exactly if some element of the table, wherever it is, has it. */
  lemma FoundIff<K(!new), E>(cs: seq<seq<E>>, s: Scheme<K, E>, k: K)
    requires Hashed(cs, s)
    ensures Lookup(cs, s, k).Some? <==> exists b, i :: 0 <= b < |cs| && 0 <= i < |cs[b]| && s.key(cs[b][i]) == k
    ensures Lookup(cs, s, k).Some? ==> s.key(Lookup(cs, s, k).value) == k
  {
    var b := s.hash(k);
    var i := FirstMatch(cs[b], s.key, k);
    assert i < |cs[b]| ==> s.key(cs[b][i]) == k;
  }

  /** The table is a map from keys to elements. */
  ghost predicate Refines<K(!new), E>(cs: seq<seq<E>>, s: Scheme<K, E>, m: map<K, E>) {
    Hashed(cs, s) && Unique(cs, s) && forall k :: Lookup(cs, s, k) == if k in m then Some(m[k]) else None
  }

  lemma MatchInLonger<K, E>(chain: seq<E>, key: E -> K, k: K, e: E)
    ensures var i := FirstMatch(chain, key, k);
      FirstMatch(chain + [e], key, k) == if i < |chain| || key(e) == k then i else |chain| + 1
  {
    var i := FirstMatch(chain, key, k);
    FirstMatchIs(chain + [e], key, k, if i < |chain| || key(e) == k then i else |chain| + 1);
  }

  /** Inserting an element with a new key extends the map; with a key that is there, it makes the table ambiguous. */
  lemma InsertRefines<K(!new), E>(cs: seq<seq<E>>, s: Scheme<K, E>, m: map<K, E>, e: E)
    requires Refines(cs, s, m)
    ensures s.key(e) !in m ==> Refines(Inserted(cs, s, s.key(e), e), s, m[s.key(e) := e])
    ensures s.key(e) in m ==> !Unique(Inserted(cs, s, s.key(e), e), s)
  {
    var k := s.key(e);
    var b := s.hash(k);
    var cs1 := Inserted(cs, s, k, e);
    var i := FirstMatch(cs[b], s.key, k);
    assert cs1[b] == cs[b] + [e] && (k in m <==> i < |cs[b]|) by { assert Lookup(cs, s, k).Some? <==> k in m; }
    if k !in m {
      forall k' ensures Lookup(cs1, s, k') == if k' in m[k := e] then Some(m[k := e][k']) else None {
        MatchInLonger(cs[b], s.key, k', e);
        assert Lookup(cs, s, k') == if k' in m then Some(m[k']) else None;
      }
    } else {
      assert s.key(cs1[b][i]) == s.key(cs1[b][|cs[b]|]);
    }
  }

  /** Removing takes the first element with the key; another with the same key, if there is one, is found from then
      on. */
  lemma RemoveFindsNext<K(!new), E>(cs: seq<seq<E>>, s: Scheme<K, E>, k: K)
    requires Hashed(cs, s)
    ensures Lookup(Removed(cs, s, k), s, k).Some? <==>
      exists i, j :: 0 <= i < j < |cs[s.hash(k)]| && s.key(cs[s.hash(k)][i]) == s.key(cs[s.hash(k)][j]) == k
  {
    var chain := cs[s.hash(k)];
    var i := FirstMatch(chain, s.key, k);
    var chain' := WithoutAt(chain, i);
    var n := FirstMatch(chain', s.key, k);
    if n < |chain'| {
      assert i <= n && chain'[n] == chain[n + 1];
    }
    if j, l :| 0 <= j < l < |chain| && s.key(chain[j]) == s.key(chain[l]) == k {
      assert i <= j && chain'[l - 1] == chain[l];
      assert n <= l - 1;
    }
  }

  lemma MatchInShorter<K, E>(chain: seq<E>, key: E -> K, k: K, k': K)
    requires k' != k
    ensures var i, chain' := FirstMatch(chain, key, k), WithoutAt(chain, FirstMatch(chain, key, k));
      var n, n' := FirstMatch(chain, key, k'), FirstMatch(chain', key, k');
      && (n < |chain| <==> n' < |chain'|) && (n < |chain| ==> chain'[n'] == chain[n])
  {
    var i, chain' := FirstMatch(chain, key, k), WithoutAt(chain, FirstMatch(chain, key, k));
    var n := FirstMatch(chain, key, k');
    if i < |chain| {
      FirstMatchIs(chain', key, k', if n < i then n else n - 1);
    }
  }

  /** Removing a key takes it out of the map and leaves the rest. */
  lemma RemoveRefines<K(!new), E>(cs: seq<seq<E>>, s: Scheme<K, E>, m: map<K, E>, k: K)
    requires Refines(cs, s, m)
    ensures Refines(Removed(cs, s, k), s, m - {k})
  {
    var cs1 := Removed(cs, s, k);
    forall k' ensures Lookup(cs1, s, k') == if k' in m - {k} then Some((m - {k})[k']) else None {
      if k' == k {
        RemoveFindsNext(cs, s, k);
      } else {
        MatchInShorter(cs[s.hash(k)], s.key, k, k');
        assert Lookup(cs, s, k') == if k' in m then Some(m[k']) else None;
      }
    }
  }

  lemma InsertHashed<K(!new), E>(cs: seq<seq<E>>, s: Scheme<K, E>, e: E)
    requires Hashed(cs, s)
    ensures Hashed(Inserted(cs, s, s.key(e), e), s)
  {
  }

  // ---------- whole runs ----------

  datatype Action<!K(==), !E> = Insert(e: E) | Remove(k: K)

  ghost function After<K(!new), E>(cs: seq<seq<E>>, s: Scheme<K, E>, acts: seq<Action<K, E>>): (r: seq<seq<E>>)
    requires Sized(s, |cs|)
    ensures |r| == |cs|
  {
    if acts == [] then cs
    else
      var c := After(cs, s, acts[..|acts| - 1]);
      match acts[|acts| - 1]
      case Insert(e) => Inserted(c, s, s.key(e), e)
      case Remove(k) => Removed(c, s, k)
  }

  ghost function MapAfter<K(!new), E>(m: map<K, E>, s: Scheme<K, E>, acts: seq<Action<K, E>>): map<K, E> {
    if acts == [] then m
    else
      var n := MapAfter(m, s, acts[..|acts| - 1]);
      match acts[|acts| - 1]
      case Insert(e) => n[s.key(e) := e]
      case Remove(k) => n - {k}
  }

  /** Every insertion is of a key that is absent at the time. */
  ghost predicate Careful<K(!new), E>(m: map<K, E>, s: Scheme<K, E>, acts: seq<Action<K, E>>) {
    forall i {:trigger acts[i]} :: 0 <= i < |acts| && acts[i].Insert? ==> s.key(acts[i].e) !in MapAfter(m, s, acts[..i])
  }

  lemma CarefulPrefix<K(!new), E>(m: map<K, E>, s: Scheme<K, E>, acts: seq<Action<K, E>>)
    requires acts != [] && Careful(m, s, acts)
    ensures Careful(m, s, acts[..|acts| - 1])
  {
    var init := acts[..|acts| - 1];
    forall i | 0 <= i < |init| && init[i].Insert? ensures s.key(init[i].e) !in MapAfter(m, s, init[..i]) {
      assert init[i] == acts[i] && init[..i] == acts[..i];
    }
  }

  /** A run of careful insertions and of removals does to the table what it does to a map. */
  lemma {:induction false} RunRefines<K(!new), E>(cs: seq<seq<E>>, s: Scheme<K, E>, m: map<K, E>,
                                                  acts: seq<Action<K, E>>)
    requires Refines(cs, s, m) && Careful(m, s, acts)
    ensures Refines(After(cs, s, acts), s, MapAfter(m, s, acts))
    decreases |acts|
  {
    if acts != [] {
      var init, last := acts[..|acts| - 1], acts[|acts| - 1];
      CarefulPrefix(m, s, acts);
      RunRefines(cs, s, m, init);
      var c, n := After(cs, s, init), MapAfter(m, s, init);
      hide Refines, Careful;
      match last
      case Insert(e) =>
        assert s.key(e) !in n by { CarefulLast(m, s, acts); }
        InsertRefines(c, s, n, e);
      case Remove(k) => RemoveRefines(c, s, n, k);
    }
  }

  lemma CarefulLast<K(!new), E>(m: map<K, E>, s: Scheme<K, E>, acts: seq<Action<K, E>>)
    requires acts != [] && Careful(m, s, acts) && acts[|acts| - 1].Insert?
    ensures s.key(acts[|acts| - 1].e) !in MapAfter(m, s, acts[..|acts| - 1])
  {
  }

  lemma EmptyRefines<K(!new), E>(s: Scheme<K, E>, n: nat)
    requires Sized(s, n)
    ensures Refines(seq(n, _ => []), s, map[])
  {
  }

  // ---------- the table ----------

  class Table<K(!new, ==), T> {
    const s: Scheme<K, Item<T>>
    const entry: seq<List<T>>
    ghost var chains: seq<seq<Item<T>>>

    ghost function Items(): set<Item<T>>
      reads this
    {
      set b, i | 0 <= b < |chains| && 0 <= i < |chains[b]| :: chains[b][i]
    }

    /** Each slot holds its chain, and every item is on the chain of its key. */
    ghost predicate Valid()
      reads this, entry, Items()
    {
      && |chains| == |entry| && Hashed(chains, s)
      && (forall b :: 0 <= b < |entry| ==> entry[b].items == chains[b] && entry[b].Valid())
      && (forall b, c :: 0 <= b < c < |entry| ==> entry[b] != entry[c])
    }

    /** hash_table_init. */
    constructor (m: nat, s: Scheme<K, Item<T>>)
      requires Sized(s, m)
      ensures Valid() && this.s == s && |entry| == m && fresh(entry)
      ensures chains == seq(m, _ => []) && Refines(chains, s, map[])
    {
      var lists: seq<List<T>> := [];
      for i := 0 to m
        invariant |lists| == i && fresh(lists)
        invariant forall b :: 0 <= b < i ==> lists[b].items == [] && lists[b].Valid()
        invariant forall b, c :: 0 <= b < c < i ==> lists[b] != lists[c]
      {
        var l := new List();
        lists := lists + [l];
      }
      EmptyRefines(s, m);
      this.s := s;
      entry := lists;
      chains := seq(m, _ => []);
    }

    /** Different slots share no item: each item names the one list it is on. */
    lemma Apart(b: nat, c: nat)
      requires Valid() && b < |entry| && c < |entry| && b != c
      ensures entry[b] != entry[c]
      ensures forall i, j :: 0 <= i < |chains[b]| && 0 <= j < |chains[c]| ==> chains[b][i] != chains[c][j]
    {
      forall i, j | 0 <= i < |chains[b]| && 0 <= j < |chains[c]| ensures chains[b][i] != chains[c][j] {
        assert entry[b].Linked(i) && entry[c].Linked(j);
      }
    }

    /** hash_table_insert. */
    method Insert(key: K, item: Item<T>)
      requires Valid() && s.key(item) == key && item.list == null
      modifies this, entry, Items(), item
      ensures Valid() && chains == Inserted(old(chains), s, key, item)
    {
      var chain := s.hash(key);
      InsertHashed(chains, s, item);
      forall b | 0 <= b < |entry| && b != chain
        ensures entry[b] != entry[chain] && item !in entry[b].items
        ensures forall i, j :: 0 <= i < |chains[b]| && 0 <= j < |chains[chain]| ==> chains[b][i] != chains[chain][j]
      {
        Apart(b, chain);
        entry[b].Foreign(item);
      }
      entry[chain].Append(item);
      chains := Inserted(chains, s, key, item);
    }

    /** hash_table_find. */
    method Find(key: K) returns (r: Item?<T>)
      requires Valid()
      ensures r == match Lookup(chains, s, key) case Some(item) => item case None => null
    {
      var chain := s.hash(key);
      ghost var n := 0;
      var cur := entry[chain].head;
      while cur != null
        invariant 0 <= n <= |chains[chain]| && cur == At(chains[chain], n)
        invariant forall j :: 0 <= j < n ==> s.key(chains[chain][j]) != key
        decreases |chains[chain]| - n
      {
        assert entry[chain].Linked(n);
        if s.key(cur) == key {
          FirstMatchIs(chains[chain], s.key, key, n);
          return cur;
        }
        cur := cur.next;
        n := n + 1;
      }
      FirstMatchIs(chains[chain], s.key, key, n);
      r := null;
    }

    /** list_remove on slot b, which leaves the other slots alone. */
    method Unlink(b: nat, item: Item<T>, ghost i: nat)
      requires Valid() && b < |entry| && i < |chains[b]| && chains[b][i] == item
      modifies this, entry, Items()
      ensures Valid() && chains == old(chains)[b := WithoutAt(old(chains)[b], i)]
      ensures item.list == null && Items() <= old(Items())
    {
      UnlinkHashed(b, i);
      forall c | 0 <= c < |entry| && c != b
        ensures entry[c] != entry[b]
        ensures forall i, j :: 0 <= i < |chains[c]| && 0 <= j < |chains[b]| ==> chains[c][i] != chains[b][j]
      {
        Apart(c, b);
      }
      hide Hashed;
      entry[b].Remove(item, i);
      chains := chains[b := WithoutAt(chains[b], i)];
    }

    lemma UnlinkHashed(b: nat, i: nat)
      requires Valid() && b < |entry| && i < |chains[b]|
      ensures Hashed(chains[b := WithoutAt(chains[b], i)], s)
    {
    }

    /** What names no list is not in the table. */
    lemma AllLoose(xs: seq<Item<T>>)
      requires Valid() && forall x :: x in xs ==> x.list == null
      ensures forall x :: x in xs ==> x !in Items()
    {
      forall b, i | 0 <= b < |chains| && 0 <= i < |chains[b]| ensures chains[b][i] !in xs {
        assert entry[b].Linked(i);
      }
    }

    /** hash_table_remove: unlinks the first match; the caller's callback then frees it. */
    method Remove(key: K) returns (removed: Item?<T>)
      requires Valid()
      modifies this, entry, Items()
      ensures Valid() && chains == Removed(old(chains), s, key)
      ensures removed == match Lookup(old(chains), s, key) case Some(item) => item case None => null
      ensures removed != null ==> removed.list == null
    {
      var chain := s.hash(key);
      removed := Find(key);
      if removed != null {
        Unlink(chain, removed, FirstMatch(chains[chain], s.key, key));
      } else {
        assert chains[chain := chains[chain]] == chains;
      }
    }

    /** The walk along one chain. */
    method ApplyChain(i: nat, before: seq<Item<T>>) returns (visited: seq<Item<T>>)
      requires Valid() && i < |entry| && i < |chains|
      ensures visited == before + chains[i]
    {
      visited := before;
      var cur := entry[i].head;
      ghost var n := 0;
      while cur != null
        invariant 0 <= n <= |chains[i]| && cur == At(chains[i], n)
        invariant visited == before + chains[i][..n]
        decreases |chains[i]| - n
      {
        assert entry[i].Linked(n);
        assert chains[i][..n + 1] == chains[i][..n] + [chains[i][n]];
        visited := visited + [cur];
        cur := cur.next;
        n := n + 1;
      }
      assert chains[i][..n] == chains[i];
    }

    /** hash_table_apply: the items in the order in which the function is called on them. */
    method Apply() returns (visited: seq<Item<T>>)
      requires Valid()
      ensures visited == Flat(chains)
    {
      HasEntries();
      FlatNone<Item<T>>();
      hide Valid, Flat;
      visited := [];
      var i := 0;
      assert chains[..0] == [];
      while i < |entry|
        invariant 0 <= i <= |entry| && visited == Flat(chains[..i])
      {
        FlatNext(chains, i);
        visited := ApplyChain(i, visited);
        i := i + 1;
      }
      assert chains[..i] == chains;
    }

    /** Every item of the table is visited, and none twice. */
    lemma VisitedOnce()
      requires Valid()
      ensures NoRepeats(Flat(chains)) && forall x :: x in Flat(chains) <==> x in Items()
    {
      FlatOnce(|chains|);
      assert chains[..|chains|] == chains;
    }

    ghost predicate Among(n: nat, x: Item<T>)
      reads this
      requires n <= |chains|
    {
      exists b :: 0 <= b < n && x in chains[b]
    }

    lemma OneChain(n: nat, x: Item<T>)
      requires Valid() && n < |chains| && Among(n, x)
      ensures x !in chains[n]
    {
      var b :| 0 <= b < n && x in chains[b];
      Apart(b, n);
    }

    lemma {:induction false} FlatOnce(n: nat)
      requires Valid() && n <= |chains|
      ensures NoRepeats(Flat(chains[..n]))
      ensures forall x :: x in Flat(chains[..n]) <==> Among(n, x)
    {
      if n > 0 {
        FlatOnce(n - 1);
        assert chains[..n][..n - 1] == chains[..n - 1];
        var before := Flat(chains[..n - 1]);
        forall i | 0 <= i < |before| ensures before[i] !in chains[n - 1] {
          assert before[i] in before && Among(n - 1, before[i]);
          OneChain(n - 1, before[i]);
        }
        assert entry[n - 1].Valid();
      }
    }

    /** list_remove of the head of a slot; next is the head after it. */
    method UnlinkHead(i: nat, cur: Item<T>) returns (next: Item?<T>)
      requires Valid() && i < |entry| && |chains[i]| > 0 && chains[i][0] == cur
      modifies this, entry, Items()
      ensures Valid() && chains == old(chains)[i := old(chains)[i][1..]]
      ensures next == At(chains[i], 0) && cur.list == null && Items() <= old(Items())
    {
      assert entry[i].Linked(0);
      next := cur.next;
      assert WithoutAt(chains[i], 0) == chains[i][1..];
      assert next == At(chains[i][1..], 0);
      Unlink(i, cur, 0);
    }

    lemma HeadIs(i: nat)
      requires Valid() && i < |entry|
      ensures |chains| == |entry| && entry[i].head == At(chains[i], 0)
    {
    }

    /** The inner loop of hash_table_destroy. */
    method EmptyChain(i: nat) returns (visited: seq<Item<T>>)
      requires Valid() && i < |entry| && i < |chains|
      modifies this, entry, Items()
      ensures Valid() && chains == old(chains)[i := []]
      ensures visited == old(chains[i])
      ensures Items() <= old(Items())
      ensures forall x :: x in visited ==> x.list == null
    {
      HeadIs(i);
      hide Valid, Items;
      visited := [];
      var cur := entry[i].head;
      ghost var cs := chains;
      assert cs[i][0..] == cs[i] && cs[i := cs[i]] == cs;
      while cur != null
        invariant Valid() && |chains| == |cs| && |visited| <= |cs[i]| && visited == cs[i][..|visited|]
        invariant chains == cs[i := cs[i][|visited|..]]
        invariant cur == At(chains[i], 0)
        invariant forall x :: x in visited ==> x.list == null
        invariant Items() <= old(Items())
        decreases |cs[i]| - |visited|
      {
        AllLoose(visited);
        ghost var m := |visited|;
        assert chains[i] == cs[i][m..] && cs[i][m..][1..] == cs[i][m + 1..];
        assert cs[i][..m + 1] == cs[i][..m] + [cs[i][m]];
        var next := UnlinkHead(i, cur);
        visited := visited + [cur];
        cur := next;
      }
    }

    /** hash_table_destroy: the items in the order in which the callback frees them. */
    method Destroy() returns (visited: seq<Item<T>>)
      requires Valid()
      modifies this, entry, Items()
      ensures Valid() && chains == seq(|entry|, _ => [])
      ensures visited == Flat(old(chains))
      ensures forall x :: x in visited ==> x.list == null
    {
      HasEntries();
      hide Valid, Items, Flat;
      ghost var cs := chains;
      FlatNone<Item<T>>();
      EmptyToEnds(cs);
      hide EmptyTo;
      visited := [];
      var i := 0;
      while i < |entry|
        invariant 0 <= i <= |entry| == |cs| && Valid()
        invariant chains == EmptyTo(cs, i)
        invariant visited == Flat(cs[..i])
        invariant forall x :: x in visited ==> x.list == null
        invariant Items() <= old(Items())
      {
        AllLoose(visited);
        FlatNext(cs, i);
        EmptyToNext(cs, i);
        var freed := EmptyChain(i);
        visited := visited + freed;
        i := i + 1;
      }
      assert cs[..i] == cs;
    }

    lemma HasEntries()
      requires Valid()
      ensures |chains| == |entry|
    {
    }
  }
}
