/** Cardinality facts. */
module SetFacts {

  function Tagged<T>(n: int, xs: set<T>): set<(int, T)> {
    set x | x in xs :: (n, x)
  }

  /** Tagging the elements of a set does not change their number. */
  lemma {:induction false} SizeOfTagged<T>(n: int, xs: set<T>)
    ensures |Tagged(n, xs)| == |xs|
  {
    if xs == {} {
      assert Tagged(n, xs) == {};
    } else {
      var x :| x in xs;
      SizeOfTagged(n, xs - {x});
      assert Tagged(n, xs) == Tagged(n, xs - {x}) + {(n, x)};
    }
  }

  lemma SomeKey<K, V>(m: map<K, V>) returns (k: K)
    requires m != map[]
    ensures k in m
  {
    k :| k in m;
  }

  /** Some member of a set: the next item of a traversal whose order does not matter. */
  method Choose<T(==)>(xs: set<T>) returns (x: T)
    requires xs != {}
    ensures x in xs
  {
    x :| x in xs;
  }

  /** The part of m whose keys are already in done. */
  function Part<K, V, W>(m: map<K, V>, done: map<K, W>): map<K, V> {
    map k | k in m && k in done :: m[k]
  }

  lemma WholePart<K, V, W>(m: map<K, V>, done: map<K, W>)
    requires m.Keys <= done.Keys
    ensures Part(m, done) == m
  {
  }
}
