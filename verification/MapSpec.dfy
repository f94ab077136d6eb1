/** The abstract associative map that the red-black tree, the hash table and the
    sorted array all implement: a finite set of entries, no two of which have
    equivalent keys.  A map is a set rather than a Dafny `map` because the three
    structures compare keys with a caller's function, under which two different
    keys may be equivalent; which of them is stored is observable.
 */
module MapSpec {
  datatype Entry<K, V> = Entry(key: K, value: V)

  datatype Option<T> = None | Some(value: T)

  datatype SetResult = New | Replaced | Failed

  ghost predicate Symmetric<K>(eq: (K, K) -> bool, a: K, b: K) {
    eq(a, b) ==> eq(b, a)
  }

  ghost predicate Composes<K>(eq: (K, K) -> bool, a: K, b: K, c: K) {
    eq(a, b) && eq(b, c) ==> eq(a, c)
  }

  ghost predicate Equivalence<K(!new)>(eq: (K, K) -> bool) {
    && (forall a :: eq(a, a))
    && (forall a, b :: Symmetric(eq, a, b))
    && (forall a, b, c :: Composes(eq, a, b, c))
  }

  ghost predicate Has<K, V>(m: set<Entry<K, V>>, eq: (K, K) -> bool, k: K) {
    exists e :: e in m && eq(k, e.key)
  }

  ghost predicate Unique<K, V>(m: set<Entry<K, V>>, eq: (K, K) -> bool) {
    forall a, b {:trigger eq(a.key, b.key)} :: a in m && b in m && eq(a.key, b.key) ==> a == b
  }

  ghost function Updated<K, V>(e: Entry<K, V>, eq: (K, K) -> bool, k: K, v: V, overwrite: bool): Entry<K, V> {
    if eq(k, e.key) then Entry(if overwrite then k else e.key, v) else e
  }

  /** Set `k` to `v`.  An equivalent key that is already stored is kept, unless
      `overwrite` asks for the new one. */
  ghost function Put<K, V>(m: set<Entry<K, V>>, eq: (K, K) -> bool, k: K, v: V, overwrite: bool): set<Entry<K, V>> {
    if Has(m, eq, k) then
      set e | e in m :: Updated(e, eq, k, v, overwrite)
    else
      m + {Entry(k, v)}
  }

  ghost function Without<K, V>(m: set<Entry<K, V>>, eq: (K, K) -> bool, k: K): set<Entry<K, V>> {
    set e | e in m && !eq(k, e.key)
  }

  /** `r` is a correct answer to looking up `k`. */
  ghost predicate Finds<K, V>(m: set<Entry<K, V>>, eq: (K, K) -> bool, k: K, r: Option<Entry<K, V>>) {
    match r
    case None => !Has(m, eq, k)
    case Some(e) => e in m && eq(k, e.key)
  }

  /** A map with unique keys has one correct answer to each lookup. */
  lemma FindsIsFunctional<K(!new), V>(m: set<Entry<K, V>>, eq: (K, K) -> bool, k: K,
                                      r: Option<Entry<K, V>>, s: Option<Entry<K, V>>)
    requires Equivalence(eq) && Unique(m, eq)
    requires Finds(m, eq, k, r) && Finds(m, eq, k, s)
    ensures r == s
  {
    if r.Some? && s.Some? {
      EquivalentStep(eq, k, r.value.key, s.value.key);
    }
  }

  lemma EquivalentStep<K(!new)>(eq: (K, K) -> bool, a: K, b: K, c: K)
    requires Equivalence(eq) && eq(a, b) && eq(a, c)
    ensures eq(b, a) && eq(b, c)
  {
    assert Symmetric(eq, a, b) && Composes(eq, b, a, c);
  }

  lemma InequivalentStep<K(!new)>(eq: (K, K) -> bool, a: K, b: K, c: K)
    requires Equivalence(eq) && eq(a, b) && !eq(a, c)
    ensures !eq(b, c) && !eq(c, b)
  {
    assert Composes(eq, a, b, c) && Symmetric(eq, c, b);
  }

  /** What `Put` does to a map that has the key: one entry makes room for another. */
  lemma PutReplaces<K(!new), V>(m: set<Entry<K, V>>, eq: (K, K) -> bool, k: K, v: V, overwrite: bool)
    returns (prior: Entry<K, V>, fresher: Entry<K, V>)
    requires Equivalence(eq) && Unique(m, eq) && Has(m, eq, k)
    ensures prior in m && eq(k, prior.key) && fresher == Entry(if overwrite then k else prior.key, v)
    ensures eq(k, fresher.key) && fresher !in m - {prior}
    ensures forall e :: e in m - {prior} ==> !eq(k, e.key)
    ensures Put(m, eq, k, v, overwrite) == m - {prior} + {fresher}
  {
    prior :| prior in m && eq(k, prior.key);
    fresher := Entry(if overwrite then k else prior.key, v);
    forall e | e in m && eq(k, e.key) ensures e == prior {
      EquivalentStep(eq, k, e.key, prior.key);
    }
  }

  lemma UniqueExtended<K, V>(rest: set<Entry<K, V>>, eq: (K, K) -> bool, e: Entry<K, V>)
    requires Unique(rest, eq)
    requires forall x :: x in rest ==> !eq(e.key, x.key) && !eq(x.key, e.key)
    ensures Unique(rest + {e}, eq)
  {
  }

  /** `Put` keeps keys unique, grows the map by at most the one key, and makes
      `k` find `v`. */
  lemma PutLaws<K(!new), V>(m: set<Entry<K, V>>, eq: (K, K) -> bool, k: K, v: V, overwrite: bool)
    requires Equivalence(eq) && Unique(m, eq)
    ensures Unique(Put(m, eq, k, v, overwrite), eq)
    ensures |Put(m, eq, k, v, overwrite)| == |m| + if Has(m, eq, k) then 0 else 1
    ensures exists e :: Finds(Put(m, eq, k, v, overwrite), eq, k, Some(e)) && e.value == v
  {
    var m' := Put(m, eq, k, v, overwrite);
    var rest, fresher := m, Entry(k, v);
    if Has(m, eq, k) {
      var prior;
      prior, fresher := PutReplaces(m, eq, k, v, overwrite);
      rest := m - {prior};
    }
    assert m' == rest + {fresher} && fresher !in rest;
    forall e | e in rest ensures !eq(fresher.key, e.key) && !eq(e.key, fresher.key) {
      assert eq(k, fresher.key);
      InequivalentStep(eq, k, fresher.key, e.key);
    }
    UniqueExtended(rest, eq, fresher);
    assert Finds(m', eq, k, Some(fresher));
  }

  /** Keys that are not equivalent to `k` find after `Put` exactly what they found before. */
  lemma PutFrame<K(!new), V>(m: set<Entry<K, V>>, eq: (K, K) -> bool, k: K, v: V, overwrite: bool,
                             j: K, r: Option<Entry<K, V>>)
    requires Equivalence(eq) && Unique(m, eq) && !eq(k, j)
    ensures Finds(m, eq, j, r) <==> Finds(Put(m, eq, k, v, overwrite), eq, j, r)
  {
    var m' := Put(m, eq, k, v, overwrite);
    forall e: Entry<K, V> | eq(k, e.key) ensures !eq(j, e.key) {
      InequivalentStep(eq, k, e.key, j);
    }
    if Has(m, eq, k) {
      var prior, fresher := PutReplaces(m, eq, k, v, overwrite);
      assert forall e: Entry<K, V> :: eq(j, e.key) ==> (e in m <==> e in m');
    }
  }
}
