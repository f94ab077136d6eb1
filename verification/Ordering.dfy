/** Entries kept in the order of a compare function: what the red-black tree (in
    symmetric order) and the sorted array have in common.
 */
module Ordering {
  import opened MapSpec

  // Swapping the arguments swaps the sign.
  ghost predicate Antisymmetric<K>(cmp: (K, K) -> int, a: K, b: K) {
    (cmp(a, b) > 0 <==> cmp(b, a) < 0) && (cmp(a, b) == 0 <==> cmp(b, a) == 0)
  }

  ghost predicate Transitive<K>(cmp: (K, K) -> int, a: K, b: K, c: K) {
    cmp(a, b) <= 0 && cmp(b, c) <= 0 ==> cmp(a, c) <= 0
  }

  /** The compare function orders all keys, and 0 means equivalent, not equal. */
  ghost predicate TotalOrder<K(!new)>(cmp: (K, K) -> int) {
    (forall a, b :: Antisymmetric(cmp, a, b)) && (forall a, b, c :: Transitive(cmp, a, b, c))
  }

  function SameKey<K>(cmp: (K, K) -> int): (K, K) -> bool {
    (a, b) => cmp(a, b) == 0
  }

  lemma CompareZero<K(!new)>(cmp: (K, K) -> int, a: K, b: K)
    requires TotalOrder(cmp)
    ensures cmp(a, a) == 0
    ensures cmp(a, b) == 0 <==> cmp(b, a) == 0
    ensures cmp(a, b) > 0 <==> cmp(b, a) < 0
    ensures cmp(a, b) < 0 <==> cmp(b, a) > 0
  {
    assert Antisymmetric(cmp, a, b) && Antisymmetric(cmp, b, a) && Antisymmetric(cmp, a, a);
  }

  /** Transitivity, strict as soon as one of the two steps is. */
  lemma CompareChain<K(!new)>(cmp: (K, K) -> int, a: K, b: K, c: K)
    requires TotalOrder(cmp) && cmp(a, b) <= 0 && cmp(b, c) <= 0
    ensures cmp(a, c) <= 0
    ensures cmp(a, b) < 0 || cmp(b, c) < 0 ==> cmp(a, c) < 0
  {
    CompareZero(cmp, a, c);
    CompareZero(cmp, a, b);
    CompareZero(cmp, b, c);
    assert Transitive(cmp, a, b, c) && Transitive(cmp, c, a, b) && Transitive(cmp, b, c, a);
  }

  lemma SameKeyIsEquivalence<K(!new)>(cmp: (K, K) -> int)
    requires TotalOrder(cmp)
    ensures Equivalence(SameKey(cmp))
  {
    var eq := SameKey(cmp);
    forall a ensures eq(a, a) {
      CompareZero(cmp, a, a);
    }
    forall a, b ensures Symmetric(eq, a, b) {
      CompareZero(cmp, a, b);
    }
    forall a, b, c ensures Composes(eq, a, b, c) {
      if eq(a, b) && eq(b, c) {
        CompareZero(cmp, a, b);
        CompareZero(cmp, b, c);
        CompareZero(cmp, a, c);
        CompareChain(cmp, a, b, c);
        CompareChain(cmp, c, b, a);
      }
    }
  }

  // ----- sorted sequences of entries

  ghost predicate Sorted<K, V>(cmp: (K, K) -> int, s: seq<Entry<K, V>>) {
    forall i, j :: 0 <= i < j < |s| ==> cmp(s[i].key, s[j].key) < 0
  }

  ghost predicate Above<K, V>(cmp: (K, K) -> int, k: K, s: seq<Entry<K, V>>) {
    forall i :: 0 <= i < |s| ==> cmp(k, s[i].key) > 0
  }

  ghost predicate Below<K, V>(cmp: (K, K) -> int, k: K, s: seq<Entry<K, V>>) {
    forall i :: 0 <= i < |s| ==> cmp(k, s[i].key) < 0
  }

  lemma AboveParts<K, V>(cmp: (K, K) -> int, k: K, a: seq<Entry<K, V>>, b: seq<Entry<K, V>>)
    ensures Above(cmp, k, a + b) <==> Above(cmp, k, a) && Above(cmp, k, b)
  {
    var s := a + b;
    assert forall i :: 0 <= i < |a| ==> a[i] == s[i];
    assert forall i :: 0 <= i < |b| ==> b[i] == s[|a| + i];
  }

  lemma BelowParts<K, V>(cmp: (K, K) -> int, k: K, a: seq<Entry<K, V>>, b: seq<Entry<K, V>>)
    ensures Below(cmp, k, a + b) <==> Below(cmp, k, a) && Below(cmp, k, b)
  {
    var s := a + b;
    assert forall i :: 0 <= i < |a| ==> a[i] == s[i];
    assert forall i :: 0 <= i < |b| ==> b[i] == s[|a| + i];
  }

  ghost function EntrySet<K, V>(s: seq<Entry<K, V>>): set<Entry<K, V>> {
    set e | e in s
  }

  lemma SortedIndices<K(!new), V>(cmp: (K, K) -> int, s: seq<Entry<K, V>>, i: int, j: int)
    requires TotalOrder(cmp) && Sorted(cmp, s) && 0 <= i < |s| && 0 <= j < |s|
    ensures cmp(s[i].key, s[j].key) == 0 <==> i == j
  {
    CompareZero(cmp, s[i].key, s[j].key);
  }

  lemma {:induction false} CountOfDistinct<E>(s: seq<E>)
    requires forall i, j :: 0 <= i < j < |s| ==> s[i] != s[j]
    ensures |(set e | e in s)| == |s|
  {
    if s != [] {
      var init, last := s[..|s| - 1], s[|s| - 1];
      CountOfDistinct(init);
      assert s == init + [last];
      assert (set e | e in s) == (set e | e in init) + {last};
    }
  }

  lemma SortedIsUnique<K(!new), V>(cmp: (K, K) -> int, s: seq<Entry<K, V>>)
    requires TotalOrder(cmp) && Sorted(cmp, s)
    ensures Unique(EntrySet(s), SameKey(cmp)) && |EntrySet(s)| == |s|
  {
    forall i, j | 0 <= i < |s| && 0 <= j < |s|
      ensures cmp(s[i].key, s[j].key) == 0 <==> i == j
    {
      SortedIndices(cmp, s, i, j);
    }
    DistinctAreUnique(cmp, s);
  }

  lemma DistinctAreUnique<K, V>(cmp: (K, K) -> int, s: seq<Entry<K, V>>)
    requires forall i, j :: 0 <= i < |s| && 0 <= j < |s| ==> (cmp(s[i].key, s[j].key) == 0 <==> i == j)
    ensures Unique(EntrySet(s), SameKey(cmp)) && |EntrySet(s)| == |s|
  {
    CountOfDistinct(s);
  }

  /** The order among entries decides on which side of each of them `k` belongs. */
  lemma KeySide<K(!new), V>(cmp: (K, K) -> int, a: seq<Entry<K, V>>, e: Entry<K, V>, b: seq<Entry<K, V>>, k: K)
    requires TotalOrder(cmp) && Sorted(cmp, a + [e] + b)
    ensures cmp(k, e.key) >= 0 ==> Above(cmp, k, a)
    ensures cmp(k, e.key) <= 0 ==> Below(cmp, k, b)
  {
    var s := a + [e] + b;
    if cmp(k, e.key) >= 0 {
      forall i | 0 <= i < |a| ensures cmp(k, a[i].key) > 0 {
        assert s[i] == a[i] && s[|a|] == e;
        CompareZero(cmp, k, e.key);
        CompareZero(cmp, k, a[i].key);
        CompareChain(cmp, a[i].key, e.key, k);
      }
    }
    if cmp(k, e.key) <= 0 {
      forall i | 0 <= i < |b| ensures cmp(k, b[i].key) < 0 {
        assert s[|a| + 1 + i] == b[i] && s[|a|] == e;
        CompareChain(cmp, k, e.key, b[i].key);
      }
    }
  }

  lemma Absent<K, V>(cmp: (K, K) -> int, a: seq<Entry<K, V>>, b: seq<Entry<K, V>>, k: K)
    requires Above(cmp, k, a) && Below(cmp, k, b)
    ensures !Has(EntrySet(a + b), SameKey(cmp), k)
  {
    forall e | e in EntrySet(a + b) ensures cmp(k, e.key) != 0 {
      assert e in a || e in b;
    }
  }

  lemma SortedWith<K, V>(cmp: (K, K) -> int, a: seq<Entry<K, V>>, e: Entry<K, V>, b: seq<Entry<K, V>>)
    requires Sorted(cmp, a + b) && Below(cmp, e.key, b)
    requires forall i :: 0 <= i < |a| ==> cmp(a[i].key, e.key) < 0
    ensures Sorted(cmp, a + [e] + b)
  {
    var s, t := a + b, a + [e] + b;
    forall i, j | 0 <= i < j < |t| ensures cmp(t[i].key, t[j].key) < 0 {
      if i != |a| && j != |a| {
        var i', j' := if i < |a| then i else i - 1, if j < |a| then j else j - 1;
        assert t[i] == s[i'] && t[j] == s[j'];
      }
    }
  }

  lemma BelowAll<K(!new), V>(cmp: (K, K) -> int, k: K, a: seq<Entry<K, V>>)
    requires TotalOrder(cmp)
    ensures Above(cmp, k, a) <==> forall i :: 0 <= i < |a| ==> cmp(a[i].key, k) < 0
  {
    forall i | 0 <= i < |a| ensures cmp(k, a[i].key) > 0 <==> cmp(a[i].key, k) < 0 {
      CompareZero(cmp, k, a[i].key);
    }
  }

  /** A new entry between the smaller and the larger ones. */
  lemma InsertedBetween<K(!new), V>(cmp: (K, K) -> int, a: seq<Entry<K, V>>, b: seq<Entry<K, V>>, k: K, v: V, overwrite: bool)
    requires TotalOrder(cmp) && Sorted(cmp, a + b) && Above(cmp, k, a) && Below(cmp, k, b)
    ensures Sorted(cmp, a + [Entry(k, v)] + b)
    ensures EntrySet(a + [Entry(k, v)] + b) == Put(EntrySet(a + b), SameKey(cmp), k, v, overwrite)
  {
    Absent(cmp, a, b, k);
    BelowAll(cmp, k, a);
    SortedWith(cmp, a, Entry(k, v), b);
    assert EntrySet(a + [Entry(k, v)] + b) == EntrySet(a + b) + {Entry(k, v)};
  }

  /** An entry is found: it is the only one with its key. */
  lemma Found<K(!new), V>(cmp: (K, K) -> int, a: seq<Entry<K, V>>, e: Entry<K, V>, b: seq<Entry<K, V>>, k: K)
    requires TotalOrder(cmp) && Sorted(cmp, a + [e] + b) && cmp(k, e.key) == 0
    ensures Finds(EntrySet(a + [e] + b), SameKey(cmp), k, Some(e))
    ensures forall x :: x in EntrySet(a) + EntrySet(b) ==> cmp(k, x.key) != 0
    ensures EntrySet(a + [e] + b) == EntrySet(a) + {e} + EntrySet(b)
  {
    KeySide(cmp, a, e, b, k);
    assert (a + [e] + b)[|a|] == e;
  }

  /** Storing another value, and an equivalent key if asked to, where the key was found. */
  lemma ReplacedAt<K(!new), V>(cmp: (K, K) -> int, a: seq<Entry<K, V>>, e: Entry<K, V>, b: seq<Entry<K, V>>, k: K, v: V, overwrite: bool)
    requires TotalOrder(cmp) && Sorted(cmp, a + [e] + b) && cmp(k, e.key) == 0
    ensures var e' := Entry(if overwrite then k else e.key, v);
            && Sorted(cmp, a + [e'] + b)
            && EntrySet(a + [e'] + b) == Put(EntrySet(a + [e] + b), SameKey(cmp), k, v, overwrite)
  {
    var e' := Entry(if overwrite then k else e.key, v);
    CompareZero(cmp, e.key, e.key);
    KeySide(cmp, a, e, b, e'.key);
    BelowAll(cmp, e'.key, a);
    RemovedSorted(cmp, a, e, b);
    SortedWith(cmp, a, e', b);
    Found(cmp, a, e, b, k);
    ReplacedSet(SameKey(cmp), a, e, b, k, v, overwrite);
  }

  lemma ReplacedSet<K, V>(eq: (K, K) -> bool, a: seq<Entry<K, V>>, e: Entry<K, V>, b: seq<Entry<K, V>>, k: K, v: V, overwrite: bool)
    requires eq(k, e.key) && forall x :: x in EntrySet(a) + EntrySet(b) ==> !eq(k, x.key)
    ensures EntrySet(a + [Entry(if overwrite then k else e.key, v)] + b) == Put(EntrySet(a + [e] + b), eq, k, v, overwrite)
  {
    var e' := Entry(if overwrite then k else e.key, v);
    var m := EntrySet(a + [e] + b);
    assert m == EntrySet(a) + {e} + EntrySet(b);
    assert e in m && Has(m, eq, k);
    assert EntrySet(a + [e'] + b) == EntrySet(a) + {e'} + EntrySet(b);
  }

  lemma RemovedSorted<K, V>(cmp: (K, K) -> int, a: seq<Entry<K, V>>, e: Entry<K, V>, b: seq<Entry<K, V>>)
    requires Sorted(cmp, a + [e] + b)
    ensures Sorted(cmp, a + b)
  {
    var s, t := a + b, a + [e] + b;
    forall i, j | 0 <= i < j < |s| ensures cmp(s[i].key, s[j].key) < 0 {
      var i', j' := if i < |a| then i else i + 1, if j < |a| then j else j + 1;
      assert s[i] == t[i'] && s[j] == t[j'];
    }
  }

  lemma RemovedAt<K(!new), V>(cmp: (K, K) -> int, a: seq<Entry<K, V>>, e: Entry<K, V>, b: seq<Entry<K, V>>, k: K)
    requires TotalOrder(cmp) && Sorted(cmp, a + [e] + b) && cmp(k, e.key) == 0
    ensures Sorted(cmp, a + b)
    ensures EntrySet(a + b) == Without(EntrySet(a + [e] + b), SameKey(cmp), k)
  {
    Found(cmp, a, e, b, k);
    RemovedSorted(cmp, a, e, b);
    assert EntrySet(a + b) == EntrySet(a) + EntrySet(b);
  }
}
