/** Any sequence of calls gives the same answers from the red-black tree, the hash
    table and the sorted array (the shared tests of test/test-map.m4).
 */
module MapClients {
  import opened Machine
  import opened MapSpec
  import opened Ordering
  import opened Pool
  import RbShape
  import RbTree
  import RbIter
  import HashIter
  import HashTable
  import AssocArray

  datatype Op<K, V> =
    | Set(key: K, value: V, overwriteKey: bool)
    | Remove(key: K)
    | Lookup(key: K)
    | KeyExists(key: K)
    | Count
    | Clear

  datatype Answer<K, V> =
    | Stored(result: SetResult)
    | Looked(entry: Option<Entry<K, V>>)
    | Exists(found: bool)
    | Size(count: nat)
    | Nothing

  ghost function After<K, V>(m: set<Entry<K, V>>, eq: (K, K) -> bool, op: Op<K, V>): set<Entry<K, V>> {
    match op
    case Set(key, value, overwriteKey) => Put(m, eq, key, value, overwriteKey)
    case Remove(key) => Without(m, eq, key)
    case Clear => {}
    case _ => m
  }

  /** `answer` is what a map with the entries `m` answers to `op`. */
  ghost predicate Answers<K, V>(m: set<Entry<K, V>>, eq: (K, K) -> bool, op: Op<K, V>, answer: Answer<K, V>) {
    match op
    case Set(key, _, _) => answer == Stored(if Has(m, eq, key) then Replaced else New)
    case Lookup(key) => answer.Looked? && Finds(m, eq, key, answer.entry)
    case KeyExists(key) => answer == Exists(Has(m, eq, key))
    case Count => answer == Size(|m|)
    case _ => answer == Nothing
  }

  /** The entries after the first `n` calls on an empty map. */
  ghost function Model<K, V>(eq: (K, K) -> bool, ops: seq<Op<K, V>>, n: nat): set<Entry<K, V>>
    requires n <= |ops|
  {
    if n == 0 then {} else After(Model(eq, ops, n - 1), eq, ops[n - 1])
  }

  ghost predicate AnsweredAt<K, V>(eq: (K, K) -> bool, ops: seq<Op<K, V>>, answers: seq<Answer<K, V>>, i: nat)
    requires i < |ops| && i < |answers|
  {
    Answers(Model(eq, ops, i), eq, ops[i], answers[i])
  }

  /** Each call is answered as the abstract map answers it. */
  ghost predicate Correct<K, V>(eq: (K, K) -> bool, ops: seq<Op<K, V>>, answers: seq<Answer<K, V>>) {
    |answers| <= |ops| && forall i {:trigger AnsweredAt(eq, ops, answers, i)} :: 0 <= i < |answers| ==> AnsweredAt(eq, ops, answers, i)
  }

  lemma {:induction false} ModelIsMap<K(!new), V>(eq: (K, K) -> bool, ops: seq<Op<K, V>>, n: nat)
    requires Equivalence(eq) && n <= |ops|
    ensures Unique(Model(eq, ops, n), eq) && |Model(eq, ops, n)| <= n
  {
    if n > 0 {
      ModelIsMap(eq, ops, n - 1);
      AfterIsMap(Model(eq, ops, n - 1), eq, ops[n - 1]);
    }
  }

  lemma AfterIsMap<K(!new), V>(m: set<Entry<K, V>>, eq: (K, K) -> bool, op: Op<K, V>)
    requires Equivalence(eq) && Unique(m, eq)
    ensures Unique(After(m, eq, op), eq) && |After(m, eq, op)| <= |m| + if op.Set? then 1 else 0
  {
    if op.Set? {
      PutLaws(m, eq, op.key, op.value, op.overwriteKey);
    } else if op.Remove? {
      assert Without(m, eq, op.key) <= m;
      Fewer(Without(m, eq, op.key), m);
    }
  }

  lemma {:induction false} Fewer<E>(a: set<E>, b: set<E>)
    requires a <= b
    ensures |a| <= |b|
    decreases a
  {
    if x :| x in a {
      Fewer(a - {x}, b - {x});
    }
  }

  /** There is one correct sequence of answers: whoever answers correctly answers alike. */
  lemma CorrectIsFunctional<K(!new), V>(eq: (K, K) -> bool, ops: seq<Op<K, V>>, a: seq<Answer<K, V>>, b: seq<Answer<K, V>>)
    requires Equivalence(eq) && Correct(eq, ops, a) && Correct(eq, ops, b) && |a| == |b|
    ensures a == b
  {
    forall i | 0 <= i < |a| ensures a[i] == b[i] {
      assert AnsweredAt(eq, ops, a, i) && AnsweredAt(eq, ops, b, i);
      ModelIsMap(eq, ops, i);
      if ops[i].Lookup? {
        FindsIsFunctional(Model(eq, ops, i), eq, ops[i].key, a[i].entry, b[i].entry);
      }
    }
  }

  // ----- the same without an abstract map: what the calls before say of one key

  /** What a call makes of the entry under `key`.  A set stores its own key if it is to
      overwrite or the key was not there. */
  ghost function Then<K, V>(before: Option<Entry<K, V>>, eq: (K, K) -> bool, op: Op<K, V>, key: K): Option<Entry<K, V>> {
    match op
    case Set(k, value, overwriteKey) =>
      if eq(k, key) then Some(Entry(if overwriteKey || before.None? then k else before.value.key, value)) else before
    case Remove(k) => if eq(k, key) then None else before
    case Clear => None
    case _ => before
  }

  /** The entry under `key` after the first `n` calls. */
  ghost function Present<K, V>(eq: (K, K) -> bool, ops: seq<Op<K, V>>, n: nat, key: K): Option<Entry<K, V>>
    requires n <= |ops|
  {
    if n == 0 then None else Then(Present(eq, ops, n - 1, key), eq, ops[n - 1], key)
  }

  /** Call `n` is about a key that is there. */
  ghost predicate Known<K, V>(eq: (K, K) -> bool, ops: seq<Op<K, V>>, n: nat)
    requires n < |ops|
  {
    match ops[n]
    case Set(key, _, _) => Present(eq, ops, n, key).Some?
    case Remove(key) => Present(eq, ops, n, key).Some?
    case KeyExists(key) => Present(eq, ops, n, key).Some?
    case _ => false
  }

  ghost function Recounted<K, V>(count: int, op: Op<K, V>, known: bool): int {
    match op
    case Set(_, _, _) => if known then count else count + 1
    case Remove(_) => if known then count - 1 else count
    case Clear => 0
    case _ => count
  }

  /** How many keys are there after the first `n` calls. */
  ghost function Tallied<K, V>(eq: (K, K) -> bool, ops: seq<Op<K, V>>, n: nat): int
    requires n <= |ops|
  {
    if n == 0 then 0 else Recounted(Tallied(eq, ops, n - 1), ops[n - 1], Known(eq, ops, n - 1))
  }

  /** `answer` is the one that the calls before call `n` determine. */
  ghost predicate Tells<K, V>(eq: (K, K) -> bool, ops: seq<Op<K, V>>, n: nat, answer: Answer<K, V>)
    requires n < |ops|
  {
    match ops[n]
    case Set(_, _, _) => answer == Stored(if Known(eq, ops, n) then Replaced else New)
    case Lookup(key) => answer == Looked(Present(eq, ops, n, key))
    case KeyExists(_) => answer == Exists(Known(eq, ops, n))
    case Count => answer.Size? && answer.count == Tallied(eq, ops, n)
    case _ => answer == Nothing
  }

  lemma SameClass<K(!new)>(eq: (K, K) -> bool, a: K, b: K, c: K)
    requires Equivalence(eq) && eq(a, b)
    ensures eq(a, c) <==> eq(b, c)
  {
    assert Symmetric(eq, a, b) && Composes(eq, a, b, c) && Composes(eq, b, a, c);
  }

  lemma FoundAfterPut<K(!new), V>(m: set<Entry<K, V>>, eq: (K, K) -> bool, k: K, v: V, overwrite: bool, key: K, r: Option<Entry<K, V>>)
    requires Equivalence(eq) && Unique(m, eq) && eq(k, key) && Finds(m, eq, key, r)
    ensures Finds(Put(m, eq, k, v, overwrite), eq, key, Some(Entry(if overwrite || r.None? then k else r.value.key, v)))
  {
    forall e | e in m ensures eq(k, e.key) <==> eq(key, e.key) {
      SameClass(eq, k, key, e.key);
    }
    SameClass(eq, k, key, k);
    if r.Some? {
      var prior, fresher := PutReplaces(m, eq, k, v, overwrite);
      FindsIsFunctional(m, eq, key, r, Some(prior));
      SameClass(eq, k, key, fresher.key);
    }
  }

  lemma FoundAfterRemove<K(!new), V>(m: set<Entry<K, V>>, eq: (K, K) -> bool, k: K, key: K, r: Option<Entry<K, V>>)
    requires Equivalence(eq) && Finds(m, eq, key, r)
    ensures Finds(Without(m, eq, k), eq, key, if eq(k, key) then None else r)
  {
    if eq(k, key) {
      forall e | e in m ensures eq(k, e.key) <==> eq(key, e.key) {
        SameClass(eq, k, key, e.key);
      }
    } else if r.Some? {
      assert Symmetric(eq, key, k);
      InequivalentStep(eq, key, r.value.key, k);
    }
  }

  lemma FoundAfter<K(!new), V>(m: set<Entry<K, V>>, eq: (K, K) -> bool, op: Op<K, V>, key: K, r: Option<Entry<K, V>>)
    requires Equivalence(eq) && Unique(m, eq) && Finds(m, eq, key, r)
    ensures Finds(After(m, eq, op), eq, key, Then(r, eq, op, key))
  {
    match op
    case Set(k, value, overwriteKey) =>
      if eq(k, key) {
        FoundAfterPut(m, eq, k, value, overwriteKey, key, r);
      } else {
        PutFrame(m, eq, k, value, overwriteKey, key, r);
      }
    case Remove(k) => FoundAfterRemove(m, eq, k, key, r);
    case _ =>
  }

  /** The abstract map finds under each key what the calls say of it. */
  lemma {:induction false} ModelFinds<K(!new), V>(eq: (K, K) -> bool, ops: seq<Op<K, V>>, n: nat, key: K)
    requires Equivalence(eq) && n <= |ops|
    ensures Finds(Model(eq, ops, n), eq, key, Present(eq, ops, n, key))
  {
    if n > 0 {
      ModelFinds(eq, ops, n - 1, key);
      ModelIsMap(eq, ops, n - 1);
      FoundAfter(Model(eq, ops, n - 1), eq, ops[n - 1], key, Present(eq, ops, n - 1, key));
    }
  }

  lemma WithoutCount<K(!new), V>(m: set<Entry<K, V>>, eq: (K, K) -> bool, k: K)
    requires Equivalence(eq) && Unique(m, eq)
    ensures |Without(m, eq, k)| == |m| - if Has(m, eq, k) then 1 else 0
  {
    if x :| x in m && eq(k, x.key) {
      forall e | e in m && eq(k, e.key) ensures e == x {
        EquivalentStep(eq, k, e.key, x.key);
      }
      assert Without(m, eq, k) == m - {x};
    } else {
      assert Without(m, eq, k) == m;
    }
  }

  lemma AfterCount<K(!new), V>(m: set<Entry<K, V>>, eq: (K, K) -> bool, op: Op<K, V>, known: bool)
    requires Equivalence(eq) && Unique(m, eq)
    requires op.Set? || op.Remove? ==> known == Has(m, eq, op.key)
    ensures |After(m, eq, op)| == Recounted(|m|, op, known)
  {
    if op.Set? {
      PutLaws(m, eq, op.key, op.value, op.overwriteKey);
    } else if op.Remove? {
      WithoutCount(m, eq, op.key);
    }
  }

  lemma KnownIsHad<K(!new), V>(eq: (K, K) -> bool, ops: seq<Op<K, V>>, n: nat)
    requires Equivalence(eq) && n < |ops|
    ensures var op := ops[n];
            op.Set? || op.Remove? || op.KeyExists? ==> (Known(eq, ops, n) <==> Has(Model(eq, ops, n), eq, op.key))
  {
    var op := ops[n];
    if op.Set? || op.Remove? || op.KeyExists? {
      var m, r := Model(eq, ops, n), Present(eq, ops, n, op.key);
      ModelFinds(eq, ops, n, op.key);
      FindsHas(m, eq, op.key, r);
    }
  }

  lemma FindsHas<K, V>(m: set<Entry<K, V>>, eq: (K, K) -> bool, k: K, r: Option<Entry<K, V>>)
    requires Finds(m, eq, k, r)
    ensures Has(m, eq, k) <==> r.Some?
  {
  }

  /** And has as many entries as they say. */
  lemma {:induction false} ModelCounts<K(!new), V>(eq: (K, K) -> bool, ops: seq<Op<K, V>>, n: nat)
    requires Equivalence(eq) && n <= |ops|
    ensures |Model(eq, ops, n)| == Tallied(eq, ops, n)
  {
    if n > 0 {
      ModelCounts(eq, ops, n - 1);
      ModelIsMap(eq, ops, n - 1);
      KnownIsHad(eq, ops, n - 1);
      AfterCount(Model(eq, ops, n - 1), eq, ops[n - 1], Known(eq, ops, n - 1));
    }
  }

  /** So each correct answer is the one that the calls before determine. */
  lemma CorrectTells<K(!new), V>(eq: (K, K) -> bool, ops: seq<Op<K, V>>, answers: seq<Answer<K, V>>, i: nat)
    requires Equivalence(eq) && Correct(eq, ops, answers) && i < |answers|
    ensures Tells(eq, ops, i, answers[i])
  {
    assert AnsweredAt(eq, ops, answers, i);
    KnownIsHad(eq, ops, i);
    ModelCounts(eq, ops, i);
    if ops[i].Lookup? {
      ModelFinds(eq, ops, i, ops[i].key);
      ModelIsMap(eq, ops, i);
      FindsIsFunctional(Model(eq, ops, i), eq, ops[i].key, answers[i].entry, Present(eq, ops, i, ops[i].key));
    }
  }

  /** A map that has answered correctly so far, and stands where the abstract map stands. */
  ghost predicate Tracks<K, V>(m: set<Entry<K, V>>, eq: (K, K) -> bool, ops: seq<Op<K, V>>, answers: seq<Answer<K, V>>) {
    Correct(eq, ops, answers) && m == Model(eq, ops, |answers|)
  }

  lemma TracksSize<K(!new), V>(m: set<Entry<K, V>>, eq: (K, K) -> bool, ops: seq<Op<K, V>>, answers: seq<Answer<K, V>>)
    requires Equivalence(eq) && Tracks(m, eq, ops, answers)
    ensures |m| <= |answers| <= |ops|
  {
    ModelIsMap(eq, ops, |answers|);
  }

  lemma TracksOn<K, V>(m: set<Entry<K, V>>, m': set<Entry<K, V>>, eq: (K, K) -> bool, ops: seq<Op<K, V>>,
                       answers: seq<Answer<K, V>>, answer: Answer<K, V>)
    requires Tracks(m, eq, ops, answers) && |answers| < |ops|
    requires m' == After(m, eq, ops[|answers|]) && Answers(m, eq, ops[|answers|], answer)
    ensures Tracks(m', eq, ops, answers + [answer])
  {
    forall i | 0 <= i < |answers + [answer]| ensures AnsweredAt(eq, ops, answers + [answer], i) {
      assert i < |answers| ==> AnsweredAt(eq, ops, answers, i);
    }
  }

  // ----- the red-black tree

  /** A full tree takes no other key than the one at its root (rbtree.c:460-489). */
  ghost predicate TreeRefuses<K(!new), V>(tree: RbTree.RBTree<K, V>, op: Op<K, V>)
    reads tree, tree.root
  {
    op.Set? && tree.count == SIZE_MAX && tree.root != null && tree.compareKeys(op.key, tree.root.key) != 0
  }

  method TreeStep<K(!new), V>(tree: RbTree.RBTree<K, V>, op: Op<K, V>) returns (answer: Answer<K, V>)
    requires tree.Valid()
    modifies tree, tree.stack, tree.nodes
    ensures tree.Valid() && fresh(tree.nodes - old(tree.nodes)) && (tree.stack == old(tree.stack) || fresh(tree.stack))
    ensures old(TreeRefuses(tree, op)) ==> answer == Stored(Failed) && tree.Entries() == old(tree.Entries())
    ensures !old(TreeRefuses(tree, op)) ==>
              && tree.Entries() == After(old(tree.Entries()), SameKey(tree.compareKeys), op)
              && Answers(old(tree.Entries()), SameKey(tree.compareKeys), op, answer)
  {
    match op
    case Set(key, value, overwriteKey) =>
      var result := tree.Set(key, value, overwriteKey);
      answer := Stored(result);
    case Remove(key) =>
      var removed := tree.Remove(key);
      answer := Nothing;
    case Lookup(key) =>
      var entry := tree.Lookup(key);
      answer := Looked(entry);
    case KeyExists(key) =>
      var found := tree.KeyExists(key);
      answer := Exists(found);
    case Count =>
      tree.CountsEntries();
      answer := Size(tree.count);
    case Clear =>
      tree.Clear();
      answer := Nothing;
  }

  method RunTree<K(!new), V>(cmp: (K, K) -> int, ops: seq<Op<K, V>>) returns (answers: seq<Answer<K, V>>)
    requires TotalOrder(cmp) && |ops| <= SIZE_MAX
    ensures Correct(SameKey(cmp), ops, answers) && |answers| == |ops|
  {
    SameKeyIsEquivalence(cmp);
    var tree := new RbTree.RBTree(cmp);
    answers := [];
    while |answers| < |ops|
      invariant tree.Valid() && fresh(tree) && fresh(tree.stack) && fresh(tree.nodes) && tree.compareKeys == cmp
      invariant Tracks(tree.Entries(), SameKey(cmp), ops, answers)
      decreases |ops| - |answers|
    {
      ghost var m := tree.Entries();
      tree.CountsEntries();
      TracksSize(m, SameKey(cmp), ops, answers);
      var answer := TreeStep(tree, ops[|answers|]);
      TracksOn(m, tree.Entries(), SameKey(cmp), ops, answers, answer);
      answers := answers + [answer];
    }
  }

  // ----- the sorted array

  method ArrayStep<K(!new, 0), V(0)>(array_: AssocArray.AssocArray<K, V>, op: Op<K, V>) returns (answer: Answer<K, V>)
    requires array_.Valid() && (op.Set? ==> array_.count < AssocArray.ASSOC_ARRAY_MAX_SIZE || array_.Knows(op.key))
    modifies array_, array_.keys, array_.values
    ensures array_.Valid()
    ensures (array_.keys == old(array_.keys) || fresh(array_.keys)) && (array_.values == old(array_.values) || fresh(array_.values))
    ensures array_.Entries() == After(old(array_.Entries()), SameKey(array_.compareKeys), op)
    ensures Answers(old(array_.Entries()), SameKey(array_.compareKeys), op, answer)
  {
    match op
    case Set(key, value, overwriteKey) =>
      var result := array_.Set(key, value, overwriteKey);
      answer := Stored(result);
    case Remove(key) =>
      array_.Remove(key);
      answer := Nothing;
    case Lookup(key) =>
      var entry := array_.Lookup(key);
      answer := Looked(entry);
    case KeyExists(key) =>
      var found := array_.KeyExists(key);
      answer := Exists(found);
    case Count =>
      array_.CountsEntries();
      answer := Size(array_.count);
    case Clear =>
      array_.Clear();
      answer := Nothing;
  }

  method RunArray<K(!new, 0), V(0)>(cmp: (K, K) -> int, ops: seq<Op<K, V>>) returns (answers: seq<Answer<K, V>>)
    requires TotalOrder(cmp) && |ops| <= AssocArray.ASSOC_ARRAY_MAX_SIZE
    ensures Correct(SameKey(cmp), ops, answers) && |answers| == |ops|
  {
    SameKeyIsEquivalence(cmp);
    var array_ := new AssocArray.AssocArray(cmp);
    answers := [];
    while |answers| < |ops|
      invariant array_.Valid() && fresh(array_) && fresh(array_.keys) && fresh(array_.values) && array_.compareKeys == cmp
      invariant Tracks(array_.Entries(), SameKey(cmp), ops, answers)
      decreases |ops| - |answers|
    {
      ghost var m := array_.Entries();
      array_.CountsEntries();
      TracksSize(m, SameKey(cmp), ops, answers);
      var answer := ArrayStep(array_, ops[|answers|]);
      TracksOn(m, array_.Entries(), SameKey(cmp), ops, answers, answer);
      answers := answers + [answer];
    }
  }

  // ----- the hash table

  // The largest table size (hashtable.c:89); up to there a table can always grow.
  const MAX_CALLS := 930097768020790181

  /** Memory from `base` on belongs to no block: what malloc() may return. */
  ghost predicate UnusedFrom(bases: seq<nat>, base: nat, itemSize: nat, blockSize: nat) {
    base > 0 && forall i {:trigger bases[i]} :: 0 <= i < |bases| ==> Slot(bases[i], itemSize, blockSize) <= base
  }

  /** A full table takes no new key (hashtable.c:345-361). */
  ghost predicate TableRefuses<K(!new), V>(table: HashTable.HashTable<K, V>, op: Op<K, V>)
    requires table.Valid()
    reads table, table.buckets, table.pool, table.pool.block, table.pool.repr
  {
    op.Set? && table.count == SIZE_MAX && !table.Knows(op.key)
  }

  /** A crowded table that grows has a next size to grow to. */
  ghost predicate CanGrow<K(!new), V>(table: HashTable.HashTable<K, V>)
    requires table.Valid()
    reads table, table.buckets, table.pool, table.pool.block, table.pool.repr
  {
    table.grow && table.count > table.buckets.Length ==> table.sizes[table.sizeIndex + 1] != 0
  }

  /** A table that grows has at most one bucket more than slots, except after the one drop in
      the list of sizes (hashtable.c:65-66) until the sizes have caught up again. */
  ghost predicate Roomy(count: nat, slots: nat, sizeIndex: nat) {
    count <= slots + 1 || (25 <= sizeIndex <= 27 && count <= 554381470637 + sizeIndex - 23)
  }

  /** Each call leaves such a table such a table; `crowded` tells that it is a set on a table
      with more buckets than slots, which then gets the next size. */
  lemma StaysRoomy(count: nat, slots: nat, sizeIndex: nat, isSet: bool, count': nat, slots': nat, sizeIndex': nat)
    requires sizeIndex < 49 && slots == HashTable.PRIMES[sizeIndex] && Roomy(count, slots, sizeIndex)
    requires var crowded := isSet && count > slots;
             && (crowded ==> sizeIndex < 48) && sizeIndex' == sizeIndex + (if crowded then 1 else 0)
             && slots' == if crowded then HashTable.PRIMES[sizeIndex + 1] else slots
    requires count' <= count + if isSet then 1 else 0
    ensures Roomy(count', slots', sizeIndex')
  {
    if isSet && count > slots {
      HashTable.SizesGrow(sizeIndex);
    }
  }

  lemma FewCallsCanGrow<K(!new), V>(table: HashTable.HashTable<K, V>)
    requires table.Valid() && (table.grow ==> table.sizes == HashTable.PRIMES && table.count < MAX_CALLS)
    ensures CanGrow(table)
  {
    HashTable.PrimesAreSizes();
  }

  method TableStep<K(!new), V>(table: HashTable.HashTable<K, V>, op: Op<K, V>, memory: nat) returns (answer: Answer<K, V>, memory': nat)
    requires table.Valid() && (op.Set? ==> CanGrow(table))
    requires UnusedFrom(table.pool.block.bases, memory, table.pool.itemSize, table.pool.blockSize)
    modifies table, table.buckets, table.pool, table.pool.block, table.pool.repr
    ensures table.Valid()
    ensures (table.buckets == old(table.buckets) || fresh(table.buckets)) && (table.pool == old(table.pool) || fresh(table.pool))
    ensures (table.pool.block == old(table.pool.block) || fresh(table.pool.block)) && fresh(table.pool.repr - old(table.pool.repr))
    ensures old(TableRefuses(table, op)) ==> answer == Stored(Failed) && table.Entries() == old(table.Entries())
    ensures !old(TableRefuses(table, op)) ==>
              && table.Entries() == After(old(table.Entries()), table.compareKeys, op)
              && Answers(old(table.Entries()), table.compareKeys, op, answer)
    ensures UnusedFrom(table.pool.block.bases, memory', table.pool.itemSize, table.pool.blockSize)
    ensures table.sizeIndex == old(table.sizeIndex) + if op.Set? && old(table.grow && table.count > table.buckets.Length) then 1 else 0
    ensures table.buckets.Length
         == if op.Set? && old(table.grow && table.count > table.buckets.Length) then table.sizes[old(table.sizeIndex) + 1] else old(table.buckets.Length)
  {
    memory' := memory;
    match op
    case Set(key, value, overwriteKey) =>
      var result := table.Set(key, value, overwriteKey, memory);
      SlotsAscend(memory, table.pool.itemSize, 0, table.pool.blockSize);
      memory' := Slot(memory, table.pool.itemSize, table.pool.blockSize);
      answer := Stored(result);
    case Remove(key) =>
      table.Remove(key);
      answer := Nothing;
    case Lookup(key) =>
      var entry := table.Lookup(key);
      answer := Looked(entry);
    case KeyExists(key) =>
      var found := table.KeyExists(key);
      answer := Exists(found);
    case Count =>
      table.CountsEntries();
      answer := Size(table.count);
    case Clear =>
      table.Clear(memory);
      SlotsAscend(memory, table.pool.itemSize, 0, table.pool.blockSize);
      memory' := Slot(memory, table.pool.itemSize, table.pool.blockSize);
      answer := Nothing;
  }

  /** How many slots a table has that was made for `size`: with 0 it grows, with any other
      size it keeps that size. */
  ghost predicate SizedFor<K(!new), V>(size: nat, table: HashTable.HashTable<K, V>)
    reads table, table.buckets
  {
    if size != 0 then table.buckets.Length == size
    else
      && table.sizeIndex < 49 && table.buckets.Length == HashTable.PRIMES[table.sizeIndex]
      && Roomy(table.count, table.buckets.Length, table.sizeIndex)
  }

  /** One call of a run. */
  method TableTurn<K(!new), V>(table: HashTable.HashTable<K, V>, op: Op<K, V>, memory: nat, ghost size: nat)
    returns (answer: Answer<K, V>, memory': nat)
    requires table.Valid() && table.sizes == HashTable.PRIMES && table.grow == (size == 0) && SizedFor(size, table)
    requires table.count < if size == 0 then MAX_CALLS else SIZE_MAX
    requires UnusedFrom(table.pool.block.bases, memory, table.pool.itemSize, table.pool.blockSize)
    modifies table, table.buckets, table.pool, table.pool.block, table.pool.repr
    ensures table.Valid() && SizedFor(size, table)
    ensures (table.buckets == old(table.buckets) || fresh(table.buckets)) && (table.pool == old(table.pool) || fresh(table.pool))
    ensures (table.pool.block == old(table.pool.block) || fresh(table.pool.block)) && fresh(table.pool.repr - old(table.pool.repr))
    ensures table.Entries() == After(old(table.Entries()), table.compareKeys, op)
    ensures Answers(old(table.Entries()), table.compareKeys, op, answer)
    ensures UnusedFrom(table.pool.block.bases, memory', table.pool.itemSize, table.pool.blockSize)
  {
    ghost var m, count, slots, sizeIndex := table.Entries(), table.count, table.buckets.Length, table.sizeIndex;
    HashTable.PrimesAreSizes();
    table.CountsEntries();
    FewCallsCanGrow(table);
    AfterIsMap(m, table.compareKeys, op);
    answer, memory' := TableStep(table, op, memory);
    table.CountsEntries();
    if size == 0 {
      StaysRoomy(count, slots, sizeIndex, op.Set?, table.count, table.buckets.Length, table.sizeIndex);
    }
  }

  method RunTable<K(!new), V>(size: nat, hash: K -> nat, eq: (K, K) -> bool, ops: seq<Op<K, V>>)
    returns (table: HashTable.HashTable<K, V>, answers: seq<Answer<K, V>>)
    requires Equivalence(eq) && (forall a, b :: HashTable.HashRespects(hash, eq, a, b))
    requires |ops| <= if size == 0 then MAX_CALLS else SIZE_MAX
    ensures Correct(eq, ops, answers) && |answers| == |ops|
    ensures fresh(table) && table.Valid() && table.Entries() == Model(eq, ops, |ops|) && SizedFor(size, table)
  {
    table := new HashTable.HashTable(size, hash, eq, 1);
    HashTable.PrimesAreSizes();
    var memory := Slot(1, table.pool.itemSize, table.pool.blockSize);
    SlotsAscend(1, table.pool.itemSize, 0, table.pool.blockSize);
    answers := [];
    while |answers| < |ops|
      invariant table.Valid() && table.compareKeys == eq && table.sizes == HashTable.PRIMES && table.grow == (size == 0)
      invariant fresh(table) && fresh(table.buckets) && fresh(table.pool) && fresh(table.pool.block) && fresh(table.pool.repr)
      invariant UnusedFrom(table.pool.block.bases, memory, table.pool.itemSize, table.pool.blockSize)
      invariant Tracks(table.Entries(), eq, ops, answers) && SizedFor(size, table)
      decreases |ops| - |answers|
    {
      ghost var m := table.Entries();
      table.CountsEntries();
      TracksSize(m, eq, ops, answers);
      var answer;
      answer, memory := TableTurn(table, ops[|answers|], memory, size);
      TracksOn(m, table.Entries(), eq, ops, answers, answer);
      answers := answers + [answer];
    }
  }

  /** The equal function given to the hash table and the compare function given to the
      other two decide alike which keys are the same. */
  ghost predicate Agree<K(!new)>(cmp: (K, K) -> int, eq: (K, K) -> bool) {
    forall a, b :: eq(a, b) <==> cmp(a, b) == 0
  }

  lemma {:induction false} ModelAgrees<K(!new), V>(cmp: (K, K) -> int, eq: (K, K) -> bool, ops: seq<Op<K, V>>, n: nat)
    requires Agree(cmp, eq) && n <= |ops|
    ensures Model(eq, ops, n) == Model(SameKey(cmp), ops, n)
  {
    if n > 0 {
      ModelAgrees(cmp, eq, ops, n - 1);
      AfterAgrees(Model(eq, ops, n - 1), cmp, eq, ops[n - 1]);
    }
  }

  lemma AfterAgrees<K(!new), V>(m: set<Entry<K, V>>, cmp: (K, K) -> int, eq: (K, K) -> bool, op: Op<K, V>)
    requires Agree(cmp, eq)
    ensures After(m, eq, op) == After(m, SameKey(cmp), op)
    ensures forall answer :: Answers(m, eq, op, answer) <==> Answers(m, SameKey(cmp), op, answer)
  {
    forall k ensures Has(m, eq, k) <==> Has(m, SameKey(cmp), k) {
    }
  }

  lemma CorrectAgrees<K(!new), V>(cmp: (K, K) -> int, eq: (K, K) -> bool, ops: seq<Op<K, V>>, answers: seq<Answer<K, V>>)
    requires Agree(cmp, eq) && Correct(eq, ops, answers)
    ensures Correct(SameKey(cmp), ops, answers)
  {
    forall i | 0 <= i < |answers| ensures AnsweredAt(SameKey(cmp), ops, answers, i) {
      assert AnsweredAt(eq, ops, answers, i);
      ModelAgrees(cmp, eq, ops, i);
      AfterAgrees(Model(eq, ops, i), cmp, eq, ops[i]);
    }
  }

  lemma AgreeIsEquivalence<K(!new)>(cmp: (K, K) -> int, eq: (K, K) -> bool)
    requires TotalOrder(cmp) && Agree(cmp, eq)
    ensures Equivalence(eq)
  {
    SameKeyIsEquivalence(cmp);
    forall a, b ensures Symmetric(eq, a, b) {
      assert Symmetric(SameKey(cmp), a, b);
    }
    forall a, b, c ensures Composes(eq, a, b, c) {
      assert Composes(SameKey(cmp), a, b, c);
    }
    forall a ensures eq(a, a) {
      assert SameKey(cmp)(a, a);
    }
  }

  /** The three maps, driven alike, answer alike. */
  method RunAll<K(!new, 0), V(0)>(cmp: (K, K) -> int, eq: (K, K) -> bool, size: nat, hash: K -> nat, ops: seq<Op<K, V>>)
    returns (tree: seq<Answer<K, V>>, table: seq<Answer<K, V>>, array_: seq<Answer<K, V>>)
    requires TotalOrder(cmp) && Agree(cmp, eq) && (forall a, b :: HashTable.HashRespects(hash, eq, a, b))
    requires |ops| <= if size == 0 then MAX_CALLS else AssocArray.ASSOC_ARRAY_MAX_SIZE
    ensures tree == table == array_ && |tree| == |ops| && Correct(SameKey(cmp), ops, tree)
  {
    SameKeyIsEquivalence(cmp);
    AgreeIsEquivalence(cmp, eq);
    tree := RunTree(cmp, ops);
    var made;
    made, table := RunTable(size, hash, eq, ops);
    array_ := RunArray(cmp, ops);
    CorrectAgrees(cmp, eq, ops, table);
    CorrectIsFunctional(SameKey(cmp), ops, tree, table);
    CorrectIsFunctional(SameKey(cmp), ops, tree, array_);
  }

  /** Three maps with the same entries: each iteration visits each entry once, in its own order. */
  method CollectAll<K(!new, 0), V(0)>(tree: RbTree.RBTree<K, V>, table: HashTable.HashTable<K, V>, array_: AssocArray.AssocArray<K, V>)
    returns (fromTree: seq<Entry<K, V>>, fromTable: seq<Entry<K, V>>, fromArray: seq<Entry<K, V>>)
    requires tree.Valid() && table.Valid() && array_.Valid()
    requires tree.Entries() == table.Entries() == array_.Entries()
    ensures EntrySet(fromTree) == EntrySet(fromTable) == EntrySet(fromArray) == tree.Entries()
    ensures |fromTree| == |fromTable| == |fromArray| == |tree.Entries()|
  {
    fromTree := RbIter.Collect(tree);
    PreOrderCovers(tree);
    ghost var order;
    fromTable, order := HashIter.Collect(table);
    table.CountsEntries();
    fromArray := array_.Collect();
    array_.CountsEntries();
  }

  lemma PreOrderCovers<K(!new), V>(tree: RbTree.RBTree<K, V>)
    requires tree.Valid()
    ensures EntrySet(RbIter.PreOrder(tree.tree)) == tree.Entries() && |RbIter.PreOrder(tree.tree)| == |tree.Entries()|
  {
    var s, t := RbIter.PreOrder(tree.tree), RbShape.InOrder(tree.tree);
    RbIter.VisitsEachEntry(tree.tree);
    tree.CountsEntries();
    forall e ensures e in EntrySet(s) <==> e in EntrySet(t) {
      assert e in multiset(s) <==> e in multiset(t);
    }
    assert EntrySet(s) == EntrySet(t);
  }
}
