/** Iteration over a hash table (hashtable.c:488-534): chain after chain. */
module HashIter {
  import opened MapSpec
  import opened Ordering
  import opened HashChains
  import opened HashTable
  import opened Pool

  /** The first `n` chains, one after the other. */
  ghost function Flat(chains: seq<seq<nat>>, n: nat): seq<nat>
    requires n <= |chains|
  {
    if n == 0 then [] else Flat(chains, n - 1) + chains[n - 1]
  }

  lemma {:induction false} FlatGrows(chains: seq<seq<nat>>, m: nat, n: nat)
    requires m <= n <= |chains|
    ensures |Flat(chains, m)| <= |Flat(chains, n)|
  {
    if m < n {
      FlatGrows(chains, m, n - 1);
    }
  }

  /** The first `n` chains hold each bucket whose key belongs there, once, and no other. */
  lemma {:induction false} FlatHolds<K, V>(hash: K -> nat, heads: seq<nat>, mem: Memory<K, V>, chains: seq<seq<nat>>,
                                           live: set<nat>, n: nat)
    requires Linked(hash, heads, mem, chains, live) && n <= |chains|
    ensures forall a :: a in Flat(chains, n) <==> a in live && Home(hash, mem[a].key, |chains|) < n
    ensures Distinct(Flat(chains, n))
  {
    if n > 0 {
      FlatHolds(hash, heads, mem, chains, live, n - 1);
      assert Bin(hash, mem, heads[n - 1], chains[n - 1], live, n - 1, |heads|);
      forall a | a in live && Home(hash, mem[a].key, |chains|) == n - 1 ensures a in chains[n - 1] {
        assert Placed(hash, mem, chains, a);
      }
      Appended(Flat(chains, n - 1), chains[n - 1]);
    }
  }

  lemma Appended(s: seq<nat>, t: seq<nat>)
    requires Distinct(s) && Distinct(t) && forall a :: a in s ==> a !in t
    ensures Distinct(s + t) && forall a :: a in s + t <==> a in s || a in t
  {
    forall i, j | 0 <= i < j < |s + t| ensures (s + t)[i] != (s + t)[j] {
      assert i < |s| <= j ==> s[i] in s && t[j - |s|] in t;
    }
  }

  /** The entries of the first `n` buckets of `s`. */
  ghost function EntriesAt<K, V>(mem: Memory<K, V>, s: seq<nat>, n: nat): seq<Entry<K, V>>
    requires n <= |s|
  {
    if n == 0 then [] else EntriesAt(mem, s, n - 1) + if s[n - 1] in mem then [EntryAt(mem, s[n - 1])] else []
  }

  lemma {:induction false} EntriesAtKept<K, V>(mem: Memory<K, V>, s: seq<nat>, a: nat, n: nat)
    requires n <= |s|
    ensures EntriesAt(mem, s + [a], n) == EntriesAt(mem, s, n)
  {
    if n > 0 {
      EntriesAtKept(mem, s, a, n - 1);
    }
  }

  class HashTableIter<K(!new), V> {
    const table: HashTable<K, V>
    var offset: nat
    var liter: nat
    var finished: bool

    ghost var place: nat  // of `liter` in its chain

    /** The chains of the table are in order. */
    ghost predicate Chained()
      reads table`buckets, table`mem, table`chains, table`pool, table.buckets, table.pool`live
    {
      Linked(table.hash, table.buckets[..], table.mem, table.chains, table.pool.live)
    }

    /** `liter` stands in the chain before `offset`. */
    ghost predicate Positioned()
      reads this, table`buckets, table`chains
    {
      && offset <= table.buckets.Length == |table.chains|
      && (liter != 0 ==> 0 < offset && place < |table.chains[offset - 1]| && table.chains[offset - 1][place] == liter)
      && (finished ==> offset == table.buckets.Length && liter == 0)
    }

    /** The buckets visited so far, `liter` last. */
    ghost function Seen(): seq<nat>
      requires Positioned()
      reads this, table`buckets, table`chains
    {
      if liter == 0 then Flat(table.chains, offset)
      else Flat(table.chains, offset - 1) + table.chains[offset - 1][..place + 1]
    }

    constructor (table: HashTable<K, V>)
      requires table.Organised()
      ensures Chained() && Positioned() && this.table == table && Seen() == [] && liter == 0
    {
      this.table, offset, liter, finished, place := table, 0, 0, false, 0;
    }

    /** How the links lead through chain `i`. */
    lemma Links(i: nat, k: nat)
      requires Chained() && i < table.buckets.Length == |table.chains| && k < |table.chains[i]|
      ensures var s := table.chains[i];
              && s[k] != 0 && s[k] in table.mem
              && (if k + 1 < |s| then table.mem[s[k]].next == s[k + 1] != 0 else table.mem[s[k]].next == 0)
    {
      var s := table.chains[i];
      assert Bin(table.hash, table.mem, table.buckets[..][i], s, table.pool.live, i, table.buckets.Length);
      ChainAt(table.mem, table.buckets[i], s, k);
      if k + 1 < |s| {
        ChainAt(table.mem, table.buckets[i], s, k + 1);
      }
    }

    lemma Heads(i: nat)
      requires Chained() && i < table.buckets.Length == |table.chains|
      ensures table.buckets[i] == if table.chains[i] == [] then 0 else table.chains[i][0]
      ensures table.chains[i] != [] ==> table.buckets[i] != 0
    {
      assert Bin(table.hash, table.mem, table.buckets[..][i], table.chains[i], table.pool.live, i, table.buckets.Length);
    }

    lemma SeenWithin()
      requires Positioned()
      ensures |Seen()| <= |Flat(table.chains, |table.chains|)|
    {
      FlatGrows(table.chains, offset, |table.chains|);
    }

    /** Stand before the chain at `offset`. */
    method NextChain()
      requires Chained() && Positioned() && liter == 0 && offset < table.buckets.Length && !finished
      modifies this`offset, this`liter, this`place
      ensures Positioned() && offset == old(offset) + 1
      ensures Seen() == old(Seen()) + if liter != 0 then [liter] else []
    {
      Heads(offset);
      liter := table.buckets[offset];
      offset := offset + 1;
      place := 0;
      assert liter != 0 ==> table.chains[offset - 1][..1] == [liter];
    }

    /** _hashtable_iter_get_next_bucket: on to the next chain that is not empty. */
    method GetNextBucket() returns (found: bool)
      requires Chained() && Positioned() && liter == 0 && !finished
      modifies this`offset, this`liter, this`place
      ensures Positioned() && found == (liter != 0)
      ensures Seen() == old(Seen()) + if found then [liter] else []
      ensures !found ==> offset == table.buckets.Length
    {
      liter := 0;
      while liter == 0 && offset < table.buckets.Length
        invariant Positioned()
        invariant Seen() == old(Seen()) + if liter != 0 then [liter] else []
        decreases table.buckets.Length - offset
      {
        NextChain();
      }
      return liter != 0;
    }

    /** On within the chain (hashtable.c:521-525). */
    method Follow() returns (success: bool)
      requires Chained() && Positioned() && liter != 0 && !finished
      modifies this`liter, this`place
      ensures Positioned() && success == (liter != 0)
      ensures Seen() == old(Seen()) + if success then [liter] else []
    {
      Links(offset - 1, place);
      liter := table.mem[liter].next;
      place := place + 1;
      success := liter != 0;
      ghost var s := table.chains[offset - 1];
      assert if success then s[..place + 1] == s[..place] + [liter] else s[..place] == s;
    }

    /** hashtable_iter_next: on to the next bucket; there is none after the last. */
    method MoveNext() returns (success: bool)
      requires Chained() && Positioned()
      modifies this
      ensures Positioned() && success == (liter != 0)
      ensures Seen() == old(Seen()) + if success then [liter] else []
      ensures !success ==> Seen() == Flat(table.chains, |table.chains|)
    {
      success := false;
      while !success && !finished
        invariant Positioned() && (success ==> liter != 0) && (finished ==> !success)
        invariant Seen() == old(Seen()) + if success then [liter] else []
        decreases !success, !finished, liter != 0
      {
        if liter != 0 {
          success := Follow();
        } else {
          success := GetNextBucket();
          finished := !success;
        }
      }
    }

    method Current() returns (e: Entry<K, V>)
      requires Chained() && Positioned() && liter != 0
      ensures liter in table.mem && e == EntryAt(table.mem, liter)
    {
      Links(offset - 1, place);
      e := Entry(table.mem[liter].key, table.mem[liter].data);
    }
  }

  /** A whole iteration: the entry of each bucket once. */
  method Collect<K(!new), V>(table: HashTable<K, V>) returns (visited: seq<Entry<K, V>>, ghost order: seq<nat>)
    requires table.Valid()
    ensures Distinct(order) && forall a :: a in order <==> a in table.pool.live
    ensures visited == EntriesAt(table.mem, order, |order|)
    ensures |visited| == table.count && EntrySet(visited) == table.Entries()
  {
    order := Flat(table.chains, |table.chains|);
    visited := VisitAll(table);
    FlatHolds(table.hash, table.buckets[..], table.mem, table.chains, table.pool.live, |table.chains|);
    assert table.pool.live == FirstOf(order, |order|) by {
      FirstOfHolds(order, |order|);
    }
    OrderCovers(table.mem, order, |order|);
  }

  /** `visited` are the entries of the buckets seen before the current one. */
  ghost predicate UpToDate<K(!new), V>(iter: HashTableIter<K, V>, visited: seq<Entry<K, V>>, seen: seq<nat>, more: bool)
    requires iter.Positioned()
    reads iter, iter.table`buckets, iter.table`chains, iter.table`mem
  {
    && more == (iter.liter != 0)
    && iter.Seen() == seen + (if more then [iter.liter] else [])
    && (!more ==> seen == Flat(iter.table.chains, |iter.table.chains|))
    && visited == EntriesAt(iter.table.mem, seen, |seen|)
  }

  method VisitOne<K(!new), V>(iter: HashTableIter<K, V>, visited: seq<Entry<K, V>>, ghost seen: seq<nat>)
    returns (visited': seq<Entry<K, V>>, more: bool)
    requires iter.Chained() && iter.Positioned() && UpToDate(iter, visited, seen, true)
    modifies iter
    ensures iter.Positioned() && UpToDate(iter, visited', seen + [old(iter.liter)], more)
  {
    var e := iter.Current();
    EntriesAtKept(iter.table.mem, seen, iter.liter, |seen|);
    visited' := visited + [e];
    more := iter.MoveNext();
  }

  method VisitAll<K(!new), V>(table: HashTable<K, V>) returns (visited: seq<Entry<K, V>>)
    requires table.Organised()
    ensures var order := Flat(table.chains, |table.chains|); visited == EntriesAt(table.mem, order, |order|)
  {
    var iter := new HashTableIter(table);
    visited := [];
    var more := iter.MoveNext();
    ghost var seen: seq<nat> := [];
    while more
      invariant iter.Chained() && iter.Positioned() && fresh(iter) && iter.table == table
      invariant UpToDate(iter, visited, seen, more)
      decreases |Flat(table.chains, |table.chains|)| - |seen|
    {
      iter.SeenWithin();
      ghost var liter := iter.liter;
      visited, more := VisitOne(iter, visited, seen);
      seen := seen + [liter];
    }
  }

  lemma {:induction false} FirstOfHolds(s: seq<nat>, n: nat)
    requires n <= |s|
    ensures forall a :: a in FirstOf(s, n) <==> exists i :: 0 <= i < n && s[i] == a
  {
    if n > 0 {
      FirstOfHolds(s, n - 1);
      forall a ensures a in FirstOf(s, n) <==> exists i :: 0 <= i < n && s[i] == a {
        assert (exists i :: 0 <= i < n && s[i] == a) <==> (exists i :: 0 <= i < n - 1 && s[i] == a) || s[n - 1] == a;
      }
    }
  }

  /** Visiting each bucket in use once means visiting each entry once. */
  lemma {:induction false} OrderCovers<K, V>(mem: Memory<K, V>, order: seq<nat>, n: nat)
    requires Distinct(order) && n <= |order| && FirstOf(order, n) <= mem.Keys
    ensures |EntriesAt(mem, order, n)| == |FirstOf(order, n)| == n
    ensures EntrySet(EntriesAt(mem, order, n)) == Contents(mem, FirstOf(order, n))
  {
    if n > 0 {
      var last, before, es := order[n - 1], FirstOf(order, n - 1), EntriesAt(mem, order, n - 1);
      OrderCovers(mem, order, n - 1);
      FirstOfHolds(order, n - 1);
      assert Contents(mem, before + {last}) == Contents(mem, before) + {EntryAt(mem, last)};
      assert EntrySet(es + [EntryAt(mem, last)]) == EntrySet(es) + {EntryAt(mem, last)};
    }
  }
}
