/** hashtable.c: a table of chains that grows along a list of sizes; the buckets
    come from a memory pool.
 */
module HashTable {
  import opened Machine
  import opened MapSpec
  import opened HashChains
  import opened Pool

  const BUCKET_BYTES := 24
  const BUCKET_POOL_BLOCK_SIZE := 128

  // The table sizes of hashtable.c:35-92 on a 64-bit machine; 0 ends the list.
  const PRIMES: seq<nat> := PRIMES_32_BIT + PRIMES_38_BIT + PRIMES_47_BIT + PRIMES_55_BIT + PRIMES_60_BIT + [0]

  const PRIMES_32_BIT: seq<nat> :=
    [257, 1031, 4127, 16519, 66083, 264343, 1057387, 4229573, 8459173,
     16918357, 33836729, 67673503, 135347029, 270694063, 541388129, 1082776297, 2165552617]

  const PRIMES_38_BIT: seq<nat> :=
    [4331105239, 8662210517, 17324420957, 34648841923, 69297683827, 138595367657, 277190735317, 554381470637]

  const PRIMES_47_BIT: seq<nat> :=
    [110876294129, 221752588259, 443505176519, 887010353059, 1774020706189, 3548041412411,
     7096082824837, 14192165649709, 28384331299451, 56768662598903, 113537325197831]

  const PRIMES_55_BIT: seq<nat> :=
    [227074650395669, 454149300791371, 908298601582769, 1816597203165593, 3633194406331187,
     7266388812662387, 14532777625324787, 29065555250649649]

  const PRIMES_60_BIT: seq<nat> :=
    [58131110501299349, 116262221002598761, 232524442005197556, 465048884010395089, 930097768020790181]

  /** The last entry, and only a last entry, is 0; all fit an allocation. */
  ghost predicate SizeList(sizes: seq<nat>) {
    && sizes != [] && sizes[|sizes| - 1] == 0
    && forall i :: 0 <= i < |sizes| - 1 ==> 0 < sizes[i] <= SIZE_MAX / 8
  }

  class HashTable<K(!new), V> {
    const hash: K -> nat
    const compareKeys: (K, K) -> bool
    const grow: bool
    const sizes: seq<nat>
    var sizeIndex: nat  // where `sizeptr` points in the list of sizes
    var buckets: array<nat>
    var mem: Memory<K, V>  // what the addresses of the pool hold
    var pool: MemoryPool
    var count: nat

    ghost var chains: seq<seq<nat>>

    /** Equal keys hash alike. */
    ghost predicate Hashable() {
      Equivalence(compareKeys) && forall a, b :: HashRespects(hash, compareKeys, a, b)
    }

    /** The buckets linked into the table are exactly the live items of the pool. */
    ghost predicate Organised()
      reads this, buckets, pool`live
    {
      && Linked(hash, buckets[..], mem, chains, pool.live) && UniqueKeys(compareKeys, mem, pool.live)
      && count == |pool.live| <= SIZE_MAX
      && SizeList(sizes) && (grow ==> sizeIndex < |sizes| && sizes[sizeIndex] == buckets.Length)
    }

    ghost predicate Valid()
      reads this, buckets, pool, pool.block, pool.repr
    {
      Hashable() && Organised() && pool.Valid() && this !in pool.repr && buckets !in pool.repr
    }

    /** The map that the table stands for. */
    ghost function Entries(): set<Entry<K, V>>
      requires pool.live <= mem.Keys
      reads this`mem, this`pool, pool`live
    {
      Contents(mem, pool.live)
    }

    /** The `size` 0 asks for a table that grows. */
    constructor (size: nat, hash: K -> nat, compareKeys: (K, K) -> bool, memory: nat)
      requires Equivalence(compareKeys) && (forall a, b :: HashRespects(hash, compareKeys, a, b)) && memory > 0
      ensures Valid() && Entries() == {} && count == 0 && fresh(buckets) && fresh(pool) && fresh(pool.block) && pool.repr == {}
      ensures this.hash == hash && this.compareKeys == compareKeys && grow == (size == 0)
      ensures pool.block.bases == [memory] && sizeIndex == 0 && sizes == PRIMES
      ensures buckets.Length == if size == 0 then 257 else size
    {
      this.hash, this.compareKeys := hash, compareKeys;
      grow := size == 0;
      sizeIndex := 0;
      PrimesAreSizes();
      sizes := PRIMES;
      var tableSize := if size == 0 then PRIMES[0] else size;
      buckets := new nat[tableSize](_ => 0);
      mem := map[];
      pool := new MemoryPool(BUCKET_BYTES, BUCKET_POOL_BLOCK_SIZE, memory);
      count := 0;
      chains := seq(tableSize, _ => []);
      new;
      EmptyTable(hash, buckets[..], mem, chains);
    }

    /** _hashtable_find_bucket: the bucket of a chain that holds `key`, or 0. */
    method FindBucket(head: nat, key: K, ghost s: seq<nat>) returns (item: nat)
      requires Chain(mem, head, s)
      ensures item == 0 ==> forall a :: a in s ==> a in mem && !compareKeys(key, mem[a].key)
      ensures item != 0 ==> item in s && item in mem && compareKeys(key, mem[item].key)
    {
      var iter := head;
      item := 0;
      ghost var k := 0;
      while iter != 0 && item == 0
        invariant 0 <= k <= |s| && Chain(mem, iter, s[k..])
        invariant item == 0 ==> forall i :: 0 <= i < k ==> s[i] in mem && !compareKeys(key, mem[s[i]].key)
        invariant item != 0 ==> item in s && item in mem && compareKeys(key, mem[item].key)
        decreases |s| - k
      {
        if compareKeys(key, mem[iter].key) {
          item := iter;
        }
        iter := mem[iter].next;
        k := k + 1;
      }
    }

    /** One turn of the inner loop of hashtable.c:262-278. */
    method MoveBucket(iter: nat, ghost from: seq<nat>, ghost was: seq<seq<nat>>, ghost live: set<nat>, ghost moved: set<nat>,
                      ghost i: nat, ghost rest: seq<nat>) returns (next: nat)
      requires buckets.Length > 0 && rest != [] && iter == rest[0]
      requires Moving(hash, from, was, live, mem, buckets[..], chains, moved, i, iter, rest)
      modifies this`mem, this`chains, buckets
      ensures Moving(hash, from, was, live, mem, buckets[..], chains, moved + {iter}, i, next, rest[1..])
      ensures SameEntries(old(mem), mem)
    {
      MovedOne(hash, from, was, live, mem, buckets[..], chains, moved, i, rest);
      ghost var heads := buckets[..];
      next := mem[iter].next;
      var index := Home(hash, mem[iter].key, buckets.Length);
      if buckets[index] != 0 {
        mem := mem[iter := mem[iter].(next := buckets[index])];
      } else {
        mem := mem[iter := mem[iter].(next := 0)];
      }
      buckets[index] := iter;
      chains := chains[index := [iter] + chains[index]];
      assert buckets[..] == heads[index := iter];
    }

    /** The inner loop: all buckets of one old chain. */
    method MoveChain(head: nat, ghost from: seq<nat>, ghost was: seq<seq<nat>>, ghost live: set<nat>, ghost moved: set<nat>,
                     ghost i: nat, ghost s: seq<nat>) returns (ghost moved': set<nat>)
      requires buckets.Length > 0 && Moving(hash, from, was, live, mem, buckets[..], chains, moved, i, head, s)
      modifies this`mem, this`chains, buckets
      ensures Moving(hash, from, was, live, mem, buckets[..], chains, moved', i, 0, [])
      ensures SameEntries(old(mem), mem)
    {
      var iter := head;
      ghost var rest := s;
      moved' := moved;
      while iter != 0
        invariant Moving(hash, from, was, live, mem, buckets[..], chains, moved', i, iter, rest)
        invariant SameEntries(old(mem), mem)
        decreases |rest|
      {
        ghost var item := iter;
        iter := MoveBucket(iter, from, was, live, moved', i, rest);
        rest, moved' := rest[1..], moved' + {item};
      }
      assert rest == [];
    }

    /** The outer loop of hashtable.c:258-280, over the old table. */
    method MoveAll(oldBuckets: array<nat>, ghost was: seq<seq<nat>>, ghost live: set<nat>)
      requires oldBuckets != buckets && buckets.Length > 0 && oldBuckets.Length == |was| > 0
      requires Moving(hash, oldBuckets[..], was, live, mem, buckets[..], chains, {}, 0, oldBuckets[0], was[0])
      modifies this`mem, this`chains, buckets
      ensures Linked(hash, buckets[..], mem, chains, live) && SameEntries(old(mem), mem)
    {
      ghost var from := oldBuckets[..];
      ghost var moved: set<nat> := {};
      var i := 0;
      while i < oldBuckets.Length
        invariant 0 <= i <= oldBuckets.Length && oldBuckets[..] == from && SameEntries(old(mem), mem)
        invariant i < |from| ==> Moving(hash, from, was, live, mem, buckets[..], chains, moved, i, from[i], was[i])
        invariant i == |from| ==> Linked(hash, buckets[..], mem, chains, live)
      {
        moved := MoveChain(oldBuckets[i], from, was, live, moved, i, was[i]);
        MoveGoesOn(hash, from, was, live, mem, buckets[..], chains, moved, i);
        i := i + 1;
      }
    }

    /** A table grows when it is resized, unless it has 554381470637 slots: then it shrinks. */
    lemma NextSize()
      requires Organised() && grow && sizes == PRIMES && sizes[sizeIndex + 1] != 0
      ensures sizes[sizeIndex + 1] > buckets.Length <==> buckets.Length != 554381470637
      ensures buckets.Length == 554381470637 ==> sizes[sizeIndex + 1] == 110876294129
    {
      PrimesAreSizes();
      SizesGrow(sizeIndex);
    }

    method NewTable(size: nat)
      requires size > 0
      modifies this`buckets, this`chains
      ensures fresh(buckets) && buckets.Length == size && Linked(hash, buckets[..], mem, chains, {})
    {
      buckets := new nat[size](_ => 0);
      chains := seq(size, _ => []);
      EmptyTable(hash, buckets[..], mem, chains);
    }

    /** _hashtable_resize: every bucket moves to a table of the next size; the map stays. */
    method Resize()
      requires Organised() && grow && sizes[sizeIndex + 1] != 0
      modifies this`sizeIndex, this`buckets, this`mem, this`chains
      ensures Organised() && Entries() == old(Entries()) && fresh(buckets)
      ensures sizeIndex == old(sizeIndex) + 1 && buckets.Length == sizes[sizeIndex]
    {
      var oldBuckets := buckets;
      ghost var from, was, live, before := buckets[..], chains, pool.live, mem;
      sizeIndex := sizeIndex + 1;
      NewTable(sizes[sizeIndex]);
      MoveBegins(hash, from, was, live, mem, buckets[..], chains);
      MoveAll(oldBuckets, was, live);
      SameContents(before, mem, live);
    }

    ghost predicate Knows(key: K)
      requires pool.live <= mem.Keys
      reads this`mem, this`pool, pool`live
    {
      Has(Entries(), compareKeys, key)
    }

    /** A key that its own chain lacks is nowhere in the table. */
    lemma AbsentFromChain(key: K)
      requires Hashable() && Organised()
      requires forall a :: a in chains[Home(hash, key, buckets.Length)] ==> a in mem && !compareKeys(key, mem[a].key)
      ensures forall a :: a in pool.live ==> !compareKeys(key, mem[a].key)
      ensures !Knows(key)
    {
      forall a | a in pool.live ensures !compareKeys(key, mem[a].key) {
        assert HashRespects(hash, compareKeys, key, mem[a].key) && Placed(hash, mem, chains, a);
      }
      NoMatch(compareKeys, mem, pool.live, key);
    }

    lemma CountsEntries()
      requires Hashable() && Organised()
      ensures count == |Entries()| && Unique(Entries(), compareKeys)
    {
      ContentsCount(compareKeys, mem, pool.live);
    }

    /** hashtable.c:324-344: another value, and perhaps an equal key, for a bucket. */
    method ReplaceBucket(item: nat, key: K, value: V, overwriteKey: bool)
      requires Hashable() && Organised() && item in pool.live && compareKeys(key, mem[item].key)
      modifies this`mem
      ensures Organised() && old(Knows(key))
      ensures Entries() == Put(old(Entries()), compareKeys, key, value, overwriteKey)
    {
      var b := mem[item].(key := if overwriteKey then key else mem[item].key, data := value);
      assert HashRespects(hash, compareKeys, key, mem[item].key);
      UniqueMatch(compareKeys, mem, pool.live, item, key);
      LinkedReplaced(hash, buckets[..], mem, chains, pool.live, item, b);
      ContentsReplaced(compareKeys, mem, pool.live, item, key, value, overwriteKey);
      mem := mem[item := b];
    }

    /** The links of hashtable.c:351-356, after the pool has handed out `item`. */
    method LinkBucket(item: nat, key: K, value: V, overwriteKey: bool, ghost live: set<nat>)
      requires Hashable() && item != 0 && item !in live && pool.live == live + {item}
      requires Linked(hash, buckets[..], mem, chains, live) && UniqueKeys(compareKeys, mem, live) && count == |live| < SIZE_MAX
      requires SizeList(sizes) && (grow ==> sizeIndex < |sizes| && sizes[sizeIndex] == buckets.Length)
      requires forall a :: a in live ==> !compareKeys(key, mem[a].key)
      requires pool.Valid() && this !in pool.repr && buckets !in pool.repr
      modifies this`mem, this`count, this`chains, buckets
      ensures Valid()
      ensures Entries() == Put(old(Contents(mem, live)), compareKeys, key, value, overwriteKey)
    {
      ghost var heads := buckets[..];
      var index := Home(hash, key, buckets.Length);
      var b := Bucket(key, value, buckets[index]);
      LinkedInserted(hash, heads, mem, chains, live, item, b);
      ContentsInserted(compareKeys, mem, live, item, b, overwriteKey);
      mem := mem[item := b];
      buckets[index] := item;
      chains := chains[index := [item] + chains[index]];
      count := count + 1;
      assert buckets[..] == heads[index := item];
    }

    /** hashtable.c:345-357: a bucket from the pool goes to the front of its chain. */
    method InsertBucket(key: K, value: V, overwriteKey: bool, memory: nat)
      requires Valid() && pool.Unused(memory) && count < SIZE_MAX && forall a :: a in pool.live ==> !compareKeys(key, mem[a].key)
      modifies this`mem, this`count, this`chains, buckets, pool, pool.block, pool.repr
      ensures Valid() && pool == old(pool) && (pool.block == old(pool.block) || fresh(pool.block)) && pool.repr <= old(pool.repr)
      ensures Entries() == Put(old(Entries()), compareKeys, key, value, overwriteKey)
      ensures pool.block.bases == old(pool.block.bases) || pool.block.bases == old(pool.block.bases) + [memory]
    {
      ghost var live := pool.live;
      var item := pool.Alloc(memory);
      LinkBucket(item, key, value, overwriteKey, live);
    }

    /** hashtable.c:315-318: a crowded table grows before the key is looked for. */
    method GrowIfCrowded()
      requires Valid() && (grow && count > buckets.Length ==> sizes[sizeIndex + 1] != 0)
      modifies this`sizeIndex, this`buckets, this`mem, this`chains
      ensures Valid() && Entries() == old(Entries()) && (buckets == old(buckets) || fresh(buckets))
      ensures sizeIndex == old(sizeIndex) + if old(grow && count > buckets.Length) then 1 else 0
      ensures buckets.Length == if old(grow && count > buckets.Length) then sizes[old(sizeIndex) + 1] else old(buckets.Length)
    {
      if grow && count > buckets.Length {
        Resize();
      }
    }

    /** hashtable.c:320-363: the map is updated at `key`, in the table as it is. */
    method SetWithin(key: K, value: V, overwriteKey: bool, memory: nat) returns (result: SetResult)
      requires Valid() && pool.Unused(memory)
      modifies this`mem, this`count, this`chains, buckets, pool, pool.block, pool.repr
      ensures Valid() && pool == old(pool)
      ensures (pool.block == old(pool.block) || fresh(pool.block)) && pool.repr <= old(pool.repr)
      ensures result == Failed <==> old(count) == SIZE_MAX && !old(Knows(key))
      ensures result == Failed ==> Entries() == old(Entries())
      ensures result != Failed ==> Entries() == Put(old(Entries()), compareKeys, key, value, overwriteKey)
      ensures result != Failed ==> (result == Replaced <==> old(Knows(key)))
      ensures pool.block.bases == old(pool.block.bases) || pool.block.bases == old(pool.block.bases) + [memory]
    {
      var item := Find(key);
      if item != 0 {
        ReplaceBucket(item, key, value, overwriteKey);
        result := Replaced;
      } else if count < SIZE_MAX {
        InsertBucket(key, value, overwriteKey, memory);
        result := New;
      } else {
        result := Failed;
      }
    }

    /** hashtable_set: the map is updated at `key`, after growing the table if it is crowded. */
    method Set(key: K, value: V, overwriteKey: bool, memory: nat) returns (result: SetResult)
      requires Valid() && pool.Unused(memory) && (grow && count > buckets.Length ==> sizes[sizeIndex + 1] != 0)
      modifies this, buckets, pool, pool.block, pool.repr
      ensures Valid() && pool == old(pool) && (buckets == old(buckets) || fresh(buckets))
      ensures (pool.block == old(pool.block) || fresh(pool.block)) && pool.repr <= old(pool.repr)
      ensures result == Failed <==> old(count) == SIZE_MAX && !old(Knows(key))
      ensures result == Failed ==> Entries() == old(Entries())
      ensures result != Failed ==> Entries() == Put(old(Entries()), compareKeys, key, value, overwriteKey)
      ensures result != Failed ==> (result == Replaced <==> old(Knows(key)))
      ensures pool.block.bases == old(pool.block.bases) || pool.block.bases == old(pool.block.bases) + [memory]
      ensures sizeIndex == old(sizeIndex) + if old(grow && count > buckets.Length) then 1 else 0
      ensures buckets.Length == if old(grow && count > buckets.Length) then sizes[old(sizeIndex) + 1] else old(buckets.Length)
    {
      GrowIfCrowded();
      result := SetWithin(key, value, overwriteKey, memory);
    }

    /** The bucket that holds `key`, or 0: its chain is the only place to look. */
    method Find(key: K) returns (item: nat)
      requires Hashable() && Organised()
      ensures item == 0 ==> !Knows(key) && forall a :: a in pool.live ==> !compareKeys(key, mem[a].key)
      ensures item != 0 ==> item in pool.live && compareKeys(key, mem[item].key)
    {
      var index := Home(hash, key, buckets.Length);
      assert Bin(hash, mem, buckets[..][index], chains[index], pool.live, index, buckets.Length);
      item := FindBucket(buckets[index], key, chains[index]);
      if item == 0 {
        AbsentFromChain(key);
      }
    }

    /** All is in order but that the live bucket `iter` is in no chain any more. */
    ghost predicate OrganisedBut(iter: nat)
      reads this, buckets, pool`live
    {
      && Linked(hash, buckets[..], mem, chains, pool.live - {iter}) && UniqueKeys(compareKeys, mem, pool.live - {iter})
      && iter in pool.live && count == |pool.live| <= SIZE_MAX
      && SizeList(sizes) && (grow ==> sizeIndex < |sizes| && sizes[sizeIndex] == buckets.Length)
    }

    /** hashtable.c:403-404 */
    method GiveBack(iter: nat)
      requires Hashable() && OrganisedBut(iter) && pool.Valid() && this !in pool.repr && buckets !in pool.repr
      modifies this`count, pool, pool.repr
      ensures Valid() && fresh(pool.repr - old(pool.repr)) && pool.block == old(pool.block)
      ensures pool.live == old(pool.live) - {iter}
    {
      pool.Release(iter);
      count := count - 1;
    }

    /** The links of hashtable.c:394-401: the bucket at place `k` of chain `n` leaves it. */
    method Unlink(prev: nat, iter: nat, n: nat, ghost k: nat, key: K)
      requires Hashable() && Organised() && n < buckets.Length && k < |chains[n]| && chains[n][k] == iter
      requires (k == 0 ==> prev == 0) && (k > 0 ==> prev == chains[n][k - 1] && prev != 0)
      requires iter in pool.live && compareKeys(key, mem[iter].key)
      modifies this`mem, this`chains, buckets
      ensures OrganisedBut(iter)
      ensures Contents(mem, pool.live - {iter}) == Without(old(Entries()), compareKeys, key)
      ensures iter in mem
    {
      ghost var heads, before := buckets[..], mem;
      LinkedRemoved(hash, heads, mem, chains, pool.live, n, k);
      if prev != 0 {
        mem := mem[prev := mem[prev].(next := mem[iter].next)];
      } else {
        buckets[n] := mem[iter].next;
      }
      chains := chains[n := chains[n][..k] + chains[n][k + 1..]];
      assert prev == 0 ==> buckets[..] == heads[n := mem[iter].next];
      ContentsRemoved(compareKeys, before, mem, pool.live, iter, key);
    }

    /** The bucket at place `k` of chain `n` goes back to the pool. */
    method Take(prev: nat, iter: nat, n: nat, ghost k: nat, key: K)
      requires Valid() && n < buckets.Length && k < |chains[n]| && chains[n][k] == iter
      requires (k == 0 ==> prev == 0) && (k > 0 ==> prev == chains[n][k - 1] && prev != 0)
      requires iter in pool.live && compareKeys(key, mem[iter].key)
      modifies this`mem, this`chains, this`count, buckets, pool, pool.repr
      ensures Valid() && fresh(pool.repr - old(pool.repr)) && iter in mem
      ensures Entries() == Without(old(Entries()), compareKeys, key)
      ensures pool.block == old(pool.block)
    {
      Unlink(prev, iter, n, k, key);
      GiveBack(iter);
    }

    /** hashtable_remove: the map loses `key`; a map without it stays as it is. */
    method Remove(key: K)
      requires Valid()
      modifies this`mem, this`chains, this`count, buckets, pool, pool.repr
      ensures Valid() && fresh(pool.repr - old(pool.repr))
      ensures Entries() == Without(old(Entries()), compareKeys, key)
      ensures pool.block == old(pool.block)
    {
      var index := Home(hash, key, buckets.Length);
      var iter := buckets[index];
      ghost var s := chains[index];
      assert Bin(hash, mem, buckets[..][index], s, pool.live, index, buckets.Length);
      if iter != 0 {
        var prev, removed := 0, false;
        ghost var k := 0;
        while iter != 0 && !removed
          invariant 0 <= k <= |s|
          invariant !removed ==> unchanged(this) && unchanged(buckets) && unchanged(pool) && unchanged(old(pool.repr)) && Chain(mem, iter, s[k..])
          invariant !removed ==> (k == 0 ==> prev == 0) && (k > 0 ==> prev == s[k - 1] && prev != 0)
          invariant !removed ==> forall i :: 0 <= i < k ==> s[i] in mem && !compareKeys(mem[s[i]].key, key)
          invariant removed ==> Valid() && fresh(pool.repr - old(pool.repr))
          invariant removed ==> Entries() == Without(old(Entries()), compareKeys, key) && pool.block == old(pool.block)
          decreases |s| - k
        {
          if compareKeys(mem[iter].key, key) {
            assert iter in s && Symmetric(compareKeys, mem[iter].key, key);
            Take(prev, iter, index, k, key);
            removed := true;
          }
          prev := iter;
          iter := mem[iter].next;
          k := k + 1;
        }
        if !removed {
          AbsentStays(key);
        }
      } else {
        AbsentStays(key);
      }
    }

    /** Where no bucket of the chain matches, removing changes nothing. */
    lemma AbsentStays(key: K)
      requires Hashable() && Organised()
      requires forall a :: a in chains[Home(hash, key, buckets.Length)] ==> a in mem && !compareKeys(mem[a].key, key)
      ensures Without(Entries(), compareKeys, key) == Entries()
    {
      forall a | a in chains[Home(hash, key, buckets.Length)] ensures !compareKeys(key, mem[a].key) {
        assert Symmetric(compareKeys, key, mem[a].key);
      }
      AbsentFromChain(key);
    }

    /** The memset of hashtable.c:225. */
    method ZeroBuckets()
      modifies buckets
      ensures forall i :: 0 <= i < buckets.Length ==> buckets[i] == 0
    {
      for i := 0 to buckets.Length
        invariant forall j :: 0 <= j < i ==> buckets[j] == 0
      {
        buckets[i] := 0;
      }
    }

    /** hashtable_clear: an empty table of the same size, with a pool of its own. */
    method Clear(memory: nat)
      requires Valid() && memory > 0
      modifies this`pool, this`count, this`chains, buckets
      ensures Valid() && Entries() == {} && count == 0
      ensures fresh(pool) && fresh(pool.block) && pool.repr == {} && pool.block.bases == [memory]
    {
      count := 0;
      ZeroBuckets();
      Restart(memory);
    }

    method Restart(memory: nat)
      requires Hashable() && SizeList(sizes) && (grow ==> sizeIndex < |sizes| && sizes[sizeIndex] == buckets.Length)
      requires memory > 0 && count == 0 && buckets.Length > 0 && forall i :: 0 <= i < buckets.Length ==> buckets[i] == 0
      modifies this`pool, this`chains
      ensures Valid() && Entries() == {}
      ensures fresh(pool) && fresh(pool.block) && pool.repr == {} && pool.block.bases == [memory]
    {
      pool := new MemoryPool(BUCKET_BYTES, BUCKET_POOL_BLOCK_SIZE, memory);
      chains := seq(buckets.Length, _ => []);
      EmptyTable(hash, buckets[..], mem, chains);
    }

    /** hashtable_lookup: the entry under `key`, if the map has one. */
    method Lookup(key: K) returns (result: Option<Entry<K, V>>)
      requires Valid()
      ensures Finds(Entries(), compareKeys, key, result)
    {
      var item := Find(key);
      if item == 0 {
        return None;
      }
      assert EntryAt(mem, item) in Entries();
      return Some(Entry(mem[item].key, mem[item].data));
    }

    /** hashtable_key_exists */
    method KeyExists(key: K) returns (found: bool)
      requires Valid()
      ensures found == Knows(key)
    {
      var item := Find(key);
      assert item != 0 ==> EntryAt(mem, item) in Entries();
      return item != 0;
    }
  }

  lemma PrimesAreSizes()
    ensures |PRIMES| == 50 && PRIMES[0] == 257 && PRIMES[48] == 930097768020790181 && SizeList(PRIMES)
  {
    assert Fitting(PRIMES_32_BIT) && Fitting(PRIMES_38_BIT) && Fitting(PRIMES_47_BIT) && Fitting(PRIMES_55_BIT) && Fitting(PRIMES_60_BIT);
    var sizes := PRIMES_32_BIT + PRIMES_38_BIT + PRIMES_47_BIT + PRIMES_55_BIT + PRIMES_60_BIT;
    assert Fitting(sizes) && PRIMES == sizes + [0];
  }

  /** The list grows from each size to the next but for one place, where it drops. */
  lemma SizesGrow(i: nat)
    requires i < 48
    ensures |PRIMES| == 50 && (PRIMES[i] < PRIMES[i + 1] <==> i != 24)
    ensures PRIMES[i] == 554381470637 <==> i == 24
    ensures PRIMES[25] == 110876294129
  {
  }

  ghost predicate Fitting(sizes: seq<nat>) {
    forall i :: 0 <= i < |sizes| ==> 0 < sizes[i] <= SIZE_MAX / 8
  }

  ghost predicate HashRespects<K>(hash: K -> nat, eq: (K, K) -> bool, a: K, b: K) {
    eq(a, b) ==> hash(a) == hash(b)
  }
}
