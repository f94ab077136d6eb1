/** Buckets linked into chains through the memory of a pool (hashtable.h:44-57), on values. */
module HashChains {
  import opened MapSpec

  datatype Bucket<K, V> = Bucket(key: K, data: V, next: nat)

  /** The memory that buckets live in; 0 is no address. */
  type Memory<K, V> = map<nat, Bucket<K, V>>

  /** From `head`, the `next` links lead through exactly the buckets of `s`. */
  ghost predicate Chain<K, V>(mem: Memory<K, V>, head: nat, s: seq<nat>)
    decreases |s|
  {
    if s == [] then head == 0
    else head == s[0] && head != 0 && head in mem && Chain(mem, mem[head].next, s[1..])
  }

  ghost predicate Distinct(s: seq<nat>) {
    forall i, j :: 0 <= i < j < |s| ==> s[i] != s[j]
  }

  /** Links that nobody wrote to still lead the same way. */
  lemma {:induction false} ChainKept<K, V>(mem: Memory<K, V>, mem': Memory<K, V>, head: nat, s: seq<nat>)
    requires Chain(mem, head, s)
    requires forall a :: a in s ==> a in mem ==> a in mem' && mem'[a].next == mem[a].next
    ensures Chain(mem', head, s)
    decreases |s|
  {
    if s != [] {
      ChainKept(mem, mem', mem[head].next, s[1..]);
    }
  }

  lemma {:induction false} ChainAt<K, V>(mem: Memory<K, V>, head: nat, s: seq<nat>, i: nat)
    requires Chain(mem, head, s) && i < |s|
    ensures s[i] != 0 && s[i] in mem && Chain(mem, mem[s[i]].next, s[i + 1..]) && Chain(mem, s[i], s[i..])
    decreases |s|
  {
    if i > 0 {
      ChainAt(mem, mem[head].next, s[1..], i - 1);
      assert s[1..][i..] == s[i + 1..] && s[1..][i - 1..] == s[i..];
    }
  }

  /** The bucket after the first `i` leaves the chain. */
  lemma {:induction false} ChainCut<K, V>(mem: Memory<K, V>, head: nat, s: seq<nat>, i: nat)
    requires Chain(mem, head, s) && i < |s| && Distinct(s)
    ensures i == 0 ==> Chain(mem, mem[s[0]].next, s[1..])
    ensures i > 0 && s[i] in mem && s[i - 1] in mem ==>
              Chain(mem[s[i - 1] := mem[s[i - 1]].(next := mem[s[i]].next)], head, s[..i] + s[i + 1..])
    decreases |s|
  {
    if i > 0 {
      ChainAt(mem, head, s, i);
      ChainAt(mem, head, s, i - 1);
      var mem' := mem[s[i - 1] := mem[s[i - 1]].(next := mem[s[i]].next)];
      if i == 1 {
        ChainKept(mem, mem', mem[s[1]].next, s[2..]);
        assert (s[..1] + s[2..])[1..] == s[2..];
      } else {
        ChainCut(mem, mem[head].next, s[1..], i - 1);
        assert s[1..][i - 2] == s[i - 1] && s[1..][i - 1] == s[i];
        assert (s[..i] + s[i + 1..])[1..] == s[1..][..i - 1] + s[1..][i..];
      }
    }
  }

  // ----- the whole table

  /** HASHTABLE_INDEX */
  function Home<K>(hash: K -> nat, key: K, size: nat): (i: nat)
    requires size > 0
    ensures i < size
  {
    hash(key) % size
  }

  /** The chain `s` from `head` holds buckets in use, each once, and only such as belong in slot `i`. */
  ghost predicate Bin<K, V>(hash: K -> nat, mem: Memory<K, V>, head: nat, s: seq<nat>, live: set<nat>, i: nat, size: nat)
    requires size > 0 && live <= mem.Keys
  {
    Chain(mem, head, s) && Distinct(s) && forall a :: a in s ==> a in live && Home(hash, mem[a].key, size) == i
  }

  /** Each bucket in use sits once, in the chain that its key's hash selects. */
  ghost predicate Linked<K, V>(hash: K -> nat, heads: seq<nat>, mem: Memory<K, V>, chains: seq<seq<nat>>, live: set<nat>) {
    && |heads| == |chains| && heads != [] && live <= mem.Keys
    && (forall i {:trigger Bin(hash, mem, heads[i], chains[i], live, i, |heads|)} ::
          0 <= i < |heads| ==> Bin(hash, mem, heads[i], chains[i], live, i, |heads|))
    && (forall a {:trigger Placed(hash, mem, chains, a)} :: a in live ==> Placed(hash, mem, chains, a))
  }

  /** The bucket at `a` is in the chain that its key's hash selects. */
  ghost predicate Placed<K, V>(hash: K -> nat, mem: Memory<K, V>, chains: seq<seq<nat>>, a: nat)
    requires chains != [] && a in mem
  {
    a in chains[Home(hash, mem[a].key, |chains|)]
  }

  lemma BinKept<K, V>(hash: K -> nat, mem: Memory<K, V>, mem': Memory<K, V>, head: nat, s: seq<nat>,
                      live: set<nat>, live': set<nat>, i: nat, size: nat)
    requires size > 0 && live <= mem.Keys && live' <= mem'.Keys && Bin(hash, mem, head, s, live, i, size)
    requires forall a :: a in s ==> a in live' && mem'[a].next == mem[a].next && mem'[a].key == mem[a].key
    ensures Bin(hash, mem', head, s, live', i, size)
  {
    ChainKept(mem, mem', head, s);
  }

  lemma BinTail<K, V>(hash: K -> nat, mem: Memory<K, V>, head: nat, s: seq<nat>, live: set<nat>, i: nat, size: nat)
    requires size > 0 && live <= mem.Keys && Bin(hash, mem, head, s, live, i, size) && s != []
    ensures head == s[0] && head in live && head !in s[1..] && Bin(hash, mem, mem[head].next, s[1..], live, i, size)
  {
    assert s[0] in s;
  }

  ghost predicate UniqueKeys<K, V>(eq: (K, K) -> bool, mem: Memory<K, V>, live: set<nat>)
    requires live <= mem.Keys
  {
    forall a, b {:trigger eq(mem[a].key, mem[b].key)} :: a in live && b in live && eq(mem[a].key, mem[b].key) ==> a == b
  }

  ghost function EntryAt<K, V>(mem: Memory<K, V>, a: nat): Entry<K, V>
    requires a in mem
  {
    Entry(mem[a].key, mem[a].data)
  }

  ghost function Contents<K, V>(mem: Memory<K, V>, live: set<nat>): set<Entry<K, V>>
    requires live <= mem.Keys
  {
    set a | a in live :: EntryAt(mem, a)
  }

  /** Only links differ. */
  ghost predicate SameEntries<K, V>(mem: Memory<K, V>, mem': Memory<K, V>) {
    mem'.Keys == mem.Keys && forall a :: a in mem ==> EntryAt(mem', a) == EntryAt(mem, a)
  }

  lemma SameContents<K, V>(mem: Memory<K, V>, mem': Memory<K, V>, live: set<nat>)
    requires SameEntries(mem, mem') && live <= mem.Keys
    ensures Contents(mem', live) == Contents(mem, live)
    ensures forall a :: a in live ==> mem'[a].key == mem[a].key
  {
    forall a | a in live ensures EntryAt(mem', a) == EntryAt(mem, a) && mem'[a].key == mem[a].key {
    }
  }

  lemma LinkedReplaced<K, V>(hash: K -> nat, heads: seq<nat>, mem: Memory<K, V>, chains: seq<seq<nat>>, live: set<nat>,
                             item: nat, b: Bucket<K, V>)
    requires Linked(hash, heads, mem, chains, live) && item in live
    requires b.next == mem[item].next && hash(b.key) == hash(mem[item].key)
    ensures Linked(hash, heads, mem[item := b], chains, live)
  {
    forall i | 0 <= i < |heads| ensures Bin(hash, mem[item := b], heads[i], chains[i], live, i, |heads|) {
      assert Bin(hash, mem, heads[i], chains[i], live, i, |heads|);
      ChainKept(mem, mem[item := b], heads[i], chains[i]);
    }
    forall a | a in live ensures Placed(hash, mem[item := b], chains, a) {
      assert Placed(hash, mem, chains, a);
    }
  }

  lemma LinkedInserted<K, V>(hash: K -> nat, heads: seq<nat>, mem: Memory<K, V>, chains: seq<seq<nat>>, live: set<nat>,
                             item: nat, b: Bucket<K, V>)
    requires Linked(hash, heads, mem, chains, live) && item !in live && item != 0
    requires b.next == heads[Home(hash, b.key, |heads|)]
    ensures var i := Home(hash, b.key, |heads|);
            Linked(hash, heads[i := item], mem[item := b], chains[i := [item] + chains[i]], live + {item})
  {
    var n, size, mem', live' := Home(hash, b.key, |heads|), |heads|, mem[item := b], live + {item};
    var heads', chains' := heads[n := item], chains[n := [item] + chains[n]];
    forall i | 0 <= i < size ensures Bin(hash, mem', heads'[i], chains'[i], live', i, size) {
      assert Bin(hash, mem, heads[i], chains[i], live, i, size);
      BinKept(hash, mem, mem', heads[i], chains[i], live, live', i, size);
      assert chains'[n][1..] == chains[n];
    }
    forall a | a in live' ensures Placed(hash, mem', chains', a) {
      assert a == item || Placed(hash, mem, chains, a);
      assert item == chains'[n][0];
      assert chains'[n] == [item] + chains[n];
    }
  }

  /** The memory after linking `prev` past `item`. */
  ghost function Bypassed<K, V>(mem: Memory<K, V>, prev: nat, item: nat): Memory<K, V>
    requires prev in mem && item in mem
  {
    mem[prev := mem[prev].(next := mem[item].next)]
  }

  /** Unlinking the bucket at place `k` of its chain. */
  lemma LinkedRemoved<K, V>(hash: K -> nat, heads: seq<nat>, mem: Memory<K, V>, chains: seq<seq<nat>>, live: set<nat>,
                            n: nat, k: nat)
    requires Linked(hash, heads, mem, chains, live) && n < |chains| && k < |chains[n]|
    ensures var (item, rest) := (chains[n][k], chains[n][..k] + chains[n][k + 1..]);
            && item in live
            && (k == 0 ==> Linked(hash, heads[n := mem[item].next], mem, chains[n := rest], live - {item}))
            && (k > 0 ==> chains[n][k - 1] in live)
            && (k > 0 ==> Linked(hash, heads, Bypassed(mem, chains[n][k - 1], item), chains[n := rest], live - {item}))
  {
    var s := chains[n];
    var item, rest := s[k], s[..k] + s[k + 1..];
    assert Bin(hash, mem, heads[n], s, live, n, |heads|) && item in s;
    ChainCut(mem, heads[n], s, k);
    if k == 0 {
      assert rest == s[1..];
      UnlinkedRest(hash, heads, mem, chains, live, n, k, heads[n := mem[item].next], mem);
    } else {
      assert s[k - 1] in s;
      UnlinkedRest(hash, heads, mem, chains, live, n, k, heads, Bypassed(mem, s[k - 1], item));
    }
  }

  lemma WithoutOne(s: seq<nat>, k: nat)
    requires k < |s| && Distinct(s)
    ensures Distinct(s[..k] + s[k + 1..]) && forall a :: a in s[..k] + s[k + 1..] <==> a in s && a != s[k]
  {
    assert s == s[..k] + [s[k]] + s[k + 1..];
  }

  lemma UnlinkedRest<K, V>(hash: K -> nat, heads: seq<nat>, mem: Memory<K, V>, chains: seq<seq<nat>>, live: set<nat>,
                           n: nat, k: nat, heads': seq<nat>, mem': Memory<K, V>)
    requires Linked(hash, heads, mem, chains, live) && n < |chains| && k < |chains[n]|
    requires |heads'| == |heads| && (forall i :: 0 <= i < |heads| && i != n ==> heads'[i] == heads[i])
    requires mem'.Keys == mem.Keys && forall a :: a in mem ==> mem'[a].key == mem[a].key
    requires forall a :: a in mem && mem'[a].next != mem[a].next ==> a in chains[n]
    requires Chain(mem', heads'[n], chains[n][..k] + chains[n][k + 1..])
    ensures Linked(hash, heads', mem', chains[n := chains[n][..k] + chains[n][k + 1..]], live - {chains[n][k]})
  {
    var s, size, live' := chains[n], |heads|, live - {chains[n][k]};
    var chains' := chains[n := s[..k] + s[k + 1..]];
    assert Bin(hash, mem, heads[n], s, live, n, size);
    WithoutOne(s, k);
    forall i | 0 <= i < size ensures Bin(hash, mem', heads'[i], chains'[i], live', i, size) {
      assert Bin(hash, mem, heads[i], chains[i], live, i, size);
      if i != n {
        assert forall a :: a in chains[i] ==> a !in s;
        BinKept(hash, mem, mem', heads[i], chains[i], live, live', i, size);
      }
    }
    forall a | a in live' ensures Placed(hash, mem', chains', a) {
      assert Placed(hash, mem, chains, a);
    }
  }

  // ----- what changes mean for the map

  lemma UniqueMatch<K(!new), V>(eq: (K, K) -> bool, mem: Memory<K, V>, live: set<nat>, item: nat, key: K)
    requires Equivalence(eq) && live <= mem.Keys && UniqueKeys(eq, mem, live) && item in live && eq(key, mem[item].key)
    ensures forall a :: a in live ==> (eq(key, mem[a].key) <==> a == item)
    ensures Has(Contents(mem, live), eq, key)
  {
    forall a | a in live && eq(key, mem[a].key) ensures a == item {
      EquivalentStep(eq, key, mem[a].key, mem[item].key);
    }
    assert EntryAt(mem, item) in Contents(mem, live);
  }

  lemma NoMatch<K, V>(eq: (K, K) -> bool, mem: Memory<K, V>, live: set<nat>, key: K)
    requires live <= mem.Keys && forall a :: a in live ==> !eq(key, mem[a].key)
    ensures !Has(Contents(mem, live), eq, key)
  {
  }

  lemma ContentsReplaced<K(!new), V>(eq: (K, K) -> bool, mem: Memory<K, V>, live: set<nat>, item: nat, key: K, value: V, overwrite: bool)
    requires Equivalence(eq) && live <= mem.Keys && UniqueKeys(eq, mem, live) && item in live && eq(key, mem[item].key)
    ensures var mem' := mem[item := mem[item].(key := if overwrite then key else mem[item].key, data := value)];
            && UniqueKeys(eq, mem', live)
            && Contents(mem', live) == Put(Contents(mem, live), eq, key, value, overwrite)
  {
    UniqueMatch(eq, mem, live, item, key);
    var k' := if overwrite then key else mem[item].key;
    var mem' := mem[item := mem[item].(key := k', data := value)];
    ReplacedKeyUnique(eq, mem, live, item, k', value);
    ReplacedImage(eq, mem, live, item, key, value, overwrite);
  }

  lemma ReplacedKeyUnique<K(!new), V>(eq: (K, K) -> bool, mem: Memory<K, V>, live: set<nat>, item: nat, k': K, value: V)
    requires Equivalence(eq) && live <= mem.Keys && UniqueKeys(eq, mem, live) && item in live && eq(k', mem[item].key)
    ensures UniqueKeys(eq, mem[item := mem[item].(key := k', data := value)], live)
  {
    UniqueMatch(eq, mem, live, item, k');
    forall a | a in live && a != item ensures !eq(k', mem[a].key) && !eq(mem[a].key, k') {
      assert Symmetric(eq, mem[a].key, k');
    }
  }

  lemma ReplacedImage<K, V>(eq: (K, K) -> bool, mem: Memory<K, V>, live: set<nat>, item: nat, key: K, value: V, overwrite: bool)
    requires live <= mem.Keys && item in live && forall a :: a in live ==> (eq(key, mem[a].key) <==> a == item)
    requires Has(Contents(mem, live), eq, key)
    ensures Contents(mem[item := mem[item].(key := if overwrite then key else mem[item].key, data := value)], live)
            == Put(Contents(mem, live), eq, key, value, overwrite)
  {
    var mem' := mem[item := mem[item].(key := if overwrite then key else mem[item].key, data := value)];
    forall a | a in live ensures EntryAt(mem', a) == Updated(EntryAt(mem, a), eq, key, value, overwrite) {
    }
    ImageOfImage(mem, mem', live, eq, key, value, overwrite);
  }

  lemma ImageOfImage<K, V>(mem: Memory<K, V>, mem': Memory<K, V>, live: set<nat>, eq: (K, K) -> bool, key: K, value: V, overwrite: bool)
    requires live <= mem.Keys && live <= mem'.Keys
    requires forall a :: a in live ==> EntryAt(mem', a) == Updated(EntryAt(mem, a), eq, key, value, overwrite)
    ensures Contents(mem', live) == set e | e in Contents(mem, live) :: Updated(e, eq, key, value, overwrite)
  {
    var m' := set e | e in Contents(mem, live) :: Updated(e, eq, key, value, overwrite);
    forall a | a in live ensures EntryAt(mem', a) in m' {
      assert EntryAt(mem, a) in Contents(mem, live);
    }
    forall e | e in m' ensures e in Contents(mem', live) {
      var was :| was in Contents(mem, live) && e == Updated(was, eq, key, value, overwrite);
      var a :| a in live && was == EntryAt(mem, a);
      assert e == EntryAt(mem', a);
    }
  }

  lemma ContentsInserted<K(!new), V>(eq: (K, K) -> bool, mem: Memory<K, V>, live: set<nat>, item: nat, b: Bucket<K, V>, overwrite: bool)
    requires Equivalence(eq) && live <= mem.Keys && UniqueKeys(eq, mem, live) && item !in live
    requires forall a :: a in live ==> !eq(b.key, mem[a].key)
    ensures UniqueKeys(eq, mem[item := b], live + {item})
    ensures Contents(mem[item := b], live + {item}) == Put(Contents(mem, live), eq, b.key, b.data, overwrite)
  {
    var mem' := mem[item := b];
    NoMatch(eq, mem, live, b.key);
    forall a | a in live ensures !eq(mem[a].key, b.key) && EntryAt(mem', a) == EntryAt(mem, a) {
      assert Symmetric(eq, mem[a].key, b.key);
    }
    var m, m' := Contents(mem, live), Contents(mem', live + {item});
    assert EntryAt(mem', item) == Entry(b.key, b.data);
    forall e | e in m ensures e in m' {
      var a :| a in live && e == EntryAt(mem, a);
      assert e == EntryAt(mem', a);
    }
  }

  lemma ContentsRemoved<K(!new), V>(eq: (K, K) -> bool, mem: Memory<K, V>, mem': Memory<K, V>, live: set<nat>, item: nat, key: K)
    requires Equivalence(eq) && live <= mem.Keys && UniqueKeys(eq, mem, live) && item in live && eq(key, mem[item].key)
    requires mem'.Keys == mem.Keys && forall a :: a in live ==> EntryAt(mem', a) == EntryAt(mem, a)
    ensures UniqueKeys(eq, mem', live - {item})
    ensures Contents(mem', live - {item}) == Without(Contents(mem, live), eq, key)
  {
    UniqueMatch(eq, mem, live, item, key);
    forall a | a in live ensures mem'[a].key == mem[a].key {
      assert EntryAt(mem', a) == EntryAt(mem, a);
    }
    var m, m' := Without(Contents(mem, live), eq, key), Contents(mem', live - {item});
    forall e | e in m ensures e in m' {
      var a :| a in live && e == EntryAt(mem, a);
      assert e == EntryAt(mem', a);
    }
  }

  /** As many entries as buckets in use. */
  lemma {:induction false} ContentsCount<K, V>(eq: (K, K) -> bool, mem: Memory<K, V>, live: set<nat>)
    requires live <= mem.Keys && UniqueKeys(eq, mem, live) && forall a :: a in live ==> eq(mem[a].key, mem[a].key)
    ensures |Contents(mem, live)| == |live| && Unique(Contents(mem, live), eq)
  {
    if live != {} {
      var a :| a in live;
      ContentsCount(eq, mem, live - {a});
      var e := EntryAt(mem, a);
      forall b | b in live - {a} ensures e != EntryAt(mem, b) {
        assert !eq(mem[a].key, mem[b].key);
      }
      assert Contents(mem, live) == Contents(mem, live - {a}) + {e};
    }
  }

  // ----- moving every bucket to a new table (hashtable.c:258-280)

  /** Buckets of the old chains before the i-th, and of that chain all but `rest`,
      have moved to the new chains. */
  ghost predicate Moving<K, V>(hash: K -> nat, from: seq<nat>, was: seq<seq<nat>>, live: set<nat>, mem: Memory<K, V>,
                               heads: seq<nat>, chains: seq<seq<nat>>, moved: set<nat>, i: nat, iter: nat, rest: seq<nat>)
  {
    && Linked(hash, heads, mem, chains, moved) && moved <= live <= mem.Keys
    && |from| == |was| && i < |from|
    && Bin(hash, mem, iter, rest, live - moved, i, |from|)
    && (forall j :: i < j < |from| ==> Bin(hash, mem, from[j], was[j], live - moved, j, |from|))
    && (forall a :: a in live - moved ==> a in rest || InLater(hash, mem, was, a, i))
  }

  ghost predicate InLater<K, V>(hash: K -> nat, mem: Memory<K, V>, was: seq<seq<nat>>, a: nat, i: nat)
    requires a in mem
  {
    was != [] && i < Home(hash, mem[a].key, |was|) && a in was[Home(hash, mem[a].key, |was|)]
  }

  /** Each turn of the inner loop moves one bucket, to the front of its new chain. */
  lemma MovedOne<K, V>(hash: K -> nat, from: seq<nat>, was: seq<seq<nat>>, live: set<nat>, mem: Memory<K, V>,
                       heads: seq<nat>, chains: seq<seq<nat>>, moved: set<nat>, i: nat, rest: seq<nat>)
    requires rest != [] && Moving(hash, from, was, live, mem, heads, chains, moved, i, rest[0], rest)
    ensures var item := rest[0];
            var n := Home(hash, mem[item].key, |heads|);
            Moving(hash, from, was, live, mem[item := mem[item].(next := heads[n])],
                   heads[n := item], chains[n := [item] + chains[n]], moved + {item}, i, mem[item].next, rest[1..])
  {
    var item, size := rest[0], |from|;
    BinTail(hash, mem, item, rest, live - moved, i, size);
    var b := mem[item].(next := heads[Home(hash, mem[item].key, |heads|)]);
    var mem', moved' := mem[item := b], moved + {item};
    LinkedInserted(hash, heads, mem, chains, moved, item, b);
    BinKept(hash, mem, mem', mem[item].next, rest[1..], live - moved, live - moved', i, size);
    forall j | i < j < size ensures Bin(hash, mem', from[j], was[j], live - moved', j, size) {
      assert Bin(hash, mem, from[j], was[j], live - moved, j, size);
      BinKept(hash, mem, mem', from[j], was[j], live - moved, live - moved', j, size);
    }
    assert rest == [item] + rest[1..];
    forall a | a in live - moved' ensures a in rest[1..] || InLater(hash, mem', was, a, i) {
      assert a in rest || InLater(hash, mem, was, a, i);
    }
  }

  lemma MoveBegins<K, V>(hash: K -> nat, from: seq<nat>, was: seq<seq<nat>>, live: set<nat>, mem: Memory<K, V>,
                         heads: seq<nat>, chains: seq<seq<nat>>)
    requires Linked(hash, from, mem, was, live) && Linked(hash, heads, mem, chains, {})
    ensures Moving(hash, from, was, live, mem, heads, chains, {}, 0, from[0], was[0])
  {
    assert live - {} == live;
    forall i | 0 <= i < |from| ensures Bin(hash, mem, from[i], was[i], live, i, |from|) {
    }
    forall a | a in live ensures a in was[0] || InLater(hash, mem, was, a, 0) {
      assert Placed(hash, mem, was, a);
    }
  }

  lemma MoveGoesOn<K, V>(hash: K -> nat, from: seq<nat>, was: seq<seq<nat>>, live: set<nat>, mem: Memory<K, V>,
                         heads: seq<nat>, chains: seq<seq<nat>>, moved: set<nat>, i: nat)
    requires Moving(hash, from, was, live, mem, heads, chains, moved, i, 0, [])
    ensures i + 1 < |from| ==> Moving(hash, from, was, live, mem, heads, chains, moved, i + 1, from[i + 1], was[i + 1])
    ensures i + 1 == |from| ==> moved == live
  {
    forall a | a in live - moved ensures i + 1 < |from| && (a in was[i + 1] || InLater(hash, mem, was, a, i + 1)) {
      assert InLater(hash, mem, was, a, i);
    }
    assert i + 1 == |from| ==> live - moved == {};
  }

  lemma EmptyTable<K, V>(hash: K -> nat, heads: seq<nat>, mem: Memory<K, V>, chains: seq<seq<nat>>)
    requires |heads| == |chains| && heads != []
    requires forall i :: 0 <= i < |heads| ==> heads[i] == 0 && chains[i] == []
    ensures Linked(hash, heads, mem, chains, {})
  {
  }
}
