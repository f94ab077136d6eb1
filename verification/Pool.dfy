/** pool.c: items of one size, cut from blocks of memory and recycled through a
    chunked stack of addresses.  Memory is modelled by addresses; what malloc()
    returns is a parameter that must be new memory.
 */
module Pool {
  /** The address of the j-th item of a block. */
  function Slot(base: nat, itemSize: nat, j: nat): nat {
    if j == 0 then base else Slot(base, itemSize, j - 1) + itemSize
  }

  lemma {:induction false} SlotAddress(base: nat, itemSize: nat, j: nat)
    ensures Slot(base, itemSize, j) == base + itemSize * j
  {
    if j > 0 {
      SlotAddress(base, itemSize, j - 1);
      assert itemSize * j == itemSize * (j - 1) + itemSize;
    }
  }

  lemma {:induction false} SlotsAscend(base: nat, itemSize: nat, j: nat, k: nat)
    requires j <= k
    ensures base <= Slot(base, itemSize, j) <= Slot(base, itemSize, k)
    ensures j < k ==> Slot(base, itemSize, j) + itemSize <= Slot(base, itemSize, k)
    decreases k
  {
    if j < k {
      SlotsAscend(base, itemSize, j, k - 1);
    } else if j > 0 {
      SlotsAscend(base, itemSize, j - 1, k - 1);
    }
  }

  /** `n` bytes at `a` and `n` bytes at `b` do not overlap. */
  predicate Separate(a: nat, b: nat, n: nat) {
    a + n <= b || b + n <= a
  }

  /** The item at `b` overlaps none of those at `items`. */
  ghost predicate Clear(items: set<nat>, b: nat, n: nat) {
    forall a {:trigger Separate(a, b, n)} :: a in items ==> Separate(a, b, n)
  }

  /** Two blocks of items do not overlap. */
  predicate SeparateBlocks(a: nat, b: nat, itemSize: nat, blockSize: nat) {
    Slot(a, itemSize, blockSize) <= b || Slot(b, itemSize, blockSize) <= a
  }

  lemma SlotsApart(base: nat, itemSize: nat, j: nat, k: nat)
    requires j != k
    ensures Separate(Slot(base, itemSize, j), Slot(base, itemSize, k), itemSize)
  {
    SlotsAscend(base, itemSize, if j < k then j else k, if j < k then k else j);
  }

  /** Items of blocks that do not overlap do not overlap. */
  lemma BlocksApart(a: nat, b: nat, itemSize: nat, blockSize: nat, j: nat, k: nat)
    requires SeparateBlocks(a, b, itemSize, blockSize) && j < blockSize && k < blockSize
    ensures Separate(Slot(a, itemSize, j), Slot(b, itemSize, k), itemSize)
  {
    SlotsAscend(a, itemSize, j, blockSize);
    SlotsAscend(b, itemSize, k, blockSize);
    SlotsAscend(a, itemSize, 0, j);
    SlotsAscend(b, itemSize, 0, k);
  }

  /** A block of memory; the blocks form a chain, newest first. */
  class MemoryBlock {
    const items: nat  // address of the block's memory
    var offset: nat
    const next: MemoryBlock?
    ghost const bases: seq<nat>  // the memory of all blocks of the chain, newest last

    constructor (items: nat, next: MemoryBlock?)
      ensures this.items == items && this.next == next && offset == 0
      ensures bases == (if next == null then [] else next.bases) + [items]
    {
      this.items, offset, this.next := items, 0, next;
      bases := (if next == null then [] else next.bases) + [items];
    }
  }

  /** A block of freed addresses; the blocks form a chain, newest first. */
  class MemoryPtrBlock {
    const items: array<nat>
    var offset: nat
    const next: MemoryPtrBlock?
    ghost var stacked: seq<nat>  // all addresses from the bottom of the chain up to here
    ghost const repr: set<object>

    constructor (size: nat, next: MemoryPtrBlock?)
      ensures fresh(items) && items.Length == size && offset == 0 && this.next == next
      ensures stacked == Under() && repr == {this, items} + (if next == null then {} else next.repr)
    {
      var slots := new nat[size](_ => 0);
      items := slots;
      this.next, offset := next, 0;
      stacked := if next == null then [] else next.stacked;
      repr := {this, slots} + (if next == null then {} else next.repr);
    }

    ghost function Under(): seq<nat>
      reads this, next
    {
      if next == null then [] else next.stacked
    }

    /** The chain holds `stacked`; the blocks further down are full. */
    ghost predicate Chained(size: nat)
      reads this, repr
      decreases repr
    {
      && this in repr && items in repr && items.Length == size && offset <= size
      && (next != null ==>
            && next in repr && next.repr <= repr && this !in next.repr && items !in next.repr
            && next.offset == size && next.Chained(size))
      && stacked == Under() + items[..offset]
    }

    /** One more freed address (pool.c:171). */
    method Add(item: nat)
      requires Chained(items.Length) && offset < items.Length
      modifies this, items
      ensures Chained(items.Length) && offset == old(offset) + 1 && stacked == old(stacked) + [item]
    {
      ghost var held := items[..offset];
      items[offset] := item;
      offset := offset + 1;
      stacked := stacked + [item];
      assert items[..offset] == held + [item];
    }

    /** The address freed last. */
    method Take() returns (item: nat)
      requires next != this && items.Length >= offset > 0
      requires stacked == Under() + items[..offset]
      modifies this
      ensures offset == old(offset) - 1 && item == items[offset] && stacked == Under() + items[..offset]
      ensures old(stacked) == stacked + [item]
    {
      TopOf(Under(), items[..offset]);
      offset := offset - 1;
      item := items[offset];
      stacked := Under() + items[..offset];
    }
  }

  lemma TopOf(under: seq<nat>, items: seq<nat>)
    requires items != []
    ensures var n := |items| - 1; under + items == under + items[..n] + [items[n]]
  {
  }

  /** The first `n` items of a block. */
  ghost function Slots(base: nat, itemSize: nat, n: nat): set<nat> {
    if n == 0 then {} else Slots(base, itemSize, n - 1) + {Slot(base, itemSize, n - 1)}
  }

  /** All items of the first `n` blocks. */
  ghost function FullBlocks(bases: seq<nat>, n: nat, itemSize: nat, blockSize: nat): set<nat>
    requires n <= |bases|
  {
    if n == 0 then {}
    else FullBlocks(bases, n - 1, itemSize, blockSize) + Slots(bases[n - 1], itemSize, blockSize)
  }

  /** The items that blocks have given away: `offset` of the newest, all of the others. */
  ghost function Given(bases: seq<nat>, offset: nat, itemSize: nat, blockSize: nat): set<nat>
    requires bases != []
  {
    FullBlocks(bases, |bases| - 1, itemSize, blockSize) + Slots(bases[|bases| - 1], itemSize, offset)
  }

  lemma {:induction false} FullBlocksKept(bases: seq<nat>, memory: nat, n: nat, itemSize: nat, blockSize: nat)
    requires n <= |bases|
    ensures FullBlocks(bases + [memory], n, itemSize, blockSize) == FullBlocks(bases, n, itemSize, blockSize)
  {
    if n > 0 {
      FullBlocksKept(bases, memory, n - 1, itemSize, blockSize);
    }
  }

  lemma {:induction false} SlotIndex(base: nat, itemSize: nat, n: nat, a: nat) returns (j: nat)
    requires a in Slots(base, itemSize, n)
    ensures j < n && a == Slot(base, itemSize, j)
  {
    if a == Slot(base, itemSize, n - 1) {
      j := n - 1;
    } else {
      j := SlotIndex(base, itemSize, n - 1, a);
    }
  }

  lemma {:induction false} FullBlocksBy(bases: seq<nat>, n: nat, itemSize: nat, blockSize: nat, a: nat) returns (i: nat, j: nat)
    requires n <= |bases| && a in FullBlocks(bases, n, itemSize, blockSize)
    ensures i < n && j < blockSize && a == Slot(bases[i], itemSize, j)
  {
    if a in Slots(bases[n - 1], itemSize, blockSize) {
      i := n - 1;
      j := SlotIndex(bases[i], itemSize, blockSize, a);
    } else {
      i, j := FullBlocksBy(bases, n - 1, itemSize, blockSize, a);
    }
  }

  lemma GivenBy(bases: seq<nat>, offset: nat, itemSize: nat, blockSize: nat, a: nat) returns (i: nat, j: nat)
    requires bases != [] && a in Given(bases, offset, itemSize, blockSize) && offset <= blockSize
    ensures i < |bases| && j < blockSize && a == Slot(bases[i], itemSize, j) && (i == |bases| - 1 ==> j < offset)
  {
    if a in Slots(bases[|bases| - 1], itemSize, offset) {
      i := |bases| - 1;
      j := SlotIndex(bases[i], itemSize, offset, a);
    } else {
      i, j := FullBlocksBy(bases, |bases| - 1, itemSize, blockSize, a);
    }
  }

  /** No two blocks overlap. */
  ghost predicate AllSeparate(bases: seq<nat>, itemSize: nat, blockSize: nat) {
    forall i, j {:trigger SeparateBlocks(bases[i], bases[j], itemSize, blockSize)} ::
      0 <= i < j < |bases| ==> SeparateBlocks(bases[i], bases[j], itemSize, blockSize)
  }

  ghost predicate Positive(bases: seq<nat>) {
    forall i :: 0 <= i < |bases| ==> bases[i] > 0
  }

  /** Items at different addresses never overlap. */
  lemma GivenApart(bases: seq<nat>, offset: nat, itemSize: nat, blockSize: nat, a: nat, b: nat)
    requires bases != [] && AllSeparate(bases, itemSize, blockSize) && offset <= blockSize && a != b
    requires a in Given(bases, offset, itemSize, blockSize) && b in Given(bases, offset, itemSize, blockSize)
    ensures Separate(a, b, itemSize)
  {
    var p, j := GivenBy(bases, offset, itemSize, blockSize, a);
    var q, k := GivenBy(bases, offset, itemSize, blockSize, b);
    if p == q {
      SlotsApart(bases[p], itemSize, j, k);
    } else {
      assert SeparateBlocks(bases[if p < q then p else q], bases[if p < q then q else p], itemSize, blockSize);
      BlocksApart(bases[p], bases[q], itemSize, blockSize, j, k);
    }
  }

  /** The next item of the newest block overlaps nothing given away. */
  lemma NextApart(bases: seq<nat>, offset: nat, itemSize: nat, blockSize: nat)
    requires AllSeparate(bases, itemSize, blockSize) && bases != [] && offset < blockSize
    ensures Clear(Given(bases, offset, itemSize, blockSize), Slot(bases[|bases| - 1], itemSize, offset), itemSize)
  {
    var n := |bases| - 1;
    forall a | a in Given(bases, offset, itemSize, blockSize)
      ensures Separate(a, Slot(bases[n], itemSize, offset), itemSize)
    {
      var p, j := GivenBy(bases, offset, itemSize, blockSize, a);
      if p == n {
        SlotsApart(bases[n], itemSize, j, offset);
      } else {
        assert SeparateBlocks(bases[p], bases[n], itemSize, blockSize);
        BlocksApart(bases[p], bases[n], itemSize, blockSize, j, offset);
      }
    }
  }

  /** A block at `memory` would overlap none of the blocks. */
  ghost predicate ClearOfBlocks(bases: seq<nat>, memory: nat, itemSize: nat, blockSize: nat) {
    forall i {:trigger SeparateBlocks(bases[i], memory, itemSize, blockSize)} ::
      0 <= i < |bases| ==> SeparateBlocks(bases[i], memory, itemSize, blockSize)
  }

  /** The first item of new memory overlaps nothing given away. */
  lemma NewApart(bases: seq<nat>, offset: nat, itemSize: nat, blockSize: nat, memory: nat)
    requires bases != [] && ClearOfBlocks(bases, memory, itemSize, blockSize) && 0 < blockSize && offset <= blockSize
    ensures Clear(Given(bases, offset, itemSize, blockSize), memory, itemSize)
  {
    forall a | a in Given(bases, offset, itemSize, blockSize) ensures Separate(a, memory, itemSize) {
      var p, j := GivenBy(bases, offset, itemSize, blockSize, a);
      assert SeparateBlocks(bases[p], memory, itemSize, blockSize);
      BlocksApart(bases[p], memory, itemSize, blockSize, j, 0);
    }
  }

  lemma GivenPositive(bases: seq<nat>, offset: nat, itemSize: nat, blockSize: nat, a: nat)
    requires bases != [] && Positive(bases) && offset <= blockSize && a in Given(bases, offset, itemSize, blockSize)
    ensures a > 0
  {
    var p, j := GivenBy(bases, offset, itemSize, blockSize, a);
    SlotsAscend(bases[p], itemSize, 0, j);
  }

  ghost function FirstOf(s: seq<nat>, n: nat): set<nat>
    requires n <= |s|
  {
    if n == 0 then {} else FirstOf(s, n - 1) + {s[n - 1]}
  }

  ghost function Elements(s: seq<nat>): set<nat> {
    FirstOf(s, |s|)
  }

  lemma {:induction false} FirstOfHas(s: seq<nat>, n: nat, i: nat)
    requires i < n <= |s|
    ensures s[i] in FirstOf(s, n)
  {
    if i < n - 1 {
      FirstOfHas(s, n - 1, i);
    }
  }

  lemma {:induction false} FirstOfKept(s: seq<nat>, a: nat, n: nat)
    requires n <= |s|
    ensures FirstOf(s + [a], n) == FirstOf(s, n)
  {
    if n > 0 {
      FirstOfKept(s, a, n - 1);
    }
  }

  lemma PushedElements(s: seq<nat>, a: nat)
    ensures Elements(s + [a]) == Elements(s) + {a}
  {
    FirstOfKept(s, a, |s|);
  }

  lemma {:induction false} FirstOfCount(s: seq<nat>, n: nat)
    requires n <= |s|
    ensures |FirstOf(s, n)| <= n
  {
    if n > 0 {
      FirstOfCount(s, n - 1);
    }
  }

  lemma GivenNext(bases: seq<nat>, offset: nat, itemSize: nat, blockSize: nat)
    requires bases != []
    ensures Given(bases, offset + 1, itemSize, blockSize)
            == Given(bases, offset, itemSize, blockSize) + {Slot(bases[|bases| - 1], itemSize, offset)}
  {
  }

  lemma GivenExtended(bases: seq<nat>, memory: nat, itemSize: nat, blockSize: nat)
    requires bases != []
    ensures Given(bases + [memory], 1, itemSize, blockSize) == Given(bases, blockSize, itemSize, blockSize) + {memory}
  {
    FullBlocksKept(bases, memory, |bases|, itemSize, blockSize);
    assert Slots(memory, itemSize, 1) == Slots(memory, itemSize, 0) + {memory};
  }

  /** `a` is given away exactly when it is live or free, and it is not both. */
  ghost predicate Accounted(a: nat, given: set<nat>, live: set<nat>, free: set<nat>) {
    (a in given <==> a in live || a in free) && !(a in live && a in free)
  }

  /** Each item given away is either live or free. */
  ghost predicate Split(given: set<nat>, live: set<nat>, free: set<nat>) {
    forall a {:trigger Accounted(a, given, live, free)} :: Accounted(a, given, live, free)
  }

  lemma SplitSum(given: set<nat>, live: set<nat>, free: set<nat>)
    requires Split(given, live, free)
    ensures given == live + free && live !! free
  {
    forall a: nat ensures (a in given <==> a in live || a in free) && !(a in live && a in free) {
      assert Accounted(a, given, live, free);
    }
  }

  lemma SplitFreed(given: set<nat>, live: set<nat>, free: set<nat>, item: nat)
    requires Split(given, live, free) && item in live
    ensures Split(given, live - {item}, free + {item}) && item !in free
  {
    SplitSum(given, live, free);
  }

  lemma SplitReused(given: set<nat>, live: set<nat>, rest: set<nat>, item: nat)
    requires Split(given, live, rest + {item}) && item !in rest
    ensures Split(given, live + {item}, rest) && item in given && item !in live
  {
    SplitSum(given, live, rest + {item});
  }

  lemma SplitGrows(given: set<nat>, given': set<nat>, live: set<nat>, free: set<nat>, item: nat, itemSize: nat)
    requires Split(given, live, free) && 0 < itemSize && Clear(given, item, itemSize) && given' == given + {item}
    ensures Split(given', live + {item}, free) && item !in live && Clear(live, item, itemSize)
  {
    SplitSum(given, live, free);
    assert !Separate(item, item, itemSize);
  }

  /** What the blocks amount to: the memory of the blocks, newest first; how much
      of the newest is given away; and which items are live and which are free. */
  datatype Account = Account(bases: seq<nat>, offset: nat, live: set<nat>, free: seq<nat>) {
    /** Blocks do not overlap; every item given away is either live or free, and
        free at most once; and none is missing. */
    ghost predicate Balanced(itemSize: nat, blockSize: nat) {
      && 1 < itemSize && 1 < blockSize && bases != [] && offset <= blockSize
      && Positive(bases) && AllSeparate(bases, itemSize, blockSize)
      && Split(Given(bases, offset, itemSize, blockSize), live, Elements(free)) && |Elements(free)| == |free|
    }

    /** The items at different addresses never overlap, live or free. */
    lemma ItemsApart(itemSize: nat, blockSize: nat, a: nat, b: nat)
      requires Balanced(itemSize, blockSize) && a != b && a in live + Elements(free) && b in live + Elements(free)
      ensures Separate(a, b, itemSize)
    {
      SplitSum(Given(bases, offset, itemSize, blockSize), live, Elements(free));
      GivenApart(bases, offset, itemSize, blockSize, a, b);
    }

    // ----- the steps of alloc and free

    lemma ReusedBalanced(itemSize: nat, blockSize: nat, rest: seq<nat>, item: nat)
      requires Balanced(itemSize, blockSize) && free == rest + [item]
      ensures item !in live && item > 0 && Clear(live, item, itemSize)
      ensures Account(bases, offset, live + {item}, rest).Balanced(itemSize, blockSize)
    {
      PushedElements(rest, item);
      FirstOfCount(rest, |rest|);
      var given := Given(bases, offset, itemSize, blockSize);
      SplitReused(given, live, Elements(rest), item);
      GivenPositive(bases, offset, itemSize, blockSize, item);
      forall a | a in live ensures Separate(a, item, itemSize) {
        assert Accounted(a, given, live, Elements(free));
        GivenApart(bases, offset, itemSize, blockSize, a, item);
      }
    }

    lemma ReturnedBalanced(itemSize: nat, blockSize: nat, item: nat)
      requires Balanced(itemSize, blockSize) && item in live
      ensures Account(bases, offset, live - {item}, free + [item]).Balanced(itemSize, blockSize)
    {
      PushedElements(free, item);
      SplitFreed(Given(bases, offset, itemSize, blockSize), live, Elements(free), item);
    }

    lemma AdvancedBalanced(itemSize: nat, blockSize: nat, item: nat)
      requires Balanced(itemSize, blockSize) && free == [] && offset < blockSize && item == Slot(bases[|bases| - 1], itemSize, offset)
      ensures item !in live && item > 0 && Clear(live, item, itemSize)
      ensures Account(bases, offset + 1, live + {item}, free).Balanced(itemSize, blockSize)
    {
      var given, given' := Given(bases, offset, itemSize, blockSize), Given(bases, offset + 1, itemSize, blockSize);
      assert item > 0 by {
        SlotsAscend(bases[|bases| - 1], itemSize, 0, offset);
      }
      assert Clear(given, item, itemSize) by {
        NextApart(bases, offset, itemSize, blockSize);
      }
      assert given' == given + {item} by {
        GivenNext(bases, offset, itemSize, blockSize);
      }
      SplitGrows(given, given', live, Elements(free), item, itemSize);
    }

    lemma ExtendedBalanced(itemSize: nat, blockSize: nat, memory: nat)
      requires Balanced(itemSize, blockSize) && free == [] && offset == blockSize && memory > 0
      requires ClearOfBlocks(bases, memory, itemSize, blockSize)
      ensures memory !in live && Clear(live, memory, itemSize)
      ensures Account(bases + [memory], 1, live + {memory}, free).Balanced(itemSize, blockSize)
    {
      NewApart(bases, offset, itemSize, blockSize, memory);
      GivenExtended(bases, memory, itemSize, blockSize);
      SplitGrows(Given(bases, offset, itemSize, blockSize), Given(bases + [memory], 1, itemSize, blockSize),
                 live, Elements(free), memory, itemSize);
    }
  }

  lemma {:induction false} SlotCount(base: nat, itemSize: nat, n: nat)
    requires itemSize > 0
    ensures |Slots(base, itemSize, n)| == n
  {
    if n > 0 {
      SlotCount(base, itemSize, n - 1);
      if Slot(base, itemSize, n - 1) in Slots(base, itemSize, n - 1) {
        var j := SlotIndex(base, itemSize, n - 1, Slot(base, itemSize, n - 1));
        SlotsAscend(base, itemSize, j, n - 1);
      }
    }
  }

  lemma DisjointCount(a: set<nat>, b: set<nat>)
    requires a !! b
    ensures |a + b| == |a| + |b|
  {
  }

  lemma Product(n: nat, m: nat)
    requires n > 0
    ensures n * m == (n - 1) * m + m
  {
  }

  lemma {:induction false} FullBlocksCount(bases: seq<nat>, n: nat, itemSize: nat, blockSize: nat)
    requires itemSize > 0 && AllSeparate(bases, itemSize, blockSize) && n <= |bases|
    ensures |FullBlocks(bases, n, itemSize, blockSize)| == n * blockSize
  {
    if n > 0 {
      FullBlocksCount(bases, n - 1, itemSize, blockSize);
      SlotCount(bases[n - 1], itemSize, blockSize);
      BlockApart(bases, n - 1, n - 1, blockSize, itemSize, blockSize);
      DisjointCount(FullBlocks(bases, n - 1, itemSize, blockSize), Slots(bases[n - 1], itemSize, blockSize));
      Product(n, blockSize);
    }
  }

  /** Older blocks and a newer one have no item in common. */
  lemma BlockApart(bases: seq<nat>, n: nat, m: nat, offset: nat, itemSize: nat, blockSize: nat)
    requires itemSize > 0 && AllSeparate(bases, itemSize, blockSize) && n <= m < |bases| && offset <= blockSize
    ensures FullBlocks(bases, n, itemSize, blockSize) !! Slots(bases[m], itemSize, offset)
  {
    forall a | a in FullBlocks(bases, n, itemSize, blockSize) ensures a !in Slots(bases[m], itemSize, offset) {
      if a in Slots(bases[m], itemSize, offset) {
        var p, j := FullBlocksBy(bases, n, itemSize, blockSize, a);
        var k := SlotIndex(bases[m], itemSize, offset, a);
        assert SeparateBlocks(bases[p], bases[m], itemSize, blockSize);
        BlocksApart(bases[p], bases[m], itemSize, blockSize, j, k);
      }
    }
  }

  /** Conservation: live and free items together are all that blocks have given away. */
  lemma GivenCount(account: Account, itemSize: nat, blockSize: nat)
    requires account.Balanced(itemSize, blockSize)
    ensures |account.live| + |account.free| == (|account.bases| - 1) * blockSize + account.offset
  {
    var bases, offset := account.bases, account.offset;
    FullBlocksCount(bases, |bases| - 1, itemSize, blockSize);
    SlotCount(bases[|bases| - 1], itemSize, offset);
    BlockApart(bases, |bases| - 1, |bases| - 1, offset, itemSize, blockSize);
    DisjointCount(FullBlocks(bases, |bases| - 1, itemSize, blockSize), Slots(bases[|bases| - 1], itemSize, offset));
    SplitSum(Given(bases, offset, itemSize, blockSize), account.live, Elements(account.free));
    DisjointCount(account.live, Elements(account.free));
  }

  class MemoryPool {
    var block: MemoryBlock
    var freeBlock: MemoryPtrBlock?
    const itemSize: nat
    const blockSize: nat

    ghost var live: set<nat>  // handed out and not freed since
    ghost var repr: set<object>  // the chain of free-pointer blocks

    /** The free items, the one freed last at the end. */
    ghost function Free(): seq<nat>
      reads this`freeBlock, freeBlock
    {
      if freeBlock == null then [] else freeBlock.stacked
    }

    /** All free-pointer blocks but the first are full, and the first is not empty. */
    ghost predicate Chains()
      reads this`block, this`freeBlock, this`repr, block, repr
    {
      && this !in repr && block !in repr
      && block.bases != [] && block.bases[|block.bases| - 1] == block.items && block.offset <= blockSize
      && (freeBlock != null ==>
            freeBlock in repr && freeBlock.repr <= repr && freeBlock.Chained(blockSize) && freeBlock.offset > 0)
    }

    ghost function Books(): Account
      reads this, block, freeBlock
    {
      Account(block.bases, block.offset, live, Free())
    }

    ghost predicate Valid()
      reads this, block, repr
    {
      Chains() && Books().Balanced(itemSize, blockSize)
    }

    /** Memory that malloc() may return for the next block. */
    ghost predicate Unused(base: nat)
      reads this, block
    {
      base > 0 && ClearOfBlocks(block.bases, base, itemSize, blockSize)
    }

    constructor (itemSize: nat, blockSize: nat, memory: nat)
      requires itemSize > 1 && blockSize > 1 && memory > 0
      ensures Valid() && this.itemSize == itemSize && this.blockSize == blockSize && fresh(block) && repr == {}
      ensures live == {} && Free() == [] && block.bases == [memory]
    {
      this.itemSize, this.blockSize := itemSize, blockSize;
      var first := new MemoryBlock(memory, null);
      block, freeBlock := first, null;
      live := {};
      repr := {};
    }

    /** _memory_pool_try_get_detached_item: the item freed last, if there is one. */
    method TryGetDetachedItem() returns (item: nat)
      requires Chains() && Positive(Free())
      modifies this`freeBlock, freeBlock
      ensures Chains() && (item == 0 <==> old(Free()) == [])
      ensures old(Free()) == Free() + if item == 0 then [] else [item]
      ensures item == 0 ==> unchanged(`freeBlock)
    {
      item := 0;
      if freeBlock != null {
        item := freeBlock.Take();
        assert old(Free())[|old(Free())| - 1] == item;
        if freeBlock.offset == 0 {
          freeBlock := freeBlock.next;
        }
      }
    }

    /** _memory_pool_try_get_current_item: the next item of the first block. */
    method TryGetCurrentItem() returns (item: nat)
      requires Chains() && block.items > 0
      modifies block`offset
      ensures Chains() && (item == 0 <==> old(block.offset) == blockSize)
      ensures block.offset == old(block.offset) + if item == 0 then 0 else 1
      ensures item != 0 ==> item == Slot(block.items, itemSize, old(block.offset))
    {
      item := 0;
      if block.offset < blockSize {
        SlotAddress(block.items, itemSize, block.offset);
        SlotsAscend(block.items, itemSize, 0, block.offset);
        item := block.items + itemSize * block.offset;
        block.offset := block.offset + 1;
      }
    }

    /** _memory_pool_get_item_from_new_block: the first item of new memory. */
    method GetItemFromNewBlock(memory: nat) returns (item: nat)
      requires Chains() && block.offset == blockSize > 1 && memory > 0
      modifies this`block
      ensures Chains() && fresh(block)
      ensures block.bases == old(block.bases) + [memory] && block.items == memory && block.offset == 1
      ensures item == memory == Slot(block.items, itemSize, 0)
    {
      block := new MemoryBlock(memory, block);
      item := block.items;
      block.offset := block.offset + 1;
    }

    /** What every source of _memory_pool_alloc guarantees about the item it finds. */
    ghost predicate Fits(item: nat, live: set<nat>) {
      item > 0 && item !in live && Clear(live, item, itemSize)
    }

    /** The item on top of the free stack becomes live. */
    ghost method Reuse(item: nat, before: Account)
      requires Chains() && before.Balanced(itemSize, blockSize) && before == Account(block.bases, block.offset, live, Free() + [item])
      modifies this`live
      ensures Valid() && live == before.live + {item} && Fits(item, before.live)
    {
      before.ReusedBalanced(itemSize, blockSize, Free(), item);
      live := live + {item};
      assert Books() == Account(before.bases, before.offset, before.live + {item}, Free());
    }

    lemma FreePositive()
      requires Valid()
      ensures Positive(Free())
    {
      forall i | 0 <= i < |Free()| ensures Free()[i] > 0 {
        FirstOfHas(Free(), |Free()|, i);
        SplitSum(Given(block.bases, block.offset, itemSize, blockSize), live, Elements(Free()));
        GivenPositive(block.bases, block.offset, itemSize, blockSize, Free()[i]);
      }
    }

    method AllocCurrent() returns (item: nat)
      requires Valid() && Free() == []
      modifies this`live, block`offset
      ensures Valid() && Free() == []
      ensures item == 0 ==> live == old(live) && block.offset == blockSize
      ensures item != 0 ==> Fits(item, old(live)) && live == old(live) + {item}
    {
      ghost var before := Books();
      item := TryGetCurrentItem();
      if item != 0 {
        before.AdvancedBalanced(itemSize, blockSize, item);
        live := live + {item};
      }
    }

    method AllocNew(memory: nat) returns (item: nat)
      requires Valid() && Free() == [] && block.offset == blockSize && Unused(memory)
      modifies this
      ensures Valid() && Free() == [] && fresh(block) && repr == old(repr)
      ensures Fits(item, old(live)) && live == old(live) + {item} && block.bases == old(block.bases) + [memory]
    {
      ghost var before := Books();
      before.ExtendedBalanced(itemSize, blockSize, memory);
      item := GetItemFromNewBlock(memory);
      live := live + {item};
    }

    /** _memory_pool_alloc when no item is free. */
    method AllocUnused(memory: nat) returns (item: nat)
      requires Valid() && Free() == [] && Unused(memory)
      modifies this, block
      ensures Valid() && Free() == [] && repr == old(repr) && (block == old(block) || fresh(block))
      ensures Fits(item, old(live)) && live == old(live) + {item}
      ensures block.bases == old(block.bases) || block.bases == old(block.bases) + [memory]
    {
      item := AllocCurrent();
      if item == 0 {
        item := AllocNew(memory);
      }
    }

    /** _memory_pool_alloc: an item that overlaps no live one; the one freed last,
        if any is free. */
    method Alloc(memory: nat) returns (item: nat)
      requires Valid() && Unused(memory)
      modifies this, block, repr
      ensures Valid() && repr <= old(repr) && (block == old(block) || fresh(block))
      ensures Fits(item, old(live)) && live == old(live) + {item}
      ensures old(Free()) == Free() + if old(Free()) == [] then [] else [item]
      ensures block.bases == old(block.bases) || block.bases == old(block.bases) + [memory]
    {
      ghost var before := Books();
      FreePositive();
      item := TryGetDetachedItem();
      if item != 0 {
        Reuse(item, before);
      } else {
        item := AllocUnused(memory);
      }
    }

    /** The first pointer block, with room for one more address (pool.c:160-169). */
    method PtrBlockWithRoom() returns (room: MemoryPtrBlock)
      requires Chains() && blockSize > 0
      modifies this`freeBlock, this`repr
      ensures room == freeBlock && room.offset < blockSize && room.Chained(blockSize) && room.stacked == old(Free())
      ensures this !in repr && block !in repr
      ensures room in repr && room.repr <= repr
      ensures fresh(repr - old(repr)) && (room == old(freeBlock) || fresh(room)) && room.items in repr
      ensures fresh(room.items) || (room == old(freeBlock) && room.items in old(repr))
    {
      var cur := freeBlock;
      if cur == null || cur.offset == blockSize {
        cur := new MemoryPtrBlock(blockSize, freeBlock);
        freeBlock := cur;
        repr := repr + cur.repr;
      }
      return cur;
    }

    method PushFree(item: nat)
      requires Chains() && blockSize > 0
      modifies this`freeBlock, this`repr, freeBlock, if freeBlock == null then {} else {freeBlock.items}
      ensures Chains() && fresh(repr - old(repr)) && Free() == old(Free()) + [item]
      ensures unchanged(block)
    {
      var cur := PtrBlockWithRoom();
      cur.Add(item);
    }

    /** _memory_pool_free: the item is the next one to be handed out. */
    method Release(item: nat)
      requires Valid() && item in live
      modifies this`live, this`freeBlock, this`repr, repr
      ensures Valid() && fresh(repr - old(repr))
      ensures live == old(live) - {item} && Free() == old(Free()) + [item]
    {
      ghost var before := Books();
      PushFree(item);
      Retire(item, before);
    }

    /** The item pushed on the free stack is not live any more. */
    ghost method Retire(item: nat, before: Account)
      requires Chains() && before.Balanced(itemSize, blockSize) && item in live
      requires before.free + [item] == Free() && before == Account(block.bases, block.offset, live, before.free)
      modifies this`live
      ensures Valid() && live == before.live - {item}
    {
      before.ReturnedBalanced(itemSize, blockSize, item);
      live := live - {item};
      assert Books() == Account(before.bases, before.offset, before.live - {item}, before.free + [item]);
    }
  }
}
