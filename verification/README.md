# Containers of the C datatypes library, verified

A Dafny model of the library's mutable containers, one module per source file, with
proofs of what they promise. Methods work on the heap as the C code does; ghost values
say what the heap stands for, and lemmas about those values carry the hard parts.

| file | models |
|---|---|
| `Machine.dfy` | the limits of a 64-bit machine, powers of two |
| `MapSpec.dfy`, `Ordering.dfy` | the abstract map that three containers implement; entries in the order of a compare function |
| `RbShape.dfy`, `RbInsert.dfy`, `RbRemove.dfy` | red-black trees cut along the path that the ancestor stack holds; both repairs, on values |
| `RbHeap.dfy`, `RbTree.dfy`, `RbIter.dfy` | `rbtree.c`: nodes on the heap, the growable ancestor stack, set, remove, search, the iterator |
| `Pool.dfy` | `pool.c`: blocks of items and the chunked stack of free addresses |
| `HashChains.dfy`, `HashTable.dfy`, `HashIter.dfy` | `hashtable.c`: chained buckets in pool memory, rehashing, iteration |
| `AssocArray.dfy` | `assocarray.c`: binary search and the parallel sorted arrays |
| `MapClients.dfy`, `StringKeys.dfy` | any sequence of calls on the three maps; the key functions of the tests (`compare.c`, `hash.c`) |
| `AsyncQueue.dfy` | `asyncqueue.c`: runs of producers and consumers over mutex and condition variable |
| `ListShape.dfy`, `SList.dfy`, `List.dfy` | `slist.c` and `list.c` |
| `Buffer.dfy`, `BufferRuns.dfy` | `buffer.c`; sequences of calls on one buffer |

`dafny verify dfyconfig.toml` checks the project.

## Main results

- **Red-black tree.** `RBTree.Set` and `RBTree.Remove` take every valid tree to a valid
  red-black search tree whose map is the updated one. Before each repair step the
  ancestor stack is exactly the path to the node, through growth of the array and
  through rotations. In removal the child is spliced in without blackening it; this is
  right because every way through the repair leaves the node's parent black
  (`RbRemove.Refitted`, `RbRemove.UnlinkedRedBlack`). The iterator visits each entry once
  and never needs more than `count + 1` slots.
- **One map, three containers.** `MapClients.RunAll`: any sequence of set (with either
  `overwrite_key`), remove, clear, lookup, key_exists and count is answered alike by the
  tree, the hash table (growing or of fixed size) and the sorted array, through every
  rehash and every growth; `MapClients.CorrectTells`: each answer is the one that the sets,
  removes and clears before it determine, key by key.
- **Hash table and pool.** Chains end, share no bucket, and hold each bucket where its
  hash belongs; the linked buckets are exactly the live items of the pool; no live item is
  handed out twice or overlaps another. After any run a growing table has at most one bucket
  more than slots, except at the three sizes behind the drop in the list of sizes
  (`MapClients.RunTable`, `MapClients.StaysRoomy`).
- **Async queue.** In every run of untimed consumers no wakeup is lost. With timed ones it
  can be: exactly when some consumer uses a timeout and is not the only consumer
  (`LossIsReachable`), and exactly at a timeout that consumes a signal that was needed
  (`ServedStep`, `NoLostWakeupTimed`). First in, first out holds for every run,
  of the values that its push events carry (`FirstInFirstOut`).
- **Lists.** Removing leaves out exactly the item, the places that match, or the first of
  them, and every other keeps its item, its value and its order, in any list. The search from
  both ends never follows null and finds the match nearest to an end.
- **Buffer.** `BufferRuns.Run` ties any sequence of calls to a function of that sequence;
  `ChunkingIsIrrelevant` and `SameInputSameLines` prove of it that neither how the input was
  cut into chunks nor when lines were read changes the lines.

## Assumptions

The compare function of tree, array and sorted list is a total order up to equivalence;
the equal function of the hash table is an equivalence, and equal keys hash alike.
`StringKeys` discharges this for the string functions that the shared tests use.
`malloc()` succeeds and returns memory of its own; where its result is an address that
matters (the pool), it is a parameter. The machine has 64-bit `size_t`. A mutex excludes,
`pthread_cond_signal` wakes at least one sleeper if there is one, wakeups may be spurious,
and a timed wait that times out may consume a signal, as the description of
`pthread_cond_timedwait` in IEEE Std 1003.1 allows.

## Where code and documentation differ

- The table sizes (hashtable.c:37-92, "prime numbers") are meant to grow, but the list drops
  from 554381470637 to 110876294129 (hashtable.c:65-66): `HashTable.SizesGrow` says where, and
  `HashTable.NextSize` when a table shrinks. Everything else holds for any list of sizes.
- `async_queue_pop` has no timeout, but its wait is not in a loop (asyncqueue.c:181-182), so it
  may return false after a spurious wakeup or when its item was taken: `AsyncQueue.PopMayFail`
  says that it can exactly when the queue is empty at the call.
- `list_insert_sorted` follows the head's null `prev` (list.c:218) exactly when the first value
  is smaller and the last one larger: `List.InsertSorted`, with the input in `MiddleValueFaults`.
- The `len` that buffer.h calls the length of `dst` is, once `dst` was too short, one less than
  its memory, the 0 at the end not being counted (buffer.c:223-226): `Buffer.CopyToString`.
- `_buffer_new_realloc_size` would not end for `from == 0` (`Buffer.DoublingZero`); no caller
  passes 0, and `NewReallocSize` asks for `0 < from`.

## Model

| member | source | states |
|---|---|---|
| `MapSpec.FindsIsFunctional` | hashtable.c:415-432 | A map without two equivalent keys has exactly one correct answer to each lookup |
| `MapSpec.PutLaws` | test/test-map.m4:92-113 | Setting a key keeps keys unique, grows the count by one only for a new key, and makes the key find the new value |
| `MapSpec.PutFrame` | rbtree.c:505-520 | Setting a key changes no lookup of any other key |
| `Ordering.SameKeyIsEquivalence` | compare.h:29-33 | A compare function that orders the keys induces an equivalence, as the hash table expects of its equal function |
| `Ordering.InsertedBetween` | assocarray.c:254-285 | A new entry between the smaller and the larger keys keeps the order and is the abstract update |
| `Ordering.ReplacedAt` | assocarray.c:189-212 | Storing a value, and an equivalent key if asked to, where the key was found keeps the order and is the abstract update |
| `Ordering.RemovedAt` | assocarray.c:334-365 | Dropping the entry of a found key keeps the order and is the abstract removal |
| `RbShape.ZipRedBlack` | rbtree.c:297-387 | A tree is red-black exactly when both parts of any cut along a root-to-node path are, colours and black heights matching at the cut |
| `RbShape.HeightBound` | rbtree.c:525-561 | A red-black tree with n entries is at most 2*log2(n+1) high |
| `RbInsert.RepairRestores` | rbtree.c:297-387 | If only a red node below a perhaps red parent disturbs the tree, repair makes it red-black, climbing two levels per recolouring |
| `RbInsert.RepairKeepsOrder` | rbtree.c:297-387 | Repair after insertion keeps the symmetric order and the set of nodes, and never duplicates a node |
| `RbRemove.Refitted` | rbtree.c:734-790 | Removal repair leaves the node in its hole, makes the ancestors accept a hole one black level lower, and always leaves that node's parent black |
| `RbRemove.RefittedBelowBlack` | rbtree.c:652-732 | The same for cases 3 to 6, below a black sibling |
| `RbRemove.UnlinkedRedBlack` | rbtree.c:829-852 | Splicing the child in, even a red one uncoloured in the place of a black node, leaves a red-black tree, because repair left the parent black |
| `RbRemove.RemovedOrder` | rbtree.c:819-852 | After a removal the symmetric order is the old one without the removed entry, also when the in-order predecessor took its place, and the tree is red-black |
| `RbTree.RBTree.StackPush` | rbtree.c:162-202 | The push appends to the path; a full array is doubled, and the overflow abort is out of reach |
| `RbTree.RBTree.Replace` | rbtree.c:241-261 | Whatever link of the tree led to a node leads to the other afterwards, the rest of the path unchanged |
| `RbTree.RBTree.RotateLeftAt` | rbtree.c:263-277 | Rotating in place turns the tree into the rotated one, everything around it unchanged |
| `RbTree.RBTree.RotateRightAt` | rbtree.c:279-290 | The mirror image |
| `RbTree.RBTree.Recolour` | rbtree.c:311-321 | Case 3 of insertion, in place |
| `RbTree.RBTree.InsertCase4` | rbtree.c:326-344 | Case 4 in place; the stack is again exactly the path to the lower node |
| `RbTree.RBTree.InsertCase5` | rbtree.c:346-368 | Case 5 in place |
| `RbTree.RBTree.InsertCase4To5` | rbtree.c:326-368 | Both in place, below a black uncle: the grandparent's subtree becomes the lifted one |
| `RbTree.RBTree.InsertCase1` | rbtree.c:372-387 | With the stack exactly the path to the red node, the heap ends up as the repaired tree; terminates |
| `RbTree.RBTree.InsertCase2To5` | rbtree.c:297-370 | The same below a parent |
| `RbTree.RBTree.DepthBound` | rbtree.c:525-561 | No path is longer than 2*log2(count+1), hence never than 128 nodes |
| `RbTree.RBTree.SearchPlace` | rbtree.c:447-468 | The search loop ends at the key or at the free place where it belongs, the stack being exactly the path to it |
| `RbTree.RBTree.InsertedLeaf` | rbtree.c:470-476 | A red leaf where the key belongs, after repair, is the abstract update in a red-black search tree |
| `RbTree.RBTree.ReplacedEntry` | rbtree.c:408-431 | Replacing an entry keeps the tree red-black and in order and is the abstract update |
| `RbTree.RBTree.InsertSame` | rbtree.c:453-459 | The update where the key was found: map and invariant |
| `RbTree.RBTree.InsertNew` | rbtree.c:468-500 | The update where it was not |
| `RbTree.RBTree.InsertChild` | rbtree.c:433-503 | The update of a tree that is not empty: result, map and invariant |
| `RbTree.RBTree.Set` | rbtree.c:505-520 | A valid red-black tree stays one; its map is updated at the key; the result says new, replaced or (only at SIZE_MAX entries and another key than the root's) failed; count is the number of entries |
| `RbTree.RBTree.FindNode` | rbtree.c:525-561 | The node found has the key, and null means that the map does not have it |
| `RbTree.RBTree.FindNodeOnStack` | rbtree.c:525-561 | The same, the stack being exactly the path to the found node |
| `RbTree.RBTree.AbsentAt` | rbtree.c:560 | A search that ends at a free place proves that the map does not have the key |
| `RbTree.RBTree.FoundAt` | rbtree.c:543-546 | A search that ends at a node found the one entry with the key |
| `RbTree.RBTree.Lookup` | rbtree.c:563-579 | Finds the entry of the key exactly when there is one |
| `RbTree.RBTree.KeyExists` | rbtree.c:621-628 | True exactly when the map has the key |
| `RbTree.RBTree.Clear` | rbtree.c:136-149 | A valid empty tree |
| `RbTree.RBTree.CountsEntries` | rbtree.c:151-157 | The count is the number of entries, no two of which have equivalent keys |
| `RbTree.RBTree.RemoveCase1` | rbtree.c:781-790 | With the stack exactly the path to the node, the heap's ancestors become the refitted ones and the saved parent is still the node's parent |
| `RbTree.RBTree.RemoveCase2` | rbtree.c:734-779 | The same; a red sibling is first lifted above the parent |
| `RbTree.RBTree.SiblingUp` | rbtree.c:752-776 | Case 2 in place; the stack has the sibling above the parent afterwards and is again the exact path |
| `RbTree.RBTree.Demote` | rbtree.c:773-775 | The demotion of the path entries, through growth of the array |
| `RbTree.RBTree.RemoveCase3To6` | rbtree.c:652-732 | The repair below a black sibling, in place |
| `RbTree.RBTree.RemoveCase3Or4` | rbtree.c:672-691 | Cases 3 and 4 in place |
| `RbTree.RBTree.RemoveCase5` | rbtree.c:693-707 | Case 5 in place |
| `RbTree.RBTree.RemoveCase6` | rbtree.c:709-731 | Case 6 in place |
| `RbTree.RBTree.FindMaxNode` | rbtree.c:633-648 | The rightmost node, with the stack exactly the path to it |
| `RbTree.RBTree.TakeMax` | rbtree.c:819-827 | The predecessor's entry moves up and the stack leads to its old node, through the node that received it |
| `RbTree.RBTree.Unlink` | rbtree.c:829-852 | Repair, splice and root recolouring produce the unlinked tree in place |
| `RbTree.RBTree.RepairFor` | rbtree.c:837-845 | Repair before a black node is spliced out; the node itself at most turns red |
| `RbTree.RBTree.SpliceIn` | rbtree.c:847-852 | The child replaces the node as it is, and turns black only as the new root |
| `RbTree.RBTree.Detach` | rbtree.c:847 | The splice removes exactly one node |
| `RbTree.RBTree.RemovedEntry` | rbtree.c:792-864 | The tree after removal is red-black, in order, one entry smaller, and stands for the map without the key |
| `RbTree.RBTree.Remove` | rbtree.c:792-864 | A valid red-black tree stays one, loses exactly the key, and the result is true exactly when it was there |
| `RbIter.VisitsEachEntry` | rbtree.c:935-999 | Pre-order contains each entry exactly as often as the tree |
| `RbIter.EnteredLaws` | rbtree.c:951-964 | Entering the next child leaves all other visits to come and uses up moves of the automaton |
| `RbIter.TurnedLaws` | rbtree.c:947-989 | A turn of the automaton uses up a move, loses no visit to come, and visits an entry exactly when it arrives at a child |
| `RbIter.EnteredFits` | rbtree.c:876 | The slots after entering a child are at most count + 1 |
| `RbIter.RBTreeIter.constructor` | rbtree.c:869-894 | All entries are to be visited, and there are count + 1 stack slots |
| `RbIter.RBTreeIter.Push` | rbtree.c:951-964 | The push stays within the count + 1 slots |
| `RbIter.RBTreeIter.Turn` | rbtree.c:947-989 | One turn on the heap is the turn of the automaton, and leaves the loop exactly when it arrives at a child |
| `RbIter.RBTreeIter.MoveNext` | rbtree.c:935-999 | Moves to the next entry in pre-order; false exactly when none is left |
| `RbIter.Collect` | test/test-map.m4:115-134 | A whole iteration visits the entries in pre-order |
| `Pool.SlotAddress` | pool.c:110-113 | The address of the j-th item of a block |
| `Pool.SlotsApart` | pool.c:110-113 | Different items of a block do not overlap |
| `Pool.GivenApart` | pool.c:103-152 | Any two different items ever given away are disjoint, over any number of blocks |
| `Pool.GivenCount` | pool.c:134-172 | Conservation: live and free items together are exactly the items the blocks have given away |
| `Pool.Account.ItemsApart` | pool.c:134-152 | Any two different items, live or free, occupy disjoint ranges |
| `Pool.Account.ReusedBalanced` | pool.c:78-101 | Reusing the item freed last keeps the books and hands out no live item |
| `Pool.Account.ReturnedBalanced` | pool.c:154-172 | Freeing a live item keeps the books |
| `Pool.Account.AdvancedBalanced` | pool.c:103-116 | The next item of the current block is new and overlaps nothing |
| `Pool.Account.ExtendedBalanced` | pool.c:118-132 | So is the first item of a new block |
| `Pool.MemoryPtrBlock.Add` | pool.c:171 | The address goes on top of the stack |
| `Pool.MemoryPtrBlock.Take` | pool.c:87 | The address on top leaves it |
| `Pool.MemoryPool.constructor` | pool.c:174-199 | A valid pool with one block, nothing live and nothing free |
| `Pool.MemoryPool.TryGetDetachedItem` | pool.c:78-101 | The free-pointer blocks stay one stack, no block on it empty, from which the top is taken |
| `Pool.MemoryPool.TryGetCurrentItem` | pool.c:103-116 | The next item of the newest block, if it has one left |
| `Pool.MemoryPool.GetItemFromNewBlock` | pool.c:118-132 | The first item of new memory |
| `Pool.MemoryPool.PtrBlockWithRoom` | pool.c:160-169 | All free-pointer blocks but the first are full |
| `Pool.MemoryPool.Alloc` | pool.c:134-152 | An item that is not live and overlaps no live one becomes live; the one freed last if any is free |
| `Pool.MemoryPool.Release` | pool.c:154-172 | A live item becomes the next one to be handed out |
| `HashChains.LinkedInserted` | hashtable.c:351-354 | A bucket in front of its chain: every bucket in use still sits once, in the chain of its hash, and chains end and share nothing |
| `HashChains.LinkedRemoved` | hashtable.c:394-401 | The same after unlinking a bucket anywhere in its chain |
| `HashChains.MovedOne` | hashtable.c:262-279 | One turn of the rehash moves one bucket; those moved, those left in the chain and those in later chains remain all buckets |
| `HashChains.MoveGoesOn` | hashtable.c:258-280 | When all chains are done every bucket has moved |
| `HashChains.ContentsReplaced` | hashtable.c:324-344 | Overwriting a bucket in place is the abstract update and keeps keys unique |
| `HashChains.ContentsInserted` | hashtable.c:345-357 | A new bucket is the abstract update and keeps keys unique |
| `HashChains.ContentsRemoved` | hashtable.c:382-407 | A removed bucket is the abstract removal |
| `HashChains.ContentsCount` | hashtable.c:480-486 | There are as many entries as buckets in use |
| `HashTable.HashTable.constructor` | hashtable.c:119-164 | A valid empty table with its own pool, of the given number of slots, or of 257 if it is to grow |
| `HashTable.HashTable.FindBucket` | hashtable.c:285-305 | Finds a matching bucket of the chain exactly when there is one |
| `HashTable.HashTable.MoveBucket` | hashtable.c:264-278 | One bucket moves to the front of its new chain; no key or value changes |
| `HashTable.HashTable.MoveChain` | hashtable.c:260-279 | All buckets of one old chain move |
| `HashTable.HashTable.MoveAll` | hashtable.c:258-280 | All buckets of the old table move into well-formed new chains |
| `HashTable.HashTable.Resize` | hashtable.c:231-283 | Rehashing to the next size in the list moves every bucket once and leaves the map as it was |
| `HashTable.HashTable.GrowIfCrowded` | hashtable.c:315-318 | A growing table with more buckets than slots gets the next size in the list, any other keeps its own; the map stays |
| `HashTable.HashTable.AbsentFromChain` | hashtable.c:320-322 | A key that its own chain lacks is nowhere in the table |
| `HashTable.HashTable.CountsEntries` | hashtable.c:480-486 | The count is the number of entries, no two of which have equal keys |
| `HashTable.HashTable.ReplaceBucket` | hashtable.c:324-344 | The abstract update where the key is present |
| `HashTable.HashTable.LinkBucket` | hashtable.c:351-356 | The abstract update where it is not; the buckets linked are exactly the live items of the pool |
| `HashTable.HashTable.NextSize` | hashtable.c:37-92 | Resizing enlarges a table unless it has 554381470637 slots, when it shrinks to 110876294129 |
| `HashTable.HashTable.InsertBucket` | hashtable.c:345-357 | The same together with the allocation |
| `HashTable.HashTable.SetWithin` | hashtable.c:320-363 | The update in the table as it is |
| `HashTable.HashTable.Set` | hashtable.c:307-364 | The map is updated at the key; exactly a growing table with more buckets than slots gets the next size first; the result says new, replaced or (only at SIZE_MAX entries) failed; buckets linked, live pool items and count agree |
| `HashTable.HashTable.Unlink` | hashtable.c:394-401 | The bucket leaves its chain: the abstract removal |
| `HashTable.HashTable.GiveBack` | hashtable.c:403-404 | A bucket that is in no chain any more returns to the pool, and everything is in order again |
| `HashTable.HashTable.Remove` | hashtable.c:366-413 | The map loses exactly the key, which is compared with arguments swapped; the bucket goes back to the pool |
| `HashTable.HashTable.Clear` | hashtable.c:217-229 | A valid empty table of the same size with a new pool |
| `HashTable.HashTable.Find` | hashtable.c:320-322 | The chain of the key's hash is the only place to look |
| `HashTable.HashTable.Lookup` | hashtable.c:415-432 | Finds the entry of the key exactly when there is one |
| `HashTable.HashTable.KeyExists` | hashtable.c:469-478 | True exactly when the map has the key |
| `HashTable.PrimesAreSizes` | hashtable.c:37-92 | Every size in the list is positive and fits an allocation, and only the last entry is 0 |
| `HashTable.SizesGrow` | hashtable.c:37-92 | Each size in the list is smaller than the next, with the one exception of 554381470637 |
| `HashIter.FlatHolds` | hashtable.c:488-534 | The chains in order contain each bucket in use exactly once |
| `HashIter.HashTableIter.GetNextBucket` | hashtable.c:497-510 | Skips empty chains and no others |
| `HashIter.HashTableIter.MoveNext` | hashtable.c:512-534 | Visits the next bucket; false only after the last |
| `HashIter.OrderCovers` | hashtable.c:512-534 | Visiting each bucket once is visiting each entry once |
| `HashIter.Collect` | test/test-map.m4:115-134 | A whole iteration visits each bucket once: as many visits as the count says, and exactly the entries of the map |
| `AssocArray.Halved` | assocarray.c:58-67 | One comparison settles the side of all entries before or behind it |
| `AssocArray.Memmove` | assocarray.c:261-262 | An overlapping move of a range moves each element once |
| `AssocArray.AssocArray.constructor` | assocarray.c:96-125 | A valid empty array |
| `AssocArray.AssocArray.BinarySearch` | assocarray.c:33-76 | An index in range; 0: the key is there; negative: it belongs right before; positive: right behind |
| `AssocArray.AssocArray.ResizeIfNecessary` | assocarray.c:214-252 | Exactly a full array grows, to twice its size but never beyond ASSOC_ARRAY_MAX_SIZE, and keeps its entries |
| `AssocArray.AssocArray.InsertNear` | assocarray.c:254-285 | The entry goes in next to where the search ended: sorted, and the abstract update |
| `AssocArray.AssocArray.Replace` | assocarray.c:189-212 | The abstract update where the key was found |
| `AssocArray.AssocArray.Set` | assocarray.c:287-332 | The map is updated at the key, the result says whether it was there, the keys stay strictly sorted and count <= size <= ASSOC_ARRAY_MAX_SIZE |
| `AssocArray.AssocArray.Remove` | assocarray.c:334-365 | The map loses exactly the key |
| `AssocArray.AssocArray.Lookup` | assocarray.c:367-386 | Finds the entry of the key exactly when there is one |
| `AssocArray.AssocArray.KeyExists` | assocarray.c:420-434 | True exactly when the map has the key |
| `AssocArray.AssocArray.CountsEntries` | assocarray.c:436-442 | The count is the number of entries, no two of which have equivalent keys |
| `AssocArray.AssocArray.Collect` | assocarray.c:452-470 | Iteration visits every entry once, in the order of the keys |
| `MapClients.ModelIsMap` | test/test-map.m4:142-273 | The abstract map after n calls has unique keys and at most n entries |
| `MapClients.ModelFinds` | test/test-map.m4:142-273 | Under each key the abstract map finds what the calls before say: the value of the last set of that key, unless a remove of it or a clear came after, with the key that was first stored or last to overwrite |
| `MapClients.ModelCounts` | test/test-map.m4:142-273 | It has as many entries as sets of a missing key minus removes of a present one since the last clear |
| `MapClients.CorrectIsFunctional` | test/test-map.m4:142-273 | There is exactly one correct sequence of answers to a sequence of calls |
| `MapClients.CorrectTells` | test/test-map.m4:142-273 | Each correct answer is the one that the sets, removes and clears before it determine, key by key, with no abstract map in between |
| `MapClients.CorrectAgrees` | compare.h:29-33 | A compare and an equal function that agree on sameness have the same correct answers |
| `MapClients.TreeStep` | rbtree.c:505-628 | Every call on the red-black tree is answered as the abstract map answers it, but for setting another key than the root's in a tree of SIZE_MAX entries, which fails and changes nothing |
| `MapClients.ArrayStep` | assocarray.c:287-442 | So is every call on the sorted array but the one that aborts, setting a new key at the size limit |
| `MapClients.TableStep` | hashtable.c:217-486 | So is every call on a hash table of fixed or growing size, but for setting a new key at SIZE_MAX entries, which fails and changes nothing, and the one that aborts at the end of the size list; only a set on a crowded growing table changes the number of slots; new blocks of the pool are memory of their own |
| `MapClients.RunTree` | test/test-map.m4:142-212 | Any sequence of calls on a new tree is answered correctly |
| `MapClients.RunArray` | test/test-map.m4:142-212 | Any sequence of calls on a new array is answered correctly |
| `MapClients.FewCallsCanGrow` | hashtable.c:231-246 | With fewer entries than the largest size a table never reaches the end of the size list |
| `MapClients.StaysRoomy` | hashtable.c:315-318 | Growing when crowded keeps the buckets of a table to at most one more than its slots, but for the drop in the list of sizes, after which three sets have caught up |
| `MapClients.TableTurn` | hashtable.c:217-486 | One call of such a run |
| `MapClients.RunTable` | test/test-map.m4:142-212 | Any sequence of calls on a new table of any size is answered correctly; one of fixed size keeps it; one that grows does not reach the end of the size list and never holds more than one bucket more than it has slots, except at the three sizes behind the drop in that list |
| `MapClients.RunAll` | test/test-map.m4:142-273 | Any sequence of set, remove, clear, lookup, key_exists and count gets the same answers from tree, table and array |
| `MapClients.CollectAll` | test/test-map.m4:115-134 | Iterating over a tree, a table and an array with the same entries visits the same entries, each once |
| `StringKeys.CompareIsTotalOrder` | compare.h:35-36 | strcmp() orders the strings totally and agrees with str_equal on sameness |
| `StringKeys.Equal` | compare.c:30-48 | str_equal decides equality of strings |
| `StringKeys.Hash` | hash.c:27-41 | The wrapped shifts and the subtraction compute a function of the string's characters, so equal strings hash alike |
| `StringKeys.RunStrings` | test/test-map.m4:142-212 | With the string functions of the tests the three maps agree without any assumption |
| `AsyncQueue.CountedStep` | asyncqueue.c:134-170 | No step lets the waiting counter differ from the number of consumers inside the wait, and it never underflows |
| `AsyncQueue.WaitingCounts` | asyncqueue.c:134-170 | In every reachable state the counter is that number |
| `AsyncQueue.ServedStep` | asyncqueue.c:102-188 | The wakeup invariant survives a step exactly if the step is not a timeout that takes away a signal while every woken consumer is needed |
| `AsyncQueue.NoLostWakeup` | asyncqueue.c:102-188 | Without timed consumers, in every reachable state a sleeping consumer means that the queue holds no more items than consumers are already woken |
| `AsyncQueue.NoLostWakeupTimed` | asyncqueue.c:102-188 | With timed consumers this holds throughout a run exactly if no such timeout occurs in it |
| `AsyncQueue.TimeoutLosesWakeup` | asyncqueue.c:152-160 | A run in which such a timeout leaves an item in the queue beside a sleeping consumer |
| `AsyncQueue.LossIsReachable` | asyncqueue.c:102-188 | Some run loses a wakeup exactly if some consumer pops with a timeout and is not the only consumer |
| `AsyncQueue.LossNeedsPair` | asyncqueue.c:152-160 | A timeout that robs the others needs such a consumer and another one |
| `AsyncQueue.PairLoses` | asyncqueue.c:152-160 | For any such pair, a run that leaves an item beside a sleeping consumer with nobody woken |
| `AsyncQueue.WokenSuffice` | asyncqueue.c:172-188 | Once the woken consumers have returned, in any order, nobody sleeps beside an item |
| `AsyncQueue.PushAppends` | asyncqueue.c:102-117 | A push puts its value behind all others, unless the queue holds SIZE_MAX values |
| `AsyncQueue.TakenLeaves` | asyncqueue.c:172-188 | A consumer that comes back with a value has taken the first one off the queue, and only that; a clear takes all |
| `AsyncQueue.QueueWithinPushes` | asyncqueue.c:102-117 | The queue never holds more values than were pushed since the last clear |
| `AsyncQueue.AllPushed` | asyncqueue.c:102-117 | Up to SIZE_MAX pushes since the last clear, no push finds the queue full |
| `AsyncQueue.FirstInFirstOut` | asyncqueue.c:102-188 | The values of the push events since the last clear, read off the events alone, are those that consumers came back with followed by those in the queue, in the order of the mutex, for any interleaving with up to SIZE_MAX pushes; beyond that, the same of the pushes that found room |
| `AsyncQueue.PopMayFail` | asyncqueue.c:172-196 | A pop without a timeout takes the first item there is; of an empty queue it can come back with nothing |
| `AsyncQueue.FailedPopKeeps` | asyncqueue.c:172-188 | A pop that returns false removed nothing |
| `ListShape.WithoutAllCount` | slist.c:288-322 | Removing all matches keeps every other value as often as it was there |
| `ListShape.WithoutAllOrder` | slist.c:288-322 | It keeps the order of a sorted list |
| `ListShape.WithoutFirstLaws` | slist.c:288-322 | Removing one match removes the first and nothing else |
| `ListShape.InsertedPlace` | slist.c:187-216 | The new value goes before the first that is not smaller |
| `ListShape.InsertKeepsOrder` | slist.c:218-251 | Inserting at that place, or behind a last value that is not larger, keeps a sorted list sorted |
| `ListShape.WithoutItemAt` | slist.c:253-286 | Removing an item from a list cut before it leaves the two parts without it |
| `ListShape.WithoutNoItem` | slist.c:253-286 | Removing an item that is not there leaves the list as it is |
| `ListShape.CutBefore` | slist.c:264-285 | A list can be cut before each of its items |
| `ListShape.WithoutAllLeaves` | slist.c:288-322 | Removing all matches leaves out exactly the places whose value matches; the others move up in their order, each with its item and value |
| `ListShape.WithoutFirstLeaves` | slist.c:288-322 | Removing one match leaves out exactly the place of the first value that matches |
| `SList.RepZip` | slist.c:264-285 | A list is well linked exactly when both parts of any cut are |
| `SList.SList.Append` | slist.c:132-159 | One value more at the end; head, tail and count describe the chain |
| `SList.SList.Prepend` | slist.c:161-185 | One value more in front |
| `SList.SList.PrependNewSorted` | slist.c:187-216 | The value goes before the first that is not smaller |
| `SList.SList.InsertSorted` | slist.c:218-251 | Exactly the new value is added, at its place |
| `SList.SList.LinkIn` | slist.c:204-205 | Writing through the pointer to a link inserts there |
| `SList.SList.Unlink` | slist.c:270-278 | Writing through it removes there, and the tail pointer follows |
| `SList.SList.Remove` | slist.c:253-286 | Wherever the list is cut before the item, the two parts without the item remain, in order and unchanged; an item that is not in the list changes nothing |
| `SList.SList.RemoveByData` | slist.c:288-322 | Exactly the places whose value matches, or only the first of them, leave the list; every other place moves up in order with the item and the value it had, whether the list is sorted or not |
| `SList.SList.Pop` | slist.c:324-356 | The first value leaves the list; none if it is empty |
| `SList.SList.QueuePop` | stack.c:27-52 | The pop that the async queue uses: the first value, or false exactly if there is none |
| `List.RepAt` | list.c:359-390 | At every place next and prev lead to the neighbours |
| `List.List.Append` | list.c:132-160 | One value more at the end; next and prev stay inverse |
| `List.List.Prepend` | list.c:162-191 | One value more in front |
| `List.List.InsertSorted` | list.c:193-260 | The exact condition under which the code is defined: the value belongs behind the last or before the first; otherwise the head's null prev is followed |
| `List.List.Detach` | list.c:262-282 | The neighbours of the item become neighbours in both directions, or head and tail do |
| `List.List.Remove` | list.c:284-295 | Exactly the given item leaves the list |
| `List.List.RemoveByData` | list.c:297-319 | Exactly the places whose value matches, or only the first of them, leave the list; every other place moves up in order with the item and the value it had, whether the list is sorted or not |
| `List.List.Pop` | list.c:321-357 | The first value leaves the list |
| `List.MiddleValueFaults` | list.c:193-260 | Inserting 2 into the list 1, 3 follows the null |
| `List.List.FindBy` | list.c:359-390 | The two-ended search, with a test that is defined only for the values from the offset on: it terminates without following null, needs the test nowhere else, finds a value that passes exactly when there is one, and of several the one nearest to an end, the front one on a tie |
| `List.List.Find` | list.c:359-390 | The same with the list's compare function |
| `List.List.Contains` | list.c:392-399 | True exactly when some value matches |
| `Buffer.DoubledOut` | buffer.c:139-147 | 64 wrapped doublings leave 0 |
| `Buffer.DoublingZero` | buffer.c:137-147 | Doubling 0 never gets anywhere |
| `Buffer.NewReallocSize` | buffer.c:132-150 | For every 0 < from < to the loop ends with at least to after at most 64 turns, each before the last having doubled to something between from and to |
| `Buffer.Buffer.constructor` | buffer.c:58-76 | A valid empty buffer |
| `Buffer.Buffer.Grow` | buffer.c:167-179 | Neither msize + len nor the new size wraps around, the new size is the first of the doubled ones with room, or the sum itself if doubling wraps, and the contents stay |
| `Buffer.Buffer.Fill` | buffer.c:152-186 | The chunk is appended whole, or the buffer turns invalid exactly if the maximum would be exceeded; memory is reallocated exactly if the chunk does not fit; len <= max_size and len <= msize |
| `Buffer.Buffer.CopyToString` | buffer.c:215-237 | The bytes and a terminating 0 fit the caller's memory; exactly if it is too short it is replaced, and the length given back is then the number of bytes, otherwise the old one |
| `Buffer.Buffer.ReadLine` | buffer.c:239-264 | The first line leaves the buffer with its newline and is copied to the caller's memory, whose length is given back exactly; false exactly if there is none, and then nothing changes |
| `Buffer.Buffer.Flush` | buffer.c:266-284 | A copy of everything with the exact length given back, the buffer unchanged; false exactly if it is empty or invalid, and then nothing changes |
| `Buffer.Buffer.Clear` | buffer.c:95-102 | A valid empty buffer |
| `BufferRuns.Call` | buffer.c:95-284 | One call on a buffer replies and changes it as the state machine of replies and states says; a line is read out of the caller's memory |
| `BufferRuns.Run` | buffer.c:95-284 | So does any sequence of fills, reads, flushes and clears on a new buffer |
| `BufferRuns.ReadGetsLine` | buffer.c:239-264 | A read of valid contents with a newline gets the text before the first one and leaves what is behind it |
| `BufferRuns.ReadGetsNothing` | buffer.c:239-264 | Without a newline, or of an invalid buffer, it gets nothing and changes nothing |
| `BufferRuns.ReadsDrain` | buffer.c:239-264 | Enough reads in a row leave no newline: k of them, or the contents are shorter by k |
| `BufferRuns.RunDrains` | buffer.c:152-264 | After any calls the lines read since the last clear, with their newlines put back, followed by the contents, are exactly what was accepted |
| `BufferRuns.SmallInputAccepted` | buffer.c:160-186 | Input that fits the maximum is accepted whole, in any chunks and with reads at any time |
| `BufferRuns.SplitIsUnique` | buffer.c:239-264 | A text splits in one way only into lines and a rest without a newline |
| `BufferRuns.ChunkingIsIrrelevant` | buffer.c:152-264 | Two runs that accepted the same input in whatever chunks, and have no line left to read, have read the same lines and keep the same rest |
| `BufferRuns.SameInputSameLines` | buffer.c:152-264 | The same for equal input that fits the maximum |

## Left out

- `malloc`, `calloc` and `realloc` failing, and the `abort` calls behind them; the two
  aborts on exhausted limits are preconditions of `HashTable.Set` and `AssocArray.Set`.
- The `free_key`, `free_value` and `free` callbacks, and what they might do to the container.
- `rbtree_new`/`_destroy`/`_free` and their like in the other files, `rbtree_iter_free`,
  `rbtree_iter_reuse` and `memory_pool_destroy`: lifetimes only.
- The optional pool of tree and lists: their nodes are objects of their own; only the hash
  table's pool is modelled, with buckets at addresses of a memory map.
- `rbtree_pair_set_value`, `hashtable_pair_set_value`, `assoc_array_pair_set_value`: a lookup
  followed by one assignment.
- RbTree.RBTree.FindNode: the flag `build_stack` of `_rbtree_find_node` is split into two
  methods, FindNode and FindNodeOnStack, because only one of them changes the tree object.
- AssocArray.AssocArray.InsertNear: the two insert helpers differ only in the place and are one method.
- AsyncQueue.NoLostWakeup: leaves timed consumers to NoLostWakeupTimed, where it holds only under the condition stated there.
- Time: the whole-second deadlines of asyncqueue.c:152-153 are left out; a timed consumer may
  time out at any moment. Errors of the pthread calls are left out as well.
- `async_queue_count`, `list_find` beyond `_list_find`, `slist_find`, `slist_contains`, the
  getters, and `stack.c`/`queue.h` beyond what the queue steps use: easy members.
- `buffer_fill_from_fd`, `buffer_to_string` (a copy like `buffer_flush`), `direct_hash`,
  `direct_compare` and `direct_equal`.
- Messages on stderr, benchmarks, build files.
