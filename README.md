# CCL-BTree core, modelled in Dafny

CCL-BTree is a persistent-memory B+-tree. Each leaf (`lnode`) holds 14 key/value
slots with a 14-bit occupancy bitmap and one-byte fingerprints. Each leaf is
fronted by a small DRAM write buffer, the bottom node (`bnode`). The bottom node
caches two recent writes, tags each cached slot with a global epoch bit and
carries a version word that is odd while a writer holds it. When the buffer is
full, the cached entries and the incoming write are merged into the leaf as a
group. A leaf that overflows splits at its median key. Above the bottom nodes
sits a FAST&FAIR inner index of sorted `page` records with a NULL-pointer
sentinel. A background pass, `recycle_bottom`, flips the global epoch and logs
every cached entry of the old epoch once into a per-thread write log, whose
chunks come from a shared free list and go back to it once a generation of
the log is no longer needed.

This model covers the single-threaded behaviour of those pieces in the "ff"
variant (`cclbtree_ff.h`) and in the "lb" variant, whose inner index is a
sorted `inode` instead (`cclbtree_lb.h`). It also covers:
- the write log (`log.cpp`, `log_numa.c`);
- the FAST&FAIR page the "ff" tree shares with the FAST&FAIR baseline tree
  (`fast_fair/btree.h`);
- the leaf and interior-node operations of the FPTree baseline
  (`fptree/fptree.cpp`).

Keys and values of the CCL-BTree and FAST&FAIR code are C `int64_t`
(`Bits.int64`), and a value of 0 means deleted or absent. FPTree keys and
values are `uint64_t` (`FpNode.uint64`).

Modules:

- `Bits` — `int64`, its two's-complement bit pattern, and bitmaps as `seq<bool>` (popcount, lowest set/clear bit, and, and-not).
- `LeafNode` — `lnode`: `hashcode1B`, `num`/`isFull`/`isAlmostFull`, `search_from_lnode`, and the slot-level lemmas (delete, update, insert) over the leaf invariant `LeafOk`.
- `LeafSort` — `qsortBleaf`, in place on an `array<int>` of slot positions.
- `LeafMerge` — the two loops of `insert_into_leaf` that merge a group of three entries into a leaf.
- `LeafSplit` — the leaf split of `insert_into_leaf`: sort, move the upper seven slots into a fresh leaf, place the rest of the group, pick the new caches.
- `LeafInsert` — the merge and split composed (`MergeIntoLeaf`), with the group arithmetic (`increment`, split iff overflow).
- `BottomNode` — `bnode` as a class: version lock, `btree::insert` (cache path and leaf path), `btree::search` on one node, `recycle_bottom`, `get_range_key_from_lnode`.
- `FairPage` — `page` as a class over `array<Rec>`: `count`, `insert_key`, `remove_key`, `store` with the FAIR split, `linear_search`.
- `FairRange` — the FAST&FAIR leaf-level range scan `linear_search_range_2` over a chain of pages. As written, the scan is bounded by `UINT64_MAX` and every backward read starts from the first page's `count()`. The corrected scan has no bound, and each page is read backward from its own count.
- `FfRange` — the "ff" tree's range scan `btree_search_range` over the lowest inner level, reading each bottom node with `get_range_key_from_lnode`, as written and with the backward read reaching record 0.
- `LbIndex` — the "lb" tree's `inode`: the descent step, insert with shift, the LEFT/RIGHT split, root growth, entry removal after a leaf deletion, and the level-0 `next` list.
- `LbScan` — the "lb" tree's `scan` from the bottom node the descent reached, along the level-0 inodes.
- `WriteLog` — the write log (`log.cpp`, `log_numa.c`) as a class: per-thread generations, the shared free list of chunks, `add_log` with rollover, `get_log_chunk` with refill, `switch_alt_and_init`, `collect_old_log_to_freelist`, and the two sums.
- `FpNode` — FPTree's `CALLER_TO_INTERNAL_KEY`, `set_hash_fp`/`check_hash_fp` and the 64-bit slot bitmap (`set_bitmap`, `reset_bitmap`, `check_bitmap`).
- `FpVersion` — the FPTree version word: its flags and counters, and `unlock_node`.
- `FpInner` — FPTree's `fptree_inode_t` as a class over key and child arrays: `internode_lookup`, `internode_insert`, `internode_remove`, `split_inter_node` and the new root.
- `FpLeaf` — FPTree's `fptree_leaf_t` as a class: `leaf_create`, `leaf_find_lv`, `find_first_zero`, `key_geq`, `leaf_insert_key`, `leaf_remove_key`, and `split_leaf_node` up to the ascent.

Every node's contents are specified by a function of its state:
- a leaf by `Image` (its bitmap, fingerprints and entries) and `Read`;
- a bottom node by `BNode.Get`, which reads the cache first and then the leaf;
- a page by its record sequence;
- the write log by `LogPool.St()`, a `Pool` value: the chunks' next words, every thread's cursors, the written slots, and ghost lists of who holds which chunk;
- an FPTree leaf by `FLeaf.Snapshot()`, an `Image` value, which `FpLeaf.Get` reads;
- an FPTree interior node by `FINode.Keys()` and `FINode.Children()`.

Each operation's `ensures` ties the new state to a function of the old one. The
lemmas beside it prove what the source promises about that function.

## Model

| member | source | states |
|---|---|---|
| Bits.PopCount | include/multiThread/cclbtree_ff/cclbtree_ff.h:79 | the popcount of a bitmap is the size of its set of set bits and at most its width |
| Bits.PopCountAll | include/multiThread/cclbtree_ff/cclbtree_ff.h:80 | the popcount equals the width exactly when every bit is set |
| Bits.PopCountComplement | include/multiThread/cclbtree_ff/cclbtree_ff.h:1371-1383 | on a full bitmap, the bits freed by a split and the bits kept add up to the width |
| Bits.PopCountHighOnes | include/multiThread/cclbtree_ff/cclbtree_ff.h:1379 | the split's mask of the upper slots 7..13 has seven bits |
| Bits.LowestClear | include/multiThread/cclbtree_ff/cclbtree_ff.h:1305 | `bitScan(~bitmap) - 1` names a clear bit with every lower bit set |
| Bits.LowestSet | include/multiThread/cclbtree_ff/cclbtree_ff.h:1064 | `bitScan(mask) - 1` names a set bit with every lower bit clear |
| LeafNode.FullIffAllLive | include/multiThread/cclbtree_ff/cclbtree_ff.h:80 | a 14-bit bitmap is 0x3fff exactly when every slot is live |
| LeafNode.LNode.Num | include/multiThread/cclbtree_ff/cclbtree_ff.h:79 | `num()` is the number of live slots, at most 14 |
| LeafNode.LNode.IsFull | include/multiThread/cclbtree_ff/cclbtree_ff.h:80 | `isFull()` holds exactly when all 14 slots are live |
| LeafNode.LNode.IsAlmostFull | include/multiThread/cclbtree_ff/cclbtree_ff.h:81 | `isAlmostFull(a)` holds exactly when a more live entries would overflow 14 slots |
| LeafNode.LNode.constructor | include/multiThread/cclbtree_ff/cclbtree_ff.h:923-928 | a fresh leaf has an empty bitmap and no successor |
| LeafNode.LogicalIsBytes | include/multiThread/cclbtree_ff/cclbtree_ff.h:1031-1037 | the 32/16/8 fold of a word, masked to a byte, is the xor of its eight bytes |
| LeafNode.FoldKey | include/multiThread/cclbtree_ff/cclbtree_ff.h:1031-1037 | the fold with arithmetic shifts, masked to a byte, equals the fold with logical shifts |
| LeafNode.HashCode1B | include/multiThread/cclbtree_ff/cclbtree_ff.h:1031-1037 | the fingerprint of a key is the xor of the eight bytes of its two's-complement pattern |
| LeafNode.FindFromSpec | include/multiThread/cclbtree_ff/cclbtree_ff.h:1040-1075 | the reference lookup returns -1 exactly when no live slot holds the key, and otherwise the lowest live slot holding it |
| LeafNode.Shrink | include/multiThread/cclbtree_ff/cclbtree_ff.h:1285-1288 | clearing bits of a well-formed leaf keeps it well formed |
| LeafNode.Grow | include/multiThread/cclbtree_ff/cclbtree_ff.h:1303-1310 | writing an absent key into a dead slot with its fingerprint, and setting the bit, keeps the leaf well formed |
| LeafNode.LookupLive | include/multiThread/cclbtree_ff/cclbtree_ff.h:1149 | with unique keys, the lookup of a live slot's key gives that slot's value |
| LeafNode.LookupAbsent | include/multiThread/cclbtree_ff/cclbtree_ff.h:1149 | a key held by no live slot reads as 0 (NULL) |
| LeafNode.DeleteSlot | include/multiThread/cclbtree_ff/cclbtree_ff.h:1285-1288 | clearing a live slot's bit deletes exactly its key |
| LeafNode.UpdateSlot | include/multiThread/cclbtree_ff/cclbtree_ff.h:1289-1293 | overwriting a live slot's value changes only the value of its key |
| LeafNode.InsertSlot | include/multiThread/cclbtree_ff/cclbtree_ff.h:1303-1310 | writing an absent key into a dead slot adds exactly that key |
| LeafNode.Occupy | include/multiThread/cclbtree_ff/cclbtree_ff.h:1307-1308 | writing slot s's bit and fingerprint keeps the metadata's shape and successor |
| LeafNode.MatchMask | include/multiThread/cclbtree_ff/cclbtree_ff.h:1043-1059 | the SIMD compare marks exactly the slots whose fingerprint equals the hash |
| LeafNode.FirstMatch | include/multiThread/cclbtree_ff/cclbtree_ff.h:1061-1074 | the mask loop returns -1 exactly when no masked slot holds the key, and otherwise the lowest masked slot holding it |
| LeafNode.FirstCandidate | include/multiThread/cclbtree_ff/cclbtree_ff.h:1040-1075 | the result is -1 or the lowest live slot whose fingerprint matches and whose key is equal |
| LeafNode.SearchFromLNode | include/multiThread/cclbtree_ff/cclbtree_ff.h:1040-1075 | `search_from_lnode` returns the lowest live, fingerprint-matching slot with the key, or -1 |
| LeafNode.CandidateIsLookupSlot | include/multiThread/cclbtree_ff/cclbtree_ff.h:1145 | in a leaf whose fingerprints are right, the fingerprint search finds the same slot as a plain key search |
| LeafSort.Partition | include/multiThread/cclbtree_ff/cclbtree_ff.h:157-178 | the hole-based partition permutes `pos[start..end]`, leaves the rest alone and puts the pivot at a position with no larger key left of it and no smaller key right of it |
| LeafSort.QsortBleaf | include/multiThread/cclbtree_ff/cclbtree_ff.h:154-185 | `pos[start..end]` ends as a permutation of its input ordered by non-decreasing key; the rest of `pos` is unchanged |
| LeafSort.BoundedPerm | include/multiThread/cclbtree_ff/cclbtree_ff.h:180-184 | a permutation of positions whose keys are bounded keeps the bound |
| LeafSort.SortedJoin | include/multiThread/cclbtree_ff/cclbtree_ff.h:180-184 | two sorted halves around the pivot make a sorted whole |
| LeafMerge.FoundStep | include/multiThread/cclbtree_ff/cclbtree_ff.h:1283-1294 | a found member either clears its slot's bit (value 0) or overwrites its value, touching nothing else |
| LeafMerge.FoundLoopOk | include/multiThread/cclbtree_ff/cclbtree_ff.h:1281-1295 | the first loop keeps the leaf well formed, moves no key, only clears bits, leaves the slots of later found members live and clears exactly one bit per deletion |
| LeafMerge.Deletions | include/multiThread/cclbtree_ff/cclbtree_ff.h:1285-1288 | the bits the first loop clears are those of the found members with value 0 |
| LeafMerge.FoundLoopReads | include/multiThread/cclbtree_ff/cclbtree_ff.h:1281-1295 | after the first loop, each found member's key reads its new value and every other key reads as before |
| LeafMerge.ApplyFound | include/multiThread/cclbtree_ff/cclbtree_ff.h:1269-1295 | the first loop over the leaf's entries and a local bitmap computes exactly `FoundLoop` |
| LeafMerge.Place | include/multiThread/cclbtree_ff/cclbtree_ff.h:1303-1310 | a pending entry takes the lowest dead slot, sets that bit and writes its fingerprint |
| LeafMerge.PlaceOk | include/multiThread/cclbtree_ff/cclbtree_ff.h:1303-1310 | placing an absent entry keeps the leaf well formed |
| LeafMerge.PlaceReads | include/multiThread/cclbtree_ff/cclbtree_ff.h:1303-1310 | after placing, the entry's key reads its value and every other key reads as before |
| LeafMerge.FillFrom | include/multiThread/cclbtree_ff/cclbtree_ff.h:1299-1316 | the second loop places pending members in order and stops at the first one that finds no free slot |
| LeafMerge.FillOk | include/multiThread/cclbtree_ff/cclbtree_ff.h:1299-1316 | the second loop keeps the leaf well formed |
| LeafMerge.FillKeeps | include/multiThread/cclbtree_ff/cclbtree_ff.h:1299-1316 | the second loop only writes free slots: every slot live before it is live after it and holds the same entry |
| LeafMerge.FillStops | include/multiThread/cclbtree_ff/cclbtree_ff.h:1299-1316 | the loop stops early exactly when the pending members do not fit in the free slots |
| LeafMerge.FillCount | include/multiThread/cclbtree_ff/cclbtree_ff.h:1299-1316 | without an early stop, the popcount grows by the number of pending members |
| LeafMerge.FillReads | include/multiThread/cclbtree_ff/cclbtree_ff.h:1299-1316 | after the second loop, each placed member's key reads its value and every other key reads as before |
| LeafMerge.InsertPending | include/multiThread/cclbtree_ff/cclbtree_ff.h:1299-1316 | the second loop on the leaf's array and bitmap computes exactly `FillFrom` |
| LeafInsert.WantHit | include/multiThread/cclbtree_ff/cclbtree_ff.h:1248-1259 | in a group, the first member with key x decides x's new value |
| LeafInsert.WantMiss | include/multiThread/cclbtree_ff/cclbtree_ff.h:1248-1259 | a key no member holds keeps its value |
| LeafInsert.Increment | include/multiThread/cclbtree_lb/cclbtree_lb.h:652-658 | increment counts each non-zero member not in the leaf as +1 and each zero member in the leaf as -1, bounded by the group size |
| LeafInsert.MergeSplitsIff | include/multiThread/cclbtree_lb/cclbtree_lb.h:664 | the merge runs out of slots exactly when popcount(bitmap) + increment > 14 |
| LeafInsert.MergeEmptiesIff | include/multiThread/cclbtree_lb/cclbtree_lb.h:675 | the delete path, `num() + increment <= 0`, is taken exactly when the merge would use the whole group and leave the leaf with no live slot |
| LeafInsert.MergedOk | include/multiThread/cclbtree_ff/cclbtree_ff.h:1281-1316 | both loops together keep the leaf well formed |
| LeafInsert.MergedReads | include/multiThread/cclbtree_ff/cclbtree_ff.h:1319-1334 | without a split, every key reads after the merge as the group's first member with that key says |
| LeafInsert.MergedFull | include/multiThread/cclbtree_ff/cclbtree_ff.h:1303-1313 | a merge that stops early leaves all 14 slots live |
| LeafInsert.SplitReads | include/multiThread/cclbtree_ff/cclbtree_ff.h:1345-1438 | after a split, keys below the split key read from the old leaf and the others from the new leaf, each as the group decides |
| LeafInsert.SplitShape | include/multiThread/cclbtree_ff/cclbtree_ff.h:1362-1419 | after a split both leaves are well formed and the split key is the key at sorted position 7 |
| LeafInsert.SplitCachesRead | include/multiThread/cclbtree_ff/cclbtree_ff.h:1355-1359 | the two new caches of each half hold entries of that half |
| LeafInsert.MergeIntoLeaf | include/multiThread/cclbtree_ff/cclbtree_ff.h:1269-1466 | the leaf ends as the merge computes, or, when the merge overflows, as the split's old half, with a fresh new leaf linked between it and its former successor |
| LeafSplit.PermOfIota | include/multiThread/cclbtree_ff/cclbtree_ff.h:1349-1352 | a rearrangement of 0..13 lists every slot exactly once |
| LeafSplit.FreedSpec | include/multiThread/cclbtree_ff/cclbtree_ff.h:1371-1378 | a slot is freed exactly when it sits at one of the sorted positions 7..13 |
| LeafSplit.FreedCount | include/multiThread/cclbtree_ff/cclbtree_ff.h:1371-1378 | exactly seven slots are freed |
| LeafSplit.Upper | include/multiThread/cclbtree_ff/cclbtree_ff.h:1370-1381 | the new leaf has bitmap 0x3F80 and holds the entries at sorted positions 7..13 in slots 7..13 |
| LeafSplit.Lower | include/multiThread/cclbtree_ff/cclbtree_ff.h:1383 | the old leaf keeps only the slots at sorted positions 0..6 |
| LeafSplit.LowerOk | include/multiThread/cclbtree_ff/cclbtree_ff.h:1383 | the old half is well formed |
| LeafSplit.UpperOk | include/multiThread/cclbtree_ff/cclbtree_ff.h:1370-1381 | the new half is well formed |
| LeafSplit.LowerReads | include/multiThread/cclbtree_ff/cclbtree_ff.h:1383 | in the old half, keys below the split key read as before and the others read 0 |
| LeafSplit.UpperReads | include/multiThread/cclbtree_ff/cclbtree_ff.h:1370-1381 | in the new half, keys from the split key on read as before and the others read 0 |
| LeafSplit.Side | include/multiThread/cclbtree_ff/cclbtree_ff.h:1389-1406 | the pending members that go to one side: at or above the split key to the new leaf, below it to the old leaf |
| LeafSplit.PlaceAllOk | include/multiThread/cclbtree_ff/cclbtree_ff.h:1433-1440 | placing a list of fresh members keeps a leaf well formed |
| LeafSplit.PlaceAllReads | include/multiThread/cclbtree_ff/cclbtree_ff.h:1433-1440 | after placing a list, each member's key reads its value and every other key reads as before |
| LeafSplit.SplitOldOk | include/multiThread/cclbtree_ff/cclbtree_ff.h:1383-1440 | the old leaf after the split and the placement is well formed |
| LeafSplit.SplitNewOk | include/multiThread/cclbtree_ff/cclbtree_ff.h:1370-1406 | the new leaf after the split and the placement is well formed |
| LeafSplit.SplitOldReads | include/multiThread/cclbtree_ff/cclbtree_ff.h:1383-1440 | the old leaf reads every key below the split key as the group decides, and 0 above it |
| LeafSplit.SplitNewReads | include/multiThread/cclbtree_ff/cclbtree_ff.h:1370-1406 | the new leaf reads every key from the split key on as the group decides, and 0 below it |
| LeafSplit.SplitCaches | include/multiThread/cclbtree_ff/cclbtree_ff.h:1355-1359 | each half's new cache holds a live entry of that half |
| LeafSplit.SortSlots | include/multiThread/cclbtree_ff/cclbtree_ff.h:1349-1352 | `sorted_pos` ends as a permutation of the slots ordered by key |
| LeafSplit.MoveUpper | include/multiThread/cclbtree_ff/cclbtree_ff.h:1366-1383 | the moving loop fills a fresh leaf with the upper half and returns the freed slots |
| LeafSplit.SplitLeaf | include/multiThread/cclbtree_ff/cclbtree_ff.h:1345-1451 | the split leaves the old leaf as `OldLeaf` and a fresh successor as `NewLeaf`, linked old → new → old's former successor, with split key at sorted position 7 |
| BottomNode.Bump | include/multiThread/cclbtree_ff/cclbtree_ff.h:37-53 | one increment of the 7-bit version flips its lock parity |
| BottomNode.LockCycle | include/multiThread/cclbtree_ff/cclbtree_ff.h:100-151 | lock then unlock returns an unlocked version |
| BottomNode.CacheScan | include/multiThread/cclbtree_ff/cclbtree_ff.h:1171-1188 | the insert scan returns the first cached slot below counter with the key, or counter |
| BottomNode.SearchSeesView | include/multiThread/cclbtree_ff/cclbtree_ff.h:1123-1155 | reading the cache first and then the leaf gives the node's value |
| BottomNode.CacheWriteOk | include/multiThread/cclbtree_ff/cclbtree_ff.h:1190-1201 | the cache write keeps the buffer coherent and keeps counter at most 2 |
| BottomNode.CacheWriteView | include/multiThread/cclbtree_ff/cclbtree_ff.h:1190-1201 | after the cache write, the key reads the new value and every other key reads as before |
| BottomNode.GroupReady | include/multiThread/cclbtree_ff/cclbtree_ff.h:1238-1259 | the gathered group (the new entry, then both cached ones) is ready for the merge |
| BottomNode.GroupWant | include/multiThread/cclbtree_ff/cclbtree_ff.h:1248-1259 | the group decides the incoming key's new value and the node's old value for every other key |
| BottomNode.MergeView | include/multiThread/cclbtree_ff/cclbtree_ff.h:1319-1334 | without a split, the key reads the new value and every other key reads as before |
| BottomNode.SplitView | include/multiThread/cclbtree_ff/cclbtree_ff.h:1453-1463 | after a split, each node reads the keys of its half as before, with the key's new value |
| BottomNode.Stale | include/multiThread/cclbtree_ff/cclbtree_ff.h:1527-1561 | what one node logs is at most its live slots |
| BottomNode.StaleMembers | include/multiThread/cclbtree_ff/cclbtree_ff.h:1527-1561 | an entry is logged exactly when some live slot with a differing epoch bit holds it |
| BottomNode.RetagLogsNothing | include/multiThread/cclbtree_ff/cclbtree_ff.h:1506-1561 | a second pass with the same epoch logs nothing: each entry is logged once per epoch |
| BottomNode.RecycleSlots | include/multiThread/cclbtree_ff/cclbtree_ff.h:1527-1561 | the loop logs the live slots of the other epoch, in slot order, and tags every live slot with the new epoch |
| BottomNode.CacheRangeMembers | include/multiThread/cclbtree_ff/cclbtree_ff.h:1596-1607 | the cached run holds exactly the live cached entries with key at least min |
| BottomNode.LeafRangeMembers | include/multiThread/cclbtree_ff/cclbtree_ff.h:1609-1630 | the leaf run holds exactly the live leaf entries with key at least min that the cache did not emit |
| BottomNode.RangeSound | include/multiThread/cclbtree_ff/cclbtree_ff.h:1585-1633 | every emitted entry has key at least min and carries the value the node holds for that key |
| BottomNode.RangeComplete | include/multiThread/cclbtree_ff/cclbtree_ff.h:1585-1633 | every key at least min with a non-zero value in the node is emitted |
| BottomNode.RangeDistinct | include/multiThread/cclbtree_ff/cclbtree_ff.h:1585-1633 | no key is emitted twice: the cache shadows the leaf |
| BottomNode.CollectCache | include/multiThread/cclbtree_ff/cclbtree_ff.h:1596-1607 | the cache loop appends the values and keys of the cached run, and notes whether a cached key was below min |
| BottomNode.CollectLeaf | include/multiThread/cclbtree_ff/cclbtree_ff.h:1609-1630 | the leaf loop appends the values of the leaf run, and notes whether a live leaf key was below min |
| BottomNode.CollectRange | include/multiThread/cclbtree_ff/cclbtree_ff.h:1585-1633 | the output is the values of cache run then leaf run, and the small flag holds exactly when some live key is below min |
| BottomNode.BNode.constructor | include/multiThread/cclbtree_ff/cclbtree_ff.h:911-921 | a fresh bottom node over a leaf is unlocked with counter 0 and a buffer of zero entries |
| BottomNode.BNode.FindCachePos | include/multiThread/cclbtree_ff/cclbtree_ff.h:1171-1188 | the scan finds the first live cached slot with the key, or counter |
| BottomNode.BNode.WriteCache | include/multiThread/cclbtree_ff/cclbtree_ff.h:1190-1201 | slot cpos takes the entry, counter grows only when cpos is counter, and the slot's epoch bit becomes the global epoch |
| BottomNode.BNode.Search | include/multiThread/cclbtree_ff/cclbtree_ff.h:1123-1155 | `search` returns the value the node holds for the key (0 when absent) |
| BottomNode.BNode.Insert | include/multiThread/cclbtree_ff/cclbtree_ff.h:1157-1217 | a live cached key without update changes nothing; otherwise the key reads its new value and every other key as before, or the node splits at the split key into this node and a fresh one that divide the keys; the lock is released in every case |
| BottomNode.BNode.CachePath | include/multiThread/cclbtree_ff/cclbtree_ff.h:1190-1207 | the cache path writes the key's new value, keeps every other key and releases the lock |
| BottomNode.BNode.InsertIntoCache | include/multiThread/cclbtree_ff/cclbtree_ff.h:1190-1201 | after the cache write, the key reads the new value and every other key reads as before |
| BottomNode.BNode.Release | include/multiThread/cclbtree_ff/cclbtree_ff.h:127-151 | releasing bumps a locked version and changes nothing else |
| BottomNode.BNode.Gather | include/multiThread/cclbtree_ff/cclbtree_ff.h:1248-1259 | the group is the new entry and both cached entries, with their fingerprints and their slots in the leaf |
| BottomNode.GatherFrom | include/multiThread/cclbtree_ff/cclbtree_ff.h:1252-1259 | the loop pairs every cached entry with its fingerprint and the slot search_from_lnode finds for its key, after the new entry |
| BottomNode.BNode.InsertIntoLeaf | include/multiThread/cclbtree_ff/cclbtree_ff.h:1219-1475 | a key already in the leaf without update changes nothing; otherwise counter is 0 and the group is merged or split as the node-level insert states |
| BottomNode.BNode.MergeGroup | include/multiThread/cclbtree_ff/cclbtree_ff.h:1262-1473 | the merge or split of the gathered group keeps the node coherent and releases its lock |
| BottomNode.BNode.SplitNode | include/multiThread/cclbtree_ff/cclbtree_ff.h:1366-1368 | a fresh bottom node over the new leaf takes the upper half; both nodes get their new caches |
| BottomNode.BNode.MergedGets | include/multiThread/cclbtree_ff/cclbtree_ff.h:1319-1334 | after a merge without a split, the key reads the new value and every other key reads as before |
| BottomNode.BNode.SplitGets | include/multiThread/cclbtree_ff/cclbtree_ff.h:1453-1463 | after a split, the two nodes together hold the old contents plus the new entry, divided at the split key |
| BottomNode.BNode.Recycle | include/multiThread/cclbtree_ff/cclbtree_ff.h:1527-1561 | a node's turn in `recycle_bottom` logs its stale live entries and retags them without changing any key's value |
| BottomNode.BNode.RangeFrom | include/multiThread/cclbtree_ff/cclbtree_ff.h:1585-1633 | `get_range_key_from_lnode` emits the values of `RangeOf` and raises the small flag exactly when some live key is below min |
| BottomNode.BNode.SetCaches | include/multiThread/cclbtree_ff/cclbtree_ff.h:1459-1463 | both nodes' caches become the chosen entries |
| BottomNode.RecycleBottom | include/multiThread/cclbtree_ff/cclbtree_ff.h:1487-1582 | the epoch flips, every node logs its stale live entries in chain order, and afterwards every live slot carries the new epoch |
| BottomNode.Locate | include/multiThread/cclbtree_ff/cclbtree_ff.h:1238-1240 | the fingerprint is `hashcode1B(key)` and the slot is the key's live slot, or -1 |
| BottomNode.GetLock | include/multiThread/cclbtree_ff/cclbtree_ff.h:100-125 | locking fails exactly on a null or locked node; a writer bumps the version and a reader gets it |
| BottomNode.ResetLock | include/multiThread/cclbtree_ff/cclbtree_ff.h:127-151 | a writer's reset bumps only a locked version; otherwise nothing changes |
| FairPage.Tick | include/multiThread/fast_fair/btree.h:57 | one step of the 8-bit switch counter flips the scan direction |
| FairPage.FirstNull | include/multiThread/fast_fair/btree.h:248-277 | the index of the first NULL pointer is the number of live records |
| FairPage.Rank | include/multiThread/fast_fair/btree.h:333-416 | the slot a new key takes: after every key not above it and before every larger one |
| FairPage.Inserted | include/multiThread/fast_fair/btree.h:333-416 | the records after `insert_key`: one more live record, the sentinel kept |
| FairPage.FindKey | include/multiThread/fast_fair/btree.h:279-319 | the first live record with the key, or the count when there is none |
| FairPage.Removed | include/multiThread/fast_fair/btree.h:279-319 | the records after `remove_key`: the first record with the key gone, the rest shifted left |
| FairPage.InsertedSorted | include/multiThread/fast_fair/btree.h:333-416 | inserting keeps the live keys sorted |
| FairPage.InsertedLive | include/multiThread/fast_fair/btree.h:333-416 | inserting adds exactly one live record, and the new record is among them |
| FairPage.InsertedWf | include/multiThread/fast_fair/btree.h:333-416 | inserting keeps the page well formed, with a NULL sentinel after the last record |
| FairPage.RemovedWf | include/multiThread/fast_fair/btree.h:279-319 | removing keeps the page well formed |
| FairPage.RemovedLive | include/multiThread/fast_fair/btree.h:279-319 | removing takes one live record away exactly when the key was present |
| FairPage.FoundIff | include/multiThread/fast_fair/btree.h:279-319 | the key is found exactly when some live record holds it |
| FairPage.FwdIsChildFor | include/multiThread/fast_fair/btree.h:886-914 | the forward internal scan picks the child whose key range holds the key |
| FairPage.BwdIsChildFor | include/multiThread/fast_fair/btree.h:915-939 | the backward internal scan picks the same child |
| FairPage.LeafSearchFinds | include/multiThread/fast_fair/btree.h:798-878 | in a leaf with distinct keys and pointers, either scan finds the pointer stored with the key, or NULL |
| FairPage.LeafSearchSkipsRepeatedValue | include/multiThread/fast_fair/btree.h:820-833 | the forward leaf scan skips a record whose pointer repeats its predecessor's |
| FairPage.Moved | include/multiThread/fast_fair/btree.h:483-540 | the sibling's records after the migration loop |
| FairPage.Cut | include/multiThread/fast_fair/btree.h:483-540 | this page's records after the split: records from m on removed, NULL at m |
| FairPage.SplitHalves | include/multiThread/fast_fair/btree.h:483-540 | both halves of a split are well formed and each is sorted |
| FairPage.SplitKeyBounds | include/multiThread/fast_fair/btree.h:483-540 | every key left of the split is at most the split key and every key migrated is at least it |
| FairPage.SplitConserves | include/multiThread/fast_fair/btree.h:483-540 | a split loses no record: the left half, the split record and the right half make up the old page |
| FairPage.Page.constructor | include/multiThread/fast_fair/btree.h:165-220 | a fresh page is empty, unlocked, forward and has no sibling |
| FairPage.Page.Grow | include/multiThread/fast_fair/btree.h:223-234 | the new root has one record (split key, right), leftmost the old root, and level one above |
| FairPage.Page.Count | include/multiThread/fast_fair/btree.h:248-277 | `count()` returns the number of live records |
| FairPage.Page.InsertKey | include/multiThread/fast_fair/btree.h:333-416 | the records become `Inserted`, last_index becomes the old count, and the switch counter moves to a forward value |
| FairPage.Page.RemoveKey | include/multiThread/fast_fair/btree.h:279-319 | the records become `Removed`, found holds exactly when the key was live, last_index drops exactly when found |
| FairPage.Page.LinearSearch | include/multiThread/fast_fair/btree.h:790-953 | the sibling when the key reaches its first key, otherwise the child or the value the scan chooses |
| FairPage.Page.Store | include/multiThread/fast_fair/btree.h:419-565 | a deleted page refuses; a key past the sibling is forwarded; an existing key is overwritten only on update; otherwise the key is inserted, or a full page splits and the key goes left exactly when below the split key |
| FairPage.Page.Overwrite | include/multiThread/fast_fair/btree.h:453-466 | only the pointer of the found record changes |
| FairPage.Page.Split | include/multiThread/fast_fair/btree.h:483-540 | m = (cardinality-1)/2; the split key is records[m].key; a leaf sibling gets records m.., an internal one m+1.. with leftmost records[m].ptr; the key goes left exactly when below the split key |
| FairPage.Page.Divide | include/multiThread/fast_fair/btree.h:483-530 | the sibling is linked in with the upper half, this page is cut at m and its switch counter moves to a new forward value |
| FairPage.Page.Migrate | include/multiThread/fast_fair/btree.h:494-515 | the migration loop copies records from..n-1 into the empty sibling in order |
| FairPage.Page.CutAt | include/multiThread/fast_fair/btree.h:519-527 | this page keeps records 0..m-1 |
| FairPage.ShiftIn | include/multiThread/fast_fair/btree.h:340-409 | the shifting loop of `insert_key` leaves the records as `Inserted` |
| FairPage.ShiftOut | include/multiThread/fast_fair/btree.h:279-319 | the shifting loop of `remove_key` leaves the records as `Removed` and reports whether the key was live |
| FairPage.FindFirst | include/multiThread/fast_fair/btree.h:453-466 | the duplicate check finds the first live record with the key |
| FairPage.ScanInner | include/multiThread/fast_fair/btree.h:881-940 | both internal scan loops return the child the scan function chooses |
| FairPage.ScanLeaf | include/multiThread/fast_fair/btree.h:800-867 | both leaf scan loops return the pointer the scan function chooses |
| FairRange.BelowMaxIs | include/multiThread/fast_fair/btree.h:679 | `tmp_key < max` with `max = UINT64_MAX` fails for the key -1 only, whose bit pattern is all ones; with no bound every key passes |
| FairRange.RunIsKept | include/multiThread/fast_fair/btree.h:696-775 | on a page whose neighbouring live pointers differ and with no key that ends the scan, reading any run of live records emits exactly their pointers whose key is above min |
| FairRange.KeptRev | include/multiThread/fast_fair/btree.h:737-775 | reading the records in reverse order emits the reversed output |
| FairRange.LiveExact | include/multiThread/fast_fair/btree.h:696-775 | the forward read of a page with live records emits its live pointers above min in record order, and the backward read emits them reversed |
| FairRange.PageExact | include/multiThread/fast_fair/btree.h:688-776 | one page, in the direction of its switch counter, emits exactly what PageWant says and does not end the scan |
| FairRange.ScanExact | include/multiThread/fast_fair/btree.h:674-788 | with each page read backward from its own count, and over pages with no repeated neighbouring pointer and no key that ends the scan, the scan gives Want: each page's live pointers above min, page after page, while fewer than length pointers are held |
| FairRange.ScanUnbounded | include/multiThread/fast_fair/btree.h:674-788 | without the UINT64_MAX bound and with each page read backward from its own count, every chain of pages with distinct neighbouring pointers gives Want |
| FairRange.FirstCountAgrees | include/multiThread/fast_fair/btree.h:737 | starting every backward read from the first page's count n gives the same scan as starting each from the page's own count when every page read backward has n live records |
| FairRange.BackwardUsesFirstCount | include/multiThread/fast_fair/btree.h:737 | a first page with one record, then a page with three records whose switch counter is odd: the scan as written gives [10, 20] and loses 30 and 40, while Want is [10, 40, 30, 20] |
| FairRange.ScanStopsAtMinusOne | include/multiThread/fast_fair/btree.h:696-712 | one page holding (-1, 5) and (3, 6), scanned from -5: the scan as written ends at once with nothing, while Want is [5, 6] |
| FairRange.GatherRest | include/multiThread/fast_fair/btree.h:683 | once the scan has ended or holds length pointers, further pages change nothing |
| FairRange.RunRest | include/multiThread/fast_fair/btree.h:712 | once a read has hit `goto end`, the remaining records change nothing |
| FairRange.ScanFwd | include/multiThread/fast_fair/btree.h:694-735 | the forward read gives Run over record 0 and then records 1 up to the first NULL pointer |
| FairRange.FwdFrom | include/multiThread/fast_fair/btree.h:715-735 | the forward loop from record 1 gives Run over those records |
| FairRange.ScanBwd | include/multiThread/fast_fair/btree.h:735-775 | the backward read from the count c gives Run over records c - 1 down to 0; `count()` there is the count of the first page of the scan, so the as-written scan passes that page's count for c |
| FairRange.BwdLoop | include/multiThread/fast_fair/btree.h:737-755 | the backward loop from the count c gives Run over records c - 1 down to 1, reading past the page's NULL sentinel when c exceeds its live count |
| FairRange.ScanPage | include/multiThread/fast_fair/btree.h:688-776 | a page is read in the direction its switch counter names, backward from the count the scan passes: the first page's (as written) or its own (corrected) |
| FairRange.ScanRange | include/multiThread/fast_fair/btree.h:683-779 | the page loop gives ScanPages for the bound and the backward count it is given: whole pages while fewer than length pointers are held and no page ended the scan |
| FairRange.LinearSearchRange2AsWritten | include/multiThread/fast_fair/btree.h:674-788 | `linear_search_range_2` as written, called on the first page: the UINT64_MAX bound, and every backward read starting from the first page's `count()`; on pages with no key that ends the scan, whose backward pages have the first page's count, it gives Want |
| FairRange.LinearSearchRange2 | include/multiThread/fast_fair/btree.h:674-788 | the corrected scan, with no bound and each page read backward from its own count, gives Want over pages with distinct neighbouring pointers |
| FfRange.Table | include/multiThread/cclbtree_ff/cclbtree_ff.h:1585-1633 | the table of what `get_range_key_from_lnode` gives for every bottom node from min |
| FfRange.VisitNode | include/multiThread/cclbtree_ff/cclbtree_ff.h:1585-1633 | a call of `get_range_key_from_lnode` on a NULL child changes nothing, and on a node appends its range values and replaces the flag |
| FfRange.EmptyBelow | include/multiThread/cclbtree_ff/cclbtree_ff.h:1585-1633 | a bottom node whose keys all lie below min emits nothing |
| FfRange.SmallAbove | include/multiThread/cclbtree_ff/cclbtree_ff.h:1585-1633 | a bottom node that sets the small-key flag has a key range starting below min |
| FfRange.FwdCut | include/multiThread/cclbtree_ff/cclbtree_ff.h:1661-1685 | the forward read gives the leading part of what its targets emit: all of it, or at least len values |
| FfRange.FwdSkipSafe | include/multiThread/cclbtree_ff/cclbtree_ff.h:1663-1676 | under the separator invariant, the children the forward read skips (`records[0].key <= min`, `records[i + 1].key < min`) emit nothing |
| FfRange.QuietAfter | include/multiThread/cclbtree_ff/cclbtree_ff.h:1688-1701 | under the separator invariant, once the child of record i holds a key below min, every child left of it emits nothing |
| FfRange.BwdStopSafe | include/multiThread/cclbtree_ff/cclbtree_ff.h:1688-1701 | the backward read that reaches record 0 and stops at the first small-key flag gives everything the page's children emit, right to left |
| FfRange.PageCut | include/multiThread/cclbtree_ff/cclbtree_ff.h:1655-1705 | one page read either way gives the leading part of its children's values in its order: all of it, or at least len values |
| FfRange.SearchCut | include/multiThread/cclbtree_ff/cclbtree_ff.h:1650-1708 | the walk from page k on adds the leading part of WantFrom: all of it unless len values are held |
| FfRange.SearchSound | include/multiThread/cclbtree_ff/cclbtree_ff.h:1636-1711 | under the separator invariant, the scan with the corrected backward read is a prefix of WantFrom and all of it unless len values are held |
| FfRange.FwdRead | include/multiThread/cclbtree_ff/cclbtree_ff.h:1661-1685 | the forward read of a page visits FwdTargets in order and ends the page once len values are held |
| FfRange.FwdLoop | include/multiThread/cclbtree_ff/cclbtree_ff.h:1672-1685 | the record loop of the forward read visits Children in order |
| FfRange.BwdRead | include/multiThread/cclbtree_ff/cclbtree_ff.h:1686-1701 | the backward read visits `records[current->count() - 1]` down to record lo, then the leftmost child, and ends the page after a visit that sets the flag |
| FfRange.ReadInner | include/multiThread/cclbtree_ff/cclbtree_ff.h:1655-1705 | a page is read in the direction of its switch counter |
| FfRange.SearchRange | include/multiThread/cclbtree_ff/cclbtree_ff.h:1650-1708 | the page loop reads one page after another while fewer than len values are held |
| FfRange.BtreeSearchRangeAsWritten | include/multiThread/cclbtree_ff/cclbtree_ff.h:1636-1711 | `btree_search_range` as written: the backward read stops before record 0 |
| FfRange.BtreeSearchRange | include/multiThread/cclbtree_ff/cclbtree_ff.h:1636-1711 | with the backward read reaching record 0, the scan gives the leading part of every child's values, each page in its order, stopping only once len values are held |
| FfRange.SingleValues | include/multiThread/cclbtree_ff/cclbtree_ff.h:1596-1607 | a node caching one entry (k, v) over an empty leaf emits v exactly when k is at least min |
| FfRange.SingleSmall | include/multiThread/cclbtree_ff/cclbtree_ff.h:1596-1607 | that node sets the small-key flag exactly when k is below min |
| FfRange.ExampleShape | include/multiThread/cclbtree_ff/cclbtree_ff.h:1688-1701 | the example page (keys 10 and 20, children holding 15, 25 and 5) meets the separator invariant |
| FfRange.BackwardSkipsRecordZero | include/multiThread/cclbtree_ff/cclbtree_ff.h:1688-1701 | on the example page read backward from min 12, the scan as written gives [250] and loses 150, which the corrected read gives |
| WriteLog.PopOk | include/tools/log.cpp:51-56 | on a non-empty free list the sentinel's next word is the first free chunk, and popping it (sentinel skips it, its next word becomes NULL, the caller holds it) keeps the pool well formed |
| WriteLog.PopFree | include/tools/log_numa.c:170-174 | after the pop the free list is the old one without its first chunk, still a chain from the sentinel with no repeats |
| WriteLog.ThreadedChain | include/tools/log_numa.c:156-166 | the refill loop threads its chunks into one chain from the file's last chunk down to its first, which ends in NULL, and leaves every older next word alone |
| WriteLog.RefillFree | include/tools/log.cpp:35-49 | a refill happens on a NULL sentinel word and leaves a free list of exactly the new file's chunks, last first |
| WriteLog.RefillOk | include/tools/log_numa.c:154-168 | the refill keeps the pool well formed and touches no generation |
| WriteLog.FreeEmpty | include/tools/log.cpp:35 | the free sentinel's next word is NULL exactly when the free list is empty |
| WriteLog.TakenOk | include/tools/log_numa.c:150-176 | `get_log_chunk` returns the first free chunk, or the new file's last one after a refill, with a NULL next word, held by nobody, and the pool stays well formed with threads and logs unchanged |
| WriteLog.ThreadFile | include/tools/log.cpp:38-46 | the threading loop builds the next words of a LOG_FILE_SIZE-chunk file, each chunk pointing at its predecessor and the first at NULL |
| WriteLog.LogPool.Refill | include/tools/log.cpp:35-49 | an empty free list is replaced by a new file's chunks, and the pool invariant is kept |
| WriteLog.LogPool.GetLogChunk | include/tools/log_numa.c:150-176 | the pool becomes `ChunkTaken` of the old one and the returned chunk is `NewChunk`, taken with a NULL next word |
| WriteLog.LinkGen | include/tools/log.cpp:70-80 | after the rollover the current generation's chain gains the new chunk at its end, which is the cursor's tail, with one chunk more of bytes and no entries |
| WriteLog.LinkKeeps | include/tools/log.cpp:73 | linking changes only the tail's next word and the new chunk's owner: every other list's next words and owners stay |
| WriteLog.LinkOk | include/tools/log_numa.c:48-58 | linking a taken chunk behind the current tail keeps the pool well formed |
| WriteLog.CursorBelow | include/tools/log.cpp:83 | the current generation's entry count is always below LOG_ENTRYS_PER_CHUNK, so the source's assertion holds |
| WriteLog.WriteOk | include/tools/log.cpp:82-89 | writing at entry_cnt and incrementing it keeps the pool well formed when no rollover is due |
| WriteLog.LoggedOk | include/tools/log_numa.c:38-69 | `add_log` keeps the pool well formed, with or without rollover |
| WriteLog.LoggedIs | include/tools/log.cpp:64-89 | `add_log` changes only the calling thread's current generation, whose cursor becomes `Added` (a fresh chunk exactly when tot_size is 0 or the tail slot is the last but one), and writes exactly the slot (tail, entry_cnt) |
| WriteLog.LoggedSums | include/tools/log.cpp:59-90 | each `add_log` grows `get_log_totsize` by 24 bytes, or 64 on a full-chunk rollover, and leaves `get_flush_totnum` alone |
| WriteLog.AddedBytes | include/tools/log.cpp:70-89 | one entry adds 24 bytes to a generation's share, a rollover from a full chunk 64 |
| WriteLog.LogPool.Link | include/tools/log.cpp:73-79 | the pool becomes `Linked`: the tail points at the chunk, the cursor moves there with one more chunk of bytes and no entries |
| WriteLog.LogPool.Write | include/tools/log.cpp:82-89 | the pool becomes `Written`: the entry lands at (now_chunk, entry_cnt) and entry_cnt grows by one |
| WriteLog.LogPool.AddLog | include/tools/log.cpp:59-90 | the pool becomes `Logged`, rolling over exactly when tot_size is 0 or entry_cnt+1 reaches LOG_ENTRYS_PER_CHUNK, and stays well formed |
| WriteLog.SwitchGen | include/tools/log.cpp:92-104 | `log_vlog_init` leaves the new generation an empty log: its sentinel's next word is NULL and the cursor is at the sentinel with no bytes and no entries |
| WriteLog.SwitchKeeps | include/tools/log.cpp:128-138 | the switch changes only the next word of the new generation's sentinel |
| WriteLog.SwitchOk | include/tools/log_numa.c:71-80 | `switch_alt_and_init` keeps the pool well formed |
| WriteLog.SwitchSums | include/tools/log.cpp:128-138 | the switch drops the thread's former current generation from `get_log_totsize` and its flush count from `get_flush_totnum` |
| WriteLog.LogPool.SwitchAltAndInit | include/tools/log.cpp:128-138 | the pool becomes `Switched`: alt flips, the new generation is emptied with flush count 0, the old one is untouched, and both sums drop by the old current share |
| WriteLog.Splice | include/tools/log.cpp:152-153 | pointing the old tail at the first free chunk and the free sentinel at the old first chunk yields one chain: sentinel, old chunks, former free chunks |
| WriteLog.CollectFree | include/tools/log.cpp:146-157 | after the splice the free list is a chain without repeats of free chunks |
| WriteLog.CollectKeeps | include/tools/log.cpp:149-153 | the splice changes only the next words of the old tail and the free sentinel, and only the owners of the old generation's chunks |
| WriteLog.CollectGen | include/tools/log.cpp:156 | the collected generation keeps its sentinel and is no longer in use |
| WriteLog.CollectOthers | include/tools/log.cpp:140-158 | every other generation stays well formed |
| WriteLog.CollectOk | include/tools/log.cpp:140-158 | collecting keeps the pool well formed and the free list becomes the old generation's chunks followed by the former free list, or stays as it was when tot_size is 0 |
| WriteLog.CollectSums | include/tools/log.cpp:140-158 | collecting changes neither `get_log_totsize` nor `get_flush_totnum` |
| WriteLog.CollectThreads | include/tools/log.cpp:146-157 | collecting changes only the thread's log group, which becomes `Cleared` |
| WriteLog.ClearedIdem | include/tools/log.cpp:146 | after a collect the old generation's tot_size is 0, so a second collect changes nothing |
| WriteLog.ClearedStep | include/tools/log_numa.c:98-116 | each round of the loop extends the prefix of threads whose old generation is cleared |
| WriteLog.LogPool.CollectOld | include/tools/log.cpp:140-158 | the pool becomes `Collected`, stays well formed and both sums stay the same |
| WriteLog.LogPool.CollectAll | include/tools/log_numa.c:95-117 | every thread's log group becomes `Cleared`, the pool stays well formed, and both sums stay the same |
| WriteLog.EmptyOk | include/tools/log_numa.c:86-87 | a pool with only the free sentinel, NULL-terminated, is well formed |
| WriteLog.AddThreadNew | include/tools/log_numa.c:24-36 | a new thread's two generations are empty logs behind fresh sentinels with NULL next words |
| WriteLog.AddThreadOld | include/tools/log_numa.c:89-92 | initialising another thread leaves every existing generation well formed |
| WriteLog.AddThreadOk | include/tools/log_numa.c:24-36 | adding a thread's log group keeps the pool well formed |
| WriteLog.LogPool.InitThread | include/tools/log_numa.c:24-36 | the pool becomes `AddThread`: one more thread, generation 0 current, both generations empty |
| WriteLog.LogPool.constructor | include/tools/log_numa.c:82-93 | num_threads+1 fresh thread logs, an empty free list, and both sums 0 |
| WriteLog.SumsUpdate | include/tools/log.cpp:106-126 | replacing one thread's log group moves each sum by that thread's difference alone |
| WriteLog.GenBytesBound | include/tools/log.cpp:112-113 | a generation's share is between 0 and its bytes, and 40 bytes short of them when it holds chunks |
| WriteLog.PoolBytesNonneg | include/tools/log.cpp:106-116 | `get_log_totsize` of a well-formed pool is never negative |
| WriteLog.LogPool.GetLogTotsize | include/tools/log_numa.c:178-188 | the loop returns the sum over threads of their current generation's share, which is at least 0 |
| WriteLog.LogPool.GetFlushTotnum | include/tools/log_numa.c:190-198 | the loop returns the sum over threads of their current flush counts |
| LbIndex.RoutesUnique | include/multiThread/cclbtree_lb/cclbtree_lb.h:53-55 | in a node with increasing keys, at most one child has a range holding a given key |
| LbIndex.RoutesExist | include/multiThread/cclbtree_lb/cclbtree_lb.h:53-55 | in a node with increasing keys, every key lies in the range of some child |
| LbIndex.InsertedSorted | include/multiThread/cclbtree_lb/cclbtree_lb.h:986-993 | inserting a key that lies strictly between its neighbours keeps the keys increasing |
| LbIndex.InsertedRoutes | include/multiThread/cclbtree_lb/cclbtree_lb.h:986-993 | after the insert every key reaches the same child as before, except that keys of the split child from the new key upward reach the new child, and the children to its right move up one index |
| LbIndex.RemovedSorted | include/multiThread/cclbtree_lb/cclbtree_lb.h:1120-1129 | removing an entry, including the leftmost-child case, keeps the keys increasing |
| LbIndex.RemovedRoutes | include/multiThread/cclbtree_lb/cclbtree_lb.h:1120-1129 | after the removal keys of the removed child reach its left neighbour (its right neighbour when it was the leftmost), and every other key reaches its old child |
| LbIndex.SplitSorted | include/multiThread/cclbtree_lb/cclbtree_lb.h:1005-1035 | both halves of a split keep their keys increasing |
| LbIndex.SplitRoutes | include/multiThread/cclbtree_lb/cclbtree_lb.h:1005-1035 | after a split a key below the pushed key reaches its old child through the old node, and any other key reaches it through the new node |
| LbIndex.RootRoutes | include/multiThread/cclbtree_lb/cclbtree_lb.h:1056-1061 | the new root routes keys below the pushed key to the old root and all others to the new sibling |
| LbIndex.Sub64 | include/multiThread/cclbtree_lb/cclbtree_lb.h:402 | `key - k(m)` in `int64_t` is the exact difference modulo 2^64, and exact when it fits |
| LbIndex.ScanFrom | include/multiThread/cclbtree_lb/cclbtree_lb.h:413-416 | the sequential phase stops at the child left of the first key above the searched key, or at the last one |
| LbIndex.NarrowAsWritten | include/multiThread/cclbtree_lb/cclbtree_lb.h:397-411 | the descent as written picks a child index within the range it narrowed to |
| LbIndex.DescentAsWritten | include/multiThread/cclbtree_lb/cclbtree_lb.h:397-419 | the descent as written picks an existing child |
| LbIndex.DescentOverflows | include/multiThread/cclbtree_lb/cclbtree_lb.h:402-406 | a sorted node and a key for which the as-written descent picks a child whose range excludes the key |
| LbIndex.ShiftRight | include/multiThread/cclbtree_lb/cclbtree_lb.h:988-989 | the entries of a range move up one index and nothing else changes |
| LbIndex.ShiftLeft | include/multiThread/cclbtree_lb/cclbtree_lb.h:1127-1128 | the entries of a range move down one index and nothing else changes |
| LbIndex.CopyDown | include/multiThread/cclbtree_lb/cclbtree_lb.h:1008-1011 | count entries of the old node land, in order, at the given end of the new node, and nothing else of it changes |
| LbIndex.InsertEntry | include/multiThread/cclbtree_lb/cclbtree_lb.h:988-992 | the live entries become the old ones with the new entry inserted at pos; entries past them are untouched |
| LbIndex.Redistribute | include/multiThread/cclbtree_lb/cclbtree_lb.h:1005-1032 | with the new entry inserted, the old node keeps the first LEFT_KEY_NUM+1 entries and the new node gets the rest |
| LbIndex.SplitLow | include/multiThread/cclbtree_lb/cclbtree_lb.h:1006-1018 | when the new entry belongs left, the new node gets the upper entries and the old node the insert |
| LbIndex.SplitHigh | include/multiThread/cclbtree_lb/cclbtree_lb.h:1020-1032 | when the new entry belongs right, it lands in the new node between the entries below and above pos |
| LbIndex.RemoveEntry | include/multiThread/cclbtree_lb/cclbtree_lb.h:1120-1128 | the live entries become the old ones with entry pos removed (entry 0 taking `ch(1)` when pos is 0) |
| LbIndex.INode.constructor | include/multiThread/cclbtree_lb/cclbtree_lb.h:158-165 | `alloc_inode` yields a zeroed node with no keys, no successor and no lock |
| LbIndex.INode.First | include/multiThread/cclbtree_lb/cclbtree_lb.h:196-206 | the first inode has no keys and the first bnode as its only child |
| LbIndex.INode.Root | include/multiThread/cclbtree_lb/cclbtree_lb.h:1056-1061 | the new root has one key: the pushed key, between the old root and the pushed pointer |
| LbIndex.INode.ChildIndex | include/multiThread/cclbtree_lb/cclbtree_lb.h:397-419 | the descent with a three-way key comparison picks the one child whose range holds the key |
| LbIndex.INode.InsertAt | include/multiThread/cclbtree_lb/cclbtree_lb.h:986-999 | a non-full node gets the entry inserted at pos, one more key, and is unlocked |
| LbIndex.INode.Split | include/multiThread/cclbtree_lb/cclbtree_lb.h:1001-1052 | a full node keeps LEFT_KEY_NUM keys, the new node gets RIGHT_KEY_NUM and its entry 0 is pushed up, the new node is linked after this one at level 0, and every lock but the root's is released |
| LbIndex.INode.RemoveAt | include/multiThread/cclbtree_lb/cclbtree_lb.h:1116-1132 | a node with keys left loses entry pos, one key, and is unlocked |
| LbIndex.Index.constructor | include/multiThread/cclbtree_lb/cclbtree_lb.h:194-210 | the tree starts with one inode at level 0 over the first bnode |
| LbIndex.Index.GrowRoot | include/multiThread/cclbtree_lb/cclbtree_lb.h:1056-1074 | a new root over the old root and the pushed entry becomes the root at the new level, and the old root is unlocked |
| LbIndex.LinkAfter | include/multiThread/cclbtree_lb/cclbtree_lb.h:1038-1042 | linking the new node after p keeps the level-0 list a NULL-terminated list of distinct nodes, now with the new node after p |
| LbIndex.Unlink | include/multiThread/cclbtree_lb/cclbtree_lb.h:1094 | unlinking a node after its predecessor keeps the list well formed, without that node and in the same order |
| LbScan.FromCache | include/multiThread/cclbtree_lb/cclbtree_lb.h:1411-1421 | at most one value is pushed per cached pair |
| LbScan.FromLeaf | include/multiThread/cclbtree_lb/cclbtree_lb.h:1424-1439 | at most one value is pushed per live slot |
| LbScan.EmitCount | include/multiThread/cclbtree_lb/cclbtree_lb.h:1411-1439 | a node after the first pushes exactly `counter` plus the leaf's number of live slots values |
| LbScan.CacheCount | include/multiThread/cclbtree_lb/cclbtree_lb.h:1411-1421 | unfiltered, every cached pair pushes its value |
| LbScan.LeafCount | include/multiThread/cclbtree_lb/cclbtree_lb.h:1424-1439 | unfiltered, every live slot pushes its value |
| LbScan.CacheFiltered | include/multiThread/cclbtree_lb/cclbtree_lb.h:1413-1417 | in the first node every value pushed from the cache belongs to a cached pair with key at least minkey |
| LbScan.LeafFiltered | include/multiThread/cclbtree_lb/cclbtree_lb.h:1426-1431 | in the first node every value pushed from the leaf belongs to a live slot with key at least minkey |
| LbScan.FollowingStep | include/multiThread/cclbtree_lb/cclbtree_lb.h:1441-1463 | the walk visits the current inode's next child, or child 0 of the next inode, or stops at the end of the list |
| LbScan.Advance | include/multiThread/cclbtree_lb/cclbtree_lb.h:1441-1463 | one step of the walk moves to the next bottom node in list order |
| LbScan.EmitNext | include/multiThread/cclbtree_lb/cclbtree_lb.h:1408-1466 | each round appends the values of the next node, filtered only for the first |
| LbScan.ScanStep | include/multiThread/cclbtree_lb/cclbtree_lb.h:1408-1466 | each round keeps the loop state: the walk position matches the node count and buf holds exactly what those nodes pushed |
| LbScan.EmitCache | include/multiThread/cclbtree_lb/cclbtree_lb.h:1411-1421 | the cache loop pushes the values of the cached pairs in order, filtered in the first node |
| LbScan.EmitLeaf | include/multiThread/cclbtree_lb/cclbtree_lb.h:1424-1439 | the leaf loop pushes the values of the live slots in slot order, filtered in the first node |
| LbScan.EmitNode | include/multiThread/cclbtree_lb/cclbtree_lb.h:1411-1439 | a node pushes its cache values and then its leaf values |
| LbScan.Scan | include/multiThread/cclbtree_lb/cclbtree_lb.h:1408-1472 | buf holds the values of the first n bottom nodes in list order, each node was visited while fewer than len values were held, and the walk stopped because len was reached or the list ended |
| FpNode.ToInternal | include/multiThread/fptree/fptree.cpp:5 | the internal key is the caller key plus 3 in `uint64_t`, wrapping once past 2^64 |
| FpNode.ToInternalInjective | include/multiThread/fptree/fptree.cpp:5 | distinct caller keys stay distinct inside the tree |
| FpNode.ToInternalLow | include/multiThread/fptree/fptree.cpp:5 | the internal keys 0, 1 and 2 come exactly from the three largest caller keys, which wrap round |
| FpNode.HashFpSound | include/multiThread/fptree/fptree.cpp:126-131 | a stored fingerprint passes `check_hash_fp` for its own key, and a failed check proves the keys differ, so the lookup may skip the slot |
| FpNode.SetBitmap | include/multiThread/fptree/fptree.cpp:133-136 | after `set_bitmap` exactly the given bit and the bits set before are set |
| FpNode.ResetBitmap | include/multiThread/fptree/fptree.cpp:138-141 | after `reset_bitmap` exactly the given bit is clear and every other bit is as before |
| FpNode.Complement | include/multiThread/fptree/fptree.cpp:724 | `~bitmap` sets exactly the bits that were clear |
| FpVersion.InsBumpedKeeps | include/multiThread/fptree/fptree.cpp:206-210 | the insert-counter bump keeps the flag bits and the top bit |
| FpVersion.InsBumpedCount | include/multiThread/fptree/fptree.cpp:206-210 | the insert-counter bump adds one to the insert counter modulo 64 |
| FpVersion.InsBumpedCarry | include/multiThread/fptree/fptree.cpp:206-210 | the carry out of a full insert counter sets the lowest bit of the split counter |
| FpVersion.SplitBumpedKeeps | include/multiThread/fptree/fptree.cpp:211-215 | the split-counter bump keeps the other flags and the top bit |
| FpVersion.SplitBumpedRoot | include/multiThread/fptree/fptree.cpp:211-215 | the split-counter bump clears ISROOT |
| FpVersion.SplitBumpedIns | include/multiThread/fptree/fptree.cpp:211-215 | the split-counter bump leaves the insert counter alone |
| FpVersion.SplitBumpedCount | include/multiThread/fptree/fptree.cpp:211-215 | the split-counter bump adds one to the split counter modulo 2^18 |
| FpVersion.ReleasedClears | include/multiThread/fptree/fptree.cpp:218 | the release clears LOCKED, INSERTING and SPLITTING |
| FpVersion.ReleasedKeeps | include/multiThread/fptree/fptree.cpp:218 | the release keeps every other flag and the top bit |
| FpVersion.ReleasedCounts | include/multiThread/fptree/fptree.cpp:218 | the release keeps both counters |
| FpVersion.UnlockedIs | include/multiThread/fptree/fptree.cpp:195-223 | `unlock_node` leaves the node unlocked with no operation flag; the insert counter goes up by one (mod 64) exactly when INSERTING was set, its carry setting the split counter's lowest bit; the split counter goes up by one (mod 2^18) and ISROOT is cleared exactly when SPLITTING was set; DELETED, ISBORDER and the unused bits are kept |
| FpVersion.RaiseKeepsLock | include/multiThread/fptree/fptree.cpp:617 | raising SPLITTING (or any flag other than LOCKED) keeps the lock bit, so the node stays locked for the insertion that follows |
| FpInner.Pos | include/multiThread/fptree/fptree.cpp:490-492 | the search loop's stop: every key before it is at most the key, and the key is below the key there |
| FpInner.PosRoutes | include/multiThread/fptree/fptree.cpp:30-36 | on strictly increasing keys (`validate_inode`), the search position is the one and only child whose key range holds the key |
| FpInner.InsSorted | include/multiThread/fptree/fptree.cpp:500-535 | inserting at the search position keeps the keys strictly increasing exactly when the key is not already there |
| FpInner.DelSorted | include/multiThread/fptree/fptree.cpp:551-574 | removing a key keeps the keys strictly increasing |
| FpInner.InsRoutes | include/multiThread/fptree/fptree.cpp:500-535 | after the insert, a key that reached the child split by the new key, from the new key up, reaches the new child; every other key reaches the child it reached before |
| FpInner.DelRoutes | include/multiThread/fptree/fptree.cpp:551-574 | after the removal, the keys of the dropped child reach its right neighbour (its left one when it was last); every other key reaches the child it reached before |
| FpInner.SplitIsInsert | include/multiThread/fptree/fptree.cpp:584-631 | a split loses nothing: left keys, middle key and right keys make the old keys with ckey inserted at its search position, and the two child lists make the old children with nchild beside it |
| FpInner.SplitSeparates | include/multiThread/fptree/fptree.cpp:584-631 | the middle key is the pivot key, every left key is below it, every right key at or above it, and ckey lands on the left exactly when it is below it |
| FpInner.ShiftUp | include/multiThread/fptree/fptree.cpp:521-524 | the len entries from i move up one slot and every other entry stays |
| FpInner.ShiftDown | include/multiThread/fptree/fptree.cpp:566-569 | the len entries after i move down one slot and every other entry stays |
| FpInner.KeyPut | include/multiThread/fptree/fptree.cpp:517-528 | the key moves and the store of `internode_insert` leave the m live keys with x inserted at i, the later slots as they were |
| FpInner.ChildPut | include/multiThread/fptree/fptree.cpp:517-529 | the child moves and the store leave the n + 1 children with x inserted at i + 1, the later slots as they were |
| FpInner.KeyDrop | include/multiThread/fptree/fptree.cpp:562-567 | the key moves of `internode_remove` drop the key at i (the last one when the search ran off the end) |
| FpInner.ChildDrop | include/multiThread/fptree/fptree.cpp:562-569 | the child moves of `internode_remove` drop the child at i |
| FpInner.CopyFrom | include/multiThread/fptree/fptree.cpp:604-610 | the first count slots of the destination receive the source slots from `from` on, and the rest stay |
| FpInner.FINode.constructor | include/multiThread/fptree/fptree.cpp:477-482 | `internode_create` gives a zeroed node: no keys, version 0, no parent |
| FpInner.FINode.Root | include/multiThread/fptree/fptree.cpp:755-762 | the new root holds the middle key and the two halves as children, locked, inserting and marked ISROOT |
| FpInner.FINode.Search | include/multiThread/fptree/fptree.cpp:490-492 | the search loop stops at Pos |
| FpInner.FINode.Lookup | include/multiThread/fptree/fptree.cpp:484-498 | `internode_lookup` returns the child whose key range holds the key |
| FpInner.FINode.Insert | include/multiThread/fptree/fptree.cpp:500-535 | the keys become the old keys with key inserted at its search position and the children the old children with child right after it; `nkeys` goes up by one and the unused slots are untouched |
| FpInner.FINode.Remove | include/multiThread/fptree/fptree.cpp:537-575 | with one key the node is left as it is and the child the key does not reach is returned; otherwise the key at the search position (the last key when the search runs off the end) and the child there are dropped and NULL is returned |
| FpInner.FINode.Halve | include/multiThread/fptree/fptree.cpp:590-619 | the new node, locked and splitting under the same parent, receives the keys above the pivot and the children from pivot + 1 on; this node keeps the keys below the pivot, is marked splitting, and the pivot key is returned |
| FpInner.FINode.Split | include/multiThread/fptree/fptree.cpp:584-631 | `split_inter_node` leaves the two nodes and middle key of Divided: the halves of the full node with (ckey, nchild) inserted on the side ckey belongs to |
| FpInner.FINode.SplitToLeft | include/multiThread/fptree/fptree.cpp:617-625 | the split when ckey is below the pivot key: the moves, then the insertion into this node, giving Divided |
| FpInner.FINode.SplitToRight | include/multiThread/fptree/fptree.cpp:617-625 | the split when ckey is at least the pivot key: the moves, then the insertion into the new node, giving Divided |
| FpInner.FINode.Unlock | include/multiThread/fptree/fptree.cpp:195-223 | the version word becomes Unlocked of the old one, whose effect UnlockedIs states |
| FpLeaf.CountUpdate | include/multiThread/fptree/fptree.cpp:443-446 | setting or clearing one bit changes the count by exactly that bit |
| FpLeaf.CountFull | include/multiThread/fptree/fptree.cpp:386-390 | the count equals m exactly when all m bits are set (a leaf with `nkeys == NODE_MAX` has no free slot) |
| FpLeaf.CountNone | include/multiThread/fptree/fptree.cpp:370-371 | the count is 0 exactly when no bit is set |
| FpLeaf.CountComplement | include/multiThread/fptree/fptree.cpp:724 | the complement of a bitmap has m minus its count bits set among the first m |
| FpLeaf.Find | include/multiThread/fptree/fptree.cpp:331-349 | the first slot from i on that is live, carries the key's fingerprint and holds the key, with no earlier one matching |
| FpLeaf.FirstZero | include/multiThread/fptree/fptree.cpp:352-359 | the lowest clear bit from i below m, every earlier bit set, or m when all are set |
| FpLeaf.FirstZeroFree | include/multiThread/fptree/fptree.cpp:434-436 | fewer live slots than slots leaves a clear bit below NODE_MAX, so the insertion finds a free slot |
| FpLeaf.GetIs | include/multiThread/fptree/fptree.cpp:331-349 | in a consistent leaf the fingerprint filter loses nothing: a live slot holding the key is the one `leaf_find_lv` returns |
| FpLeaf.GetNone | include/multiThread/fptree/fptree.cpp:331-349 | a key no live slot holds is not found |
| FpLeaf.InsertConsistent | include/multiThread/fptree/fptree.cpp:378-448 | `leaf_insert_key` keeps a leaf consistent: `nkeys` counts the live slots, fingerprints match, live keys are distinct |
| FpLeaf.InsertGet | include/multiThread/fptree/fptree.cpp:378-448 | after an insertion into a leaf that is not full the key is found with the new value, unless it was there and `update` is off; every other key keeps its value |
| FpLeaf.KeepsOthers | include/multiThread/fptree/fptree.cpp:331-349 | two consistent leaves that agree on the slots holding a key give it the same lookup |
| FpLeaf.RemoveConsistent | include/multiThread/fptree/fptree.cpp:450-472 | removing a key the leaf holds keeps it consistent |
| FpLeaf.RemoveGet | include/multiThread/fptree/fptree.cpp:450-472 | after the removal the key is gone and every other key keeps its value |
| FpLeaf.RemoveEmpty | include/multiThread/fptree/fptree.cpp:471 | the removal reports an empty leaf exactly when no key is left in it |
| FpLeaf.HalvesConsistent | include/multiThread/fptree/fptree.cpp:665-724 | cutting a full leaf at nkey, with c keys from nkey up, leaves two consistent leaves of c and NODE_MAX - c keys |
| FpLeaf.RightGet | include/multiThread/fptree/fptree.cpp:665-688 | the new leaf holds every key of the full leaf from nkey up, with its value, and no other key |
| FpLeaf.LeftGet | include/multiThread/fptree/fptree.cpp:719-724 | the old leaf keeps every key below nkey, with its value, and no other key |
| FpLeaf.RightGeq | include/multiThread/fptree/fptree.cpp:361-376 | scanning every slot of the new leaf, `key_geq` sends a key to the new leaf exactly when it is at least nkey, the separator the parent will hold |
| FpLeaf.PartedRight | include/multiThread/fptree/fptree.cpp:727-730 | when the key goes right, the split leaves the old leaf's half and the new half with the key inserted |
| FpLeaf.PartedLeft | include/multiThread/fptree/fptree.cpp:727-730 | when the key stays left, the split leaves the old half with the key inserted and the new half |
| FpLeaf.SplitGet | include/multiThread/fptree/fptree.cpp:639-730 | a split loses no key: the leaf on a key's side of nkey gives what inserting into the full leaf would have, and the other leaf does not hold the key |
| FpLeaf.KeyGeqAsWrittenMisroutes | include/multiThread/fptree/fptree.cpp:361-376 | on a leaf of four slots holding 10, 20, 30 and 40 split at pivot 1, the scan of the first `nkeys` slots sends 50 to the old leaf while the scan of every slot sends it to the new one |
| FpLeaf.FullDistinct | include/multiThread/fptree/fptree.cpp:665-684 | a full consistent leaf has every slot live and no key twice |
| FpLeaf.PickStep | include/multiThread/fptree/fptree.cpp:667-684 | flagging the largest unflagged key keeps the flagged slots exactly those from that key up |
| FpLeaf.PickedHalf | include/multiThread/fptree/fptree.cpp:665-687 | after c rounds the flags are the slots from the last key picked up, and the new leaf is RightHalf at that key |
| FpLeaf.FLeaf.constructor | include/multiThread/fptree/fptree.cpp:323-329 | `leaf_create` gives a zeroed leaf marked ISBORDER |
| FpLeaf.FLeaf.FindLv | include/multiThread/fptree/fptree.cpp:331-349 | `leaf_find_lv` returns the first matching slot with found set, or slot 0 with found clear when no slot matches |
| FpLeaf.FLeaf.FindFirstZero | include/multiThread/fptree/fptree.cpp:352-359 | `find_first_zero` returns the lowest clear bit below NODE_MAX, or NODE_MAX |
| FpLeaf.FLeaf.ScanGeq | include/multiThread/fptree/fptree.cpp:361-376 | over the first `bound` slots, the answer is whether the leaf has keys and some live slot holds a key at most key, i.e. key is at least the least live key |
| FpLeaf.FLeaf.KeyGeqAsWritten | include/multiThread/fptree/fptree.cpp:361-376 | `key_geq` as written looks at the first `nkeys` slots only |
| FpLeaf.FLeaf.KeyGeq | include/multiThread/fptree/fptree.cpp:361-376 | `key_geq` over every slot |
| FpLeaf.FLeaf.Insert | include/multiThread/fptree/fptree.cpp:378-448 | the leaf becomes InsertKey of the old one: a full leaf is left unchanged and false returned; otherwise the leaf is marked inserting, a found key has its value replaced when `update` is set, and a new key goes to the first clear slot with its fingerprint and bit and `nkeys` one higher |
| FpLeaf.FLeaf.Remove | include/multiThread/fptree/fptree.cpp:450-472 | the leaf becomes RemoveKey of the old one (the key's bit cleared, `nkeys` one lower), marked inserting, and the result says whether it was the last key |
| FpLeaf.FLeaf.Erase | include/multiThread/fptree/fptree.cpp:461-471 | the steps of the removal after the lock check, with the same result |
| FpLeaf.FLeaf.Drop | include/multiThread/fptree/fptree.cpp:466-468 | the slot's bit is cleared and `nkeys` is one lower |
| FpLeaf.FLeaf.Mark | include/multiThread/fptree/fptree.cpp:719 | `version |= flag` |
| FpLeaf.FLeaf.Split | include/multiThread/fptree/fptree.cpp:639-735 | `split_leaf_node` up to the ascent, with the corrected every-slot `key_geq`: c = NODE_MAX - NODE_PIVOT - 1 keys from nkey up move to the new leaf, the key goes to the new leaf exactly when it is at least nkey, the two leaves are Parted of the full one, both are marked as the source marks them, and the new leaf is linked between this leaf and its old successor |
| FpLeaf.FLeaf.Finish | include/multiThread/fptree/fptree.cpp:727-732 | after the moves: the side chosen by the corrected every-slot `key_geq`, the key inserted there and `leaf->next` set to the new leaf |
| FpLeaf.FLeaf.ChooseSide | include/multiThread/fptree/fptree.cpp:727 | the corrected every-slot `key_geq` over the new leaf answers whether the key is at least nkey |
| FpLeaf.FLeaf.InsertSide | include/multiThread/fptree/fptree.cpp:730 | the key is inserted into the leaf its side names, giving Parted |
| FpLeaf.FLeaf.InsertRight | include/multiThread/fptree/fptree.cpp:730 | inserting into the new leaf gives Parted when the key is at least nkey |
| FpLeaf.FLeaf.InsertLeft | include/multiThread/fptree/fptree.cpp:730 | inserting into the old leaf gives Parted when the key is below nkey |
| FpLeaf.FLeaf.Divide | include/multiThread/fptree/fptree.cpp:659-724 | the moves: a new leaf with the keys from nkey up, linked after this one, this leaf keeping the complement bitmap and NODE_PIVOT + 1 keys, both marked splitting |
| FpLeaf.FLeaf.CreateRight | include/multiThread/fptree/fptree.cpp:659-688 | the new leaf, locked and then splitting, receives the c largest keys in their own slots |
| FpLeaf.FLeaf.LinkRight | include/multiThread/fptree/fptree.cpp:706-712 | the new leaf's next is the old successor, whose prev becomes the new leaf; its prev is this leaf and its parent this leaf's parent |
| FpLeaf.FLeaf.KeepLeft | include/multiThread/fptree/fptree.cpp:719-724 | this leaf is marked splitting, keeps NODE_PIVOT + 1 keys and the complement of the new leaf's bitmap |
| FpLeaf.FLeaf.PickLargest | include/multiThread/fptree/fptree.cpp:670-677 | the inner loop returns the unflagged live slot with the largest key, or -1 when every live slot is flagged |
| FpLeaf.FLeaf.MoveUpper | include/multiThread/fptree/fptree.cpp:665-685 | the outer loop copies the c largest keys: exactly the slots from nkey up, which are c in number, are mirrored into the new leaf, and nkey is a key of the leaf |
| FpLeaf.FLeaf.MoveLoop | include/multiThread/fptree/fptree.cpp:668-685 | after c rounds the c largest keys are flagged and mirrored, and nkey is the last one picked |
| FpLeaf.FLeaf.PickNext | include/multiThread/fptree/fptree.cpp:670-677 | one pick flags one more slot, and the flagged slots are exactly those from the picked key up |
| FpLeaf.FLeaf.MoveOne | include/multiThread/fptree/fptree.cpp:680-684 | one copy mirrors the picked slot into the new leaf and keeps the loop state |
| FpLeaf.FLeaf.Unlock | include/multiThread/fptree/fptree.cpp:195-223 | the version word becomes Unlocked of the old one |

## Left out

- Concurrency: lock words are ordinary fields, the compare-and-swap of `get_lock_bnode` always succeeds on an unlocked node, and the retry loops of readers (version and switch-counter checks) run once.
- Persistence: `clflush`, `sfence` and memory fences, and `_rdtsc` timestamps in the leaf metadata.
- SIMD: `_mm_cmpeq_epi8`/`_mm_movemask_epi8` become a per-slot fingerprint compare (`MatchMask`).
- Allocation: `alloc_bnode`/`alloc_lnode` and `new page` are constructors; node addresses are abstract numbers.
- `insert_into_logs`: the log hand-off is the `logged` result of `BNode.Insert` and `BNode.Recycle`.
- The descent `get_the_target_bnode` and `btree_insert_internal`: `BNode.Insert` starts from the node the descent returned locked, and its split result is what the caller passes to `parent->store`.
- `flushed_count` accounting in `insert_into_leaf` is a statistic.
- FairPage.Page.Count: requires last_index + 1 not to lie past the first NULL pointer, which holds with no concurrent writer.
- FairPage.LeafSearchFinds: needs neighbouring records to carry distinct pointers; the scan deliberately skips a repeated pointer, which `LeafSearchSkipsRepeatedValue` states.
- The background recycler thread and its signal flags: `recycle_bottom` is one sequential pass.
- Log files: `log_file_create` maps a new pmem file; here a refill takes LOG_FILE_SIZE fresh ids from `nextId`, and `pmem_malloc` of a sentinel does the same.
- The log's mutex: every log operation runs alone.
- NUMA: `per_numa_log_pool[thread_id / NUM_CORE_PER_NUMA]` is one pool, and log.cpp's globals and log_numa.c's classes are the one `LogPool` class, whose logic they share.
- 64-bit sums: `tot_size` and the sums of `get_log_totsize`/`get_flush_totnum` are unbounded integers, without `uint64_t` wrap-around (a pool would need 2^42 chunks to wrap).
- Timestamps of log entries (`_rdtsc`) and the `clflush` of entries and log groups.
- WriteLog.LogPool.SwitchAltAndInit: switching to a generation that was never collected drops its chunks from every list; the model states this (its chain becomes empty) but proves nothing about leaked chunks.
- The last slot of a chunk: `add_log` rolls over when entry_cnt+1 reaches LOG_ENTRYS_PER_CHUNK, so the slot LOG_ENTRYS_PER_CHUNK-1 is never written; with the next word and padding, `GenBytesBound` and `AddedBytes` show 40 bytes of every full chunk left uncounted.
- Inode size: `NONLEAF_SIZE` is not part of this model; the node size is the `UNIFIED_NODE` value 14.
- Inode metadata: entry 0's key word (next, lock, num) is modelled as separate fields, so the new node's `k(0)` keeps the pushed key.
- The multi-level descent and the per-level loops over `parray`/`ppos` of `insert_lnode`: child pointers are abstract addresses, so one level's step is modelled at a time (`ChildIndex`, `InsertAt`, `Split`, `RemoveAt`, `GrowRoot`), and the level-0 list is a `next` map over those addresses.
- The search for the deleted node's sibling in `insert_lnode` and the removal of an inode that loses its only child, beyond unlinking it from level 0 (`Unlink`).
- `dealloc_lnode` and `free` of a deleted leaf and bottom node.
- The "lb" cache path, leaf merge, leaf split and `search_lnode` repeat the "ff" code and share its modules.
- The lock checks and restarts of `scan` (`goto Again3`), and its RTM transaction.
- LbIndex.DescentAsWritten: only the overflow case is stated; that the as-written descent agrees with `ChildIndex` whenever no subtraction overflows is not proved.
- FPTree's `fptree.h` is not part of this model. The version-word layout is taken from the masstree code FPTree derives from: flags in bits 0..6, the insert counter in bits 7..12 and the split counter in bits 13..30.
- FPTree key and value types: `setkey_t` and `setval_t` are taken to be `uint64_t`.
- FPTree node size: `NODE_MAX` and `NODE_PIVOT` are the fields `max` and `pivot` of each node, with `pivot + 1 < max <= 64`, rather than fixed constants.
- FPTree pointers: child and parent pointers are abstract numbers (NULL being 0). The leaf list's `next` and `prev` are references. `node_set_parent` on the children that move is not modelled.
- The FPTree ascent: after the leaf split come the loop over the parents (`lock_parent_node`, `split_inter_node` or `internode_insert`, root growth at `ascend`) and the unlocks. They are modelled one step at a time (`FINode.Split`, `FINode.Insert`, `FINode.Root`, `Unlock`), not as one loop over a tree.
- FPTree leaf split, persistence: the uLog pointers `PCurrentLeaf` and `PNewLeaf` and every `pmem_persist` are left out.
- Range scans, the descent: `btree_search_range` and `btree_search_range_2` first descend with `linear_search`; here the scans start from the chain of pages the descent reaches, given in `sibling` order, and the bottom nodes by address.
- Range scans, buffers: the fixed local array `buf[mmax_length_for_scan]` of `linear_search_range_2` and the presized vector of `btree_search_range` are sequences without a capacity.
- FairRange.LinearSearchRange2AsWritten: the scan is called on a page, so the chain is not empty, and every page has the same `records[cardinality]`, so the first page's count stays inside every page; both are preconditions.
- Range scans, retries: with no writer running every switch-counter and version check passes, so each page and bottom node is read once.
- FPTree concurrency: the optimistic descent and retries (`stable_version`, `lock_node`, `find_leaf`, `walk_leaves`, `find_leaf_locked`), and the deletion path (`delete_leaf_node`, `collapse_nodes`).
- FPTree whole-tree operations: `fptree_get`, `fptree_put`, `fptree_del` and `fptree_scan` compose the node operations modelled here with that descent.
- FpLeaf.RemoveConsistent, FpLeaf.RemoveGet and FpLeaf.RemoveEmpty: stated for a key the leaf holds, since `fptree_del` calls `leaf_remove_key` only after the lookup found the key. A missing key clears slot 0, which `RemoveKey` models but no lemma describes.
- FpInner.FINode.Split: the side is chosen by `ckey < keys[pivot]` before the moves; the source compares with `*midkey` after them. The two are the same key.

## Findings

| source | as written | input that shows it | evidently intended | confidence | as-written member | corrected member |
|---|---|---|---|---|---|---|
| include/multiThread/cclbtree_lb/cclbtree_lb.h:402-406 (also 527 and 1373) | the descent compares keys by the sign of `r = key - in->k(m)` computed in `int64_t`, which overflows | keys -8..-1 in one inode and key INT64_MAX: `key - k(4)` wraps to a negative number, and the descent takes child 3 instead of child 8 | a three-way comparison of key and `k(m)` | not executed; the shipped tests use non-negative keys | LbIndex.DescentOverflows | LbIndex.INode.ChildIndex |
| include/multiThread/fptree/fptree.cpp:361-376 (called at 727) | `key_geq` scans the slots `i < leaf->nkeys` only, but the split copies every moved entry into the slot it had in the old leaf and sets `nkeys = c` (665-687), so the new leaf's live slots need not lie below `nkeys` | a full leaf of four slots holding 10, 20, 30 and 40, pivot 1: the new leaf holds 30 and 40 in slots 2 and 3 with `nkeys` 2, so the scan of slots 0 and 1 finds nothing and 50 is inserted into the old leaf, while the parent will send 50 to the new one | scan every slot below NODE_MAX, so that a key goes to the new leaf exactly when it is at least the separator nkey | not executed | FpLeaf.KeyGeqAsWrittenMisroutes | FpLeaf.RightGeq, FpLeaf.FLeaf.Split |
| include/multiThread/fast_fair/btree.h:696-712 (also 719, 741, 759) | `tmp_key < max` compares an `int64_t` key with the `uint64_t` bound `UINT64_MAX`, so the key is converted first and -1 fails the test: `goto end` stops the whole scan | one page holding (-1, 5) and (3, 6), scanned from -5 with length 10: the scan returns nothing, while both records lie above min | no upper bound: every key above min is read | not executed | FairRange.ScanStopsAtMinusOne | FairRange.LinearSearchRange2 |
| include/multiThread/fast_fair/btree.h:737 | the backward read runs `for (i = count() - 1; i > 0; --i)` inside the member function `page::linear_search_range_2`, so `count()` is that of `this`, the first page of the scan, and not of `current`, the page being read | a first page with one record, key 1, then a page with keys 2, 3 and 4 whose switch counter is odd, scanned from 0 with length 10: the second page gives only record 0's pointer, so the scan returns [10, 20] and loses 30 and 40; a first page with more records than a later backward page makes the read run past that page's NULL sentinel into stale records | `current->count() - 1`, as the "ff" tree's scan writes at cclbtree_ff.h:1688 | not executed | FairRange.BackwardUsesFirstCount | FairRange.LinearSearchRange2 |
| include/multiThread/cclbtree_ff/cclbtree_ff.h:1688 | the backward read of an inner page runs `for (i = current->count() - 1; i > 0; --i)` and then reads the leftmost child, so the child of record 0 is never read | a page with keys 10 and 20 over children holding 15 and 25 and a leftmost child holding 5, switch counter odd, min 12: the scan gives [250] and loses 150 | read records `count() - 1` down to 0, then the leftmost child | not executed | FfRange.BackwardSkipsRecordZero | FfRange.BtreeSearchRange |
