# volmount: a verified model of the block store core

volmount keeps block devices in a copy-on-write store modelled on bcachefs. This project models
the parts of it that keep the data consistent and proves what each of them is for. Each Dafny
module follows one source file or one layer of it, and is written the way the source is: what the
source updates in place is a class whose methods are proved against functions of the old state,
loops are loops, and protocols are runs of steps.

- `StableSort`, `Records`, `BtreeNodes`: records in three runs, and nodes of a fixed byte size
  holding them: insert, compaction, delete by tombstone or in place, split and absorb.
- `BtreeShape`, `Routing`, `BtreeSteps`, `Cascades`, `Btrees`: the tree. A `Forest` gives each
  address its level, key interval and map; `Inv` says that the intervals of each level tile the
  key space and that routing entries lead to them. `Btree` changes nodes and forest together, and
  its map is the union of the leaves. `Cascades` says which nodes an insert cuts, which a delete
  merges, and when the root grows or is lifted.
- `BtreeIters`, `Lookups`, `KeyCaches`, `LeafWalks`, `FullScans`: the iterator as a stack of
  nodes, the lookups made with it and the key cache in front of them, the scans, which leaves and
  records they meet, and what they say about the tree's map.
- `Watermarks`, `Layouts`, `OpenBuckets`, `Allocation`, `Recovery`: reserves, the index of an
  address, the pool of open buckets with its freelist and hash chains in arrays, the bucket
  allocator with its log, and runs of it followed by recovery into a fresh allocator.
- `WritePoints`, `Reservations`: the pool of write points, and disk reservations both as methods
  and as a state machine of interleaved atomic operations.
- `NodeCaches`: clean, dirty and drained nodes, eviction, shrinking and flushing.
- `SortIters`, `Topology`, `GcSweep`: the merge sort over packed records, the topology check, and
  mark and sweep.
- `Wrappers`, `Numbers`, `Sequences`: what several of these use.
- `Nbd`: the transmission handlers for NBD_CMD_READ, NBD_CMD_WRITE and NBD_CMD_TRIM, against one
  flat byte array (sections "Transmission phase" and "Request types" of the NBD protocol
  specification).

`dafny verify dfyconfig.toml` checks the whole project.

## Where the code does less than it sets out to do

The model follows the code. These properties fail; each comes with the exact condition under which
it holds, unless said otherwise:

- `Btree.Insert` fails exactly on a leaf that is over the split threshold with fewer than two live
  keys (`InsertStuck`), although compacting it would make room (`StuckHasRoom`). In a leaf of any
  size, overwriting one key gets there (`StuckByOverwriting`).
- A delete is refused for a key that was deleted and inserted again while its tombstone still
  stands (`HasLive`, `ReinsertedRefusesDelete`), and in a full node it leaves a key in the map
  exactly if it stands more than once (`MarkFirstView`, `DeleteRemoves`).
- Past the key cache, `get` returns the oldest live record of the newest run that holds one. That
  is the map's value exactly if no record is live or the newest is, with that value
  (`TakesNewest`; it fails in `OverwrittenIsStale`). `get_entry` reads up to the entry counter,
  which does not count tombstones, and is right exactly if no later record of the key says
  otherwise (`Veiled`; it fails in `ReinsertedIsVeiled`).
- The key cache keeps what a lookup found, wrong or not, until that key is written: a stale value
  stays the answer whatever becomes of its leaf (`CachedTree.Run`, `Poisoned`). A lookup is right
  exactly if the value kept is, or, without one, under the conditions above; it leaves the cache
  right exactly if it was and what it keeps is right, and a write exactly if it was for all other
  keys (`Coherent`, in the contracts of `CachedTree`).
- A scan yields nothing if the first leaf is empty, leaves out leaves exactly if some inner node
  has its least record behind another one (`EntersAllIff`), and reads each leaf up to its counter
  only; `ScanIsMap` gives the condition for every tree. Merging the first of three or more
  children of the root always leaves such a root (`MergeFirst`).
- A full iteration lists deleted keys until their leaf is compacted: the live record still stands
  in the part read, its uncounted tombstone behind it (`DeletedIsListed`; `ListIff` gives the
  condition on what is read of each leaf).
- The third node of a three-to-two merge is the node being merged itself, already taken out of the
  cache, so those branches never merge (crates/volmount-core/src/btree/btree.rs:1432-1591,
  1625-1763); `TryMergeNode` puts both nodes back there.
- With a full open pool an allocation drops an index from each stocked free stack (`TriedAll`),
  and only then. The invariant is that stacks hold free buckets only, not all of them; the second
  pass over the buckets finds the others.
- Frees and completed discards are logged by address, allocations by group and bucket. If groups
  do not start on a bucket boundary (the first data block is 8), the last blocks of a bucket are
  logged under the next bucket (`OwnIndexIff`). From a log in order, recovery right after that
  free or discard restores something else then and only then (`RecoversIff`). Over a run later
  entries may make up for it or not; recovery is right exactly if the log tells every bucket
  (`RunAndRecover`, `Told`).
- The collector takes an address to lie in the bucket whose number is the address divided by 256.
  In groups that do not start on a bucket boundary it frees buckets in use (`FirstBucketFreed`);
  for raw values it is right exactly on such a boundary (`RawRightIff`).
- A put of an open bucket that is not open makes the freelist circular; the pool stays in order
  exactly if it was open (`Put`, `DoublePutBreaks`). Giving up a write point puts its full
  buckets, and so keeps the pool in order exactly if each of them is open and listed once
  (`TryDecrease`).
- Inserting a clean id that is clean already queues it twice, and one that is drained makes it
  two-sided (`InsertClean` says exactly when the cache stays in order). `shrink` looks at no more
  nodes than it may evict, so its scan limit of 64 more is never reached.
- A write replaces its range only, exactly if every block it covers in part can be read; else the
  rest of the block is zeroed (`WriteExactIff`). Reads past the export are short. A trim is
  rounded outward and not clipped, and exact on block boundaries only (`TrimExactIff`).
- Concurrent Partial reservations can hold twice the budget (`PartialOverruns`). One operation
  exceeds it exactly if a refill takes room that was granted since (`OverrunIff`), so it is kept
  if no add begins in between (`RunOrderly`; one way only, since later puts can make up for it).
- During a commit twice the budget can be held even without flags (`CommitOverruns`), because the
  counter is lowered first; less what is being committed, never more than the budget
  (`HeldWithinBudget`).
- The topology check compares neighbours only; an unset span between two overlapping ones lets
  them pass (`InvertedSpanHidesOverlap`, and `SiblingsIncreaseIff` for what has to be compared).
- The sweep looks at raw values only, the mark at extents and tree pointers too; what is in use is
  what is referenced exactly under `CollectsRightIff`.

## Model

| member | source | states |
|---|---|---|
| `Records.KeyRankIsOrder` | crates/volmount-core/src/btree/key.rs:1069-1081 | the rank keys are modelled by is the key order: address ascending, then snapshot descending; equal ranks only for equal keys |
| `Records.ViewIsLatest` | crates/volmount-core/src/btree/node.rs:1841-1963 | the map a run of records stands for holds a key iff the last record of the key is live, with that record's value |
| `Records.CompactKeepsView` | crates/volmount-core/src/btree/node.rs:1841-1963 | merging, keeping the last record per key and dropping tombstones gives one strictly sorted live record per key and the same map |
| `StableSort.SortIsStable` | crates/volmount-core/src/btree/node.rs:1841-1963 | sorting gives a sorted permutation in which records of one key keep their order |
| `StableSort.StableSortIsUnique` | crates/volmount-core/src/btree/io.rs:190-252 | a sorted permutation that keeps ties in order is the only one, so the specification determines the result |
| `BtreeNodes.Insert` | crates/volmount-core/src/btree/node.rs:1243-1292 | succeeds iff one more record fits once the search array is given up; then the record is the last one of the node, else nothing changes |
| `BtreeNodes.Compact` | crates/volmount-core/src/btree/node.rs:1841-1963 | the node becomes one sorted run of its live records, with a search array iff that still fits; layout and counters are in order again |
| `BtreeNodes.DeleteKey` | crates/volmount-core/src/btree/node.rs:1356-1418 | accepted iff a live record exists and no tombstone of the key stands anywhere; the key leaves the map iff there was room for a tombstone or the key stood once; records and counters afterwards, compacted iff tombstones, this one included, reach an eighth of the keys counted; other keys keep their records |
| `BtreeNodes.MaybeCompact` | crates/volmount-core/src/btree/node.rs:1480-1485 | compacts the node iff it counts keys and its tombstones reach an eighth of them |
| `BtreeNodes.MarkInPlace` | crates/volmount-core/src/btree/node.rs:1452-1477 | in a full node exactly the first record of the key turns into a tombstone |
| `BtreeNodes.MarkFirstView` | crates/volmount-core/src/btree/node.rs:1452-1477 | marking in place removes the key from the map iff the key stood only once |
| `BtreeNodes.ReinsertedRefusesDelete` | crates/volmount-core/src/btree/node.rs:1356-1446 | a key inserted again behind its own tombstone is in the map, yet its delete is refused |
| `BtreeNodes.FindBalancedSplit` | crates/volmount-core/src/btree/node.rs:1576-1641 | the cut is the first shard boundary in the middle three fifths, without one the first place where the left side reaches three fifths of the weight; at least a fifth of the records, rounded down, and one of them, is on either side |
| `BtreeNodes.FindShardSplit` | crates/volmount-core/src/btree/node.rs:1646-1668 | the cut returned is the first shard boundary in the middle three fifths; none is returned iff there is none |
| `BtreeNodes.Split` | crates/volmount-core/src/btree/node.rs:1526-1545 | gives up, leaving the node alone, iff fewer than two keys are live; else cuts the compacted records at that place |
| `BtreeNodes.SplitMeaning` | crates/volmount-core/src/btree/node.rs:1526-1728 | the halves hold the map below and from the median, the left one is not empty, and each has room for one more record |
| `BtreeNodes.Absorb` | crates/volmount-core/src/btree/node.rs:1735-1805 | if the room check allows it, the node holds the union of both maps, in one record per key |
| `Routing.FindChildNode` | crates/volmount-core/src/btree/iter.rs:400-500 | binary search and collect-and-sort give the same answer: the last routing key not above the target, else the least one, with its position over all runs |
| `Routing.IsChildForUnique` | crates/volmount-core/src/btree/iter.rs:400-500 | with one record per key that answer is a single position, so both ways of searching agree |
| `Routing.SearchAux` | crates/volmount-core/src/btree/iter.rs:400-500 | the binary search over the sorted run finds that position |
| `Routing.ScanRuns` | crates/volmount-core/src/btree/iter.rs:400-500 | the collect, sort and scan way finds that position |
| `Routing.FindSibling` | crates/volmount-core/src/btree/btree.rs:1989-2026 | the sibling found is next to the child in key order on the side asked for; none is found iff the child is at that end |
| `Routing.FindEntryIndex` | crates/volmount-core/src/btree/btree.rs:1952-1964 | the position found leads to the address; none is found iff no record does |
| `Routing.ReadEntryByGlobalIdx` | crates/volmount-core/src/btree/btree.rs:1968-1982 | walking run by run by a position counted over all runs is indexing their concatenation |
| `BtreeShape.Covered` | crates/volmount-core/src/btree/btree.rs:911-949 | in a tree in order every key lies in the interval of some node on every level |
| `BtreeShape.ContentsAt` | crates/volmount-core/src/btree/btree.rs:911-949 | what the tree's map says about a key is what the one leaf covering it says |
| `BtreeShape.SplitKeepsInv` | crates/volmount-core/src/btree/btree.rs:1052-1223 | cutting a node and entering the right half in the parent keeps uniform depth, child levels, and that each child holds exactly the keys up to the next routing key |
| `BtreeShape.SplitKeepsContents` | crates/volmount-core/src/btree/btree.rs:1052-1223 | that cut keeps the map of the tree |
| `BtreeShape.GrowKeepsInv` | crates/volmount-core/src/btree/btree.rs:534-623 | two halves under a new root make a tree one level deeper, in order |
| `BtreeShape.GrowKeepsContents` | crates/volmount-core/src/btree/btree.rs:534-623 | growing keeps the map |
| `BtreeShape.MergeKeepsInv` | crates/volmount-core/src/btree/btree.rs:1814-1886 | joining two neighbours, whichever survives, under the smaller of their routing keys keeps the tree in order, so no interval is orphaned |
| `BtreeShape.MergeKeepsContents` | crates/volmount-core/src/btree/btree.rs:1814-1886 | joining keeps the map |
| `BtreeShape.CollapseKeepsInv` | crates/volmount-core/src/btree/btree.rs:1897-1921 | lifting the only child of the root gives a tree one level shallower, in order |
| `BtreeShape.CollapseKeepsContents` | crates/volmount-core/src/btree/btree.rs:1897-1921 | collapsing keeps the map |
| `Btrees.Btree.constructor` | crates/volmount-core/src/btree/btree.rs:73-85 | a new tree is in order, of depth 0 and empty |
| `Btrees.Btree.FindPathToLeaf` | crates/volmount-core/src/btree/btree.rs:911-949 | the leaf covers the key and the path lists the real inner nodes from below the root to its parent |
| `Btrees.Btree.InsertRoutingEntryAt` | crates/volmount-core/src/btree/btree.rs:1103-1223 | entering a pending right half always succeeds, splitting nodes up the path and if need be the root, and keeps the map; the loop ends |
| `Btrees.Btree.SplitRoot` | crates/volmount-core/src/btree/btree.rs:534-623 | a root that lacks an entry is split, takes it, and gets a new root above, iff it holds two keys |
| `Btrees.Btree.SplitNode` | crates/volmount-core/src/btree/btree.rs:1103-1223 | a node that lacks an entry is split and takes it, leaving its parent to lack the right half, iff it holds two keys |
| `Btrees.Btree.InsertMulti` | crates/volmount-core/src/btree/btree.rs:952-1100 | keeps the tree in order; fails, changing nothing at all, iff the leaf is stuck; else the map gets exactly the new value, and nodes are cut on the way up as stated for an insert |
| `Btrees.Btree.Insert` | crates/volmount-core/src/btree/btree.rs:464-500 | for trees of any depth: the map becomes the old one with the key set, unless the leaf is stuck, and then nothing changes; from the leaf upwards nodes are cut, each where nodes are cut and its halves at the right addresses, exactly as long as they must be; the next one takes the last entry, or a new root stands above the halves of the old one; no other node changes |
| `Cascades.InsertShares` | crates/volmount-core/src/btree/btree.rs:952-1223 | a node on the way up is cut iff it has no room for the entry even once compacted, or is a leaf over the threshold; both halves get at least a fifth of its keys, rounded down, and together all of them and the entry |
| `Cascades.InsertCounts` | crates/volmount-core/src/btree/btree.rs:952-1223 | there are as many nodes more as cuts, and one more if the tree has grown |
| `BtreeSteps.StuckHasRoom` | crates/volmount-core/src/btree/btree.rs:987-1046 | a stuck leaf would have room if it were compacted, which this path does not do |
| `BtreeSteps.StuckByOverwriting` | crates/volmount-core/src/btree/btree.rs:987-1046 | in a leaf of any size, inserting one key until the split threshold is passed gets it stuck; each of these inserts had room and was below the threshold |
| `Btrees.Btree.TryMergeNode` | crates/volmount-core/src/btree/btree.rs:1320-1385 | merges iff the node is underfull, has a sibling and both fit one node; the sibling is the right one, for the last child the left one; the right of the two survives with both maps under the smaller key, entered behind all other routing entries, the other is gone, and only survivor and parent change; otherwise the node is put back, compacted if underfull; the map is kept |
| `BtreeSteps.PartnerIs` | crates/volmount-core/src/btree/btree.rs:1989-2026 | the sibling found among the routing entries is the only node whose interval meets the child's on that side |
| `BtreeSteps.UpdateParentRouting` | crates/volmount-core/src/btree/btree.rs:1814-1886 | both routing entries go and one under the smaller key, leading to the survivor, takes their place; the others are left sorted and the new one stands behind them |
| `Btrees.Btree.CollapseRoot` | crates/volmount-core/src/btree/btree.rs:1897-1921 | collapses iff the root has one entry; keeps order and map, and lowers the depth by one |
| `Btrees.Btree.Delete` | crates/volmount-core/src/btree/btree.rs:1226-1312 | accepted iff the covering leaf accepts it, and then the map loses the key and nothing else iff the leaf lets go of it; step by step: the leaf as the delete leaves it, merges from the leaf up the path, each node exactly if it can be merged, up to the first that cannot; after a merge the root is lifted exactly as long as it has one child; a refused delete changes nothing |
| `Cascades.DeleteCounts` | crates/volmount-core/src/btree/btree.rs:1226-1312 | every merge and every lift takes one node away and every lift one level; there is a merge iff the leaf as the delete left it can be merged; after one the root does not have a single entry, whether or not the tree got lower |
| `BtreeIters.BtreeIter.constructor` | crates/volmount-core/src/btree/iter.rs:160-341 | the path is a real root-to-leaf path; leaf and later leaves are those from the target on; the position is that of the leaf search |
| `BtreeIters.Position` | crates/volmount-core/src/btree/iter.rs:239-337 | the leaf search takes the smallest record not below the target over all runs, ties to the later run and to the first record in it; at the least key it takes the first record |
| `BtreeIters.BtreeIter.Peek` | crates/volmount-core/src/btree/iter.rs:508-534 | the record read is the first of what is still to come |
| `BtreeIters.BtreeIter.Advance` | crates/volmount-core/src/btree/iter.rs:667-690 | succeeds iff a record is left, and then exactly one record is dropped from what is to come |
| `BtreeIters.BtreeIter.BackUpAndAdvance` | crates/volmount-core/src/btree/iter.rs:692-741 | goes to the first record of the next leaf that has one, skipping nothing that can be read; ends iff there is none |
| `BtreeIters.BtreeIter.Descend` | crates/volmount-core/src/btree/iter.rs:761-785 | pushes the real path down to the first leaf of a subtree, keeping the leaves to come |
| `Lookups.StandsTree` | crates/volmount-core/src/btree/iter.rs:160-238 | every tree built by inserts and deletes is one an iterator can walk |
| `Lookups.SeekFinds` | crates/volmount-core/src/btree/iter.rs:160-238 | the first leaf entered for a key covers it, and no later leaf has a record of it |
| `Lookups.EntryIs` | crates/volmount-core/src/btree/iter.rs:239-337 | a search begins at the oldest live record of the key in the last run that holds a live one, else at the oldest tombstone of the last run that holds one; for the least key at the first record |
| `Lookups.GetEntry` | crates/volmount-core/src/btree/btree.rs:381-408 | returns what the leaf's records say up to the counted end or the record begun at; that is what the map says iff no later record of the key says otherwise |
| `Lookups.WindowExact` | crates/volmount-core/src/btree/btree.rs:381-408 | the records up to that end tell what the whole leaf tells iff no record of the key behind it says otherwise; always if the counter counts all records |
| `Lookups.Get` | crates/volmount-core/src/btree/btree.rs:289-300 | past the key cache: returns the oldest live record of the last run that holds one; that is what the map says iff no record of the key is live or its newest is live with the same value; the least key is looked for in the first record only |
| `Lookups.LandedExact` | crates/volmount-core/src/btree/btree.rs:289-300 | the record landed on is that one, and taking it is right under the same condition on the leaf's records; always if the key stands at most once |
| `KeyCaches.CachedTree.constructor` | crates/volmount-core/src/btree/btree.rs:73-85 | a new tree with nothing cached |
| `KeyCaches.CachedTree.Get` | crates/volmount-core/src/btree/btree.rs:278-307 | answers from the key cache if it has the key, else from the tree, and keeps what it finds; right iff the value kept is the map's or, without one, the newest record's value is taken; afterwards the cache is right iff it was, and the key was in it, or nothing or the newest was taken |
| `KeyCaches.CachedTree.GetEntry` | crates/volmount-core/src/btree/btree.rs:317-330 | the same cache; without a value kept, right iff the key is not veiled; afterwards the cache is right iff it was, and the key was in it, or nothing was found or the key is not veiled |
| `KeyCaches.CachedTree.Insert` | crates/volmount-core/src/btree/btree.rs:464-500 | a successful insert drops the key from the cache and a failed one leaves it; afterwards the cache is right iff it was so before for all other keys, or, on failure, for all |
| `KeyCaches.CachedTree.Delete` | crates/volmount-core/src/btree/btree.rs:504-532 | the same for an accepted delete |
| `KeyCaches.CachedTree.Run` | crates/volmount-core/src/btree/btree.rs:278-532 | over any run of lookups, inserts and deletes, each doing to the map what it is for or nothing: the cache stays right as long as no lookup gives a wrong value; a value kept is the answer for its key until the key is written, while the map keeps its own, whatever happens to other keys |
| `KeyCaches.FillKeeps` | crates/volmount-core/src/btree/key_cache.rs:156-190 | keeping one more value leaves the cache right iff it was and that value is the map's |
| `KeyCaches.WriteKeeps` | crates/volmount-core/src/btree/key_cache.rs:192-215 | after a key is written and dropped the cache is right iff it was for all other keys |
| `KeyCaches.Poisoned` | crates/volmount-core/src/btree/btree.rs:278-532 | a key written twice in a new tree and looked up once: from then on every lookup of it gives the first value, over any run that does not write it, while the map has the second |
| `LeafWalks.EntersAllIff` | crates/volmount-core/src/btree/iter.rs:160-238 | a scan from the least key enters every leaf exactly once, in routing order, iff in every inner node the first record is the least; else it enters fewer |
| `LeafWalks.ScanMeets` | crates/volmount-core/src/btree/iter.rs:160-238 | of the records of a key a scan meets those in the counted part of its leaf, in order, iff on the way to it no node has the record to follow before its least one; else none |
| `FullScans.ScanIsMap` | crates/volmount-core/src/btree/btree.rs:774-794 | in every tree: the records of a scan from the least key stand for the whole map iff, for an empty first leaf, the map is empty, and else every key is met and not veiled in its leaf, or not held; the same for a scan leaving out tombstones, with the condition on live records before a tombstone |
| `FullScans.ScanCompleteIff` | crates/volmount-core/src/btree/btree.rs:774-794 | with counters that count all records and a live key in every leaf, a scan stands for the map iff every inner node has its least record first |
| `FullScans.ScanOrdered` | crates/volmount-core/src/btree/iter.rs:667-741 | over sorted inner nodes a scan enters all leaves, and all records of a leaf come before those of the leaves behind it, compacted or not |
| `FullScans.RetainKeepsMapIff` | crates/volmount-core/src/btree/btree.rs:774-794 | leaving out tombstones keeps the map iff no key whose newest record is a tombstone has a live record |
| `FullScans.ForEach` | crates/volmount-core/src/btree/btree.rs:751-794 | the records visited are the live ones of the scan, and the exact condition under which they are the map, in every tree; with least records first, that the part read of each leaf lists what the leaf holds; over compacted nodes they are strictly in order |
| `FullScans.ListIff` | crates/volmount-core/src/btree/btree.rs:774-794 | if all leaves are entered, the records visited are the map iff in the part read of each leaf the last live record of a key the map has carries its value, and no key the map lacks has a live record there |
| `FullScans.DeletedIsListed` | crates/volmount-core/src/btree/btree.rs:774-794 | right after a delete by tombstone a full iteration still lists the key |
| `FullScans.ReroutedLeastIff` | crates/volmount-core/src/btree/btree.rs:1814-1886 | after a merge the first routing record is the least iff the merge did not make the least entry, or left no other |
| `FullScans.MergeFirst` | crates/volmount-core/src/btree/btree.rs:1320-1385 | merging the first of three or more children of the root, whenever it is underfull and fits its neighbour, keeps the map but makes scans meet the keys of the merged child only |
| `FullScans.ReinsertedIsVeiled` | crates/volmount-core/src/btree/btree.rs:381-408 | a key inserted again behind a tombstone the counter does not count is in the map but is not read |
| `FullScans.OverwrittenIsStale` | crates/volmount-core/src/btree/btree.rs:289-300 | after an overwrite in the same run the record an exact lookup lands on is still the old one |
| `OpenBuckets.OpenBucketPool.constructor` | crates/volmount-core/src/alloc/open_bucket.rs:150-180 | all 128 entries are on one acyclic freelist, all chains are empty, nothing is open |
| `OpenBuckets.OpenBucketPool.AllocLocked` | crates/volmount-core/src/alloc/open_bucket.rs:192-232 | fails iff all 128 entries are open; else opens exactly one entry that was not open |
| `OpenBuckets.OpenBucketPool.Put` | crates/volmount-core/src/alloc/open_bucket.rs:255-302 | closes that entry only, wherever it stands in its chain; a pool in order stays so iff the entry was open or the index is outside the pool; out of order, its freelist is circular; chains and open entries stay exact in any case |
| `OpenBuckets.OpenBucketPool.Lookup` | crates/volmount-core/src/alloc/open_bucket.rs:315-331 | finds an open entry with the key iff there is one |
| `OpenBuckets.OpenBucketPool.IncPin` | crates/volmount-core/src/alloc/open_bucket.rs:337-343 | adds one pin to that entry and changes no other |
| `OpenBuckets.OpenBucketPool.DecPinAndPut` | crates/volmount-core/src/alloc/open_bucket.rs:349-363 | drops one pin; the last one closes the entry |
| `OpenBuckets.OpenBucketPool.AddToPartial` | crates/volmount-core/src/alloc/open_bucket.rs:398-410 | lists an open entry once more and marks it; ignores others |
| `OpenBuckets.OpenBucketPool.TakeFromPartial` | crates/volmount-core/src/alloc/open_bucket.rs:416-437 | pops the newest listed entry that is open with space left, discarding only unusable ones, and pins it |
| `OpenBuckets.AllocKeepsPool` | crates/volmount-core/src/alloc/open_bucket.rs:192-232 | moving the freelist head to the front of its chain keeps freelist and chains exact |
| `OpenBuckets.PutKeepsPool` | crates/volmount-core/src/alloc/open_bucket.rs:255-302 | unlinking at any chain position and pushing on the freelist keeps freelist and chains exact |
| `OpenBuckets.FreeCounts` | crates/volmount-core/src/alloc/open_bucket.rs:192-232 | the freelist holds exactly as many entries as are not open |
| `OpenBuckets.DoublePutBreaks` | crates/volmount-core/src/alloc/open_bucket.rs:255-302 | putting any entry that is not open makes the freelist run in a circle through it: a walk along it never ends, and no list reads as a freelist any more |
| `Watermarks.ReservedBuckets` | crates/volmount-core/src/types.rs:287-311 | the accumulating fall-through is the sum of the shares of the level and those above it, capped below the total |
| `Watermarks.ReserveShrinks` | crates/volmount-core/src/types.rs:287-311 | the reserve never grows as the watermark rises and stays below the bucket total |
| `Watermarks.StackedValues` | crates/volmount-core/src/types.rs:287-311 | the reserve of each watermark in closed form |
| `Allocation.Allocator.constructor` | crates/volmount-core/src/alloc/mod.rs:230-292 | groups lie where the configuration puts them up to the last block; every bucket is free and on its group's stack |
| `Allocation.BucketsApart` | crates/volmount-core/src/alloc/mod.rs:230-292 | with a group size that is a multiple of 256 different buckets have different addresses and log indices |
| `Allocation.Allocator.StackPass` | crates/volmount-core/src/alloc/mod.rs:331-457 | takes the top of the stack of the first eligible group in turn; with the pool full, each stocked group loses one stack entry |
| `Allocation.Allocator.ScanPass` | crates/volmount-core/src/alloc/mod.rs:468-575 | takes the lowest free bucket of the first eligible group in turn; else changes nothing |
| `Allocation.Allocator.AllocateBucket` | crates/volmount-core/src/alloc/mod.rs:303-580 | succeeds iff the open pool has room and some group has more free buckets than reserve and open share; then one bucket that was free is in use under its next version, counted and logged, off its stack, named by one new open entry, its group keeps at least reserve and share, and the address was not live before and is now; else only stacks lose their tops, and only with a full pool |
| `Allocation.TurnRot` | crates/volmount-core/src/alloc/mod.rs:331-457 | going round from any start meets every group exactly once |
| `Allocation.PopSound` | crates/volmount-core/src/alloc/mod.rs:410-415 | an index popped and not given back still leaves stacks of free buckets only, each once |
| `Allocation.ClaimSound` | crates/volmount-core/src/alloc/mod.rs:331-457 | taking a free bucket under a new open entry keeps free-bucket counters, the block counter, stacks and one open entry per bucket |
| `Allocation.Allocator.PutOpen` | crates/volmount-core/src/alloc/mod.rs:672-687 | for an address in a bucket: its open entry goes, and nothing else changes; for one in no group nothing changes |
| `Allocation.Allocator.BucketFree` | crates/volmount-core/src/alloc/mod.rs:698-755 | for an address in a bucket that is not free: it waits for its discard under the next version, is logged so under the index of the address, no open entry names it, and nothing else changes; for one in a free bucket or in no group nothing changes |
| `Allocation.Allocator.DoTrim` | crates/volmount-core/src/alloc/mod.rs:768-825 | for an address in a bucket that waits for its discard: it is free at its version, on top of its stack, counted, and logged so, and nothing else changes; for any other address nothing changes |
| `Allocation.GivingBackIs` | crates/volmount-core/src/alloc/mod.rs:672-825 | what freeing, discarding and closing make of the allocator, bucket by bucket, whatever they are specified by |
| `Allocation.OwnIndexIff` | crates/volmount-core/src/alloc/mod.rs:723-747 | the address is logged under its own bucket's index iff offset of the group and offset in the bucket together stay below one bucket |
| `Allocation.LoggedIff` | crates/volmount-core/src/alloc/mod.rs:723-747 | from a log in order, right after a free or a completed discard the log still tells every bucket's state iff the address was logged under its own index |
| `Allocation.Allocator.AllocRead` | crates/volmount-core/src/alloc/mod.rs:1096-1154 | buckets free in memory take state and version from the log; stacks are exactly the free buckets, counters match |
| `Recovery.Do` | crates/volmount-core/src/alloc/mod.rs:303-825 | one step is what the specification allows for it, and keeps the allocator sound |
| `Recovery.Run` | crates/volmount-core/src/alloc/mod.rs:303-825 | every run of allocate, free, discard and put, in any order, is a sequence of specified steps and keeps the allocator sound; log and buckets agree if frees are logged under their own index |
| `Recovery.LoadRestores` | crates/volmount-core/src/alloc/mod.rs:1096-1154 | loading the log into a fresh allocator restores states, versions of buckets in use, counters, and stacks of exactly the free buckets iff the log tells every bucket |
| `Recovery.RecoversIff` | crates/volmount-core/src/alloc/mod.rs:723-747 | from a log in order, recovery right after one free or completed discard restores the allocator iff the address was logged under its own bucket's index |
| `Recovery.RunAndRecover` | crates/volmount-core/src/alloc/mod.rs:1096-1154 | after every run from an empty log recovery restores the state iff the log tells every bucket, which it does if every free and discard was logged under its own index; only the version of a free bucket restarts at 0 |
| `NodeCaches.NodeCache.Get` | crates/volmount-core/src/btree/cache.rs:569-571 | finds a node on whichever side it is |
| `NodeCaches.NodeCache.GetOrLoad` | crates/volmount-core/src/btree/cache.rs:246-324 | a hit marks and promotes the node only; a miss takes it in as the most recent clean node, evicting one node iff the clean side is full |
| `NodeCaches.NodeCache.EvictOneLeaf` | crates/volmount-core/src/btree/cache.rs:1539-1584 | evicts the least recently used unprotected leaf iff there is one |
| `NodeCaches.NodeCache.EnsureRoom` | crates/volmount-core/src/btree/cache.rs:1193-1238 | the eviction loop ends with room for one node; a protected or inner node goes only if no unprotected leaf exists, and then the oldest; unwritten nodes are untouched |
| `NodeCaches.NodeCache.LruPromote` | crates/volmount-core/src/btree/cache.rs:1588-1593 | the id moves to the back, the others keep their order |
| `NodeCaches.NodeCache.InsertClean` | crates/volmount-core/src/btree/cache.rs:1193-1238 | keeps the cache in order iff the id is dirty (then ignored) or new |
| `NodeCaches.NodeCache.MarkDirty` | crates/volmount-core/src/btree/cache.rs:329-357 | a clean node moves to the unwritten ones and leaves the queue; at the limit all dirty nodes are drained, below it none, and none is lost |
| `NodeCaches.NodeCache.InsertDirty` | crates/volmount-core/src/btree/cache.rs:1120-1149 | a new node is findable as unwritten; a dirty one is left as it was; all dirty nodes are drained exactly at the limit; keeps the cache in order iff the id is dirty, not pending, or the insert drains |
| `NodeCaches.NodeCache.AutoFlush` | crates/volmount-core/src/btree/cache.rs:1120-1149 | at the limit moves all dirty nodes to the drained ones, below it none, and loses none |
| `NodeCaches.NodeCache.Remove` | crates/volmount-core/src/btree/cache.rs:1241-1272 | returns the node from whichever side and takes it from there only |
| `NodeCaches.NodeCache.CannibalizePhase2` | crates/volmount-core/src/btree/cache.rs:766-784 | drains one dirty node, which stays findable; none only if none is dirty |
| `NodeCaches.NodeCache.FlushDirty` | crates/volmount-core/src/btree/cache.rs:370-403 | hands back every unwritten node exactly once, in non-decreasing level, and leaves none; the clean side is untouched |
| `NodeCaches.NodeCache.Shrink` | crates/volmount-core/src/btree/cache.rs:483-558 | with n the lesser of the target and what is above 64: of the n nodes used longest ago exactly those not used since the last scan, not pinned and not about to become reachable go, the unprotected others lose their mark, no other node changes and the queue keeps its order; the count returned is theirs |
| `NodeCaches.ScanKeeps` | crates/volmount-core/src/btree/cache.rs:483-558 | a clean node is dropped iff it was scanned, not used since the last scan, not pinned and not about to become reachable |
| `NodeCaches.TwiceQueued` | crates/volmount-core/src/btree/cache.rs:1200-1206 | promoting a queued id and appending it again queues it twice |
| `Nbd.BlockServer.HandleRead` | crates/volmount-nbd/src/server.rs:130-183 | fails iff a block touched cannot be read; else gives exactly the flat bytes of the range clipped to the export |
| `Nbd.BlockServer.HandleWrite` | crates/volmount-nbd/src/server.rs:185-239 | every byte of the flat device afterwards: new in the clipped range, 0 in the rest of a partly covered block whose read failed, else as before |
| `Nbd.BlockServer.HandleTrim` | crates/volmount-nbd/src/server.rs:241-253 | zeroes the range rounded outward to blocks, unclipped, and nothing else |
| `Nbd.Serve` | crates/volmount-nbd/src/server.rs:130-253 | any run of requests that needs no unreadable block gets the replies of one flat byte array and leaves its contents |
| `Nbd.WriteIsOverlay` | crates/volmount-nbd/src/server.rs:185-239 | read-modify-write over blocks is replacing a stretch of the flat array |
| `Nbd.TrimExactIff` | crates/volmount-nbd/src/server.rs:241-253 | on a device without zero bytes a trim zeroes exactly its range iff both ends are block-aligned |
| `Nbd.WriteExactIff` | crates/volmount-nbd/src/server.rs:185-239 | on a device without zero bytes a write replaces exactly its range iff every block it covers in part can be read |
| `SortIters.SortIter.Add` | crates/volmount-core/src/btree/io.rs:167-174 | empty ranges are left out, others appended |
| `SortIters.SortIter.AddAllBsets` | crates/volmount-core/src/btree/io.rs:177-185 | adds the range of every set that holds records |
| `SortIters.SortIter.SortInto` | crates/volmount-core/src/btree/io.rs:190-252 | corrupt input is reported before a byte is written; else the destination starts with the stable sort of all records, byte for byte, and its length is returned, or the destination is too small |
| `SortIters.SortIter.TotalKeys` | crates/volmount-core/src/btree/io.rs:255-274 | counts the records of all ranges going by their lengths alone, up to a zero length or the end of the buffer |
| `SortIters.HeadersAre` | crates/volmount-core/src/btree/io.rs:255-274 | what is counted are the records, if the input is well-formed; on corrupt input at most one more than those that lie inside the buffer |
| `SortIters.AllHeadersAre` | crates/volmount-core/src/btree/io.rs:255-274 | for well-formed sets the records counted are the records sorted |
| `SortIters.ParseConcat` | crates/volmount-core/src/btree/io.rs:190-252 | packed records written one after the other parse back to themselves |
| `SortIters.MergeParsesBack` | crates/volmount-core/src/btree/io.rs:190-252 | what a merge writes parses back to the stable sort of the concatenated records |
| `SortIters.SortRecords` | crates/volmount-core/src/btree/io.rs:190-252 | sorting offsets by the records they lead to sorts the records |
| `SortIters.SortThenCompact` | crates/volmount-core/src/btree/io.rs:549-611 | sorting a node's runs on read does not change what compaction makes of it |
| `WritePoints.WritePointPool.constructor` | crates/volmount-core/src/alloc/write_point.rs:210-233 | the number of slots is the one asked for, clamped to 1..32; no slot holds an identity |
| `WritePoints.WritePointPool.FindLru` | crates/volmount-core/src/alloc/write_point.rs:300-315 | the first of the active slots used longest ago |
| `WritePoints.WritePointPool.ResolveHashed` | crates/volmount-core/src/alloc/write_point.rs:260-290 | identities and active slots stay in one-to-one correspondence; with a strictly increasing clock the pool is an LRU list: the identity becomes the newest, and when full exactly the oldest goes |
| `WritePoints.WritePointPool.TryDecrease` | crates/volmount-core/src/alloc/write_point.rs:377-411 | gives up the last active slot iff space is too short for the points; its identity goes, its buckets are listed as partial if they have space, else put, whatever is listed; the pool of open buckets stays in order iff the full ones among them are open and listed once; the LRU order loses that identity only |
| `WritePoints.MatchedCount` | crates/volmount-core/src/alloc/write_point.rs:260-290 | there are as many identities as active slots |
| `WritePoints.Done` | crates/volmount-core/src/alloc/write_point.rs:134-158 | buckets short of a bucket's size are detached and listed as partial, the others stay with their free space added up |
| `WritePoints.DonePartitions` | crates/volmount-core/src/alloc/write_point.rs:134-158 | every bucket is either released or retained, never both, by its free space alone |
| `Reservations.ReservationTracker.Add` | crates/volmount-core/src/alloc/reservation.rs:160-214 | counter and reservation grow alike, by all, by what is left (Partial), or by nothing; only Nofail passes the budget |
| `Reservations.ReservationTracker.Get` | crates/volmount-core/src/alloc/reservation.rs:219-229 | succeeds iff nothing is needed, it fits, it must not fail, or a part will do and some is left; a new reservation holds all that is needed, or what is left, and the counter grew by it; on failure the counter is as before |
| `Reservations.ReservationTracker.Commit` | crates/volmount-core/src/alloc/reservation.rs:241-248 | counter and reservation shrink alike, by at most what is held |
| `Reservations.ReservationTracker.Put` | crates/volmount-core/src/alloc/reservation.rs:255-261 | all that is held goes back to the counter |
| `Reservations.StepConserves` | crates/volmount-core/src/alloc/reservation.rs:160-261 | each atomic operation of any thread, with any flag, keeps the counter equal to what is held and in flight |
| `Reservations.RunConserves` | crates/volmount-core/src/alloc/reservation.rs:160-261 | so in every state of every interleaving |
| `Reservations.NeverBelowZero` | crates/volmount-core/src/alloc/reservation.rs:160-261 | the counter never underflows, and no thread under way is stuck |
| `Reservations.RunWithinBudget` | crates/volmount-core/src/alloc/reservation.rs:160-214 | in every interleaving without flags what is granted never exceeds the budget |
| `Reservations.HeldWithinBudget` | crates/volmount-core/src/alloc/reservation.rs:160-248 | what the reservations own, less what a commit has taken already, never exceeds the budget; nor does what is held unless a commit is between its two writes |
| `Reservations.CommitOverruns` | crates/volmount-core/src/alloc/reservation.rs:160-248 | with any budget, a run without flags in which, during a commit, twice the budget is held |
| `Reservations.PartialOverruns` | crates/volmount-core/src/alloc/reservation.rs:160-214 | with any budget, two threads with Partial can between them hold twice the budget |
| `Reservations.OverrunIff` | crates/volmount-core/src/alloc/reservation.rs:160-214 | a single operation without Nofail exceeds the budget iff it refills a partial add and more was granted since than it saw |
| `Reservations.RunOrderly` | crates/volmount-core/src/alloc/reservation.rs:160-214 | in every run in which no add begins while a partial one is short and not yet refilled, partial adds too keep the budget |
| `Topology.ValidateTreeNode` | crates/volmount-core/src/btree/gc.rs:249-343 | accepts iff every child is cached, exactly one level lower, starts behind the sibling before it, leaves are inside their spans, and no node is reached twice; ends because levels fall |
| `Topology.SiblingsIncrease` | crates/volmount-core/src/btree/gc.rs:249-343 | in an accepted tree spans of all siblings are disjoint and increasing if those between them are not inverted |
| `Topology.SiblingsIncreaseIff` | crates/volmount-core/src/btree/gc.rs:249-343 | in an accepted tree recorded spans of all siblings are disjoint and increasing iff those are that have unset spans, and only unset ones, between them |
| `Topology.InvertedSpanHidesOverlap` | crates/volmount-core/src/btree/gc.rs:249-343 | a child that never got an entry, with its span still unset, hides that its neighbours overlap, and the tree is accepted |
| `Topology.CheckEntries` | crates/volmount-core/src/btree/gc.rs:204-247 | accepts iff the positions are strictly increasing |
| `Topology.CheckTopology` | crates/volmount-core/src/btree/gc.rs:204-247 | accepts iff every tree is in order, reaches no node twice, and shows strictly increasing positions |
| `GcSweep.Buckets.MarkKey` | crates/volmount-core/src/btree/gc.rs:566-598 | marks exactly the bucket whose index is the address divided by 256 |
| `GcSweep.Buckets.MarkAll` | crates/volmount-core/src/btree/gc.rs:640-683 | every bucket is marked as often as live values have its index |
| `GcSweep.Buckets.Sweep` | crates/volmount-core/src/btree/gc.rs:782-826 | exactly the used buckets whose index no raw value has, and those waiting for generations, become free; these are the reclaimed ones, in order; all others are untouched and those skipped are counted |
| `GcSweep.Collect` | crates/volmount-core/src/btree/gc.rs:640-826 | what mark and sweep together make of each bucket |
| `GcSweep.IndexInUse` | crates/volmount-core/src/btree/gc.rs:566-826 | afterwards a bucket is in use iff a raw value has its index; any other is free if some value has its index or it was in use or waiting for generations, else untouched; and what its version is |
| `GcSweep.InUseIff` | crates/volmount-core/src/btree/gc.rs:566-826 | afterwards a bucket is in use iff a raw address lies in it, not so far behind its start that the next index is taken for it, or before it, but not before the last multiple of 256 |
| `GcSweep.CollectsRightIff` | crates/volmount-core/src/btree/gc.rs:566-826 | the buckets in use are those some address lies in iff each bucket with an address in it is kept by a raw value in that sense, and each bucket kept has an address in it |
| `GcSweep.RawRightIff` | crates/volmount-core/src/btree/gc.rs:566-826 | with raw values only, the passes are right about a bucket, whatever they are, iff it starts at a multiple of 256 |
| `GcSweep.FirstBucketFreed` | crates/volmount-core/src/btree/gc.rs:566-826 | the first bucket behind the 8 reserved blocks, held by one raw value: freed, and the next one taken into use |
| `GcSweep.PlacesIncrease` | crates/volmount-core/src/alloc/mod.rs:972-987 | the indices handed to the passes increase with the groups' buckets, so no two buckets share one |
| `Layouts.IndexIff` | crates/volmount-core/src/alloc/mod.rs:723-747 | an address in a bucket has the bucket's index iff its offset there and that of the bucket's start together stay below 256; else it has the next one |

## Left out

- Btrees.Btree.Insert: does not model the retry protocol around write-blocked trees, the commit lock and interior-update bookkeeping, whose failures make the caller try again; the model is the sequential case in which they succeed. The same holds for `Delete`.
- Btrees.Btree.TryMergeNode: the three-to-two branches are modelled by what they come to, putting both nodes back.
- Btrees.Btree.AllocNode: addresses are unbounded; the 32-bit wrap-around of the address counter is not modelled. Nodes of one tree all stay cached, so reloading an evicted node as an empty one is not either.
- BtreeNodes.Insert: record bytes, the search array's contents, journal sequence numbers, minimum and maximum keys of a node and whiteout records are not modelled; sizes are. Nodes are values that each operation takes and gives back, under the unique ownership the source checks before every update.
- KeyCaches.CachedTree.Get: the cache is a map, as lookups and invalidation see it. Dirty entries written into the cache first and flushed later, the lookup that restarts a transaction, reuse of invalid slots, shrinking, and the lock of each entry are not modelled; nor are values of other types, which `get` passes over.
- BtreeIters.BtreeIter.Advance: the tree stands still while it is iterated; restarts on a changed tree, the journal overlay and filtering by snapshot (`peek_visible`) are not modelled.
- OpenBuckets.OpenBucketPool.Lookup: the hash of a bucket is any function into the slots.
- Allocation.Allocator.AllocateBucket: journal, bitmap and nocow filters, discard batching, the free-space tree and alternative allocation from partial open buckets are not modelled. Group size is a multiple of 256, without which buckets of neighbouring groups overlap.
- Recovery.RunAndRecover: the log is a map from index to the last entry; its encoding is not modelled.
- NodeCaches.NodeCache.EvictOneLeaf: the journal pin of the evicted node, counters, retired sizes and the reuse of freed nodes are not modelled. Which dirty node is drained first is left open, as the source's hash map leaves it.
- WritePoints.WritePointPool.ResolveHashed: the clock is a parameter. The system clock of the source may stand still or go back, and then the oldest slot is only the one with the smallest time. Preferred and dedicated write points are not modelled.
- Reservations.ReservationTracker.Add: the methods are the sequential case; all interleavings are the state machine's. The atomic counter does not wrap around.
- SortIters.SortIter.SortInto: the checks on a record set's header before reading and the rewriting of the node's set table after it are not modelled. The order of records is any rank function.
- Reservations.RunOrderly: the condition is sufficient, not necessary: a run that breaks it may still keep the budget. What a single operation does is characterised exactly by OverrunIff.
- Topology.CheckTopology: the entries that tree iteration shows are an input.
- GcSweep.Collect: without trigger registry. Stacks and counters of the allocator are not touched by a sweep and do not agree with it afterwards.
- Nbd.Serve: framing, handshake, options and failures of device writes are not modelled, nor is overflow of offset plus length.
- Locks, condition variables, prefetch threads, writeback, snapshots, files, the object store, the HTTP interface and the command line are not part of this model.
