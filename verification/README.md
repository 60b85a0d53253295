# PipeANN in Dafny

PipeANN is a graph-based vector store that keeps its index on SSD and updates it in place. This
project models the parts of it whose correctness is hard to see from the code, and proves what they
promise for every input, every run and every interleaving.

| files | part of the system |
|---|---|
| `PoolSpec`, `CandidatePool`, `VisitedSet`, `GreedySearch` | the bounded candidate pool, the open-addressing visited set and the greedy graph search that drives both |
| `Hardness`, `NgfixPass`, `PruneNeighbors`, `Consolidate` | graph maintenance: escape hardness, the edges that repair it, neighbour pruning, compaction after deletes |
| `LocAllocator` | record locations on SSD: reservation, reuse of pages, moving records |
| `LockTable`, `LockIdx`, `SpscRing` | concurrency protocols as state machines: the reference-counted lock table, the threads that use it, the lock-free rings |
| `RangeIndex`, `StringKeys`, `StringFiles`, `StringBuckets`, `StringIndex`, `StringLoad`, `StringLike`, `LikeMatch`, `IdMaps` | attribute indexes over ranges and strings, LIKE, and the renaming of ids when they merge |
| `SortedIds`, `Selector` | the algebra of AND, OR and NOT over indexes |
| `FilterExpr`, `FilterParser`, `FilterGrammar`, `FilterCompiler`, `FilterMeaning` | the filter language: parsing, compiling, meaning |
| `Hadamard` | the block Hadamard rotation of the RaBitQ quantizer |
| `Remainders`, `Powers`, `Bounds`, `Lists`, `Search` | division with remainder by a divisor that is not a constant, powers of two, minimum and maximum, lists as sets, binary search |

Code that changes things step by step is imperative here too: a class per object whose fields the
program updates, an array where it works in place, loops with invariants. Protocols that several
threads take part in are machines whose steps are the atomic actions of the code. Each method is
proved against a function or a relation, and the promises are lemmas about those.

## How the parts fit

**Pool and search.** `PoolSpec.InsertOne` says what one insertion does to a sorted bounded pool with
its two markers; `IsClosest` and `IsMerged` say, without mentioning any algorithm, what the pool is
after a set of candidates: the closest of all, and markers at the first new entry. `InsertAllMerges`
connects the two, `MergedUnique` shows the second has one solution, so insertion order does not
matter and the bulk merge (`CandidatePool.InsertBatch`) equals single insertion. `GreedySearch` runs
the pool and the visited set and reaches `IsSearchResult`, a statement about the graph alone.

**Graph maintenance.** `Hardness.Stage` is Warshall's recurrence; `StageIsPaths` turns it into paths
and `HardnessIsLeast` into the least rank bound. `NgfixPass` builds on that. `PruneNeighbors.Selection`
is the plain definition of the pruning rounds, which look at all pairs; the incremental factors of the
code select the same. `Consolidate` states the new graph, vectors and tags in terms of the old ones
and the live set.

**Locks.** A ticket stands for one request from the moment it is counted until it is uncounted. The
table invariant holds after every step of every run; `LockIdx` adds what a thread may do next and
derives that waiting never closes a circle and somebody can always go on.

**Filters.** An expression is written as tokens, parsed into a node, compiled into selectors and a
table of query values. The parser accepts exactly the written expressions (`ParsesIffWritten`), and
`FilterMeaning.CompileText` closes the chain: a text compiles exactly if it is an expression whose
literals convert, and the compiled filter accepts a stored record exactly when the expression holds of
the row. No leaf occurs twice in a compiled filter, so the theorems about scans (`NeverLosesIff`,
`NeverAddsIff`) apply to every compiled filter without an empty list.

## Where the code falls short of its promise

Each of these is kept as the code has it and bounded by the exact condition; where the condition does
not name the inputs itself, a lemma shows one.

- A duplicate handed to `insert` leaves the pool unchanged exactly when the pool is full; otherwise
  the size still grows by one and exposes the slot behind the last entry (`RejectedUnchangedIffFull`,
  `RejectedGrowsExample`).
- `like_match` decides LIKE for every pattern exactly when the subject has no percent sign, because
  it tries literal equality before the wildcard (`ExactIffPercentFree`, `PercentBreaks`).
- The NGFix pass starts from what is connected within ranks 0..Kh but works on 2 Nq nodes. That start
  is exact for the subgraph, and no picked edge is superfluous whatever the distances and however ties
  are broken, exactly when no connected pair among the first Nq needs a rank beyond Kh (`StartExactIff`,
  `NoneSuperfluousIff`); otherwise there is a metric under which every order of the candidates fails.
  The callers' Kh == Nq does not ensure the condition (`SuperfluousExample`). Every two of the first Nq
  nodes are connected in any case.
- Growing the location table to one and a half times the location makes room for it exactly from
  location two on (`GrownEnough`).
- A comparison compiled to an interval never accepts the largest 32-bit number, and agrees with the
  comparison on every other (`Interval`).
- A LIKE query that is looked up by its literal end bounds the scan of pending strings, which are
  sorted forwards, by that end read backwards. It overlooks exactly the pending matches outside that
  range (`PreFilterLike`), and every such string does get lost (`OverlookedRun`, `OverlookedExample`).
- The in-memory test for a prefix, which is there to have no false negatives, accepts a string inserted
  since the last merge exactly if the prefix does not lie beyond all strings of the file
  (`MayStartWith`): the range then starts one past the largest bucket number that an insertion gives.
  Stored strings are always accepted. `PendingRejected` is a run that fails.
- A scan of the indexes may skip branches of an AND, and a string equality answers with every string
  that starts with the query. Under NOT both lose members (`NotLosesMembers`); a scan for NOT equal loses
  exactly the strings that go on behind the query (`NotEqualLosesIff`, `ScanNotEqual`), and the in-memory
  test of NOT is built on such a scan. Provided that each leaf answers at least what it accepts, a scan
  never loses a member exactly when, in what it visits, both occur only under an even number of NOTs
  (`NeverLosesIff`), and never adds one exactly when they occur only under an odd number
  (`NeverAddsIff`).
- An empty id map passed to an index merge means the identity, so a merge after which nothing survives
  keeps everything. It keeps exactly the survivors exactly when there are some or nothing was stored
  (`KeepsSurvivorsIff`, `NoSurvivorStays`).

## Model

| member | source | states |
|---|---|---|
| `PoolSpec.InsertAllMerges` | include/candidate_pool.h:98-133 | inserting distinct new ids one at a time leaves the closest of old and new entries, up to the limit, with both markers at or before the first new entry |
| `PoolSpec.InsertAllKeeps` | include/candidate_pool.h:98-133 | any run of fresh insertions keeps the pool sorted, bounded, one entry per id, and nothing unexpanded or unread before the markers |
| `PoolSpec.ClosestUnique` | include/candidate_pool.h:98-133 | there is exactly one sorted list that holds the closest of a set of entries |
| `PoolSpec.MergedUnique` | include/candidate_pool.h:135-144 | contents, size and both markers of a merged pool are determined by the old pool and the set added |
| `PoolSpec.InsertOrderIrrelevant` | include/candidate_pool.h:135-144 | inserting any permutation of a batch gives the same pool and markers |
| `PoolSpec.RankUnique` | include/utils.h:424-435 | the insertion point of an entry under the (distance, id) order is unique |
| `CandidatePool.FreshNeverRejected` | include/candidate_pool.h:384-393 | an id that is not in the pool is never taken for a duplicate |
| `CandidatePool.RejectedUnchangedIffFull` | include/candidate_pool.h:120-126 | a rejected duplicate leaves the pool unchanged exactly when the pool is full |
| `CandidatePool.RejectedGrowsExample` | include/candidate_pool.h:120-126 | the same entry again, in a pool with room, makes the size two |
| `CandidatePool.RejectionPastTheEnd` | include/candidate_pool.h:98-103 | both rejection sentinels lie at or past the live end, and an accepted entry is at the returned position |
| `CandidatePool.InsertIntoPool` | include/candidate_pool.h:365-397 | the binary search puts the entry at its rank and shifts the rest, or reports a duplicate and changes nothing live |
| `CandidatePool.CandidatePool.constructor` | include/candidate_pool.h:55-61 | an empty pool with all slots at the largest float |
| `CandidatePool.CandidatePool.Insert` | include/candidate_pool.h:104-133 | pool, markers and returned index after any call, duplicates included; validity is kept for ids not in the pool |
| `CandidatePool.DropBeyondWorst` | include/candidate_pool.h:146-159 | exactly the candidates closer than the worst remain, in order |
| `CandidatePool.CutOffIrrelevant` | include/candidate_pool.h:146-159 | dropping them first does not change the merged pool |
| `CandidatePool.CoSort` | include/candidate_pool.h:165-176 | the parallel arrays are sorted together: same pairs, ascending |
| `CandidatePool.CandidatePool.Trim` | include/candidate_pool.h:179-189 | the two surviving prefixes fill the pool and everything cut is farther than everything kept |
| `CandidatePool.CutIsClosest` | include/candidate_pool.h:177-189 | the two surviving prefixes together are the closest of the union |
| `CandidatePool.CandidatePool.MergeDown` | include/candidate_pool.h:196-205 | placing from the top down, each segment moved once, leaves the sorted union and the place of the closest new entry |
| `CandidatePool.CandidatePool.InsertBatch` | include/candidate_pool.h:145-211 | contents, flags, size and both markers equal those of inserting the elements one at a time |
| `CandidatePool.CandidatePool.AllVisited` | include/candidate_pool.h:315-320 | true exactly when every entry is expanded; the marker is the first that is not |
| `CandidatePool.CandidatePool.NextUnvisited` | include/candidate_pool.h:301-310 | hands out the closest unexpanded entry of the whole pool and marks it, or reports that there is none |
| `CandidatePool.CandidatePool.NextCalcNbr` | include/candidate_pool.h:262-271 | hands out the closest unexpanded entry whose page is ready, although the scan starts at the marker; it is then expanded and no longer to be read |
| `CandidatePool.CandidatePool.AdvanceToFlagged` | include/candidate_pool.h:355-360 | the closest entry of the whole pool still flagged for a read |
| `CandidatePool.CandidatePool.Frontier` | include/candidate_pool.h:277-282 | both markers stand at the first unsettled entry of their kind |
| `VisitedSet.MaskIsRemainder` | include/utils/visited_set.h:75-79 | masking with a power of two minus one is the remainder |
| `VisitedSet.HasEmpty` | include/utils/visited_set.h:54-70 | a table with fewer keys than slots has an empty slot, so probing ends |
| `VisitedSet.MissedMeansAbsent` | include/utils/visited_set.h:54-70 | a probe that reaches an empty slot proves the key absent |
| `VisitedSet.StoreKeeps` | include/utils/visited_set.h:60-67 | storing at the first empty slot keeps every key reachable and adds exactly the key |
| `VisitedSet.Probe` | include/utils/visited_set.h:54-69 | stops at the key or at an empty slot of its path |
| `VisitedSet.FlatVisitedSet.constructor` | include/utils/visited_set.h:25-32 | an empty set with the smallest power of two from eight on that has the asked capacity |
| `VisitedSet.FlatVisitedSet.Clear` | include/utils/visited_set.h:34-40 | the empty set |
| `VisitedSet.FlatVisitedSet.Insert` | include/utils/visited_set.h:48-70 | a mathematical set: true exactly on new keys, the empty marker included; the table doubles exactly when a new key makes it more than half full |
| `VisitedSet.FlatVisitedSet.Grow` | include/utils/visited_set.h:81-95 | a table of twice the size with exactly the same keys |
| `GreedySearch.CollectUnseen` | src/index.cpp:122-138 | the neighbours not seen before, each once, in order; all neighbours recorded; stops on an id outside the index |
| `GreedySearch.BetweenStep` | src/index.cpp:116-154 | one expansion keeps: the pool is the closest of everything seen, and seen is the entry point with all neighbours of expanded nodes |
| `GreedySearch.AfterBounded` | src/index.cpp:116-154 | no run expands more nodes than the graph has |
| `GreedySearch.ResultAtEnd` | src/index.cpp:116-160 | when nothing is left to expand, the pool is the closest min(L, seen) of all ids seen and all of it was expanded |
| `GreedySearch.AfterGreedy` | src/index.cpp:116-154 | each node, when its turn came, was the closest unexpanded of the L closest of all ids seen by then, and is recorded with its distance |
| `GreedySearch.IterateToFixedPoint` | src/index.cpp:90-161 | ends on every graph with that result, the list of expanded nodes in that greedy order with their distances, and the hops and comparisons counted; or stops, and then some edge leaves the index |
| `GreedySearch.NoCloserNeighbour` | src/index.cpp:90-161 | a neighbour of a returned node that is not returned is farther than all of a full pool |
| `GreedySearch.UnfilledIsWholeComponent` | src/index.cpp:90-161 | a pool with room left is exactly what the entry point reaches |
| `Hardness.StageIsPaths` | src/index.cpp:816-831 | after pivot k, row i holds exactly the ends of paths whose inner ranks are below k |
| `Hardness.HardnessIsLeast` | src/index.cpp:779-780 | the entry is the least h such that the pair is connected within ranks 0..h, ends included, and infinite exactly when it is not connected |
| `Hardness.ThroughPivot` | src/index.cpp:818-830 | one row through one pivot, in place, with the entries of the pairs gained |
| `Hardness.WithinIsWalk` | src/index.cpp:795-814 | ranks 0..h connect two ranks of the subgraph exactly if a walk along the neighbour lists connects their ids through ids of those ranks only |
| `Hardness.InducedHardness` | src/index.cpp:779-831 | over ids: the entry is the least h such that a walk joins the two ids through the first h + 1 ids, and infinite exactly when none does through all of them |
| `Hardness.CalcHardness` | src/index.cpp:782-832 | fills every entry of the top pairs with that value, over the induced subgraph and over walks along the neighbour lists |
| `NgfixPass.PathCut` | src/index.cpp:873-877 | a path in a graph with one more edge avoids it or goes through it |
| `NgfixPass.WithReaches` | src/index.cpp:873-877 | reachability with one more edge, in terms of reachability without |
| `NgfixPass.ConnectedMeans` | src/index.cpp:843-847 | an entry at most Kh means that the first rank is at most Kh and reaches the second inside ranks 0..Kh, and the other way round |
| `NgfixPass.StartExactIff` | src/index.cpp:843-847 | the starting matrix is exact reachability in the induced subgraph if and only if no connected pair needs a rank beyond Kh |
| `NgfixPass.StartExactBelow` | src/index.cpp:843-847 | against the edges among ranks 0..Kh alone it is exact if and only if Nq is at most Kh + 1 |
| `NgfixPass.AllRanksSettled` | src/index.cpp:836-847 | if ranks 0..Kh are all there are, no connected pair needs a rank beyond Kh |
| `NgfixPass.PickExact` | src/index.cpp:873-877 | the row updates after a pick keep the matrix exact |
| `NgfixPass.SortByDistance` | src/index.cpp:864 | ascending distance, every candidate once |
| `NgfixPass.RunPicks` | src/index.cpp:867-878 | for every graph that the start is sound for, the picked edges connect all candidates in it, and none was implied when it was picked if the start is exact for it |
| `NgfixPass.Pass` | src/index.cpp:836-878 | the picks are those of a run over exactly the unconnected pairs, each once, in an order of ascending distance; with them every two of the first Nq ids are joined by a walk along neighbour lists and picks; none was implied by that subgraph if no connected pair needs a rank beyond Kh or there is none, and none by the edges among ranks 0..Kh if Nq is at most Kh + 1 |
| `NgfixPass.FixedOverIds` | src/index.cpp:836-878 | what the picks do to the subgraph they do to the ids: walks join every two of the first Nq, and no pick joins two that a walk joined before |
| `NgfixPass.SettledOverIds` | src/index.cpp:843-847 | no connected pair needs a rank beyond Kh exactly if whatever a walk joins a walk through the first Kh + 1 ids joins |
| `NgfixPass.NoneSuperfluousIff` | src/index.cpp:843-878 | for all metrics and all orders of ascending distance of exactly the unconnected pairs, no picked edge was implied by the subgraph and the edges before it, if and only if no connected pair needs a rank beyond Kh; if one does, some metric makes every order fail |
| `NgfixPass.SuperfluousExample` | src/index.cpp:843-878 | with Kh equal to Nq, a pair that is connected over a rank beyond Kh and whose edge is picked from every list of the candidates |
| `PruneNeighbors.SortPool` | include/utils/prune_neighbors.h:57 | ascending, the same entries as often, repeated ones included |
| `PruneNeighbors.Rounds` | include/utils/prune_neighbors.h:62-94 | the factors, raised step by step and capped at alpha, select what the plain rounds over all pairs select, counting equal entries once |
| `PruneNeighbors.SelectionOrder` | include/utils/prune_neighbors.h:62-94 | nothing is selected that something closer, selected before, occluded beyond alpha |
| `PruneNeighbors.SelectionMaximal` | include/utils/prune_neighbors.h:62-94 | with room left, whatever is not selected is occluded beyond alpha / 1.2 by something closer that is |
| `PruneNeighbors.ClosestSelected` | include/utils/prune_neighbors.h:65-94 | the closest entry is always selected |
| `PruneNeighbors.ChosenIs` | include/utils/prune_neighbors.h:62-100 | the list of the selected is strictly ascending, has one entry for each that was selected, fits R, repeats no id of a pool without repeated ids, and has both properties |
| `PruneNeighbors.Saturate` | include/utils/prune_neighbors.h:102-109 | behind the given ids, ids of the closest entries only, all of which are there, up to R or until every entry is there; no repetition is added |
| `PruneNeighbors.PruneNeighbors` | include/utils/prune_neighbors.h:45-110 | of the C closest entries, what the rounds select, closest first, and when saturating the closest of the rest behind it; at most R, nothing twice that was not, and with room left only what is occluded was dropped; an empty pool leaves the list alone |
| `PruneNeighbors.KeptAreClosest` | include/utils/prune_neighbors.h:56-60 | without repeated ids, the entries considered are the C closest of the pool |
| `PruneNeighbors.SaturatedSize` | include/utils/prune_neighbors.h:102-109 | without repeated ids, a saturated list has min(R, entries) ids |
| `Consolidate.NewIdOnto` | src/index.cpp:483-491 | the renumbering of live locations is onto 0..new_nd |
| `Consolidate.NewIdInjective` | src/index.cpp:483-491 | and gives different locations different numbers |
| `Consolidate.BuildIdMap` | src/index.cpp:485-491 | the map holds that renumbering and new_nd the number of live locations |
| `Consolidate.RepairedIs` | src/index.cpp:500-513 | the repaired neighbours are the live neighbours, and the live neighbours of deleted ones other than the node itself |
| `Consolidate.Repair` | src/index.cpp:500-515 | computes them, each once |
| `Consolidate.RepairedSame` | src/index.cpp:494-497 | rows rewritten by other iterations do not change what a live node's repair reads |
| `Consolidate.UpdateRows` | src/index.cpp:494-536 | every live row becomes the renumbering of its repair in the old graph, or, where that has more than R entries, of what neighbour pruning leaves of it at the distances from the node |
| `Consolidate.Compact` | src/index.cpp:538-547 | rows and vectors move down to their new places without overwriting one still to be moved |
| `Consolidate.RemapTags` | src/index.cpp:554-565 | the two new tag maps are inverse and hold every surviving tag |
| `Consolidate.MemIndex.LazyDelete` | src/index.cpp:715-729 | drops the tag, marks its location, keeps the two maps inverse, reports unknown tags |
| `Consolidate.MemIndex.ReserveFor` | src/index.cpp:648-675 | a reused tag moves to a new location and its old one is deleted; the maps stay inverse; a full index grows and every used row and vector stays in place |
| `Consolidate.MemIndex.Resize` | src/index.cpp:591-601 | more room, all rows and vectors in place, new rows empty |
| `Consolidate.MemIndex.Consolidate` | src/index.cpp:474-577 | each surviving tag keeps its vector, the maps are inverse on 0..new_nd, edges stay below new_nd, rows have at most R entries, are the whole image of the repair where that fits and of what pruning leaves of it where it does not, the rest is empty; the entry point follows its location or is drawn, and is a remaining location whenever there is one |
| `LockTable.Keeps` | include/utils/lock_table.h:31-162 | every step (pin, acquire, try, and the load, release and finish of an unlock) keeps the table invariant |
| `LockTable.EntryWhileCounted` | include/utils/lock_table.h:124-162 | in every state of every run an entry exists exactly while requests are under way, its count is their number, and the locks allocated are those of the entries |
| `LockTable.WriterExcludes` | include/utils/lock_table.h:31-79 | a writer excludes every other holder of the key |
| `LockTable.WaiterSafe` | include/utils/lock_table.h:145-158 | the pointer a waiter spins on is alive and is its key's lock, and its word lets it in exactly when no holder is in the way |
| `LockTable.FreedAtZero` | include/utils/lock_table.h:124-138 | a lock is freed only by the last request on its key, with its word back at zero, and an unlock never meets a count of zero |
| `LockIdx.Unique` | src/ssd_index.cpp:688-692 | of a sorted list, one of each, ascending |
| `LockIdx.MoveKeeps` | src/ssd_index.cpp:696-744 | every move of every thread keeps what each thread holds in step with where it stands |
| `LockIdx.AllOrNothing` | src/ssd_index.cpp:707-733 | when lock_idx returns, the thread holds every id of its list for writing and nothing else |
| `LockIdx.WaitDescends` | src/ssd_index.cpp:707-733 | whoever is waited for is nearer to going on than whoever waits |
| `LockIdx.NoCircularWait` | src/ssd_index.cpp:707-733 | chains of waiting threads are at most three long and never close |
| `LockIdx.SomeoneGoesOn` | src/ssd_index.cpp:707-733 | whenever a thread waits, with fewer requests under way than a lock word can count, some thread that waits for nobody has a move |
| `LocAllocator.PageIs` | include/ssd_index_defs.h:129-136 | the page of a location and the locations of a page are inverse |
| `LocAllocator.GrownEnough` | src/ssd_index.cpp:619-626 | the grown table holds the location exactly from location two on |
| `LocAllocator.Allocator.constructor` | include/ssd_index.h:75-88 | an aligned tail, and id and location tables inverse to each other |
| `LocAllocator.Allocator.SetLoc2id` | src/ssd_index.cpp:617-630 | writes one slot, grows if need be, leaves the others |
| `LocAllocator.Allocator.UseEmpty` | src/ssd_index.cpp:789-811 | takes slots of queued pages in order, some from each, and leaves a free slot only on the last and only when n are taken; the check for a page that is not empty never fires; queued pages stay free and queued once |
| `LocAllocator.Allocator.UseHints` | src/ssd_index.cpp:813-846 | takes free slots of hint pages at least half free and of no other, until n are taken or none of those pages has a free slot; records exactly the pages that held something |
| `LocAllocator.Allocator.UseTail` | src/ssd_index.cpp:848-861 | takes new slots at the tail, marks the rest of the last page free, leaves the tail page-aligned |
| `LocAllocator.Allocator.AllocLoc` | src/ssd_index.cpp:781-862 | exactly n distinct slots that were free or past the tail, nothing occupied touched, queued pages wholly free and queued once, tail aligned, and a page is to be read exactly if it gets a slot and held something; slots come from queued pages first, then from half-free hint pages, and the tail moves only when the queue is empty and no half-free hint page has a slot left |
| `LocAllocator.Allocator.EraseLoc2id` | src/ssd_index.cpp:633-650 | frees the slot and queues its page exactly if that leaves the page wholly free |
| `LocAllocator.Allocator.EraseAndSetLoc` | src/ssd_index.cpp:766-777 | new slots hold their ids, old ones are free, all others as before; the pages queued are exactly those left wholly free |
| `LocAllocator.MovedLinked` | src/ssd_index.cpp:864-895 | moving records keeps ids and locations inverse, the condition that verify_id2loc checks |
| `LocAllocator.AllocatedLinked` | src/ssd_index.cpp:864-895 | so does reserving slots |
| `LocAllocator.Allocator.Commit` | src/update/direct_insert.cpp:224-238 | the new record and its neighbours take the reserved slots, all others stay, ids and locations remain inverse |
| `SpscRing.Keeps` | include/utils/concurrent_queue.h:125-153 | every load, slot access and store of either side keeps the ring invariant |
| `SpscRing.WriteSafe` | include/utils/concurrent_queue.h:125-132 | the slot that is written holds nothing that may still be read |
| `SpscRing.Fifo` | include/utils/concurrent_queue.h:113-154 | in every interleaving the values consumed followed by the ring's contents are the values pushed, and the ring holds less than its size |
| `SpscRing.FailsIff` | include/utils/concurrent_queue.h:125-141 | a push fails exactly when the ring is full at the check, a pop exactly when it is empty |
| `SpscRing.EachGoesOn` | include/utils/concurrent_queue.h:125-153 | in every state of every run exactly one step of the producer and exactly one of the consumer can be taken, so no operation gets stuck |
| `SpscRing.PopTakes` | include/utils/concurrent_queue.h:134-153 | whatever is pushed meanwhile, pop ends with the oldest value and pop_all_fn with exactly the values the ring held when it looked |
| `SpscRing.FifoPerProducer` | include/utils/concurrent_queue.h:156-192 | with many rings, what the consumer took from a producer is a prefix of what that producer pushed |
| `RangeIndex.LowerBound` | include/filter/attribute.h:1176-1181 | the number of elements below a value, in a sorted list |
| `RangeIndex.SampledWindow` | include/filter/attribute.h:1174-1182 | the samples around a range cut out a window that contains every entry of the range |
| `RangeIndex.Sample` | include/filter/attribute.h:1066-1073 | one value from every stride-th entry, where the stride is one for small files and a number of whole sectors for others |
| `RangeIndex.SampledTight` | include/filter/attribute.h:1174-1182 | that window has less than one stride too much at either end |
| `RangeIndex.WindowMatches` | include/filter/attribute.h:1258-1266 | two searches within the window give exactly the entries of the range |
| `RangeIndex.RangeIndex.constructor` | include/filter/attribute.h:1107-1138 | the index agrees with the rows it is built from |
| `RangeIndex.RangeIndex.PreFilter` | include/filter/attribute.h:1235-1284 | strictly ascending, exactly the ids whose value lies in [l, r), pending inserts included |
| `RangeIndex.RangeIndex.Insert` | include/filter/attribute.h:1140-1158 | the id-to-value map with one more pair; a merge fires exactly when the pending entries reach four megabytes or an eighth of the file, and leaves nothing pending |
| `RangeIndex.MappedRepresents` | include/filter/attribute.h:1420-1442 | renaming the entries is renaming the map; ids without a new name are gone |
| `RangeIndex.RangeIndex.DoMerge` | include/filter/attribute.h:1401-1466 | the map under the id map, identity or injective onto 0..n, with nothing pending and a fresh sample |
| `IdMaps.KeepsSurvivorsIff` | include/filter/attribute.h:1420-1442 | a merge leaves exactly the survivors under their new ids if and only if there are some or nothing was stored |
| `IdMaps.NoSurvivorStays` | include/filter/attribute.h:1424-1426 | one stored vector, no survivor: it stays |
| `StringKeys.PrefixIsRange` | include/filter/attribute.h:57-68 | p is a prefix of s exactly when s lies between p and its successor, or at or above p when there is none |
| `StringKeys.NextPrefix` | include/filter/attribute.h:57-68 | computes that successor |
| `StringKeys.SuffixIsPrefix` | include/filter/attribute.h:51-55 | a suffix is a prefix of the reversed string |
| `StringKeys.ViewOfPacked` | include/filter/attribute.h:28-45 | unpacking a packed string gives it back |
| `StringFiles.ScanRange` | include/filter/attribute.h:1769-1794 | parsing the words between two entry starts visits exactly those entries and keeps the ids in range |
| `StringFiles.ByteRange` | include/filter/attribute.h:1797-1818 | the words from the sample below to one past the sample above contain every entry of the range, and less than one stride too much below it and two above |
| `StringFiles.Query` | include/filter/attribute.h:1824-1851 | strictly ascending, exactly the ids whose key starts with the query, pending ones included |
| `StringFiles.WriteSortedFile` | include/filter/attribute.h:1957-2010 | the file parses back to the sorted entries, every thousandth is sampled with its offset, and the header says how many entries there are and where the samples start |
| `StringLoad.LoadHeader` | include/filter/attribute.h:1596-1627 | reading the header of any file that was written gives what the writer had in memory, samples included |
| `StringLoad.LoadAttrs` | include/filter/attribute.h:1629-1651 | every id gets the key of its last entry, ids without one the empty string, and the table grows to the largest id and no further |
| `StringLoad.Reopen` | include/filter/attribute.h:1596-1651 | reopening an index gives back both files, every stored string under its id, and nothing else |
| `StringIndex.StringIndex.constructor` | include/filter/attribute.h:1581-1588 | both directions and both tables agree with the rows |
| `StringIndex.StringIndex.PreFilterPrefix` | include/filter/attribute.h:1824-1851 | exactly the ids whose string starts with the query, ascending |
| `StringIndex.StringIndex.PreFilterSuffix` | include/filter/attribute.h:1824-1851 | exactly the ids whose string ends with the query, ascending |
| `StringIndex.StringIndex.MayStartWith` | include/filter/attribute.h:1906-1919 | in every state of the index: a string with the prefix is accepted if and only if it is stored, there is no boundary, or the prefix does not lie beyond the last one |
| `StringIndex.StringIndex.MayEndWith` | include/filter/attribute.h:1906-1919 | in every state: a string with the suffix is accepted if it is stored or its id lies beyond the table |
| `StringIndex.PendingRejected` | include/filter/attribute.h:1946-1954 | any string of up to a million characters, inserted beyond the only stored one, is rejected when it is asked for |
| `StringIndex.ScanNotEqual` | include/filter/selector.h:539-668 | the scan for NOT equal over an index loses exactly the strings that go on behind the query |
| `StringIndex.StringIndex.Insert` | include/filter/attribute.h:1923-1937 | the id-to-string map with one more pair, in both directions, with its bucket for prefixes; a merge fires exactly when the pending bytes reach four megabytes and leaves nothing pending |
| `StringIndex.StringIndex.Merge` | include/filter/attribute.h:2088-2126 | the map under the id map, both files and both bucket tables made anew, nothing pending in either direction |
| `StringBuckets.BetweenBoundaries` | include/filter/attribute.h:2012-2025 | an entry lies between its own bucket's boundary and the next, for any number of entries |
| `StringBuckets.RebuildBuckets` | include/filter/attribute.h:2012-2025 | boundaries, and a bucket of one of its positions for every id, for any entries; an id without an entry gets bucket zero |
| `StringBuckets.IsMemberApprox` | include/filter/attribute.h:1906-1919 | true exactly when the bucket is one that the range touches, or there is nothing to go by |
| `StringBuckets.MayLieIff` | include/filter/attribute.h:1906-1919 | with a full set of boundaries, an id is accepted if and only if the boundary behind its bucket is not below the range and the one two before it is; everything else is rejected |
| `StringBuckets.NeverRejects` | include/filter/attribute.h:1906-1919 | no entry in the range is rejected, whatever the number of entries and duplicates |
| `StringBuckets.StoredAccepted` | include/filter/attribute.h:1906-1919 | every id that the table was laid out for and whose key starts with the query is accepted |
| `StringBuckets.EnsureBucket` | include/filter/attribute.h:1946-1954 | an inserted key gets the bucket of the last boundary at or below it, the table grows as needed, all other buckets stay |
| `StringBuckets.InsertedAcceptedIff` | include/filter/attribute.h:1906-1954 | an inserted key that starts with the query is accepted if and only if the query does not lie beyond the last boundary |
| `LikeMatch.LikeMatch` | include/filter/attribute.h:1533-1551 | the scan with one remembered star ends and equals the recursive meaning on subjects without a percent sign |
| `LikeMatch.ScanSound` | include/filter/attribute.h:1533-1551 | at every position the scan answers: the rest matches, or a later start of the remembered star does |
| `LikeMatch.PercentBreaks` | include/filter/attribute.h:1533-1551 | for every subject with a percent sign, a pattern that matches and is refused |
| `LikeMatch.ExactIffPercentFree` | include/filter/attribute.h:1533-1551 | the scan is exact for every pattern if and only if the subject has no percent sign |
| `StringLike.MatchInRange` | include/filter/attribute.h:1553-1574 | every match lies in the range of the pattern's literal start or end |
| `StringLike.MatchingStored` | include/filter/attribute.h:1853-1878 | the stored ids that match, exactly, although only part of the file is scanned |
| `StringLike.PreFilterLike` | include/filter/attribute.h:1853-1893 | ascending, exactly the ids that match but for the pending ones that the range of the wrong direction overlooks |
| `StringLike.OverlookedExample` | include/filter/attribute.h:1880-1888 | ab for the pattern _b, which stays a LIKE, lies outside the range |
| `StringLike.OverlookedRun` | include/filter/attribute.h:1880-1888 | every match outside the range, of up to a million characters, inserted into an empty index and asked for, is not found |
| `SortedIds.OrSortedUnique` | include/filter/filter_utils.h:9-35 | the union, ascending, each id once |
| `SortedIds.AndSortedUnique` | include/filter/filter_utils.h:41-58 | the intersection, ascending, each id once |
| `SortedIds.StrictUnique` | include/filter/filter_utils.h:9-58 | a strictly ascending list is determined by its members |
| `Selector.IsMember` | include/filter/selector.h:363-562 | the early exits compute the Boolean meaning of the tree |
| `Selector.Complement` | include/filter/selector.h:539-558 | the ids below n that the list leaves out, ascending |
| `Selector.PreFilter` | include/filter/selector.h:349-558 | ascending, what the merged answers of the leaves amount to, be they exact or wider; with exact answers a strict scan gives exactly the members below n |
| `Selector.StrictExact` | include/filter/selector.h:349-562 | a strict scan finds an id exactly if it is a member |
| `Selector.ScanBounds` | include/filter/selector.h:349-562 | where wide leaves and skipped branches occur only under an even number of NOTs they only add ids, under an odd number only lose them; branches that are not visited do not matter |
| `Selector.LooseSuperset` | include/filter/selector.h:349-485 | without NOT a scan finds every member, whatever it skips and however wide the leaves |
| `Selector.NeverLosesIff` | include/filter/selector.h:349-575 | for a tree without repeated leaves or empty OR: no member is lost, whatever the leaves test and however much more they answer, if and only if both occur only under an even number of NOTs |
| `Selector.NeverAddsIff` | include/filter/selector.h:349-575 | and nothing but members is found if and only if both occur only under an odd number |
| `Selector.NotLosesMembers` | include/filter/selector.h:539-575 | NOT over an AND with a skipped branch loses members |
| `Selector.NotEqualLosesIff` | include/filter/selector.h:539-668 | NOT over string equality loses, even in a strict scan, exactly the vectors whose string goes on behind the query |
| `FilterExpr.LikeRewriteKeeps` | include/filter/dsl_compiler.h:558-575 | LIKE rewritten to a prefix, a suffix or equality means the same on every stored string |
| `FilterParser.SqlParser.ParseOr` | include/filter/dsl_compiler.h:422-429 | the loop over OR, on any tokens, parses what the grammar says or fails with it |
| `FilterParser.SqlParser.ParseAnd` | include/filter/dsl_compiler.h:431-438 | the loop over AND likewise |
| `FilterParser.SqlParser.ParseList` | include/filter/dsl_compiler.h:454-469 | lists likewise |
| `FilterGrammar.LowerIff` | include/filter/dsl_compiler.h:292-295 | lower-casing gives a word exactly if each letter is the word's in either case |
| `FilterGrammar.LiteralIff` | include/filter/dsl_compiler.h:371-399 | a token is read as a value exactly if it writes that value: the number itself, the quoted string, a truth value in any case, a placeholder |
| `FilterGrammar.TakesIff` | include/filter/dsl_compiler.h:362-399 | what the parser takes for a word, a sign or a literal is what spells it |
| `FilterGrammar.CmpParses` | include/filter/dsl_compiler.h:471-591 | every comparison, written down anywhere with keywords in any case, parses to its node and stops behind it |
| `FilterGrammar.CmpReads` | include/filter/dsl_compiler.h:471-591 | whatever parses as a comparison is one, written down |
| `FilterGrammar.UnaryParses` | include/filter/dsl_compiler.h:440-452 | every NOT, group and comparison, written down anywhere, parses to its node and stops behind it |
| `FilterGrammar.OrReads` | include/filter/dsl_compiler.h:420-452 | whatever parses as an expression is one, written down, and the node is its node |
| `FilterGrammar.ParseWritten` | include/filter/dsl_compiler.h:420-599 | every text of an expression, with NOT over AND over OR, parses to the node of the expression |
| `FilterGrammar.ParseReads` | include/filter/dsl_compiler.h:420-599 | whatever the parser accepts is the text of an expression with that node |
| `FilterGrammar.ParsesIffWritten` | include/filter/dsl_compiler.h:420-599 | the parser accepts exactly the texts of expressions |
| `FilterGrammar.Unambiguous` | include/filter/dsl_compiler.h:420-599 | two readings of a text have the same node |
| `FilterCompiler.RecordsOf` | include/filter/selector.h:612-623 | walking the records of a query value gives the records appended |
| `FilterCompiler.Interval` | include/filter/dsl_compiler.h:170-187 | any set of comparators is one interval, exact on every number but the largest, which is never accepted |
| `FilterCompiler.LabelsDecide` | include/filter/selector.h:129-209 | the label leaves decide membership of any, and of all, on every stored label set |
| `FilterCompiler.StringsDecide` | include/filter/selector.h:670-681 | the string leaf decides equality with one of a list on every stored string |
| `FilterCompiler.PrefixDecides` | include/filter/selector.h:760-770 | the prefix leaf decides the prefix |
| `FilterCompiler.SuffixDecides` | include/filter/selector.h:829-839 | the suffix leaf decides the suffix |
| `FilterCompiler.LikeDecides` | include/filter/selector.h:904-916 | the LIKE leaf decides the pattern |
| `FilterCompiler.CompiledFilter.CompileClause` | include/filter/dsl_compiler.h:80-188 | succeeds exactly if no literal conversion fails, only appends slots, gives the leaf a slot of its own, and the leaf decides the condition on every value the field can store, unless a placeholder waits for its value |
| `FilterCompiler.CompiledFilter.CompileNode` | include/filter/dsl_compiler.h:190-237 | succeeds exactly if all parts do and no field is called like a connective, never overwrites a slot, never uses one twice, and the tree accepts a record exactly if the filter holds of its row, whatever slots are added later, provided that strings under a pattern have no percent sign |
| `FilterMeaning.CmpSays` | include/filter/dsl_compiler.h:471-591 | the node of a comparison says what the comparison says |
| `FilterMeaning.OrSays` | include/filter/dsl_compiler.h:420-452 | the node of an expression says what the expression says |
| `FilterMeaning.OrFits` | include/filter/dsl_compiler.h:80-188 | an expression whose fields are known and whose literals are of their kinds has a typed node |
| `FilterMeaning.TypedCompiles` | include/filter/dsl_compiler.h:80-237 | what is typed compiles |
| `FilterMeaning.CompileText` | include/filter/dsl_compiler.h:609-627 | a text compiles exactly if it is an expression whose parts compile, which all typed ones do; the result accepts a record exactly when the expression holds of the row in it, provided that strings under a pattern that stays a LIKE have no percent sign, and no leaf occurs twice |
| `Hadamard.EntrySum` | include/nbr/rabitq_quantizer.h:104-111 | the transform respects sums and differences |
| `Hadamard.EntryTwice` | include/nbr/rabitq_quantizer.h:104-111 | transforming twice multiplies by the length |
| `Hadamard.Butterflies` | include/nbr/rabitq_quantizer.h:104-111 | the three nested loops, in place, compute the Sylvester transform of the block and touch nothing else |
| `Hadamard.FwhtInPlace` | include/nbr/rabitq_quantizer.h:104-115 | the block transformed and scaled, the rest untouched |
| `Hadamard.FwhtTwice` | include/nbr/rabitq_quantizer.h:104-115 | with the scaling, the transform of a block undoes itself |
| `Hadamard.TransformBlocks` | include/nbr/rabitq_quantizer.h:120-126 | the greedy power-of-two blocks tile the vector and each is transformed |
| `Hadamard.TiledTwice` | include/nbr/rabitq_quantizer.h:120-126 | doing it twice is the identity at every dimension |
| `Hadamard.Transform` | include/nbr/rabitq_quantizer.h:116-130 | signs then blocks, or blocks then signs |
| `Hadamard.RotateThenBack` | include/nbr/rabitq_quantizer.h:116-130 | the inverse transform undoes the transform |
| `Hadamard.BackThenRotate` | include/nbr/rabitq_quantizer.h:116-130 | and the transform undoes the inverse |

## Modelling choices

- Distances are reals, ids and locations unbounded naturals below the 32-bit markers; the hash of the
  visited set wraps at 32 bits as in the code. Distances to the query, the occlusion factor, the
  square root of a power of two and the choice of a new entry point are parameters.
- The pool's callers pass ids that are not in the pool, as their visited sets ensure; what a
  duplicate does is modelled as well.
- Strings are byte strings without NUL and are compared up to their end; the comparison of packed
  words is taken as that comparison. Strings that a LIKE pattern is matched against have no percent
  sign; the LIKE query of the index asks this of all its strings.
- Inserted ids are new; the range index numbers them consecutively. A range query has l at most r. An
  id map gives the survivors new ids below their number, which is all that the indexes make room for.
- Locations are reserved for at least one record. The allocator has a positive number of records per
  page and at least two points; hint pages lie before the tail, and only occupied slots are erased,
  each once.
- In the filter language, literals that are not strings are at most the largest 32-bit number and
  stored scalars are below it. A typed expression has no placeholder, be it written as a word or as a
  quoted string that begins like one where a single literal stands, and no field called `$and`, `$or`
  or `$not`.
- The entry point drawn after a consolidation is one of the remaining locations; with none left the
  bounds of the draw wrap, and nothing is said about it.
- On the index lock table only `rdlock` and the try-lock loop of `lock_idx` are used; a thread calls
  `lock_idx` for writing when it holds nothing on that table, as the insertion path does.

## Left out

- Reading and writing files, io_uring and SPDK, page buffers and alignment: files are sequences of entries or words.
- The tokenizer of the filter parser, JSON text and its escaping, and the binding of placeholders to their empty slots.
- A field called `$not` in a schema with a field named like an operator, which the code reads as a negated filter on that field; here it is refused.
- The gRPC service, Python bindings, document store and command line.
- SIMD kernels, prefetching, floating-point rounding, and overflow of 32-bit location counters.
- Selectivity, precision and cost estimates, k-means training, scale calibration, adaptive beam width.
- In-memory membership tests of label and range indexes, the hashes for string equality, and the label index itself.
- `StringIndex.StringIndex.MayEndWith`: says nothing of a string inserted under an unused id within the table, whose bucket for suffixes is left over from before.
- Evicting NGFix edges, and the locks taken around the rows of the in-memory index.
- The ordered write locks on vectors and pages (`lock_vec`, `lockReqs`) and handing a page lock to the background writer.
- The scheduling of the rings of a multi-producer queue by its consumer.
- `Consolidate.MemIndex.ReserveFor`: needs the grown capacity to stay below the largest 32-bit number, because the code does not handle more.
- `LocAllocator.Allocator.AllocLoc`: does not model the build option that keeps original pages untouched.
