# A Dafny model of the flode/BwTree core

This project models the sequential core of a lock-free Bw-Tree written in C++.
In a Bw-Tree every logical page is named by a PID (page identifier). A mapping
table maps each PID to the head of an immutable delta chain. Writers never
change a node. They prepend a delta record (insert, delete, split) and swap the
table slot by compare-and-swap (CAS). Readers resolve a key newest record first.
Background maintenance consolidates a long chain into one sorted leaf, or splits
a large leaf at its median key. Replaced nodes are handed to an epoch-based
reclaimer, which frees them once no thread can still see them.

The model has these modules:

- `Keys` (keys.dfy): keys, PIDs, key/payload entries, and the sort by key that
  both page builders use.
- `Nodes` (nodes.dfy): the node kinds and their factories from nodes.hpp and
  bwtree.hpp, the inner- and leaf-page builders, and `freeNodeRecursively`.
  A chain is an inductive datatype whose delta constructors carry their origin.
- `Pages` (pages.dfy): what one page means. This covers the lower-bound
  `binarySearch`, the newest-first resolution of a key on one chain, the
  consolidation replay `createConsolidatedLeafPage`, and the median split. The
  reference meaning of a leaf chain is `Visible`: per key, the newest insert,
  delete or base record, with keys above the first split key moved away.
- `Traversal` (traversal.dfy): `findDataPage` as two nested step functions
  (`Visit`, `Walk`) over a snapshot of the table, including the PID stacks it
  keeps. `Route` is the same walk without the stacks.
- `TreeSpec` (tree_spec.dfy): each tree operation of bwtree.cpp as a function
  from one `TreeState` to the next. It holds the invariant `Good` and what
  insert, delete, search, split and consolidation guarantee.
- `BwTree` (tree.dfy): the `Tree` class of bwtree.hpp/bwtree.cpp. It has the
  mapping table as an array, the PID allocator, and the fixed array of nodes
  kept for deletion. Each method is proved equal to its `TreeSpec` function on
  `Abstract()`.
- `Epoch` (epoche.dfy): the reclamation scheme of epoche.cpp. It covers
  per-thread deletion lists of labels with a free list, a global epoch, and a
  cleanup that frees exactly the labels older than every thread's epoch.
- `Epoque` (epoque.dfy): the older ring of 40000 epochs of epoque.hpp. Each
  epoch has a reader count and ten deletion slots, and there is the
  `EnterEpoque` scope. A ghost multiset of open scopes carries the invariant that
  makes freeing safe.
- `EarlyTree` (early_tree.dfy): the first single-page tree of bwtree.h. Its
  root chain is specified by its contents, a map from keys to payloads.

CAS is a sequential conditional replace: the slot takes the new head exactly
when it still holds the observed one. The tree operations that publish take the
observed head as an argument, so the failure path stays part of the model.
Where the design of the tree goes further than bwtree.cpp, the model follows the
code. For example, no index record is posted to the parent after a split, and
`DeltaIndex` is never traversed. The exceptions are the defects listed under
"## Findings". Each has a member that models the code as written and shows the
defect. The tree operations themselves run the corrected behaviour:
- consolidation and split use no lower key filter;
- deleteKey accepts a split record;
- the early tree accepts a DeltaDelete head.
The lemmas about those operations hold of the corrected tree, and "## Left out"
names each member this concerns.

## Model

| member | source | states |
|---|---|---|
| Keys.FirstValueNone | bwtree.h:260-267 | the leftmost-match lookup finds nothing exactly when no entry carries the key |
| Keys.FirstValueFound | bwtree.h:260-267 | a found payload comes from an entry of the sequence with that key |
| Keys.PermutationKeepsFirstValue | bwtree.cpp:303-305 | reordering entries with distinct keys keeps the keys distinct and keeps every key's payload |
| Keys.SortedPermutationIsSpec | bwtree.cpp:303-305 | any key-sorted permutation of distinct-key entries is the one strictly sorted arrangement, with the same key-to-payload view |
| Keys.SortByKey | nodes.hpp:224-226 | after the sort the range is sorted by key and is a permutation of what was there |
| Nodes.GetType | nodes.hpp:27-29 | each type tag corresponds to exactly one node kind; a split record is tagged deltaSplit or deltaSplitInner by its leaf flag |
| Nodes.LeafCreate | nodes.hpp:61-69 | the leaf has the leaf tag, `size` records and the given prev and next |
| Nodes.InnerNodeCreate | nodes.hpp:91-99 | the inner page has the inner tag, `size` entries and the given prev and next |
| Nodes.CreateLeaf | bwtree.hpp:110-119 | same as Leaf::create with the arguments in the order (size, next, prev) |
| Nodes.CreateInnerNode | bwtree.hpp:98-107 | same as InnerNode::create with the arguments in the order (size, next, prev) |
| Nodes.DeltaInsertCreate | nodes.hpp:121-129 | deltaInsert tag; origin, record and keyExistedBefore stored as given |
| Nodes.DeltaDeleteCreate | nodes.hpp:142-149 | deltaDelete tag; origin and key stored as given |
| Nodes.DeltaSplitCreate | nodes.hpp:163-177 | tag deltaSplit for a leaf and deltaSplitInner otherwise; origin, key, sidelink and removedElements stored as given |
| Nodes.DeltaIndexCreate | nodes.hpp:192-202 | deltaIndex tag; both range keys, child and old child stored as given |
| Nodes.WithInfinitySorted | nodes.hpp:231-233 | raising the last separator to MaxKey keeps a sorted range sorted and of the same length, with MaxKey last |
| Nodes.CreateInnerNodeFromUnsorted | nodes.hpp:221-235 | the caller's range ends sorted by key and is a permutation of its old contents; the page holds that range, with MaxKey last when asked |
| Nodes.CreateLeafNodeFromSorted | nodes.hpp:239-248 | the leaf holds the range in order, with the given prev and next |
| Nodes.ChainNodesShape | nodes.hpp:260-284 | the nodes of a chain start at its head, each delta is followed by its origin, only the last is a base page, and there are Depth of them |
| Nodes.ChainNodesDistinct | nodes.hpp:260-284 | no node of a chain occurs twice, so each is released once |
| Nodes.FreeNodeRecursively | nodes.hpp:260-284 | the loop releases exactly the nodes of the chain, newest first, and stops after the base page |
| Pages.LowerBoundFromPartitions | bwtree.cpp:36-46 | on a sorted array, if the loop starts from a partition of smaller and not-smaller keys, it keeps that partition |
| Pages.LowerBoundPartitions | bwtree.cpp:30-48 | on a sorted array, every key before the result is smaller than `key` and every key from it on is not |
| Pages.LowerBoundFinds | bwtree.cpp:86-88 | on a sorted array, probing the lower bound finds exactly the leftmost entry for the key |
| Pages.BinarySearch | bwtree.cpp:30-48 | the loop returns the lower bound, at most the length, partitioning a sorted array around `key` |
| Pages.LookupMatchesVisible | bwtree.cpp:98-125 | on a well-formed leaf chain, search finds exactly what the chain holds: the newest insert or delete for the key decides, else the base leaf |
| Pages.LookupBelowStop | bwtree.cpp:116-125 | keys at or below every split key resolve on the chain's own origin as the chain holds them |
| Pages.ConsolidatedLeaf | bwtree.cpp:249-302 | consolidation yields a leaf exactly on chains of inserts, deletes and leaf splits over a leaf, and asserts otherwise |
| Pages.GatherRecordOK | bwtree.cpp:253-258 | one record step adds the record iff it passes the filter and its key is undecided; the gathered keys stay distinct and marked |
| Pages.GatherRecordsCorrect | bwtree.cpp:251-265 | the record loop over a base leaf keeps, per undecided key, its first admitted record, and leaves the links alone |
| Pages.GatherChainCorrect | bwtree.cpp:249-300 | the replay keeps, per undecided key above the filter, what the chain holds for it; prev comes from the base leaf, next from the newest split or the base |
| Pages.GatherChainDefined | bwtree.cpp:295-297 | the replay completes exactly on leaf chains |
| Pages.ConsolidatedLeafCorrect | bwtree.cpp:242-311 | the consolidated leaf is strictly sorted, holds one record per surviving key with its newest payload, and takes prev from the base and next from the newest split |
| Pages.LookupSortedLeaf | bwtree.cpp:81-96 | on a sorted leaf, search answers with the leftmost record for the key |
| Pages.ConsolidationPreservesLookup | bwtree.cpp:242-311 | consolidating a well-formed chain without a lower filter gives a well-formed leaf on which every key is found exactly as on the chain |
| Pages.DefaultConsolidationDropsKeyZero | bwtree.cpp:255 | with the default lower filter 0, a leaf holding key 0 consolidates to a leaf without it, although search finds it on the leaf |
| Pages.SplitRightHalf | bwtree.cpp:199-202 | the right page holds exactly the records after the median of the consolidated page, with its next |
| Pages.SplitPreservesLookup | bwtree.cpp:199-209 | the split record over the old chain answers keys up to the median as before and sends larger keys to the right page, which answers them as before; both are well formed |
| Pages.CreateConsolidatedLeafPage | bwtree.cpp:242-311 | the loop computes the consolidated leaf, which exists exactly for leaf chains |
| Pages.GatherLeafRecords | bwtree.cpp:253-259 | the for loop over a leaf's records computes the record-gathering function |
| Pages.BuildSortedLeaf | bwtree.cpp:302-309 | the new leaf holds the gathered records sorted by key, with the collected links |
| Traversal.Route | bwtree.cpp:57-133 | a route that arrives ends at a filled slot whose chain settles the key with the reported payload |
| Traversal.VisitAnswer | bwtree.cpp:51-135 | findDataPage's loops, with the stacks dropped, are the route from the page |
| Traversal.WalkAnswer | bwtree.cpp:66-132 | the inner loop over a chain resolves the key as the whole chain does and continues the route from there |
| Traversal.VisitRecords | bwtree.cpp:62-85 | a located result names the located page last on the visited-pages stack; the consolidation and split stacks are unset or earlier copies of it |
| Traversal.WalkRecords | bwtree.cpp:66-131 | the same for a walk that starts inside a chain |
| Traversal.RouteToReplaced | bwtree.cpp:147-148 | after the page a route reached is replaced by a chain that settles the key, the route reaches it again with the new answer |
| Traversal.RouteThroughRedirect | bwtree.cpp:116-121 | if that page instead redirects the key to a new page that settles it, the route arrives there one hop later |
| Traversal.RouteSameAnswer | bwtree.cpp:231 | replacing a chain by one that resolves the key the same way leaves every route for the key ending the same way |
| Traversal.RouteUnaffected | bwtree.cpp:57-133 | a route that never passes a page is unchanged when that page and empty slots are overwritten |
| Traversal.TrailDistinct | bwtree.cpp:57 | a route that arrives never enters the same page twice |
| Traversal.RouteWithinTable | bwtree.cpp:57-133 | a route that arrives at all arrives within as many hops as the table has slots |
| TreeSpec.FindLocated | bwtree.cpp:51-135 | on a good tree, a located page is a filled slot with a well-formed leaf chain that settles the key with the reported payload; it is on top of the visited stack and is reached by the route from the root |
| TreeSpec.AllocatedGood | bwtree.hpp:203-212 | newNode hands out the next PID, which was empty, and stores the node there; it fails exactly when the table is full; the tree stays good |
| TreeSpec.InsertedIntoGood | bwtree.cpp:147-148 | publishing a DeltaInsert over a head that settles the key keeps the tree good |
| TreeSpec.DeletedFromGood | bwtree.cpp:179-180 | publishing a DeltaDelete over a head that settles the key keeps the tree good |
| TreeSpec.SplitGood | bwtree.cpp:193-220 | splitLeafPage keeps the tree good |
| TreeSpec.ConsolidatedGood | bwtree.cpp:223-239 | consolidateLeafPage keeps the tree good |
| TreeSpec.MaintainedGood | bwtree.cpp:154-158 | the maintenance after a traversal keeps the tree good |
| TreeSpec.InsertedGood | bwtree.cpp:138-166 | insert keeps the tree good and never loses its CAS when run alone, so no retry happens |
| TreeSpec.DeletedGood | bwtree.cpp:170-190 | deleteKey keeps the tree good and completes unless the traversal is lost |
| TreeSpec.SearchedGood | bwtree.cpp:12-26 | search, with its maintenance, keeps the tree good |
| TreeSpec.SplitEffect | bwtree.cpp:193-209 | a split publishes the right page under the next PID and a split record for the median key over the old head; only a full table stops it |
| TreeSpec.SplitRouteKeepsFound | bwtree.cpp:116-121 | on tables: once the found key's page holds a split record and the right page fills an empty slot, the key is still found, at most one hop further |
| TreeSpec.SplitKeepsFound | bwtree.cpp:193-220 | splitting the page of a found key keeps it found with its payload; the split aborts only on a full table |
| TreeSpec.SplitWhenFullKeepsFound | bwtree.hpp:205-209 | with the table full, the split aborts and changes nothing |
| TreeSpec.SplitWithRoomKeepsFound | bwtree.cpp:199-209 | with room in the table, the split completes and the key stays found |
| TreeSpec.ConsolidatedKeepsFound | bwtree.cpp:223-239 | consolidating the page of a found key keeps it found; it aborts only on a full deletion array |
| TreeSpec.MaintainedKeepsFound | bwtree.cpp:20-24 | the maintenance after a traversal keeps a found key found, and aborts only for lack of room |
| TreeSpec.MaintainedFaults | bwtree.cpp:20-24 | the maintenance aborts only for lack of room or of records to split |
| TreeSpec.SearchedReadsRoute | bwtree.cpp:12-26 | search answers what the route from the root finds; a lost route aborts search, and any other abort is for lack of room |
| TreeSpec.SearchFindsPresent | bwtree.cpp:12-26 | searching a present key reports its payload (unless an array is full), and the key stays found |
| TreeSpec.InsertPublishes | bwtree.cpp:147-148 | the published insert makes the route from the root find the new payload on the located page |
| TreeSpec.InsertThenSearch | bwtree.cpp:138-166 | after insert the key is found with the new payload, and search reports it unless its maintenance finds an array full |
| TreeSpec.InsertedIntoKeepsOtherKeys | bwtree.cpp:147-148 | publishing the insert changes the answer for no other key |
| TreeSpec.MaintainedTouchesTop | bwtree.cpp:193-239 | split and consolidation rewrite only the page on top of the stack, besides filling the empty slot of the new right page |
| TreeSpec.MaintainedKeepsOtherPages | bwtree.cpp:193-239 | a key whose route from the root never passes the maintained page keeps the same route, page and answer |
| TreeSpec.InsertedKeepsOtherPages | bwtree.cpp:138-166 | insert, maintenance included, keeps the route, page and answer of every key whose route does not pass the page it wrote |
| TreeSpec.SearchedKeepsOtherPages | bwtree.cpp:12-26 | search, maintenance included, keeps the route, page and answer of every key whose route does not pass the page it located |
| TreeSpec.DeleteThenSearch | bwtree.cpp:170-190 | after deleteKey the key resolves as absent, and search does not report it |
| TreeSpec.DeletedFromKeepsOtherKeys | bwtree.cpp:179-180 | delete changes the answer for no other key |
| TreeSpec.DeleteAbsentKeyIsNoOp | bwtree.cpp:172-174 | deleting an absent key changes nothing |
| TreeSpec.SplitCollisionRestoresTable | bwtree.cpp:209-216 | a split that loses its CAS leaves the table as it was before the right page was published (the PID stays used) |
| TreeSpec.ConsolidationPublishedEffect | bwtree.cpp:231-238 | a lost CAS changes nothing; a won CAS installs the new leaf and keeps the old head for deletion, or aborts on a full array |
| TreeSpec.InitialGood | bwtree.hpp:236-242 | the initial tree is good |
| TreeSpec.InitialRoutes | bwtree.hpp:236-242 | initially every key goes from the root to the empty leaf at PID 0, where it is absent |
| TreeSpec.DeleteOnSplitPageAborts | bwtree.cpp:175-189 | as written, deleteKey aborts on a present key whose page head is a split record; with the split record accepted, the delete is published |
| BwTree.ReleasedBelowExactly | bwtree.cpp:314-341 | the destructor releases every node of every chain handed out, and nothing else |
| BwTree.Tree.constructor | bwtree.hpp:236-242 | the new tree is valid and is the initial state: an empty leaf at PID 0 and the root at PID 1 with the one separator MaxKey pointing to it |
| BwTree.Tree.NewNode | bwtree.hpp:203-212 | the method computes the allocation function, which fails exactly on a full table |
| BwTree.Tree.PIDToNodePtr | bwtree.hpp:199-201 | returns the slot's current content and changes nothing |
| BwTree.Tree.CompareExchange | bwtree.cpp:148 | succeeds exactly when the slot holds the expected head, and then writes only that slot |
| BwTree.Tree.FindDataPage | bwtree.cpp:51-135 | the two loops compute the findDataPage function on the current table |
| BwTree.Tree.Search | bwtree.cpp:12-26 | the new state and the reply are those of the search function |
| BwTree.Tree.Insert | bwtree.cpp:138-166 | the new state and the status are those of the insert function |
| BwTree.Tree.InsertInto | bwtree.cpp:140-164 | after the traversal: the conditional DeltaInsert, then the maintenance once it is published |
| BwTree.Tree.DeleteKey | bwtree.cpp:170-190 | the new state and the status are those of the delete function; only the mapping table changes |
| BwTree.Tree.DeleteFrom | bwtree.cpp:172-189 | after the traversal: nothing for an absent key, else the conditional DeltaDelete |
| BwTree.Tree.Maintain | bwtree.cpp:154-158 | a split if one was asked for, else a consolidation, as the maintenance function says |
| BwTree.Tree.SplitLeafPage | bwtree.cpp:193-220 | the method computes the split function |
| BwTree.Tree.PublishSplit | bwtree.cpp:209-219 | a won CAS installs the split record; a lost one clears the right page's slot |
| BwTree.Tree.ConsolidatePage | bwtree.hpp:219-221 | forwards to consolidateLeafPage |
| BwTree.Tree.ConsolidateLeafPage | bwtree.cpp:223-239 | the method computes the consolidation function |
| BwTree.Tree.PublishConsolidation | bwtree.cpp:231-238 | the CAS of consolidation; on success the old head is marked for deletion |
| BwTree.Tree.MarkForDeletion | bwtree.cpp:344-349 | appends to the deletion array, and aborts when it is full |
| BwTree.Tree.Release | bwtree.cpp:314-341 | the released nodes are the chains of all PIDs handed out, slot by slot, each newest first |
| Epoch.PendingEmpty | epoche.cpp:89 | in a list whose labels are never empty, no node is waiting exactly when no label is listed |
| Epoch.AddedKeepsNodes | epoche.cpp:40-61 | add puts exactly one more node in the list |
| Epoch.AddedKeepsBounds | epoche.cpp:43-58 | after add, the head label is stamped with the thread's epoch, and every label holds between 1 and labelSize nodes |
| Epoch.RemovedPending | epoche.cpp:25-37 | unlinking a label takes exactly its nodes out of the waiting count |
| Epoch.CleanupSeparates | epoche.cpp:107-114 | every kept label is stamped at least the oldest epoch, and every freed one earlier |
| Epoch.CleanupPartitions | epoche.cpp:103-116 | kept and freed labels together are the labels there were |
| Epoch.CleanupKeepsNodes | epoche.cpp:103-116 | kept and freed labels together hold exactly the nodes that were waiting |
| Epoch.OldestIsMinimum | epoche.cpp:95-101 | the oldest epoch is at most every thread's epoch, and is one of them unless it is the maximum value |
| Epoch.FreedBeforeEveryThread | epoche.cpp:95-111 | every label a cleanup frees was stamped before the epoch of every thread |
| Epoch.DeletionList.Size | epoche.cpp:19-22 | the count is the number of waiting nodes, and it is zero exactly for an empty list |
| Epoch.DeletionList.Head | epoche.cpp:63-66 | returns the newest label, or none for an empty list |
| Epoch.DeletionList.Add | epoche.cpp:39-61 | the list becomes the add function of the old list; `added` grows by one; a label is allocated only when no label has room and the free list is empty |
| Epoch.DeletionList.Remove | epoche.cpp:24-37 | the label is unlinked and pushed on the free list, and `deleted` grows by its node count |
| Epoch.DeletionList.Destruct | epoche.cpp:7-17 | the assertion holds exactly for an empty list; every recycled label is released |
| Epoch.Epoche.Local | epoche.cpp:152-154 | a thread's first use adds a fresh empty list for it |
| Epoch.Epoche.EnterEpoche | epoche.cpp:68-74 | the thread's list takes the global epoch; its labels, free list, counts and threshold counter are unchanged |
| Epoch.Epoche.MarkNodeForDeletion | epoche.cpp:76-80 | add under the thread's epoch: one more node added and none deleted, a label allocated only when none is free, and the threshold counter grows by one |
| Epoch.Epoche.ExitEpocheAndCleanup | epoche.cpp:82-119 | the global epoch advances exactly when the counter is a multiple of 64; below the threshold nothing else changes, above it the list is cleaned |
| Epoch.Epoche.Cleanup | epoche.cpp:88-118 | an empty list only resets the counter; otherwise the thread leaves its epoch and exactly the labels older than every thread's epoch are freed, the rest kept in order |
| Epoch.Epoche.OldestEpoche | epoche.cpp:95-101 | the scan returns the minimum epoch over all threads, or the maximum value |
| Epoch.Epoche.ScanLabels | epoche.cpp:103-116 | the list keeps the labels not older than `oldest` in their order, the freed nodes are those of the older ones, and `deleted` counts them |
| Epoch.Epoche.Destruct | epoche.cpp:121-143 | every list ends empty, every waiting node is released, and the assertion holds iff every label was older than the oldest epoch |
| Epoch.Epoche.DrainLists | epoche.cpp:130-142 | each list in turn is drained; the released nodes are all waiting nodes, list by list |
| Epoch.Epoche.DrainList | epoche.cpp:131-141 | one list is drained from its head; the assertion holds iff all its labels are older |
| Epoch.ThreadInfo.constructor | epoche.cpp:152-154 | the handle refers to the Epoche and to a new empty list of its own |
| Epoch.ThreadInfo.Destruct | epoche.cpp:166-169 | the thread's epoch becomes the maximum value and its labels stay |
| Epoque.ScanEndStops | epoque.hpp:68-79 | the scan ends between its start and `e`, at `e` or at an epoch with readers, and every epoch it passes has none |
| Epoque.CollectedFromQuiet | epoque.hpp:70-75 | every collected node was marked in a passed epoch without readers |
| Epoque.JoinKeepsCounts | epoque.hpp:97-99 | a reader joining an epoch keeps every reader count equal to the scopes open in it |
| Epoque.LeaveKeepsCounts | epoque.hpp:64-65 | a leaving reader's epoch has a reader to lose, and the counts stay matched |
| Epoque.AdvanceKeepsWindow | epoque.hpp:101-108 | a newly opened epoch has no open scope, and all open scopes stay in the window from oldest to newest |
| Epoque.LeaveKeepsWindow | epoque.hpp:64-65 | fewer open scopes stay in the window |
| Epoque.ScanKeepsWindow | epoque.hpp:67-86 | after the oldest epoch moves to where the scan stopped, all open scopes are still in the window, and no freed epoch is open or is the newest |
| Epoque.Epoque.constructor | epoque.hpp:19-22 | epoch 0 is newest and oldest, with no readers and no marked nodes |
| Epoque.Epoque.EnterEpoque | epoque.hpp:90-110 | join the newest epoch if nothing is marked in it, else open the next one with one reader and empty slots; the returned epoch is newest and its scope is open |
| Epoque.Epoque.JoinNewest | epoque.hpp:97-100 | the newest epoch gains a reader and is returned |
| Epoque.Epoque.OpenNext | epoque.hpp:101-109 | the next epoch becomes newest with one reader and no marked nodes |
| Epoque.Epoque.MarkForDeletion | epoque.hpp:51-59 | the node is appended to the newest epoch's slots, and no other epoch's slots change |
| Epoque.Epoque.LeaveEpoque | epoque.hpp:61-88 | one reader leaves; the last one triggers the scan, which moves the oldest epoch and frees the collected nodes; no open scope's epoch and not the newest is freed |
| Epoque.Epoque.Release | epoque.hpp:63-66 | the open count and the epoch's reader count drop by one |
| Epoque.Epoque.FreeQuietEpochs | epoque.hpp:67-86 | the oldest epoch moves to where the scan stopped, the collected nodes are freed, and the freed epochs are safe |
| Epoque.Epoque.Scan | epoque.hpp:68-79 | the loops compute where the scan stops and which nodes it collects |
| Epoque.EnterEpoque.constructor | epoque.hpp:37-39 | the scope enters the newest epoch and holds it |
| Epoque.EnterEpoque.Destruct | epoque.hpp:41-43 | the scope leaves exactly the epoch it entered |
| EarlyTree.LeafScanMatchesContents | bwtree.h:258-267 | the first record with the key is what the leaf's contents map holds |
| EarlyTree.ChainSearchMatchesContents | bwtree.h:250-293 | the newest-first walk finds exactly what the chain's contents hold for the key |
| EarlyTree.InsertStep | bwtree.h:185-200 | on a record chain, insert returns a record chain whose contents map the key to the record, and nothing else changes |
| EarlyTree.DeleteStep | bwtree.h:220-234 | on a record chain, deleteKey returns a record chain whose contents lose the key, and nothing else changes |
| EarlyTree.StepsAgreeWhereWrittenReturns | bwtree.h:185-211 | the corrected switch agrees with the written one wherever that one returns; the written insert loops exactly on heads other than a leaf or DeltaInsert |
| EarlyTree.InsertAfterDeleteSpins | bwtree.h:207-211 | as written, after one deleteKey every insert and deleteKey loops for ever; the corrected insert completes and search finds the record |
| EarlyTree.Tree.constructor | bwtree.h:169-175 | the root is PID 0, holding an empty leaf with empty contents; all other slots are empty |
| EarlyTree.Tree.NewNode | bwtree.h:149-162 | the node goes to the next PID, which is returned; a full table returns none and changes nothing |
| EarlyTree.Tree.CompareExchange | bwtree.h:194 | succeeds exactly when the slot holds the expected head, and then writes only that slot |
| EarlyTree.Tree.Insert | bwtree.h:181-214 | the root head becomes a DeltaInsert over the old head; the key maps to the record and other keys keep their values; only the root slot changes |
| EarlyTree.Tree.DeleteKey | bwtree.h:216-248 | the root head becomes a DeltaDelete over the old head; the key is gone and other keys keep their values; only the root slot changes |
| EarlyTree.Tree.Search | bwtree.h:250-293 | the loop answers the newest-first walk, which is what the contents hold for the key |
| EarlyTree.ScanLeaf | bwtree.h:260-267 | the loop finds a record iff one has the key, and then the payload of the first such record |

## Left out

- Concurrency: interleavings, linearizability, memory ordering and lock freedom are not modelled. Atomics and the mutex of epoque.hpp are plain fields. CAS is a sequential conditional replace, and `compare_exchange_weak`'s spurious failure is not modelled.
- The retry after a lost CAS (`insert` and `deleteKey` call themselves again) is not modelled. The methods report `Collided`, and a lemma shows that a single thread never collides.
- Memory management: `malloc`/`operator new`, `free`, `static_cast` dispatch and the leak of `tempNode` in `splitLeafPage` are not modelled. Freeing is modelled as returning the nodes released.
- Output and counters: the `debugTMPCheck` print, `showDeleteRatio`, the prints of epoque.hpp, and the counters `atomicCollisions`, `failedSplit`, `successfulSplit` and the like are not modelled.
- `exit(1)` on a full table becomes a `TableFull` abort in bwtree.cpp's tree, and a `None` PID in bwtree.h's tree. Each `assert(false)` becomes an `Aborted` status or a precondition. The exception is deleteKey's on a split head (bwtree.cpp:189): the tree accepts that head, as listed under BwTree.Tree.DeleteFrom below.
- `DeltaIndex` routing and inner-page splits are not implemented in bwtree.cpp, and so not modelled. Neither is a parent index update after a split, which the code does not do.
- BwTree.Tree.FindDataPage: the source loop has no bound. The model spends one unit of fuel per page visited, 2049 from the root, and reports running out as a fault. A lemma shows that a route that arrives at all needs at most 2048 hops.
- `settings.SplitLeafPage` is used by bwtree.cpp but not declared in bwtree.hpp. Both thresholds come in as a `Settings` value.
- The declarations of `DeletionList`, `LabelDelete`, `Epoche` and `ThreadInfo` are not part of this model's sources. Their initial values (empty lists, zero counters) are assumed, and their constructors have no source rows.
- The thread-local container `deletionLists` is a sequence of per-thread lists; thread identity is not modelled.
- Linked lists of labels are sequences that the methods reassign; the `next` pointer surgery is not modelled.
- Epoch counters are unbounded naturals, so the 64-bit wrap of `currentEpoche` is not modelled. `thresholdCounter & 63` is written `% 64`, which agrees with it on naturals.
- Epoque.Epoque.LeaveEpoque: requires the epoch to have an open scope, so the unsigned wrap-around of a reader count that is already zero is not modelled.
- Epoque.Epoque.EnterEpoque: the asserts on more than 100 open scopes and on the ring wrapping onto the oldest epoch become a precondition (`CanEnter`).
- Epoque.Epoque.MarkForDeletion: the assert on an eleventh node in one epoch becomes a precondition.
- The uninitialised slots of the epoch arrays start as zeros and as an empty leaf.
- The CAS of `oldestEpoque` in `leaveEpoque` always succeeds under the mutex, so the `failed` branch is not modelled.
- bwtree.h: `insert`, `deleteKey` and `search` loop for ever on an inner page. The model's chains there never contain one, so this path is not modelled.
- bwtree.h: the prev and next links of the first leaf are left unset in the source, so the model leaves them arbitrary. `keyExistedBefore` of a DeltaInsert is stored as false.
- main.cpp and main.hpp are the test driver and are not modelled.
- Pages.SplitRightHalf: proved of the median of the unfiltered consolidation. bwtree.cpp:199 takes the median of the consolidation with the default filter 0 (bwtree.hpp:225), which differs when the page holds key 0 (first row of Findings).
- Pages.SplitPreservesLookup: proved of the split at the unfiltered median, not at bwtree.cpp:199's filter-0 median (first row of Findings).
- TreeSpec.SplitEffect: the split key is the median of the unfiltered consolidation, not bwtree.cpp:199's filter-0 median (first row of Findings).
- TreeSpec.SplitKeepsFound: holds of the corrected split. With the source's filter 0, a page holding key 0 is split at another median, and key 0 can be lost (first row of Findings).
- TreeSpec.SplitWithRoomKeepsFound: holds of the corrected split only, as for TreeSpec.SplitKeepsFound.
- TreeSpec.ConsolidatedKeepsFound: holds of the corrected consolidation only. bwtree.cpp:227 with the default filter 0 drops a found key 0 (first row of Findings).
- TreeSpec.MaintainedKeepsFound: holds of the corrected split and consolidation only, so it fails for key 0 in the source (first row of Findings).
- TreeSpec.SearchFindsPresent: holds of the corrected maintenance. In the source, a search that consolidates a page holding key 0 leaves key 0 absent (first row of Findings).
- TreeSpec.InsertThenSearch: holds of the corrected maintenance. In the source, inserting 0 into a page that is then consolidated leaves key 0 absent (first row of Findings).
- TreeSpec.DeletedGood: "completes unless the traversal is lost" holds of the corrected delete, which accepts a split head. bwtree.cpp:189 reaches `assert(false)` there (second row of Findings).
- TreeSpec.MaintainedKeepsOtherPages: covers keys whose route avoids the maintained page, and MaintainedKeepsFound covers the found keys on it. Two other kinds of key are not covered:
  - a key that is absent on the maintained page;
  - a key that passes the page through a sidelink or a leaf's `next` link (bwtree.cpp:90-93).
  Consolidation can send such a key on through the new leaf's `next` link. Showing that it still ends absent needs an invariant on the key ranges of sibling pages, which the model does not state.
- TreeSpec.InsertedKeepsOtherPages: the same limit as TreeSpec.MaintainedKeepsOtherPages applies to insert's maintenance.
- TreeSpec.SearchedKeepsOtherPages: the same limit as TreeSpec.MaintainedKeepsOtherPages applies to search's maintenance.
- BwTree.Tree.Search: its maintenance runs the corrected split and consolidation, with no lower key filter, where bwtree.cpp:199 and bwtree.cpp:227 use the default 0 (first row of Findings).
- BwTree.Tree.Insert: its maintenance runs the corrected split and consolidation, so key 0 survives where the source drops it (first row of Findings).
- BwTree.Tree.Maintain: dispatches to the corrected split and consolidation (first row of Findings).
- BwTree.Tree.SplitLeafPage: consolidates with no lower filter where bwtree.cpp:199 uses the default 0 (first row of Findings).
- BwTree.Tree.ConsolidatePage: forwards to the corrected consolidation (first row of Findings).
- BwTree.Tree.ConsolidateLeafPage: consolidates with no lower filter where bwtree.cpp:227 uses the default 0 (first row of Findings).
- BwTree.Tree.DeleteFrom: accepts a DeltaSplit head, where bwtree.cpp:175-189 reaches `assert(false)` (second row of Findings). TreeSpec.DeletedFromAsWritten models the written switch.
- BwTree.Tree.DeleteKey: publishes a delete on a page whose head is a split record, where bwtree.cpp:189 asserts (second row of Findings).
- EarlyTree.Tree.Insert: always publishes, while bwtree.h:185-211 loops for ever on a DeltaDelete head (third row of Findings). EarlyTree.InsertStepAsWritten models the written switch.
- EarlyTree.Tree.DeleteKey: always publishes, while bwtree.h:216-248 loops for ever on a DeltaDelete head (third row of Findings).
- TreeSpec.Split: `tempNode->records[recordCount / 2]` on a consolidation with no record (bwtree.cpp:200) reads out of bounds, which is undefined behaviour. The model reports `Aborted(EmptyPage)` instead. This can happen: a base leaf with more records than the split threshold, all hidden by DeltaDeletes. BwTree.Tree.SplitLeafPage and BwTree.Tree.Search then report that abort where the source goes on with whatever it read.
- BwTree.Tree.FindDataPage: reading `nodes[res]` past the last separator of an inner page (bwtree.cpp:77) is undefined behaviour. The model reports a lost traversal (`PastLastSeparator`) instead.
- TreeSpec.Consolidated: consolidating a slot that holds no leaf chain dereferences an empty or inner page in the source. The model reports `Aborted(NoChain)`, and BwTree.Tree.ConsolidateLeafPage does the same.

## Findings

| source | as written | input that shows it | evidently intended | confidence | as-written member | corrected member |
|---|---|---|---|---|---|---|
| bwtree.cpp:255 with bwtree.hpp:225 | consolidation keeps only keys `> keysGreaterThan`, and `splitLeafPage` and `consolidateLeafPage` call it with the default 0 | a leaf holding key 0, consolidated: key 0 disappears although search finds it | no lower filter (or `>=` as the declared parameter name says) | not executed | Pages.DefaultConsolidationDropsKeyZero | Pages.ConsolidationPreservesLookup |
| bwtree.cpp:175-189 | `deleteKey`'s type switch lists leaf, deltaInsert and deltaDelete, so a page whose head is a split record reaches `assert(false)` | deleting key 1 from a page whose head is a DeltaSplit over a leaf holding 1 | the split record accepted as `insert` accepts it (bwtree.cpp:145) | not executed | TreeSpec.DeleteOnSplitPageAborts | TreeSpec.DeleteThenSearch |
| bwtree.h:185-211 | `insert` and `deleteKey` accept only a leaf or DeltaInsert head and loop for ever on any other | `deleteKey(k)` on the new tree, then `insert(k, r)` | a DeltaDelete head accepted like the others | not executed | EarlyTree.InsertAfterDeleteSpins | EarlyTree.InsertStep |
