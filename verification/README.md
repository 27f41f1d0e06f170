# A verified model of the LMDB storage engine

`LegacyDatabase/` holds LMDB 0.9.14, a copy-on-write B+tree with multi-version readers: `mdb.c` is the
engine, `midl.c` its library of page number lists. This project models the parts of it in which the
hard reasoning happens, and proves what they promise.

- `Recycler.dfy`, `RecyclerTrees.dfy`, `RecyclerProofs.dfy`, `RecyclerOps.dfy`, `RecyclerTheorems.dfy`,
  `RecyclerRuns.dfy`: page recycling as a state machine. One writer, any number of readers and environment handles, two meta pages,
  freeDB records, dirty, spilled, freed, loose and reclaimed pages, and crashes that garble any page written
  since the last sync. Pages refer to other pages and form trees; linking and unlinking a page, allocating and
  freeing it are single steps, and copy-on-write, splits, merges and the like are runs of them. The theorems
  are about every state of every run.
- `IdLists.dfy`, `IdSort.dfy`: descending ID lists as arrays with their count in slot 0; search,
  append, merge in place, and the quicksort with a fixed stack.
- `PageAlloc.dfy`, `FreelistSave.dfy`: how `mdb_page_alloc`, `mdb_ovpage_free` and `mdb_freelist_save` use
  these lists, tied to the steps of the state machine.
- `BTree.dfy`, `BTreeShape.dfy`, `SplitPoint.dfy`, `BTreeOps.dfy`, `BTreeProofs.dfy`, `BTreePut.dfy`,
  `BTreeDelete.dfy`, `BTreeDb.dfy`, `BTreeFull.dfy`, `BTreeBalance.dfy`: the B+tree with the byte sizes that
  decide splits, moves and merges, refined to a finite map; when exactly an operation finds a page full, and
  which pages it splits, cuts, tops up and merges.
- `CursorPath.dfy`, `Cursor.dfy`: cursors as stacks of pages and indices, moved in place.
- `SlottedPage.dfy`, `PageSplit.dfy`: the bytes of a page, and splitting them through a scratch page.
- `NestedCommit.dfy`: the list merges when a child transaction commits.
- `CompactCopy.dfy`, `DoubleBuffer.dfy`, `CopyCommitted.dfy`: the compacting copy, its two threads, and the copy
  of a snapshot that a run of the recycler has committed.
- `Drop.dfy`: the level-by-level walk that frees a whole tree.
- `Options.dfy`: the type of values that may be missing, used throughout.

Keys are represented by their rank in the comparison order together with a length for each rank, since the
order and the lengths are all that the engine looks at. Taking a reader slot (read `mti_txnid`, publish the
slot, copy the meta page) is one step; a sync is a barrier, a meta page write is atomic, memory is never
short, and the environment has default flags. Integers are unbounded, except where a width matters: the
quicksort stack is proved large enough for every `int` length, and sentinels are the largest `MDB_ID`.

Where the code does not do what its comments or asserts promise, the code is followed:

- An abort does not clear `mt_loose_pgs`. The next write transaction of the same handle starts with stale
  loose pages whose numbers have been overwritten by the free list of page buffers. The safety theorems hold
  for every run in which no transaction with loose pages is aborted; `AbortExactness` shows that this is the
  exact condition, and `LooseAbortRun` gives a run in which the next writer is about to hand out meta page 0.
- When a child of a top-level transaction commits, the length of the merged dirty list is computed from
  `mt_dirty_room`, which `mdb_ovpage_free` does not give back. `MergeDirty` shows that the closing assertion holds
  exactly when nothing was lost that way.
- `mdb_page_split` does not look for a split point when a page has twenty or more nodes and the new one is
  small and not last; then a half may not fit. `SplitFitsIff` is the exact condition, and
  `UnsearchedSplitOverflows` a failing page. `PutFullIff`, `DeleteFullIff` and `RunFullIff` carry the condition up
  to operations and runs; `FairRunSucceeds` shows that no run fails when no node is larger than ten of the
  smallest ones.
- The compacting copy writes `mm_last_pg` as the root of the main database; `RootIsLastPg` shows that this is
  right exactly when the main database is not empty.
- The comment on `mdb_midl_search` says that it returns the first position whose entry is greater; the lists
  are descending and it is the first one that is smaller.

## Model

| member | source | states |
|---|---|---|
| `RecyclerProofs.StepInv` | LegacyDatabase/mdb.c:1958-2130 | Every step of the engine (allocation, linking, unlinking, free, loosen, reclaim, spill, save, flush, sync, meta write, readers, crash) keeps the invariant: each page number has one owner, tree pages have one referrer and are reached, and no live snapshot uses a page the writer may overwrite. |
| `RecyclerProofs.WorkStepForest` | LegacyDatabase/mdb.c:2220-2275 | Every step of the writer keeps its pages trees: each is reached from a root, or from a page an unfinished operation has cut off, and has exactly one referrer. |
| `RecyclerTrees.WalkUnique` | LegacyDatabase/mdb.c:1511-1559 | Only one walk from the roots leads to a page, so it belongs to one tree, at one place. |
| `RecyclerTrees.LinkedForest` | LegacyDatabase/mdb.c:2247-2256 | Putting a cut-off page below a page of another tree keeps the trees. |
| `RecyclerTrees.UnlinkedForest` | LegacyDatabase/mdb.c:7492-7498 | Taking away the one reference to a page leaves it, with what is below it, a tree of its own. |
| `RecyclerTrees.FreedForest` | LegacyDatabase/mdb.c:1660-1704 | Freeing or loosening a page that nothing refers to cuts off its children, and loses no page. |
| `RecyclerOps.AllocTakes` | LegacyDatabase/mdb.c:1958-2130 | Every allocation hands out pages that are in no tree. |
| `RecyclerOps.TouchLeads` | LegacyDatabase/mdb.c:2220-2275 | Copy-on-write below a dirty parent is a run of steps after which the copy has the place, the contents and the children of the original, which is freed; nothing is left cut off. |
| `RecyclerOps.TouchRootLeads` | LegacyDatabase/mdb.c:2220-2275 | The same for a root. |
| `RecyclerOps.FirstRootLeads` | LegacyDatabase/mdb.c:6115-6130 | A put into an empty tree makes a new page its root. |
| `RecyclerOps.SplitLeads` | LegacyDatabase/mdb.c:7899-8188 | A split gives some children to a new sibling below the same parent, and leaves nothing cut off. |
| `RecyclerOps.NewRootLeads` | LegacyDatabase/mdb.c:7905-7936 | A split of a root puts a new root above it. |
| `RecyclerOps.NodeMoveLeads` | LegacyDatabase/mdb.c:7236-7408 | Moving a node between siblings moves the reference to its child. |
| `RecyclerOps.MergeLeads` | LegacyDatabase/mdb.c:7419-7512 | A merge gives the children of the source page to its sibling, takes the page from its parent and loosens it if dirty or frees it. |
| `RecyclerOps.CollapseLeads` | LegacyDatabase/mdb.c:7632-7640 | A root with one child gives way to it and is freed. |
| `RecyclerOps.EmptyRootLeads` | LegacyDatabase/mdb.c:7603-7611 | An empty root is freed. |
| `RecyclerOps.OverflowLeads` | LegacyDatabase/mdb.c:6750-6767 | New overflow pages are put below the leaf that refers to them. |
| `RecyclerOps.OverflowFreedLeads` | LegacyDatabase/mdb.c:5180-5244 | Overflow pages of this transaction go back to the reclaimed pages and out of all lists. |
| `RecyclerOps.OldOverflowFreedLeads` | LegacyDatabase/mdb.c:5245-5249 | Overflow pages of an earlier transaction are freed. |
| `RecyclerOps.OpsKeep` | LegacyDatabase/mdb.c:2220-2275 | Any run of such steps keeps single ownership, the live snapshots and the trees. |
| `RecyclerTheorems.SnapshotIsolation` | LegacyDatabase/mdb.c:2001-2090 | In every state of every run, following references from the roots of either meta page or of any reader meets only committed pages as they were committed, none of them dirty, spilled, loose, reclaimed or not yet allocated. |
| `RecyclerRuns.PublishedIsSelected` | LegacyDatabase/mdb.c:2547-2549 | In every state, `metas[mti_txnid & 1]` is the last commit that was published, by its writer or after a failure, as told by the steps of the run. |
| `RecyclerRuns.ReaderGetsPublished` | LegacyDatabase/mdb.c:2540-2581 | A new reader gets just that commit, and its number is `mti_txnid`; the other readers keep theirs. |
| `RecyclerTheorems.ReaderKeepsSnapshot` | LegacyDatabase/mdb.c:2547-2581 | A reader keeps the snapshot it began with, intact on disk, until it ends. |
| `RecyclerRuns.ReaderLeaves` | LegacyDatabase/mdb.c:2790-2797 | A reader that ends leaves its slot and no other. |
| `RecyclerRuns.WriterStartsFromPublished` | LegacyDatabase/mdb.c:2551-2580 | A write transaction starts from the last published commit, with the next number and empty page lists. |
| `RecyclerRuns.WriterHasBuilt` | LegacyDatabase/mdb.c:2220-2275 | At any time the trees of a writer are the published ones with its own edits, each of which leaves every page it does not name as it was; reclaiming, spilling, saving and flushing change nothing of them. |
| `RecyclerTheorems.PublishedMetaAndOldest` | LegacyDatabase/mdb.c:1905-1921 | `metas[mti_txnid & 1]` holds transaction `mti_txnid`, and the cached `me_pgoldest` of every handle is at most every reader's transaction. |
| `RecyclerTheorems.PickedIsLastCommitted` | LegacyDatabase/mdb.c:3678-3682 | The meta page picked on open holds the number, trees, freeDB and next page number of the last writer that wrote one. |
| `RecyclerTheorems.CrashAtomicity` | LegacyDatabase/mdb.c:3557-3672 | A crash at any point, garbling any of the pages spilled or flushed since the last sync, leaves exactly the state of the last meta write: picked, intact, its pages trees below its roots, all page numbers accounted for. |
| `RecyclerTheorems.CommitIsAtomic` | LegacyDatabase/mdb.c:3397-3399 | Crashes at any two points with no meta write between them leave the same picked meta page and the same contents of all its pages, whatever is garbled; across a meta write the picked one changes to the writer's. |
| `RecyclerRuns.MetaWriteIs` | LegacyDatabase/mdb.c:3557-3672 | The meta write puts the number, roots, pages, freeDB and next page number of the writer into one meta page; the other still holds the commit published before. |
| `RecyclerRuns.CommitPublishesEdits` | LegacyDatabase/mdb.c:3397-3399 | After the meta write, and until the next one, a crash that garbles any unsynced pages leaves as the picked snapshot the trees published when the transaction began with its edits, every page on disk, under the next number. |
| `RecyclerRuns.EmptyCommitChangesNothing` | LegacyDatabase/mdb.c:3355-3357 | A commit that writes nothing had changed nothing. |
| `RecyclerRuns.CommitCompletes` | LegacyDatabase/mdb.c:3394-3412 | A running transaction with nothing cut off can always save, flush, sync, write its meta page and publish just its trees. |
| `RecyclerRuns.AbortForgets` | LegacyDatabase/mdb.c:2780-2829 | A transaction without loose pages can be aborted at any time before its meta write, and leaves meta pages, disk and readers as they were. |
| `RecyclerRuns.DeathForgets` | LegacyDatabase/mdb.c:9475-9510 | A writer can die at any time; the number published then is that of the picked meta page, and the readers stay. |
| `RecyclerRuns.FirstCommitIsSeen` | LegacyDatabase/mdb.c:2547-2549 | There is a run in which a reader sees the page that the first writer committed. |
| `RecyclerRuns.SpillRoundTrip` | LegacyDatabase/mdb.c:1807-1903 | Spilling a dirty page writes it out; unspilling it restores the lists. |
| `RecyclerRuns.ReclaimPossible` | LegacyDatabase/mdb.c:2030-2089 | After a look at the readers, the next freeDB record can be reclaimed exactly when it is older than every reader and than the last commit, and its pages join the reclaimed ones. |
| `RecyclerTheorems.AuditSum` | LegacyDatabase/mdb.c:1511-1559 | The sum that `mdb_audit` checks equals the next page number: the pages reached from each root, root by root, all freeDB entries, and two meta pages. |
| `RecyclerTheorems.PageConservation` | LegacyDatabase/mdb.c:2866-3053 | For every snapshot of every run, each page number below the next one is exactly one of a meta page, a page that exactly one walk from the roots reaches, or one entry of exactly one freeDB record; page numbers from there on are neither. |
| `RecyclerTheorems.AbortExactness` | LegacyDatabase/mdb.c:2780-2829 | After an abort, the next transaction of the handle accounts for every page if and only if the aborted one had no loose pages. |
| `RecyclerTheorems.LooseAbortHandsOut` | LegacyDatabase/mdb.c:2780-2829 | From any reachable state with loose pages, an abort lets the next writer of the handle hand out whatever number the freed buffers hold. |
| `RecyclerTheorems.LooseAbortRun` | LegacyDatabase/mdb.c:1638-1655 | There is a run in which an abort with a loose page makes the next writer treat meta page 0 as free to overwrite. |
| `IdLists.Search` | LegacyDatabase/midl.c:33-66 | Entries before the result are not smaller, entries from it on not larger; it holds the id exactly when the id is in the list. |
| `IdLists.Need` | LegacyDatabase/midl.c:144-156 | Room for `num` more entries, contents unchanged. |
| `IdLists.Grow` | LegacyDatabase/midl.c:132-142 | `num` more slots, contents unchanged. |
| `IdLists.Append` | LegacyDatabase/midl.c:158-170 | The list with one more entry at its end. |
| `IdLists.AppendList` | LegacyDatabase/midl.c:172-184 | The concatenation of both lists. |
| `IdLists.AppendRange` | LegacyDatabase/midl.c:186-200 | The list followed by the `n` consecutive numbers, largest first. |
| `IdLists.XMerge` | LegacyDatabase/midl.c:202-214 | Descending multiset union in place, also when the second list sits in the tail of the same buffer, which is left unchanged. |
| `IdSort.InsertionPass` | LegacyDatabase/midl.c:233-242 | Sorts a short segment, and never moves anything to its left although its scan goes down to index 1. |
| `IdSort.Partition` | LegacyDatabase/midl.c:245-267 | The unguarded scans stay within the segment, and split it around the pivot by a permutation. |
| `IdSort.DepthBound` | LegacyDatabase/midl.c:268-278 | Pushing the larger part keeps the number of segments on the stack logarithmic in the length. |
| `IdSort.Sort` | LegacyDatabase/midl.c:221-280 | Terminates with a descending permutation, within the fixed stack, for every `int` length. |
| `PageAlloc.EndpointTest` | LegacyDatabase/mdb.c:2006-2018 | In a strictly descending list, comparing the two end entries tells whether the entries between are consecutive numbers. |
| `PageAlloc.PagesFormRun` | LegacyDatabase/mdb.c:2006-2018 | Consecutive page numbers that are all in the list are a run of adjacent entries. |
| `PageAlloc.FindRun` | LegacyDatabase/mdb.c:2006-2018 | Finds a run of `num` consecutive pages exactly when the list has one, and then the last one, with the lowest page numbers. |
| `PageAlloc.RemoveRun` | LegacyDatabase/mdb.c:2110-2114 | Deletes just that run and keeps the order. |
| `PageAlloc.InsertRun` | LegacyDatabase/mdb.c:5237-5244 | Puts a run back at its place in the descending order. |
| `PageAlloc.RemoveUndoesInsert` | LegacyDatabase/mdb.c:5237-5244 | Removing a run that was put back restores the list. |
| `PageAlloc.FindOldest` | LegacyDatabase/mdb.c:1905-1921 | The least transaction of any reader in the table, or the one before the writer's. |
| `PageAlloc.OldestIsOldest` | LegacyDatabase/mdb.c:1905-1921 | What `mdb_find_oldest` computes is what the state machine's refresh step allows. |
| `PageAlloc.Allocator.TooRecent` | LegacyDatabase/mdb.c:2036-2046 | A record at or above the oldest reader is refused, after looking at the readers once; the cached value stays a lower bound. |
| `PageAlloc.Allocator.TakeIn` | LegacyDatabase/mdb.c:2063-2089 | A freeDB record is merged into the reclaimed list, which stays strictly descending. |
| `PageAlloc.Allocator.Coalesce` | LegacyDatabase/mdb.c:2001-2090 | Takes in records in key order, all below the oldest reader, and none while those before it offer a run; stops at the lowest run, or without one when no record is left, the next one is not older than a freshly looked up oldest reader, or as many as the retry limit allows have been taken in. |
| `PageAlloc.Allocator.Alloc` | LegacyDatabase/mdb.c:1958-2130 | Hands out a loose page, the lowest run of the reclaimed pages, or new pages at the end of the file, and nothing else; new pages, and MAP_FULL, only when the reclaimed pages offer no run and no further record may be taken in; TXN_FULL exactly when the dirty list has no room; `me_pglast` is the last record taken in. |
| `PageAlloc.TakeInIsReclaim` | LegacyDatabase/mdb.c:2036-2089 | Taking in the next record is a reclaim step of the state machine. |
| `PageAlloc.AllocIsStep` | LegacyDatabase/mdb.c:1958-2130 | Each outcome of an allocation is an allocation step of the state machine, which takes just those page numbers. |
| `PageAlloc.ReturnLoose` | LegacyDatabase/mdb.c:3006-3019 | Loose pages go back to the reclaimed list, sorted and merged within one buffer. |
| `FreelistSave.RoundedRoom` | LegacyDatabase/mdb.c:2978-2988 | The room computed for one of several records is at least what fits on one page and at most what is still needed. |
| `FreelistSave.NextRoomExact` | LegacyDatabase/mdb.c:2978-2988 | That room is an equal share for each key left, rounded up to fill whole runs of `me_maxfree_1pg` + 1 numbers with its count. |
| `FreelistSave.Saver.DeleteConsumed` | LegacyDatabase/mdb.c:2912-2925 | Deletes every record up to `me_pglast`, whatever the deletions themselves consume. |
| `FreelistSave.Saver.PutFreePages` | LegacyDatabase/mdb.c:2927-2950 | The pages freed by the transaction are stored under its number at their final length. |
| `FreelistSave.Saver.ReserveRooms` | LegacyDatabase/mdb.c:2906-3001 | The loop ends; the records reserved have keys in 1 .. `me_pglast` and room for the whole list, and exactly its length if nothing disturbs the lists; records not yet consumed are untouched, and the pages freed have their record. |
| `FreelistSave.CutJoins` | LegacyDatabase/mdb.c:3025-3051 | With enough room, the pieces stored are the whole list, in order, each number once. |
| `FreelistSave.CutDescends` | LegacyDatabase/mdb.c:3025-3051 | Every piece stored is strictly descending and fits its room. |
| `FreelistSave.Fill` | LegacyDatabase/mdb.c:3025-3051 | The loop stores these pieces, each with its length in front, and restores the array it borrows a slot of. |
| `FreelistSave.SaveIsLegal` | LegacyDatabase/mdb.c:2965-3051 | For a writer whose reclaimed and loose pages are the list, what is stored is a save step of the state machine. |
| `SplitPoint.FindSplit` | LegacyDatabase/mdb.c:8036-8070 | The search loop computes the split index: the middle for a page of twenty or more nodes with a small new one that is not last; else the largest index up to just behind the middle, or up to the second last node for a new last one, whose left part fits, or, for a new node in the right half, the smallest index from there on whose right part fits. |
| `SplitPoint.SplitIndexIs` | LegacyDatabase/mdb.c:8036-8070 | There is exactly one such index. |
| `SplitPoint.SplitFits` | LegacyDatabase/mdb.c:8036-8074 | When the split point is searched for, both halves are non-empty and fit. |
| `SplitPoint.SplitFitsIff` | LegacyDatabase/mdb.c:8036-8074 | Both halves fit exactly when the point is searched for or the middle happens to fit. |
| `SplitPoint.SplitLeavesTwo` | LegacyDatabase/mdb.c:8002-8074 | A branch split leaves at least two children on each side. |
| `SplitPoint.UnsearchedSplitOverflows` | LegacyDatabase/mdb.c:8036-8038 | A page that overflows when the split point is not searched for. |
| `BTreeProofs.ItemsOk` | LegacyDatabase/mdb.c:5006-5070 | The entries below a page are sorted and within its separators, slot 0 acting as minus infinity. |
| `BTreePut.AddEntryOk` | LegacyDatabase/mdb.c:8135-8188 | A leaf that fitted before the insertion takes the entry or becomes two valid leaves with the first right key between them, all entries kept; it is full only when the split point is not searched for. |
| `BTreeProofs.SplitLeafFits` | LegacyDatabase/mdb.c:8036-8074 | A leaf that fitted before the insertion splits without MDB_PAGE_FULL when the point is searched for. |
| `BTreeProofs.SplitBranchOk` | LegacyDatabase/mdb.c:8135-8188 | A branch split keeps children and separators, moves one separator up, and leaves two valid branches. |
| `BTreeProofs.SplitBranchFits` | LegacyDatabase/mdb.c:8036-8074 | The same as for leaves, with the dropped first key of the right page. |
| `BTreeBalance.SplitLeafCut` | LegacyDatabase/mdb.c:8135-8188 | A split leaf is cut at that index of its node sizes, and the first right key goes up. |
| `BTreeBalance.SplitBranchCut` | LegacyDatabase/mdb.c:8135-8188 | The same for a branch, whose separator at the cut moves up. |
| `BTreeBalance.PutLeafSplits` | LegacyDatabase/mdb.c:6398-6484 | A leaf is split exactly when it does not fit with the entry in place. |
| `BTreeBalance.AddKidSplits` | LegacyDatabase/mdb.c:8080-8127 | A branch is split exactly when it does not fit with the new separator. |
| `BTreeBalance.UpdateSepSplits` | LegacyDatabase/mdb.c:7163-7228 | Replacing a separator splits a branch exactly when it does not fit any more. |
| `BTreeBalance.NodeMaxExact` | LegacyDatabase/mdb.c:3915-3916 | `me_nodemax` is the largest even size of which two nodes fit on a page. |
| `BTreeBalance.LeafSizeIsBytes` | LegacyDatabase/mdb.c:6745-6775 | The size of a leaf entry is what its node takes on a page of bytes, with a page number in place of data that makes it larger than `me_nodemax`. |
| `BTreePut.RoomForSep` | LegacyDatabase/mdb.c:8080-8083 | The parent's room check, though not rounded to even sizes, is exact. |
| `BTreePut.AddKidOk` | LegacyDatabase/mdb.c:8080-8127 | Adding the separator of a split child keeps the parent valid, or splits it. |
| `BTreePut.PutOk` | LegacyDatabase/mdb.c:6398-6484 | A put keeps the tree valid and of uniform depth and stores just this entry; it fails only if a page on the way is split without searching. |
| `BTreeFull.PutFullIff` | LegacyDatabase/mdb.c:8036-8074 | A put fails exactly when a page on its way overflows, its split point is not searched for, and its middle does not divide it into two pages that fit. |
| `BTreeDelete.UnderfullIsSmall` | LegacyDatabase/mdb.c:752-757 | A page below the fill threshold, or with too few keys, is less than a quarter full. |
| `BTreeBalance.UnderfullExact` | LegacyDatabase/mdb.c:7584-7592 | A page is rebalanced exactly when it is less than a quarter full or has too few nodes. |
| `BTreeBalance.RichExact` | LegacyDatabase/mdb.c:7716-7730 | A neighbour gives a node exactly when it is at least a quarter full and has one to spare. |
| `BTreeDelete.RebalanceHasRoom` | LegacyDatabase/mdb.c:7584-7738 | With pages of at least 4096 bytes and keys of at most 511, a move or a merge always fits, including the key restored in slot 0. |
| `BTreeDelete.MoveLeftOk` | LegacyDatabase/mdb.c:7236-7408 | Moving a node from the right neighbour keeps both pages valid around the new separator, and all entries. |
| `BTreeDelete.MoveRightOk` | LegacyDatabase/mdb.c:7236-7408 | The same from the left neighbour. |
| `BTreeDelete.MergeOk` | LegacyDatabase/mdb.c:7420-7490 | A merged page is valid for the joint range and holds the entries of both. |
| `BTreeDelete.UpdateSepOk` | LegacyDatabase/mdb.c:7163-7228 | Replacing a separator keeps the branch valid, splitting it if the new key does not fit. |
| `BTreeDelete.RebalanceOk` | LegacyDatabase/mdb.c:7576-7743 | Rebalancing a child keeps all entries and a branch that lacks at most one key. |
| `BTreeBalance.RebalanceExact` | LegacyDatabase/mdb.c:7576-7743 | A child that is full enough stays; otherwise one node moves from a neighbour that can spare it, or both become one page; no other child is touched. |
| `BTreeBalance.DeleteChecks` | LegacyDatabase/mdb.c:7747-7757 | A deletion asks for its page to be rebalanced exactly when the page lost a node. |
| `BTreeDelete.DeleteOk` | LegacyDatabase/mdb.c:7747-7757 | A deletion reports NOTFOUND exactly for absent keys, keeps the tree valid and removes just this entry; it fails only where a branch on the way is split without searching. |
| `BTreeFull.DeleteFullIff` | LegacyDatabase/mdb.c:7163-7228 | A deletion fails exactly when a branch on its way overflows because of a longer borrowed separator or a split child, its split point is not searched for, and its middle does not divide it. |
| `BTreeDb.LookupOk` | LegacyDatabase/mdb.c:5286-5304 | Lookup returns the map's answer. |
| `BTreeDb.GetOk` | LegacyDatabase/mdb.c:5286-5304 | The same for a database, and `md_entries` is the size of the map. |
| `BTreeDb.NewRoot` | LegacyDatabase/mdb.c:7909-7936 | A root that split becomes a valid branch over its halves. |
| `BTreeDb.PutDbOk` | LegacyDatabase/mdb.c:6009-6484 | A put updates the map, depth and count, growing the root if it splits. |
| `BTreeDb.RebalanceRootOk` | LegacyDatabase/mdb.c:7603-7668 | An empty root goes away and a root with one child collapses, with the entries unchanged. |
| `BTreeDb.DeleteDbOk` | LegacyDatabase/mdb.c:7826-7866 | A deletion removes the key from the map; an absent key changes nothing. |
| `BTreeDb.RunRefinesMap` | LegacyDatabase/mdb.c:7746-8211 | Any sequence of puts and deletions that no full page stops does to the tree what it does to a map, and keeps it valid. |
| `BTreeFull.RunFullIff` | LegacyDatabase/mdb.c:8036-8074 | A sequence of operations is stopped exactly when one of them is stuck, in that sense, in the state it meets. |
| `BTreeFull.PutFair` | LegacyDatabase/mdb.c:8036-8074 | A put of an entry no larger than ten of the smallest ones into a tree of such entries and keys succeeds. |
| `BTreeFull.DeleteFair` | LegacyDatabase/mdb.c:7576-7743 | A deletion in such a tree succeeds. |
| `BTreeFull.FairRunSucceeds` | LegacyDatabase/mdb.c:8036-8074 | A sequence of operations that stores only such entries is never stopped. |
| `BTreeFull.FairRunIsMap` | LegacyDatabase/mdb.c:5286-5304 | On a new database it succeeds, and lookups answer as the map. |
| `BTreeDb.GetAfterRun` | LegacyDatabase/mdb.c:5286-5304 | After any such sequence on a new database, a lookup answers as the map. |
| `BTreeDb.NodeSearch` | LegacyDatabase/mdb.c:4802-4891 | The binary search in a page returns the first node not below the key, and whether it is equal. |
| `BTreeDb.FollowChild` | LegacyDatabase/mdb.c:5025-5040 | The child followed in a branch is the one whose range holds the key. |
| `BTreeDb.PageSearchRoot` | LegacyDatabase/mdb.c:5006-5070 | The descent ends in the leaf that decides the lookup. |
| `BTreeDb.Database.Get` | LegacyDatabase/mdb.c:5286-5304 | Returns the value in the map, or NOTFOUND, or BAD_TXN after a failure. |
| `BTreeDb.Database.Put` | LegacyDatabase/mdb.c:6009-6484 | The new map and count, or a failed transaction. |
| `BTreeDb.Database.Del` | LegacyDatabase/mdb.c:7807-7866 | The new map and count, NOTFOUND with nothing changed, or a failed transaction. |
| `CursorPath.Segment` | LegacyDatabase/mdb.c:5006-5070 | The entries of the page a stack leads to are a segment of all entries, at the place the indices give. |
| `CursorPath.SiblingOk` | LegacyDatabase/mdb.c:5315-5362 | A sibling is the adjacent page of its level, entered at the near end; there is none only at the end of the level. |
| `CursorPath.LeftUndoesRight` | LegacyDatabase/mdb.c:5315-5362 | Moving to the right sibling and back restores the path. |
| `Cursors.Cursor.Sibling` | LegacyDatabase/mdb.c:5315-5362 | The recursive move on the stack computes that sibling; a failing one leaves the whole stack as it was, at every depth. |
| `Cursors.Cursor.PageSearch` | LegacyDatabase/mdb.c:5106-5170 | Descends to the first leaf, the last leaf, or the leaf around a key. |
| `Cursors.Cursor.First` | LegacyDatabase/mdb.c:5713-5750 | Position 0 and its entry. |
| `Cursors.Cursor.Last` | LegacyDatabase/mdb.c:5757-5800 | The last position and its entry. |
| `Cursors.NextPathOk` | LegacyDatabase/mdb.c:5400-5412 | The path after this one is at the next position; there is none only at the end. |
| `Cursors.Cursor.Next` | LegacyDatabase/mdb.c:5366-5440 | The entry at the next position, or NOTFOUND with the cursor unmoved. |
| `Cursors.PrevPathOk` | LegacyDatabase/mdb.c:5480-5491 | The path before this one is at the previous position; there is none only at position 0. |
| `Cursors.Cursor.Prev` | LegacyDatabase/mdb.c:5447-5520 | The entry at the previous position, or NOTFOUND with the cursor unmoved. |
| `Cursors.PrevUndoesNext` | LegacyDatabase/mdb.c:5480-5491 | After next, prev returns to the same indices on every level. |
| `Cursors.Cursor.Scan` | LegacyDatabase/mdb.c:5909-5916 | First, then next until NOTFOUND, visits every entry once, in ascending order. |
| `Cursors.Cursor.SeekFast` | LegacyDatabase/mdb.c:5539-5628 | Whenever a shortcut for a cursor already on the right page is taken, its answer is that of the sorted entries. |
| `Cursors.Cursor.SeekOnPage` | LegacyDatabase/mdb.c:5638-5651 | The search on the right page, going on to the next one, finds the first entry not below the key. |
| `Cursors.Cursor.Set` | LegacyDatabase/mdb.c:5525-5651 | Wherever the cursor was, an exact seek finds the entry with the key, and a range seek the one with the least key not below it; it fails exactly when there is none. |
| `SlottedPage.TiledOne` | LegacyDatabase/mdb.c:827-830 | Offsets and bytes of a page determine its nodes. |
| `SlottedPage.Page.NodeAdd` | LegacyDatabase/mdb.c:6745-6818 | Inserts the node exactly when there is room; nodes stay even-aligned, disjoint and tile the page's end; higher offset slots are untouched. |
| `SlottedPage.Page.NodeDel` | LegacyDatabase/mdb.c:6861-6885 | Removes just that node across the overlapping move, and keeps the tiling. |
| `SlottedPage.Page.UpdateKey` | LegacyDatabase/mdb.c:7191-7228 | Replaces just that key, growing or shrinking the page, exactly when there is room. |
| `PageSplit.FillScratch` | LegacyDatabase/mdb.c:8135-8174 | Nodes are read through the very offset slots that are overwritten, and none is lost. |
| `PageSplit.SplitNodes` | LegacyDatabase/mdb.c:8135-8188 | Left and right page are the old nodes with the new one in place, up to the dropped first key of a branch; it fails exactly if a half does not fit. |
| `PageSplit.SearchedSplitFits` | LegacyDatabase/mdb.c:8036-8074 | With a searched split point both halves fit, as bytes. |
| `PageSplit.SplitPage` | LegacyDatabase/mdb.c:8002-8188 | Cuts the page at the split point of its node sizes: both pages non-empty, and no MDB_PAGE_FULL when the point is searched for. |
| `NestedCommit.UnionHolds` | LegacyDatabase/mdb.c:3309-3318 | The merged dirty list holds the child's entries, and the parent's for all other pages. |
| `NestedCommit.UnionAscends` | LegacyDatabase/mdb.c:3309-3318 | It is strictly ascending: every page once. |
| `NestedCommit.Search2` | LegacyDatabase/midl.c:282-315 | Entries before the result are smaller, from it on not smaller. |
| `NestedCommit.Insert` | LegacyDatabase/midl.c:317-346 | Inserts in order, refuses a duplicate, refuses a full list. |
| `NestedCommit.CountUnion` | LegacyDatabase/mdb.c:3291-3306 | The counting pass computes the length of the union. |
| `NestedCommit.MergeChild` | LegacyDatabase/mdb.c:3309-3318 | Storing a child's entry never overwrites an unread one of the parent. |
| `NestedCommit.MergeDirty` | LegacyDatabase/mdb.c:3309-3319 | The backward merge in place gives the union, after a gap if the length is too large; it ends with i - x equal to the surplus, so i == x exactly when the length is right. |
| `NestedCommit.InheritDirty` | LegacyDatabase/mdb.c:3291-3319 | Counting and merging together leave the union, without a gap. |
| `NestedCommit.RemoveSpilled` | LegacyDatabase/mdb.c:3270-3289 | The live spill entries left are exactly those for pages the child has not dirtied, in order. |
| `CompactCopy.WalkRepresents` | LegacyDatabase/mdb.c:8394-8549 | The page written for a tree, read back from the new file, stands for that tree: contents kept, every child, overflow and sub-database reference rewritten. |
| `CompactCopy.RepresentsOne` | LegacyDatabase/mdb.c:8394-8549 | A page of the new file stands for at most one tree. |
| `CompactCopy.WalkLen` | LegacyDatabase/mdb.c:8460-8545 | Numbers are places in the file: consecutive, overflow runs contiguous. |
| `CompactCopy.WalkEmitsOnce` | LegacyDatabase/mdb.c:8394-8549 | Each page of the source is written once. |
| `CompactCopy.RootIsLastPg` | LegacyDatabase/mdb.c:8613-8632 | Given page conservation, the root number computed beforehand is right if and only if the main database is not empty. |
| `CompactCopy.CopyPreserves` | LegacyDatabase/mdb.c:8553-8646 | The main tree is found under that root, every page once, up to the last page announced. |
| `CopyCommitted.StoredCount` | LegacyDatabase/mdb.c:8613-8626 | A tree stored in the pages of a snapshot has as many pages as are reached from its root, overflow runs and named databases included. |
| `CopyCommitted.CopyOfCommitted` | LegacyDatabase/mdb.c:8553-8646 | For every snapshot of every run, the root number computed from page counts is the one the walk gives the main root if and only if the main database is not empty, and then the copy holds the main tree under it. |
| `CompactCopy.Copier.CopyItems` | LegacyDatabase/mdb.c:8440-8500 | The loop over a leaf writes overflow runs and named databases in order and renumbers the references. |
| `CompactCopy.Copier.CWalk` | LegacyDatabase/mdb.c:8394-8549 | The walk with an explicit stack writes exactly what the post-order recursion does. |
| `DoubleBuffer.StepInv` | LegacyDatabase/mdb.c:8311-8391 | Every step of either thread keeps the protocol's invariant. |
| `DoubleBuffer.NeverTheSameBuffer` | LegacyDatabase/mdb.c:8375-8391 | In every interleaving, the buffer being filled is not the one being written, and does not overflow. |
| `DoubleBuffer.OutputInOrder` | LegacyDatabase/mdb.c:8324-8369 | The file is always a prefix of what the walk has handed over (meta pages, pages, and overflow runs with their tails, in order), and all of it in the end. |
| `DoubleBuffer.WalkEndsWithFinish` | LegacyDatabase/mdb.c:8633-8646 | The walk ends exactly when it is finished: handing over a buffer in between always returns to it. |
| `DoubleBuffer.WalkGoesOn` | LegacyDatabase/mdb.c:8460-8545 | While the buffer has room, any page or overflow run can be added; otherwise it is handed over. |
| `DoubleBuffer.NeverStuck` | LegacyDatabase/mdb.c:8633-8646 | No deadlock: until the copy ends, some thread can go on without spurious wake-ups. |
| `Drop.LevelOk` | LegacyDatabase/mdb.c:9205-9222 | Repeated moves to the right sibling visit each page of a level once, from the leftmost one on. |
| `Drop.AllFreed` | LegacyDatabase/mdb.c:9152-9232 | What the levels free, with the root, is every page of the tree. |
| `Drop.SubtreeOnce` | LegacyDatabase/mdb.c:9152-9232 | No page of a tree is counted twice. |
| `Drop.FreePage` | LegacyDatabase/mdb.c:9170-9204 | At a leaf the overflow runs are freed, at a branch its children. |
| `Drop.Drop0` | LegacyDatabase/mdb.c:9152-9232 | The walk ends and frees, each once, exactly the branches and leaves that paths from the root lead to and, of every value too large for a node, as many overflow pages as its header and data need. |
| `Drop.OvPagesExact` | LegacyDatabase/mdb.c:770-771 | A value on overflow pages takes just as many as its header and data need. |
| `Drop.NumbersOnce` | LegacyDatabase/mdb.c:9152-9232 | As different pages have different numbers, no page number is freed twice. |

## Left out

- Files, memory maps, locks, processes, environment open and close, and Windows branches; only "sync is a barrier" and "a meta page write is atomic" remain of them.
- Sorted duplicates, fixed-size leaf keys, sub-pages and nested cursors (`MDB_DUPSORT`, `MDB_DUPFIXED`).
- Write-mapped, no-lock and no-sync environments, I/O errors, and failing memory allocation.
- Other cursors of the same transaction: their adjustment by puts, deletions and splits, and the `C_DEL` flag that makes the next move of a cursor that deleted an entry stay in place.
- Child transactions in the state machine of the recycler, and the handover of loose pages when a child commits.
- Keys of invalid size, which are refused before anything happens, and `MDB_APPEND`, `MDB_NOOVERWRITE` and `MDB_CURRENT` puts.
- Overwriting a dirty overflow page in place: the B+tree model takes the node size from the new value, while the code keeps such a value on its overflow page even when it has become small.
- Page numbers and in-place page updates in the B+tree model, which works on values; the bytes of single pages are modelled separately, and which page numbers a transaction may touch is the subject of the recycler.
- `mdb_midl_shrink` and the exact capacities it leaves.
- `mdb_page_spill`'s choice of pages and the dirty list limit, except that the allocator refuses when there is no room.
- BTreePut.PutOk: does not promise success when a page on the way holds twenty or more nodes, because the code does not search for a split point there; BTreeFull.PutFullIff is exact.
- NestedCommit.MergeDirty: a length below that of the union is excluded; the shortcut for a top-level parent can only compute one that is too large.
- The time at which the root of a named database is written: the code keeps it in `mt_dbs` and stores it in the main database at commit, while in the recycler the record holds it at once.
- NestedCommit.RemoveSpilled: entries already void may stay in the list when they come before the first removed one, as in the code.
- Cursors.Cursor.PageSearch: trees deeper than the 32 pages of a cursor stack, which the code refuses with `MDB_CURSOR_FULL`, are not modelled.
- FreelistSave.Saver.ReserveRooms: what a freeDB update does to the lists is a finite sequence of changes that the loop does not control, rather than the B+tree code itself.
- CompactCopy.WalkRepresents: the source is a tree of pages, so pages reached twice, which page conservation rules out, are not modelled.
- The other files of the repository: headers without bodies, user interface and messaging code, and a floating-point filter whose matrix code is not part of this model.
