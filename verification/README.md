# A verified model of the storage engine and its executor

The Dafny files in this directory model the hard part of a small disk-backed relational engine and prove
what its layers promise each other: that the paged B+ tree is an ordered map, that the redo log brings the
committed pages back after any crash, that tables and their indexes agree, and that the executor's
shortcuts return what the plain evaluation returns.

`dafny verify dfyconfig.toml` checks everything.

## How the files fit together

- **Values and pages.** `Keys` has the column values, keys and their order (the order of `std::variant` and
  `std::vector`); `Pages` has pages as nodes, free records and the header, with the byte sizes the branches
  depend on.
- **B+ tree.** `TreeShape` states the whole-tree invariant locally: ghost information gives each page a level
  and a key interval, and each page must agree with its children and its right neighbour.  `InsertSteps`,
  `RemoveSteps` and `ShiftSteps` prove one rewriting step each, `Cascade` the termination measure of the
  split cascade and the descent, `Space` and `PageSizes` that pages fit, `Scans` that scans are filters.  `Pager` (module `Paging`) is
  the page store with free list and log images; `BTree` (module `BPlusTree`) has the operations as methods
  that rewrite pages in place.
- **Log and pool.** `Wal` (module `RedoLog`) says what recovery reads out of a log; `Recovery` is the machine
  of program steps, environment steps and crashes with the theorems over all runs; `WalManager` (module
  `LogManager`) shows that the source's loops are runs of that machine.  `BufferPool` (module `Buffering`) is
  the LRU pool; `Pins` (module `PinDiscipline`) runs the B+ tree's traffic on that very pool.
- **Tables.** `Schema`, `Counter`, `TableState`, `BatchUpdate` and `Table` have rows, index entries, coherence, and the
  operations on them.  Trees appear there as the map and the entry sets the tree modules prove them to be.
- **Executor.** `ForeignKeys`, `Check` and `Cascading` have foreign keys, CHECK constraints, cascades and the
  statements around them, `CascadeExample` two databases made with these statements; `Where`, `Subqueries`,
  `IndexSeeds` and `IndexScan` have WHERE clauses, cached subqueries, index-seeded scans and covering reads;
  `FloatLiteral`, `Binary32` and `FloatQuery` say when a float literal may use an index.
- **Codecs.** `ByteCodec`, `KeyCodec`, `NodeBytes`, `RowCodec` and `CatalogCodec` have the byte formats and
  their round trips.

## What turned out not to hold

Each of these is a lemma, with the exact condition under which the code does meet the expectation where there
is one.

- One split by entry count need not make room for the entry (`Space.SplitMayNotMakeRoom`); it does if all entries
  have one size (`BPlusTree.BTree.InsertIn`).  Two underfull internal nodes may not fit one page together with
  their separator (`Space.MergedInternalsMayNotFit`; exactly when is `PageSizes.MergesFitInNumbers`).
- A right sibling that gives away its only entry leaves a separator below which that entry is not found
  (`ShiftSteps.DonatedKeyIsFoundIff`), and the guard accepts such a donor (`ShiftSteps.LoneDonorIsAccepted`); leaves
  of small entries that pass the guard have two (`Space.DonorLeafHasTwo`).
- An insertion that moves the root is durable before the catalog knows the new root; a crash in between leaves a
  tree that finds the keys of one half only (`BPlusTree.BTree.SearchByOldRoot`).
- A commit syncs the log but not the length of the database file, so recovery may fail on a page beyond the
  end (`Recovery.ExtensionIsLost`, `Recovery.RecoveryCompletesIff`).
- A page evicted before its transaction commits may come back with uncommitted contents
  (`Recovery.StolenPageComesBack`, `Recovery.WritebackIsSafeIff`), and leaving a transaction does not undo its
  changes in the pool (`Recovery.AbortedChangeStays`, `Recovery.LeavingIsSafeIff`).  Nothing under `src/` calls abort,
  but a statement that throws leaves its transaction and the next one begins another.
- With two free slots a split runs out and leaves pins behind (`PinDiscipline.TreeClient.TwoSlotsAreNotEnough`).
- The key -1 sets the auto-increment counter back to 0, and a later row without a key is refused
  (`Counters.FourthRowIsRefused`, `Counters.CounterIsSafeIff`); a table opened anew refuses one exactly if it
  holds both the largest and the smallest INT (`Counters.OpenedKeyIsNewIff`).
- An index with NULL in a row's columns misses the row (`IndexScans.FoundIffIndexed`), a range on a column that
  is not the last finds nothing (`IndexScans.RangeNotLastFindsNothing`), and a float literal on an INT column
  may miss rows (`FloatQueries.SixteenMillionIsMissed`; exactly when is `FloatLiterals.FloatLiteralIsSafeIff`).
- A nested subquery no row needs may make a statement fail (`Subqueries.UnneededMayThrow`; without correlation exactly
  when is `Subqueries.FillsIffAllRun`).
- A foreign key or CHECK on an auto-increment key is not checked when the key comes from the counter
  (`Cascading.FilledKeyIsSatisfiedIff`, `Checks.FilledKeyPassesIff`).
- A cascade that meets a RESTRICT keeps what it removed by then, though integrity holds
  (`CascadeExamples.DeleteIsRefused`), and whether it meets one depends on the order of the rows
  (`CascadeExamples.DeleteGoesThrough`) if that reference has both ends inside the closure, and only then
  (`Cascading.Executor.DeleteRowCascading`).
- Strings above 65535 bytes are not read back (`RowCodec.RowRoundTripIff`), and a catalog with indexes but no
  tables is read back empty (`CatalogCodec.CatalogRoundTripIff`).

## Model

| member | source | states |
|---|---|---|
| `BPlusTree.BTree.constructor` | src/btree/btree.cpp:32-44 | A new tree satisfies the whole-tree invariant, represents the empty map, and its page fits, whatever sizes its entries will have. |
| `BPlusTree.BTree.CreateEmptyRoot` | src/btree/btree.cpp:32-44 | The new root is one empty leaf without parent or neighbour, in a transaction of its own: replaying the images it committed on the pages before gives the pages after, no page outside the tree changes but the header, and page ownership is conserved. |
| `BPlusTree.BTree.Search` | src/btree/btree.cpp:87-99 | On every tree that satisfies the invariant, search returns the value the represented map has for the key, and nothing for a key outside it. |
| `BPlusTree.BTree.SearchFrom` | src/btree/btree.cpp:67-99 | A tree opened with any of its pages as the root finds a key if and only if the map has it and it lies in that page's interval. |
| `BPlusTree.BTree.FindLeafPageWithPath` | src/btree/btree.cpp:67-85 | The descent ends, at the one leaf whose key interval contains the key; the recorded path is its chain of ancestors from the root. |
| `BPlusTree.BTree.Insert` | src/btree/btree.cpp:101-105 | An insert in a transaction of its own: the map gains the pair, or the key was there, the call fails and the map is the same; the invariant holds after the commit, the pages of all owners are conserved, and replaying exactly the images the store committed, none if the call failed, on the pages it began with rebuilds tree, free list and header. |
| `BPlusTree.BTree.SearchByOldRoot` | src/executor/executor.cpp:1154-1162 | The catalog gets a new root number in a transaction of its own, after the insertion.  Until then a tree opened by the old number finds exactly the keys of that page's interval: all of them if and only if the root did not change; if the tree was a single leaf that was split, a key that was there before is not found. |
| `Cascade.OnlyTheRootHasAll` | src/btree/btree.cpp:67-85 | On every valid tree the root is the only page whose interval holds every key. |
| `Cascade.LookupFinds` | src/btree/btree.cpp:67-99 | The descent read as a function of the pages alone, from any page of a valid tree, returns what the map has for a key of that page's interval. |
| `BPlusTree.BTree.InsertIn` | src/btree/btree.cpp:107-132 | Insert refines map insertion on every valid tree: duplicate exactly if the key is in the map, and then neither pages, log nor map change; otherwise the map gains the pair and the invariant (separators bound subtrees, one depth, parent fields, leaf chain, everything logged, pages conserved) is kept.  If all keys have one size and all values one size, every page of the tree still fits afterwards, through all splits above. |
| `BPlusTree.BTree.InsertIntoLeaf` | src/btree/btree.cpp:134-147 | Written into the leaf that is responsible for the key, the entry adds exactly this pair to the map and keeps the invariant. |
| `BPlusTree.BTree.DivideLeaf` | src/btree/btree.cpp:149-178 | The upper half of the entries, by number, is in a new leaf that takes the old one's place in the chain; the tree is well formed but for one split that waits for its parent. |
| `BPlusTree.BTree.SplitLeaf` | src/btree/btree.cpp:149-183 | Splitting a leaf, with the whole cascade it sets off, keeps the invariant, the map and page ownership. |
| `BPlusTree.BTree.DivideInternal` | src/btree/btree.cpp:185-232 | The middle separator leaves the node, what is above it moves to a new node whose children are relabelled, and the tree is well formed but for one split that waits for its parent; the termination measure drops by two. |
| `BPlusTree.BTree.SplitInternal` | src/btree/btree.cpp:185-235 | The split and the cascade above it leave everything on and below the children's level as it was; the number of spare separators drops, which makes the mutual recursion end although a split is followed by an insertion that may split again. |
| `BPlusTree.BTree.InsertIntoParent` | src/btree/btree.cpp:237-330 | Whatever the branch (new root, split before writing with the parent read again, plain link, split of a parent found full afterwards), the pending right half is listed by exactly one parent, nothing below is changed and pages are conserved. |
| `BPlusTree.BTree.GrowNewRoot` | src/btree/btree.cpp:243-268 | Above a split root there is a new root with one separator and the two halves below it, whose parent fields are set. |
| `BPlusTree.BTree.LinkInParent` | src/btree/btree.cpp:296-321 | The separator sorts into the slot of the page that was split and the slot after it is redirected to the right half, whether that slot is a cell or the rightmost child. |
| `BPlusTree.BTree.WithCell` | src/btree/btree.cpp:299-314 | Appending, sorting and redirecting the next slot amounts to inserting the separator in its slot and pointing the following child to the right half. |
| `BPlusTree.BTree.SplitIfFull` | src/btree/btree.cpp:323-329 | The split for the safety margin happens on full parents only and keeps the invariant. |
| `BPlusTree.BTree.Remove` | src/btree/btree.cpp:519-523 | A removal in a transaction of its own: the map loses the key, or the key was missing, the call fails and the map is the same; the invariant holds after the commit, the pages of all owners are conserved, and replaying exactly the images the store committed, none if the call failed, on the pages it began with rebuilds tree, free list and header. |
| `BPlusTree.BTree.RemoveIn` | src/btree/btree.cpp:525-550 | Remove refines map deletion on every valid tree: missing exactly if the key is not in the map, and then nothing changes; otherwise the map loses the key and the invariant is kept through redistribution, merges, recursion and root collapse.  With keys of one size and values of one size, every page still fits afterwards if two underfull internal nodes fit one page with their separator. |
| `BPlusTree.BTree.RemoveFromLeaf` | src/btree/btree.cpp:552-563 | Erasing the entry removes exactly this key from the map and keeps the invariant. |
| `BPlusTree.BTree.HandleUnderflow` | src/btree/btree.cpp:614-660 | It ends on the length of the path.  Below the root, one entry is borrowed if a neighbour is not underfull, and otherwise the tree loses at least one page; a root without separators gives way to its child, any other root stays as it is; the invariant and page ownership are kept. |
| `BPlusTree.BTree.TryRedistribute` | src/btree/btree.cpp:662-826 | It succeeds exactly if one of the two neighbours below the same parent is not underfull; then the nearest entry (or child, with the separator rotated) of such a neighbour has moved and the tree is valid again; otherwise nothing changed. |
| `BPlusTree.BTree.BorrowLeafFromLeft` | src/btree/btree.cpp:675-701 | The last entry of the left leaf is the first of this one, the parent's separator fits again, the map is the same. |
| `BPlusTree.BTree.BorrowLeafFromRight` | src/btree/btree.cpp:753-780 | The first entry of the right leaf is the last of this one, the parent's separator fits again, the map is the same. |
| `BPlusTree.BTree.BorrowInternalFromLeft` | src/btree/btree.cpp:703-740 | The last child of the left node comes below this one with the separator, the promoted key goes up, the moved child's parent field is set, the map is the same. |
| `BPlusTree.BTree.BorrowInternalFromRight` | src/btree/btree.cpp:782-818 | The first child of the right node comes below this one with the separator, the promoted key goes up, the moved child's parent field is set, the map is the same. |
| `BPlusTree.BTree.MergeWithSibling` | src/btree/btree.cpp:828-944 | Two neighbours become one node holding all entries of both (with the separator between two internal nodes); exactly the absorbed page leaves the tree and it becomes the head of the free list; the parent may be left without separators, everything else is valid. |
| `BPlusTree.BTree.DropSeparator` | src/btree/btree.cpp:902-938 | Redirecting the first slot that points to the absorbed page, erasing the separator and fixing the rightmost child together remove exactly one separator and one child. |
| `BPlusTree.BTree.CollapseRoot` | src/btree/btree.cpp:615-635 | A root without separators is freed and its only child is the root; map and invariant are kept. |
| `BPlusTree.BTree.CommitTree` | src/wal/wal_manager.cpp:50-72 | The copy-back of a commit changes no page but the header, and the pages it leaves are those of the begin with the logged images over them. |
| `BPlusTree.OtherTreeUndisturbed` | src/btree/free_list_manager.cpp:23-76 | Two trees on one store: whatever one of them does under its contract, the other one stays valid, represents the same map, and their pages stay apart from each other and from the free list. |
| `ShiftSteps.ShiftLeavesKeeps` | src/btree/btree.cpp:675-780 | Dividing the entries of two neighbouring leaves anew, at any place, keeps the whole-tree invariant and the map. |
| `ShiftSteps.ShiftInternalsKeeps` | src/btree/btree.cpp:703-818 | Dividing the children of two neighbouring internal nodes anew, around any separator, keeps the whole-tree invariant and the map. |
| `ShiftSteps.DonatedKeyIsFoundIff` | src/btree/btree.cpp:771-778 | Two leaves below one parent: after the right one has given its first entry to the left one and the parent's separator was replaced, a search from the parent for that key returns its value if and only if the right leaf had a second entry, and nothing otherwise. |
| `ShiftSteps.LoneDonorIsAccepted` | src/btree/btree.cpp:669-672 | Such a leaf passes the source's guard for donors: two leaves, the right one with a single entry that takes more than half of the capacity and is not underfull; the search finds its key before the entry moves and nothing afterwards. |
| `RemoveSteps.MergeLeavesKeeps` | src/btree/btree.cpp:863-944 | Merging two neighbouring leaves and dropping their separator keeps the invariant (the parent may be left thin), the map and the leaf chain. |
| `RemoveSteps.MergeInternalsKeeps` | src/btree/btree.cpp:872-944 | Merging two neighbouring internal nodes around their separator keeps the invariant (the parent may be left thin) and the map. |
| `RemoveSteps.CollapseRootKeeps` | src/btree/btree.cpp:615-635 | A root with a single child may be taken off: the invariant and the map stay. |
| `InsertSteps.SplitLeafKeeps` | src/btree/btree.cpp:149-178 | A leaf cut at any place leaves a tree that is well formed but for the pending right half, and the same map. |
| `InsertSteps.SplitInternalKeeps` | src/btree/btree.cpp:185-232 | An internal node cut at any separator leaves a tree that is well formed but for the pending right half, and the same map. |
| `InsertSteps.LinkRightKeeps` | src/btree/btree.cpp:296-321 | Listing the pending right half in the parent keeps the whole-tree invariant. |
| `InsertSteps.GrowRootKeeps` | src/btree/btree.cpp:243-268 | A new root above the two halves of the old one keeps the whole-tree invariant. |
| `TreeShape.OnePage` | src/btree/btree.cpp:67-85 | On each level at most one page is responsible for a key, so the descent cannot end elsewhere. |
| `TreeShape.ShapeFrame` | src/btree/btree.cpp:101-944 | Pages outside the tree do not matter to the invariant. |
| `BPlusTree.BTree.ScanAll` | src/btree/btree.cpp:332-363 | The list of all pairs of the map, in key order. |
| `BPlusTree.BTree.RangeScan` | src/btree/btree.cpp:365-389 | Exactly the pairs with start <= key <= end, in key order, although the walk starts in the middle of the chain and stops early. |
| `BPlusTree.BTree.PrefixScan` | src/btree/btree.cpp:403-430 | Exactly the pairs whose key begins with the prefix, in key order. |
| `BPlusTree.BTree.BoundedScan` | src/btree/btree.cpp:448-517 | Exactly the pairs whose key begins with the prefix and whose next element lies within the bounds, inclusive or not, in key order; without bounds it is the prefix scan.  Keys are longer than the prefix, which the source assumes when it reads the next element. |
| `Scans.ScansAreFilters` | src/btree/btree.cpp:332-517 | Every scan returns the full scan filtered by its criterion, in the same order. |
| `Scans.PrefixContiguous` | src/btree/btree.cpp:394-430 | Keys with one prefix are contiguous in the key order, so stopping at the first other key loses nothing. |
| `Scans.StopIsFinal` | src/btree/btree.cpp:365-517 | Once a scan stops, no later key would have been selected. |
| `Space.MergedLeavesFit` | src/btree/btree_node.cpp:240-249 | Merging two underfull leaves always fits the page. |
| `Space.BorrowedEntryFits` | src/btree/btree_node.cpp:240-249 | An underfull leaf has room for a borrowed entry of at most half the capacity. |
| `Space.InsertAfterSplitFits` | src/btree/btree.cpp:119-131 | After a split before entry mid, the new entry fits its half if and only if the room the other half left, with what was free before, is at least its size. |
| `Space.UniformInsertAfterSplitFits` | src/btree/btree.cpp:119-183 | With entries of one size, two of which fit a page, one split always makes room. |
| `Space.SplitMayNotMakeRoom` | src/btree/btree.cpp:119-131 | A leaf that fits and an admissible entry for which the one split by entry count does not make room: nothing checks again, so the write overflows. |
| `Space.MergedInternalsFit` | src/btree/btree.cpp:869-880 | The merge of two internal nodes fits if and only if the separator between them also finds room. |
| `Space.MergedInternalsMayNotFit` | src/btree/btree.cpp:869-880 | Two underfull internal nodes of 185 one-INT separators each merge into 4081 bytes, two more than the capacity. |
| `Space.OverflowingLeafHasTwo` | src/btree/btree.cpp:119-127 | A leaf without room for a small entry has two entries, so both halves of its split are not empty. |
| `Space.DonorLeafHasTwo` | src/btree/btree.cpp:669-672 | A leaf of small entries that is not underfull keeps an entry when it donates one. |
| `Space.CrowdedInternalHasFour` | src/btree/btree.cpp:278-329 | An internal node that is split has at least four separators, so that both halves keep one. |
| `PageSizes.SizedFits` | src/btree/btree_node.cpp:222-249 | A tree whose entries have one size and whose nodes hold no more of them than fit by number fits its pages byte for byte; new trees, insertions and removals keep to this. |
| `PageSizes.MergesFitIff` | src/btree/btree.cpp:869-880 | The condition for removals is exact: with it any two underfull internal nodes merge into one that fits, without it the fullest two do not. |
| `PageSizes.MergesFitInNumbers` | src/btree/btree.cpp:869-880 | In numbers: a separator of s bytes must be at most 3 more than twice the remainder of 2038 by s; keys of one INT fail this. |
| `PageSizes.AddAfterSplit` | src/btree/btree.cpp:119-131 | The leaf that takes the entry has room for it, because it had or because it was split by number. |
| `PageSizes.LinkAfterSplit` | src/btree/btree.cpp:278-321 | The node that takes the separator has room for it, because it had or because the split before left at most half of the separators above the page. |
| `PageSizes.HalvedAboveStays` | src/btree/btree.cpp:185-235 | The splits a split sets off further up leave the two halves as they are. |
| `Paging.Pager.Allocate` | src/btree/free_list_manager.cpp:23-51 | The head of the free list, which becomes shorter by it, or else a page added to the file; the chain stays acyclic and ends at the sentinel, and replaying the log still gives the new head. |
| `Paging.Pager.Free` | src/btree/free_list_manager.cpp:53-76 | The page becomes the head of the free list, in front of the old chain; page and header are logged. |
| `Paging.Pager.Commit` | src/wal/wal_manager.cpp:50-72 | Redo completeness: replaying the transaction's log on the pages it began with gives exactly the committed pages and the head of the free list; of the pages in the pool the copy-back changes at most the header. |
| `Paging.ChainPush` | src/btree/free_list_manager.cpp:53-76 | A page in front of a chain of free records is a chain again. |
| `Paging.ChainPop` | src/btree/free_list_manager.cpp:30-44 | The rest of a chain is a chain that does not hold its head; a chain is empty exactly if its head is the sentinel. |
| `RedoLog.TwoPassesAgree` | src/wal/wal_manager.cpp:81-118 | On a log in which no frame of a transaction follows its commit frame, collecting all images first and replaying committed transactions afterwards replays exactly what each commit frame committed. |
| `RedoLog.ReusedNumberReplaysTooMuch` | src/wal/wal_manager.cpp:81-118 | With a reused transaction number it does not: a write after the commit is replayed as well.  No run of the machine reaches such a log: the invariant says that no frame of a transaction follows its commit frame. |
| `RedoLog.CompleteFramesAreRead` | src/wal/wal_manager.cpp:81-105 | From a log cut off at any byte, the read loop gets exactly the frames that are complete. |
| `RedoLog.FoldAt` | src/wal/wal_manager.cpp:107-115 | Where the replayed transactions have an image of a page, what the file held before does not matter. |
| `Recovery.StepKeeps` | src/wal/wal_manager.cpp:30-132 | Every step of the program, of its environment and every crash keeps the crash-safety invariant, and no transaction reported committed is forgotten. |
| `Recovery.RunKeeps` | src/wal/wal_manager.cpp:30-132 | The same along every run, for any interleaving of begin, write, commit, abort, write-back, checkpoint, crash and the steps of recovery. |
| `Recovery.CrashSafety` | src/wal/wal_manager.cpp:30-118 | Whatever a crash leaves of the log (any prefix that covers the last sync) and of the file (any mixture of unsynced page writes), redoing the log gives the pages of the committed transactions in order: all those reported committed and at most the one in doubt. |
| `Recovery.EveryRunIsCrashSafe` | src/wal/wal_manager.cpp:30-118 | The same after every run from a fresh database. |
| `Recovery.RecoveringAgainChangesNothing` | src/wal/wal_manager.cpp:81-118 | A crash during recovery, or whenever no commit is in doubt, leaves the same committed transactions. |
| `Recovery.RedoTwice` | src/wal/wal_manager.cpp:107-115 | Redoing the same transactions twice gives the pages that redoing them once gives. |
| `Recovery.RecoveryEnds` | src/wal/wal_manager.cpp:81-132 | When recovery has truncated the log, pool and disk hold exactly the committed contents. |
| `Recovery.RecoveryCompletesIff` | src/wal/wal_manager.cpp:107-115 | Recovery completes after every crash that leaves a given log if and only if every page it has a committed image of lies within the synced length of the file. |
| `Recovery.LostExtension` | src/storage/disk_manager.cpp:111-150 | A committed transaction with a page beyond the synced length: if the crash loses the extension of the file, the fetch in recovery fails although the commit was reported. |
| `Recovery.ExtensionIsLost` | src/storage/disk_manager.cpp:111-150 | From every fresh database a run of six steps gets there: the commit of a page new in the file is reported, a crash loses the extension, and the recovery that follows fails. |
| `Recovery.WritebackIsSafeIff` | src/storage/buffer_pool.cpp:109-119 | A page may be written back before its transaction commits if and only if it is unchanged since the last checkpoint, unknown to the committed transactions, or has its committed contents in the synced log; otherwise some crash brings the uncommitted contents back for good. |
| `Recovery.StolenPageComesBack` | src/storage/buffer_pool.cpp:109-119 | From every fresh database: a page is changed and evicted before the commit, and a crash can bring the change back for good. |
| `Recovery.AbortedChangeStays` | src/wal/wal_manager.cpp:74-79 | From every fresh database: a transaction changes a page and aborts, and write-backs and a checkpoint make the change permanent. |
| `Recovery.LeavingIsSafeIff` | src/wal/wal_manager.cpp:30-33 | A transaction may be left without committing, by abort or (as the source does after a throw) by the next begin, if and only if it has left no change in the pool: otherwise some continuation by write-backs, a sync and a truncation leaves a committed page wrong on the disk for good. |
| `Recovery.CommitIsSafeIff` | src/wal/wal_manager.cpp:50-72 | A transaction may be committed if and only if every page it changed in the pool has been logged: otherwise some continuation by write-backs, a sync and a truncation leaves a committed page wrong on the disk for good. |
| `Recovery.NextAfterAll` | src/wal/wal_manager.cpp:81-118 | The next transaction number recovery settles on is above those of all transactions committed in the log. |
| `LogManager.WalManager.Commit` | src/wal/wal_manager.cpp:50-72 | The method is a run of the machine's steps: commit frame, sync, one copy-back a page; it ends with the transaction in the history, reported, and its images in the pool.  From a state that is safe against crashes it leads to another one if and only if every changed page had been logged. |
| `LogManager.WalManager.Write` | src/wal/wal_manager.cpp:35-48 | One page image is appended to the log and remembered as the transaction's latest. |
| `LogManager.WalManager.Abort` | src/wal/wal_manager.cpp:74-79 | The remembered images are forgotten; log and pool stay.  From a safe state it leads to a safe state if and only if the pool holds no change of the transaction. |
| `LogManager.WalManager.Checkpoint` | src/wal/wal_manager.cpp:120-132 | Every page of the pool is durable before the log is emptied.  From a safe state it leads to a safe state if and only if no change in the pool was uncommitted; the crash-safety invariant then holds throughout. |
| `LogManager.WalManager.Recover` | src/wal/wal_manager.cpp:81-118 | Recovery replays the committed transactions in order and ends with a checkpoint, or stops at the first page that lies beyond the end of the file; the invariant holds throughout. |
| `LogManager.WalManager.ReadLog` | src/wal/wal_manager.cpp:81-105 | The first pass finds the committed transactions in order and the last image of each page per transaction. |
| `LogManager.TreeTransactionsAreLogged` | src/wal/wal_manager.cpp:35-72 | Commit of the page store the B+ tree works on keeps to the rule crash safety asks of clients: if store and machine agreed when the transaction began, then at its commit every changed page has its image in the log. |
| `Buffering.BufferPool.FetchPage` | src/storage/buffer_pool.cpp:19-35 | For any pool size and run: the frame holds the latest contents of the page and is pinned once more, no page's latest contents change, pinned pages stay where they are, a page that leaves is the least recently touched unpinned one; it fails for lack of a slot exactly if the page is not in the pool and all slots are pinned. |
| `Buffering.BufferPool.NewPage` | src/storage/buffer_pool.cpp:48-59 | The file grows by one page of zeros, which is in the pool with one pin; without a free slot it fails, but the file has grown. |
| `Buffering.BufferPool.UnpinPage` | src/storage/buffer_pool.cpp:37-46 | One pin less and the dirty mark, nothing else; the latest contents of all pages stay, provided a client that changed the page says so with its last pin. |
| `Buffering.BufferPool.EvictSlot` | src/storage/buffer_pool.cpp:98-107 | The victim is the least recently touched unpinned slot; none exists exactly if all are pinned. |
| `Buffering.BufferPool.EvictFrame` | src/storage/buffer_pool.cpp:109-119 | The slot is empty, a dirty page has been written, no page's latest contents changed. |
| `Buffering.BufferPool.Touch` | src/storage/buffer_pool.cpp:121-125 | The list stays a permutation of the slots, ordered by when they were last touched. |
| `Buffering.BufferPool.FlushAll` | src/storage/buffer_pool.cpp:78-96 | No frame is dirty, and with no client in the middle of a change the file is the pool's view. |
| `Buffering.EmptiedKeeps` | src/storage/buffer_pool.cpp:109-119 | Emptying an unpinned slot keeps page table, metadata and list consistent and every page's latest contents. |
| `Buffering.TouchedKeeps` | src/storage/buffer_pool.cpp:121-125 | Moving a slot to the front keeps the list a permutation in order of recency. |
| `Buffering.LastUnpinnedIsOldest` | src/storage/buffer_pool.cpp:98-107 | The last unpinned slot of the list is the one touched longest ago. |
| `Buffering.FreeSlotIff` | src/storage/buffer_pool.cpp:98-107 | All slots are pinned if and only if as many pages are pinned as there are slots. |
| `PinDiscipline.TreeClient.Insert` | src/btree/btree.cpp:107-330 | With three slots not taken by others, an insert never runs out of slots, whatever the tree looks like and whether or not it throws for a duplicate key; all pin counts are as before, no changed page is left unmarked, and every image is logged from a frame that still holds its page although the pin is gone. |
| `PinDiscipline.TreeClient.Remove` | src/btree/btree.cpp:525-944 | The same for a removal, also when it throws for a missing key or for a page missing among its parent's children. |
| `PinDiscipline.TreeClient.Scan` | src/btree/btree.cpp:332-517 | The same for the four scans, with one slot. |
| `PinDiscipline.TreeClient.Search` | src/btree/btree.cpp:87-99 | The same for search, with one slot. |
| `PinDiscipline.TreeClient.WriteTogether` | src/btree/btree.cpp:149-235 | Two nodes pinned together, and a child at a time on top of them: three pins at once, all given back. |
| `PinDiscipline.TreeClient.MergePages` | src/btree/btree.cpp:847-892 | The absorbed page is given back as clean, which is right because only the other one was written. |
| `PinDiscipline.TreeClient.TwoSlotsAreNotEnough` | src/btree/btree.cpp:208-226 | With two slots left, a split that pins its two halves runs out at the first child nobody has pinned, and the throw leaves both halves pinned. |
| `TableStates.OneEntryPerRow` | src/table/table.cpp:107-129 | On coherent state each index holds exactly one entry for each row without NULL in its columns, and none for the others. |
| `TableStates.WithRowKeeps` | src/table/table.cpp:114-121 | Storing a new row that clashes with no row in a unique index, with its entries, keeps the table and all its indexes coherent. |
| `TableStates.WithoutRowKeeps` | src/table/table.cpp:123-129 | Removing a row with its entries keeps the table and all its indexes coherent. |
| `TableStates.ViolatesMeansClash` | src/index/index.cpp:40-51 | The uniqueness check by index entries finds something exactly if another row has the same values. |
| `Tables.Index.CheckUnique` | src/index/index.cpp:40-51 | True exactly if the index is not unique or no entry holds the value under another key. |
| `Tables.Index.InsertEntry` | src/index/index.cpp:62-73 | A value with NULL is not indexed; otherwise exactly this entry is added, or the call is refused and nothing changes. |
| `Tables.Index.RemoveEntry` | src/index/index.cpp:82-87 | Exactly this entry is removed, or the call is refused and nothing changes. |
| `Tables.Table.Insert` | src/table/table.cpp:135-173 | The row is stored with its index entries exactly if it is whole, has a key, the key is new and so are its unique values; otherwise no tree changes; coherence holds in both cases. |
| `Tables.Table.Update` | src/table/table.cpp:203-264 | One row is replaced, wherever its key moves, or nothing changes; coherence holds in both cases. |
| `Tables.Table.DeleteRow` | src/table/table.cpp:270-281 | Row and entries are gone, or the key was missing and nothing changes. |
| `Tables.Table.DeleteWhere` | src/table/table.cpp:287-310 | Exactly the rows the predicate accepts are gone, each with its entries. |
| `Tables.Table.UpdateMatched` | src/table/table.cpp:317-438 | A batch update is all or nothing: it is applied exactly if the batch is acceptable and then the table is the simultaneous update of all matched rows; otherwise nothing changed. |
| `Tables.Table.ApplyBatch` | src/table/table.cpp:411-438 | In phase 2 only the first serialization can fail; no later removal, insertion or unique check does. |
| `Tables.Table.PlanBatch` | src/table/table.cpp:317-377 | Phase 1 accepts the batch exactly if every new row has a key and its unique values are free in the table and in the batch; no tree is touched. |
| `Tables.Table.CheckKeys` | src/table/table.cpp:379-409 | Phase 1b accepts exactly if no new key is taken by the table or the batch. |
| `BatchUpdates.ValidationIsComplete` | src/table/table.cpp:317-438 | The two phases and one serializable row are the whole validation: together they hold exactly if the batch is acceptable. |
| `BatchUpdates.NextMoveIsFree` | src/table/table.cpp:411-438 | When the rows before it have moved, the next row is where it was, its new key is free and no unique index objects. |
| `BatchUpdates.MoveKeeps` | src/table/table.cpp:411-438 | Moving one more row keeps table and indexes coherent. |
| `BatchUpdates.SimultaneousIsUnique` | src/table/table.cpp:411-438 | The simultaneous update of a batch is determined by its rows. |
| `BatchUpdates.MoveAll` | src/table/table.cpp:411-438 | Moving the rows one by one, in any batch that was accepted, gives the simultaneous update, coherent with all indexes. |
| `Schemas.SerializableTogether` | src/table/table.cpp:411-438 | Stored rows that are assigned the same values can all be stored again, or none can, which is why only the first serialization of a batch may fail. |
| `Tables.Table.InitAutoIncrement` | src/table/table.cpp:66-77 | A table opened anew takes one more than its last key, or 1 if it is empty. |
| `Counters.FilledKeysAreNew` | src/table/table.cpp:135-173 | Over every sequence of insertions on one table object: as long as the key -1 is not stored, a key filled in from the counter is new. |
| `Counters.CounterIsSafeIff` | src/table/table.cpp:165-171 | After storing a given key no row without a key is ever refused, until the numbers run out, if and only if the key is not -1 or the table was empty. |
| `Counters.NeverRefusedMeans` | src/table/table.cpp:135-173 | Rows without a key are never refused exactly if the keys from the counter on, read as unsigned, are all free. |
| `Counters.FourthRowIsRefused` | src/table/table.cpp:135-173 | A new table is given the keys 1 and -1 and two rows without a key: the second of them is refused as a duplicate. |
| `Counters.OpenedKeyIsNewIff` | src/table/table.cpp:66-77 | The first row without a key in a table opened anew is refused if and only if the largest and the smallest INT are both keys. |
| `ForeignKeys.FindsParentIff` | src/executor/executor.cpp:2626-2675 | The lookup by primary key or unique index finds a parent exactly if a row of the parent table offers the values. |
| `ForeignKeys.FindChildrenIs` | src/executor/executor.cpp:2677-2707 | The lookup in the child's index finds exactly the rows that refer to the parent by this foreign key. |
| `ForeignKeys.RemovalKeepsIntegrity` | src/executor/executor.cpp:2709-2741 | A row no other row refers to may go. |
| `ForeignKeys.ClosureIsGone` | src/executor/executor.cpp:2709-2741 | Once a row is removed and integrity holds, everything reached from it by cascading references is removed. |
| `Cascading.Executor.DeleteRowCascading` | src/executor/executor.cpp:2709-2741 | It ends because children belong to younger tables.  Referential integrity holds after it, also when a RESTRICT stops it midway.  If it goes through, exactly its closure is gone, and no restricting reference pointed to the row itself, or from outside the closure into it.  If none has both ends inside the closure, the deletion is restricted if and only if one comes from outside.  Where it is restricted it stopped at a restricting foreign key, or at a row that could not go when its turn came, everything listed before that is gone and nothing outside the closure is. |
| `CascadeExamples.DeleteIsRefused` | src/executor/executor.cpp:2709-2741 | A database made by the executor's own statements on which a deletion is refused although it has removed a row on the way. |
| `CascadeExamples.DeleteGoesThrough` | src/executor/executor.cpp:2709-2741 | A database made by the executor's own statements whose cascade reaches a restricting reference, and on which the deletion goes through all the same and takes both ends of the cascade, because the restricting row has gone before. |
| `Cascading.Executor.ExecuteDelete` | src/executor/executor.cpp:1949-2002 | The matched rows are removed up to the first restricted one, of their table exactly those and elsewhere only their closures; the count is the number of rows the table lost; integrity and constraints hold. |
| `Cascading.Executor.FindReferencingChildren` | src/executor/executor.cpp:2677-2707 | The list names exactly the rows that refer to the row, foreign key by foreign key. |
| `Cascading.Executor.CheckForeignKeysOnWrite` | src/executor/executor.cpp:2626-2675 | It passes exactly if every reference without NULL has a parent (MATCH SIMPLE, section 11.8 of ISO/IEC 9075-2). |
| `Cascading.Executor.ExecuteInsert` | src/executor/executor.cpp:1084-1165 | The row is stored exactly if it passes the CHECK constraints, all its references, as it came, are satisfied and the table accepts it, with the outcome saying which failed first; integrity then holds if and only if the references of the row as it was stored are satisfied, and the constraints go on holding if and only if that row passes them. |
| `Checks.FindViolatedCheck` | src/executor/executor.cpp:2599-2619 | The first constraint the row violates, NULLs passing, and none exactly if it passes all. |
| `Checks.FilledKeyPassesIff` | src/executor/executor.cpp:1140-1156 | The check sees NULL where the counter's value will be, and passes.  The row as stored passes if and only if this value meets every constraint on the auto-increment column. |
| `Cascading.ArrivalPassesIff` | src/executor/executor.cpp:1140-1156 | A new row keeps all rows of all tables within their constraints if and only if it passes those of its table. |
| `Cascading.ArrivalKeepsIntegrityIff` | src/executor/executor.cpp:1149-1156 | A new row keeps referential integrity if and only if all its references are satisfied. |
| `Cascading.FilledKeyIsSatisfiedIff` | src/executor/executor.cpp:1149-1156 | The check sees NULL where the counter's value will be, and passes.  The row as stored satisfies its references if and only if every foreign key with the auto-increment column has a parent for the counter's next value, or a NULL in another column. |
| `Cascading.Executor.ExecuteUpdate` | src/executor/executor.cpp:1822-1943 | Refused for a CHECK exactly if some new row violates one; else for a foreign key exactly if some matched row would refer to nothing, or is referred to and an assignment changes a referenced column; otherwise the whole batch or nothing; integrity and all constraints hold in every case. |
| `Cascading.UpdateKeepsIntegrity` | src/executor/executor.cpp:1885-1921 | A batch update all of whose rows pass the checks keeps referential integrity. |
| `Cascading.Executor.ResolveForeignKey` | src/executor/executor.cpp:713-792 | A declaration is accepted exactly if it names an existing other table by its primary key or a unique index, in the same order and with the same column types; the result records that key. |
| `Cascading.Executor.CreateTable` | src/executor/executor.cpp:681-868 | Created exactly if the name is new and every declared foreign key is accepted; the table is empty, has one index for each unique constraint and foreign key, and the other tables are untouched; integrity and constraints hold. |
| `Cascading.Executor.DropTable` | src/executor/executor.cpp:935-956 | Dropped exactly if it exists and no foreign key refers to it; integrity and constraints hold. |
| `Cascading.ReferencesAreAcyclic` | src/executor/executor.cpp:713-726 | References between tables form no cycle. |
| `IndexSeeds.ConstraintsAreNecessary` | src/executor/executor.cpp:210-284 | For every WHERE tree, a row it accepts meets all constraints collected from its ANDs. |
| `IndexSeeds.BuildSeed` | src/executor/executor.cpp:286-345 | The longest run: every column of the prefix has an equality, given by its constraint as the column stores it, and the next one has none or the index ends there; after the run there is one range exactly if that column has bounds. |
| `IndexSeeds.FindIndexPrefix` | src/executor/executor.cpp:286-360 | The chosen index has the longest seed, the first of several; none is chosen exactly if no index has one. |
| `IndexSeeds.SeedSelectsIff` | src/executor/executor.cpp:286-360 | A stored row that meets the constraints has index values the seed selects if and only if it compares with the literals as their columns store them, in every column the seed uses. |
| `IndexSeeds.CoercedCompares` | src/executor/executor.cpp:138-157 | A comparison with a stored value holds if and only if it holds of the literal as the column would store it, floats compared with an INT column aside. |
| `IndexSeeds.SafeCompares` | src/executor/executor.cpp:138-157 | With a safe literal, whatever the predicate accepts the index is asked for. |
| `FloatLiterals.FloatLiteralIsSafeIff` | src/executor/executor.cpp:138-157 | A float literal compared with an INT column asks the index for every row the predicate accepts if and only if it is coerced to no integer, or is the float of no smaller integer (for = and >=) and of no greater one (for = and <=); strict bounds are always safe.  For the float 2 to the 31st, whatever integer it is coerced to, the condition is one on that integer.  Integers become floats by rounding to nearest, ties to even. |
| `FloatLiterals.BoundsInNumbers` | src/executor/executor.cpp:138-157 | In numbers, for one-sided bounds: a float is the image of no smaller, or of no greater integer, except from 2 to the 24th on, where below 2 to the 25th only an odd significand still is; the floats 2 to the 24th and its negative are so on one side. |
| `FloatLiterals.TopLiteral` | src/executor/executor.cpp:138-157 | The float 2 to the 31st passes the range test and is coerced to some integer: for each comparison, exactly which integers keep it safe. |
| `FloatLiterals.LoneInNumbers` | src/executor/executor.cpp:138-157 | In numbers: an equality is safe up to 2 to the 24th, and then, below 2 to the 25th, for the floats with an odd significand. |
| `FloatLiterals.RoundedKeepsOrder` | src/executor/executor.cpp:67-103 | Rounding keeps the order of integers, across all changes of spacing. |
| `FloatLiterals.SixteenMillionAndOne` | src/executor/executor.cpp:138-157 | 16777216 and 16777217 are the same float: an equality with it accepts both, the index is asked for one. |
| `Binary32.ConversionsAreIeee` | src/executor/executor.cpp:138-157 | The conversions of binary32 bit patterns, written out, round to nearest with ties to even, keep the order and truncate back; so there are conversions as the results above assume. |
| `FloatQueries.SafeIffNeverMisses` | src/executor/executor.cpp:286-399 | A literal is safe if and only if the index misses no row the clause accepts in any table; so the condition above is one on queries. |
| `FloatQueries.SixteenMillionIsMissed` | src/executor/executor.cpp:286-399 | A table whose one row has 16777217 and a query that asks for the float 16777216: the full scan returns the row, the index does not find it. |
| `IndexScans.FoundIffIndexed` | src/executor/executor.cpp:372-399 | For every literal: a matching row is found through the index if and only if none of the indexed columns is NULL in it, the seed's range, if there is one, is on the last of them, and the row compares with the literals as the columns store them, which with safe literals it always does. |
| `IndexScans.SeededScanIsFullScanIff` | src/executor/executor.cpp:372-399 | For every literal: the seeded scan returns the same multiset of rows as the full scan if and only if each accepted row meets the three conditions above; with safe literals the first two suffice. |
| `IndexScans.NotNullColumnsAreIndexed` | src/index/index.cpp:15-20 | Where the index's columns cannot be NULL, this condition always holds. |
| `IndexScans.RangeNotLastFindsNothing` | src/index/index.cpp:117-144 | With a range on a column that is not the index's last, the keys cut off are too long, and the lookup yields no row at all. |
| `IndexScans.ScanCandidates` | src/executor/executor.cpp:372-399 | The rows under the keys cut from the entries are fetched once each and judged by the whole clause; it throws exactly where one of these rows makes the clause throw. |
| `IndexScans.CoverableDependsOnCovered` | src/executor/executor.cpp:401-444 | A clause found coverable judges rows by their covered columns alone. |
| `IndexScans.ProjectedAlike` | src/executor/executor.cpp:446-469 | A select list found coverable gives rows that agree on the covered columns the same projection. |
| `IndexScans.ScanCovering` | src/executor/executor.cpp:471-527 | Rows made of index entries are those the seeded scan would fetch, agree with them on the covered columns and have the same projections. |
| `Subqueries.RunIgnoresOuter` | src/executor/executor.cpp:2370-2397 | A subquery without references outside returns the same rows whatever row it is run for, nested subqueries included. |
| `Subqueries.PrecomputeSubqueries` | src/executor/executor.cpp:2399-2434 | Every subquery of the clause is in the cache afterwards, with its answer if it is uncorrelated; it fails if and only if some subquery of the clause names an unknown table, or is uncorrelated and its run fails, in which the uncorrelated subqueries nested in it are run first, needed or not. |
| `Subqueries.CacheReadsAreRight` | src/executor/executor.cpp:2162-2210 | With such a cache every row is judged as by the evaluation that runs uncorrelated subqueries beforehand on all levels; so, where this gives an answer or all subqueries can be run, as if all had been run for the row. |
| `Subqueries.CachedIsPerRow` | src/executor/executor.cpp:2436-2495 | Whenever cached EXISTS and IN answers, nested ones included, give an answer it is that of re-evaluation for each row; and they give one, or fail, as re-evaluation does, if all subqueries of all levels can be run. |
| `Subqueries.FillsIffAllRun` | src/executor/executor.cpp:2399-2434 | Without correlated subqueries the cache can be filled if and only if the subqueries of all levels can be run, also those no row needs. |
| `Subqueries.UnneededMayThrow` | src/executor/executor.cpp:2399-2434 | A clause whose nested subquery no row needs: evaluated for a row it is false, but the cache cannot be filled. |
| `Subqueries.AnswersIgnoreOrder` | src/executor/executor.cpp:2436-2495 | The answers do not depend on the order in which a subquery's rows come, so an index may seed one without LIMIT. |
| `KeyCodec.DecodeKeyBack` | src/btree/key.cpp:36-117 | Decoding an encoded key followed by anything gives the key and consumes exactly its bytes. |
| `KeyCodec.EncodedKeySize` | src/btree/key.cpp:36-69 | The size the tree computes with is the number of bytes encoded. |
| `KeyCodec.Encode` | src/btree/key.cpp:36-69 | The loop appends exactly the encoding of the key. |
| `KeyCodec.Decode` | src/btree/key.cpp:71-117 | The loop reads what the decoding function says, and fails where it does. |
| `NodeBytes.DecodeCellsBack` | src/btree/btree_node.cpp:92-196 | Cells written one after the other are read back as they were. |
| `NodeBytes.BTreeNode.SetCells` | src/btree/btree_node.cpp:114-141 | Entries that fit lie in the page, back to front, such that reading gives them back in order; header fields and the bytes below are untouched. |
| `NodeBytes.BTreeNode.GetCells` | src/btree/btree_node.cpp:92-112 | Reading from the free-space pointer gives exactly the entries last set. |
| `NodeBytes.BTreeNode.IsFull` | src/btree/btree_node.cpp:222-238 | On the bytes of any node, leaf or internal, the guard says what the model of the node says: full exactly if fewer than 64 bytes are left beside the encoded entries. |
| `NodeBytes.BTreeNode.IsUnderfull` | src/btree/btree_node.cpp:240-249 | On the bytes of any node, leaf or internal, the guard says what the model of the node says: underfull exactly if the encoded entries take less than half the capacity. |
| `RowCodec.SetNullBitBits` | src/row/serializer.cpp:10-20 | Setting one bit of the bitmap sets it and changes no other. |
| `RowCodec.RowRoundTripIff` | src/row/serializer.cpp:110-237 | A row that can be stored is read back as it was if and only if its strings have at most 65535 bytes. |
| `RowCodec.Serialize` | src/row/serializer.cpp:110-190 | It succeeds exactly on rows that fit the schema; the bytes are a bitmap with exactly the NULL columns set and the other values in order. |
| `RowCodec.Deserialize` | src/row/serializer.cpp:196-237 | The loop reads what the decoding function says, and fails where it does. |
| `CatalogCodec.CatalogRoundTripIff` | src/catalog/catalog_manager.cpp:267-416 | The encoded catalog, with anything after it, is read back as it was if and only if it has a table or has no index. |
| `CatalogCodec.Serialize` | src/catalog/catalog_manager.cpp:161-177 | A page with the encoded catalog padded with zeros, which reads back under the same condition; none only if the encoding is longer than a page. |

## Left out

- BPlusTree.BTree.Insert: entries are required to be small (the key at most a quarter, the whole entry less than half of a page's capacity), because the source splits once and never checks the room again; without this a split may leave a node without entries, and a later removal may lose one to searches (`ShiftSteps.LoneDonorIsAccepted`).
- BPlusTree.BTree.InsertIn: that every page still fits its bytes is stated for entries of one size only, because for others the source does not ensure it (`Space.SplitMayNotMakeRoom`); the bounds that hold step by step are in `Space`.
- BPlusTree.BTree.RemoveIn: nodes are not claimed to be half full, because a donor may become underfull by donating.
- BPlusTree.BTree.SearchByOldRoot: the root's page number is a field here and the catalog's page is not modelled; what a tree finds by the number the catalog held before is stated, what a later insertion by that number would do to the tree is not.
- PinDiscipline.TreeClient.Insert: what pages hold is left open there (every branch and page number is an arbitrary choice); what they hold is the subject of `BPlusTree`.
- Tables.Table.Insert: a row of the wrong width is reported as not serializable, where the source may find another fault of the same row first; in both cases nothing changes.
- Tables.Table.UpdateMatched: rows are values; their bytes are the subject of `RowCodec`.
- Cascading.Executor.CreateTable: columns of foreign keys and constraints are given by number and CHECKs as the list their AND is flattened to; name resolution and generated index names, which could clash, are left out.
- BPlusTree.BTree.BoundedScan: keys are longer than the prefix, because for others the source reads past the end of the key.
- IndexScans.ScanCovering: a range must be on the index's last column, because for another one the source reads past the end of the index tuple.
- Cascading.Executor.DeleteRowCascading: the order in which tables are visited is left open, because it is that of a hash map in the source; where a restricting reference has both ends inside the closure, whether it stops the deletion depends on that order, and both outcomes are shown (`CascadeExamples`).
- Cascading.Executor.ExecuteInsert: DEFAULT values, which are put into the row before everything that is modelled here; the counter's next value is a parameter, which `Counters` and `Tables.Table.Insert` say more about.
- Recovery.StepKeeps: clients keep three rules the source does not enforce: they commit only what they logged (`LogManager.TreeTransactionsAreLogged` shows the B+ tree does), they leave a transaction without committing it only with a clean pool, and no uncommitted page is evicted unless that is harmless; each is shown to be exact (`Recovery.CommitIsSafeIff`, `Recovery.LeavingIsSafeIff`, `Recovery.WritebackIsSafeIff`).
- 32-bit wrap-around of page numbers, transaction numbers and sizes; the auto-increment counter does wrap around in the model.
- NaN and negative zero; a float is otherwise its bit pattern with the order of floats, and the conversions between INT and FLOAT are functions, of which `FloatLiterals` assumes what IEEE 754 says (`Binary32` shows that there are such functions) and the other modules nothing; the conversion of 2 to the 31st to an integer, undefined in the source, may give any.
- Torn page writes: a page write reaches the disk whole or not at all; the log may be torn at any byte.
- The system calls of the disk manager, file headers, paths and start-up; the disk is a durable and an unsynced part of a page map.
- The position map of the LRU list (`lru_map_`), which only speeds up finding a slot in it.
- Tokenizer, parser, command line, DESCRIBE and error texts.
- JOIN, GROUP BY, aggregates, ORDER BY, and LIMIT on a result whose order matters; results are compared as multisets.
- CREATE INDEX and DROP INDEX by the user, and pages orphaned by DROP TABLE; page ownership is conserved tree by tree.
- ON UPDATE CASCADE, which a manual test mentions but the parser does not accept.
- The fields of a node's byte header other than the free-space pointer; they are kept beside the page buffer.
