# The storage engine of SQLite, modelled and proved in Dafny

This project models the hard parts of the SQLite 3.24 storage engine (`tsrc/btree.c`, `tsrc/backup.c`,
`tsrc/bitvec.c`, `tsrc/btmutex.c`, `tsrc/analyze.c` and one function of `tsrc/build.c`) and proves what they
promise.  Each machine stands over its own state; the pager is a map from page numbers to bytes or records.
Code that changes things in place is a class or a method over an array, with loops where the source has them;
what it does is proved against predicates and functions on values, about which the lemmas are.

The parts, each in the modules named:

- **Space on a page** (`Spans`, `PageLayout`, `PageTake`, `PageRelease`, `PageCells`, `PageEdit`, `MemPages`): the
  first-fit allocator inside a page's bytes, its sorted freeblock list, the fragment byte, defragmentation in
  place, and the insertion and removal of cells.  The ghost fields of `MemPage` say where cells and freeblocks
  are; `Valid` ties them to the bytes.  `SpanHeap`, `Coverage` and `PageCheck` are the independent check: reading
  a page from its bytes, and the heap with which the integrity check finds double use and wrong fragment counts.
- **Balancing siblings** (`GatherCells`, `BalancePlan`, `SiblingUpdate`, `Dividers`, `PageDrafts`, `EditPage`,
  `SiblingRewrite`): gathering the cells, planning how many pages and where to cut, the order in which pages are
  rewritten, the bytes of the new dividers, editing a page in place, or rebuilding it, on the page's bytes, and all of
  it together.
- **Freelist, pointer map and vacuum** (`PtrMap`, `PageGraph`, `FreeLists`, `FreeState`, `VacuumState`, `ClearTrees`,
  `Databases`, `DestroyOrder`): an auto-vacuum file as a graph of pages.  Relocation is a renaming that every reader fails to
  notice; the final size is exact; root pages remain the first ordinary pages.  Section numbers 1.5 to 1.8 of the
  SQLite Database File Format describe the structures.
- **Cells and payloads** (`Varints`, `CellFormat`, `OverflowChain`, `PayloadFiles`, `PayloadCursors`): encoding,
  spilling, reading through the lazily filled cache of overflow page numbers, and freeing.
- **Cursors** (`TreeEntries`, `SeekSides`, `BtCursors`): seeking, stepping and keeping the place.  A tree is a value, a cursor the
  path of pages and indexes through it; what it stands on is a rank among the entries in key order.
- **Bitvec** (`HashSlots`, `WrappedDivisors`, `Bitvecs`): one set in three representations.
- **Backup** (`BackupCopy`, `Backups`): an incremental copy while the source changes, between any two page sizes.
- **Locks** (`TableLocks`, `BtreeMutexes`): the shared-cache table locks as a class, the mutexes of `btmutex.c` as a
  step system for any number of threads.
- **STAT4 samples** (`IndexCounts`, `Stat4`, `Stat4Steps`, `Stat4Ranks`, `Stat4Accums`, `StatText`): one pass over a
  sorted index, and which rows and key prefixes are sampled.

Where the code differs from what it says of itself, the model follows the code:

- `allocateBtreePage` with BTALLOC_LE fails when the freelist is not empty but holds no page at or below `nearby`,
  although its comment promises a page; `Databases.BtShared.Allocate` says exactly when it succeeds.
- `sqlite3_backup_step` advances `iNext` also when the source page, or a destination page, could not be had with a
  code that is not fatal, BUSY or LOCKED.  `Backups.PassLosesPage` says, for every code that these accesses return, when
  the page is then lost: exactly if what lies behind the first access that failed was not in the destination before.
  `Backups.PassSafeExactly` says for which codes this cannot happen, and `Backups.BusyPageIsLost` is an example for
  either side.
- `iDivisor` of a Bitvec wraps to zero for sizes above 4294967234; `Bitvecs.DivisorFits` gives the exact bound.  Setting
  a value then ends exactly if no rehash is called for, by `WrappedDivisors.SetEnds`.
- `btreeRestoreCursorPosition` combines `skipNext` with the result of its search by `|=`.  Where the place had been saved
  with a step back to skip, its key is gone, and the search ends above it, the cursor stands one entry too far for both
  steps.  `BtCursors.BtCursor.Slips` is that condition, on the saved cursor and the tree before the call;
  `BtCursors.BtCursor.Restore` and the steps state what they do by it, and `BtCursors.BtCursor.SavedTwice` is a run from
  a new cursor that meets it.
- The assertion in `sqlite3BtreeNext` and `sqlite3BtreePrevious` that `skipNext` is zero on a valid cursor does not
  always hold, because First, Last and MovetoUnpacked leave `skipNext` as it is; `BtCursors.BtCursor.SkipNextOutlives`
  says exactly when it does.  All results about cursors are proved without it.
- `btreeInitPage` does not test that a freeblock has four bytes, so that an accepted page, with all cells in range, may
  have more cells and freeblocks than the heap of the integrity check has slots: `PageCheck.HeapRoomExactly`,
  `PageCheck.HeapOverfull`.
- The limit of 20 on the depth of a cursor is explained by three children for each interior page below the root.  With
  a bulk load the planner may leave a page with a single cell (tsrc/btree.c:7588-7594), so that two are what is certain;
  `TreeEntries.DepthLimit` and `TreeEntries.DepthBound` say what follows from each.
- The embedded payload fraction of 64 in 255 is meant to let four cells of an index fit on every page
  (tsrc/btree.c:3134-3148).  Four need not fit on pages above 8192 bytes; three always do.  `CellFormat.MinimumFanOut`
  gives the exact condition.

`dafny verify dfyconfig.toml` checks the whole project.

## Model

| member | source | states |
|---|---|---|
| MemPages.MemPage.ZeroPage | tsrc/btree.c:1973-2003 | a raw page becomes a well-formed page without cells, all of its content area in the gap |
| MemPages.MemPage.PageFindSlot | tsrc/btree.c:1520-1566 | first fit: the slot is cut off the end of the first freeblock that is large enough, or takes all of it when the rest becomes at most 60 fragment bytes; otherwise nothing changes; the slot is disjoint from everything in use |
| MemPages.MemPage.AllocateSpace | tsrc/btree.c:1581-1656 | whenever nFree >= nByte+2 a slot is found, disjoint from every cell and freeblock and past the pointer array with its new entry; the cells keep their bytes and order |
| MemPages.MemPage.FreeSpace | tsrc/btree.c:1671-1763 | the released range is merged with freeblocks at most three bytes away on either side, or with the gap, and the fragment byte gives back exactly the bytes in between; the list stays sorted and nothing in use is touched |
| MemPages.MemPage.DefragmentPage | tsrc/btree.c:1379-1504 | on the fast path and the full repack the cells keep bytes and index order, no freeblock is left, and the gap is exactly nFree less the fragments that remain |
| MemPages.MemPage.SlideCells | tsrc/btree.c:1412-1454 | the fast path for one or two freeblocks moves whole runs of cells and repoints exactly the cells that moved; the fragments are untouched |
| MemPages.MemPage.Repack | tsrc/btree.c:1457-1490 | the full repack reads every cell from where it was although cells are copied over one another; no fragment is left |
| MemPages.MemPage.InsertCell | tsrc/btree.c:6545-6632 | a cell that fits is inserted at its index, nFree falls by its size and pointer, the page stays well formed and no CORRUPT code is returned; one that does not fit goes to the overflow list and nothing else changes; either way the cell is stored as it is, but for a child pointer in its first four bytes if one is given |
| MemPages.MemPage.DropCell | tsrc/btree.c:6490-6529 | the cell at the index is gone, the others are as they were, nFree grows by size and pointer, and the page stays well formed |
| PageLayout.FragmentsAreUncoveredBytes | tsrc/btree.c:1379-1504 | on a well-formed page the fragment byte is the number of content-area bytes in no cell and no freeblock |
| PageCells.FreeBytes | tsrc/btree.c:1835-1967 | nFree is gap plus freeblocks plus fragments |
| PageTake.ShrinkSound | tsrc/btree.c:1550-1555 | cutting a slot off a freeblock keeps the bookkeeping right |
| PageTake.UnlinkSound | tsrc/btree.c:1540-1549 | taking a whole freeblock turns at most three left-over bytes into fragments |
| PageRelease.ReleaseSound | tsrc/btree.c:1671-1763 | the bookkeeping is right after any release, whichever neighbours are absorbed |
| PageRelease.RegainedBound | tsrc/btree.c:1714-1741 | the fragment bytes taken back are really in the fragment byte, so the CORRUPT test does not fire |
| PageEdit.InsertSound | tsrc/btree.c:6593-6631 | shifting the pointer array and writing the cell keeps the page well formed and inserts just that cell |
| PageEdit.DropSound | tsrc/btree.c:6508-6528 | closing up the pointer array after a release removes just that cell |
| SpanHeap.BtreeHeapInsert | tsrc/btree.c:9439-9448 | the heap order is kept and exactly one entry is added |
| SpanHeap.BtreeHeapPull | tsrc/btree.c:9449-9466 | the least entry is removed and returned, the heap order is kept, although one slot past the last entry is read |
| SpanHeap.LeastChild | tsrc/btree.c:9458-9460 | the slot past the end holds the largest value and so is never taken for the smaller child |
| Coverage.PullSpans | tsrc/btree.c:9699-9721 | multiple use is reported exactly if two spans share a byte or one starts before the content area; if none do, wrong fragmentation is reported exactly if the fragment byte is not the number of uncovered bytes |
| Coverage.SubApart | tsrc/btree.c:9439-9466 | spans that are pairwise apart stay so in whatever order the heap returns them |
| PageCheck.InitPage | tsrc/btree.c:1835-1967 | a page is accepted exactly if its freeblock chain ascends with gaps of at least four bytes inside the page and cells and free space add up to no more than the page; nFree is then exact |
| PageCheck.CheckPage | tsrc/btree.c:9573-9722 | on every page that btreeInitPage accepts, with the heap of one word for each four bytes: what is reported is what is wrong, a cell out of range, a byte used twice, or a wrong fragment count; nothing is reported exactly if cells and freeblocks are disjoint and the fragment byte equals the uncovered bytes; unless the cells are in range and, with the freeblocks, more than the heap has slots, and then the heap is overrun |
| PageCheck.WellFormedIsClean | tsrc/btree.c:9483-9731 | every page the allocator keeps well formed is accepted, with the nFree it keeps, and passes the check |
| PageCheck.CleanIsWellFormed | tsrc/btree.c:9483-9731 | a page that is accepted and passes has the layout the allocator relies on exactly if its content area begins behind the pointer array and in the page, its cells and freeblocks have at least four bytes, its first freeblock is past the start of the content area, and it has at most 60 fragment bytes; neither btreeInitPage nor the check tests the last three |
| PageCheck.HeapHasRoom | tsrc/btree.c:9764-9788 | the heap of one word for each four bytes of a page has room for all cells and freeblocks of an accepted page whose freeblocks have at least four bytes each, also when they overlap |
| PageCheck.HeapRoomExactly | tsrc/btree.c:9764-9788 | without that condition, which btreeInitPage does not test, and for cells of any of the four kinds: whatever accepted page has n cells, all in range, the heap is large enough exactly if n and the largest number of freeblocks an accepted page can then have are below a quarter of its size |
| PageCheck.HeapOverfull | tsrc/btree.c:9764-9788 | a page of 512 bytes that is accepted, an index leaf with 84 cells, all in range, and 84 freeblocks, for a heap of 128 words |
| GatherCells.Gather | tsrc/btree.c:7401-7518 | the cells of the old siblings, overflow cells in their place, and the dividers between them are gathered in key order; cntNew and the initial szNew are the exact cuts and byte costs; which bytes they have is stated by GatheredEntries |
| GatherCells.GatheredEntries | tsrc/btree.c:7468-7502 | of leaves, the gathered cells are cells and dividers in order, a divider without its child pointer and padded to four bytes; of interior pages, from the fifth byte on they are cells and dividers in order, and their children, with the last right pointer, are the children and right pointers of the pages in order |
| GatherCells.DividerReads | tsrc/btree.c:7468-7502 | a divider of index leaves, gathered, parses as a leaf cell to the key, payload and local size it has as a divider |
| GatherCells.PageIsSibling | tsrc/btree.c:7510-7516 | usableSpace - nFree of a well-formed page is what its cells cost |
| GatherCells.GatheredCanBePlanned | tsrc/btree.c:7519-7562 | the planner does not give up when one sibling overflows with cells that would fit a page |
| GatherCells.UnderfullCanBePlanned | tsrc/btree.c:7519-7562 | nor when none overflows |
| GatherCells.ParsedCellsFit | tsrc/btree.c:3134-3148 | cells of one kind satisfy what the planner asks of sizes, whatever bytes they have: a table leaf cell fits an empty page, two of any other kind do |
| GatherCells.Redistribute | tsrc/btree.c:7401-7603 | from old siblings to new cuts: what the new pages and the cells at the cuts hold is, byte for byte and child by child, read in order, what the old pages and dividers held; every page fits, none is empty unless there is only one, and the sizes are evened out as Even says |
| BalancePlan.PackLeft | tsrc/btree.c:7519-7562 | packing to the left fails exactly if NB+2 pages cannot hold the cells; every page but the last is then full and szNew exact, though it may be negative in between |
| BalancePlan.Even | tsrc/btree.c:7574-7603 | each cut goes left from the packed plan exactly to the first place, counted from there, at which the right page is not empty and one more cell would make it larger than the left one, or, in a bulk load, at which it is not empty; szNew stays exact, every page within its size, and no page is empty |
| BalancePlan.PlanSiblings | tsrc/btree.c:7519-7603 | the plan exists exactly if five pages suffice, uses the fewest pages possible, and is the packed plan evened out; its cuts strictly increase to nCell and szNew[i] is the cost of page i, at most usableSpace |
| BalancePlan.PlanIsOne | tsrc/btree.c:7519-7603 | full pages and the rule for evening out leave one plan only for each list of sizes |
| BalancePlan.GreedyFewest | tsrc/btree.c:7519-7562 | full pages reach as far as any partition can |
| BalancePlan.PlannerNeverGivesUp | tsrc/btree.c:7519-7527 | three siblings, one overfull, never need more than five pages |
| SiblingUpdate.ReadBack | tsrc/btree.c:7776-7827 | the runs of gathered cells between the cuts and the cells at the cuts, read in order, give the gathered cells back; the bytes of the new dividers are the subject of MakeDivider |
| Dividers.MakeDivider | tsrc/btree.c:7776-7818 | the bytes of a new divider, whatever child pointer is then written to it: of a table, the key of the last row of the page on its left; of an index leaf, the leaf cell behind four bytes, also where the cell was padded to four bytes; of an interior page, the cell at the cut, whose old child becomes the right child |
| SiblingUpdate.DividerSeparates | tsrc/btree.c:7791-7802 | a leaf-data divider is the largest key of the page on its left |
| SiblingUpdate.UpdateSiblings | tsrc/btree.c:7829-7889 | the two passes take each page once, and none before a page that still has to read its old cells |
| SiblingRewrite.RewriteSiblings | tsrc/btree.c:7829-7889 | with editPage run on the bytes of every sibling in that order, and cells read from where they then are: each page ends well formed with exactly the cells of the plan and the nFree of the plan, and pages that are given up are as they were |
| SiblingRewrite.ReadInTime | tsrc/btree.c:7829-7878 | no cell that comes to a page is in the body of a page that has been edited already |
| SiblingRewrite.ReadCells | tsrc/btree.c:7879 | what is read for a page from the other siblings is the gathered cells |
| SiblingRewrite.BalanceSiblings | tsrc/btree.c:7401-7889 | gathering, planning and rewriting together: every new page is well formed, with its part of the gathered cells and exact nFree, evened out, and pages and cells at the cuts, read in order, hold the entries and children of the old pages and dividers, byte for byte |
| EditPage.Edit | tsrc/btree.c:6865-6957 | on the bytes of any well-formed page with overflow cells: fails exactly if cells and pointers do not fit the page, though the edit in place may run out of room at any of its steps; otherwise the page holds the nNew cells of the array from iNew on, in order and with their bytes, its pointers, freeblocks, fragments and header are sound, and nothing before the header or past the usable bytes has changed |
| EditPage.UpdatePage | tsrc/btree.c:7866-7885 | one sibling of balance_nonroot: no CORRUPT code is returned, the page is well formed again, with exactly its new cells and with nFree as the planner reckoned it |
| EditPage.Rebuild | tsrc/btree.c:6693-6735 | fails exactly if the cells do not fit; otherwise they are packed against the end of the page without freeblock or fragment, in order and with their bytes, those on the page itself being read from a copy |
| EditPage.PageFreeArray | tsrc/btree.c:6808-6851 | the cells of the range that are in the page body are released, neighbours together, and no others; the rest of the page keeps its bytes and its space stays accounted for; the result is their number |
| EditPage.PageInsertArray | tsrc/btree.c:6762-6797 | each cell gets a slot of the free list or room in front of the content area, its pointer stands in order, and cells that stay keep their bytes; where room runs out, all that was on the page is still there |
| EditPage.TrimFront | tsrc/btree.c:6888-6892 | cells before iNew leave, and the pointers of the others move down |
| EditPage.TrimTail | tsrc/btree.c:6893-6895 | cells from the new end on leave |
| EditPage.AddFront | tsrc/btree.c:6900-6911 | cells that the page gains in front enter before the others |
| EditPage.AddOverflow | tsrc/btree.c:6913-6925 | each overflow cell that belongs on the page enters at its place among the cells, whichever others are there |
| EditPage.CanRebuild | tsrc/btree.c:6953-6956 | whatever the failed edit has written, every cell that stays is still where the array says, so that the rebuild reads the right bytes |
| PageDrafts.SpaceJoin | tsrc/btree.c:6828-6849 | two ranges in use that touch may be released as one |
| PageDrafts.AddedFromGap | tsrc/btree.c:6773-6780 | a cell taken from the gap keeps the space sound although the header does not yet know where the content area begins |
| PageDrafts.EditDone | tsrc/btree.c:6934-6938 | when the header is written at the end, pointers, cells, freeblocks and fragments account for every byte of the page |
| PtrMap.CountIs | tsrc/btree.c:947-959 | the number of ordinary pages up to n, in closed form |
| PtrMap.GuessCounts | tsrc/btree.c:3746-3757 | the first estimate has the right number of ordinary pages at or before it |
| PtrMap.FinalDbSize | tsrc/btree.c:3746-3762 | the final size is an ordinary page with exactly as many ordinary pages up to it as there are pages in use |
| PtrMap.NoWrap | tsrc/btree.c:3751-3752 | the 32-bit arithmetic gives the unbounded result for up to 2147483647 pages |
| PageGraph.UniqueReferrer | tsrc/btree.c:971-1014 | every page but a root is referred to exactly once, and the pointer map says from where and how |
| PageGraph.WalkRenamed | tsrc/btree.c:3557-3628 | under a renaming of pages every tree and payload reads the same |
| PageGraph.MovedSound | tsrc/btree.c:3557-3628 | the writes of a relocation amount to a renaming, and graph and pointer map stay exact |
| PageGraph.MovedReads | tsrc/btree.c:3557-3628 | every tree reads the same after a relocation |
| Databases.BtShared.SetChildPtrmaps | tsrc/btree.c:3451-3480 | all children and overflow chains of the page, and nothing else, get it as parent in the pointer map |
| Databases.BtShared.ModifyPagePointer | tsrc/btree.c:3496-3545 | exactly the one pointer to the moved page is rewritten, whatever its kind |
| Databases.BtShared.Relocate | tsrc/btree.c:3557-3628 | the page moves; every tree reads as before; the pointer map names every page's type and only referrer; entries of other pages stay |
| FreeState.FirstAtMost | tsrc/btree.c:5936-5946 | the first leaf at or below nearby, else leaf 0 |
| FreeState.Closest | tsrc/btree.c:5947-5957 | a leaf at the least distance from nearby, nearby itself if it is a leaf |
| FreeLists.Elsewhere | tsrc/btree.c:5757-5990 | no page is on two trunks |
| Databases.BtShared.PromoteLeaf | tsrc/btree.c:5892-5927 | the first leaf becomes the trunk; only the old trunk leaves the list |
| Databases.BtShared.TakeLeafAt | tsrc/btree.c:5930-5992 | only that leaf leaves the list |
| Databases.BtShared.Allocate | tsrc/btree.c:5757-6065 | exactly one page leaves the freelist, or the file grows to the next ordinary page when the list is empty; EXACT yields nearby, LE a page at or below it; it fails exactly if the list holds no such page |
| Databases.BtShared.ReleasePage | tsrc/btree.c:6079-6206 | exactly that page enters the freelist, as a leaf of the first trunk unless that has usableSize/4-8 leaves, else as a new first trunk; count and pointer map agree |
| VacuumState.RoomBelow | tsrc/btree.c:3650-3739 | the pigeonhole: if the last page is in use and nFin ordinary pages suffice, one of them is free |
| VacuumState.StepFacts | tsrc/btree.c:3650-3739 | what a step relies on: the last page is no root, and if in use there is a free page at or below nFin |
| VacuumState.SoundStep | tsrc/btree.c:3650-3739 | after a step the pages in use and the free pages again partition the file |
| Databases.BtShared.IncrVacuumStep | tsrc/btree.c:3650-3739 | with free pages left, one of them goes, the file shrinks and the predicted final size stays; every tree reads the same; DONE exactly if none is left |
| Databases.BtShared.IncrVacuum | tsrc/btree.c:3772-3803 | the same for the interface, which computes the final size afresh |
| Databases.BtShared.VacuumFully | tsrc/btree.c:3772-3803 | as many steps as there were free pages lead to exactly the size predicted at the start |
| Databases.BtShared.AutoVacuumCommit | tsrc/btree.c:3814-3861 | a commit brings the file to the predicted size at once with the freelist empty and every tree as it was |
| Databases.BtShared.CreateTable | tsrc/btree.c:8724-8866 | the new root is the ordinary page after the last root, whatever was there moved away; every other tree reads the same |
| Databases.BtShared.constructor | tsrc/btree.c:3215-3252 | a new database is sound: page 1 is the only page and root |
| Databases.BtShared.ClearDatabasePage | tsrc/btree.c:8879-8931 | the page and everything below it, overflow chains included, becomes free, each page once; for the root, all but the page itself; no page is met twice; the count of changes is the number of cells on the leaves below |
| Databases.BtShared.ClearTable | tsrc/btree.c:8946-8963 | the table is an empty leaf, what it had is free, every other tree reads the same, and the rows it had are counted |
| Databases.BtShared.FreeOverflow | tsrc/btree.c:6247-6285 | the loop of clearCell over the page graph frees exactly the chain |
| Databases.BtShared.DropTable | tsrc/btree.c:8994-9075 | the pages of the table become free and the last root moves into its place: the roots are again page 1 and the first ordinary pages; the other trees read the same; the moved root is reported |
| ClearTrees.StillThere | tsrc/btree.c:8896-8915 | no page is reached twice while a table is cleared, so the test of bBusy never fires |
| ClearTrees.RowsKnown | tsrc/btree.c:8879-8931 | the count is defined for every tree that can be read |
| VacuumState.RootPlace | tsrc/btree.c:8752-8766 | the place of the next root is a page of the file that is no root, or the page after the last |
| DestroyOrder.DestroyTable | tsrc/build.c:2400-2443 | the root pages of table and indexes come each once, in strictly descending order |
| DestroyOrder.DestroyAll | tsrc/build.c:2352-2443 | the tree of each root is dropped in the order of destroyTable, with the model of btreeDropTable: when its turn comes every root still holds the tree it held at the start and Valid() is kept; the trees that survive read as before at the roots reported by the moves |
| DestroyOrder.DropIs | tsrc/btree.c:9017-9066 | a drop moves the last root, and no other, as the map of places says |
| DestroyOrder.DescendingIsSafe | tsrc/build.c:2404-2422 | dropping by that map in descending order, every root is still where it was when its turn comes, and survivors move as DestroyAll reports |
| DestroyOrder.AscendingIsNot | tsrc/build.c:2404-2422 | in ascending order one is not |
| Varints.ReadsBack | tsrc/btreeInt.h:170-187 | what the encoding writes is read back, in length and value |
| Varints.PutVarint | tsrc/util.c:832-867 | writes the encoding and nothing else |
| Varints.ReadSize | tsrc/btree.c:1165-1173 | the unrolled loop reads the 32-bit integer |
| Varints.ReadKey | tsrc/btree.c:1181-1194 | the unrolled loop reads the 64-bit integer |
| CellFormat.SpillWastesLeast | tsrc/btree.c:1096-1109 | of all admissible local sizes the one chosen wastes least on overflow pages |
| CellFormat.MinimumFanOut | tsrc/btree.c:3134-3148 | four cells of an index fit a page, as the fraction 64 of 255 is meant to see to, exactly if four with the largest local size do: always up to 8192 usable bytes, never from 9192 on; three always fit |
| CellFormat.AdjustForOverflow | tsrc/btree.c:1082-1111 | the spill arithmetic: local size, and cell size with the overflow page number |
| CellFormat.ParseCell | tsrc/btree.c:1127-1248 | the three parsers give key, payload size, local size and cell size as the format defines them |
| CellFormat.ParsesBack | tsrc/btree.c:1127-1248 | whatever header fillInCell writes is parsed back to the same key and sizes |
| CellFormat.KeyBack | tsrc/btree.c:6326-6331 | a signed row identifier survives the unsigned encoding |
| CellFormat.CellSize | tsrc/btree.c:1269-1337 | the size found without a full parse is the size found by one |
| CellFormat.CellSizeIsLocal | tsrc/btree.c:1269-1337 | it depends on the bytes of the cell only, as the page code requires of it |
| OverflowChain.PagesNeeded | tsrc/btree.c:6242-6243 | the rounded-up division is the number of pages of the chain |
| PayloadFiles.PageFile.SpillPoint | tsrc/btree.c:6357-6368 | fillInCell and the parsers agree on the local size |
| PayloadFiles.PageFile.AddOverflow | tsrc/btree.c:6422-6478 | the new page is linked to the one before it, or to the cell, and known to the pointer map |
| PayloadFiles.PageFile.FillInCell | tsrc/btree.c:6300-6480 | the cell holds the header, the local bytes and zeros, its overflow chain the rest; the size is the one the parser finds; it fails exactly if the payload does not fit the cell and pages run out; the pointer map names for each page of the chain the page before it, and no other entry or page changes |
| PayloadFiles.PageFile.GetOverflowPage | tsrc/btree.c:4508-4563 | the guess from the pointer map gives the same page as reading the link |
| PayloadFiles.PageFile.ClearCell | tsrc/btree.c:6217-6286 | exactly the pages of the chain become free, and are marked so in the pointer map, although their number is computed and the chain may be followed by guesses |
| PayloadFiles.PageFile.FillThenClear | tsrc/btree.c:6217-6480 | filling and clearing leaves every other page as it was and loses none |
| PayloadCursors.PayloadCursor.constructor | tsrc/btree.c:4626-4650 | a freshly placed cursor has an empty cache |
| PayloadCursors.PayloadCursor.Read | tsrc/btree.c:4626-4811 | any slice of the payload is returned exactly, whatever earlier reads left in the cache, and the cache stays right |
| PayloadCursors.PayloadCursor.StartAt | tsrc/btree.c:4685-4713 | the walk starts at the page needed if it is cached, else at the first |
| PayloadCursors.PayloadCursor.SkipPage | tsrc/btree.c:4716-4738 | a page that holds nothing wanted is passed by, through the cache or the file |
| TreeEntries.PathSlice | tsrc/btree.c:4940-5007 | the entries below a page of the cursor's path are a run of the entries of the tree |
| TreeEntries.EntryAt | tsrc/btree.c:5117-5159 | the entry a path and a cell index stand for |
| TreeEntries.KeysAscend | tsrc/btree.c:5333-5464 | the keys of the cells of a page ascend, also those of an interior table page |
| TreeEntries.Neighbours | tsrc/btree.c:5466-5490 | the entries next to a cell lie on either side of its key |
| TreeEntries.DepthLimit | tsrc/btree.c:4940-4957 | that height follows from the size of the file where interior pages below the root have three children or more: with at most 2147483647 leaves a tree is at most 20 high, or 21 if its root is page 1 with a single child |
| TreeEntries.DepthBound | tsrc/btree.c:4940-4957 | without that assumption, for every well-formed tree: at most 31, or 32 with a single child below page 1 |
| BtCursors.BtCursor.constructor | tsrc/btree.c:4262-4321 | a new cursor stands nowhere |
| SeekSides.EndsAtEdge | tsrc/btree.c:5384-5464 | where all keys of a page are smaller, or none is, the side on which the binary search ends does not depend on the order of comparisons |
| SeekSides.EitherSide | tsrc/btree.c:5384-5464 | in between it does, with an example for either side |
| BtCursors.BtCursor.MoveToChild | tsrc/btree.c:4940-4957 | the path grows by one page; the depth limit is not reached by a tree of height at most 20 |
| BtCursors.BtCursor.MoveToParent | tsrc/btree.c:4989-5007 | the path shrinks to the parent, at the child that was left |
| BtCursors.BtCursor.MoveToRoot | tsrc/btree.c:5030-5108 | the path is the root, or its only child on page 1; EMPTY exactly if the tree has no entry |
| BtCursors.BtCursor.MoveToLeftmost | tsrc/btree.c:5117-5130 | the first entry below the cell |
| BtCursors.BtCursor.MoveToRightmost | tsrc/btree.c:5142-5159 | the last entry below the page |
| BtCursors.BtCursor.First | tsrc/btree.c:5165-5181 | the entry of rank 0, or empty |
| BtCursors.BtCursor.Last | tsrc/btree.c:5187-5224 | the entry of the last rank, also by the short cut |
| BtCursors.BtCursor.SearchPage | tsrc/btree.c:5333-5464 | binary search, biased or not: an equal cell, or the place where smaller keys end and larger ones begin, and the side on which the last comparison was |
| BtCursors.BtCursor.Descend | tsrc/btree.c:5333-5495 | the descent ends on an equal entry, or on a leaf next to the place of the key |
| BtCursors.BtCursor.MovetoUnpacked | tsrc/btree.c:5256-5495 | result 0 means an equal entry; otherwise the cursor is on a leaf entry, the last smaller or the first larger one, and no entry is equal; from the root, which of the two is as the keys of the tree have it; the short cuts give an answer that is right as well |
| BtCursors.BtCursor.BtreeNext | tsrc/btree.c:5558-5621 | the step to the next rank across pages, or from a saved or skipped place |
| BtCursors.BtCursor.StepRight | tsrc/btree.c:5585-5620 | up to the first page that is not used up, or down to the leftmost leaf |
| BtCursors.BtCursor.Next | tsrc/btree.c:5622-5641 | from rank r to r+1 in tables and indexes, DONE exactly at the end; from a saved place, to the rank that Restore gives |
| BtCursors.BtCursor.BtreePrevious | tsrc/btree.c:5663-5717 | the step to the rank before across pages, or from a saved or skipped place |
| BtCursors.BtCursor.StepLeft | tsrc/btree.c:5690-5714 | up to the first page with a cell before, or down to the rightmost leaf |
| BtCursors.BtCursor.Previous | tsrc/btree.c:5718-5733 | from rank r to r-1, DONE exactly at the start; from a saved place, to the rank that Restore gives |
| BtCursors.BtCursor.SavePosition | tsrc/btree.c:653-710 | for a valid cursor and one in SKIPNEXT: the key of the entry is kept; the next step in either direction leads to the same ranks |
| BtCursors.BtCursor.Restore | tsrc/btree.c:827-847 | back on the saved key exactly if it is still there; both steps then lead to the ranks they led to, except exactly where the place was saved with a step back to skip, the key is gone, and the search by the keys of the tree ends above it: as skipNext is or-ed with the result, they lead one entry too far; that needs an entry above the key, and happens whenever all are |
| BtCursors.BtCursor.SavedTwice | tsrc/btree.c:827-847 | a run from a new cursor in which it happens: Last, save, row 15 deleted, restore, save, row 10 deleted and row 20 inserted, restore; Next then reports the end although row 20 is left |
| BtCursors.BtCursor.Place | tsrc/btree.c:5165-5495 | no placing call changes skipNext |
| BtCursors.BtCursor.TreeChanged | tsrc/btree.c:736-773 | other cursors may change the tree once this one has given up its pages |
| BtCursors.BtCursor.StepAfterChange | tsrc/btree.c:689-847 | after any insertions and deletions Next yields the least key above the saved one and Previous the greatest below it |
| BtCursors.BtCursor.SkipNextOutlives | tsrc/btree.c:5558-5566 | the assertion that a valid cursor has skipNext zero: when a saved cursor has been restored and then placed by First, Last or MovetoUnpacked, on any tree, it holds exactly if no step was to be skipped and the saved key was still there |
| Bitvecs.DivisorFits | tsrc/bitvec.c:219 | the sub-bitmaps cover all bits exactly if the 32-bit sum does not wrap; if it wraps the divisor is 0 |
| WrappedDivisors.SetEnds | tsrc/bitvec.c:169-232 | on a node whose divisor wraps to 0, setting a value ends exactly if the guards do not ask for a rehash: a rehash leaves the node a hash table with its count, and needs another one inside it for ever |
| WrappedDivisors.FindClash | tsrc/bitvec.c:189-199 | a value away from its home slot means that two values share a home, which is why refilling the table collides again |
| HashSlots.NotFound | tsrc/bitvec.c:145-151 | a probe that meets an empty slot proves the value absent |
| HashSlots.ProbeEnds | tsrc/bitvec.c:145-151 | with an empty slot every probe ends |
| HashSlots.Stored | tsrc/bitvec.c:189-231 | storing at the end of a probe keeps all values reachable |
| Bitvecs.Bitvec.constructor | tsrc/bitvec.c:115-123 | the empty set |
| Bitvecs.Bitvec.Test | tsrc/bitvec.c:130-155 | true exactly for members, through all three representations |
| Bitvecs.Bitvec.Set | tsrc/bitvec.c:169-232 | for every size and every value at which the call ends, the set with i added; a hash node keeps an empty slot |
| Bitvecs.Bitvec.Rehash | tsrc/bitvec.c:208-227 | where the divisor does not wrap, a full table is split into sub-bitmaps without losing a value; the recursion ends as sizes shrink |
| Bitvecs.Bitvec.Clear | tsrc/bitvec.c:240-272 | the set without i |
| BackupCopy.CopyFromCopies | tsrc/backup.c:227-313 | whatever codes page accesses return: each byte of the source page before the first run that fails arrives at its offset, bytes of other pages and later runs are kept, and the code is that of the run, for any two page sizes |
| BackupCopy.StopIsFirst | tsrc/backup.c:285-309 | the copy reaches the end exactly if no destination page it touches fails, the page of the pending byte apart |
| BackupCopy.CopyFromSize | tsrc/backup.c:304-308 | the size field is written exactly with the first run of page 1, and no other run touches it |
| BackupCopy.RunFits | tsrc/backup.c:285-303 | each memcpy stays within one page of either file |
| Backups.PassSynced | tsrc/backup.c:421-432 | a pass that succeeds keeps every page below iNext copied |
| Backups.PassLosesPage | tsrc/backup.c:421-432 | for every source page, destination, and codes returned for the source page and each destination page: iNext advances, and every page below it is copied exactly if what lies behind the first failing run, all of the page if the source page fails, was in the destination before |
| Backups.PassSafeExactly | tsrc/backup.c:421-432 | a pass keeps the copied pages equal for every source and destination exactly if the first failure, if any, is neither BUSY nor LOCKED, or all of the page lies on the page of the pending byte |
| Backups.BusyPageIsLost | tsrc/backup.c:421-432 | an example for each side: a busy source page, and a busy destination page |
| Backups.CopyCodeIs | tsrc/backup.c:227-313 | copying one page succeeds exactly if the page sizes agree or the destination is not in memory, and every destination page it touches, the page of the pending byte apart, can be had |
| Backups.StillSynced | tsrc/backup.c:690-714 | writes to pages not yet copied, and truncation, need not be reported |
| Backups.TruncateCovers | tsrc/backup.c:478-520 | the destination pages that are kept cover the source, unless its last page is on the destination's pending-byte page, are no more than that, and with smaller source pages never end with the pending-byte page |
| Backups.Backup.constructor | tsrc/backup.c:348-400 | a new backup |
| Backups.Backup.BackupOnePage | tsrc/backup.c:227-313 | the loop is the copying function |
| Backups.Backup.CopyPages | tsrc/backup.c:421-432 | for all codes: the loop stops at the first page that fails and returns its code, and else after nPage pages or at the end; all pages below iNext are copied if none fails, else exactly if the last page was in the destination behind its first failing run; the size field is that of the source if page 1 was copied |
| Backups.Backup.Finish | tsrc/backup.c:442-573 | with all pages copied the destination is complete, also where the page sizes differ and source pages share the destination's pending-byte page, or the source is empty; its file then has exactly the size of the source, but that the pending-byte page of a source that ends with it, which holds no data, may be missing |
| Backups.Backup.Step | tsrc/backup.c:348-597 | the code is exactly the one of the first thing that fails: a fatal code from before, a writing transaction, beginning to read, locking, WAL with page sizes that differ, the first page in order, the commit; iNext advances by nPage or to the end if nothing fails, DONE is returned exactly at the end, and nRemaining, nPagecount and the flags are exact; every state keeps the copied pages equal but, exactly, one in which a busy or locked page was not already there; at DONE the destination equals the source byte for byte but for the pending-byte page and header fields, has its final size, the schema cookie after the old one and in a WAL database the versions of WAL; the size field is set exactly when page 1 is copied |
| Backups.Backup.SourceWrite | tsrc/backup.c:690-717 | reported source writes, also those that make the source grow, past its pending-byte page too, keep the copied pages equal, or the backup fails; it fails exactly if the page has been copied and copying it again fails, with that code |
| Backups.Backup.SourceTruncate | tsrc/backup.c:348-597 | so does a source that shrinks |
| Backups.Backup.Restart | tsrc/backup.c:730-736 | a restart begins at page 1 and keeps the invariant |
| TableLocks.ShortcutIsExact | tsrc/btree.c:304-322 | the test by inequality of lock kinds is the full conflict test |
| TableLocks.ExclusiveIsAlone | tsrc/btree.c:296-302 | EXCLUSIVE means that only the writer has a transaction |
| TableLocks.SharedBtree.QueryLock | tsrc/btree.c:275-326 | a lock may be had exactly if nobody else has exclusive use and no other connection holds a conflicting one; a refused writer sets PENDING |
| TableLocks.SharedBtree.SetLock | tsrc/btree.c:347-399 | the lock is there, at least as strong as asked; two connections still share a table only for reading |
| TableLocks.SharedBtree.LockTable | tsrc/btree.c:9986-10002 | granted exactly if nobody else has exclusive use and no other connection holds a conflicting lock; refused, nothing but PENDING changes |
| TableLocks.SharedBtree.BeginTrans | tsrc/btree.c:3303-3442 | succeeds exactly if the connection already has what it asks for, or the file may be written, no other connection bars it, and the pager agrees; the code is else that of the first that fails and nothing changes; at most one writer, which is pWriter; PENDING admits no new transaction; an exclusive one is alone |
| TableLocks.SharedBtree.ClearLocks | tsrc/btree.c:411-450 | all locks of the connection go; PENDING goes when no reader but the writer is left |
| TableLocks.SharedBtree.DowngradeLocks | tsrc/btree.c:455-466 | the writer's locks become read locks |
| TableLocks.SharedBtree.Conclude | tsrc/btree.c:3920-3954 | the end of a transaction keeps the invariant, whether or not the connection goes on reading; PENDING and EXCLUSIVE go exactly with the writer, PENDING also with the last reader beside it |
| BtreeMutexes.StepKeepsGood | tsrc/btmutex.c:27-152 | every step of every thread keeps the mutexes owned by those that hold them, in ascending order |
| BtreeMutexes.RunsAreGood | tsrc/btmutex.c:71-152 | so does every run of any number of threads |
| BtreeMutexes.LockedIsWanted | tsrc/btmutex.c:71-97 | when Enter has returned locked holds exactly where wantToLock is positive |
| BtreeMutexes.WantIsBalance | tsrc/btmutex.c:71-152 | in every run wantToLock of each thread and Btree is the number of its Enter less the number of its Leave calls |
| BtreeMutexes.HeldIsBalance | tsrc/btmutex.c:71-152 | so a thread that is not inside Enter holds a mutex exactly as long as it has entered more often than left |
| BtreeMutexes.WaitsAbove | tsrc/btmutex.c:105-137 | no thread waits while it holds a mutex at the same or a larger address |
| BtreeMutexes.WaitsIncrease | tsrc/btmutex.c:105-137 | along the wait-for relation addresses increase |
| BtreeMutexes.NoDeadlock | tsrc/btmutex.c:105-137 | behind every blocked thread there is one that holds a mutex and can go on |
| BtreeMutexes.Link | tsrc/btree.c:2491-2515 | the list of a connection stays sorted by address, from whatever element it is entered |
| IndexCounts.TrueCounts | tsrc/analyze.c:743-762 | the start and end of a group of rows are the numbers of rows less than, and equal to, a key prefix |
| IndexCounts.TrueDistinct | tsrc/analyze.c:756-757 | and the changes before it the number of distinct prefixes |
| IndexCounts.NextRow | tsrc/analyze.c:673-683 | what the next row settles: groups it does not belong to |
| Stat4.IsBetterPost | tsrc/analyze.c:504-518 | the loop is the lexicographic preference |
| Stat4.PreferenceIsOrder | tsrc/analyze.c:504-549 | the preference is a strict weak order |
| Stat4Steps.SharedIsWorse | tsrc/analyze.c:578-586 | the assertions on samples that share a prefix hold |
| Stat4Steps.InsertedIsDealt | tsrc/analyze.c:555-643 | inserting the best row of a group keeps counters exact and order, and represents the group |
| Stat4Steps.PassedOverIsDealt | tsrc/analyze.c:656-664 | a row that is not better than the least sample shares no sample's group |
| Stat4Ranks.InsertedRanks | tsrc/analyze.c:555-643 | inserting keeps for every completed group: it has a sample, periodic or chosen for the group or a larger one around it, or the buffer is full and each sample chosen for its frequency stands for a group at least as large |
| Stat4Ranks.PassedOverRanks | tsrc/analyze.c:656-664 | so does passing over a row that is not better than the least desirable sample |
| Stat4Steps.InsertedRows | tsrc/analyze.c:555-643 | inserting drops no periodic sample and raises none |
| Stat4Accums.PeriodicFew | tsrc/analyze.c:454 | periodic samples are at most a third of the buffer, so an eviction victim exists |
| Stat4Accums.Stat4Accum.constructor | tsrc/analyze.c:399-480 | an empty accumulator |
| Stat4Accums.Stat4Accum.FindUpgrade | tsrc/analyze.c:569-592 | finds the best sample that shares the prefix |
| Stat4Accums.Stat4Accum.FindMin | tsrc/analyze.c:630-642 | finds the least desirable sample that is not periodic |
| Stat4Accums.Stat4Accum.SampleInsert | tsrc/analyze.c:555-643 | nothing if a periodic sample shares the prefix, else the best that does is raised, else the sample is appended, evicting the least desirable one when full |
| Stat4Accums.Stat4Accum.SamplePushPrevious | tsrc/analyze.c:652-684 | all counters of the samples are right for the next row; each completed group has a sample unless the buffer is full, and then only a group no larger than those sampled has none; periodic samples stay |
| Stat4Accums.Stat4Accum.UpdateCurrent | tsrc/analyze.c:744-762 | the counters of the current row |
| Stat4Accums.Stat4Accum.UpdateBest | tsrc/analyze.c:787-793 | the current row replaces exactly the best rows of groups it starts or is better in |
| Stat4Accums.Stat4Accum.PushPeriodic | tsrc/analyze.c:775-785 | every nPSample-th row is appended, and no other; only a sample that is not periodic gives way |
| Stat4Accums.Stat4Accum.StatPush | tsrc/analyze.c:728-796 | one row keeps the invariant: exact counters, a periodic sample for exactly every nPSample-th row, and no group left out that is larger than one sampled; the best rows are the ones the preference picks, and the pseudo-random number takes its next value |
| Stat4Accums.Stat4Accum.Flush | tsrc/analyze.c:895-900 | after the flush nEq, nLt and nDLt of every sample are the true counts at every column, in index order, and key prefixes without a sample are no more frequent than those that samples were chosen for |
| Stat4Accums.LeftmostChange | tsrc/analyze.c:1180-1189 | the first column that differs |
| Stat4Accums.AnalyzeIndex | tsrc/analyze.c:1086-1238 | for any sorted index: exact counters, index order, at most mxSample samples; row r is that of a periodic sample exactly if r/p and (r+1)/p differ, with p = n/(mxSample/3+1)+1 for n rows; with fewer than mxSample samples every prefix of every key is sampled, and else a prefix without a sample has no more rows than the prefix for which any sample that is not periodic was chosen |
| StatText.PrintList | tsrc/analyze.c:925-940 | the counters in decimal, separated by spaces |
| StatText.DecodeIntArray | tsrc/analyze.c:1455-1482 | the loop reads the numbers of a list |
| StatText.RoundTrip | tsrc/analyze.c:1455-1482 | reading what was printed gives the counters back |

## Left out

- Secure-delete zeroing, memory-mapped and direct overflow reads, incremental blobs, and the pager, journal and WAL: page access is a total operation on a map, except where an error code is a parameter.
- Out-of-memory paths, and pages made corrupt on purpose: SQLITE_CORRUPT branches inside the engine are proved unreachable from well-formed states; `PageCheck` alone reads arbitrary bytes.
- MemPages.MemPage.InsertCell: the size routine is a function field required to look at the cell only, because one page type uses one routine; `CellFormat.CellSizeIsLocal` proves this of the routines of the source.
- MemPages.MemPage.DefragmentPage: the in-place copies are modelled on the page's byte array; the temporary page of the pager is a sequence.
- GatherCells.Gather: divider cells are given as bytes; their removal from the parent is `MemPages.MemPage.DropCell`, and how the parent chooses the two neighbours (tsrc/btree.c:7291-7313) is not modelled.
- SiblingRewrite.BalanceSiblings: the insertion of the new dividers into the parent is `MemPages.MemPage.InsertCell`, with the bytes of `Dividers.MakeDivider`, and is not part of it; nor are the pointer map and the reassignment of page numbers (tsrc/btree.c:7620-7775).
- EditPage.Edit: the sizes of cells, which the source computes when first needed, are given; a cell of another page is given as its bytes, which `SiblingRewrite.ReadCells` reads from that page; the cache of cell pointers is not modelled.
- BalancePlan.PlanSiblings: cell sizes are bounded as the local limits bound them; that cells of every kind meet the bound is proved in `GatherCells.ParsedCellsFit`.
- Databases.BtShared.Allocate: auto-vacuum databases only, so that the branches on `pBt->autoVacuum` are taken; the no-content flag of the pager is left out.
- Databases.BtShared.IncrVacuumStep: stated for bCommit zero; the step under a commit is part of `Databases.BtShared.AutoVacuumCommit`.
- Databases.BtShared.ClearDatabasePage: the busy flags are not modelled, as no page is met twice.
- Databases.BtShared.FreeOverflow: an overflow chain ends at its null link, while clearCell counts its pages from the size of the payload; that both are the same is proved in `PayloadFiles.PageFile.ClearCell`.
- Databases.BtShared.Relocate: an overflow chain is a chain of pages each naming the next; its bytes are the subject of `PayloadFiles`.
- PayloadFiles.PageFile.FillInCell: allocation takes some free page or extends the file; which page is the subject of `Databases.BtShared.Allocate`.
- PayloadCursors.PayloadCursor.Read: reading only; writing through accessPayload, for incremental blobs, is not modelled.
- BtCursors.BtCursor.MovetoUnpacked: keys are integers in a total order and a record comparison is any function monotone in it; record unpacking and the reading of keys from overflow pages are not modelled.
- BtCursors.BtCursor.SavePosition: CURSOR_FAULT, and a root page number of zero, are not modelled.
- BtCursors.BtCursor.MoveToChild: for trees of height at most 20, as `TreeEntries.RootOk` says; a higher one would be reported as corrupt.
- BtCursors.BtCursor.TreeChanged: the tree after other cursors' writes is any well-formed tree; balancing itself is the subject of `GatherCells` and the modules after it.
- Bitvecs.Bitvec.Set: calls that never end, for sizes above 4294967234, are excluded by the exact guard; the loops that descend into sub-bitmaps are recursive calls.
- Backups.Backup.Step: a commit refused with SQLITE_BUSY is not modelled, because the destination has been locked exclusively since the first step; nor is setting the destination's page size; the destination's schema cookie before the backup, and whether it is in WAL mode, are parameters.
- Backups.Backup.SourceWrite: destination pages fail with fatal codes only, as the source asserts.
- TableLocks.SharedBtree.BeginTrans: read-uncommitted connections, the busy handler and unlock notification are not modelled; the pager's answer is a parameter.
- BtreeMutexes.StepKeepsGood: each thread works for one connection, as the source assumes; sqlite3BtreeEnterAll and cursors' entry points are not modelled.
- Stat4Accums.Stat4Accum.SampleInsert: counters are unbounded, while tRowcnt has 32 or 64 bits; rowids are the positions of the rows; the initial value of the pseudo-random number is a parameter.
- Stat4Accums.AnalyzeIndex: the scan tests all columns but the last; the variants for unique indexes, which test fewer, are not modelled.
- StatText.DecodeIntArray: the log-estimate output and the flags after the list (tsrc/analyze.c:1483-1512) are not modelled.
- SpanHeap.BtreeHeapInsert: stated for arrays of at most 65536 entries; the heap of a page has at most a quarter of that.
- PageCheck.CheckPage: checks of keys, child pages, overflow chains and the limit on the number of messages are not part of it.
- Table and index creation in SQL, ALTER, ATTACH, authorization, the tokenizer and the table functions: mostly calls into code outside the engine, or easy members.
