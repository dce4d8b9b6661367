# KKDB in Dafny

A model of the parts of KKDB, a relational database engine, in which an error would be
hardest to see: the paged B-tree and its cursor, the Raft log store and state machine, the
binlog with its replication, and four algorithmic cores. Each part is modelled with the
branches, constants and error cases of the code and proved to do what it is for, over all
inputs and all runs.

**B-tree.** Pages are byte arrays. `SlottedPage` edits them in place and proves which cells
the bytes then hold; `PageFormat` gives cells and pages their byte layout; `PageStore` is the
pager seen from the tree (a map from page number to bytes, allocation, free pool) together with
every single-page operation. `TreeSpec` says when pages represent a tree, `TreeInsert` and
`BTreeDelete` what an insertion or a deletion does to it. `BTree`, `BTreeInsert`,
`BTreeDelete`, `BTreeRead` and `OverflowChain` are the recursive algorithms, proved from bytes
up to the tree. `Table` is the result: a table is a map from rowid to payload. `AppendOnly`
shows that tables which only grow at the end need none of the hypotheses about splits, `FixedWidth`
that tables whose cells have one size need none for a new row anywhere, `Updates` that an update
with room needs none either. `StaleRoot` looks rows up from a root page that an update replaced. `RowTable` adds the row encoding, `Cursor` the stack
cursor on every tree, `SplitFit` the arithmetic of splits, and `SplitHazards` what the unchecked
paths of a split do.

**Raft.** `LogStoreSpec` describes the log store as memory, files and durable writes,
`LogStoreRuns` proves what every operation keeps and what a crash inside it leaves,
`LogStoreHistory` what reopening gives back over every history of operations and crashes,
`LogStoreMeaning` what each operation does to the entries and counters, index by index, and
`LogStore` is the store itself. `StateMachineSpec` and `StateMachine` are the replicated state machine.
SQL is an unknown deterministic function, JSON an unknown encoding that decoding undoes.

**Binlog.** `Varint`, `Values`, `Utf8`, `LogRecords` and `Base64` are the codecs, `Framing` and `Crc` the
checksummed records shared with the Raft log, `BinlogSpec` and `Binlog` the file and its
recovery, `Replication` the leader's stream endpoint and the follower.

**Algorithms.** `EditDistance` and `FuzzySearch`, `Calendar`, `Lsm`, `IndexKey` and `Catalog`;
`Ascending` is about lists of positions picked in order.

## Where the code does not keep a promise

Each of these is proved with an input on which the code fails, and with the condition under
which it does not.

- A leaf is split by cell count, not by bytes. `SplitFit.UnevenSplitOverflows` has a leaf of 4096
  bytes and a new row whose split has a half that does not fit; `SplitFit.SplitStorableIff` says
  that both pages can be correct exactly when both halves fit. Right-edge splits, leaves of
  equal-size cells (`FixedWidth.FixedCanInsert`) and interior pages always split well.
- A leaf emptied by deletions, without room, is cut at the new row's own key. With room on the
  parent the row can be found again exactly when that key was not a separator already
  (`SplitHazards.NewPageReachable`, failing in `SplitHazards.EmptiedLeafLosesRow`); when the parent
  is split too it always can (`SplitHazards.NewPageReachableBySplit`).
- The split path clears a page before it notices a duplicate rowid. `SplitHazards.SplitKeepsRowsIff`:
  it keeps the rows exactly when the rowid is new; `SplitHazards.DuplicateSplit`: otherwise it ends in
  an error with rows lost, or, exactly when the cut falls between the equal rowids, stores both.
  `SplitHazards.SplitFollows` has the pages that `BTree.SplitLeaf` leaves in each case.
- A long payload is written to its overflow chain before a duplicate rowid is found. The chain's pages
  stay allocated and belong to no table exactly when the rowid is present and the payload long:
  `Table.BTreeTable.Insert`.
- The cursor and `max_rowid` do not skip leaves emptied by deletions. `Cursor.WalkIsScanIff` and
  `AppendOnly.NextRowid` have the exact conditions. The cursor decodes slot 0 of an emptied leaf, which
  still leads to the cell deleted last (`PageStore.Pager.DeleteCell`), and so shows a deleted row
  again: `Cursor.DeletedRowShown`, `AppendOnly.DeleteAndWalk`.
- The Raft log store leaves a torn tail in its file on reopening, and the next record goes behind
  it: `LogStoreHistory.TornTailHidesAppend` and `LogStoreHistory.TornByteHidesAppend`. Every record
  appended to a file is read back exactly when the file ends on a record boundary
  (`Framing.BoundaryIff`), where every crash between two writes leaves it
  (`LogStoreHistory.BetweenWrites`); from there histories go on (`LogStoreHistory.RunSound`).
- The vote and purge files are replaced by `fs::write`, which empties them first. A crash inside
  forgets a cast vote (`LogStoreHistory.ForgottenVote`) or the purge point
  (`LogStoreHistory.ForgottenPurge`), and purged entries still in the log file are back. The reopened
  store is as before or after the operation exactly when there was no vote
  (`LogStoreRuns.TornVoteIff`) or no purge point (`LogStoreRuns.TornPurgeIff`) to forget; no other
  crash loses anything (`LogStoreHistory.CrashKeepsPrefix`).
- An append at or below the purge point does not survive a reopen
  (`LogStoreHistory.AppendSurvivesIff`), nor does a purge that goes back past entries still in the
  file (`LogStoreHistory.PurgeSurvivesIff`).
- Installing a snapshot onto databases that already ran statements runs them again:
  `StateMachineSpec.InstallOnUsedDatabases`. It is right for every log exactly when the databases
  are those the leader started from, all of them (`StateMachineSpec.InstallAgreesIff`) or for one
  user that user's (`StateMachineSpec.InstallUserIff`).
- A restart with databases in directories replays the snapshot on top of them:
  `StateMachineSpec.RestartRunsAgain`, one statement counted twice in
  `StateMachineSpec.RestartCountsTwice`, with the exact condition in `StateMachineSpec.RestartAgreesIff`.
- ALTER TABLE updates the rows one by one and goes on from the root page it started with, though an
  update may return a new one. A row is then found from the old page exactly below the separator of
  the new root (`StaleRoot.UpdateAndFind`), and with no leaf empty some row is not
  (`StaleRoot.RowsAbove`). A table of one leaf gets a new root exactly when the leaf has no room
  (`Table.BTreeTable.Insert`).
- DROP COLUMN drops every column of that name, but from each row only the first one's value
  (`Catalog.SameNamedColumns`). The rows follow the columns exactly when no other column has the
  name: `Catalog.DropFollowsIff`.
- A timestamp whose year does not fit in 32 bits is wrong, and only such a one: `Calendar.ToDateTime`.
  The first is in `Calendar.FirstFailingSecond`; no `i64` of milliseconds reaches it.
- `compact_all` of the LSM simulator runs forever exactly when a level above the last
  allows no run: `Lsm.CompactAllTerminatesIff`.
- Rows over 4096 columns and values over 256 MiB are written and cannot be read back:
  `Values.DecEncRow`, `Values.DecEncValue`.
- The header of `src/raft/log_store.rs` says `truncate` rewrites the file and compaction happens on
  restart; the code appends a marker and compacts on purge. The model follows the code.

## Model

| member | source | states |
|---|---|---|
| `SlottedPage.WriteCell` | src/storage/btree.rs:532-578 | In-place write of a cell: after shifting pointers, writing content and updating the header, the page holds exactly the old cells with the new one at its index, and no cell, pointer or header bytes overlap |
| `SlottedPage.RemoveCell` | src/storage/btree.rs:1673-1684 | In-place deletion: exactly one pointer disappears, every other cell keeps its bytes, and the content area is not reclaimed |
| `SlottedPage.ShiftPointersRight` | src/storage/btree.rs:558-568 | The pointer-shift loop opens one slot and moves the pointers after it by one, leaving all other bytes alone |
| `SlottedPage.ShiftPointersLeft` | src/storage/btree.rs:1673-1682 | The pointer-shift loop of deletion closes one slot, leaving all other bytes alone |
| `SlottedPage.AddedIsSlotted` | src/storage/btree.rs:395-413 | When the free-space test passes, the edited bytes are again a slotted page, holding the list with one element added |
| `SlottedPage.RemovedIsSlotted` | src/storage/btree.rs:1673-1684 | The bytes after a deletion are a slotted page holding the list with one element removed |
| `SlottedPage.PatchedIsSlotted` | src/storage/btree.rs:953-966 | Rewriting the first bytes of one cell changes that cell and no other |
| `SlottedPage.SlottedCellsUnique` | src/storage/btree.rs:28-46 | A page's bytes determine its cells once the cell lengths are known |
| `PageFormat.DecodeEncCell` | src/storage/btree.rs:475-493 | A leaf cell reads back from wherever it is held, with whatever around it; the flag bit never confuses inline and overflow cells |
| `PageFormat.DecodeEncSep` | src/storage/btree.rs:975-978 | An interior cell reads back its child and its key |
| `PageFormat.LeafBytesDetermineCells` | src/storage/btree.rs:28-46 | Two leaf nodes represented by the same bytes have the same cells, content offset and links |
| `PageStore.SearchKey` | src/storage/btree.rs:497-529 | The binary search finds a key exactly when it is there, and otherwise its place in the order |
| `PageStore.UpperBound` | src/storage/btree.rs:1053-1115 | The binary search for the first greater key separates the keys at most `key` from those above |
| `PageStore.FirstEqual` | src/storage/btree.rs:929-951 | The linear search finds the first separator equal to the key, or none |
| `PageStore.Pager.Allocate` | src/storage/pager.rs:1498-1541 | A page that was not in use and is not 0, or the full-database error; no other page changes |
| `PageStore.Pager.FreePage` | src/storage/pager.rs:1544-1585 | The page goes to the free pool and no other page changes |
| `PageStore.Pager.InsertCell` | src/storage/btree.rs:582-699 | The cell goes to its place by key; a duplicate rowid is reported and changes nothing |
| `PageStore.Pager.DeleteCell` | src/storage/btree.rs:1673-1684 | One cell of the leaf is gone, links and content offset stay; slot 0 of a leaf that lost its only cell still leads to that cell |
| `PageStore.Pager.FindInLeaf` | src/storage/btree.rs:1549-1585 | Exact-match lookup of a rowid in a leaf |
| `PageStore.Pager.FindChild` | src/storage/btree.rs:1053-1115 | The child whose position separates the keys at most `key` from those above |
| `PageStore.Pager.InsertSep` | src/storage/btree.rs:972-1050 | A separator is added at its upper-bound position, with its left child |
| `PageStore.Pager.ReplaceChildPointer` | src/storage/btree.rs:911-969 | The child after the first separator equal to the key is redirected; nothing else changes; no such separator is an error |
| `PageStore.Pager.SetLinks` | src/storage/btree.rs:117-141 | Only the two link fields of a leaf change |
| `PageStore.Pager.InitLeaf` | src/storage/btree.rs:144-152 | The page becomes an empty leaf without links |
| `PageStore.Pager.InitInterior` | src/storage/btree.rs:155-163 | The page becomes an interior page with only a right child |
| `PageStore.Pager.WriteOverflow` | src/storage/btree.rs:190-200 | The page holds the link and the chunk, zero-padded |
| `PageStore.Pager.ReadOverflow` | src/storage/btree.rs:270-276 | The link and the data of an overflow page |
| `OverflowChain.WriteChain` | src/storage/btree.rs:178-207 | The payload is spread over a chain of pages none of which was in use; every page in use is untouched |
| `OverflowChain.ReadChain` | src/storage/btree.rs:217-280 | A payload of any length reads back through its chain unchanged |
| `OverflowChain.FreeChain` | src/storage/btree.rs:284-298 | Exactly the chain's own pages return to the pool |
| `BTree.SplitLeaf` | src/storage/btree.rs:725-812 | With both halves fitting: the page keeps the lower cells, a new page gets the rest, the divider is its first key and both are wired between the old neighbours; or a duplicate stops the refill, and the cleared page holds the cells before it and has left the leaf list; a new rowid never does |
| `BTree.FillLeaf` | src/storage/btree.rs:782-793 | Refilling a cleared page stores exactly the cells before the first duplicate, and reports whether there is one |
| `BTree.SplitInterior` | src/storage/btree.rs:815-904 | The separators with the new one in are shared between the page and a new one around the promoted key, which leaves both |
| `BTree.AddSeparator` | src/storage/btree.rs:452-460 | Inserting a separator and redirecting the pointer after it turns child `i` into two children |
| `BTree.SepAddedIsNode` | src/storage/btree.rs:911-1050 | That page is exactly the page of the node whose child became two trees |
| `BTreeInsert.InsertIntoLeaf` | src/storage/btree.rs:385-424 | Room or split: the subtree becomes one or two leaves holding the old rows and the new one in order, and the leaf list stays linked; or the rowid is there, and nothing is left but the overflow chain of a long payload |
| `BTreeInsert.InsertBySplit` | src/storage/btree.rs:415-424 | Without room, the leaf becomes two leaves around the cut, with the row gained and the divider strictly inside the interval |
| `BTreeInsert.InsertIntoPage` | src/storage/btree.rs:346-472 | The same for a subtree of any height: same depth of all leaves, ordered separators, one row more, everything outside untouched, and no leaf left empty if none was |
| `BTreeInsert.PropagateSplit` | src/storage/btree.rs:427-465 | A split child adds one separator or splits its parent; either way the parent's subtree gains exactly the row |
| `BTreeDelete.DeleteFromPage` | src/storage/btree.rs:1616-1712 | The row is gone and exactly its own overflow pages are free, every leaf keeping its content offset and links, or the key was absent and nothing changed; what the tree could take as an update it can now take as an insertion; an emptied leaf still leads to the deleted cell |
| `BTreeRead.FindByRowid` | src/storage/btree.rs:1532-1605 | Finds the row of a key anywhere in the tree, exactly when it is there |
| `BTreeRead.FindLeftmostLeaf` | src/storage/btree.rs:1120-1153 | Reaches the first leaf of the in-order leaf list |
| `BTreeRead.FindRightmostLeaf` | src/storage/btree.rs:1304-1323 | Reaches the last leaf of the in-order leaf list |
| `BTreeRead.ScanAll` | src/storage/btree.rs:1157-1199 | Following `next` from the first leaf gives every row of the tree in order |
| `BTreeRead.ScanAllReverse` | src/storage/btree.rs:1328-1372 | Following `prev` from the last leaf gives exactly the reverse |
| `BTreeRead.CountRows` | src/storage/btree.rs:1778-1819 | The number of rows; the fixed child array is never too small |
| `BTreeRead.MaxRowid` | src/storage/btree.rs:1733-1775 | The key of the last row if the last leaf has one, else 0 |
| `Table.BTreeTable.constructor` | src/storage/btree.rs:166-170 | A new table is the empty map and uses one page that was not in use |
| `Table.BTreeTable.Insert` | src/storage/btree.rs:328-343 | With the split hypotheses: the map gains exactly the rowid, or the rowid was there or the payload too long and the map is unchanged; pages of other tables and chains are untouched; the pages of a long payload's chain are left over, in no table, exactly when the rowid was there; the root stays, or becomes the first child of a new one, for a one-leaf table exactly when the leaf has no room |
| `Table.BTreeTable.Delete` | src/storage/btree.rs:1609-1613 | The map loses exactly the rowid, the answer says whether it was there, foreign pages are untouched, and a leaf emptied of a short row still leads to its cell |
| `Table.BTreeTable.Update` | src/storage/btree.rs:1715-1718 | With room on the leaf or the split hypotheses, stated of the tree before the call: the map has the new payload under the rowid; an over-long payload loses the row |
| `Updates.RoomCanUpdate` | src/storage/btree.rs:399-413 | With room for the new cell beside the deleted one, the update needs nothing else, not even that the leaf holds another row |
| `Updates.SoleRowHasRoom` | src/storage/btree.rs:775-793 | The one row a right-edge split leaves on a new leaf can be updated to any payload |
| `Updates.UpdateInRoom` | src/storage/btree.rs:1715-1718 | A caller that looks for room first updates the map, with no hypothesis about splits, exactly when there is room |
| `StaleRoot.FindFromOldRoot` | src/schema.rs:1161-1168 | From a root page that was replaced, a lookup finds exactly the rows below the separator of the new root |
| `StaleRoot.UpdateAndFind` | src/schema.rs:1217-1230 | After one update through a root page that is then kept, another row is looked up right exactly when the root was not replaced or the row lies below the new separator |
| `StaleRoot.RowsAbove` | src/schema.rs:1161-1168 | With no leaf empty, a replaced root leaves some row not below the separator |
| `Table.BTreeTable.Find` | src/storage/btree.rs:1532-1605 | Lookup in the map |
| `Table.BTreeTable.Scan` | src/storage/btree.rs:1287-1289 | The map, once and in ascending rowid order |
| `Table.BTreeTable.ScanReverse` | src/storage/btree.rs:1328-1372 | The exact reverse of that listing |
| `Table.BTreeTable.Count` | src/storage/btree.rs:1778-1819 | The size of the map |
| `Table.RowsIncreasing` | src/storage/btree.rs:1053-1115 | A tree with bounding separators lists strictly ascending keys |
| `AppendOnly.AppendCanInsert` | src/storage/btree.rs:775-793 | A key above every row goes to the right edge of a tree without empty leaves, where no split can fail to fit |
| `AppendOnly.Append` | src/storage/btree.rs:328-343 | On a table that only grew, a rowid above all others is always inserted, with no hypothesis but free pages; no leaf is empty afterwards |
| `AppendOnly.CreateTable` | src/storage/btree.rs:166-170 | A new table is one that only grew |
| `AppendOnly.NextRowid` | src/schema.rs:766-771 | `max_rowid + 1` is above every rowid exactly when the last leaf holds a row or all rowids are below 1, so always on a table that only grew |
| `AppendOnly.WalkTable` | src/storage/cursor.rs:21-318 | On every table: the cursor lists the map, once and in ascending rowid order, exactly when no leaf is emptied or the map is empty |
| `AppendOnly.DeleteAndWalk` | src/storage/cursor.rs:171-216 | Deleting the last row of a leaf and walking the table shows the deleted row again, unless the first leaf is the empty one |
| `FixedWidth.FixedCanInsert` | src/storage/btree.rs:775-793 | On a tree without empty leaves whose cells have one size, a new key meets every split hypothesis, whatever leaf it goes to |
| `FixedWidth.InsertFixed` | src/storage/btree.rs:328-343 | On such a table a new rowid is always inserted, with no hypothesis but free pages, and the table stays such a table |
| `RowTable.AppendRow` | src/storage/btree.rs:328-343 | A row of values is serialized and inserted; deserializing gives the row back exactly when it is within the column and value limits; all other rows stay |
| `RowTable.InsertRow` | src/storage/btree.rs:328-343 | The same at any rowid of any table, with the split hypotheses; a rowid that is there changes nothing |
| `RowTable.FindRow` | src/storage/btree.rs:1532-1605 | Lookup of a row: absent, deserialized, or the deserialization error |
| `Cursor.TableCursor.constructor` | src/storage/cursor.rs:21-41 | On every tree: at the first stop with all stops before it, or at the end exactly if the first leaf is empty |
| `Cursor.TableCursor.MoveToLeftmost` | src/storage/cursor.rs:49-96 | Pushes the way to the first stop of any subtree |
| `Cursor.TableCursor.Current` | src/storage/cursor.rs:171-216 | The row at the first stop still ahead, long payloads included; on an emptied leaf, the row in the cell that slot 0 still leads to |
| `Cursor.TableCursor.Advance` | src/storage/cursor.rs:219-318 | Drops exactly that stop from what is ahead |
| `Cursor.Walk` | src/storage/cursor.rs:171-318 | On every tree, interior pages with no cell included, walking from the start terminates, having shown every row in order and, for every later emptied leaf, what its slot 0 leads to |
| `Cursor.WalkIsScanIff` | src/storage/cursor.rs:27-39 | What is shown is a full scan exactly when no leaf is empty or there is no row, whatever the emptied leaves lead to |
| `Cursor.StopCountIff` | src/storage/cursor.rs:219-318 | There are as many stops as rows exactly then |
| `Cursor.DeletedRowShown` | src/storage/cursor.rs:171-216 | A row whose deletion emptied its leaf is among what a walk shows, unless the walk ends at the first leaf |
| `SplitFit.RightEdgeSplitFits` | src/storage/btree.rs:775-793 | For every page size, a split at the right edge fits |
| `SplitFit.LongestPayloads` | src/storage/btree.rs:20-21 | For every page size, two cells with the longest inline payload fit on a leaf, with 22 bytes to spare, and three do not |
| `SplitFit.EqualSizeSplitFits` | src/storage/btree.rs:775-793 | For every page size, a leaf of equal-size cells splits into two halves that fit |
| `SplitFit.InteriorBounds` | src/storage/btree.rs:45-51 | An interior page's children fit the fixed child array, and every cut of its separators fits |
| `SplitFit.StoredLeafFits` | src/storage/btree.rs:387-399 | Cells in separate places of a page take up all of their sizes, so no page holds cells that do not fit |
| `SplitFit.PackedFits` | src/storage/btree.rs:387-399 | Intervals of a range that do not overlap are together no longer than the range |
| `BTree.SplitHalves` | src/storage/btree.rs:775-793 | The fit test in terms of the old cells is exactly that both halves with the new cell in fit |
| `BTree.CutBalances` | src/storage/btree.rs:775-778 | A cut leaves halves that differ by at most one cell, the right one the larger, or a right half of one cell when the new cell is the last |
| `SplitFit.SplitStorableIff` | src/storage/btree.rs:782-793 | There are page bytes whose slots hold both halves, cells apart from each other and from the header, exactly when both fit, so the split can leave both pages correct exactly then |
| `SplitFit.FittingStored` | src/storage/btree.rs:532-578 | Every list of cells that fits is held by some page |
| `SplitFit.UnevenSplitOverflows` | src/storage/btree.rs:775-793 | A leaf of 4096 bytes with rowids 0, 2, ..., 24 and a row 23 that goes to position 12: the right half of its split does not fit |
| `SplitHazards.EmptiedLeafCut` | src/storage/btree.rs:773-780 | A leaf without live cells is cut before its new row, and the divider is that row's key |
| `SplitHazards.NewPageReachable` | src/storage/btree.rs:944-969 | With room on the parent, searching the divider reaches the new page exactly when the divider was not a separator already |
| `SplitHazards.NewPageReachableBySplit` | src/storage/btree.rs:858-904 | When the parent is split as well, the new page is reached in either case |
| `SplitHazards.EmptiedLeafLosesRow` | src/storage/btree.rs:452-460 | An emptied leaf at its own separator whose new row can no longer be found |
| `SplitHazards.DuplicateSplit` | src/storage/btree.rs:782-793 | A rowid a full leaf already holds: an error with rows lost exactly when the cut is not between the two, both stored otherwise |
| `SplitHazards.SplitKeepsRowsIff` | src/storage/btree.rs:725-812 | The split path keeps the leaf's rows and adds the new one exactly when its rowid is new |
| `SplitHazards.SplitFollows` | src/storage/btree.rs:782-806 | The pages `split_leaf` leaves hold that outcome; after an error the page has left the leaf list and every other page is as before |
| `Bytes.I64RoundTrip` | src/storage/btree.rs:475-481 | Two's-complement little-endian keys read back |
| `Crc.Checksum` | src/raft/log_store.rs:42-55 | The byte and bit loops compute the checksum function of the two record formats |
| `Crc.OneByteDetected` | src/raft/log_store.rs:42-55 | Changing any one byte of any data changes its checksum |
| `Crc.CheckValue` | src/raft/log_store.rs:42-55 | The checksum of the text 123456789 is CBF43926 |
| `Framing.PayloadsOfFrames` | src/raft/log_store.rs:57-85 | Records written one after another are all read back, whatever follows them |
| `Framing.PayloadsOfCut` | src/raft/log_store.rs:65-85 | A file cut at any byte reads back as exactly the records wholly inside the cut |
| `Framing.WholeIsMaximal` | src/binlog/mod.rs:407-427 | The number of records kept is the largest whose bytes fit in the cut |
| `Framing.BoundaryIff` | src/raft/log_store.rs:65-85 | For both record layouts: every record appended to a file is read back after those before it exactly when the file ends on a record boundary |
| `Framing.ReadFrameIs` | src/raft/log_store.rs:65-85 | What is read as a record is the frame of that record |
| `Framing.OneByteRejected` | src/raft/log_store.rs:65-85 | For both layouts: a record with one byte of its payload or checksum changed is not read |
| `Framing.CorruptRecordStops` | src/raft/log_store.rs:65-85 | Such a byte costs that record and those after it, and no record before it |
| `LogStore.ReadRecord` | src/raft/log_store.rs:65-85 | Reading one record: payload, or stop at the end, at a short record and at a checksum mismatch |
| `LogStore.KkdbLogStore.constructor` | src/raft/log_store.rs:129-196 | Opening replays appends and truncations, skips what does not decode, drops purged entries and counts all records |
| `LogStore.KkdbLogStore.AppendEntries` | src/raft/log_store.rs:476-496 | Memory, files and durable writes of an append, one record per entry |
| `LogStore.KkdbLogStore.TruncateFrom` | src/raft/log_store.rs:498-511 | Exactly the entries below the index stay; marker record and record counter of a truncation |
| `LogStore.KkdbLogStore.Purge` | src/raft/log_store.rs:513-532 | Exactly the entries above the index stay and the purge point is set; purge file and the automatic compaction |
| `LogStore.KkdbLogStore.Compact` | src/raft/log_store.rs:207-246 | Rewrites the live entries to the scratch file, renames it, resets the counter and returns the dead records eliminated |
| `LogStore.KkdbLogStore.RewriteLive` | src/raft/log_store.rs:220-235 | The scratch file holds one append record per live entry, by ascending index |
| `LogStore.KkdbLogStore.SaveVote` | src/raft/log_store.rs:463-470 | The vote in memory and in its file |
| `LogStore.KkdbLogStore.SetCompactThreshold` | src/raft/log_store.rs:273-275 | Only the threshold changes |
| `LogStoreRuns.StepSound` | src/raft/log_store.rs:207-532 | Every operation keeps the file faithful to memory and changes what is seen by its durable steps; a compaction leaves no dead record |
| `LogStoreMeaning.ReplayIff` | src/raft/log_store.rs:153-181 | The entry that opening finds at an index is the last one appended there, unless a later truncation reached down to it; records that do not decode change nothing |
| `LogStoreMeaning.AppendMeans` | src/raft/log_store.rs:476-496 | At each index an append leaves the last of its entries for it, or what was there |
| `LogStoreMeaning.TruncateMeans` | src/raft/log_store.rs:510-510 | A truncation keeps exactly the entries below its index, unchanged |
| `LogStoreMeaning.TruncateReopens` | src/raft/log_store.rs:168-168 | After a legal truncation of a sound store the file gives back exactly these |
| `LogStoreMeaning.PurgeMeans` | src/raft/log_store.rs:513-518 | A purge keeps exactly the entries above its index, unchanged, and sets the purge point, whether it compacts or not |
| `LogStoreMeaning.OperationReopens` | src/raft/log_store.rs:129-532 | After every legal operation of a sound store, reopening gives the log, purge point and vote in memory |
| `LogStoreMeaning.TruncateCounts` | src/raft/log_store.rs:504-509 | A truncation counts its own record, and once more every entry it removes |
| `LogStoreMeaning.PurgeCompactsIff` | src/raft/log_store.rs:521-531 | A purge compacts exactly when the dead records, the purged ones counted twice, exceed the threshold; then every record is live |
| `LogStoreMeaning.ValuesInOrder` | src/raft/log_store.rs:228-232 | A compaction writes every live entry once, by ascending index |
| `LogStoreRuns.StepCrash` | src/raft/log_store.rs:284-336 | A crash at any byte of any durable write of an operation, files cut short included, reopens to a first part of its durable steps exactly unless it emptied a vote or purge file that held something |
| `LogStoreRuns.EveryCut` | src/raft/log_store.rs:284-336 | Such a crash may leave every first part of the bytes going to a file, and an emptied vote or purge file |
| `LogStoreRuns.TornVoteIff` | src/raft/log_store.rs:320-328 | With the vote file cut short all but the vote reopens; that is the state before or after the vote exactly when there was none before |
| `LogStoreRuns.TornPurgeIff` | src/raft/log_store.rs:330-336 | With the purge file cut short every entry the log file holds is back; that is the state before or after the purge exactly when there was no purge point before |
| `LogStoreHistory.RunSound` | src/raft/log_store.rs:129-532 | Any alternation of legal operations and crashes that leave a record boundary and whole vote and purge files keeps file and memory in agreement; what is seen is the steps of the finished operations and a first part of those of each interrupted one |
| `LogStoreHistory.CrashResumes` | src/raft/log_store.rs:129-196 | After such a crash the reopened store satisfies the invariant again |
| `LogStoreHistory.BetweenWrites` | src/raft/log_store.rs:207-532 | A crash between any two durable writes of any operation is such a crash |
| `LogStoreHistory.ReopenMatchesMemory` | src/raft/log_store.rs:129-196 | After any history, crashes included, reopening gives the log, purge point and vote in memory; `total_records` bounds the records in the file, which bound the live entries; with no dead count every record is live |
| `LogStoreHistory.CrashKeepsPrefix` | src/raft/log_store.rs:153-336 | A crash at any moment after any history, torn record or file or not, reopens to everything kept before and a first part of the unfinished operation, exactly unless it emptied a vote or purge file that held something |
| `LogStoreHistory.ForgottenVote` | src/raft/log_store.rs:320-328 | One vote saved and a crash in the next: the reopened store has no vote |
| `LogStoreHistory.ForgottenPurge` | src/raft/log_store.rs:330-336 | One purge and a crash in the next: the reopened store has no purge point |
| `LogStoreHistory.PurgeBoundsDeadRecords` | src/raft/log_store.rs:513-532 | After any run, a purge leaves at most the threshold of dead records in the file |
| `LogStoreRuns.ReplaySize` | src/raft/log_store.rs:153-181 | The log never has more entries than the file records, and equally many only if no record is dead |
| `LogStoreRuns.CompactFaithful` | src/raft/log_store.rs:220-243 | The compacted file replays to the same log |
| `LogStoreHistory.AppendSurvivesIff` | src/raft/log_store.rs:177-180 | An append survives a reopen exactly when its index is above the purge point |
| `LogStoreHistory.PurgeSurvivesIff` | src/raft/log_store.rs:513-521 | A purge agrees with a reopen exactly when the file holds no entry between the new and the old purge point |
| `LogStoreHistory.CutReopens` | src/raft/log_store.rs:156-176 | The log file cut at any byte reopens to the replay of the whole records |
| `LogStoreHistory.BoundaryResumes` | src/raft/log_store.rs:183-195 | A store reopened on a record boundary, with entries that can be framed, satisfies the invariant of the run theorems |
| `LogStoreHistory.TornTailHidesAppend` | src/raft/log_store.rs:156-176 | Behind a cut record that keeps its length field and is longer than what follows, a record appended after reopening is not read back |
| `LogStoreHistory.TornByteHidesAppend` | src/raft/log_store.rs:156-176 | The same behind the first byte of a record whose length is a multiple of 256 |
| `StateMachine.KkdbStateMachine.constructor` | src/raft/state_machine.rs:98-130 | Opening installs the snapshot file, if it decodes |
| `StateMachine.KkdbStateMachine.Execute` | src/raft/state_machine.rs:133-172 | A request runs on its user's database, opened at first use, or fails without effect if it cannot be opened |
| `StateMachine.KkdbStateMachine.Apply` | src/raft/state_machine.rs:262-307 | State and replies after a batch of blank, normal and membership entries |
| `StateMachineSpec.MembershipMeans` | src/raft/state_machine.rs:294-295 | A log leaves its last membership, with the id of that entry, or the one that was there |
| `StateMachineSpec.LastIdMeans` | src/raft/state_machine.rs:266-270 | The last applied id is that of the last entry |
| `StateMachineSpec.AppliedMeans` | src/raft/state_machine.rs:272-292 | The list of applied requests grows by the statements of the log, all of them and in order |
| `StateMachineSpec.ReplyMeans` | src/raft/state_machine.rs:262-307 | Reply `i` is what the statement returns on its user's database after that user's own earlier statements, or the error of opening it |
| `StateMachine.KkdbStateMachine.BuildSnapshot` | src/raft/state_machine.rs:201-242 | The snapshot holds the applied requests, last id and membership; the state is unchanged |
| `StateMachine.KkdbStateMachine.InstallSnapshot` | src/raft/state_machine.rs:319-357 | Installs either snapshot form, or an empty one that keeps the databases from an undecodable blob |
| `StateMachine.ShipSnapshot` | src/raft/state_machine.rs:201-357 | A snapshot shipped to a replica with new databases, followed by the remaining entries, gives the leader's full-log state |
| `StateMachine.Restart` | src/raft/state_machine.rs:98-130 | With databases in memory, a machine reopened from its snapshot file and given the entries since is in the same state as one that never stopped |
| `StateMachineSpec.RestartRunsAgain` | src/raft/state_machine.rs:123-154 | With databases in directories, a restart runs each user's statements again on the database as it was |
| `StateMachineSpec.RestartAgreesIff` | src/raft/state_machine.rs:123-154 | A user's database is then as before exactly when running the user's statements once more changes nothing |
| `StateMachineSpec.RestartCountsTwice` | src/raft/state_machine.rs:123-154 | An engine that counts statements: one statement, 1 when the process stopped and 2 after the restart |
| `StateMachineSpec.SnapshotPlusSuffix` | src/raft/state_machine.rs:201-357 | Snapshot plus suffix equals the full log, for databases, last applied id, membership and request list |
| `StateMachineSpec.SnapshotOfSnapshot` | src/raft/state_machine.rs:201-357 | A snapshot taken by a replica that itself came from a snapshot is as good |
| `StateMachineSpec.UserIsolation` | src/raft/state_machine.rs:133-172 | A user's database is that user's own statements run in order, whatever else the log holds |
| `StateMachineSpec.SameStatementsSameDatabase` | src/raft/state_machine.rs:133-172 | Two logs that agree on a user's statements leave that user the same database |
| `StateMachineSpec.InstallOnUsedDatabases` | src/raft/state_machine.rs:352-355 | An engine and a log for which installing onto databases in use does not give the leader's state |
| `StateMachineSpec.InstallAgreesIff` | src/raft/state_machine.rs:346-355 | Snapshots of every log install correctly exactly on the databases the leader started from |
| `StateMachineSpec.InstallUserIff` | src/raft/state_machine.rs:346-355 | For one user, exactly when that user's database is the one the leader started from |
| `Varint.WriteVarint` | src/varint.rs:5-17 | The loop appends the LEB128 form |
| `Varint.ReadVarint` | src/varint.rs:22-47 | The loop decodes as the specification does, with the ten-byte limit; each group lies above the bits read so far |
| `Varint.DecEncVarint` | src/varint.rs:5-47 | Every 64-bit number reads back with its exact length, whatever follows |
| `Varint.EncVarintLength` | src/varint.rs:5-17 | A number takes as few bytes as seven bits each allow |
| `Varint.DecVarintRange` | src/varint.rs:27-38 | Whatever is read fits 64 bits and takes at most ten bytes |
| `Varint.ZigzagRoundTrip` | src/varint.rs:51-59 | Zigzag decodes back and numbers integers by magnitude |
| `Varint.UnzigzagRoundTrip` | src/varint.rs:51-59 | Every 64-bit word is the zigzag of what it decodes to |
| `Values.DecEncValue` | src/types.rs:103-211 | A value reads back with its exact length, whatever follows, exactly when it is within 256 MiB |
| `Values.ValuePrefixFree` | src/types.rs:103-128 | No encoded value is a prefix of another |
| `Values.DecEncRow` | src/types.rs:365-415 | A row reads back exactly when it has at most 4096 columns within the value limit |
| `Values.RowPrefixFree` | src/types.rs:365-387 | No encoded row is a prefix of another |
| `Utf8.Utf8Iff` | src/types.rs:181-183 | The bytes accepted as text are exactly the UTF-8 encodings of sequences of Unicode characters (section 3 of RFC 3629) |
| `Values.SerializeRow` | src/types.rs:365-375 | The loop produces the row encoding |
| `Values.DeserializeRow` | src/types.rs:391-415 | The loop decodes as the specification does, including every error |
| `IndexKey.KeyInjective` | src/schema.rs:1486-1494 | Key tuples of any lengths with the same key are the same tuple |
| `IndexKey.MakeKey` | src/schema.rs:1486-1494 | The loop builds the key |
| `IndexKey.BuildIndex` | src/schema.rs:951-977 | The UNIQUE build fails exactly when two rows agree bit for bit, and without NULL, at every indexed column position; otherwise every row gets the index row of its values at these positions, NULL past its end, and its rowid |
| `IndexKey.ClashIff` | src/schema.rs:956-972 | Comparing the tuples of indexed values is comparing the rows position by position |
| `LogRecords.DecEncRecord` | src/binlog/mod.rs:62-292 | Every log record reads back at any offset with its exact end |
| `LogRecords.RecordPrefixFree` | src/binlog/mod.rs:62-135 | No encoded record is a prefix of another |
| `Base64.DecodeEncode` | src/binlog/mod.rs:832-874 | Decoding undoes encoding for data of every length (section 4 of RFC 4648) |
| `Base64.EncodedLength` | src/binlog/mod.rs:853-874 | Four characters for every three bytes begun |
| `Base64.GroupDigits` | src/binlog/mod.rs:853-874 | Three bytes are their 24-bit number, first byte highest, in base 64 |
| `Base64.SymbolCode` | src/binlog/mod.rs:834-834 | The alphabet as ASCII codes (table 1 of RFC 4648) |
| `Base64.Example` | src/binlog/mod.rs:853-874 | An example of section 10 of RFC 4648 |
| `Base64.EncodeText` | src/binlog/mod.rs:853-874 | The chunk loop produces the encoding |
| `Base64.DecodeText` | src/binlog/mod.rs:832-851 | The bit-buffer loop decodes as the specification does, and its buffer never overflows |
| `Binlog.ScanFrames` | src/binlog/mod.rs:403-430 | The scan from an offset gives each whole frame with the offset after it |
| `Binlog.BinlogManager.Append` | src/binlog/mod.rs:346-367 | The log grows by exactly one frame; the start offset is where it ended before |
| `Binlog.BinlogManager.Drain` | src/binlog/mod.rs:327-327 | The write buffer passes a first part of its bytes on to the file; the log as a whole is unchanged |
| `Binlog.BinlogManager.Fsync` | src/binlog/mod.rs:370-376 | Everything appended is in the file |
| `Binlog.BinlogManager.ReadFrom` | src/binlog/mod.rs:382-398 | Reads what reached the file, or the memory buffer |
| `Binlog.BinlogManager.Recover` | src/binlog/mod.rs:445-519 | The file is cut after the last readable record, the position follows, the transactions prepared but not finished are returned |
| `Binlog.ReplayMarks` | src/binlog/mod.rs:463-503 | The loop collects exactly the prepared and the finished transactions and the valid length |
| `Binlog.CrashRecoverAppend` | src/binlog/mod.rs:346-519 | For any records, any byte cut and any later append: recovery keeps the whole records, reports exactly the transactions prepared and neither committed nor rolled back among them, and the continued file scans correctly |
| `BinlogSpec.RecoverCut` | src/binlog/mod.rs:463-511 | A stream cut at any byte recovers to exactly the records wholly inside, and the valid length is where they end |
| `BinlogSpec.InDoubtIff` | src/binlog/mod.rs:485-503 | In doubt are exactly the transactions with a prepare record and no commit or rollback record |
| `BinlogSpec.ScanCut` | src/binlog/mod.rs:403-430 | A scan of a cut stream from any record boundary gives exactly the frames up to the last whole record |
| `Replication.Serve` | src/raft/http_transport.rs:432-454 | The endpoint's lines are the scanned frames in base64 with their offsets |
| `Replication.BinlogFollower.PullBatch` | src/binlog/mod.rs:703-728 | The decoded records of a response, or an error; frames too short or undecodable are skipped |
| `Replication.PulledMeans` | src/binlog/mod.rs:703-728 | A response is an error exactly when some line is not base64; otherwise its records come in order, each with its offset, from exactly the lines whose frame is long enough and decodes |
| `Replication.BinlogFollower.Round` | src/binlog/mod.rs:746-764 | One turn of the loop applies the batch in order, moves the position and saves the checkpoint; an error changes nothing |
| `Replication.PullDecodes` | src/binlog/mod.rs:692-729 | Scan, base64 and record decoding compose to the leader's records with their offsets |
| `Replication.PullCatchesUp` | src/binlog/mod.rs:738-765 | A pull applies everything visible and not yet applied, once and in order |
| `Replication.FollowerInStep` | src/binlog/mod.rs:692-765 | Under any interleaving of appends, partial flushes and pulls, the follower has applied exactly the records that end at or before its position |
| `Replication.Pull` | src/binlog/mod.rs:738-765 | The program's own endpoint and follower make that step |
| `EditDistance.EditDistanceOf` | src/fulltext/fts_advanced.rs:48-74 | The table loops compute the distance |
| `EditDistance.LevIsShortest` | src/fulltext/fts_advanced.rs:48-74 | The distance is the least number of single-character insertions, deletions and substitutions |
| `EditDistance.TriangleInequality` | src/fulltext/fts_advanced.rs:48-74 | The triangle inequality |
| `EditDistance.Symmetric` | src/fulltext/fts_advanced.rs:48-74 | Symmetry |
| `EditDistance.ZeroIffEqual` | src/fulltext/fts_advanced.rs:48-74 | Distance 0 exactly for equal strings |
| `FuzzySearch.FuzzySearcher.AddTerm` | src/fulltext/fts_advanced.rs:34-38 | The dictionary holds every term once |
| `FuzzySearch.FuzzySearcher.Search` | src/fulltext/fts_advanced.rs:77-92 | Exactly the terms within the bound with their distances, each once, nearest first, equally near ones in dictionary order |
| `FuzzySearch.SortIsStable` | src/fulltext/fts_advanced.rs:90-90 | The sort orders by distance and keeps the order at each distance |
| `FuzzySearch.SortRanked` | src/fulltext/fts_advanced.rs:90-90 | Sorting matches that are in dictionary order ranks them by distance and then by dictionary position |
| `Calendar.Exact` | src/types.rs:601-619 | For every second, the division formulas give a valid Gregorian date and time whose second count, by the leap-year rule from 1970-01-01, is the input |
| `Calendar.MarchDate` | src/types.rs:607-613 | The era and year formulas find the March-based year and day number of any day; a 366th day only before a leap year's March |
| `Calendar.YearOfEraBounds` | src/types.rs:611-613 | The four divisions find the year of the era that holds the day |
| `Calendar.ExactFrom` | src/types.rs:602-618 | Month, day and clock formulas complete it to the valid date and time with that second count |
| `Calendar.OnlyExact` | src/types.rs:601-619 | There is no other valid date and time with that second count |
| `Calendar.ExactIncreases` | src/types.rs:601-619 | One second is before another exactly when its date and time is earlier, so the result is strictly increasing |
| `Calendar.CutIff` | src/types.rs:612-617 | The 32-bit year leaves a date unchanged exactly while the year fits |
| `Calendar.ToDateTime` | src/types.rs:601-619 | The program's result is the valid date and time with the given second count exactly while that one's year fits |
| `Calendar.ToDateTimeIncreases` | src/types.rs:601-619 | Where right, it is strictly increasing |
| `Calendar.FirstFailingSecond` | src/types.rs:601-619 | The program's result is right at every second before 135536014634284800, and there its year is 0 |
| `Calendar.MillisecondsFit` | src/types.rs:274-282 | Every timestamp column value has a year that fits |
| `Lsm.LsmCompactor.FlushMemtable` | src/storage/lsm.rs:83-87 | The first level gains one run and the flushed bytes, and no other level changes, unless there is no level |
| `Lsm.LsmCompactor.Compact` | src/storage/lsm.rs:92-108 | One round from the first level down, with its merges and bytes counted |
| `Lsm.RoundMeans` | src/storage/lsm.rs:92-108 | A round, level by level: what comes from above is one more run, and a level then due is emptied into the next; as many merges as levels due |
| `Lsm.RoundBytesSink` | src/storage/lsm.rs:97-103 | The bytes counted are those moved, once for every level they sink |
| `Lsm.MergeMeans` | src/storage/lsm.rs:98-101 | A merge empties its level and adds one run with all of its bytes to the next |
| `Lsm.FlushesMergeIff` | src/storage/lsm.rs:83-108 | Flushes to an empty first level are merged down by the next round exactly once there are as many as the limit, with all of their bytes |
| `Lsm.LsmCompactor.CompactAll` | src/storage/lsm.rs:111-121 | Terminates with no level but the last due, the same total bytes, and no merge exactly if none was due |
| `Lsm.MergeLosesWeight` | src/storage/lsm.rs:97-103 | A merge lowers the sum of runs weighted by the distance to the last level |
| `Lsm.RoundKeeps` | src/storage/lsm.rs:92-108 | A round conserves bytes and limits, and loses weight if it merges |
| `Lsm.CompactAllTerminatesIff` | src/storage/lsm.rs:111-121 | Repeated rounds settle exactly when every level above the last may hold a run |
| `Catalog.Schema.CreateTable` | src/schema.rs:695-801 | Adds a table whose column `i` has the name and flags of definition `i` and the number `i`, or reports that it exists |
| `Catalog.Schema.CreateIndex` | src/schema.rs:898-1015 | Adds exactly the index and fills it from the table's rows at the positions of its columns, or reports the taken name, the missing table or column, or, exactly for two rows that agree on a UNIQUE key without NULL, the violation |
| `Catalog.Schema.DropIndex` | src/schema.rs:853-892 | Removes exactly the index |
| `Catalog.Schema.DropTable` | src/schema.rs:804-850 | Removes the table and exactly its indexes |
| `Catalog.Schema.RenameTable` | src/schema.rs:1291-1322 | The table and exactly its indexes move to the new name, unchanged otherwise |
| `Catalog.Schema.AddColumn` | src/schema.rs:1128-1183 | Appends a column with its flags and the next number, and the default or NULL to every row, precisely when the name is free, NOT NULL has a default and the default is a constant |
| `Catalog.EvalDefaultMeans` | src/schema.rs:1496-1518 | A default is its innermost constant, with the other sign under an odd number of minus signs; there is none for other expressions, or a minus sign before what is no number |
| `Catalog.Schema.DropColumn` | src/schema.rs:1191-1283 | Column `i` afterwards is the `i`-th column with another name, renumbered; exactly the indexes of the table that mention the name go; every row loses the value of the first such column; precisely when the column is there, is not the primary key and not the only one |
| `Catalog.WithoutColumnKeeps` | src/schema.rs:1269-1270 | Dropping a column keeps exactly the columns with other names |
| `Catalog.WithoutColumnOrder` | src/schema.rs:1269-1270 | They keep their order: they are the columns at ascending positions |
| `Catalog.DropFollowsIff` | src/schema.rs:1217-1270 | Every full row holds the values of the columns that stay, each at its new position, exactly when no other column has the dropped name |
| `Catalog.SameNamedColumns` | src/schema.rs:1217-1270 | Columns a, b, B and c: dropping b leaves columns a and c and rows of three values |
| `Catalog.SameNameIff` | src/schema.rs:1202-1202 | Names are the same exactly when they agree in every position up to the case of a letter |
| `Catalog.WithoutOrder` | src/schema.rs:1276-1281 | A table's list of index names keeps its order when some are dropped |
| `Catalog.Schema.IndexesForTable` | src/schema.rs:1027-1033 | In every reachable catalog, exactly the indexes of the table, each once and in the order of the list kept for it |

## Left out

- Table.BTreeTable.Insert: assumes that both halves of a leaf split fit, that a leaf to be split holds a row or lies above its separator, that a rowid inserted by a split is new, and that enough pages are left; `AppendOnly.Append` and `FixedWidth.InsertFixed` need only the last, and `SplitFit` and `SplitHazards` have what happens otherwise.
- BTree.SplitLeaf: the same assumption about fit.
- RowTable.InsertRow: the same assumptions.
- BTreeInsert.InsertIntoLeaf: the same assumptions for its leaf.
- BTreeInsert.InsertIntoPage: the same assumptions for the leaf it reaches.
- Table.BTreeTable.Update: the same assumptions about the leaf without the old row, unless it has room.
- Cursor.TableCursor.Current: a slot of an emptied leaf that leads to no cell, or to a stub whose chain was freed, gives no value here, whatever the program makes of the free pages.
- Cursor.DeletedRowShown: for rows stored in their leaf cell, right after the deletion.
- LogStoreHistory.ReopenMatchesMemory: legal operations append above the purge point, never purge backwards and write records under 4 GiB; `compact` renames `wal.new` without a sync (src/raft/log_store.rs:220-238), so the order of these two writes is assumed; a vote or purge file cut short is taken not to decode.
- LogStoreHistory.CrashKeepsPrefix: histories go on after a crash only from a record boundary with vote and purge files whole.
- LogStore.KkdbLogStore.Purge: I/O succeeds; the record counters do not wrap at 64 bits.
- StateMachineSpec.SnapshotPlusSuffix: for replicas whose databases are as new, since installing does not clear them.
- StateMachine.Restart: for user databases in memory; within one process what opening a user's database gives is fixed.
- Replication.FollowerInStep: without restarts of the follower; the checkpoint is saved after a whole batch, so a restart in between repeats records.
- Lsm.LsmCompactor.CompactAll: requires the run limits without which the program does not terminate.
- Values.DecEncValue: floating-point values are their 64 bits; comparison and arithmetic of values are not modelled.
- LogRecords.DecEncRecord: string lengths near 2^64, whose sum with an offset overflows in the program, read as truncated here.
- Free pages in the pager: the two-generation free list, copy-on-write superblocks, transactions, caching and disk I/O; the pager is a map of pages with a free pool.
- Prefix-compressed scans and inserts, limited and row-only scans, fragmentation statistics and defragmentation.
- StaleRoot.UpdateAndFind: one update; what later updates through the old root do, which insert rows not found there a second time, is not modelled.
- Catalog.Schema.DropColumn: the rows are a list; the B-tree updates that rewrite them are in `StaleRoot` and `Table`.
- Full-text index registration, views, triggers, foreign keys, policies and the catalog's own rows on disk; catalog names are ASCII.
- Reading ranges of the Raft log, log state queries, compaction statistics and the direct test helpers.
- The binlog emission and broadcast channel inside `apply`, `record_to_sql`, and the JSON lines of the stream, taken as pairs of offset and text.
- The checksum beyond one changed byte: which longer changes collide.
- Raft consensus, transports, SQL parsing and execution, the servers, TLS and the command line.
- BM25 ranking, selectivity estimates, tokenizers, synonyms, facets, Bloom filters, dictionary compression and tiering.
