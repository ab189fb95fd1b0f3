# mukhidb in Dafny

A model of the storage engine of mukhidb, a small SQL database, and proofs
about it. The layers, from the bytes up:

- **Pages.** `Bytes`, `Cells`, `LeafPage`, `InternalPage`: 4096-byte arrays
  changed in place. A slotted leaf refines a sorted list of (key, row) cells;
  an internal page refines a list of keys and a list of children.
- **The B+tree as a value.** `Split`, `TreeModel`, `TreeLeaves`, `TreeOrder`,
  `TreeAlign`, `TreePages`, `TreeChain`, `TreeRuns`: what an insertion does to
  the tree of nodes, page numbers and leaf links included, and what whole runs
  of insertions keep. A scan never looks at the separators, so the subject is
  the agreement of two structures: the search tree and the chain of leaves.
  `TreeReach` is what both keep when the pages run out half way up a cascade.
- **The B+tree on pages.** `Nodes`, `BTree`, `BTreeScan`, `OutOfPages`: the
  descent, the leaf and internal splits, the new root and the scan, on the page
  cache; each is proved to refine the value-level operation.
- **The log and the pager.** `WalLog`, `WalFile`, `Media`, `PageCache`, and for
  crashes `Crash`, `CommitAtomicity`, `CrashRuns`, `PagerCrash`, `TableCrash`. A
  file is its contents, the contents at the last sync, and the page writes
  since; a crash keeps any of those writes and any prefix of the log that
  extends the synced part. `ReadPath` is the interleaving of concurrent
  `read_page` calls.
- **Tables.** `Codec`, `Rows`, `Metadata`, `Tables`, `TableStores`,
  `StorageRuns`, `Storage`: rows, the metadata page, table handles with their
  root page, and transactions over all open tables.
- **Sessions.** `Sessions`: the transaction gate as a step system over any
  number of sessions; `SessionCalls` is what their calls come to over whole
  runs, and `SessionStorage` joins them with the storage statements that they
  run behind the gate.
- **The wire.** `Protocol`: framed messages.
- **The formats.** `Layouts`: the bytes of pages, log records, rows and
  metadata, spelled out.

`dafny verify dfyconfig.toml` checks everything.

## What does not hold, and when it does

- **Key order with repeated keys.** The slot for a promoted key is searched
  again instead of taken from the descent. `TreeAlign.OrderKeptIff` says that
  the tree keeps the order of the chain exactly if every promoted key is found
  again at the slot of the descent, and `TreeRuns.RunAlignedIff` says it of
  whole runs; distinct keys are enough (`TreeAlign.DistinctAligned`). Where a
  slot is not found again, every larger key sent to the left one of the two
  halves puts the scan out of order (`TreeRuns.MisalignedBreaksScan`), and
  `TreeRuns.DuplicatesBreakOrder` is a run of seven legal insertions with keys
  5, 5, 5, 5, 6, 6, 7 that ends so. No row is ever lost or altered, whatever the
  keys.
- **The advertised row limit.** Splits by bytes fit their pages for all leaves
  exactly if no cell costs more than 1362 bytes, slot and key included
  (`Split.SplitBoundExact`); rows of up to 2030 bytes are accepted. No page can
  hold a half above the limit (`LeafPage.OverfullHasNoPage`): slots and cells
  are written over each other without an error, or, above 4096 bytes of cells,
  the write panics. In the half of 4086 bytes that shows the bound, the third
  cell starts at byte 22 and its slot ends at byte 23, so its key is lost
  (`Split.OverflowLosesKey`).
- **Running out of pages.** An insertion that fails for want of a page changes
  nothing exactly if there was none left to begin with (`BTree.InsertRow`).
  Otherwise the leaf has split and both halves are linked, so the refused row is
  in the chain: scans return it, the next flush stores it, and later rows can
  land out of order (`OutOfPages.RefusedRowIsScanned`). Still no other row is
  lost, and a rollback takes the refused row away (`StorageRuns.HistoryBalances`).
- **A log that is not empty.** Opening leaves the log alone if it has nothing
  to replay, and transaction numbers start at 0 again. A commit, whatever pages
  it writes, is atomic exactly if the log consists of whole records, has nothing
  to replay and holds no record with the transaction's number
  (`CommitAtomicity.CommitAtomicExact`, for every log). Both ways to miss it are
  reached: `CrashRuns.StaleRecordMixes` is a run of two crashes after which the
  file is a mixture, `CrashRuns.TornTailRun` a run in which a torn byte hides a
  durable commit. Every complete commit, rollback and replay restores the
  condition (`CrashRuns.GuardRestored`).
- **Isolation.** Passing the gate and taking the storage lock are two steps. A
  transaction is isolated from the moment it opens exactly if no other session
  stands between the two (`Sessions.IsolationExact`); then only its own session
  changes the tables (`SessionStorage.OnlyOwnChanges`). Otherwise an insert can
  be rolled back after its client was told that it succeeded
  (`SessionStorage.AcknowledgedInsertLost`).
- **Long column names** are cut to 255 bytes when stored
  (`Metadata.MetaRoundTripExact`), and result rows survive the wire exactly if
  they have one cell per header (`Protocol.MessageRoundTripExact`).

## Model

| member | source | states |
|---|---|---|
| LeafPage.FreeSpaceExact | src/btree.rs:127-137 | the header arithmetic of the free-space test equals the capacity minus the cost of the decoded cells, so the test is exact |
| Layouts.LeafLayout | src/btree.rs:27-119 | the bytes of a leaf: type, count, next leaf, data start, slots, cells |
| Layouts.NodeLayout | src/btree.rs:15-46 | the bytes of an internal page: type, count, right child, entries |
| LeafPage.OverfullHasNoPage | src/btree.rs:376-388 | no page decodes to cells that cost more than 4085 bytes; written as write_leaf_cells does, they would start inside their own slot directory |
| LeafPage.InsertIntoLeaf | src/btree.rs:326-361 | on a leaf with room the decoded list becomes the old one with the cell at its lower bound, every other cell byte for byte the same, and cells stay disjoint, in bounds and without holes |
| LeafPage.WriteLeafCells | src/btree.rs:376-388 | whatever the page held, it decodes to exactly the given cells, with no next leaf |
| LeafPage.CollectLeafCells | src/btree.rs:364-373 | collecting returns the decoded list |
| InternalPage.InsertIntoInternal | src/btree.rs:461-498 | keys become the old keys with the new one at its lower bound, children the old ones with the new child just right of it |
| InternalPage.WriteEntries | src/btree.rs:549-569 | whatever the page held, it decodes to the given keys, children and right child |
| InternalPage.FindChild | src/btree.rs:233-243 | the descent takes the child left of the first key not below the sought one |
| InternalPage.MaxKeysExact | src/btree.rs:177-179 | the last entry of a node ends inside the page exactly up to 340 keys |
| Split.ChooseSplit | src/btree.rs:406-428 | the loop with its two clamps finds the cut that SplitPointMeaning describes |
| Split.SplitPointMeaning | src/btree.rs:411-428 | for two cells or more both halves are non-empty, the clamps never fire, and the cut is the longest prefix of at most half the bytes, or one cell |
| Split.LeftHalfFits | src/btree.rs:406-444 | the left half fits its page for every legal cell size |
| Split.SplitBoundExact | src/btree.rs:190-195 | all overfull leaves of cells costing at most m split into fitting halves if and only if m is at most 1362 |
| Split.OverflowLosesKey | src/btree.rs:381-384 | whatever page results from writing the overfull half of the bound, its third cell does not read back with its key |
| TreePages.InsertOwns | src/btree.rs:207-283 | every page stays used at most once in the tree, page 0 never, and new pages come only from the free ones |
| TreePages.RootBalanced | src/btree.rs:262-282 | after any insertion all leaves have one depth and every node below the root keeps 170 to 340 keys |
| TreePages.HeightBound | src/pager.rs:9 | with at most 1024 pages no tree has more than two internal levels, and with two the root is not full |
| TreePages.ThreePagesSuffice | src/btree.rs:255-282 | three free pages are enough for any insertion |
| TreeChain.ChainKept | src/btree.rs:433-451 | for any keys, after an insertion the chain still meets every leaf of the tree once, from the leftmost one, ends with link 0, and differs from the old chain only at the leaf that was reached |
| TreeChain.ChainGainsOne | src/btree.rs:285-319 | for any keys a scan returns the old rows in the old order with exactly the new one added |
| TreeOrder.SeparatorBounds | src/btree.rs:233-236 | in a sorted tree no key left of a separator is above it and none right of it is below it |
| TreeAlign.SeparatorsIncrease | src/btree.rs:461-498 | the separators of a node are in key order |
| TreeAlign.PromotedAtMost | src/btree.rs:453-454 | a promoted key is never above the keys and the new key it comes from |
| TreeAlign.SlotFoundAgain | src/btree.rs:470-473 | the slot searched again for a promoted key is the child index of the descent unless the key equals the separator left of it, and never a later one |
| TreeAlign.DistinctAligned | src/btree.rs:519-522 | with distinct keys the slots agree at every level of the cascade |
| TreeAlign.OrderKeptIff | src/btree.rs:262-273 | in a sorted tree the leaves of the tree stay in chain order if and only if at every level the slot found again is the one of the descent |
| TreeAlign.MisalignedPair | src/btree.rs:262-273 | where a slot is not found again, the child became two neighbours in the chain, the left one holding nothing but copies of the key that the right one starts with |
| TreeChain.OrderStep | src/btree.rs:207-283 | from an ordered index the scan gains the row at its sorted place, for any key, and the index stays ordered if and only if the slots agree |
| TreeChain.DistinctStep | src/btree.rs:207-283 | with a new key the leaves in tree order stay exactly the chain, separators stay right, and the scan stays strictly ascending |
| TreeRuns.RunConserves | src/btree.rs:207-319 | over every run of insertions, any keys, a scan returns exactly the inserted cells, each as often as inserted, and balance, ownership and chain hold throughout |
| TreeRuns.RunSorted | src/btree.rs:207-319 | over every run with distinct keys a scan returns the sorted insertion of all cells in strictly ascending key order, and tree order equals chain order |
| TreeRuns.RunFromEmpty | src/btree.rs:198-319 | both results for every run from the tree that create_tree makes |
| TreeRuns.RunAlignedIff | src/btree.rs:262-273 | for any keys, tree order equals chain order throughout a run if and only if every insertion of it finds its slots again; then the scan is the sorted insertion of all cells |
| TreeRuns.MisalignedBreaksScan | src/btree.rs:262-273 | after an insertion that does not, a subtree of copies of one key remains, and every larger key that the descent sends there makes the scan unsorted |
| TreeRuns.DuplicatesBreakOrder | src/btree.rs:262-273 | a run of seven insertions within the split bound after which the scan is not in key order |
| TreeReach.LooseStep | src/btree.rs:207-283 | a successful insertion keeps the shape that survives a shortage of pages: every leaf the tree reaches is on the linked chain, and each page is used once |
| TreeReach.LooseStunted | src/btree.rs:258-276 | so does an insertion that runs out of pages: the chain has taken the row in, the tree is the old one split as far as the pages went, under the same root |
| Nodes.GrewApart | src/btree.rs:540-571 | when a full parent splits, the pages hold its two halves and every other child unchanged, and no page outside the subtree changed |
| BTree.CreateTree | src/btree.rs:198-203 | one new page holds the empty leaf, the other pages are untouched; it fails exactly if the pages are used up |
| BTree.SplitLeaf | src/btree.rs:392-455 | the two pages hold the two parts of the cells with the new one inserted, linked old to new to old successor, and the first key of the right part is promoted |
| BTree.SplitNode | src/btree.rs:500-572 | left keys, promoted median and right keys are the old keys with the new one, children likewise, 170 keys each side; only the two pages change; if no page is left, only the left half is stored and the rest of the entries is gone |
| BTree.Descend | src/btree.rs:224-246 | the descent terminates at the leaf for the key and records every node with its child index, changing nothing visible |
| BTree.InsertRow | src/btree.rs:207-283 | if the leaf that is reached has enough free bytes for the cell and its slot, it takes the cell at its place, no other page changes and the root stays; otherwise new pages are taken, and the pages hold the value-level result; success or failure, no old page off the path to the leaf changes; it fails exactly if the cell exceeds a page or the pages run out, and in the second case nothing changes if and only if no page was left to begin with, else the halves of the leaf, row included, and the splits above are stored as far as the pages went |
| OutOfPages.RefusedRowIsScanned | src/btree.rs:258-276 | a file with 1022 pages: the fourth insertion fails for want of pages, a scan returns its row all the same, and the next row, accepted, is scanned in front of larger keys |
| BTreeScan.ScanAll | src/btree.rs:287-319 | the scan terminates, leaves the view as it was, and returns exactly the rows of the chain in order, also after insertions that ran out of pages |
| Nodes.LeafForIsTarget | src/btree.rs:224-246 | the leaf the descent reaches is the leaf that the chain replaces |
| BTreeScan.SmallSplittable | src/btree.rs:248-256 | in a stored index of cells of at most 1362 bytes every further such cell is accepted |
| WalFile.Wal.AppendPage | src/wal.rs:45-53 | the file grows by exactly the 4109 bytes of the page record |
| WalFile.Wal.AppendCommit | src/wal.rs:56-65 | the file grows by the commit record, is synced, and the transaction number advances |
| Layouts.RecordLayout | src/wal.rs:1-12 | the bytes of page and commit records, digit by digit |
| WalFile.Wal.Recover | src/wal.rs:76-110 | recovery returns the page writes of the transactions with a commit record, in log order, and changes nothing |
| WalLog.RecoverExact | src/wal.rs:76-110 | a log of one handle cut at any byte recovers exactly the batches whose commit record survives whole, in append order |
| WalLog.RecoveredRaw | src/wal.rs:76-110 | for any bytes at all: exactly the blocks of type 1 for which some block of type 2 has the same eight bytes of number are returned, in log order; other types and a torn tail are ignored |
| PageCache.Pager.Open | src/pager.rs:60-91 | the file after opening is the old one with the recovered writes replayed, the cache is clean, and the log is emptied only if something was replayed |
| PageCache.Pager.OpenFile | src/pager.rs:43-91 | a file whose length is no multiple of the page size is refused before the log is read; any other opens |
| PageCache.Pager.ReadPage | src/pager.rs:144-165 | a read returns the page of the view, zeros past the end, and leaves view and dirty marks as they were |
| PageCache.Pager.GetPageMut | src/pager.rs:167-178 | the buffer starts as the page of the view, the page becomes dirty, and the page just past the end extends the view |
| PageCache.Pager.AllocatePage | src/pager.rs:180-184 | the new page is the first one past the end and zero; it fails exactly at 1024 pages |
| PageCache.Pager.Commit | src/pager.rs:196-226 | afterwards file and view both equal the view of before, nothing is dirty, the log is empty, and the I/O was log, sync, write, sync, truncate |
| PageCache.Pager.Rollback | src/pager.rs:229-244 | afterwards the view equals the unchanged file, nothing is dirty and the log is empty |
| PageCache.DirtyMakesView | src/pager.rs:208-221 | writing the dirty pages over the file gives the view |
| ReadPath.RunKeeps | src/pager.rs:108-138 | in every interleaving of any number of readers the view stays and every call returns the view's page |
| ReadPath.CanStep | src/pager.rs:125-133 | no reader ever reads past the end of the file or gets stuck |
| ReadPath.CallReturns | src/pager.rs:108-138 | a call asks for the same page to its end and returns within three of its own steps |
| ReadPath.WriterBetweenLosesPage | src/pager.rs:27-28 | a page written between a reader's file read and its fill is lost from the view, which is why the two paths must not overlap |
| Crash.CrashBeforeSync | src/pager.rs:199-206 | a crash before the marker is durable leaves files that recover to the old pages or to the new ones, never a mixture |
| Crash.CrashAfterSync | src/pager.rs:206-223 | once the marker is durable every crash leaves files that recover to the new pages |
| Crash.RecoveryIsIdempotent | src/pager.rs:62-76 | any number of interrupted recoveries followed by a complete one gives the file of one uninterrupted recovery |
| Media.SurvivesExact | src/pager.rs:206-221 | the page writes that a crash may keep are any choice of those since the last sync, and nothing else |
| CommitAtomicity.CommitAtomicExact | src/wal.rs:41 | for every log, torn ones included: every commit on it is atomic if and only if it consists of whole records, has nothing to replay, and no record carries the transaction number |
| CrashRuns.RunHolds | src/pager.rs:43-91 | over every run of commits, rollbacks, crashes at any point and crashed recoveries the committed pages are well defined, and only a commit changes them, all or nothing, all once its marker is durable |
| CrashRuns.LifeHolds | src/pager.rs:60-91 | the same without any premise on the commits, for lives in which no reopening leaves a tail that has nothing to replay: every commit then finds an empty log |
| CrashRuns.GuardRestored | src/pager.rs:223-241 | a complete commit, a rollback and a replay each leave a log on which any next commit is atomic |
| CrashRuns.StaleRecordMixes | src/pager.rs:63-76 | two crashed commits with the same number leave files that open to neither the old nor the new pages |
| CrashRuns.TornTailLosesCommit | src/wal.rs:88-105 | behind a torn byte a commit of any one page is not recovered |
| CrashRuns.TornTailRun | src/pager.rs:63-76 | a run of crash, reopening, crash and reopening, from an empty log, after which a commit whose marker was durable is lost |
| PagerCrash.CommitCrashes | src/pager.rs:196-226 | for the I/O of any commit of the pager and any crash point in it, reopening finds exactly the file of before or exactly the view, and the view once the marker is durable |
| PagerCrash.CommitShape | src/pager.rs:196-226 | the I/O of a commit one by one: page records, commit record, log sync, the same pages to the file in the same order, file sync, and only then the log is emptied |
| TableCrash.CommitOfRows | src/storage.rs:166-202 | for a table and any of its flushes, by a statement or a transaction, through any crashed recoveries: the files hold the rows of before or all rows of the flush |
| TableCrash.Reopens | src/storage.rs:78-86 | at every moment of an open table, whatever its log holds, opening its files again finds the table of the last commit, which is the one a scan shows if nothing is dirty |
| TableCrash.LifeOfTable | src/storage.rs:78-212 | over every life of a table, with crashes at any point and crashed recoveries: at every point its files show the table of the last commit that took effect, a commit takes effect as a whole or not at all and for certain once its marker is durable, and the rows are exactly those of the commits that did |
| Rows.SerializedSize | src/row.rs:4-14 | the computed size is the length of the bytes serialize writes |
| Rows.Serialize | src/row.rs:17-46 | the buffer starts with the row's bytes, filling exactly the serialized size, and keeps its tail |
| Rows.Deserialize | src/row.rs:49-70 | the loop returns the row that the buffer encodes, column by column |
| Rows.RoundTripExact | src/row.rs:17-70 | deserializing the serialized bytes gives the row back if and only if it has the column count and the column types |
| Layouts.RowLayout | src/row.rs:17-46 | a row takes eight bytes per integer and four more than its text per text, one field behind the other |
| Layouts.FieldLayout | src/row.rs:22-32 | the bytes of a field, digit by digit |
| Layouts.RowReads | src/row.rs:33-70 | a value that does not fit its column reads back as 0 or the empty text, the others as themselves |
| Metadata.WriteMetadata | src/storage.rs:15-35 | page 0 starts with root page, column count and columns, and its tail is unchanged |
| Metadata.ReadMetadata | src/storage.rs:37-59 | the loop returns the metadata the page encodes, or the error for an unknown type tag |
| Metadata.MetaRoundTripExact | src/storage.rs:15-59 | reading back gives the same root and columns if and only if no name exceeds 255 bytes |
| Layouts.MetaLayout | src/storage.rs:7-35 | the bytes of page 0: root, count, and per column length, name and type |
| Layouts.UnknownTag | src/storage.rs:51-55 | a page with a type byte other than 0 and 1 behind any number of good columns is refused |
| Tables.ExtractKey | src/storage.rs:226-235 | the key is the value of the leftmost column that is an integer column and holds an integer, or 0 if there is none |
| Tables.MaxRowExact | src/btree.rs:190-195 | the row limit is the largest size of which any two rows share a leaf |
| Tables.AcceptsExact | src/btree.rs:248-256 | an insertion can do without an overfull half exactly if the leaf has room or the right half of its split fits a page |
| Tables.RoomTakesNoPage | src/btree.rs:248-256 | an insertion takes no page if and only if its leaf has enough free bytes |
| Tables.OrderAfter | src/storage.rs:160-161 | an insertion with a new key puts the row at its sorted place and keeps tree and chain in step |
| Tables.RoomForGrowth | src/storage.rs:161 | an insertion into a table, a damaged one included, never needs more than three new pages |
| Tables.PagesDetermineTable | src/storage.rs:78-86 | the pages of a file determine the table: root, tree, rows in order, and the columns up to the cut of long names |
| Tables.SmallRowsAccepted | src/storage.rs:148-155 | a table whose rows have at most 1350 bytes accepts every further such row and stays one, so insertions into it never meet an overfull half |
| TableStores.Table.OpenTable | src/storage.rs:78-86 | opening reports a bad length or a bad tag and otherwise yields columns and root of the metadata; if the replayed pages hold a table, that is the table, columns, root page and rows |
| TableStores.Table.CreateTable | src/storage.rs:92-109 | the new table is empty and durable, its log is empty, its stored root page is the one in memory, and its I/O is a commit of those pages; it fails exactly if the length is bad or two pages are not left |
| TableStores.Table.Insert | src/storage.rs:119-169 | each check has its error and leaves the table alone; otherwise the index takes the row in, the root in memory equals the one on page 0, and outside a transaction the row is durable, the log empty and the I/O a commit of the view; running out of pages, possible only with less than three left, leaves file and root as they were and the row on the chain, or no trace if none was left |
| TableStores.Table.SelectAll | src/storage.rs:172-186 | returns column names and the decoded rows of the chain, changing nothing visible |
| TableStores.Table.Commit | src/storage.rs:197-202 | what the transaction saw becomes what the file holds, the log is empty, and the I/O is a commit of the view |
| TableStores.Table.Rollback | src/storage.rs:204-212 | rows and root page are those of the file again, also after an insertion that ran out of pages |
| StorageRuns.RollbackRestores | src/storage.rs:188-212 | every table open at begin goes back to what its file held, whatever was created, inserted, refused or torn in between; that is the table of begin, rows in order and root page, if and only if nothing was pending then |
| StorageRuns.InsertDecided | src/storage.rs:113-170 | an insertion into a well-formed table has exactly one ending and one outcome; it is refused only for a row that fails the checks or for want of pages, and succeeds with three free pages or a leaf with room |
| StorageRuns.EveryInsertDecided | src/storage.rs:113-170 | so it is in every state that any run of statements reaches |
| StorageRuns.CommitKeeps | src/storage.rs:188-202 | after commit the files hold exactly the rows of begin plus those of the insertions that reached the chain, none lost or altered |
| StorageRuns.HistoryBalances | src/storage.rs:78-212 | over every history of creates, opens, inserts, begins, commits and rollbacks, the rows of the file and of a scan are, by count, what the statements have booked: an insert that reached the chain once, rollback undoing all since the last flush, commit making it durable |
| StorageRuns.CreateBooked | src/storage.rs:92-109 | the books of a new table start empty |
| StorageRuns.ScansSorted | src/storage.rs:172-186 | over every run of statements, transactions and reopenings included, that repeats no key and never runs out of pages half way, every scan is strictly ascending in the key column |
| Storage.Storage.Insert | src/storage.rs:113-170 | for an unknown name an error; for an open table each error exactly on its condition, in the order of the checks, and success otherwise, in particular for a checked row with three free pages or a leaf with room; the effect is the statement of StorageRuns on that table, with its flush a commit, and all other tables stay |
| Storage.Storage.CreateTable | src/storage.rs:88-111 | succeeds exactly if the name is new, the file length is good and two pages are left, with the error of each other case; the create statement of StorageRuns, its flush a commit, and no change on an error |
| Storage.Storage.OpenTable | src/storage.rs:78-86 | succeeds exactly if the file length is good and the metadata can be read; the open statement of StorageRuns with the table that the files hold, and no change on an error |
| Storage.Storage.Begin | src/storage.rs:190-195 | succeeds exactly if no table is in a transaction, and then all are; otherwise some of the others have begun |
| Storage.Storage.Commit | src/storage.rs:197-202 | in any order of the tables, the commit statement of StorageRuns, and for each table the I/O of a commit of its view |
| Storage.Storage.Rollback | src/storage.rs:204-212 | in any order of the tables, the rollback statement of StorageRuns |
| Sessions.GateSafe | src/session.rs:90-107 | in every reachable state at most one session is in a transaction and owns the slot, no session holds mutex and storage lock together, only selects outside transactions ever share the storage, everything else is alone there, and nobody sleeps while mutex and slot are free |
| Sessions.Progress | src/session.rs:88-195 | some session inside a call can step if and only if not all of them sleep behind a transaction owner whose client is silent |
| Sessions.SelectsShare | src/session.rs:121-132 | a select outside a transaction enters the storage while others are selecting there |
| SessionCalls.CallAnswered | src/session.rs:111-199 | over every run, a call that returns was served in the storage by its own operation in the transaction it was made in, and commit, rollback and disconnecting leave the session outside a transaction and without the slot |
| SessionCalls.TransactionEnds | src/session.rs:165-199 | between the storage call of commit or rollback and its return the session freed the slot and, after that, woke every session that was asleep |
| SessionCalls.TransactionClosed | src/session.rs:165-199 | whoever leaves a transaction or disconnects after one has ended it in the storage |
| Sessions.ForeignEntries | src/session.rs:116-119 | a foreign statement that touches the storage while a session owns the slot had passed the gate before, and each session does so at most once |
| Sessions.IsolationExact | src/session.rs:143-162 | a transaction that just opened is isolated if and only if no other session stands between gate and lock |
| Sessions.InsertInsideTransaction | src/session.rs:116-119 | a reachable run in which an insert runs inside another session's transaction |
| SessionStorage.BeginNeverFails | src/session.rs:143-162 | in every run of any sessions and statements, a begin that reaches the storage finds all tables outside transactions and succeeds |
| SessionStorage.OnlyOwnChanges | src/session.rs:88-140 | from a state with the owner alone behind the gate, as long as its transaction lasts, every change of the tables is its own |
| SessionStorage.OpenedAlone | src/session.rs:143-162 | when begin returns, the owner is alone behind the gate if and only if no other session waits for the storage lock |
| SessionStorage.AcknowledgedInsertLost | src/session.rs:116-182 | for any table and row, a run in which an insert returns successfully and the rollback of another session then removes its row |
| Protocol.EncodeRows | src/protocol.rs:93-110 | the nested loops produce the payload that RowsRead decodes |
| Protocol.DecodeRows | src/protocol.rs:113-150 | the cursor loop returns what DecodeExact describes |
| Protocol.DecodeExact | src/protocol.rs:113-150 | for any bytes: rows are returned if and only if the payload begins with their bytes, and the payload is called truncated if and only if it begins with no rows at all |
| Protocol.CutPayload | src/protocol.rs:115-130 | every proper prefix of a Rows payload is an error |
| Protocol.Source.ReadMessage | src/protocol.rs:43-73 | from the bytes alone: four of length, one of type, the payload; type 1, 2 and 3 give its text, 4 its rows, any other an error behind the frame, length 0 an error, a short stream an error |
| Protocol.Sink.WriteMessage | src/protocol.rs:76-90 | appends exactly one frame |
| Protocol.MessageRoundTripExact | src/protocol.rs:43-150 | anywhere in a stream a written message reads back as itself if and only if its rows have one cell per header |
| Protocol.StreamRoundTrip | src/protocol.rs:43-90 | a stream of messages reads back as exactly those messages, whatever follows |

## Left out

- BTree.InsertRow: assumes that the leaf has room or splits into halves that fit. The source damages the page or panics otherwise; Split.SplitBoundExact and Tables.SmallRowsAccepted say when that is certain not to happen, LeafPage.OverfullHasNoPage and Split.OverflowLosesKey what happens otherwise. It also assumes at most 1024 pages, a bound the pager never exceeds when it allocates.
- BTree.SplitLeaf: has the same assumption.
- TableStores.Table.Insert: has the same assumption for the row's cell.
- Storage.Storage.Insert: as TableStores.Table.Insert.
- Storage.Storage.CreateTable: assumes that the columns fit the metadata page.
- TableStores.Table.OpenTable: assumes that the columns of page 0 do not run past its end; the source panics there.
- Storage.Storage.OpenTable: assumes that files whose metadata can be read hold a table; a damaged tree behind sound metadata is not described.
- TableStores.Table.CreateTable: assumes that the columns fit the metadata page.
- Metadata.WriteMetadata: assumes that the columns fit page 0; the source runs past the page otherwise.
- Sessions.GateSafe: is about a value-level step system, one step per lock operation, rather than about session objects, because the subject is their interleaving; ReadPath.RunKeeps and SessionStorage.OnlyOwnChanges likewise.
- PageCache.Pager.GetPageMut: is asked for an existing page or the one just past the end, the only calls the program makes; the borrowed buffer is modelled as a copy that Store puts back.
- PageCache.Pager.Open: torn writes of a page of the table file are not modelled; a crash keeps or loses each page write as a whole.
- CrashRuns.RunHolds: assumes at each commit the guard that CommitAtomicity.CommitAtomicExact shows to be exact; CrashRuns.LifeHolds does without it.
- TableCrash.LifeOfTable: assumes the same guard at each commit.
- StorageRuns.ScansSorted: leaves out histories in which an insertion ran out of pages half way, because order is lost there (OutOfPages.RefusedRowIsScanned).
- Transaction numbers are unbounded in the log file and below 2^64 where their bytes matter.
- Texts are byte strings; UTF-8 validity, lossy decoding and the cut of a name inside a character are not modelled.
- Mid-statement I/O errors, poisoned locks, panics and memory limits.
- Commit across several tables is not atomic by design; crash statements are per table.
- Spurious wake-ups are steps of the session system, but fairness of mutex, condition variable and lock is not assumed and nothing is said about waiting times.
- The SQL parser and the executor: ad hoc text splitting, and comprehensions over a full scan.
- The tree dump, the REPL, client, server, argument parsing and directory listing.
