# Relite in Dafny

A Dafny model of the Relite relational engine: its storage, indexes, recovery, concurrency
control, query fast paths, and the printing and parsing of CHECK constraints. Code that
changes state is modelled as classes and loops, each proved against a function or a
predicate on values; the main theorems are about whole runs, whole logs or every input.

Storage and recovery

- `Bytes`, `PageLayout`, `SlottedPage`: the slotted page on its 4096 bytes, refined to a map
  from slots to records. Recovery grows a page's slot array before it looks for space;
  `ExtensionKeepsRecordsIff`, `GrowableKeepsRecords` and `ExtensionLosesRecord` say when that
  costs a record.
- `BufferPool`, `BufferRuns`: the LRU pool with pins simulates a flat array of pages.
- `HeapTable`: tables as lists of slotted pages fetched through the pool: where rows go, and
  what the table iterator lists while the table changes.
- `WriteAheadLog`: the framed log, cut anywhere by a crash, and what reopening it does.
- `Recovery`: redo guarded by page LSNs, then undo, as steps of each page on its own
  (`PageAfter`); from every crash disk, with the exact condition on room.
- `RecoveryRuns`: recoveries interrupted after any steps and started again.
- `RecoveryRoom`: sizes that give that room for any number of interruptions, among them pages
  filled by insertions, and a page where it is missing.
- `VersionStore`, `VersionRuns`: snapshots, time travel and garbage collection.

Indexes

- `Values`, `Doubles`, `NodeCodec`, `DiskTreeModel`, `DiskBPlusTree`, `DiskTreeRuns`: the
  page-resident B+ tree, down to the bytes of its nodes. The tree is described by its levels
  rather than recursively, because the code inserts along a path of parents.
- `BPlusTreeModel`, `BPlusTreeInsert`, `BPlusTreeOrder`, `BPlusTreeHeap`, `BPlusTreeErase`,
  `BPlusTree`, `BPlusTreeRuns`: the in-memory B+ tree with its doubly linked leaves,
  against a sorted multimap.
- `IndexManager`, `IndexAccess`: an index with its Bloom filter, and reading a table through
  the indexes that a WHERE clause allows.

Queries

- `Evaluator`, `ExpressionLaws`, `LikeMatch`, `Rewrite`, `RewriteTyping`: three-valued
  evaluation and what its operators mean, LIKE, and constant folding with a static condition
  under which it is invisible.
- `Aggregates`, `ColumnStore`, `ParallelAggregate`: zone maps and striped aggregation
  against filtering and aggregating rows.
- `RowOrder`, `RowCodec`, `ExternalSort`, `Joins`: external sort, merge join and hash join
  against a nested loop.

Transactions

- `LockManager`, `SerialHistories`, `Transactions`: the lock table, strict histories, and
  the transaction manager's undo and release, up to serializability of the database.

CHECK constraints

- `SqlAst`, `SqlLexer`, `SqlParser`, `SqlPrinter`, `SqlTokens`, `SqlPrinting`, `SqlSpelling`,
  `SqlReading`, `SqlPrecedence`, `SqlRoundTrip`, `SqlGrammatical`, `CheckConstraints`: the lexer
  and the recursive-descent parser as classes that move a cursor, how text with few or many
  parentheses is read, the printer as a function, and the round trip.

Where the code does not do what one would expect of it, the model keeps the code and states
the exact condition: `DiskTreeRuns.CapIsExact` (entries over 209 bytes can overflow a page),
`Recovery.RecoversIff` with `RecoveryRoom.CrowdedPageLosesRow` (a page without room for what
recovery puts back), `Recovery.RedoTakesIff` and `StaleLsnLosesCommit` (page LSNs outlive the
log's numbering), `Recovery.DeletedReturnsIff` and `RolledBackTwice` (rollback is not logged),
`WriteAheadLog.Reopen`, `SwallowedIff` and `CommitLost` (a torn first log record is never cleared),
`SlottedPage.ExtensionKeepsRecordsIff`, `VersionRuns.CommitKeepsIff` and `SnapshotOvertaken`
(garbage collection passes running snapshots), `LikeMatch.RightIff` (a `%` in the text),
`Rewrite.IdentityKeptIff` (a dropped `0.0`) and `OnePassLeavesConstants`,
`IndexAccess.EqualityFindsIff`, `FloatLiteralMissed` and `CompositeFindsIff` (a literal of another numeric type),
`Joins.HashJoinIff` (an integer joined with a float), `CheckConstraints.ReloadsUnchangedIff`
and `IntReloadsIff` (six decimals; the smallest integer), and `HeapTable.ListsAllIff` (pages that cannot be fetched).

`dafny verify dfyconfig.toml` checks the project.

## Model

| member | source | states |
|---|---|---|
| `Values.TextOrder` | src/vm/value.cpp:42-68 | One text precedes another if and only if it is a proper prefix of it or they agree up to a place where it has the smaller byte. |
| `Values.StorageOrder` | src/vm/value.cpp:70-83 | NULL precedes everything else, numbers are ordered by size whatever their types, FALSE precedes TRUE; between types integers come before booleans and texts, booleans before texts, and both before floats. |
| `Values.ComparisonOrder` | src/vm/value.cpp:42-68 | Exactly numbers with numbers, booleans with booleans and texts with texts compare; the sign of the comparison is the storage order, and it is zero exactly for equal numbers or equal values. |
| `Values.ValueLessTotal` | src/vm/value.cpp:70-83 | Two values of one column type are equal exactly when neither precedes the other, and never both precede each other: the storage order is total within a type. |
| `Values.ValueLessTransitive` | src/vm/value.cpp:70-83 | Within one type the storage order is transitive. |
| `Values.ComparableTransitive` | src/vm/value.cpp:70-83 | Between integers and floats, which compare by number, it is transitive too. |
| `Values.MixedKindsNotOrdered` | src/vm/value.cpp:70-83 | Across types it is no order: an integer, a boolean and a float can precede one another in a circle, which is why an index or join column has one type. |
| `NodeCodec.LessMeans` | src/index/disk_bplus_tree.cpp:99-113 | Entries of one index are ordered by key, and those of one key by page and then by slot. |
| `NodeCodec.LessTotal` | src/index/disk_bplus_tree.cpp:99-113 | The composite order of key and record id is total on the entries of one index. |
| `NodeCodec.LessTransitive` | src/index/disk_bplus_tree.cpp:99-113 | And transitive. |
| `NodeCodec.ValueRoundTrip` | src/index/disk_bplus_tree.cpp:39-97 | Every key the source can hold (64-bit integers, doubles, booleans, texts, NULL) is decoded back from its bytes. |
| `NodeCodec.WriteNode` | src/index/disk_bplus_tree.cpp:151-177 | A node that fits a page is written to one page, from which ReadNode recovers it; the bytes behind it are zero. |
| `NodeCodec.ReadNode` | src/index/disk_bplus_tree.cpp:119-149 | Reading the page of any written node gives exactly that node: leaf flag, next link, entries and children. |
| `NodeCodec.EntryAt` | src/index/disk_bplus_tree.cpp:119-149 | Entry i of a page starts where its predecessors, of varying sizes, end. |
| `NodeCodec.EntriesSizeAtLeast` | src/index/disk_bplus_tree.cpp:190-199 | Every entry takes at least eleven bytes, so the entry count of a node fits its two bytes. |
| `Doubles.BitsRoundTrip` | src/index/disk_bplus_tree.cpp:48-53 | The IEEE 754 pattern stored for a double is read back as the same number, subnormal numbers included. |
| `Doubles.ToBits` | src/index/disk_bplus_tree.cpp:48-53 | The pattern has 64 bits and stands for the number. |
| `DiskBPlusTree.LeafSplitFits` | src/index/disk_bplus_tree.cpp:254-270 | If entries are at most 209 bytes, splitting an overfull leaf by count gives two non-empty halves that each fit a page, although the split ignores sizes. |
| `DiskBPlusTree.InnerSplitFits` | src/index/disk_bplus_tree.cpp:286-303 | The same for an inner node, whose middle entry moves up: both parts fit with their children and keep at least two children. |
| `DiskBPlusTree.DiskBPlusTree.constructor` | src/index/disk_bplus_tree.cpp:117-117 | An empty tree beside any other pages of the disk. |
| `DiskBPlusTree.DiskBPlusTree.Read` | src/index/disk_bplus_tree.cpp:119-149 | The stored page of a tree node decodes to that node. |
| `DiskBPlusTree.DiskBPlusTree.Write` | src/index/disk_bplus_tree.cpp:151-177 | Overwriting one node leaves every other page of the disk as it was. |
| `DiskBPlusTree.DiskBPlusTree.Alloc` | src/index/disk_bplus_tree.cpp:179-186 | A new node gets an unused page number. |
| `DiskBPlusTree.DiskBPlusTree.FindLeaf` | src/index/disk_bplus_tree.cpp:203-215 | The descent ends at a leaf whose separators enclose the entry on every level, and records the nodes passed. |
| `DiskBPlusTree.DiskBPlusTree.FirstLeaf` | src/index/disk_bplus_tree.cpp:217-224 | The leftmost descent ends at the first leaf of the chain. |
| `DiskBPlusTree.DiskBPlusTree.RangeScan` | src/index/disk_bplus_tree.cpp:319-342 | Following the leaf chain from one descent returns exactly the record ids of the live entries in range, in (key, record id) order, and stopping at the first entry above the range loses none. |
| `DiskBPlusTree.DiskBPlusTree.Lookup` | src/index/disk_bplus_tree.cpp:344-350 | A point lookup returns the record ids of exactly that key. |
| `DiskBPlusTree.DiskBPlusTree.Insert` | src/index/disk_bplus_tree.cpp:226-317 | The live entries gain exactly the new one (nothing changes if it is there), the tree stays whole through leaf, inner and root splits, it takes a page for each new node and no other page is touched. |
| `DiskBPlusTree.DiskBPlusTree.Plant` | src/index/disk_bplus_tree.cpp:228-236 | The first entry becomes a root leaf. |
| `DiskBPlusTree.DiskBPlusTree.SplitLeaf` | src/index/disk_bplus_tree.cpp:259-273 | After a leaf split the leaves are linked and separated on the lowest level, and one separator is owed to the level above. |
| `DiskBPlusTree.DiskBPlusTree.Ascend` | src/index/disk_bplus_tree.cpp:275-317 | Paying the owed separator level by level, up to a new root, makes the tree whole again with the same live entries. |
| `DiskBPlusTree.DiskBPlusTree.AdoptChild` | src/index/disk_bplus_tree.cpp:278-303 | One parent takes the split child in: the tree is whole if the parent fits its page, otherwise exactly the next level owes a separator. |
| `DiskBPlusTree.DiskBPlusTree.SplitParent` | src/index/disk_bplus_tree.cpp:291-307 | An overfull inner node gives up its middle separator, and both parts stay linked to the level below. |
| `DiskBPlusTree.DiskBPlusTree.Erase` | src/index/disk_bplus_tree.cpp:352-370 | Lazy deletion removes exactly the given entry from the live ones, reports whether it was there, and keeps the tree whole without merging pages. |
| `DiskBPlusTree.AdoptTree` | src/index/disk_bplus_tree.cpp:278-289 | A pending insertion is completed by its parent: all levels fit together again. |
| `DiskBPlusTree.SplitPending` | src/index/disk_bplus_tree.cpp:291-307 | A whole tree in which an inner node splits owes one separator one level up. |
| `DiskBPlusTree.SkippedLeaves` | src/index/disk_bplus_tree.cpp:324-330 | No entry in range lies in a leaf before the one a scan starts at. |
| `DiskBPlusTree.OnlyAt` | src/index/disk_bplus_tree.cpp:352-370 | An entry can be in no leaf but the one its separators lead to, so a failed search in that leaf means it is absent. |
| `DiskTreeModel.LinkedSplit` | src/index/disk_bplus_tree.cpp:291-303 | Splitting an inner node keeps its level linked to the level below, with the moved separator between the parts. |
| `DiskTreeModel.FlattenSorted` | src/index/disk_bplus_tree.cpp:332-340 | The leaves in chain order spell out one sorted run without duplicates. |
| `DiskTreeModel.SortedUnique` | src/index/disk_bplus_tree.cpp:319-342 | A sorted run is determined by the set of its entries. |
| `DiskTreeModel.ScanStops` | src/index/disk_bplus_tree.cpp:336-336 | Once an entry is above the upper limit, the rest of the run is too. |
| `DiskTreeModel.RangeMeans` | src/index/disk_bplus_tree.cpp:319-342 | Both limits belong to the range, and a missing one does not limit it; among numbers the range is from the lower to the upper one by size. |
| `DiskTreeModel.BelowRange` | src/index/disk_bplus_tree.cpp:324-327 | What precedes the smallest possible entry of the lower limit is out of range. |
| `DiskTreeModel.WidthLinear` | src/index/disk_bplus_tree.cpp:203-317 | The levels above the leaves have together fewer nodes than there are leaves. |
| `DiskTreeModel.TreeWidth` | src/index/disk_bplus_tree.cpp:203-317 | A tree has fewer than two nodes per leaf, and at most 31 levels while it has fewer than 2^31 leaves. |
| `DiskTreeRuns.ScanAfter` | src/index/disk_bplus_tree.cpp:226-370 | After any run of insertions and deletions, up to about a billion insertions, a range scan returns exactly the record ids of the entries added and not removed since, within the range, in strictly increasing (key, record id) order. |
| `DiskTreeRuns.ScanMembers` | src/index/disk_bplus_tree.cpp:319-342 | A record id is in a scan's result exactly when an entry in range holds it. |
| `DiskTreeRuns.ScanDetermined` | src/index/disk_bplus_tree.cpp:226-370 | The result depends on the live entries alone, not on the history of splits that led to them. |
| `DiskTreeRuns.PagesLinear` | src/index/disk_bplus_tree.cpp:179-186 | A tree takes fewer than two pages per leaf. |
| `DiskTreeRuns.CapIsExact` | src/index/disk_bplus_tree.cpp:254-270 | Splits by count fit their pages for all leaves of entries of at most cap bytes if and only if cap is at most 209. |
| `DiskTreeRuns.FixedSizeEntries` | src/index/disk_bplus_tree.cpp:190-199 | Entries of integer, boolean, float and NULL keys take at most nineteen bytes, so only text keys can exceed the cap. |
| `DiskTreeRuns.LargerEntryOverflows` | src/index/disk_bplus_tree.cpp:254-270 | The witness for 210 bytes: a leaf that fills its page to the last byte, and an entry whose insertion makes the right half larger than a page. |
| `DiskTreeRuns.FillLeaf` | src/index/disk_bplus_tree.cpp:226-257 | That leaf is reached: a run of 38 insertions into an empty tree builds it as the root. |
| `BPlusTreeModel.FindAfterInsert` | src/index/bplus_tree.cpp:75-94 | In the sorted multimap an insertion appends the record to its key's list and leaves every other key's list alone. |
| `BPlusTreeModel.FindAfterRemove` | src/index/bplus_tree.cpp:181-202 | A removal takes the first equal record off its key's list and leaves every other list alone; a key without records disappears. |
| `BPlusTreeModel.InsertKeeps` | src/index/bplus_tree.cpp:75-94 | The multimap stays sorted, one entry per key, no entry without records. |
| `BPlusTreeModel.RemoveKeeps` | src/index/bplus_tree.cpp:181-202 | The same for a removal. |
| `BPlusTreeOrder.InsertOk` | src/index/bplus_tree.cpp:75-110 | Insertion into any subtree keeps uniform depth, keys within their separators and at most `order` keys per node; a split yields two such trees on both sides of its separator. |
| `BPlusTreeOrder.InsertRootOk` | src/index/bplus_tree.cpp:112-123 | The whole tree stays ordered under a new root, and its entries are the multimap's with the record inserted. |
| `BPlusTreeOrder.EntriesSorted` | src/index/bplus_tree.cpp:46-110 | The leaves of an ordered tree, read left to right, are a sorted multimap within the tree's bounds. |
| `BPlusTreeOrder.InsertEntries` | src/index/bplus_tree.cpp:75-110 | Where the tree splits does not show in its entries. |
| `BPlusTreeOrder.RangeMeans` | src/index/bplus_tree.cpp:151-164 | Both bounds belong to the range, and a missing one does not limit it. |
| `BPlusTreeOrder.PastRange` | src/index/bplus_tree.cpp:151-164 | After a key above the range no later one is in it. |
| `BPlusTreeOrder.BeforeRange` | src/index/bplus_tree.cpp:151-164 | Entries below the range contribute nothing to it. |
| `BPlusTreeInsert.InsertLeaves` | src/index/bplus_tree.cpp:46-61 | Among the leaves only the key's leaf changes: it gives way to one or two. |
| `BPlusTreeHeap.InsertApart` | src/index/bplus_tree.cpp:75-110 | The nodes of the new tree are the old ones and newly allocated ones, each used once. |
| `BPlusTreeHeap.LeafSplits` | src/index/bplus_tree.cpp:46-61 | Two leaf records written and linked in place of one represent the split leaf, with next and prev equal to the in-order leaf list. |
| `BPlusTreeHeap.DoneAdopted` | src/index/bplus_tree.cpp:96-109 | A parent rewritten to hold a split child represents the tree the insertion should give, and nothing outside that tree has changed. |
| `BPlusTreeHeap.CountInserted` | src/index/bplus_tree.cpp:86-89 | The number of distinct keys grows exactly when the key's leaf does not hold the key. |
| `BPlusTreeErase.DroppedOk` | src/index/bplus_tree.cpp:216-220 | A node stays ordered without one of its children: a neighbour's separators take over its range. |
| `BPlusTreeErase.PrunedOk` | src/index/bplus_tree.cpp:204-223 | When pruning of emptied nodes stops, the whole tree is ordered again with uniform depth. |
| `BPlusTreeErase.RemoveAtLeaf` | src/index/bplus_tree.cpp:181-202 | Removing a record in the key's leaf removes it from the tree's multimap. |
| `BPlusTreeErase.DroppedRep` | src/index/bplus_tree.cpp:216-221 | Rewriting the parent and freeing the emptied child leaves all other nodes in place and none dangling. |
| `BPlusTreeErase.NothingToRemove` | src/index/bplus_tree.cpp:188-195 | If the key's leaf has no such record, no leaf has. |
| `BPlusTreeErase.ScanStart` | src/index/bplus_tree.cpp:154-154 | No entry of the range lies before the leaf a scan starts at. |
| `BPlusTree.BPlusTree.constructor` | src/index/bplus_tree.cpp:9-12 | An empty tree of the given order, raised to three. |
| `BPlusTree.BPlusTree.FindLeaf` | src/index/bplus_tree.cpp:26-36 | The leaf reached is the one whose separators enclose the key. |
| `BPlusTree.BPlusTree.FirstLeaf` | src/index/bplus_tree.cpp:38-44 | The leaf reached is the first of the chain. |
| `BPlusTree.BPlusTree.SplitLeafNode` | src/index/bplus_tree.cpp:46-61 | The new leaf takes the upper half and stands directly behind the old one in the doubly linked chain. |
| `BPlusTree.BPlusTree.SplitInternalNode` | src/index/bplus_tree.cpp:63-73 | The middle separator goes up, the children around it go to the two halves. |
| `BPlusTree.BPlusTree.InsertRec` | src/index/bplus_tree.cpp:75-110 | The nodes in memory become those of the inserted tree, nothing outside the subtree changes, and the count of distinct keys grows exactly when the key was absent. |
| `BPlusTree.BPlusTree.Insert` | src/index/bplus_tree.cpp:112-123 | The contents become the sorted multimap with the record appended under the key, and the tree stays valid: order, depth, links and key count. |
| `BPlusTree.BPlusTree.Lookup` | src/index/bplus_tree.cpp:125-134 | The records under a key in insertion order, none if the key is absent. |
| `BPlusTree.BPlusTree.Range` | src/index/bplus_tree.cpp:136-149 | The records of the keys between two bounds, in key order. |
| `BPlusTree.BPlusTree.RangeScan` | src/index/bplus_tree.cpp:151-164 | The same with either bound missing, by walking the chain. |
| `BPlusTree.BPlusTree.Unlink` | src/index/bplus_tree.cpp:212-215 | Taking a leaf out of the chain leaves the others linked in order in both directions. |
| `BPlusTree.BPlusTree.Prune` | src/index/bplus_tree.cpp:216-221 | The emptied child, its separator and its node are gone, and nothing else. |
| `BPlusTree.BPlusTree.PruneUp` | src/index/bplus_tree.cpp:204-223 | Every node that the removal emptied is dropped, up to the first that is not empty; the chain is the leaf list without them. |
| `BPlusTree.BPlusTree.Collapse` | src/index/bplus_tree.cpp:225-233 | A chain of roots with a single child gives way to the first node that is a leaf or has several, with the same leaves. |
| `BPlusTree.BPlusTree.Erase` | src/index/bplus_tree.cpp:166-235 | The contents become the multimap without the first such record, the answer says whether there was one, and order, uniform depth, links and key count hold through pruning and root collapse. |
| `BPlusTreeRuns.Run` | src/index/bplus_tree.cpp:75-235 | After any run of insertions and removals the tree is valid and lists under every key exactly the records added in order and not yet removed, and `distinctKeys_` is the number of keys listed. |
| `BPlusTreeRuns.RunDecides` | src/index/bplus_tree.cpp:75-235 | Two runs leave the same contents if and only if they leave the same records under every key, whatever the splits, prunings and order of the two trees. |
| `BPlusTreeRuns.ScanIsRange` | src/index/bplus_tree.cpp:151-164 | After a run, a record is in a range scan's result if and only if some key in the range has it. |
| `BPlusTreeRuns.SortedUnique` | src/index/bplus_tree.cpp:125-164 | A sorted multimap is determined by its members. |
| `Recovery.TableManager.Recover` | src/txn/recovery.cpp:7-33 | For every log that strict two-phase locking writes without aborts, and every disk that a crash or an interrupted recovery leaves, every page ends as its own steps leave it, and a row ends with what the committed transactions alone produce if and only if its page had room at the step that decides the row. |
| `Recovery.RecoversIff` | src/txn/recovery.cpp:13-32 | The same for one row: its target is reached if and only if the page, as it is when the deciding step comes to it, has room for the record. |
| `Recovery.DecidingValue` | src/txn/recovery.cpp:13-32 | The last step on a row, which is a redo if all its changes were committed and otherwise the undo of its first uncommitted change, carries exactly the target. |
| `Recovery.DecidedBefore` | src/backend/page.cpp:163-166 | If the page LSN says that the deciding change is there, the row has its target from the beginning and no step changes it. |
| `Recovery.RunSound` | src/vm/table_manager.cpp:117-169 | Whatever recovery does to a page, its records still fit behind its slot array. |
| `Recovery.RealPagesSound` | src/backend/page.cpp:93-103 | Every page of well-formed bytes is one recovery can start from. |
| `Recovery.TableManager.RedoPass` | src/txn/recovery.cpp:13-21 | The forward pass takes every page through exactly its own steps, and lists the pages of all committed insertions under their tables. |
| `Recovery.TableManager.UndoPass` | src/txn/recovery.cpp:23-32 | The backward pass takes every page through the rest of its steps. |
| `Recovery.TableManager.Redo` | src/vm/table_manager.cpp:117-141 | One redone record: its page makes one step and is listed under its table; no other page changes. |
| `Recovery.TableManager.Undo` | src/vm/table_manager.cpp:143-169 | One undone record: its page makes one step; no other page changes. |
| `Recovery.LastWinner` | src/txn/recovery.cpp:7-33 | A row's target is decided by its last committed change. |
| `Recovery.FirstLoser` | src/txn/recovery.cpp:24-32 | Undoing a row's first uncommitted change gives the row its target. |
| `Recovery.Handover` | src/txn/lock_manager.cpp:8-18 | Two changes of a row are one transaction's, or the first one's transaction has committed before the second. |
| `Recovery.CrashIsRecoverable` | src/txn/recovery.cpp:7-33 | Every crash disk, each page of which has some prefix of the log's effects on it, meets the condition recovery starts from. |
| `Recovery.RedoTakesIff` | src/backend/page.cpp:160-189 | Redo of an insertion leaves the record in its slot if and only if it was there already, or the page's LSN is older and there is room. |
| `Recovery.RedoClearsIff` | src/backend/page.cpp:191-200 | Redo of a deletion leaves the slot empty if and only if it was empty already or the page's LSN is older. |
| `Recovery.StaleLsnLosesCommit` | src/txn/wal.cpp:138-146 | Because a reset log numbers from 1 again while pages keep their LSNs, there is a committed insertion that redo takes for done: the row stays empty. |
| `Recovery.DeletedReturnsIff` | src/txn/recovery.cpp:24-32 | A row deleted by a transaction without a Commit record, rolled back or not, is in its old place again after recovery if and only if there is room. |
| `Recovery.RolledBackTwice` | src/txn/transaction_manager.cpp:84-107 | So a deletion that was rolled back, which puts the row in a new place without logging that, leaves the row there twice after recovery. |
| `RecoveryRuns.RestartAnywhere` | src/txn/recovery.cpp:13-32 | Stop a recovery after any number of steps, with each page on disk as of any step of its own: what is left is again a disk that can be recovered, to the same target. |
| `RecoveryRuns.RestartRow` | src/txn/recovery.cpp:13-32 | The same for one row and one page. |
| `RecoveryRuns.RedoResumes` | src/txn/recovery.cpp:13-21 | A page that stopped in the forward pass and is recovered from the start of the log goes on exactly where it stopped. |
| `RecoveryRuns.ForwardRoomy` | src/txn/recovery.cpp:13-21 | If every page stopped in the forward pass, starting again needs no more room than going on. |
| `RecoveryRuns.ChainRecoverable` | src/txn/recovery.cpp:7-33 | By induction from the crash: every disk of a chain of interrupted recoveries can be recovered. |
| `RecoveryRuns.RecoverAtLast` | src/txn/recovery.cpp:7-33 | After a crash and any number of recoveries interrupted at any steps, the one that is left alone leaves exactly the committed state, if none of the disks lacks room. |
| `RecoveryRoom.SpaciousIsRoomy` | src/backend/page.cpp:160-189 | Sizes alone give the room: pages the log touches fit their slots with the longest record each ever holds, and one more copy where two different records of a slot can meet. Other pages may be full. |
| `RecoveryRoom.SpaciousStays` | src/txn/recovery.cpp:13-32 | Such room survives an interruption at any step, with one recovery fewer to come: redo is paid for once, undo each time. |
| `RecoveryRoom.ChainSpacious` | src/txn/recovery.cpp:7-33 | So room on the crash disk is room on every disk of a chain of interrupted recoveries. |
| `RecoveryRoom.RecoverSpacious` | src/txn/recovery.cpp:7-33 | From a crash disk with such room, after any number of interruptions, recovery leaves exactly the committed state. |
| `RecoveryRoom.RecordFits` | src/backend/page.cpp:160-189 | Within those sizes a page has room for every record its rows may hold. |
| `RecoveryRoom.StepKeepsRoom` | src/backend/page.cpp:160-200 | One step of recovery leaves room for all the steps to come. |
| `RecoveryRoom.FillPage` | src/backend/page.cpp:70-91 | Inserting rows until one no longer fits leaves a page without dead bytes that holds exactly the rows inserted. |
| `RecoveryRoom.FilledIsSpacious` | src/backend/page.cpp:160-189 | A page that insertions fill to the last byte has room for any number of recoveries, however many of its rows had reached the disk. |
| `RecoveryRoom.InsertLimits` | src/backend/page.cpp:70-91 | For a log that only inserts into a page, what the full page holds bounds every record its slots ever hold. |
| `RecoveryRoom.CrowdedPageLosesRow` | src/backend/page.cpp:173-181 | The failing case: a row is deleted and not committed, another transaction takes its space and commits, and after undo the first row is gone, although everything but the room at that step is as recovery asks. |
| `SlottedPage.Page.constructor` | src/backend/page.cpp:9-13 | A fresh page is a valid page without slots. |
| `SlottedPage.Page.Get` | src/backend/page.cpp:125-133 | A slot is readable exactly when it is live, and yields its own bytes. |
| `SlottedPage.Page.Usable` | src/backend/page.cpp:93-103 | The space left is the page less header, slot array and live records, wherever those lie. |
| `SlottedPage.Page.Insert` | src/backend/page.cpp:70-91 | Succeeds if and only if that space takes a non-empty record and a slot; the record becomes the last slot and, compacted or not, every other slot keeps its bytes. |
| `SlottedPage.Page.Compact` | src/backend/page.cpp:107-123 | Moving records together changes no slot's bytes and frees all dead space. |
| `SlottedPage.Page.Erase` | src/backend/page.cpp:135-143 | Exactly the one live slot dies; no record moves. |
| `SlottedPage.Page.Update` | src/backend/page.cpp:145-158 | Succeeds if and only if the slot is live and the record no longer than the old one; other slots keep their bytes. |
| `SlottedPage.Page.RedoSet` | src/backend/page.cpp:160-189 | Unless the slot array has to grow into records, the page becomes the one that holds the record at exactly that slot, is stamped with the LSN, or is left alone when its LSN is newer. |
| `SlottedPage.Page.RedoClear` | src/backend/page.cpp:191-200 | The slot is dead and the page stamped, unless its LSN is newer. |
| `SlottedPage.MovedRecord` | src/backend/page.cpp:83-90 | A record placed below the record area leaves all other slots, header and bytes as they were. |
| `SlottedPage.ExtensionKeepsRecordsIff` | src/backend/page.cpp:173-177 | Growing the slot array during recovery overwrites no record if and only if the bytes it takes are free or already zero. |
| `SlottedPage.GrowableKeepsRecords` | src/backend/page.cpp:173-177 | If the grown array ends before the record area, a test on the page, every record survives. |
| `SlottedPage.ExtensionLosesRecord` | src/backend/page.cpp:173-181 | On a full page a redo at the next slot zeroes the start of a live record: the check for space comes after the slots are written. |
| `PageLayout.Covered` | src/backend/page.cpp:93-103 | Disjoint records cover as many bytes as their lengths add up to, so used and free space account for the whole page. |
| `WriteAheadLog.ReadAll` | src/txn/wal.cpp:85-130 | The frames of a file are decoded to exactly the records that were encoded, up to a frame that is not all there. |
| `WriteAheadLog.ReadCut` | src/txn/wal.cpp:85-130 | Cut a log file anywhere: exactly the records that are wholly there are read back. |
| `WriteAheadLog.PrefixIsLog` | src/txn/wal.cpp:85-130 | What a crash leaves of a log is again a log that recovery accepts. |
| `WriteAheadLog.Wal.constructor` | src/txn/wal.cpp:49-64 | Opening a file numbers new records behind the last readable one. |
| `WriteAheadLog.Wal.Append` | src/txn/wal.cpp:73-83 | The record gets the next LSN; it becomes readable if the file ended with a whole record, and otherwise only lengthens the torn end. |
| `WriteAheadLog.Wal.Records` | src/txn/wal.cpp:85-130 | Reading returns every readable record appended since the last reset, in order. |
| `WriteAheadLog.Wal.Reset` | src/txn/wal.cpp:138-146 | The file is empty and LSNs start at 1 again. |
| `WriteAheadLog.Reopen` | src/frontend/db.cpp:483-492 | A database opened after a crash can read what it logs next if and only if nothing or at least one whole record of the old log was on disk: the log is reset only if a record was read. |
| `WriteAheadLog.SwallowedIff` | src/txn/wal.cpp:85-103 | A record appended behind a torn first frame, cut anywhere, goes unread if and only if the length that is then read, made of bytes of both when less than four were left, reaches beyond both. |
| `WriteAheadLog.OneByteSwallows` | src/txn/wal.cpp:85-103 | With one byte left that is so for every record whose length takes three bytes or fewer. |
| `WriteAheadLog.CommitLost` | src/frontend/db.cpp:483-492 | The failing case, for every torn beginning of that kind: the next commit is logged but never read back. |
| `BufferPool.Pool.constructor` | src/backend/buffer_pool.cpp:5-12 | All frames are free; every page reads as the disk has it. |
| `BufferPool.Pool.AcquireFrame` | src/backend/buffer_pool.cpp:32-57 | A free frame is taken, or else the least recently unpinned one, never a pinned one; a dirty victim is written after the pre-evict hook; no page's newest content changes. None is found exactly when every frame is pinned. |
| `BufferPool.Pool.FetchPage` | src/backend/buffer_pool.cpp:59-83 | The frame holds the page's newest content and gains one pin; every other page and pin is as before. |
| `BufferPool.Pool.NewPage` | src/backend/buffer_pool.cpp:85-101 | A page number is used up, with or without a frame; an available frame holds an initialised page. |
| `BufferPool.Pool.Modify` | src/backend/buffer_pool.cpp:59-83 | A change by a pin holder is the page's newest content. |
| `BufferPool.Pool.Unpin` | src/backend/buffer_pool.cpp:103-120 | One pin less; the last one puts the frame at the end of the LRU list, and the page table and disk stay as they are. |
| `BufferPool.Pool.Flush` | src/backend/buffer_pool.cpp:122-132 | The disk has the page's newest content. |
| `BufferPool.Pool.FlushAll` | src/backend/buffer_pool.cpp:134-142 | The disk has every page's newest content, except pages changed and not yet reported dirty. |
| `BufferRuns.Run` | src/backend/buffer_pool.cpp:59-142 | Any run of clients that unpin only what they pinned and report changes gets exactly the answers of a flat page array: contents, and success or failure of every call, known in advance from the number of frames and the pages pinned. |
| `BufferRuns.RunFresh` | src/backend/buffer_pool.cpp:5-142 | The same from a new pool: the flat array starts as the disk. |
| `BufferRuns.RoomIff` | src/backend/buffer_pool.cpp:32-57 | A frame can be had if and only if fewer pages are pinned than there are frames. |
| `BufferRuns.Step` | src/backend/buffer_pool.cpp:59-142 | One call refines one step of the flat array. |
| `HeapTable.Tables.Open` | src/vm/table_manager.cpp:76-82 | Pinning a page through the pool gives the page that its newest bytes are, in the pool or on disk, and changes no row; it fails exactly if all frames are pinned and none holds it. |
| `HeapTable.Tables.Close` | src/vm/table_manager.cpp:47-59 | A page given back, dirty or not, is in the pool what its holder left; no other page changes. |
| `HeapTable.Tables.InsertTuple` | src/vm/table_manager.cpp:39-74 | A place that held no row now holds the row, on a page of the table; no other place and no other table's pages change. The page is the last of the table that a hint does not call full, that can be fetched and that takes the row, and a new one only if there is none. It fails only if all frames are pinned or an empty page does not take the row. |
| `HeapTable.Tables.InsertOn` | src/vm/table_manager.cpp:49-59 | One page takes the row as its last slot if and only if it can be fetched and its usable space takes a non-empty row and a slot. |
| `HeapTable.Tables.GetTuple` | src/vm/table_manager.cpp:76-82 | The row at a place, if its page can be fetched and it is live. |
| `HeapTable.Tables.EraseTuple` | src/vm/table_manager.cpp:84-96 | Exactly the one row is gone. |
| `HeapTable.Tables.UpdateTuple` | src/vm/table_manager.cpp:98-115 | The row is replaced in place if it is not longer, moved to an unused place if it is, and lost if no place can be had; no other row changes. |
| `HeapTable.TableIterator.constructor` | src/vm/table_manager.cpp:171-174 | A new iterator stands at the first row of the table's fetchable pages and has the others in front of it. |
| `HeapTable.TableIterator.Next` | src/vm/table_manager.cpp:176-180 | The iterator moves to the first row behind it as the table is now, whatever was inserted, erased or moved since; the rows behind are then the others. |
| `HeapTable.ScanTable` | src/vm/table_manager.cpp:171-207 | Iterating over a table that stays as it is returns the live rows of the fetchable pages, page by page and slot by slot. |
| `HeapTable.LiveHas` | src/vm/table_manager.cpp:182-207 | A row is listed if and only if it is live, on a page of the table, and that page can be fetched. |
| `HeapTable.LiveOnce` | src/vm/table_manager.cpp:182-207 | No row is listed twice. |
| `HeapTable.ListsAllIff` | src/vm/table_manager.cpp:186-192 | A page that cannot be fetched is passed over in silence: all rows are listed if and only if every page that holds one can be fetched. |
| `VersionStore.Store.StageInsert` | src/vm/version_store.cpp:5-13 | One more pending change; committed history is untouched. |
| `VersionStore.Store.StageDelete` | src/vm/version_store.cpp:15-22 | The same for a deletion. |
| `VersionStore.Store.RowAt` | src/vm/version_store.cpp:54-91 | A version has a row with some bytes if and only if the last change of the row up to that version is an insertion of these bytes, or nothing has changed the row since the baseline and the baseline has it so: a deletion takes a row away. |
| `VersionStore.Store.RowInTxn` | src/vm/version_store.cpp:114-143 | A transaction sees a row with some bytes if and only if its own last change of the row is an insertion of these bytes, or it has not changed the row and its snapshot has it so. |
| `VersionStore.Store.Reconstruct` | src/vm/version_store.cpp:54-91 | Replaying baseline and log in place gives exactly the rows of the table as of a version, each once. |
| `VersionStore.Store.SnapshotAsOf` | src/vm/version_store.cpp:93-101 | Time travel returns the rows as of the version, or as of the baseline if that is later. |
| `VersionStore.Store.SnapshotForTxn` | src/vm/version_store.cpp:114-143 | A transaction sees its start snapshot overlaid with the pending changes. |
| `VersionStore.Store.CommitPending` | src/vm/version_store.cpp:24-34 | The new version is exactly what a transaction that saw the newest version had in view; no version still at or above the baseline changes. |
| `VersionStore.Store.Gc` | src/vm/version_store.cpp:145-161 | Compacting up to a horizon changes no table at any version from the new baseline on. |
| `VersionStore.Store.MaybeGc` | src/vm/version_store.cpp:163-167 | Collection starts only above both retention limits, and changes no readable version. |
| `VersionStore.Compacts` | src/vm/version_store.cpp:145-161 | Replaying up to a horizon and then only what is newer is replaying everything. |
| `VersionStore.CommittedOverlay` | src/vm/version_store.cpp:24-34 | Replaying freshly committed changes is overlaying them. |
| `VersionRuns.Run` | src/vm/version_store.cpp:5-167 | Over any run of staging, committing, discarding and collecting, a version still at or above the baseline reads the same as before, for every table. |
| `VersionRuns.CommitKeepsIff` | src/vm/version_store.cpp:24-34 | A commit leaves version v readable if and only if the log stays within maxChanges, or the new version within retainVersions, or at most retainVersions above v. |
| `VersionRuns.CollectKeepsIff` | src/vm/version_store.cpp:145-161 | A collection leaves v readable if and only if its horizon, or the newest version, is not above v. |
| `VersionRuns.SurvivesCommitsIff` | src/vm/version_store.cpp:163-167 | Version v is sure to survive the next k commits, whatever they contain, if and only if the k-th is at most retainVersions above v. |
| `VersionRuns.SnapshotStable` | src/vm/version_store.cpp:103-143 | So a transaction's view is stable over any commits within that distance. |
| `VersionRuns.Overtake` | src/vm/version_store.cpp:114-167 | Beyond it a view can change: with the retention every store starts with, which nothing in the repository changes, 200001 commits of eleven changes each move the baseline past version 1, and whoever still reads at version 1 sees another row. |
| `VersionRuns.SnapshotOvertaken` | src/vm/version_store.cpp:103-167 | From a new store, a running transaction reads a row, those commits happen, and its second read differs. |
| `VersionRuns.DeleteRow` | src/vm/version_store.cpp:15-34 | After a row's deletion is staged and committed, neither the new version nor the rows read of it have the row. |
| `VersionRuns.CommitBatch` | src/vm/version_store.cpp:24-34 | One transaction staged and committed publishes its changes on top of the newest version. |
| `LockManager.Locks.TryLock` | src/txn/lock_manager.cpp:31-51 | A shared lock is granted if and only if no other transaction holds the row exclusively, an exclusive one if and only if no other transaction holds it at all; a refusal changes nothing, an upgrade keeps exclusive. |
| `LockManager.Locks.ShareRow` | src/txn/lock_manager.cpp:8-51 | Any number of transactions get a shared lock of one row and hold it together, if nobody holds it exclusively. |
| `LockManager.Locks.Unlock` | src/txn/lock_manager.cpp:53-65 | The transaction no longer holds the row; nobody else's locks change. |
| `LockManager.Locks.UnlockAll` | src/txn/lock_manager.cpp:67-83 | The transaction holds nothing; nobody else's locks change. |
| `LockManager.Locks.Grant` | src/txn/lock_manager.cpp:20-29 | The lock table and the per-transaction lists keep mirroring each other, with no conflicting holders. |
| `LockManager.ReadersOrOneWriter` | src/txn/lock_manager.cpp:8-18 | A row's holders do not conflict if and only if all of them are readers or there is one only. |
| `SerialHistories.ConflictsKeepOrder` | src/txn/transaction_manager.cpp:34-42 | In every strict history two conflicting uses of a row come in the same order as their transactions' ends. |
| `SerialHistories.SerialOrder` | src/txn/transaction_manager.cpp:68-107 | The order of the ends is a total order that runs one transaction at a time. |
| `SerialHistories.SerialExists` | src/txn/transaction_manager.cpp:68-107 | Every strict history has such a serial order. |
| `SerialHistories.SerialSame` | src/txn/transaction_manager.cpp:34-107 | Run one after another in that order, all transactions read the same values and leave every row the same. |
| `SerialHistories.MinusLegal` | src/txn/transaction_manager.cpp:84-107 | Leaving a transaction out that has not ended changes nothing anyone else has read. |
| `Transactions.Manager.Start` | src/txn/transaction_manager.cpp:8-19 | A new transaction with an empty undo list and a Begin record. |
| `Transactions.Manager.Lock` | src/txn/transaction_manager.cpp:34-42 | Granted like a lock of the lock table: shared if nobody else writes the row, exclusive if nobody else holds it; otherwise, after the time limit, nothing has changed. |
| `Transactions.Manager.Read` | src/txn/transaction_manager.cpp:34-42 | A row read under a lock shows its current value, and the history stays strict. |
| `Transactions.Manager.Change` | src/txn/transaction_manager.cpp:26-42 | A row changed under an exclusive lock; its old value is registered for undo. |
| `Transactions.Manager.Commit` | src/txn/transaction_manager.cpp:68-82 | The transaction ends with a Commit record in the log and its changes in place; one that is not active changes nothing. |
| `Transactions.Manager.Rollback` | src/txn/transaction_manager.cpp:84-107 | Undone in reverse under its locks, the transaction leaves every row as if it had never run, whatever others did meanwhile. |
| `Transactions.Manager.Serializable` | src/txn/transaction_manager.cpp:8-107 | When every transaction has ended, the database is what the committed ones give when run one after another, with every one of their reads the same. |
| `ColumnStore.Build` | src/vm/column_store.cpp:103-139 | The columns hold every row's cells, and each zone encloses the non-null cells of its block. |
| `ColumnStore.BuildZone` | src/vm/column_store.cpp:27-50 | The zone of a block encloses all its non-null cells, whatever their type, and its ends are two of them. |
| `ColumnStore.ExcludesExactly` | src/vm/column_store.cpp:53-83 | A zone whose ends compare with the literal is excluded if and only if no value between the ends satisfies the term. |
| `ColumnStore.ExcludedFails` | src/vm/column_store.cpp:53-83 | A zone that excludes a comparison holds no cell that satisfies it, for all six operators and mixed numeric types. |
| `ColumnStore.BlockSkippable` | src/vm/column_store.cpp:85-97 | A block is skipped if and only if some term's zone is excluded, and then it holds no qualifying row. |
| `ColumnStore.RowQualifies` | src/vm/column_store.cpp:143-157 | A row qualifies if and only if every term holds of its cell; NULL and other types fail. |
| `ColumnStore.ColumnarAggregate` | src/vm/column_store.cpp:161-281 | Each aggregate over the columns equals the aggregate over the qualifying rows, with pruned blocks left out. |
| `Aggregates.ComputeAggregate` | src/vm/executor_engine.cpp:44-105 | The row engine's collecting and summing loops give the aggregate of the column's cells. |
| `Aggregates.FoldMerges` | src/vm/column_store.cpp:340-358 | Accumulating two parts apart and merging them is accumulating the whole. |
| `Aggregates.MergeAssociative` | src/vm/column_store.cpp:340-358 | Merging partial results is associative. |
| `Aggregates.MergeSwap` | src/vm/column_store.cpp:340-358 | And commutative. |
| `Aggregates.BestIsBest` | src/vm/executor_engine.cpp:92-104 | MIN returns a cell that no other one precedes in the storage order, MAX one that precedes no other, and both NULL if there is none. |
| `Aggregates.CountsCells` | src/vm/executor_engine.cpp:54-63 | COUNT(*) is the number of cells, COUNT the number of those that are not NULL, each counted as often as it occurs. |
| `Aggregates.SumIsSum` | src/vm/executor_engine.cpp:69-90 | SUM is the sum of the non-null cells, AVG that divided by their number, NULL if there are none. |
| `Aggregates.IgnoresNulls` | src/vm/executor_engine.cpp:54-63 | NULL cells count for COUNT(*) alone. |
| `ParallelAggregate.ParallelColumnarAggregate` | src/vm/column_store.cpp:384-456 | For every thread count the merged result equals the serial one: each aggregate over the qualifying rows. |
| `ParallelAggregate.Worker` | src/vm/column_store.cpp:415-438 | One worker folds exactly the qualifying rows of its own stripe of blocks. |
| `ParallelAggregate.StripesCoverTable` | src/vm/column_store.cpp:415-452 | Merged over all workers, the stripes are all qualifying rows, each once. |
| `ParallelAggregate.BlockEntersOnce` | src/vm/column_store.cpp:415-452 | One more block changes the merged result through one worker only. |
| `ParallelAggregate.PredicateIsWhere` | src/vm/executor_engine.cpp:1693-1719 | The extracted terms accept a row if and only if the WHERE clause evaluates to TRUE on it. |
| `ParallelAggregate.QueryIsRowEngine` | src/vm/executor_engine.cpp:1693-1719 | The columnar plans return what filtering the rows by the WHERE clause and aggregating them in the row engine returns. |
| `RowOrder.RowLessIff` | src/vm/optimizer.cpp:16-27 | A row precedes another if and only if some key column decides for it, ascending or descending as asked, and all columns before that tie. |
| `RowOrder.SortedDirection` | src/vm/optimizer.cpp:141-198 | In sorted rows the first key column in which two rows differ ascends from the earlier to the later one if that key is ascending, and descends otherwise. |
| `RowOrder.RowLeqTransitive` | src/vm/optimizer.cpp:16-27 | On rows with typed key columns, not being greater is transitive, for mixed ascending and descending keys. |
| `RowOrder.StableSortSorted` | src/vm/optimizer.cpp:147-151 | Sorting gives the same rows in order. |
| `RowOrder.StableSortIsStable` | src/vm/optimizer.cpp:147-151 | Rows with equal keys keep their order. |
| `RowCodec.ReadRow` | src/vm/optimizer.cpp:75-116 | The next row of a spilled run is read back exactly as written, doubles included, and the end of the file is recognised. |
| `ExternalSort.Sort` | src/vm/optimizer.cpp:141-198 | For every memory limit, zero included, the result is sorted and has exactly the input's rows. |
| `ExternalSort.MergeRuns` | src/vm/optimizer.cpp:184-193 | The k-way merge of sorted runs is sorted and loses no row, whichever of equal rows the heap yields first. |
| `ExternalSort.SpillRuns` | src/vm/optimizer.cpp:153-165 | The runs are sorted and together hold all rows; each has as many as the memory limit allows, the last one perhaps fewer. |
| `Joins.NestedLoopIsFilter` | src/vm/executor_engine.cpp:377-391 | The nested loop that the joins are measured by yields, in order, the pairs of rows on which the join condition evaluates to TRUE. |
| `Joins.MergeJoinInner` | src/vm/optimizer.cpp:200-240 | Sorting within the memory limit and merging gives the nested loop's rows as a bag; NULL keys match nothing, groups of equal keys are combined in full. |
| `Joins.MergeSorted` | src/vm/optimizer.cpp:208-238 | On sorted inputs the merge gives the nested loop's rows in its order. |
| `Joins.HashJoin` | src/vm/executor_engine.cpp:353-372 | The hash join gives, in the nested loop's order, the pairs of rows whose keys print alike, NULLs excepted, for all keys. |
| `Joins.HashJoinIff` | src/vm/executor_engine.cpp:349-372 | Unless both columns are floats it gives the nested loop's rows if and only if every matching pair has keys of one type: joining an integer with a float column loses 5 = 5.0. For columns of one type they are the same. |
| `Joins.TextsMatchIff` | src/vm/executor_engine.cpp:349-351 | Two keys, not both of float columns, print alike if and only if they are equal, not NULL and of one type. |
| `Joins.KeyTextInjective` | src/vm/executor_engine.cpp:349-351 | Different keys of one type print differently, floats excepted, so hash keys do not mix them up. |
| `Joins.MatchIsEqual` | src/vm/value.cpp:42-68 | Within one type, keys join exactly if they are equal and not NULL. |
| `ExpressionLaws.ComparisonLaw` | src/vm/expression_eval.cpp:204-221 | A comparison is NULL if and only if its operands are not two numbers, two booleans or two texts; on numbers the six operators are the six relations of the numbers, on texts and booleans those of their order. |
| `ExpressionLaws.BetweenLaw` | src/vm/expression_eval.cpp:338-347 | BETWEEN holds from the lower to the upper bound, both included, and is NULL if and only if the value does not compare with one of them. |
| `ExpressionLaws.ArithmeticLaw` | src/vm/expression_eval.cpp:223-255 | Arithmetic is NULL if and only if an operand is no number or the divisor is zero; otherwise it is an integer exactly for two integers, and the sum, difference, product or quotient of the numbers. |
| `ExpressionLaws.DivisionLaw` | src/vm/expression_eval.cpp:244-253 | Integer division leaves a remainder smaller than the divisor, with the sign of the dividend. |
| `ExpressionLaws.NotLaw` | src/vm/expression_eval.cpp:290-294 | NOT exchanges TRUE and FALSE, and is NULL for everything else. |
| `ExpressionLaws.AndLaw` | src/vm/expression_eval.cpp:275-288 | AND is FALSE exactly next to a FALSE and TRUE exactly for two TRUEs. |
| `ExpressionLaws.OrLaw` | src/vm/expression_eval.cpp:275-288 | OR is TRUE exactly next to a TRUE and FALSE exactly for two FALSEs. |
| `ExpressionLaws.NullTestLaw` | src/vm/expression_eval.cpp:296-300 | IS NULL is TRUE exactly for NULL, IS NOT NULL for everything else. |
| `ExpressionLaws.InLaw` | src/vm/expression_eval.cpp:302-336 | IN is TRUE if and only if some item equals the value, and otherwise NULL if and only if the value or an item is NULL; NOT IN is its negation. |
| `ExpressionLaws.LikeLaw` | src/vm/expression_eval.cpp:349-356 | LIKE is NULL if and only if an operand is no text, and on a text without `%` decides the meaning of the pattern. |
| `ExpressionLaws.CaseLaw` | src/vm/expression_eval.cpp:264-273 | CASE has the value of the first branch whose condition is TRUE. |
| `ExpressionLaws.ElseLaw` | src/vm/expression_eval.cpp:264-273 | Without such a branch it has the value of ELSE, or NULL. |
| `LikeMatch.Matches` | src/vm/expression_eval.cpp:157-176 | The loop with its one backtracking point computes the step relation, and terminates. |
| `LikeMatch.Decides` | src/vm/expression_eval.cpp:157-176 | On texts without `%` it decides the meaning of the pattern: going back to the last `%` only is complete. |
| `LikeMatch.RightIff` | src/vm/expression_eval.cpp:161-166 | It decides a text rightly for every pattern if and only if the text has no `%`; a literal comparison comes before the wildcard. |
| `LikeMatch.FixedPattern` | src/vm/expression_eval.cpp:157-176 | A pattern without `%` means a text of its length with the same characters, `_` standing for any. |
| `LikeMatch.PercentTakesAny` | src/vm/expression_eval.cpp:157-176 | In the pattern's meaning `%` stands for any number of characters. |
| `Rewrite.RewriteKeepsValue` | src/vm/rewrite.cpp:103-167 | Rewriting keeps an expression's value on every row it is well typed on, NULLs included. |
| `Rewrite.RewriteKeepsFilter` | src/vm/rewrite.cpp:103-167 | A rewritten WHERE clause keeps the same rows. |
| `Rewrite.FoldableIsConstant` | src/vm/rewrite.cpp:26-41 | A foldable expression has one value, whatever the row. |
| `Rewrite.LogicalKept` | src/vm/rewrite.cpp:134-153 | Absorbing TRUE and FALSE keeps the three-valued result. |
| `Rewrite.FoldsConstants` | src/vm/rewrite.cpp:26-41 | An expression of constants is folded to the literal of its value. |
| `Rewrite.AbsorbsConstants` | src/vm/rewrite.cpp:134-153 | Next to a column, the constant that decides AND or OR is what remains, and the other one is dropped. |
| `Rewrite.OnePassLeavesConstants` | src/vm/rewrite.cpp:103-167 | One pass may leave constants to fold: NOT (c AND FALSE) becomes NOT FALSE. |
| `Rewrite.IdentityKeptIff` | src/vm/rewrite.cpp:85-132 | Dropping an identity constant next to a column keeps the value if and only if the column holds a number and the constant does not turn an integer into a float. |
| `Rewrite.DroppedFloatShows` | src/vm/rewrite.cpp:116-119 | The difference shows: with 5 in an integer column (c + 0.0) / 2 is 2.5 before and 2 after rewriting. |
| `RewriteTyping.TypeSound` | src/vm/expression_eval.cpp:180-294 | On a row of the columns' types an expression has a value of its static type. |
| `RewriteTyping.StaticIsWellTyped` | src/vm/rewrite.cpp:103-167 | An expression whose float constants stand next to floats only is well typed on every such row, a check on the query alone. |
| `RewriteTyping.RewriteKeepsTyped` | src/vm/rewrite.cpp:103-167 | Rewriting keeps the value of a statically typed expression on every row. |
| `RewriteTyping.RewriteKeepsQuery` | src/vm/rewrite.cpp:103-167 | And the rows that a statically typed WHERE clause keeps. |
| `IndexManager.BloomFilter.Add` | src/index/bloom_filter.cpp:45-52 | After adding a key the filter may hold it, and everything it could hold before. |
| `IndexManager.BloomFilter.MightContain` | src/index/bloom_filter.cpp:54-64 | The answer no is given only for keys never added. |
| `IndexManager.Index.Add` | src/index/index_manager.cpp:43-46 | The index gains exactly the entry and the filter covers it. |
| `IndexManager.Index.Remove` | src/index/index_manager.cpp:48-50 | The index loses exactly the entry; the filter still covers the others. |
| `IndexManager.Index.Lookup` | src/index/index_manager.cpp:52-57 | For every literal of the column's type, or of the other numeric type, the tree's answer if the filter may hold the literal's bytes and otherwise none; with the column's type the filter spares only searches that would find nothing. |
| `IndexManager.NothingHeld` | src/index/index_manager.cpp:52-57 | A key whose bytes no entry has is under no entry. |
| `IndexAccess.GatherRows` | src/vm/executor_engine.cpp:199-230 | Reading a table for a WHERE clause, by whichever index applies or none, gives the rows a full scan gives, each once with its record id. |
| `IndexAccess.IndexCandidates` | src/vm/executor_engine.cpp:410-515 | Every row the WHERE clause accepts is among the proposed record ids, none of them twice: through AND, the five range operators, BETWEEN and composite equality. Some are proposed if and only if an index applies to the clause or to a side of an AND. |
| `IndexAccess.CompositeCandidates` | src/vm/executor_engine.cpp:415-453 | The first composite index whose columns the equalities fix proposes every accepted row. |
| `IndexAccess.ComparisonCandidates` | src/vm/executor_engine.cpp:468-496 | An index on the compared column proposes every accepted row, with the column on either side. |
| `IndexAccess.BetweenCandidates` | src/vm/executor_engine.cpp:498-512 | The same for BETWEEN. |
| `IndexAccess.CollectAgrees` | src/vm/executor_engine.cpp:419-440 | An accepted row has the collected value in every column the equalities fix, even if a column is fixed twice. |
| `IndexAccess.FetchCandidates` | src/vm/executor_engine.cpp:204-215 | Fetching and filtering the candidates gives the accepted rows, each once. |
| `IndexAccess.ScanCovers` | src/vm/executor_engine.cpp:468-512 | A scan over a range that holds every accepted row's key omits none of them. |
| `IndexAccess.CompareFlips` | src/vm/executor_engine.cpp:33-42 | Turning a comparison round keeps its truth. |
| `IndexAccess.EqualityFindsIff` | src/vm/executor_engine.cpp:468-496 | An equality on one indexed column, with a literal of either numeric type, finds an accepted row if and only if the filter may hold the literal's bytes. |
| `IndexAccess.FloatLiteralMissed` | src/vm/executor_engine.cpp:468-496 | The failing case: 5 is in an index on an integer column, c = 5.0 is true of it and the tree's order finds it, and the lookup returns nothing. |
| `IndexAccess.CompareIsNumeric` | src/vm/value.cpp:42-83 | Between integers and floats the comparison of the WHERE clause and the storage order agree, so ranges and BETWEEN need no such condition. |
| `IndexAccess.CompositeFindsIff` | src/vm/executor_engine.cpp:415-453 | Without the typing assumption: a composite search finds an accepted row if and only if each literal has the type of the row's value, since 5 and 5.0 compare equal but print differently. |
| `IndexAccess.MirrorsInsert` | src/index/index_manager.cpp:43-46 | An index that mirrors a table does so after a row and its entry are added. |
| `IndexAccess.MirrorsDelete` | src/index/index_manager.cpp:48-50 | And after a row and its entry are removed. |
| `SqlLexer.Lexer.Tokenize` | src/frontend/lexer.cpp:130-141 | The loop over the source yields the token list of the text, end marker last. |
| `SqlLexer.Lexer.Scan` | src/frontend/lexer.cpp:147-186 | One token is the first of the remaining text, and the cursor stands behind it. |
| `SqlLexer.Lexer.ScanString` | src/frontend/lexer.cpp:225-245 | A quoted text is read with doubled quotes as one, an unclosed one as unknown. |
| `SqlLexer.Lexer.ScanNumber` | src/frontend/lexer.cpp:209-223 | A point belongs to a number only in front of a digit. |
| `SqlLexer.Lexer.SkipWhitespaceAndComments` | src/frontend/lexer.cpp:115-128 | White space and line comments are passed over. |
| `SqlParser.Parser.ParseWholeExpression` | src/frontend/parser.cpp:200-207 | The cursor-moving parser returns what the grammar reads from all of the tokens, or an error. |
| `SqlParser.Parser.ParseOrExpr` | src/frontend/parser.cpp:921-932 | A left-associative chain; the parser consumes exactly the tokens the grammar reads, and terminates. |
| `SqlParser.Parser.ParseAndExpr` | src/frontend/parser.cpp:934-945 | The same one level down. |
| `SqlParser.Parser.ParseNotExpr` | src/frontend/parser.cpp:947-954 | Prefix NOT. |
| `SqlParser.Parser.ParseComparisonExpr` | src/frontend/parser.cpp:956-1021 | A comparison, null test, IN, BETWEEN or LIKE, with NOT in front of the last three read as theirs. |
| `SqlParser.Parser.ParseAdditiveExpr` | src/frontend/parser.cpp:1023-1038 | A left-associative chain of sums. |
| `SqlParser.Parser.ParseMultiplicativeExpr` | src/frontend/parser.cpp:1040-1055 | A left-associative chain of products. |
| `SqlParser.Parser.ParseUnaryExpr` | src/frontend/parser.cpp:1057-1083 | A minus sign in front of a number becomes part of it; otherwise it is a subtraction from zero. |
| `SqlParser.Parser.ParsePrimaryExpr` | src/frontend/parser.cpp:1085-1126 | A literal, column, call, CAST, CASE or parenthesised expression, told apart by two tokens. |
| `SqlParser.Parser.ParseCaseExpr` | src/frontend/parser.cpp:878-896 | CASE with its branches and optional ELSE. |
| `SqlParser.Parser.ParseCallExpr` | src/frontend/parser.cpp:856-876 | A call with any number of arguments. |
| `SqlReading.SpellReads` | src/frontend/parser.cpp:921-1126 | Every spelling of a printable expression, with the parentheses that its operators need and any others, is parsed back to it at each level of the grammar it was made for, the rest untouched. |
| `SqlReading.SpellingReads` | src/frontend/parser.cpp:200-207 | To the end of the text, with or without a semicolon. |
| `SqlReading.SparingReads` | src/frontend/parser.cpp:200-207 | In particular the spelling with no more parentheses than needed. |
| `SqlReading.OrReads` | src/frontend/parser.cpp:921-932 | And the printer's tokens, which have parentheses around every operator. |
| `SqlReading.SpellingsDiffer` | src/frontend/parser.cpp:921-1126 | No sequence of tokens spells two expressions. |
| `SqlSpelling.PrintedIsGenerous` | src/frontend/ast.cpp:57-135 | The printer's tokens are the spelling with parentheses around every operator, at every level. |
| `SqlPrecedence.LogicGroups` | src/frontend/parser.cpp:921-945 | Without parentheses, a OR b AND c is a OR (b AND c), and every other chain of AND and OR groups from the left. |
| `SqlPrecedence.ProductsFirst` | src/frontend/parser.cpp:1023-1055 | a + b * c is a + (b * c), for both sum and both product operators. |
| `SqlPrecedence.FromTheLeft` | src/frontend/parser.cpp:1023-1055 | Every other chain of sums and products groups from the left: a - b - c is (a - b) - c. |
| `SqlPrecedence.NotGroups` | src/frontend/parser.cpp:947-954 | NOT a AND b is (NOT a) AND b, and NOT a = b is NOT (a = b). |
| `SqlPrecedence.ComparisonGroups` | src/frontend/parser.cpp:956-1021 | A comparison takes the sums and products on both of its sides. |
| `SqlPrecedence.SignsRead` | src/frontend/parser.cpp:1057-1083 | A minus sign in front of an operand yields its negative, whatever it is, and NULL for what is no number; a plus sign changes nothing. |
| `SqlPrecedence.AggregatesRead` | src/frontend/parser.cpp:773-787 | Calls of the five aggregates, in either case, of a column, of distinct values or of all rows are read as such. |
| `SqlPrinting.BlanksVanish` | src/frontend/lexer.cpp:115-128 | White space and line comments in front of a token leave no trace. |
| `SqlPrinting.WordsIgnoreCase` | src/frontend/lexer.cpp:188-207 | A keyword may be written in either case, and inequality also as `<>`. |
| `SqlRoundTrip.PrintLexes` | src/frontend/ast.cpp:57-135 | The printed text of any printable expression lexes to the intended tokens. |
| `SqlTokens.FixedRead` | src/frontend/ast.cpp:47-47 | A number printed with six decimals reads as the number rounded to millionths. |
| `SqlGrammatical.ReloadedGood` | src/frontend/parser.cpp:200-207 | Every expression that can be read from text is in the printer's language. |
| `SqlPrinter.LoadCheck` | src/frontend/db.cpp:357-359 | The lexer and the parser, run as objects, give from a stored text the expression that the round trip speaks of, or none. |
| `CheckConstraints.StoredCheckReloads` | src/frontend/db.cpp:352-366 | A CHECK constraint parsed from the user's text, printed when the table is created and parsed again on load is the original one if and only if its numbers have at most six decimals; the printer fails if and only if it calls an aggregate. |
| `CheckConstraints.PrintedReloads` | src/frontend/ast.cpp:57-135 | Printing any printable expression and parsing the text gives the expression, numbers rounded to millionths, with no tokens left. |
| `CheckConstraints.ReloadsUnchangedIff` | src/frontend/ast.cpp:57-135 | A printable expression comes back as itself if and only if its numbers have at most six decimals and its columns are unbound. |
| `CheckConstraints.SecondReloadSame` | src/frontend/db.cpp:352-366 | However often a database is saved and loaded, a constraint changes at most once. |
| `CheckConstraints.IntReloadsIff` | src/frontend/parser.cpp:118-124 | Every 64-bit integer comes back, except the smallest, whose text does not parse. |

## Left out

Contracts that say less than a reader might expect, and why:

- DiskBPlusTree.DiskBPlusTree.Insert: asks for entries of at most 209 bytes and a free 32-bit page number, which the code does not check; `DiskTreeRuns.CapIsExact` shows the first limit is exact. `distinctKeys_` of this tree is not modelled: the code keeps it only approximately across leaves.
- DiskTreeRuns.ScanAfter: bounds the run by the 32-bit page numbers (two pages per insertion), and keys by one column type, as `Values.MixedKindsNotOrdered` makes necessary.
- Doubles.ToBits: stores zero as positive zero; negative zero, infinities and NaN are not in the model, and arithmetic on doubles is that of the reals.
- SlottedPage.Page.RedoSet: asks for room for the grown slot array, because without it the code can destroy a record (`SlottedPage.ExtensionLosesRecord`).
- Recovery.TableManager.Recover: asks for logs without Abort records, because rollback puts deleted rows back at new places that it does not log, and recovery puts them back at the old ones too (`Recovery.DeletedReturnsIff`, `RolledBackTwice`); for disks whose page LSNs are not ahead of what they hold, because a reset restarts the numbering (`Recovery.StaleLsnLosesCommit`); and that no slot array grows into records, because that destroys them (`SlottedPage.ExtensionLosesRecord`). Room for the records themselves is not asked for: it is the condition of the equivalence.
- Recovery.TableManager.Redo: holds pages as slots, LSN and free end; `SlottedPage` proves that the bytes refine these. Pages recovery cannot fetch from the pool are left out.
- Recovery.RedoTakesIff: asks for a page whose records fit it, as every page's do.
- RecoveryRoom.RecoverSpacious: gives sizes that are enough, not the least ones; the exact condition is `Recovery.RecoversIff`.
- BufferPool.Pool.NewPage: asks that the next page number is not buffered; fetching an unallocated page would otherwise leave two frames for one page.
- BufferPool.Pool.Unpin: asks for a pinned page; otherwise a frame enters the LRU list twice.
- BPlusTree.BPlusTree.Range: is modelled as `RangeScan` with both bounds; the code repeats the loop.
- Joins.HashJoin: takes the text of a float as a parameter; `Joins.HashJoinIff` leaves out joins of two float columns, where different numbers may print alike.
- Joins.KeyTextInjective: leaves out floats for the same reason.
- IndexAccess.GatherRows: asks for literals of their column's type in equalities; `IndexAccess.EqualityFindsIff` and `CompositeFindsIff` say exactly what a search finds without that. In ranges and BETWEEN integers and floats may be mixed. Row locks taken while gathering are left out.
- IndexManager.Index.Lookup: takes literals that compare with the column's keys; the semantic analyzer rejects others.
- IndexManager.BloomFilter.Add: keeps the bits as an array of booleans instead of packed atomic words.
- LikeMatch.Decides: is for texts without `%`; `LikeMatch.RightIff` shows that the condition is exact.
- Rewrite.RewriteKeepsValue: asks for well-typed expressions; `RewriteTyping` gives a condition on the query alone, and `Rewrite.IdentityKeptIff` the exact one for identities.
- ParallelAggregate.ParallelColumnarAggregate: runs the workers one after another; each writes only its own accumulators, and the join of the threads is the loop's end.
- Transactions.Manager.Lock: is one atomic step; the five-second wait is a step that may fail. Undo actions are before-images of rows, where the code registers closures that may re-insert a row at another place.
- VersionStore.Store.Reconstruct: fixes which rows come out and not their order, which garbage collection may change.
- HeapTable.Tables.InsertTuple: works on a copy of the page that is put into its frame when the page is given back, where the code writes into the frame.
- HeapTable.Tables.GetTuple: asks for record ids on heap pages, as every stored record id is; the same holds for erasing and updating.
- CheckConstraints.PrintedReloads: leaves out subqueries and window expressions. The printer shortens a subquery to `(subquery)` or `EXISTS(...)` and creation stores that text; what fails to load is dropped without a message. Of these only IN with a subquery makes the printer fail.
- SqlParser.Parser.ParseComparisonExpr: treats IN with a subquery as an error, where the code parses the query.
- SqlParser.Parser.ParsePrimaryExpr: treats a subquery and EXISTS as errors, where the code parses the query.
- WriteAheadLog.Wal.Append: promises nothing about a file whose torn end and new records together look like a frame; the code then decodes a mixture of both. `WriteAheadLog.SwallowedIff` says when that is not so for a torn first frame.

Not modelled:

- Integers of arithmetic are unbounded: 64-bit overflow is left out, except in literals and stored keys.
- The in-memory tree's nodes have names in a map instead of addresses; the order of freeing is kept.
- Page contents are handed over by value in the buffer pool, so aliasing of a page between holders is left out.
- Mutexes and condition variables: each locked method is one step.
- Token positions and error messages of the lexer and parser; statements, subqueries and window functions; columns are bound by the semantic analyzer, which is not part of this model.
- Scalar functions and casts are parameters of the evaluator.
- COUNT DISTINCT, GROUP BY, HAVING, window functions, set operations and outer joins: they add easy members or rest on lossy string keys.
- Saving and loading of the version store, `seedBaseline`, the catalog and the files on disk.
- The cost model that chooses a join, the thresholds that choose a plan, and the cache of column copies.
- Foreign keys, ALTER and the REPL.
