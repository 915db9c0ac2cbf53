# EasyDB storage engine: a Dafny model

EasyDB is a small relational database in Java: a B-link tree index, multi-version
concurrency control, a write-ahead log with redo/undo recovery, a page store with a
free-space index and a reference-counted cache, a lock table with deadlock detection,
a transactional unique index, and where clauses answered through indexes. The modules
here model that engine and prove what it keeps, over single calls and over whole runs.

Code that changes state in place is modelled by classes and by methods over arrays;
each is proved against functions on values, and the properties are lemmas about those
functions and about runs of a state machine made of them. Where a promise of the
engine does not hold as it stands, the condition under which it does is stated exactly
and an input that fails is given.

| files | what they model |
|---|---|
| Bytes, LogRecords, RowCodec, FiniteSets | integers, log records, addresses and rows as bytes; choosing from sets |
| BLinkNode, BLinkTree, BLinkThreads, BLinkRepeats, BLinkLevels, BPlusTree, NodeBytes | index nodes as lists; the low-fence invariant; interleaved threads; a run with a repeated key; complete levels at rest; the tree as an object; nodes as 1067 bytes |
| Visibility, Mvcc, MvccGap, VersionManager, XidFile | the visibility tests; the version manager as a state machine; commit as the three actions it is; the object; the file of transaction statuses |
| PageX, Recovery, RecoveredRows, RecoverProgram, CrashRuns, GapCrash | pages and items; redo and undo; what readers see afterwards; the program over the encoded log; runs with crashes; a crash in the gap of a commit |
| Engine | the version manager on the storage: runs of both with crashes |
| LogFile | the log file, its checksums and torn tails |
| PageIndex, DataManager, PageCache | free-space lists, item placement, the page cache over the file |
| LockTable, LockTableObject | waits as a graph, the table's transitions, the object with its search |
| UniqueIndex, UniqueIndexObject | the unique index against a plain set |
| QueryPlan | where clauses through indexes |

`dafny verify dfyconfig.toml` checks everything.

## The main results

- **B-link tree.** The in-order invariant of a B+ tree is false here, because a split
  hands up the right half's first key. What holds is a low fence for every node; it is
  kept by every node access of every thread, between a split and the parent's update
  and while roots compete, and searches are exact under it but for repeated keys
  (`BLinkThreads`). At rest every level is complete, which bounds the height
  (`BLinkLevels`).
- **Snapshots.** The tests on xmin and xmax mean "the database committed at my begin,
  with my own changes" in every run whose writers are REPEATABLE_READ or SERIALIZABLE;
  the first committer wins (`Mvcc`). This is for commit as one step; with the steps of
  others inside one commit it holds under an exact condition (`MvccGap`).
- **Recovery.** What recovery leaves of every item, and what a new reader then sees of
  every row, is stated exactly for any log (`Recovery`, `RecoveredRows`). Where row locks
  are kept to the end, that is the committed rows, through any number of crashes, inside
  recovery too (`CrashRuns`).
- **Both together.** With commit as one step, every step of the version manager is one
  that the storage allows, and in every run with crashes each reader that goes by the
  bytes on the pages sees what its level promises; the committed database changes at
  commits alone (`Engine`).
- **Storage and locks.** Items never overlap and reads return what was inserted
  (`DataManager`); the cache is a plain array of pages (`PageCache`); the stamped search
  finds exactly the cycles it is asked about (`LockTableObject`).

## Where the engine keeps less than it promises

- A search misses entries equal to its left bound exactly if the leaf before the one
  it reaches ends with that key (`SearchRange`), as after 64 inserts of one key
  (`RepeatedKeyIsMissed`). A where clause then omits rows: exactly which ones is stated
  by `ParseWhere`.
- READ_COMMITTED deleters can make deleted rows visible again (`ReadCommittedDeleterResurrects`),
  and a deletion they overwrite can be lost for recovery (`RecoveredRowsExactly`) or come
  back at the second one (`OverwrittenDeletionComesBack`, `RecoveringAgain`).
- Commit leaves the active set, releases its locks and is marked committed in three
  actions. A transaction begun in between sees the committing one's rows appear
  (`BeginInGap`); a waiting deleter that gets a released lock in between overwrites the
  mark, and both commit, so that even with REPEATABLE_READ alone the first committer
  does not win (`FinishInGap`). As long as the engine is up nothing else goes wrong in
  the gap: `GapInCommit` is an if and only if.
- A crash in that gap, or between an abort's release of locks and its mark, finds the
  first transaction still active. If another one has meanwhile marked the row and
  committed, undoing the first puts back what it had found, and the committed deletion
  is lost (`CrashInGapLosesADeletion`). `RecoveredRowsExactly` says of any log which
  deletions are lost.
- A log torn by more than 8 bytes yields empty records when it is read after opening
  (`TornLog`), and recovery looks at the first byte of every record; a record complete
  but not counted in the header makes the log unreadable (`UncountedRecord`). A crash
  inside begin makes the transaction file unreadable (`InterruptedBegin`).
- A page selected for more than 8160 bytes may lack room (`SelectMayLackRoom`); nothing
  is written then, but the record is in the log (`DataManager.Insert`).
- Page offsets are wrong beyond page 262144 (`OffsetIsRight`), and reopening miscounts
  from 262144 pages on (`PagesAreCounted`).
- A lock handed over to a waiter is never released and escapes the deadlock test
  (`HandedOverForEver`, `HandedOverLocksDeadlock`, `HandedOverDeadlockRun`).
- A statement marks a unique value before it asks for the row's lock, so two active
  transactions may mark one value. If one commits, the other's mark stays: its rollback
  can bring the value back and make a third transaction's commit fail
  (`SharedDeletionRun`), and its commit can take away a third one's committed value,
  which can then be inserted twice (`StaleMarkRun`). `RunsRefineAPlainSet` says exactly
  which commits and rollbacks are wrong.
- Index searches are right for = and > on integers; "less than 0" finds the key 0, and
  negative keys are never found by <; >=, <= and != find the key 0 alone; on strings
  the order of hashes decides (`FoundIsHolds`). Scans leave out rows whose key in the
  first indexed column is negative or above the greatest int (`Table.Scan`).

## Model

| member | source | states |
|---|---|---|
| BLinkNode.SplitNode | src/main/java/com/dyx/simpledb/backend/im/Node.java:282-297 | The two halves of a full node hold its pairs in order, 32 each; the new node stands between the old one and its former sibling; and the key handed up is the right half's first key, not the left half's bound |
| BLinkNode.InsertKeepsSorted | src/main/java/com/dyx/simpledb/backend/im/Node.java:245-272 | Inserting at the first slot whose key is not below the new one keeps a node's keys in order, in the leaf form and in the internal form that hands the old key on |
| BLinkNode.InsertKeepsLastKey | src/main/java/com/dyx/simpledb/backend/im/Node.java:256-258 | A node that has a right sibling, and any internal node, keeps its last key under insertion: keys above it are sent to the right |
| BLinkNode.LeafSearchRangeParts | src/main/java/com/dyx/simpledb/backend/im/Node.java:172-201 | On a sorted leaf the range read is exactly the stretch of pairs with keys in range: everything before is below the left bound, everything after above the right one |
| BLinkTree.SearchNextReaches | src/main/java/com/dyx/simpledb/backend/im/Node.java:145-162 | From any internal node, for a key below the greatest one, one step goes to a son or to a right sibling that exists, and keeps the guarantee that all entries wanted lie at or to the right of the place reached |
| BLinkTree.GreatestKeyWalksOff | src/main/java/com/dyx/simpledb/backend/im/BPlusTree.java:78-86 | At the right edge of a level the walk leaves the tree if and only if the key searched for is the greatest key |
| BLinkTree.ContentsSorted | src/main/java/com/dyx/simpledb/backend/im/BPlusTree.java:92-108 | The leaves in sibling order hold their entries in key order |
| BLinkTree.PlaceableMovesRight | src/main/java/com/dyx/simpledb/backend/im/BPlusTree.java:143-157 | Where an insertion may be placed it is defined, and when a node declines it, the right sibling exists and may take it |
| BLinkTree.InsertInner | src/main/java/com/dyx/simpledb/backend/im/Node.java:245-272 | An internal node that takes a new son keeps the low-fence invariant of the whole tree and changes no entry |
| BLinkTree.InsertLeaf | src/main/java/com/dyx/simpledb/backend/im/Node.java:245-272 | A leaf that takes a pair keeps the invariant and adds exactly that entry to the tree |
| BLinkTree.SplitKeepsInv | src/main/java/com/dyx/simpledb/backend/im/Node.java:282-297 | Splitting any node, before its parent hears of it, keeps the invariant and the entries; the key handed up is one the parent may place, and below the greatest key |
| BLinkTree.GrowKeepsInv | src/main/java/com/dyx/simpledb/backend/im/BPlusTree.java:51-63 | A new root over a node and its right half keeps the invariant, whatever node is root by then: two inserts may both have split the same former root |
| BLinkTree.NilTreeOk | src/main/java/com/dyx/simpledb/backend/im/BPlusTree.java:24-28 | A new tree is empty and satisfies the invariant |
| BLinkThreads.ThreadStays | src/main/java/com/dyx/simpledb/backend/im/BPlusTree.java:78-157 | Whatever step other threads take, a thread in the middle of a descent, a scan or an insertion is still where it has to be |
| BLinkThreads.NextOk | src/main/java/com/dyx/simpledb/backend/im/BPlusTree.java:65-157 | Every atomic node access of every thread keeps the low-fence invariant and every thread's place |
| BLinkThreads.RunsNeverFail | src/main/java/com/dyx/simpledb/backend/im/BPlusTree.java:65-157 | In every interleaving of inserts and range searches no walk runs off the tree, and the leaves always hold, in key order, exactly the pairs whose leaf insertion has happened |
| BLinkThreads.RunsSearchCorrectly | src/main/java/com/dyx/simpledb/backend/im/BPlusTree.java:92-108 | A search that returns gives pairs in key order, all of them inserted and in range, and every pair with left < key <= right whose leaf insertion was done before the search began; also those with key = left if that key was inserted at most once |
| BLinkThreads.ReturnedInsertsAreIndexed | src/main/java/com/dyx/simpledb/backend/im/BPlusTree.java:110-141 | When an insert returns, its pair is in the leaves |
| BLinkLevels.HeightBound | src/main/java/com/dyx/simpledb/backend/im/Node.java:274-297 | At rest a tree with h internal levels holds at least 2 * 32^h entries |
| BLinkLevels.OneParentSlot | src/main/java/com/dyx/simpledb/backend/im/BPlusTree.java:110-121 | At rest every node but the root is the son of exactly one slot of one parent |
| BLinkLevels.SplitHalfway | src/main/java/com/dyx/simpledb/backend/im/Node.java:282-297 | A split leaves every level complete but for the one new node, which waits for its parent; all other nodes have legal sizes |
| BLinkLevels.TakePair | src/main/java/com/dyx/simpledb/backend/im/BPlusTree.java:143-157 | A node that takes the pair handed up, or a leaf that takes an entry, leaves all levels complete |
| BPlusTreeIndex.BPlusTree.constructor | src/main/java/com/dyx/simpledb/backend/im/BPlusTree.java:24-28 | Creating an index gives an empty tree |
| BPlusTreeIndex.BPlusTree.SearchNextUid | src/main/java/com/dyx/simpledb/backend/im/BPlusTree.java:78-86 | The walk to the right on one level ends and finds the son to descend to |
| BPlusTreeIndex.BPlusTree.SearchLeaf | src/main/java/com/dyx/simpledb/backend/im/BPlusTree.java:65-76 | The descent ends at a leaf from which no wanted entry lies to the left |
| BPlusTreeIndex.PathsAgree | src/main/java/com/dyx/simpledb/backend/im/BPlusTree.java:65-86 | The stored nodes alone determine the path of a search, and so the leaf where its scan begins |
| BPlusTreeIndex.BPlusTree.SearchRange | src/main/java/com/dyx/simpledb/backend/im/BPlusTree.java:92-108 | A range search returns, in key order, exactly the uids of the entries in range from the leaf that the stored nodes lead to; entries further left are at most the left bound; and these are all entries in range if and only if that leaf is the first or the leaf before it ends below the left bound, as is so when the left bound is not indexed twice |
| BPlusTreeIndex.BPlusTree.InsertAndSplit | src/main/java/com/dyx/simpledb/backend/im/BPlusTree.java:143-157 | Insertion at a level moves right until a node accepts, adds exactly the given pair, and hands up a split node if one arose |
| BPlusTreeIndex.BPlusTree.UpdateRootUid | src/main/java/com/dyx/simpledb/backend/im/BPlusTree.java:51-63 | The new root makes all levels complete and changes no entry |
| BPlusTreeIndex.BPlusTree.Insert | src/main/java/com/dyx/simpledb/backend/im/BPlusTree.java:110-141 | Inserting any key below the greatest one adds exactly that entry and leaves the tree at rest |
| BPlusTreeIndex.BPlusTree.Search | src/main/java/com/dyx/simpledb/backend/im/BPlusTree.java:88-90 | A point search answers a range of one key, completely under the same condition |
| BPlusTreeIndex.BPlusTree.InsertUnique | src/main/java/com/dyx/simpledb/backend/im/BPlusTree.java:164-176 | A unique insert succeeds exactly when the key does not stand from the scan's first leaf on, which is when it is absent unless it is indexed twice; it adds exactly that entry, and otherwise changes nothing |
| BLinkRepeats.RepeatedKeyIsMissed | src/main/java/com/dyx/simpledb/backend/im/BPlusTree.java:92-141 | The condition fails in a run: 64 inserts of one key one after the other split the leaf, and a search for the key then returns 32 of them |
| Bytes.EncodeDecode | src/main/java/com/dyx/simpledb/backend/utils/Parser.java:10-45 | A short, int or long that fits is read back from its big-endian bytes |
| Bytes.DecodeEncode | src/main/java/com/dyx/simpledb/backend/utils/Parser.java:10-45 | Bytes that were read are written back the same |
| NodeBytes.InsertSlotsInserts | src/main/java/com/dyx/simpledb/backend/im/Node.java:245-272 | Moving slots on the buffer, unused ones included, is insertion into the list of the used pairs |
| NodeBytes.SplitSlotsSplits | src/main/java/com/dyx/simpledb/backend/im/Node.java:282-297 | Copying the upper slots to a new buffer is exact halving of the list |
| NodeBytes.RawNode.SetRawNoKeys | src/main/java/com/dyx/simpledb/backend/im/Node.java:43-45 | Writing the key count changes that field of the node and no byte outside the node |
| NodeBytes.RawNode.SetRawSibling | src/main/java/com/dyx/simpledb/backend/im/Node.java:51-53 | Writing the sibling changes that field alone |
| NodeBytes.RawNode.SetRawIsLeaf | src/main/java/com/dyx/simpledb/backend/im/Node.java:31-37 | Writing the leaf flag changes that field alone |
| NodeBytes.RawNode.SetRawKthSon | src/main/java/com/dyx/simpledb/backend/im/Node.java:59-62 | Writing a slot's son changes that slot's son alone |
| NodeBytes.RawNode.SetRawKthKey | src/main/java/com/dyx/simpledb/backend/im/Node.java:69-72 | Writing a slot's key changes that slot's key alone |
| NodeBytes.RawNode.ShiftRawKth | src/main/java/com/dyx/simpledb/backend/im/Node.java:84-90 | The byte loop moves every slot after the k-th one place up, the k-th staying where it is as well, within the 1067 bytes |
| NodeBytes.RawNode.CopyRawFromKth | src/main/java/com/dyx/simpledb/backend/im/Node.java:79-82 | Copying to another node moves its slots from k on to the front of that node |
| NodeBytes.RawNode.FindSlot | src/main/java/com/dyx/simpledb/backend/im/Node.java:246-255 | The scan finds the first slot whose key is not below the given one |
| NodeBytes.RawNode.Insert | src/main/java/com/dyx/simpledb/backend/im/Node.java:245-272 | Insertion into the bytes of a node is insertion into its list of pairs, or is declined exactly when the list form declines, and touches nothing outside the node |
| NodeBytes.RawNode.SearchNextUid | src/main/java/com/dyx/simpledb/backend/im/Node.java:145-162 | The scan over the bytes gives the step that the list form gives |
| NodeBytes.RawNode.LeafSearch | src/main/java/com/dyx/simpledb/backend/im/Node.java:172-201 | The scan over the bytes gives the pairs and the sibling that the list form gives |
| NodeBytes.RawNode.UpperHalf | src/main/java/com/dyx/simpledb/backend/im/Node.java:282-288 | The new buffer holds the upper 32 pairs, the old sibling and the leaf flag, and its first key is the one handed up |
| NodeBytes.RawNode.Split | src/main/java/com/dyx/simpledb/backend/im/Node.java:282-297 | The new buffer holds the upper half, the old one the lower half with the new sibling, and nothing outside the node changes |
| Mvcc.SnapshotIsMeant | src/main/java/com/dyx/simpledb/backend/vm/Visibility.java:63-100 | A REPEATABLE_READ or SERIALIZABLE transaction sees a row exactly when it belongs to the database committed when it began, plus its own insertions, minus its own deletions |
| Mvcc.ReadCommittedIsMeant | src/main/java/com/dyx/simpledb/backend/vm/Visibility.java:46-61 | A READ_COMMITTED reader sees exactly the currently committed rows, plus its own insertions, minus its own deletions |
| Mvcc.MarkIsFree | src/main/java/com/dyx/simpledb/backend/vm/VersionManagerImpl.java:139-151 | When a deleter holds the row's lock and is not stopped, nobody's deletion is overwritten but an aborted one's |
| Mvcc.NextOk | src/main/java/com/dyx/simpledb/backend/vm/VersionManagerImpl.java:41-236 | Every step of begin, insert, delete, lock hand-over, commit and abort keeps the correspondence between row headers and what the transactions did |
| Mvcc.RunsShowWhatIsMeant | src/main/java/com/dyx/simpledb/backend/vm/Visibility.java:46-100 | In every run with snapshot-keeping writers, each live reader sees exactly what the level promises that it asked for when it began |
| Mvcc.ReadsAreStable | src/main/java/com/dyx/simpledb/backend/vm/Visibility.java:63-100 | No step of another transaction changes what a transaction sees of any row that asked for REPEATABLE_READ or SERIALIZABLE |
| Mvcc.CommittedMarkStays | src/main/java/com/dyx/simpledb/backend/vm/VersionManagerImpl.java:139-151 | No step changes the header of a row whose deleter has committed |
| Mvcc.FirstCommitterWins | src/main/java/com/dyx/simpledb/backend/vm/Visibility.java:7-19 | Once a row's deleter has committed, the row's header never changes again, in any run |
| Mvcc.OneCommitDeletes | src/main/java/com/dyx/simpledb/backend/vm/VersionManagerImpl.java:105-158 | At most one committed transaction ever deletes a given version |
| Mvcc.ReadCommittedDeleter | src/main/java/com/dyx/simpledb/backend/vm/Visibility.java:7-13 | A READ_COMMITTED deleter is never stopped; its mark changes what a snapshot-keeping reader sees of a row exactly when the reader saw the row as deleted, by itself or before it began |
| Mvcc.ReadCommittedDeleterResurrects | src/main/java/com/dyx/simpledb/backend/vm/Visibility.java:7-13 | A reachable run in which a READ_COMMITTED deleter makes a deleted row visible again to a REPEATABLE_READ reader |
| MvccGap.GapInCommit | src/main/java/com/dyx/simpledb/backend/vm/VersionManagerImpl.java:195-200 | Commit taken apart, with any steps of others in between: the state after the mark is again one in which headers mean what the transactions did, if and only if no delete of a row that the committing transaction marked finishes in the gap and either it changed no row or no snapshot-keeping transaction that began in the gap is still at work |
| MvccGap.SnapshotsAfterGap | src/main/java/com/dyx/simpledb/backend/vm/VersionManagerImpl.java:195-200 | If its marks are left alone, every snapshot-keeping transaction sees after the mark exactly what it is meant to see, under the same condition on transactions begun in the gap |
| MvccGap.LateView | src/main/java/com/dyx/simpledb/backend/vm/Visibility.java:63-100 | A transaction begun in the gap sees what is meant until the mark, and afterwards is wrong about exactly the rows that the committing transaction changed |
| MvccGap.MarksInGap | src/main/java/com/dyx/simpledb/backend/vm/VersionManagerImpl.java:145-153 | A mark of the committing transaction is left when it is marked committed if and only if no delete of that row finishes in the gap |
| MvccGap.RunsLeave | src/main/java/com/dyx/simpledb/backend/vm/VersionManagerImpl.java:180-200 | In every run, a transaction ready to commit is in a state the gap theorems speak of: its locks are on rows it marked, and it marked only rows it saw |
| MvccGap.BeginInGap | src/main/java/com/dyx/simpledb/backend/vm/VersionManagerImpl.java:195-200 | A run in which a transaction begun in the gap sees a row appear |
| MvccGap.FinishInGap | src/main/java/com/dyx/simpledb/backend/vm/VersionManagerImpl.java:139-200 | A run of REPEATABLE_READ transactions in which a waiting deleter gets the released lock, overwrites the mark that does not count yet, and both commit |
| VersionManagerObject.NewTransaction | src/main/java/com/dyx/simpledb/backend/vm/Transaction.java:32-44 | The snapshot holds exactly the active transactions for the two upper levels and is empty for the two lower ones |
| VersionManagerObject.VersionManager.Begin | src/main/java/com/dyx/simpledb/backend/vm/VersionManagerImpl.java:161-177 | The new transaction has the next number, the level that was asked for and, for the two upper levels, a snapshot of those active; nothing else changes |
| VersionManagerObject.VersionManager.Read | src/main/java/com/dyx/simpledb/backend/vm/VersionManagerImpl.java:41-69 | A read throws exactly for a failed transaction, and otherwise returns a row's data exactly when the row is among those its level promises |
| VersionManagerObject.VersionManager.Insert | src/main/java/com/dyx/simpledb/backend/vm/VersionManagerImpl.java:72-83 | An inserted row carries its inserter and no deleter |
| VersionManagerObject.VersionManager.Delete | src/main/java/com/dyx/simpledb/backend/vm/VersionManagerImpl.java:105-131 | The first half of delete at any level: a failed transaction throws, an invisible row is not found, any other asks for the row's lock; only such a request without a snapshot leaves the states that are meant |
| VersionManagerObject.VersionManager.Refuse | src/main/java/com/dyx/simpledb/backend/vm/VersionManagerImpl.java:128-135 | A refused lock request aborts the transaction on the spot and frees its locks |
| Mvcc.DeleteWorks | src/main/java/com/dyx/simpledb/backend/vm/VersionManagerImpl.java:139-155 | A snapshot-keeping delete that holds the lock goes through exactly when the row is still committed or its own, that is unmarked or marked by an aborted transaction; otherwise the transaction is aborted and its locks are freed |
| Mvcc.DeleteAsks | src/main/java/com/dyx/simpledb/backend/vm/VersionManagerImpl.java:124-131 | A snapshot-keeping transaction asks for the lock exactly of rows it is meant to see |
| VersionManagerObject.VersionManager.DeleteGranted | src/main/java/com/dyx/simpledb/backend/vm/VersionManagerImpl.java:136-155 | With the lock held the row is marked exactly when nobody has deleted it and committed since, and else the transaction fails |
| VersionManagerObject.VersionManager.LeaveActive | src/main/java/com/dyx/simpledb/backend/vm/VersionManagerImpl.java:185-197 | Commit throws for a failed transaction, and else first leaves the active ones |
| VersionManagerObject.VersionManager.MarkCommitted | src/main/java/com/dyx/simpledb/backend/vm/VersionManagerImpl.java:200-200 | Commit last changes the transaction's status, and nothing else |
| VersionManagerObject.VersionManager.Commit | src/main/java/com/dyx/simpledb/backend/vm/VersionManagerImpl.java:180-211 | With nobody in between, the three actions add the transaction's insertions to the committed rows and take its deletions away |
| VersionManagerObject.VersionManager.Abort | src/main/java/com/dyx/simpledb/backend/vm/VersionManagerImpl.java:217-236 | Aborting leaves the committed rows as they were |
| LogRecords.AddressRoundTrip | src/main/java/com/dyx/simpledb/backend/utils/Types.java:7-11 | An address survives its uid if and only if the offset is not negative (page -1 aside): sign extension swallows the page number |
| LogRecords.RecordRoundTrip | src/main/java/com/dyx/simpledb/backend/dm/Recover.java:153-224 | Parsing an encoded insertion or update gives back exactly the record |
| PageX.RecoverInsertedReads | src/main/java/com/dyx/simpledb/backend/dm/page/PageX.java:54-62 | A recovered insertion overwrites its stretch, leaves every other stretch, and raises the free-space offset to its end but never lowers it |
| PageX.RecoverUpdatedReads | src/main/java/com/dyx/simpledb/backend/dm/page/PageX.java:65-68 | A recovered update overwrites its stretch alone and leaves the free-space offset |
| PageX.InsertedIsRecovered | src/main/java/com/dyx/simpledb/backend/dm/page/PageX.java:40-46 | Inserting at run time gives the page that redoing its log record gives |
| PageX.InitRawIsEmpty | src/main/java/com/dyx/simpledb/backend/dm/page/PageX.java:20-24 | A fresh page is empty |
| PageX.WrappedItem | src/main/java/com/dyx/simpledb/backend/dm/dataItem/DataItem.java:31-35 | A wrapped item is valid and its size field gives back the length of its data |
| PageX.NewRow | src/main/java/com/dyx/simpledb/backend/vm/Entry.java:42-46 | A wrapped row names its inserter and no deleter and keeps its data |
| PageX.WithXmaxReads | src/main/java/com/dyx/simpledb/backend/vm/Entry.java:89-97 | Setting xmax changes the deleter and neither the inserter, the validity nor the data |
| PageX.FlaggedReads | src/main/java/com/dyx/simpledb/backend/dm/dataItem/DataItem.java:46-48 | The invalid flag changes a row's validity and nothing else |
| PageX.Insert | src/main/java/com/dyx/simpledb/backend/dm/page/PageX.java:40-46 | On the page's byte array: the bytes go behind the items there, the free-space offset moves past them |
| PageX.RecoverInsert | src/main/java/com/dyx/simpledb/backend/dm/page/PageX.java:54-62 | On the page's byte array, the recovered insertion |
| PageX.RecoverUpdate | src/main/java/com/dyx/simpledb/backend/dm/page/PageX.java:65-68 | On the page's byte array, the recovered update |
| PageX.DataItem.Parse | src/main/java/com/dyx/simpledb/backend/dm/dataItem/DataItem.java:38-44 | An item of any length is found on its page: its end is read from its size field |
| PageX.DataItem.Before | src/main/java/com/dyx/simpledb/backend/dm/dataItem/DataItemImpl.java:52-56 | The copy taken before a change equals the item, and the page is as it was |
| PageX.DataItem.UnBefore | src/main/java/com/dyx/simpledb/backend/dm/dataItem/DataItemImpl.java:59-62 | Giving up a change that stayed inside the item brings back the page as it was |
| PageX.DataItem.After | src/main/java/com/dyx/simpledb/backend/dm/dataItem/DataItemImpl.java:65-68 | The record of a change, parsed, names the writer and the item; redoing it leaves the page as it is, undoing it puts back the copy taken before the change and touches nothing else |
| PageX.DataItem.SetXmax | src/main/java/com/dyx/simpledb/backend/vm/Entry.java:89-97 | Marking a row writes its xmax in place and logs the bytes before and after |
| Recovery.ItemsApart | src/main/java/com/dyx/simpledb/backend/dm/page/PageX.java:40-46 | Items of a log in which each insertion starts at its page's free space never overlap |
| Recovery.ApplyReads | src/main/java/com/dyx/simpledb/backend/dm/Recover.java:176-242 | Redoing or undoing one record overwrites its own item, touches no other, and never pushes a free-space offset ahead of the log |
| Recovery.RecoveryIsDeterminedByTheLog | src/main/java/com/dyx/simpledb/backend/dm/Recover.java:80-141 | If nobody else writes an item after a transaction active at the crash, then for any bytes on disk whose free-space offsets are not ahead of the log, and any order of undoing, every item ends with the bytes the log settles: the last write that is not active, or what stood before the first active one |
| Recovery.RecoveredFso | src/main/java/com/dyx/simpledb/backend/dm/Recover.java:80-141 | The free space of every initialised or inserted-into page starts at the end of its last logged insertion |
| Recovery.SettledIsReplay | src/main/java/com/dyx/simpledb/backend/dm/Recover.java:80-141 | With no earlier crash in the log this is the replay of the records that are not active, in order, with active insertions present but flagged |
| Recovery.RecoveryUndoes | src/main/java/com/dyx/simpledb/backend/dm/Recover.java:101-141 | Whoever wrote an item when: recovery leaves what the first write of the last transaction undone there had found, whatever was on disk |
| Recovery.RecoveryRedoes | src/main/java/com/dyx/simpledb/backend/dm/Recover.java:80-98 | Where no active transaction wrote, recovery leaves the last write |
| RecoveredRows.RecoveredIsSeen | src/main/java/com/dyx/simpledb/backend/dm/Recover.java:45-141 | For any log of rows: a reader beginning after recovery sees a row if and only if its inserter committed and either the last transaction undone there had found it without a committed deletion, or none was undone there and its last record is no committed deletion |
| RecoveredRows.RecoveredRowsExactly | src/main/java/com/dyx/simpledb/backend/dm/Recover.java:45-141 | So it sees exactly the committed rows, all of them, and the rows whose committed deletion was lost |
| RecoveredRows.LegalLosesNothing | src/main/java/com/dyx/simpledb/backend/dm/Recover.java:45-141 | No deletion is lost where nobody writes a row after a transaction still active and no committed deletion is overwritten |
| RecoveredRows.UnmarkedUnderLocks | src/main/java/com/dyx/simpledb/backend/dm/Recover.java:101-141 | Where nobody writes a row after a transaction still active, only the last record and its transaction's first one matter, not the order of undoing |
| RecoveredRows.LeftoverIsReady | src/main/java/com/dyx/simpledb/backend/dm/Recover.java:115-141 | Whatever mixture of pages a recovery cut short leaves on disk, recovery can start from it |
| RecoveredRows.RecoveringAgainExactly | src/main/java/com/dyx/simpledb/backend/dm/Recover.java:80-141 | Two recoveries over one log, the second with fewer active transactions and from whatever the first left, show a row differently if and only if its inserter committed and one of them alone leaves it without a committed mark |
| RecoveredRows.RecoveringAgain | src/main/java/com/dyx/simpledb/backend/dm/Recover.java:80-141 | Where nobody writes a row after a transaction still active, the second shows the same rows and exactly one kind more: those whose last record belongs to a transaction aborted by the first, if that transaction's first record marked a row with a committed inserter and a committed deleter |
| RecoveredRows.NothingRevives | src/main/java/com/dyx/simpledb/backend/dm/Recover.java:80-141 | There is no such row where no record overwrites a committed deletion |
| RecoveredRows.UnlockedWriterLosesADeletion | src/main/java/com/dyx/simpledb/backend/dm/Recover.java:115-141 | A concrete log for which recovery loses a committed deletion: another transaction marked the row after one still active, and committed |
| GapCrash.CrashInGapLosesADeletion | src/main/java/com/dyx/simpledb/backend/vm/VersionManagerImpl.java:195-200 | The version manager writes that log: a run of REPEATABLE_READ transactions that crashes between the release of locks and the mark |
| RecoveredRows.OverwrittenDeletionComesBack | src/main/java/com/dyx/simpledb/backend/dm/Recover.java:80-98 | A concrete log of that kind: the second recovery brings a deleted row back to life |
| RecoverProgram.TruncatedIsReady | src/main/java/com/dyx/simpledb/backend/dm/pageCache/PageCacheImpl.java:109-117 | Cutting or extending the file to the highest logged page leaves every logged page there with a free-space offset not ahead of the log |
| RecoverProgram.DoInsertLog | src/main/java/com/dyx/simpledb/backend/dm/Recover.java:226-242 | An encoded insertion is parsed and redone, or undone as a flagged item, on its page |
| RecoverProgram.DoUpdateLog | src/main/java/com/dyx/simpledb/backend/dm/Recover.java:176-206 | An encoded update is parsed and its new bytes, or its old ones, are written on its page |
| RecoverProgram.DoLog | src/main/java/com/dyx/simpledb/backend/dm/Recover.java:86-96 | A record of either kind is told apart by its first byte and applied |
| RecoverProgram.FindMaxPgno | src/main/java/com/dyx/simpledb/backend/dm/Recover.java:48-70 | The first pass finds the highest page that any record names, 1 for an empty log |
| RecoverProgram.RedoTransactions | src/main/java/com/dyx/simpledb/backend/dm/Recover.java:80-98 | The second pass redoes, in log order, every record whose transaction is not active |
| RecoverProgram.CacheActive | src/main/java/com/dyx/simpledb/backend/dm/Recover.java:102-126 | The records of active transactions are collected by transaction, in log order |
| RecoverProgram.UndoTransaction | src/main/java/com/dyx/simpledb/backend/dm/Recover.java:128-138 | One transaction's records are undone from the last to the first |
| RecoverProgram.UndoTransactions | src/main/java/com/dyx/simpledb/backend/dm/Recover.java:101-141 | All active transactions with records are undone, in some order, and each is marked aborted |
| RecoverProgram.Recover | src/main/java/com/dyx/simpledb/backend/dm/Recover.java:45-78 | The program over encoded records computes the recovery that the log determines and aborts exactly the transactions it undid |
| CrashRuns.InsertEffect | src/main/java/com/dyx/simpledb/backend/dm/DataManagerImpl.java:48-88 | Appending an insertion record and writing the item opens a new item at the end of its page and leaves every other item |
| CrashRuns.OverwriteEffect | src/main/java/com/dyx/simpledb/backend/dm/dataItem/DataItemImpl.java:52-69 | Overwriting an item with its record logged changes that item alone |
| CrashRuns.MarkedRowOk | src/main/java/com/dyx/simpledb/backend/vm/VersionManagerImpl.java:146-155 | Marking a locked row whose mark no committed deleter holds keeps the row's history in order |
| CrashRuns.EndedDeletion | src/main/java/com/dyx/simpledb/backend/vm/VersionManagerImpl.java:195-200 | When a deleter commits, the lock rule has kept everybody else from writing the row after it |
| CrashRuns.NextOk | src/main/java/com/dyx/simpledb/backend/dm/Recover.java:45-141 | Every event, from writing a row to crashing in the middle of a recovery, keeps the storage invariant |
| CrashRuns.RowsSurviveCrashes | src/main/java/com/dyx/simpledb/backend/dm/Recover.java:45-141 | In every run of the storage with any number of crashes and interrupted recoveries, a reader beginning after everything logged sees a row exactly when its inserter committed and none of its deleters did; markers are alone on their row and find no committed mark |
| Engine.MarkIsAllowed | src/main/java/com/dyx/simpledb/backend/vm/VersionManagerImpl.java:136-155 | The version manager's locks, visibility and skip tests see to that: whatever deletion they let through is one the storage allows |
| Engine.LogicalStep | src/main/java/com/dyx/simpledb/backend/vm/VersionManagerImpl.java:41-236 | Every step of the version manager is made by the storage at once, and keeps bytes on pages, statuses in the file and headers in the version manager together |
| Engine.RestartOk | src/main/java/com/dyx/simpledb/backend/dm/Recover.java:45-141 | A crash, any recoveries cut short and one that finishes bring the version manager back with the committed database it had |
| Engine.RunsShowWhatIsMeant | src/main/java/com/dyx/simpledb/backend/vm/Visibility.java:46-100 | In every run of version manager and storage together, through any number of crashes, each live reader that goes by the bytes on the pages sees exactly what the level promises that it asked for |
| Engine.RunsKeepCommitted | src/main/java/com/dyx/simpledb/backend/vm/VersionManagerImpl.java:180-211 | In every such run the committed database changes at commits alone, by exactly the transaction's own changes |
| Engine.CommitsStay | src/main/java/com/dyx/simpledb/backend/vm/VersionManagerImpl.java:180-211 | In every such run what has committed stays committed, and the rows it deleted keep its mark |
| CrashRuns.CommittedRowsAreDurable | src/main/java/com/dyx/simpledb/backend/dm/Recover.java:45-141 | A committed row stays one, through any crashes, until a transaction that deletes it commits |
| CrashRuns.RecoveryIsPossible | src/main/java/com/dyx/simpledb/backend/dm/DataManager.java:24-36 | Whatever state a crash leaves, recovery can be started and finished |
| CrashRuns.FirstRecoveryIsReplay | src/main/java/com/dyx/simpledb/backend/dm/Recover.java:80-141 | The first recovery of every run gives each item the bytes of replaying the records that are not active |
| LogFile.ChecksumGoesOn | src/main/java/com/dyx/simpledb/backend/dm/logger/LoggerImpl.java:112-117 | The rolling 32-bit checksum of two stretches is the second's continued from the first's |
| LogFile.ChangeIsNoticed | src/main/java/com/dyx/simpledb/backend/dm/logger/LoggerImpl.java:112-117 | Changing any one byte always changes the checksum, from whatever it is continued |
| LogFile.ChecksumOfTwo | src/main/java/com/dyx/simpledb/backend/dm/logger/LoggerImpl.java:31-31 | Each byte moves what went before up by the factor 13331 |
| LogFile.ReadsExactly | src/main/java/com/dyx/simpledb/backend/dm/logger/LoggerImpl.java:162-194 | Reading returns a record exactly when its whole wrapping, size, checksum and data, is found |
| LogFile.ChangedRecord | src/main/java/com/dyx/simpledb/backend/dm/logger/LoggerImpl.java:86-110 | A record of which a data byte was changed is never returned: reading stops before it, and the log opens only if the records before it happen to have the checksum of all |
| LogFile.TornLog | src/main/java/com/dyx/simpledb/backend/dm/logger/LoggerImpl.java:86-110 | A log torn inside a record opens, keeps exactly its whole records and is cut behind them; but reading it then returns exactly those records if and only if the torn part was at most 8 bytes, and otherwise (n-1)/8 empty records more for a torn part of n bytes |
| LogFile.UncountedRecord | src/main/java/com/dyx/simpledb/backend/dm/logger/LoggerImpl.java:120-144 | If the last record is complete but not yet in the header's checksum, opening fails unless the record leaves the checksum unchanged |
| LogFile.Logger.CalChecksum | src/main/java/com/dyx/simpledb/backend/dm/logger/LoggerImpl.java:112-117 | The byte loop computes the checksum, and for no bytes that differ in one place the same |
| LogFile.Logger.InternNext | src/main/java/com/dyx/simpledb/backend/dm/logger/LoggerImpl.java:162-194 | Reading one record returns it, or nothing at the end, at a torn record or at a wrong checksum |
| LogFile.Logger.Init | src/main/java/com/dyx/simpledb/backend/dm/logger/LoggerImpl.java:60-110 | Opening succeeds exactly when the scanned records have the header's checksum, and then cuts the file behind them |
| LogFile.Logger.ReadAll | src/main/java/com/dyx/simpledb/backend/dm/logger/LoggerImpl.java:197-207 | Reading to the end returns the records found from the start on |
| LogFile.Logger.Log | src/main/java/com/dyx/simpledb/backend/dm/logger/LoggerImpl.java:120-144 | Appending a record gives the file of one record more, its header counted on |
| XidFile.InterruptedBegin | src/main/java/com/dyx/simpledb/backend/tm/TransactionManagerImpl.java:114-124 | A crash between the two writes of begin leaves a file that is refused when opened again |
| XidFile.TransactionManager.Create | src/main/java/com/dyx/simpledb/backend/tm/TransactionManagerImpl.java:37-45 | A new file holds no transaction |
| XidFile.TransactionManager.CheckXidCounter | src/main/java/com/dyx/simpledb/backend/tm/TransactionManagerImpl.java:47-70 | A file opens exactly when its length is what its counter says |
| XidFile.TransactionManager.Begin | src/main/java/com/dyx/simpledb/backend/tm/TransactionManagerImpl.java:114-124 | A new transaction gets the next number and is active; no other status changes |
| XidFile.TransactionManager.Commit | src/main/java/com/dyx/simpledb/backend/tm/TransactionManagerImpl.java:127-129 | Committing writes a 1 in the transaction's place and nothing else |
| XidFile.TransactionManager.Abort | src/main/java/com/dyx/simpledb/backend/tm/TransactionManagerImpl.java:132-134 | Aborting writes a 2 in the transaction's place and nothing else |
| XidFile.TransactionManager.CheckCommitted | src/main/java/com/dyx/simpledb/backend/tm/TransactionManagerImpl.java:154-157 | A transaction is committed as the file says, the super transaction always |
| XidFile.TransactionManager.CheckActive | src/main/java/com/dyx/simpledb/backend/tm/TransactionManagerImpl.java:149-152 | A transaction is active as the file says, the super transaction never |
| XidFile.TransactionManager.CheckAborted | src/main/java/com/dyx/simpledb/backend/tm/TransactionManagerImpl.java:159-162 | A transaction is aborted as the file says, the super transaction never |
| PageIndexes.SelectFinds | src/main/java/com/dyx/simpledb/backend/dm/pageIndex/PageIndex.java:37-53 | Select takes one page out of the index; it misses pages only in lists below the one it starts at; and the page found has room whenever the size is at most 8160 |
| PageIndexes.RoomyIsFound | src/main/java/com/dyx/simpledb/backend/dm/pageIndex/PageIndex.java:37-53 | A page with 204 bytes more than asked for is never missed, nor one of 8160 or more bytes when as much is asked for |
| PageIndexes.TightestIsTaken | src/main/java/com/dyx/simpledb/backend/dm/pageIndex/PageIndex.java:37-53 | The page taken has less than 204 bytes more than any such page |
| PageIndexes.SelectMayLackRoom | src/main/java/com/dyx/simpledb/backend/dm/pageIndex/PageIndex.java:37-53 | For every size from 8161 on, a page with 8160 bytes free is selected although it lacks room |
| PageIndexes.PageIndex.constructor | src/main/java/com/dyx/simpledb/backend/dm/pageIndex/PageIndex.java:19-25 | A new index is empty |
| PageIndexes.PageIndex.Add | src/main/java/com/dyx/simpledb/backend/dm/pageIndex/PageIndex.java:27-35 | Adding puts one page into the list of its free space and changes no other |
| PageIndexes.PageIndex.SelectPage | src/main/java/com/dyx/simpledb/backend/dm/pageIndex/PageIndex.java:37-53 | The scan over the lists finds a page whenever one has 204 bytes to spare, takes one of the tightest of those sure to have room, and takes nothing else |
| DataManagers.PlaceOk | src/main/java/com/dyx/simpledb/backend/dm/DataManagerImpl.java:70-79 | Placing an item where there is room gives it a new address, leaves every other item its bytes, and keeps every size field right |
| DataManagers.DataManager.constructor | src/main/java/com/dyx/simpledb/backend/dm/DataManagerImpl.java:176-188 | Filling the index page by page indexes every data page exactly once with its true free space |
| DataManagers.DataManager.TakePage | src/main/java/com/dyx/simpledb/backend/dm/DataManagerImpl.java:54-68 | A page is found at once or after one new page, so the database is never busy; one is added only if no page has 204 bytes to spare |
| DataManagers.DataManager.Insert | src/main/java/com/dyx/simpledb/backend/dm/DataManagerImpl.java:48-88 | Inserting is refused exactly for more than 8190 bytes with the item's header, is never refused as busy, has room up to 8160 bytes, logs the record, puts the item at an address where there was none, leaves every other item its bytes, and keeps the index exact; where a larger item finds no room nothing is written but the log |
| DataManagers.DataManager.Read | src/main/java/com/dyx/simpledb/backend/dm/DataManagerImpl.java:38-45 | Reading a uid returns the item's bytes, or null if it is flagged |
| DataManagers.RunsKeepItems | src/main/java/com/dyx/simpledb/backend/dm/DataManagerImpl.java:38-88 | Over any run of insertions no uid is handed out twice, and at the end every item placed is at its uid with its bytes, as is every item there was before |
| PageCaches.NextOk | src/main/java/com/dyx/simpledb/backend/common/AbstractCache.java:30-109 | Every locked section keeps the count equal to cached and loading pages, references equal to outstanding handles, and the capacity, and acts on the pages as on a plain array |
| PageCaches.RunsLikePlainPages | src/main/java/com/dyx/simpledb/backend/common/AbstractCache.java:30-109 | Over any interleaving of requests, failed loads and matched releases, the cache and the file together are a plain array of pages, and a request gets what was last written |
| PageCaches.AllReleased | src/main/java/com/dyx/simpledb/backend/common/AbstractCache.java:87-109 | When everything was released and nothing is loading, the cache is empty and every page is on disk |
| PageCaches.OffsetIsRight | src/main/java/com/dyx/simpledb/backend/dm/pageCache/PageCacheImpl.java:134-136 | The 32-bit offset of a page is right exactly up to page 262144 |
| PageCaches.OffsetsRepeat | src/main/java/com/dyx/simpledb/backend/dm/pageCache/PageCacheImpl.java:134-136 | Beyond it offsets repeat every 524288 pages |
| PageCaches.PagesAreCounted | src/main/java/com/dyx/simpledb/backend/dm/pageCache/PageCacheImpl.java:42-42 | Opening a file counts its pages right if and only if there are fewer than 262144 |
| PageCaches.PageCache.BeginGet | src/main/java/com/dyx/simpledb/backend/common/AbstractCache.java:30-66 | The first locked section of a request waits exactly while the page is loading, hits exactly if it is cached, is refused exactly if as many pages are cached or loading as there may be, and else starts a load; a hit gets the page as last written |
| PageCaches.PageCache.FinishGet | src/main/java/com/dyx/simpledb/backend/common/AbstractCache.java:78-84 | A finished load is cached with one reference and gets the page as last written |
| PageCaches.PageCache.FailGet | src/main/java/com/dyx/simpledb/backend/common/AbstractCache.java:68-76 | A failed load gives its place back |
| PageCaches.PageCache.SetData | src/main/java/com/dyx/simpledb/backend/dm/page/PageX.java:40-46 | A holder's change marks the page dirty and is what the page holds from then on |
| PageCaches.PageCache.Release | src/main/java/com/dyx/simpledb/backend/common/AbstractCache.java:87-109 | The last release empties the page's place and leaves the file with the page as cached if it was dirty; any other only counts; no release changes what the pages hold |
| PageCaches.PageCache.FlushPage | src/main/java/com/dyx/simpledb/backend/dm/pageCache/PageCacheImpl.java:92-107 | Flushing makes the file hold the page as cached, and every other page as before |
| PageCaches.PageCache.NewPage | src/main/java/com/dyx/simpledb/backend/dm/pageCache/PageCacheImpl.java:45-50 | A new page gets the next number and is on disk |
| WaitGraph.CycleAhead | src/main/java/com/dyx/simpledb/backend/vm/LockTable.java:124-150 | Going one step along the waits changes nothing about reaching a cycle |
| WaitGraph.LooserMakesNoCycle | src/main/java/com/dyx/simpledb/backend/vm/LockTable.java:85-105 | Dropping waits, or turning them to someone who waits for nobody, makes no cycle |
| LockTables.NextOk | src/main/java/com/dyx/simpledb/backend/vm/LockTable.java:34-105 | Every add and remove keeps queues, waits and ownership in order and leaves no owner of an acquired lock behind a cycle |
| LockTables.RunsAreDeadlockFree | src/main/java/com/dyx/simpledb/backend/vm/LockTable.java:34-105 | In every run in which waiting and removed transactions ask for nothing, no transaction with an acquired lock ever reaches a cycle of waits; whoever is on one holds only handed-over locks |
| LockTables.HandedOverForEver | src/main/java/com/dyx/simpledb/backend/vm/LockTable.java:66-105 | A lock that was handed over is never released: it stays held through every further event |
| LockTables.HandedOverLocksDeadlock | src/main/java/com/dyx/simpledb/backend/vm/LockTable.java:112-122 | Two transactions that hold only handed-over locks and ask for each other's both wait for ever, undetected |
| LockTables.HandedOverDeadlockRun | src/main/java/com/dyx/simpledb/backend/vm/LockTable.java:34-105 | A run of eight requests that ends so |
| LockTables.SelfDeadlockRun | src/main/java/com/dyx/simpledb/backend/vm/LockTable.java:34-60 | A run in which a transaction asks again for the lock it was handed and waits for itself |
| LockTableObject.LockTable.IsInList | src/main/java/com/dyx/simpledb/backend/vm/LockTable.java:176-187 | The scan finds exactly the listed |
| LockTableObject.LockTable.RemoveFromList | src/main/java/com/dyx/simpledb/backend/vm/LockTable.java:153-167 | The first occurrence is removed from its list, wherever it stands, and an emptied list with it |
| LockTableObject.LockTable.Dfs | src/main/java/com/dyx/simpledb/backend/vm/LockTable.java:124-150 | The stamped and cached search answers exactly whether a cycle is reached, and every answer it caches is right |
| LockTableObject.LockTable.HasDeadLock | src/main/java/com/dyx/simpledb/backend/vm/LockTable.java:112-122 | The test is true if and only if some transaction with an acquired lock reaches a cycle of waits |
| LockTables.RefusedWhen | src/main/java/com/dyx/simpledb/backend/vm/LockTable.java:112-150 | A wait would send some transaction with an acquired lock into a cycle if and only if one of those, perhaps the asking one, waits for the asking one at the end of its chain, and the holder's chain leads back there or into a cycle that there was |
| LockTables.RemovePassesOn | src/main/java/com/dyx/simpledb/backend/vm/LockTable.java:66-105 | Of the locks a removed transaction had acquired each passes to the first in its queue that still waits, or becomes free; every other lock stays with its holder |
| LockTableObject.LockTable.Add | src/main/java/com/dyx/simpledb/backend/vm/LockTable.java:34-64 | A lock is granted exactly if it is free, and refused exactly if waiting for its holder would send a transaction with an acquired lock into a cycle, with the tables as they were; otherwise the request is queued first in line; stated over the graph of waits |
| LockTableObject.LockTable.SelectNewXID | src/main/java/com/dyx/simpledb/backend/vm/LockTable.java:85-105 | A released lock passes to the first queued transaction still waiting, if there is one |
| LockTableObject.LockTable.Remove | src/main/java/com/dyx/simpledb/backend/vm/LockTable.java:66-82 | Removing passes each acquired lock on or frees it, leaves all others, and forgets the transaction |
| UniqueIndexes.PlainStepOk | src/main/java/com/dyx/simpledb/backend/im/UniqueIndex.java:31-142 | Every step of the plain set keeps pending keys apart and uncommitted, and deletions on committed keys |
| UniqueIndexes.InsertRefines | src/main/java/com/dyx/simpledb/backend/im/UniqueIndex.java:31-59 | An insertion succeeds exactly when the key is neither committed nor pending, and then becomes pending |
| UniqueIndexes.DeleteRefines | src/main/java/com/dyx/simpledb/backend/im/UniqueIndex.java:62-77 | A deletion succeeds exactly for a committed or own pending key |
| UniqueIndexes.CommitRefines | src/main/java/com/dyx/simpledb/backend/im/UniqueIndex.java:81-114 | Commit never meets its conflict exception from a state in step with the plain set, and publishes exactly the transaction's insertions and deletions if and only if it knows its columns and no mark that another commit has overtaken is on a key committed again or inserted by itself |
| UniqueIndexes.RollbackKeepsCommitted | src/main/java/com/dyx/simpledb/backend/im/UniqueIndex.java:118-142 | Rolling back leaves the committed values as they were if and only if the marked values are still committed |
| UniqueIndexes.RollbackRefines | src/main/java/com/dyx/simpledb/backend/im/UniqueIndex.java:118-142 | Rolling back drops the transaction's changes and nothing else if and only if all its marks are on keys still committed |
| UniqueIndexes.RunsRefineAPlainSet | src/main/java/com/dyx/simpledb/backend/im/UniqueIndex.java:31-150 | Any run whatever holds at every point the keys of a plain set with transactions, and answers as it does, if and only if every commit and every rollback in it is right in that sense; then the committed set is the fold of whole transactions in commit order |
| UniqueIndexes.UnsharedIsRight | src/main/java/com/dyx/simpledb/backend/im/UniqueIndex.java:62-142 | They all are where no two active transactions mark one value |
| UniqueIndexes.SharedDeletionBreaksCommit | src/main/java/com/dyx/simpledb/backend/im/UniqueIndex.java:118-142 | If two transactions mark the same key, one commits and the other rolls back, a third that inserted the key in between cannot commit |
| UniqueIndexes.SharedDeletionRun | src/main/java/com/dyx/simpledb/backend/im/UniqueIndex.java:31-142 | A run from a new index in which that happens |
| UniqueIndexes.StaleMarkRun | src/main/java/com/dyx/simpledb/backend/im/UniqueIndex.java:81-114 | A run in which a mark that another commit has overtaken takes away a third transaction's committed key: no step complains, and the key can be inserted a second time |
| UniqueIndexObject.UniqueIndex.constructor | src/main/java/com/dyx/simpledb/backend/im/UniqueIndex.java:23-28 | A new index knows its columns and holds nothing |
| UniqueIndexObject.UniqueIndex.Insert | src/main/java/com/dyx/simpledb/backend/im/UniqueIndex.java:31-59 | Insertion over the three maps, from any state; from a state in step with the plain set it succeeds exactly when the key is not in use, and then becomes pending |
| UniqueIndexObject.UniqueIndex.Delete | src/main/java/com/dyx/simpledb/backend/im/UniqueIndex.java:62-77 | Deletion over the three maps, for any column and value and whoever else has marked it; from a state in step with the plain set it is the plain set's deletion |
| UniqueIndexObject.UniqueIndex.Commit | src/main/java/com/dyx/simpledb/backend/im/UniqueIndex.java:81-114 | The loops of commit, with both of its exceptions: they merge and drop the transaction's values column by column, up to a column that is not there; from a state in step with the plain set they stay in step exactly when the commit is right |
| UniqueIndexObject.UniqueIndex.Rollback | src/main/java/com/dyx/simpledb/backend/im/UniqueIndex.java:118-142 | The loops of rollback restore the marked values; from a state in step with the plain set they leave the committed values as they were exactly when all marked ones are still committed |
| UniqueIndexObject.UniqueIndex.Search | src/main/java/com/dyx/simpledb/backend/im/UniqueIndex.java:146-152 | A value is found exactly when it is committed |
| QueryPlan.ComparesOrder | src/main/java/com/dyx/simpledb/backend/tbm/Table.java:568-580 | Strings are compared in lexicographic order: a proper prefix first, else by the first differing character; equal only to themselves |
| QueryPlan.ComparesFirstDifference | src/main/java/com/dyx/simpledb/backend/tbm/Table.java:568-580 | Two strings compare as their first differing characters do |
| QueryPlan.OrderIsTransitive | src/main/java/com/dyx/simpledb/backend/tbm/Table.java:568-580 | The order of strings is transitive |
| QueryPlan.ContainsAround | src/main/java/com/dyx/simpledb/backend/tbm/Table.java:581-582 | A string is "like" another exactly if it is that one with something around it |
| QueryPlan.HoldsMeans | src/main/java/com/dyx/simpledb/backend/tbm/Table.java:568-586 | What each operator says of an integer or a string, in terms of their orders alone |
| QueryPlan.FoundIsHolds | src/main/java/com/dyx/simpledb/backend/tbm/Field.java:250-274 | Exactly where an index search and the comparison of values part, for all operators, integers and strings: on integers = and > never, < only at 0 and below, any other operator but for the key 0; strings are searched for by their hashes |
| QueryPlan.EqualIsFound | src/main/java/com/dyx/simpledb/backend/tbm/Field.java:262-266 | A search by = misses no value, and finds too much exactly where hashes of strings collide |
| QueryPlan.HashString | src/main/java/com/dyx/simpledb/backend/utils/Parser.java:66-73 | The loop computes the rolling 64-bit hash |
| QueryPlan.ShortHashesDiffer | src/main/java/com/dyx/simpledb/backend/utils/Parser.java:66-73 | Different ASCII strings of the same length, up to five characters, have different hashes |
| QueryPlan.HashOfTwo | src/main/java/com/dyx/simpledb/backend/utils/Parser.java:67-70 | Each character moves what went before up by the factor 13331 |
| QueryPlan.PlannedIsSatisfied | src/main/java/com/dyx/simpledb/backend/tbm/Table.java:436-498 | For one condition or two joined by and/or, exactly which rows the plan wrongly adds and which it wrongly omits, given where each condition's search goes wrong or passes over the row |
| QueryPlan.SearchFinds | src/main/java/com/dyx/simpledb/backend/tbm/Field.java:171-173 | A search finds exactly the rows in range but those on its left bound whose entries stand before the leaf where the scan begins |
| QueryPlan.PassesOver | src/main/java/com/dyx/simpledb/backend/tbm/Field.java:171-173 | A search passes over some row if and only if an entry with its left bound stands before that leaf |
| QueryPlan.Retain | src/main/java/com/dyx/simpledb/backend/tbm/Table.java:459-460 | Intersecting keeps exactly the uids in both |
| QueryPlan.Merge | src/main/java/com/dyx/simpledb/backend/tbm/Table.java:462-464 | Joining gives the uids in either, each once |
| QueryPlan.Table.SearchColumn | src/main/java/com/dyx/simpledb/backend/tbm/Field.java:171-173 | A search of one column's index, repeated keys and all: it gives the rows in range that it does not pass over, and passes over none exactly when the leaf before the scan's first one ends below the left bound |
| QueryPlan.Table.GetAllUid | src/main/java/com/dyx/simpledb/backend/tbm/Table.java:507-516 | The first indexed column gives exactly the rows with a key from 0 to the greatest int that the search does not pass over; if 0 is indexed at most once it passes over none |
| QueryPlan.Table.Scan | src/main/java/com/dyx/simpledb/backend/tbm/Table.java:518-531 | A full scan gives exactly the readable rows that satisfy the clause, have such a key, and are not passed over |
| QueryPlan.Table.ParseWhere | src/main/java/com/dyx/simpledb/backend/tbm/Table.java:436-498 | Of the rows the transaction can read, the plan selects those that satisfy the clause but for exactly the rows wrongly added and wrongly omitted; if every left bound searched is indexed at most once, a search passes over no row but those whose key is out of a scan's range |
| RowCodec.ValueRoundTrip | src/main/java/com/dyx/simpledb/backend/tbm/Field.java:195-238 | A value of any modelled type is read back from anywhere in a row and consumes exactly its own bytes |
| RowCodec.Entry2Raw | src/main/java/com/dyx/simpledb/backend/tbm/Table.java:635-641 | A row's bytes are its columns' bytes in order |
| RowCodec.ParseEntry | src/main/java/com/dyx/simpledb/backend/tbm/Table.java:623-632 | Parsing the bytes of a row of distinctly named columns gives back exactly the row |

## Left out

- BPlusTree.delete, update and the merging of nodes (im/BPlusTree.java:178-323): no caller uses them, and the slot shift they rely on moves pairs the wrong way.
- The index keeps its nodes in the data manager; here the tree's store is a map from uids to nodes with fresh uids, and a node's bytes are related to its list form node by node, not through the store.
- Keys: the index is modelled for keys below Long.MAX_VALUE, which the rightmost internal nodes end in.
- READ_UNCOMMITTED in the visibility results (it ignores xmin), and READ_COMMITTED writers in the snapshot results (nothing stops them): their exact effect is stated instead.
- Mvcc.NextOk: begin, the two halves of delete, commit and abort are atomic steps. Waiting is until the lock is handed over, although one thread re-locks its own lock there.
- MvccGap.GapInCommit: takes one commit apart at a time; two transactions in their gaps at once are not modelled. The gap between an abort's release of locks and its mark is treated for crashes only (`GapCrash`).
- VersionManagerObject.VersionManager.Commit: its three actions follow each other here; what others may do in between is `MvccGap`. The release of locks is given by the owner map; the lock table is modelled apart, where handed-over locks stay held.
- The global lock of SERIALIZABLE, the timeout thread of the lock table and its clock.
- Physical deletion, dropping tables, the table chain and page one's check bytes: their writes are not logged.
- Flushing is possible at any moment in `CrashRuns`, and a record and its page change are one step; the item bytes a crash leaves on disk are arbitrary in `Recovery`, which covers a page written before its record.
- CrashRuns.RowsSurviveCrashes: readers begin after everything logged; readers among running transactions are the subject of `Mvcc` and `Engine`.
- Engine.LogicalStep: commit and abort are one step each, and deleters keep a snapshot; `MvccGap`, `GapCrash` and `ReadCommittedDeleter` say what happens otherwise. New rows get an address where there is room; how one is found is `DataManager`.
- RecoverProgram.Recover: reads the records as a list; that the log file yields this list is `LogFile`, with the exception stated there.
- RecoverProgram.DoInsertLog: like DoUpdateLog, works on a copy of the page that is put back, in place of the cached page object.
- LogFile.Logger.Init: the header's four bytes are written as one; a torn header is not considered.
- LogFile.TornLog: records are not empty; an empty last record would not be read back.
- DataManagers.DataManager.Insert: sequential; two threads between selecting a page and putting it back are not modelled. It is stated for fewer than 262144 pages.
- The cache of data items (DataManagerImpl is an AbstractCache of its own) is not modelled apart from the page cache.
- AbstractCache.close, which changes a map while walking over its keys.
- PageCaches.PageCache.SetData: a holder's page is a value set through the cache, so two holders changing one page object at once are two steps.
- UniqueIndexObject.UniqueIndex.Commit: marks in a column that the index does not know end it with an exception, after some of the columns before it in hash order; which ones is left open. Values are integers.
- QueryPlan.Table.ParseWhere: columns are integers (longs) and strings of one-byte characters, whose keys and constants stay below Long.MAX_VALUE, and constants have their column's type; dates, floats and doubles are left out. Lists are compared as sets of uids.
- RowCodec.ParseEntry: int, long, varchar and string columns with ASCII strings; the length prefix counts characters, so other strings do not survive. Dates, floats and doubles are left out.
- Table.insert's compensation, auto-increment, update of rows, printing, and the hash of strings to index keys.
- SQL parsing, transport, client, launchers, and everything under src/main/resources.
