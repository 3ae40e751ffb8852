# A verified model of tinydb

tinydb is a small database engine: pages in one file, a slotted heap and a B-tree index on those pages, a
write-ahead log with recovery, a reader/writer lock, a query executor with indexed plans, and a wire
protocol. This project models the parts of it that are hard to get right and proves what they promise,
for every input, every run and every reachable state. Where the code does not keep a promise, the model
follows the code, and a lemma says exactly when the promise holds.

`dafny verify dfyconfig.toml` checks everything.

| files | what they model |
|---|---|
| `Wal`, `WalReopen`, `LogCodec`, `Recovery`, `RecoveryExact`, `Transactions` | the log and its framing, replay, the transaction manager, crash safety over whole runs |
| `BTree`, `BTreeInsert`, `BTreeDelete`, `BTreeDeleteProof`, `BTreeDeleteExact`, `BTreeWitness`, `BTreeChain` | the index as a tree: insertion, deletion, the leaf chain, range scans |
| `BTreeRep`, `BTreeDeletePages`, `BTreeWalk`, `BTreeOrphan`, `BTreeTrail`, `BTreeScan`, `BTreePages`, `NodeCodec`, `NodeSeam` | the index as pages, read and rewritten one at a time, scans along its leaf chain, whole or not, and the bytes of a page |
| `Common`, `Bytes`, `Paging`, `Layouts`, `HeapPage`, `Heap`, `HeapTx`, `Pager`, `BufferPool` | shared vocabulary, bytes and pages, every byte format by its numbers; slotted pages, the heap, the heap inside transactions, the file with its free list, the cache |
| `RwLock`, `LockGuard`, `Deadlock`, `BeginRace` | the lock protocol as steps, the reentrant guard, the wait-for graph, and threads racing through `begin` |
| `Rows`, `Expressions`, `IndexPlan` | WHERE clauses and the rows they are true of, index selection |
| `JoinLayout`, `Join`, `JoinSlots`, `JoinProof`, `JoinDeep`, `JoinSwapped` | row positions and names, the two join operators, ON clauses written the other way round |
| `Lexer`, `Params`, `TokenGrammar`, `Session`, `Frames` | tokenizer and parameter substitution, server sessions, frame decoding |

Each part has an independent reference: a finite map for the index and the heap, "the writes of the
committed transactions alone" for recovery, the order of last touches for the cache, walks in a graph for
the deadlock detector, the concatenated columns for join positions, the nested-loop join for the indexed
one, sets of rows for WHERE clauses, a grammar of pieces for the tokenizer. The state-changing code is modelled as classes whose methods are proved against functions on values;
the theorems are about those functions.

## Where the code and its documentation disagree

- Recovery keeps the latest, not the earliest, before-image of a transaction's page, and an autocommit
  write keeps its first place in the replay order: `Transactions.CrashSafety` gives the exact condition,
  `Transactions.TouchedTwiceIsNotUndone` and `Transactions.ResumedAutocommitIsLost` the failing runs. So a
  crash can leave the first of two rows that an uncommitted transaction put on a page
  (`HeapTx.FirstRecordStays`).
- A log reopened with a torn tail appends behind it. `WalReopen.ReopenExact` says exactly when what it
  appends is read; with anything torn that takes a coincidence (`WalReopen.OnlyARepeatIsRead`).
- A borrow between internal index nodes puts the wrong separator into the child: deletion is right exactly
  when it does not happen (`BTreeDeleteExact.DeleteExact`, `BTreeWitness.BorrowHappens`).
- Merging a leaf leaves its predecessor pointing at the abandoned page (`BTreeChain.DeleteChainExact`,
  `BTreeWitness.MiddleLeafAbandoned`). In every reachable index scans still end and pass all leaves
  (`BTreeTrail.PathFrom`), but they read such pages too: rows come out twice, rows deleted since come out
  (`BTreeScan.FullScan`), and a scan that an abandoned page ends misses rows (`BTreeScan.ScanEndedAway`,
  `BTreeWitness.MissesARow`). `BTreeScan.ScanAtHome` says exactly when a scan is right.
- A heap record of 4079 to 4084 bytes is overwritten by its own slot (`HeapPage.TooLongReadsBack`).
- A write to a free page is not refused and can break the free list (`Pager.PagerFile.WritePage`).
- Freeing a page twice turns the free list into a loop (`Pager.PagerFile.FreePage`).
- A writer that times out wakes nobody, so a reader can oversleep: exactly then, in every run
  (`RwLock.OversleepsExactly`, `RwLock.ReaderOversleeps`).
- The deadlock check of `begin` runs outside the lock with an id that may already be in use, so a thread
  can be told it deadlocked with itself (`BeginRace.RaceRaises`); `BeginRace.RaisedExactly` says when.
- NULL equals NULL in the nested-loop join and not in the indexed one (`JoinProof.NodeExact`); an ON clause
  with its sides swapped makes the indexed join take its key from another column or find none, unless
  both columns have the same name and it is the leftmost one (`JoinSwapped.SwappedExact`); a bare left
  reference that only the right table has makes it yield nothing (`JoinDeep.BareOnTheRight`).
- WHERE clauses with only an upper bound, an equality before a lower bound, an upper bound before an
  equality, or a literal on the left of `>` or `>=` are scanned over the wrong range
  (`IndexPlan.SelectionExact`, `IndexPlan.BadShapes`, `IndexPlan.LiteralFirst`).
- A placeholder next to a quote, a word, a number or another placeholder can merge with it
  (`Params.SubstitutionExact`, `Params.StringsExact`); a negative number behind a minus sign begins a comment
  (`Params.DashDash`); a question mark in a comment takes a parameter and a quote there hides later
  placeholders (`Params.CommentTakesParameter`, `Params.QuoteInComment`).

## Model

| member | source | states |
|---|---|---|
| `Wal.PrefixReadsWholeFrames` | src/tinydb/tx/wal.py:199-258 | for every numbered log and every byte prefix of its file, iterating yields exactly the records whose frames lie wholly inside, in order, without raising, and the recovered next number is their count plus one |
| `Wal.WholeFramesExact` | src/tinydb/tx/wal.py:199-232 | the count of whole frames is exact: the frames before it fit the prefix and the next one does not |
| `Wal.TornAppendIsInvisible` | src/tinydb/tx/wal.py:152-175 | a crash anywhere inside an append leaves a file that reads as if the append had not begun |
| `WalReopen.ScanExact` | src/tinydb/tx/wal.py:199-232 | any bytes read as given records without an error if and only if they begin with the file of those records and what remains is a torn frame or nothing |
| `WalReopen.ReopenExact` | src/tinydb/tx/wal.py:103-119 | a log torn anywhere in its last frame, reopened and appended to: the new records are read if and only if the bytes from the tear on begin with their file and end in a torn frame or nothing |
| `WalReopen.CleanReopen` | src/tinydb/tx/wal.py:103-119 | with nothing torn, or nothing appended, everything is read |
| `WalReopen.OnlyARepeatIsRead` | src/tinydb/tx/wal.py:103-119 | with something torn and something appended, it is read only if the first new frame is longer than the torn bytes and begins with them |
| `WalReopen.TornHeaderSwallows` | src/tinydb/tx/wal.py:199-232 | a torn frame whose header is complete swallows what is appended: unread until the announced length is reached, then an error or, if the checksum fits, one record made of both |
| `Wal.WAL.Append` | src/tinydb/tx/wal.py:152-175 | one frame with the next number is added, or nothing changes when a field does not fit |
| `Wal.WAL.TruncateTo` | src/tinydb/tx/wal.py:177-197 | exactly the records below the number stay and numbering goes on from it; out-of-range numbers are refused |
| `Wal.WAL.IterFrom` | src/tinydb/tx/wal.py:199-232 | the loop yields what the whole-file scan yields from the given number on, and raises exactly when it does |
| `Wal.WAL.Open` | src/tinydb/tx/wal.py:234-258 | a reopened log resumes behind the longest run of whole, consecutively numbered frames; on the file of a numbered log it is valid with exactly that log |
| `LogCodec.EntryRoundTrip` | src/tinydb/tx/recovery.py:94-141 | every log entry decodes from the record it was encoded into |
| `LogCodec.DecodesBack` | src/tinydb/tx/recovery.py:184-206 | a whole log decodes from its records |
| `LogCodec.AppendEntry` | src/tinydb/tx/manager.py:229-246 | an entry the manager logs keeps the log file equal to the manager's log, numbered, and decodable to it |
| `LogCodec.CrashMidAppend` | src/tinydb/tx/recovery.py:162-263 | crash safety down to the bytes: any run, its log file cut inside the next frame, replayed, leaves each page as the committed transactions alone would, exactly when the page is recoverable |
| `LogCodec.ReplayFileExact` | src/tinydb/tx/recovery.py:162-201 | replaying a file raises if and only if the scan meets a corrupt frame or a record that does not decode |
| `LogCodec.PageRecordExact` | src/tinydb/tx/recovery.py:94-126 | a page record decodes if and only if it is the encoding of what it decodes to |
| `Recovery.Recoverer.Run` | src/tinydb/tx/recovery.py:162-263 | the three passes compute the replay function, whatever order the pages of a pass are written in |
| `Recovery.Recoverer.Analyse` | src/tinydb/tx/recovery.py:184-206 | the scan builds the touches in first-touch order, the latest touch of each key, and each transaction's status |
| `Recovery.Recoverer.Split` | src/tinydb/tx/recovery.py:228-241 | the images sorted into REDO and UNDO |
| `Recovery.ReplayRestarts` | src/tinydb/tx/recovery.py:243-256 | for every log and disk, stopping after any prefix of the writes and replaying again gives what one replay gives |
| `Recovery.ReplayTwice` | src/tinydb/tx/recovery.py:27-28 | replay is idempotent |
| `RecoveryExact.ReplayExact` | src/tinydb/tx/recovery.py:213-256 | on any serial log, replay leaves a page as the committed transactions alone would if and only if the page is recoverable, a condition read off the log |
| `RecoveryExact.DisciplinedIsRecoverable` | src/tinydb/tx/recovery.py:198-201 | without autocommit writes, and with losers touching each page once, every page is recoverable |
| `RecoveryExact.DisciplinedPage` | src/tinydb/tx/recovery.py:162-263 | the same for one page, whatever the log holds on the others |
| `Transactions.RunKeepsInv` | src/tinydb/tx/manager.py:175-314 | every run keeps ids fresh, the log serial, first before-images exact and the running process atomic |
| `Transactions.RunningProcessIsAtomic` | src/tinydb/tx/manager.py:260-314 | between transactions the disk is exactly what the committed transactions wrote |
| `Transactions.CrashSafety` | src/tinydb/tx/recovery.py:162-263 | the process dies after any steps of any run: replay leaves each page as the committed transactions alone would if and only if the page is recoverable |
| `Transactions.DisciplinedRunsRecover` | src/tinydb/tx/manager.py:229-314 | explicit transactions, losers touching each page at most once: the whole disk is recovered |
| `Transactions.TouchedTwiceIsNotUndone` | src/tinydb/tx/recovery.py:198-198 | in any run, a page written twice by an open transaction is undone to the intermediate image |
| `Transactions.ResumedAutocommitIsLost` | src/tinydb/tx/recovery.py:224-236 | in any run, an autocommit write after a committed one to the same page can be lost |
| `Transactions.TransactionManager.Begin` | src/tinydb/tx/manager.py:175-227 | the state machine's begin; refused while a transaction is active |
| `Transactions.TransactionManager.WritePageLogged` | src/tinydb/storage/heap.py:150-164 | logs the exact before-image under the active transaction or 0, then writes |
| `Transactions.TransactionManager.Commit` | src/tinydb/tx/manager.py:260-287 | the state machine's commit, refused for a transaction that is not active |
| `Transactions.TransactionManager.Rollback` | src/tinydb/tx/manager.py:289-314 | restores every touched page to its image before the transaction |
| `BTreeInsert.InsertKeeps` | src/tinydb/index/btree.py:258-327 | insertion keeps order, uniform height, separators and occupancy, and adds the one entry in its place, through leaf, internal and root splits |
| `BTreeInsert.InsertRefinesMap` | src/tinydb/index/btree.py:258-327 | the index's map gains exactly the new key, and search finds every key accordingly |
| `BTreeInsert.InsTPages` | src/tinydb/index/btree_split.py:22-73 | every node keeps its own page and new nodes get fresh ones |
| `BTreeInsert.RoomyExact` | src/tinydb/index/btree_rebalance.py:217-242 | the room required of a page is exactly that of every merge of an underfull node |
| `BTreeChain.InsertOnlyRun` | src/tinydb/index/btree.py:258-327 | after any sequence of inserts with distinct keys: search tree, occupancy, whole leaf chain, exactly the map |
| `BTreeChain.InsertChained` | src/tinydb/index/btree_split.py:34-49 | insertion keeps the leaf chain in key order, visiting every leaf once |
| `BTreeChain.DeleteChainExact` | src/tinydb/index/btree_rebalance.py:217-242 | deletion keeps the chain if and only if it abandons no leaf or the first one |
| `BTree.FindIsLookup` | src/tinydb/index/btree.py:159-191 | descending by separators finds what is in the leaves, on every well-formed tree |
| `BTreeDeleteProof.RebalanceOk` | src/tinydb/index/btree_delete.py:145-190 | borrow or merge always finds a sibling, the result fits its pages, and entries and order stay |
| `BTreeDeleteExact.DeleteKeeps` | src/tinydb/index/btree_delete.py:35-211 | outside the internal borrow, deletion keeps every invariant, removes exactly the entry, and does nothing when it is absent |
| `BTreeDeleteExact.DeleteRefinesMap` | src/tinydb/index/btree_delete.py:35-211 | then the map loses exactly the key if it holds that row id, and search agrees for every key |
| `BTreeDeleteExact.InternalBorrowLoses` | src/tinydb/index/btree_rebalance.py:108-119 | an internal borrow always makes some other key unfindable |
| `BTreeDeleteExact.DeleteExact` | src/tinydb/index/btree_rebalance.py:86-124 | deletion leaves all other keys findable if and only if it takes no internal borrow |
| `BTreeWitness.BorrowHappens` | src/tinydb/index/btree_rebalance.py:108-119 | a concrete sound index with a whole chain, and an entry, for which it does |
| `BTreeWitness.MiddleLeafAbandoned` | src/tinydb/index/btree_rebalance.py:217-242 | a concrete sound index with a whole chain whose deletion abandons the middle leaf of three and breaks the chain |
| `BTreeTrail.PathFrom` | src/tinydb/index/btree.py:219-237 | in every reachable index, from any leaf of the tree the walk along the links ends and passes the leaves from there on in order; every other page it passes was given up with at least 62 entries |
| `BTreeWalk.OnePath` | src/tinydb/index/btree.py:219-237 | the pages decide the walk: from one leaf there is one path |
| `BTreeWalk.WalkFrom` | src/tinydb/executor/index_scan.py:51-82 | a walk over leaves in key order, from the leaf that owns the lower end, stopping early, yields the range of the whole index |
| `BTreeTrail.TrailInsert` | src/tinydb/index/btree_split.py:34-49 | insertion keeps that: a new leaf page takes its place behind the one that split, abandoned pages stay as they are |
| `BTreeTrail.TrailDelete` | src/tinydb/index/btree_rebalance.py:217-242 | deletion keeps it with the same pages in the same order |
| `BTreeOrphan.OldChainStays` | src/tinydb/index/btree_rebalance.py:217-242 | after a deletion that gave up a leaf of a whole chain, the walk still passes its page just before the leaf it was merged into, which begins with the entries on it |
| `BTreeOrphan.ScanPastDetour` | src/tinydb/executor/index_scan.py:51-82 | a scan then yields exactly the range if and only if it starts behind that page, or no key on the page is in bounds, or the scan ends on it |
| `BTreeOrphan.FullScanRepeats` | src/tinydb/index/btree.py:219-237 | a scan of everything yields every row id, and those on the abandoned page, at least 62, a second time |
| `BTreeScan.ScanAtHome` | src/tinydb/executor/index_scan.py:51-82 | in every reachable index: a scan that no abandoned page ends yields every row in bounds, in key order, and exactly them if and only if no abandoned page it reads has a key in bounds |
| `BTreeScan.ScanEndedAway` | src/tinydb/index/btree.py:219-237 | a scan that an abandoned page ends reads no leaf behind it: what it yields, and that it is right if and only if the page has exactly the rows in bounds that those leaves have |
| `BTreeScan.FullScan` | src/tinydb/index/btree.py:219-237 | a scan of everything yields every row in key order and everything on the abandoned pages it passes; it is right if and only if it passes none |
| `BTreeWitness.MissesARow` | src/tinydb/index/btree.py:193-237 | delete a key, give it to another row, scan from below up to it: the row is in the index and not in the result |
| `BTreePages.BTreeIndex.constructor` | src/tinydb/index/btree.py:110-127 | a fresh page is an empty, valid index |
| `BTreePages.BTreeIndex.FindChild` | src/tinydb/index/btree.py:146-155 | the child index is the upper bound of the key |
| `BTreePages.BTreeIndex.Descend` | src/tinydb/index/btree.py:239-256 | reaches the one leaf that owns the key: smaller keys before it, larger ones after |
| `BTreePages.BTreeIndex.Search` | src/tinydb/index/btree.py:159-191 | the row id stored under the key, or nothing |
| `BTreePages.BTreeIndex.Range` | src/tinydb/index/btree.py:193-237 | on every valid index the scan ends and yields what a walk from the owning leaf along the trail yields; with a whole chain that is exactly the row ids in bounds, in key order |
| `BTreePages.BTreeIndex.Walk` | src/tinydb/executor/index_scan.py:51-82 | the same for every combination of open, closed and missing ends |
| `BTreePages.BTreeIndex.ScanChain` | src/tinydb/executor/index_scan.py:68-82 | following the links, whatever they are, leaf after leaf, filtered, until the first leaf with a key past the upper end |
| `BTreePages.BTreeIndex.SmallestKey` | src/tinydb/executor/index_scan.py:97-110 | the first key of the leftmost leaf |
| `BTreePages.BTreeIndex.SplitLeaf` | src/tinydb/index/btree_split.py:22-49 | the two half pages, the separator, the links; both halves fit |
| `BTreePages.BTreeIndex.SplitInternal` | src/tinydb/index/btree_split.py:52-73 | the two half pages and the key pushed up; both halves fit |
| `BTreePages.BTreeIndex.InsertInto` | src/tinydb/index/btree.py:282-327 | on pages: exactly the tree insertion, touching only the subtree's pages and fresh ones |
| `BTreePages.BTreeIndex.Insert` | src/tinydb/index/btree.py:258-280 | on pages: with an absent key, validity is kept and the map gains exactly it; the chain stays whole |
| `BTreePages.BTreeIndex.DeleteFromLeaf` | src/tinydb/index/btree_delete.py:111-139 | on pages: the first matching pair leaves the leaf; absent pairs change nothing |
| `BTreePages.BTreeIndex.BorrowFromLeft` | src/tinydb/index/btree_rebalance.py:56-124 | borrows exactly when the left sibling can spare, with the pages as the tree operation leaves them |
| `BTreePages.BTreeIndex.BorrowFromRight` | src/tinydb/index/btree_rebalance.py:56-124 | the same on the right |
| `BTreePages.BTreeIndex.MergeIntoRight` | src/tinydb/index/btree_rebalance.py:194-243 | the merged node fits its page and the left page is dropped from the parent |
| `BTreePages.BTreeIndex.TryBorrowOrMerge` | src/tinydb/index/btree_delete.py:145-190 | one of the three always happens; merging never lacks a sibling |
| `BTreePages.BTreeIndex.DeleteFrom` | src/tinydb/index/btree_delete.py:35-108 | on pages: exactly the tree deletion, using no page outside the subtree; links stay, and a leaf page that is given up keeps its entries |
| `BTreePages.BTreeIndex.Delete` | src/tinydb/index/btree.py:347-389 | on pages: outside the internal borrow, validity is kept and exactly that entry goes; the chain survives exactly when no leaf with a predecessor was abandoned, and else makes the detour described above |
| `BTreeRep.LowerBoundSearch` | src/tinydb/index/btree_internal.py:74-83 | the binary search finds the first key not below |
| `BTreeRep.UpperBoundSearch` | src/tinydb/index/btree_internal.py:86-95 | the binary search finds the first key above |
| `NodeCodec.PackCells` | src/tinydb/index/btree_leaf.py:80-104 | the packing loop writes header, cells and padding, or overflows exactly when they exceed the page |
| `NodeCodec.ReadCells` | src/tinydb/index/btree_leaf.py:139-150 | the read loop gives the cells of the page, or raises when it runs off it |
| `NodeCodec.WriteLeaf` | src/tinydb/index/btree_leaf.py:66-104 | the leaf page, or overflow |
| `NodeCodec.ReadLeaf` | src/tinydb/index/btree_leaf.py:123-162 | raises exactly on a foreign type byte or cells that run off the page; else the leaf |
| `NodeCodec.WriteInternal` | src/tinydb/index/btree_internal.py:134-173 | the internal page, or overflow |
| `NodeCodec.ReadInternal` | src/tinydb/index/btree_internal.py:190-216 | raises exactly on a foreign type byte or cells that run off the page; else the node |
| `NodeCodec.LeafRoundTrip` | src/tinydb/index/btree_leaf.py:66-162 | a written leaf reads back, a zero successor becoming none |
| `NodeCodec.NodeRoundTrip` | src/tinydb/index/btree_internal.py:134-216 | a written internal node reads back |
| `NodeCodec.FitsExactly` | src/tinydb/index/btree_leaf.py:90-95 | with keys of one width, a page overflows exactly past a fixed count |
| `NodeCodec.RoomyExactly` | src/tinydb/index/btree_rebalance.py:217-242 | merged nodes are sure to fit exactly for keys of at most 24 bytes |
| `NodeSeam.PageIsNode` | src/tinydb/index/btree.py:329-345 | for keys of one width, a node's page overflows exactly when the node exceeds the capacity the index assumes, and a page that was written reads back as the node |
| `HeapPage.PutOk` | src/tinydb/storage/heap.py:214-228 | insertion into a page with room: one new slot with exactly the record, every other slot and record unchanged, no overlaps |
| `HeapPage.DropOk` | src/tinydb/storage/heap.py:241-252 | deletion empties exactly that slot |
| `HeapPage.RelinkOk` | src/tinydb/storage/heap.py:280-283 | linking changes no slot |
| `HeapPage.PutTooLong` | src/tinydb/storage/heap.py:193-228 | a longer record on a fresh page always breaks the page |
| `HeapPage.TooLongReadsBack` | src/tinydb/storage/heap.py:219-239 | such a record of up to 4084 bytes reads back if and only if its tail already equals the bytes of its slot |
| `HeapPage.TooLongIsCorrupted` | src/tinydb/storage/heap.py:219-221 | one that does not |
| `HeapPage.DroppedFrom` | src/tinydb/storage/heap.py:241-252 | a delete through a row id of another owner's page clears exactly five bytes there |
| `Heap.HeapFile.constructor` | src/tinydb/storage/heap.py:128-148 | an empty table on one fresh page, other pages untouched |
| `Heap.HeapFile.WriteLogged` | src/tinydb/storage/heap.py:150-164 | the callback sees the exact before-image first; a payload that is not one page is refused after it |
| `Heap.HeapFile.AppendOverflowPage` | src/tinydb/storage/heap.py:276-288 | the chain grows by one empty page and the table does not change |
| `Heap.HeapFile.FindRoom` | src/tinydb/storage/heap.py:196-212 | a page with room, or a fresh one exactly when no page has any |
| `Heap.HeapFile.Insert` | src/tinydb/storage/heap.py:184-228 | a fresh row id that stands for exactly the record, all others unchanged, for up to 4078 bytes; what happens beyond; every write logged with exact images |
| `Heap.HeapFile.Read` | src/tinydb/storage/heap.py:230-239 | the record of a used slot; absent for empty slots, empty records and unknown slots; on a page of another owner, the bytes there taken as a slot, or struct.error |
| `Heap.HeapFile.Delete` | src/tinydb/storage/heap.py:241-252 | exactly that slot becomes empty; unknown slots change nothing; on a page of another owner the table stays and five bytes are cleared |
| `Heap.HeapFile.Scan` | src/tinydb/storage/heap.py:254-264 | exactly the row ids in use, each once; the chain walk ends |
| `Heap.SlotsAreNeverReused` | src/tinydb/storage/heap.py:184-264 | in every run a row id reads its record until removed and is empty for ever after |
| `HeapTx.HeapRuns` | src/tinydb/storage/heap.py:150-164 | the heap's traced writes are a run of the transaction manager: the same pages, every write logged with its exact images |
| `HeapTx.CommittedSurvives` | src/tinydb/tx/recovery.py:162-263 | in any run, a heap operation in a committed transaction: a crash leaves each of its pages as it left them, if the page was written only by explicit transactions and once by each that did not commit |
| `HeapTx.OpenIsUndone` | src/tinydb/tx/recovery.py:162-263 | the process dies anywhere inside the transaction: a page the operation writes at most once is as before |
| `HeapTx.InsertInTransaction` | src/tinydb/storage/heap.py:184-228 | so an inserted record is in the table after a crash behind the commit, and the table is the old one after a crash anywhere before it, overflow pages included |
| `HeapTx.FirstRecordStays` | src/tinydb/tx/recovery.py:198-198 | in any run, two records put on an untouched page by a transaction that does not commit: the crash leaves the first |
| `Pager.HeaderRoundTrip` | src/tinydb/storage/pager.py:183-241 | a stamped header page reads back and keeps its other bytes |
| `Pager.HeaderExact` | src/tinydb/storage/pager.py:183-213 | a page is read as a header if and only if its first 24 bytes are that header's |
| `Pager.PagerFile.constructor` | src/tinydb/storage/pager.py:161-181 | a new file: four reserved pages, empty free list, readable header |
| `Pager.PagerFile.Reopen` | src/tinydb/storage/pager.py:183-209 | after any operations the header on disk gives the same page count, free head and LSN |
| `Pager.PagerFile.AllocatePage` | src/tinydb/storage/pager.py:393-421 | a zeroed, non-reserved page that nobody holds; every other page unchanged |
| `Pager.PagerFile.FreePage` | src/tinydb/storage/pager.py:423-449 | a held page goes to the front of the list; the list stays finite if and only if the page was not free already |
| `Pager.PagerFile.WritePage` | src/tinydb/storage/pager.py:345-391 | the page is written, the header fields protected, the file extended with zeroed pages; the pager stays sound if and only if the page was not free or its link bytes stay; a page count the header cannot hold raises with the file extended under its old header |
| `Pager.PagerFile.ExtendTo` | src/tinydb/storage/pager.py:464-474 | new pages are zeroed and held |
| `Pager.PagerFile.SetLastLsn` | src/tinydb/storage/pager.py:300-312 | the LSN only grows and reaches the header; negative ones are refused, and one of 2^32 or more stays in memory while the file keeps the old one |
| `Pager.DoubleFree` | src/tinydb/storage/pager.py:443-449 | after a double free no finite list starts at the head |
| `Pager.WriteToFreePage` | src/tinydb/storage/pager.py:345-391 | writing to a free page keeps the list if and only if the link bytes stay |
| `RwLock.EveryStateIsSafe` | src/tinydb/concurrent/rwlock.py:80-146 | in every state of every run, with any threads and timeouts: counters exact, readers and a writer never together, and an un-notified sleeper has a holder or an awake writer to wait for |
| `RwLock.EntryIsExclusive` | src/tinydb/concurrent/rwlock.py:80-137 | a reader enters only with no writer inside `acquire_write`, a writer only with nobody holding |
| `RwLock.FreeLockIsTaken` | src/tinydb/concurrent/rwlock.py:103-146 | from a free lock with sleepers, an awake writer takes it next, or every sleeper is an awake reader that gets in |
| `RwLock.WokenBefore` | src/tinydb/concurrent/rwlock.py:80-146 | in every run, behind every second look at the lock there is a step that freed it or woke the thread, and the thread did nothing since |
| `RwLock.OversleepingBegins` | src/tinydb/concurrent/rwlock.py:114-137 | a step makes a reader sleep on with nothing to wait for if and only if the last waiting writer gives up while no writer holds and that reader sleeps un-notified |
| `RwLock.OversleepingEnds` | src/tinydb/concurrent/rwlock.py:80-146 | and a step ends it if and only if it wakes that reader, is the last reader's release, or brings a writer to wait for |
| `RwLock.OversleepsExactly` | src/tinydb/concurrent/rwlock.py:80-146 | over all runs: a reader oversleeps if and only if a writer gave up that way earlier and no step since was one of those three |
| `RwLock.NoTimeoutNoOversleeping` | src/tinydb/concurrent/rwlock.py:114-137 | never, if no writer times out |
| `RwLock.ReaderOversleeps` | src/tinydb/concurrent/rwlock.py:114-137 | a run in which it happens |
| `LockGuard.GuardRunIsSafe` | src/tinydb/tx/lock.py:60-109 | every run keeps the guard's table, the lock's owner and the acquire counts in agreement |
| `LockGuard.FreedExactlyWhenBalanced` | src/tinydb/tx/lock.py:60-109 | a thread holds the lock exactly while its acquires outnumber its releases, and the balancing release gives it back |
| `LockGuard.OneOwner` | src/tinydb/tx/lock.py:60-94 | two threads never both have frames |
| `LockGuard.EverybodyCanMove` | src/tinydb/tx/lock.py:30-125 | in every reachable state no thread is stuck between the table and the lock: awake it finishes, asleep it can be woken and looks again |
| `Deadlock.AddEdgeExact` | src/tinydb/concurrent/deadlock.py:47-49 | on an acyclic graph a new wait closes a cycle if and only if the holder's walk reaches the waiter |
| `Deadlock.DeadlockDetector.Remove` | src/tinydb/concurrent/deadlock.py:51-58 | exactly the edges that involve the transaction go |
| `Deadlock.DeadlockDetector.DfsCycle` | src/tinydb/concurrent/deadlock.py:85-106 | terminates; reports nodes all on a cycle, including the start if it is on one; None only when the walk ends |
| `Deadlock.DeadlockDetector.DetectCycle` | src/tinydb/concurrent/deadlock.py:66-81 | exactly the greatest id on any cycle when that is positive, else None |
| `Deadlock.DeadlockDetector.WouldDeadlock` | src/tinydb/tx/manager.py:197-208 | run without interruption, on any graph: a victim if and only if the new wait closes a cycle with a positive id; a fresh id leaves the graph as it was |
| `BeginRace.CycleAppearsExactly` | src/tinydb/tx/manager.py:197-208 | of all steps of all threads, exactly an added wait whose holder waits for its waiter makes the graph cyclic |
| `BeginRace.RaisedExactly` | src/tinydb/tx/manager.py:175-227 | over all runs of any threads: a search raises if and only if such a wait was added before and no step since removed a transaction of the loop it closed or gave one another edge |
| `BeginRace.FreshIdsNeverRaise` | src/tinydb/tx/manager.py:197-208 | never, if no thread adds its wait with an id that was handed out meanwhile |
| `BeginRace.OneThreadNeverDeadlocks` | src/tinydb/tx/manager.py:175-227 | one thread alone never sees the error, however its calls nest |
| `BeginRace.RaceRaises` | src/tinydb/tx/manager.py:197-208 | a run of two threads in which it is raised |
| `BeginRace.NestedBeginIsChecked` | src/tinydb/tx/manager.py:197-227 | a run in which the check adds, searches and removes an edge and the attempt is refused as nested |
| `BeginRace.OwnersOnly` | src/tinydb/tx/manager.py:209-227 | in every run a transaction is ended by the thread that holds the lock for it, and begun with the next id only when nobody does |
| `JoinLayout.PositionsAreExact` | src/tinydb/executor/join.py:70-125 | at every depth each alias.column has its true slot, each bare name the leftmost one, and the offset is the true width |
| `Join.NestedLoop` | src/tinydb/executor/join.py:169-193 | the loops yield each left row's matches, or the padded row; an ON name that no column has raises exactly when both sides have rows |
| `JoinSlots.PlanResolves` | src/tinydb/executor/eval_expr.py:55-68 | in every well-named plan `alias.column` is that column, a bare name the leftmost column of the name, and nothing if and only if there is none |
| `JoinSlots.ResolvableExact` | src/tinydb/executor/eval_expr.py:60-68 | ON raises if and only if one of its names is no column's |
| `JoinSlots.NestedExact` | src/tinydb/executor/join.py:169-193 | with aliases in ON or without: exactly the pairs with equal values in the columns meant, and in a LEFT join the left rows without one padded, all in order |
| `Join.Probe` | src/tinydb/executor/join.py:265-274 | one index probe yields the fetched rows that satisfy ON, or the padded row |
| `Join.IndexedLoop` | src/tinydb/executor/join.py:257-279 | the loop over left rows, NULL keys never looked up |
| `JoinProof.NodeExact` | src/tinydb/executor/join.py:169-279 | one node: both operators yield the same rows up to order if and only if no NULL key on the left meets one on the right (or padding hides it) |
| `JoinDeep.IndexesDoNotMatter` | src/tinydb/executor/physical.py:86-124 | a left-deep tree of any depth yields the same multiset whichever nodes use an index |
| `JoinDeep.NoNullKeysIsClean` | src/tinydb/executor/join.py:236-279 | right key columns without NULL are enough for that |
| `JoinSwapped.KeySlotIs` | src/tinydb/executor/join.py:345-391 | with the sides swapped the key comes from the leftmost left column with the right column's name; there is none, and no row comes out, exactly when a name is missing |
| `JoinSwapped.SwappedExact` | src/tinydb/executor/join.py:236-391 | the indexed join then agrees with the nested loop on all data without right NULL keys if and only if the column meant is the leftmost left column with that name |
| `JoinSwapped.SwappedTree` | src/tinydb/executor/physical.py:86-124 | on top of sound joins of any depth, such a join yields the rows that nested loops yield throughout, up to order, when that column is meant |
| `JoinSwapped.PlannedJoin` | src/tinydb/executor/physical.py:139-198 | for an ON between a left and a right column the planner emits the indexed join of one of the two theorems if and only if the right column is indexed |
| `JoinDeep.BareOnTheRight` | src/tinydb/executor/join.py:372-379 | a bare left reference that is no left column: the indexed join yields nothing, whatever pairs the nested loop finds |
| `JoinSwapped.DifferentNamesGoWrong` | src/tinydb/executor/join.py:345-391 | so with two different names some data always comes out wrong |
| `JoinSwapped.SwappedExamples` | src/tinydb/executor/physical.py:139-198 | both ways of going wrong occur |
| `JoinDeep.LeftJoinKeepsRows` | src/tinydb/executor/join.py:191-193 | where the nested loop yields at least one row per left row |
| `JoinDeep.SoundRuns` | src/tinydb/executor/physical.py:86-124 | a sound plan's index entries name rows of its tables |
| `IndexPlan.PassingRowsFit` | src/tinydb/executor/index_plan.py:41-95 | a row that passes a column-first AND tree has a key, and the extracted record is true of it |
| `IndexPlan.TruthSetIs` | src/tinydb/executor/eval_expr.py:39-133 | an AND tree over one column, literals on either side, is true exactly of the non-NULL keys in one interval |
| `IndexPlan.SelectionExact` | src/tinydb/executor/planner.py:364-401 | for every clause: the index is used if and only if the clause is an AND tree of comparisons of one indexed column with literals, and then Filter over the index scan agrees with Filter over the table scan on every table if and only if the truth interval lies in the scanned one, both read off the clause |
| `IndexPlan.Select` | src/tinydb/executor/planner.py:181-192 | the single-table query run, for every clause, table and set of indexes: the right rows if and only if no passing row's key is outside the scanned interval of an index that is used; without one, in table order |
| `IndexPlan.GoodShapesKeepMeaning` | src/tinydb/executor/planner.py:364-401 | a scan that starts at an equality or lower end and ends nowhere, at an upper end or at an equality is always right, whatever NULLs there are |
| `IndexPlan.RangesAreExact` | src/tinydb/executor/index_plan.py:79-132 | any lower bounds, alone or with any upper bounds in either order: the scanned interval is the truth interval |
| `IndexPlan.BadShapes` | src/tinydb/executor/planner.py:383-401 | upper bounds alone never are; an equality before a lower bound, and an upper bound before an equality, exactly when the values say so |
| `IndexPlan.ExtractsExactly` | src/tinydb/executor/index_plan.py:41-72 | of all clauses exactly the AND trees of comparisons of one column with literals, on either side, are taken for the index |
| `IndexPlan.NotTaken` | src/tinydb/executor/index_plan.py:41-72 | OR, NOT, IS NULL, IS NOT NULL, `!=`, arithmetic, NULL or a second column anywhere keeps the index out |
| `IndexPlan.ScannedIs` | src/tinydb/executor/index_plan.py:79-132 | the bounds that extraction and merging hand to the index are the scanned interval |
| `IndexPlan.LiteralFirst` | src/tinydb/executor/index_plan.py:66-72 | a literal on the left is extracted with its operator unturned, and the scan is right on every table if and only if the operator is `=`, `<` or `<=` |
| `IndexPlan.LiteralFirstLoses` | src/tinydb/executor/index_plan.py:66-72 | for `>` and `>=` it misses every row that passes, but for the literal itself under `>=` |
| `IndexPlan.ScanCovers` | src/tinydb/executor/index_scan.py:35-82 | an index that agrees with the heap yields exactly the rows with a key in bounds |
| `IndexPlan.ScanIsRange` | src/tinydb/executor/index_scan.py:35-82 | and that scan is the range the B-tree yields |
| `Expressions.Filter` | src/tinydb/executor/ops.py:150-168 | exactly the rows of the clause's set, at increasing places |
| `Expressions.EvalIs` | src/tinydb/executor/eval_expr.py:39-133 | on every row every expression has the one value that its parts' values give it |
| `Expressions.TruthIs` | src/tinydb/executor/eval_expr.py:34-36 | a row passes a clause if and only if it is in the clause's set |
| `Expressions.TruthLaws` | src/tinydb/executor/eval_expr.py:80-147 | those sets: AND is intersection, OR union, NOT complement; IS NULL, IS NOT NULL, `=` and `!=` are decided on every row, NULLs included |
| `IndexPlan.IndexScan` | src/tinydb/executor/ops.py:104-135 | the rows behind the scanned row ids, in order |
| `Rows.FetchIsFilter` | src/tinydb/executor/ops.py:131-135 | fetching the row ids that satisfy a test is filtering the heap, up to order |
| `BufferPool.RecentByLastTouch` | src/tinydb/storage/buffer_pool.py:94-155 | the recency list is the distinct pages of the trace in the order of their last touches |
| `BufferPool.Pool.Fetch` | src/tinydb/storage/buffer_pool.py:94-131 | the last value written whatever was evicted; the cache is the last `capacity` distinct pages; a hit exactly when cached |
| `BufferPool.Pool.Write` | src/tinydb/storage/buffer_pool.py:133-155 | the logical view changes at that page only; recency and coherence stay |
| `BufferPool.Pool.MarkDirty` | src/tinydb/storage/buffer_pool.py:157-164 | no touch; refused exactly when not cached |
| `BufferPool.Pool.FlushAll` | src/tinydb/storage/buffer_pool.py:166-172 | afterwards the disk is the logical view and nothing is dirty |
| `BufferPool.Pool.MakeRoom` | src/tinydb/storage/buffer_pool.py:190-199 | the oldest page leaves a full cache, written back if dirty, and the view stays |
| `Params.SubstituteParams` | src/tinydb/server/handler.py:77-116 | the loop computes the two-mode substitution and uses as many parameters as there are placeholders, at most all |
| `Params.CountPlaceholders` | jdbc/src/main/java/org/tinydb/jdbc/TinyPreparedStatement.java:44-64 | on every SQL string the driver's count is the number of placeholders the server would consume |
| `Params.CountIsTokens` | src/tinydb/sql/tokens.py:182-210 | which is the number of placeholder tokens, when comments hold neither quotes nor question marks |
| `Params.ReadDoubled` | src/tinydb/server/handler.py:65-74 | a formatted string reads back as exactly the parameter unless a quote follows |
| `Params.SubstitutionExact` | src/tinydb/server/handler.py:65-116 | for strings, numbers and names, and comments without quotes and question marks: substitution commutes with tokenizing if and only if no token and no parameter runs into what follows it |
| `Params.StringsExact` | src/tinydb/server/handler.py:77-116 | with strings only: if and only if no placeholder touches a quote or another placeholder |
| `TokenGrammar.LexExact` | src/tinydb/sql/tokens.py:121-300 | the tokenizer yields these tokens if and only if the text is cut into blanks, comments and their spellings, each as long as can be, and raises if and only if there is no cut |
| `TokenGrammar.QuietExact` | src/tinydb/sql/tokens.py:146-178 | comments are quiet if and only if no gap of the cut holds a quote or a question mark |
| `Params.DashDash` | src/tinydb/sql/tokens.py:146-150 | a negative number behind a minus sign: the rest of the line is gone |
| `Params.CommentTakesParameter` | src/tinydb/server/handler.py:108-112 | a question mark in a comment takes a parameter, and the statement gets the next one |
| `Params.QuoteInComment` | src/tinydb/server/handler.py:91-107 | a quote in a comment hides the placeholders behind it |
| `Params.NothingLeft` | src/tinydb/sql/tokens.py:298-299 | with enough parameters no placeholder is left for the tokenizer to refuse |
| `Session.Server.Connect` | src/tinydb/server/session.py:43-48 | a new session has not shaken hands and holds nothing |
| `Session.Server.Handle` | src/tinydb/server/session.py:66-101 | for every frame of every session, as the server's machine steps: nothing before HELLO, BEGIN granted exactly when nobody has a transaction and refused with state and lock depth unchanged, COMMIT and ROLLBACK end one's own only; the reply to every message in every state: PONG exactly to PING, a result exactly to a statement after HELLO, an error that ends the connection exactly to HELLO or an unhandled frame after it |
| `Session.Server.HandleBegin` | src/tinydb/server/session.py:105-116 | the BEGIN part of the above |
| `Session.Server.EndOwn` | src/tinydb/server/session.py:118-155 | the session's own transaction ends, the lock is free, other sessions stay |
| `Session.Server.Disconnect` | src/tinydb/server/session.py:199-206 | the owner's disconnection leaves no active transaction and a free lock |
| `Session.Server.ManagerBegin` | src/tinydb/tx/manager.py:209-227 | a nested attempt gives its lock level back |
| `Session.RunTakesTurns` | src/tinydb/server/session.py:66-206 | in every run of the server, whatever sessions send and whenever they leave: grants and endings take turns, each ends what its own session was granted, grants are numbered from 1, and the lock is held exactly between the two |
| `Session.GrantsApart` | src/tinydb/server/session.py:105-155 | between two granted BEGINs the first one's session ended its transaction |
| `Frames.FrameRoundTrip` | src/tinydb/protocol/frame.py:80-122 | a frame decodes from its bytes |
| `Frames.CodecExact` | src/tinydb/protocol/frame.py:80-123 | a frame is encoded if and only if its payload is below 2^24 bytes; bytes decode to a frame if and only if they begin with its encoding |
| `Frames.MalformedExactly` | src/tinydb/protocol/codec.py:152-175 | malformed is exactly a complete header whose first byte is not zero |
| `Layouts.WireFrame` | src/tinydb/protocol/frame.py:80-97 | the fields of a frame by their byte numbers |
| `Layouts.LogFrame` | src/tinydb/tx/wal.py:152-175 | those of a log frame |
| `Layouts.LogRecords` | src/tinydb/tx/recovery.py:128-141 | the type codes and payloads of log records |
| `Layouts.FileHeader` | src/tinydb/storage/pager.py:60-84 | those of the file header |
| `Layouts.BlankHeapPage` | src/tinydb/storage/heap.py:81-146 | those of an empty heap page |
| `Layouts.LeafPage` | src/tinydb/index/btree_leaf.py:66-108 | those of a leaf page and its first entry |
| `Layouts.InternalPage` | src/tinydb/index/btree_internal.py:134-175 | those of an internal page and its first key |
| `Frames.DecodeAppend` | src/tinydb/protocol/codec.py:153-175 | for every byte stream, later bytes only continue from what was left |
| `Frames.RestIsShort` | src/tinydb/protocol/codec.py:164-172 | what stays buffered never holds a whole frame |
| `Frames.DecodePrefix` | src/tinydb/protocol/codec.py:153-175 | of a stream of valid frames cut anywhere, exactly the whole ones are delivered and a proper prefix of the next stays buffered |
| `Frames.AnyChunking` | src/tinydb/client/sync.py:162-182 | any chunking of any list of valid frames delivers exactly that list and leaves nothing |
| `Frames.FrameReader.Feed` | src/tinydb/protocol/codec.py:153-175 | one frame, more needed, or malformed, with the buffer cut accordingly |
| `Frames.FrameReader.Drain` | src/tinydb/client/sync.py:176-180 | feed and drain deliver the frames of buffer and chunk |
| `Frames.FrameReader.DrainAll` | src/tinydb/client/sync.py:162-182 | over any chunks: the frames of the whole stream, up to the first malformed one |
| `Frames.FrameReader.ServeOne` | src/tinydb/server/session.py:171-194 | header then body gives the stream's next frame and leaves the buffer empty |

## Left out

- The user interface, sockets, asyncio and client reconnection, the SQL grammar and DDL, aggregates, sorting and message payloads: easier members.
- fsync, process locks, crashes inside one page write, and I/O errors: a crash keeps every completed write. CRC-32 is a function parameter of which nothing is assumed.
- Value encoding: index keys and column values are integers, ordered as such; `NodeCodec` takes keys already encoded. Division is left out of expressions. Composite keys, prefix ranges and type errors in comparisons are not modelled.
- BTreePages.BTreeIndex.Insert: promises validity and the map only for an absent key, which is what unique indexes enforce; equal keys left of a separator are never visited by the descent.
- Reopening an index, and the index after a rollback: index pages are not logged and the catalog keeps the first root.
- Which sound indexes a run of inserts and deletes reaches: `BTreeWitness` gives sound indexes, not the runs that lead to them.
- Transactions that allocate pages: the runs of `Transactions` write pages that exist, so `HeapTx.InsertInTransaction` finds the zeroed page it may take on the disk already.
- BTreePages.BTreeIndex.AllocatePage: a counter that only grows, as in the heap; `Pager.PagerFile.AllocatePage` states what the real allocator gives. Page ids stay below 2^32 - 1.
- The free-space map of the heap is bookkeeping that no operation reads.
- Snapshots in the page cache and SERIALIZABLE mode: a snapshot that finds a page stale drops it even when dirty.
- `LSN` values and positions inside the replayed log: replay depends only on the order of the records.
- Transactions across restarts, where ids start again at 1: one process lifetime is modelled.
- BeginRace.RaisedExactly: each search of the graph is one step; a dictionary changed by another thread while it is searched is not modelled.
- Threads that release a read lock they do not hold, and one thread's steps inside a critical section: the lock's steps are atomic, as the condition's mutex makes them.
- JoinDeep.IndexesDoNotMatter: join trees whose right side is a join, and ON clauses other than an equality of two columns, are left out; the planner never picks the index there. Nor is an ON between two columns of the right table.
- `FrameReader.read_frame`, which pulls bytes one at a time from a stream; the two loops that the client and the server use are modelled.
- Params.SubstitutionExact: numbers are digits with at most one point and a sign; floats in exponent notation, infinities and not-a-numbers are several tokens by themselves and are not modelled, nor are token positions. Comments with quotes or question marks are left to the three lemmas about them.
- Commits that fail on I/O, and statements dispatched by one session while another holds the transaction: what the database does with a dispatched statement is not part of `Session`.
