# Verified model of the storage engine and the message codec

The repository vendors two pieces of real machinery: LevelDB, a log-structured key-value store, and
nanopb, a descriptor-driven protobuf codec. This project models both in Dafny and proves that each fast
structure agrees with a simple one.

The simple object of the storage engine is a set of entries (user key, sequence number, put or deletion,
value), in module `DbFormat`: `Visible` is the newest entry of a key at or below a snapshot, and `Read` is
what a client gets. User keys are given by their rank in the comparator's order. Everything else is a layer
over it.

- Engine protocol. `Recovery` is a state machine of write-ahead log, memtable switch, flush, compaction,
  manifest writes, file deletion, crash and recovery, and `ClientView` says what its runs look like to a
  client; `GroupCommit` is the writer queue; `WriteBatch` is the byte form of an update and its way into the
  memtable.
- Versions and compaction. `Version` and `CompactionInputs` choose files, `CompactionWork` merges them and
  drops entries, `OutputCuts` says where its output files end, `VersionBuilder` and `Install` produce the next version, `Lookup` searches level by level,
  `LayerSteps` and `CompactionSteps` show that every step keeps the order between the layers, `Engine` puts
  the pieces into one object. `CompactionGap` is a compaction that changes a read, `GapRun` the steps that
  lead to it, and `CompactionRecovery` ties the merges of the engine to those of the recovery protocol.
  `VersionEdit` and `Manifest` are the on-disk form of edits and its replay.
- Iterators. `DBIter`, `Merger`, `Table` and `Block` are cursors that change direction, each proved to move
  like a cursor over one sorted sequence.
- On-disk formats. `Coding`, `Block`, `Separator`, `Table`, `Bloom`, `FilterBlock`, `Log` and `Crc32c`, over
  the machine words of `Bits`.
- In-memory structures. `SkipList` with concurrent readers, `HandleTable` and `Cache`.

The codec is in `PbCommon` (descriptors, values, the field iterator), `PbEncode`, `PbDecode`, `PbFields`
(what a decoder does with each field of an input) and `PbRoundTrip`. A message is a tree of values indexed by its descriptor: each field has the list of its
present values.

Code that works step by step is an imperative method or a class, proved against a function of its input or
of an abstract value; the properties are then lemmas about that function. Protocols whose steps interleave
are state machines with an invariant over all runs.

## Findings

- `SetupOtherInputs` adds boundary files on the input level only. A file of the next level that is left out
  although it continues a user key of the inputs can then hold a value that a dropped deletion marker no
  longer hides. `CompactionGap.NextLevelGapBringsBackDeletedValue` gives such a layout and `GapRun.GapArises`
  the compaction, flush and compaction that lead to it and past it. `CompactionWork.ReadsPreservedExactly`
  and `CompactionSteps.CompactionPreservesReadsExactly` say exactly when a merge preserves reads, and
  `CompactionSteps.CompactionPreservesReads` shows that closing the boundary on the next level too is enough.
- The same gap bounds what a crash leaves readable: the runs of `Recovery` are those whose compactions preserve
  reads. `CompactionRecovery.MergePreservesExactly` says which compactions of the engine these are,
  `CompactionRecovery.ClosedMergePreserves` gives a condition that can be checked before the merge, and
  `CompactionRecovery.GapMergeIsNotPreserving` shows that the code also performs others.
- `VersionEdit::Clear` leaves the compaction pointers in place, so decoding into a used edit appends to them
  (`VersionEdit.VersionEdit.Clear`, `VersionEdit.VersionEdit.DecodeFrom`). Every caller decodes into a new edit.
- The comment in `db_iter.cc` that a reversed inner iterator stands just before all entries of the current
  key is not exact: it may stand before entries too new for the snapshot as well. The model follows the code.
- `VersionSet::Recover` raises the next file number past the log numbers and then overwrites it with the
  manifest's next file number plus one (`Manifest.VersionSet.Recover`). `Manifest.Reopen` shows that no
  log number is lost by that, because every edit is logged with a next file number above its log number.
- `pb_field_iter_find` compares before it looks for the end of the table, so in a message type without fields
  the field number 0 matches the terminator: instead of being skipped, such a field is read as a boolean
  (`PbCommon.FieldIter.Find`, `PbDecode.ReadMessage`).
- The shift counter of `pb_decode_varint32` is a `uint_fast8_t`. With eight bits it starts over after 37 groups,
  so a bit behind that many empty groups is not refused as too large (`PbDecode.LongVarintWraps`).

## Model

| member | source | states |
|---|---|---|
| `DbFormat.RankEmbedsCompare` | ThermoCheck/Pods/leveldb-library/util/comparator.cc:25-27 | Comparing byte strings agrees in both directions with comparing their ranks, and equal ranks mean equal strings, so a user key may be stood for by its rank |
| `DbFormat.NewestIsVisible` | ThermoCheck/Pods/leveldb-library/db/dbformat.h:53-65 | With unique sequence numbers the newest entry at or below a snapshot is the one a read sees |
| `DbFormat.SearchFindsNewest` | ThermoCheck/Pods/leveldb-library/db/memtable.cc:100-134 | A seek to (key, snapshot) in one sorted run finds the newest visible entry of the key, or shows that the run has none |
| `DbFormat.LastOperationIsRead` | ThermoCheck/Pods/leveldb-library/db/write_batch.cc:115-137 | Once a batch is in, the last operation of a key decides every later read of it: the value of a put, nothing after a deletion |
| `Version.FindFile` | ThermoCheck/Pods/leveldb-library/db/version_set.cc:88-109 | The binary search returns exactly the boundary between files that end before the key and files that do not |
| `Version.SomeFileOverlapsRange` | ThermoCheck/Pods/leveldb-library/db/version_set.cc:111-157 | The scan used on level 0 and the binary search used below both decide exactly whether some file reaches into the range |
| `CompactionInputs.GetOverlappingInputs` | ThermoCheck/Pods/leveldb-library/db/version_set.cc:519-559 | Returns the overlapping files; at level 0 the restarting scan ends with a closed range and the least closed set of files |
| `CompactionInputs.FindSmallestBoundaryFile` | ThermoCheck/Pods/leveldb-library/db/version_set.cc:1341-1357 | Finds the smallest file that starts after the key and shares its user key, exactly when there is one |
| `CompactionInputs.AddBoundaryInputs` | ThermoCheck/Pods/leveldb-library/db/version_set.cc:1374-1401 | Ends with no remaining file that starts after, and shares a user key with, the largest input key; adds nothing when that held already; keeps a run a run |
| `CompactionInputs.SetupOtherInputs` | ThermoCheck/Pods/leveldb-library/db/version_set.cc:1403-1462 | The next-level inputs are exactly the files overlapping the level inputs; the level inputs are the start files closed at their boundary, and grow to all files in the range of both levels exactly when that is more files, stays under the limit and reaches no more files of the next level |
| `CompactionInputs.GrowInputs` | ThermoCheck/Pods/leveldb-library/db/version_set.cc:1418-1449 | The larger inputs are everything the level has in the range of both levels, closed at the boundary, and are taken exactly when they read as many next-level files and stay under the limit |
| `CompactionInputs.PickCompaction` | ThermoCheck/Pods/leveldb-library/db/version_set.cc:1270-1318 | The start file is the first after the compaction pointer, wrapping around, or the file charged with seeks; at level 0 it comes with the least closed set of files around it |
| `CompactionInputs.CompactRange` | ThermoCheck/Pods/leveldb-library/db/version_set.cc:1464-1500 | Nothing to do exactly when no file reaches into the range; above level 0 the shortest prefix of the files in it that holds enough bytes; at level 0 the least closed set of files that covers it |
| `CompactionInputs.PickLevelForMemTableOutput` | ThermoCheck/Pods/leveldb-library/db/version_set.cc:491-516 | A flushed table sinks past a level only if it overlaps nothing there and in the level below and not too much two below, and as deep as that allows |
| `CompactionWork.Compaction.IsBaseLevelForKey` | ThermoCheck/Pods/leveldb-library/db/version_set.cc:1533-1552 | The advancing cursors give the stateless answer "no deeper file covers this key" on every non-decreasing key sequence |
| `CompactionWork.Compaction.ShouldStopBefore` | ThermoCheck/Pods/leveldb-library/db/version_set.cc:1554-1576 | Stops exactly when the grandparent bytes passed since the last stop exceed the limit, counting each file once |
| `CompactionWork.SurvivorsExactly` | ThermoCheck/Pods/leveldb-library/db/db_impl.cc:940-970 | An input entry is kept exactly if it is neither hidden by a newer one at or below the smallest snapshot nor an obsolete deletion marker |
| `CompactionWork.DroppedExactly` | ThermoCheck/Pods/leveldb-library/db/db_impl.cc:940-970 | Over the whole sorted input an entry is dropped exactly if some newer entry of its key is at or below the smallest snapshot, or it is itself a deletion at or below it whose key no file two or more levels down reaches |
| `CompactionWork.CompactionState.DoCompactionWork` | ThermoCheck/Pods/leveldb-library/db/db_impl.cc:901-999 | One pass over the sorted input writes exactly the surviving entries, in order, into well-formed output files with fresh numbers; an output ends when it reaches the size limit or before an input key by which too many grandparent bytes have been passed, and only then |
| `OutputCuts.CountedNext` | ThermoCheck/Pods/leveldb-library/db/version_set.cc:1554-1576 | The running count of grandparent bytes is the bytes of the files passed between the key the count started from and the current one, and starts again after a stop |
| `OutputCuts.RoundKeepsCut` | ThermoCheck/Pods/leveldb-library/db/db_impl.cc:907-995 | A round of the loop keeps: outputs are below the size limit before their last entry, none goes on past a stop, and each that is closed ended at the limit or for a stop |
| `CompactionWork.ReadsPreservedExactly` | ThermoCheck/Pods/leveldb-library/db/db_impl.cc:940-970 | Reads of a key at every snapshot the merge must honour are unchanged if and only if no dropped deletion marker uncovers an older value outside the inputs |
| `LayerSteps.InsertKeepsInv` | ThermoCheck/Pods/leveldb-library/db/memtable.cc:75-98 | A write under the next sequence number keeps the order between layers and adds exactly its entry |
| `LayerSteps.FlushKeepsInv` | ThermoCheck/Pods/leveldb-library/db/db_impl.cc:535-566 | Installing the flushed table at the level picked for it keeps the order between layers and changes no contents |
| `Install.LogAndApply` | ThermoCheck/Pods/leveldb-library/db/version_set.cc:801-884 | Building the next version gives, level by level, exactly the files left after deletions plus the added ones, in order |
| `Install.MoveKeepsInv` | ThermoCheck/Pods/leveldb-library/db/db_impl.cc:719-739 | A trivial move keeps the order between layers and changes no contents |
| `CompactionSteps.InstallKeepsLayered` | ThermoCheck/Pods/leveldb-library/db/db_impl.cc:860-876 | Installing compaction outputs keeps "memtable newer than immutable, newer than level 0 by file number, newer than each deeper level" |
| `CompactionSteps.ContentsAcrossCompaction` | ThermoCheck/Pods/leveldb-library/db/db_impl.cc:878-1000 | The database before and after is the inputs, respectively their survivors, together with the same untouched rest |
| `CompactionSteps.CompactionPreservesReads` | ThermoCheck/Pods/leveldb-library/db/db_impl.cc:878-1000 | Every key reads the same at every snapshot at or above the smallest one, provided the next level has no file left out that continues a user key of its inputs |
| `CompactionSteps.CompactionPreservesReadsExactly` | ThermoCheck/Pods/leveldb-library/db/db_impl.cc:878-1000 | The whole database reads a key the same before and after, at every snapshot at or above the smallest one, if and only if no deletion the compaction drops uncovers an older value of the key outside its inputs |
| `CompactionGap.NextLevelGapBringsBackDeletedValue` | ThermoCheck/Pods/leveldb-library/db/version_set.cc:1403-1410 | A concrete layout, inputs picked as the code picks them, where a deleted value is read again after compaction because boundary files are added on the input level only |
| `GapRun.GapArises` | ThermoCheck/Pods/leveldb-library/db/version_set.cc:1403-1410 | The engine gets there: a compaction under an old snapshot whose output is cut between two versions of one key, a flush, and the compaction that brings the deleted value back |
| `CompactionRecovery.MergePreservesExactly` | ThermoCheck/Pods/leveldb-library/db/db_impl.cc:878-1000 | A compaction of the engine is one that the recovery protocol admits if and only if no deletion it drops uncovers an older value outside its inputs |
| `CompactionRecovery.ClosedMergePreserves` | ThermoCheck/Pods/leveldb-library/db/db_impl.cc:878-1000 | Every compaction whose next-level inputs leave no boundary file out is one that the recovery protocol admits |
| `CompactionRecovery.GapMergeIsNotPreserving` | ThermoCheck/Pods/leveldb-library/db/version_set.cc:1403-1410 | The compaction that brings a deleted value back is one that the protocol does not admit |
| `Lookup.GetFromLevel0` | ThermoCheck/Pods/leveldb-library/db/version_set.cc:347-362 | Searching the covering files of level 0 newest first and stopping at the first hit returns the newest visible entry of the level |
| `Lookup.GetFromLevel` | ThermoCheck/Pods/leveldb-library/db/version_set.cc:363-381 | Binary search and one file are enough to answer for a whole level above 0 |
| `Lookup.GetFromVersion` | ThermoCheck/Pods/leveldb-library/db/version_set.cc:326-421 | Stopping at the first level that knows the key returns the newest visible entry over all levels |
| `Lookup.Get` | ThermoCheck/Pods/leveldb-library/db/db_impl.cc:1100-1145 | Memtable, immutable memtable and version with early exit give the read over all entries at that snapshot |
| `Engine.DBImpl.Get` | ThermoCheck/Pods/leveldb-library/db/db_impl.cc:1100-1145 | A read at a snapshot or at the latest sequence number equals the read over everything stored |
| `Engine.DBImpl.Write` | ThermoCheck/Pods/leveldb-library/db/db_impl.cc:1185-1256 | A batch adds exactly its entries under consecutive new sequence numbers; a key then reads as the last put of the batch on it, as nothing if that is a deletion, and as before if the batch does not name it; reads at earlier sequence numbers do not change |
| `Engine.DBImpl.SwitchMemTable` | ThermoCheck/Pods/leveldb-library/db/db_impl.cc:1345-1364 | Making the memtable immutable changes no contents |
| `Engine.DBImpl.CompactMemTable` | ThermoCheck/Pods/leveldb-library/db/db_impl.cc:535-566 | The flushed table holds exactly the immutable memtable and goes to the deepest level allowed; nothing else moves, contents and invariant stay |
| `Engine.DBImpl.BackgroundCompaction` | ThermoCheck/Pods/leveldb-library/db/db_impl.cc:688-767 | Whatever the start files: the inputs are those the code picks, a sole input with few grandparent bytes is moved, and otherwise the outputs are the survivors, cut where they should be; the invariant survives, nothing is added, and reads from the smallest snapshot on are unchanged if the next level boundary is closed |
| `VersionBuilder.SetInsert` | ThermoCheck/Pods/leveldb-library/db/version_set.cc:592-607 | Inserting into the ordered set keeps the order by smallest key, then file number, and loses nothing |
| `VersionBuilder.Builder.Apply` | ThermoCheck/Pods/leveldb-library/db/version_set.cc:649-692 | One edit turns the pending deletions and additions of every level into exactly those of the longer batch |
| `VersionBuilder.MergeLevel` | ThermoCheck/Pods/leveldb-library/db/version_set.cc:695-739 | The merge of base and added files has exactly the undeleted files of both, ordered if their numbers do not clash |
| `VersionBuilder.BatchEqualsFold` | ThermoCheck/Pods/leveldb-library/db/version_set.cc:616-755 | When each (level, number) is added at most once and not in the base, applying edits as one batch equals applying them one at a time |
| `VersionBuilder.Replay` | ThermoCheck/Pods/leveldb-library/db/version_set.cc:924-993 | Saving a builder that was given edits in turn gives, ordered, the fold of the edits over the base |
| `VersionEdit.EncodeThenMore` | ThermoCheck/Pods/leveldb-library/db/version_edit.cc:41-85 | Appending after a field is encoding the field before what is appended |
| `VersionEdit.BodyRoundTrip` | ThermoCheck/Pods/leveldb-library/db/version_edit.cc:120-194 | Parsing what follows a tag gives the field back and leaves exactly what followed it |
| `VersionEdit.DecodedIsOk` | ThermoCheck/Pods/leveldb-library/db/version_edit.cc:97-205 | Whatever the input, a decoded edit names only existing levels and values that can be encoded again |
| `VersionEdit.DecodeFields` | ThermoCheck/Pods/leveldb-library/db/version_edit.cc:107-205 | Decoding any list of encoded fields applies them in order to the edit |
| `VersionEdit.RefusedBehind` | ThermoCheck/Pods/leveldb-library/db/version_edit.cc:87-205 | Behind any fields an unknown tag, a level above 6 and an unfinished varint are each refused |
| `VersionEdit.NumberTags` | ThermoCheck/Pods/leveldb-library/db/version_edit.cc:14-24 | Tags 1 to 4 and 9 set the comparator, log, next file, last sequence and previous log number |
| `VersionEdit.LevelTags` | ThermoCheck/Pods/leveldb-library/db/version_edit.cc:14-24 | Tags 5 to 7 add a compaction pointer, a deleted file and a new file of the level in the next byte |
| `VersionEdit.VersionEdit.Clear` | ThermoCheck/Pods/leveldb-library/db/version_edit.cc:26-39 | Everything but the compaction pointers is cleared |
| `VersionEdit.VersionEdit.EncodeTo` | ThermoCheck/Pods/leveldb-library/db/version_edit.cc:41-85 | The bytes decode to the very edit, with the deleted files written in any order |
| `VersionEdit.VersionEdit.DecodeFrom` | ThermoCheck/Pods/leveldb-library/db/version_edit.cc:107-205 | Fails exactly on a bad field, a level out of range, an unknown tag or leftover bytes; otherwise the object holds the decoded edit |
| `Manifest.FoldIsDistinct` | ThermoCheck/Pods/leveldb-library/db/version_set.cc:649-692 | Files of a replayed level have distinct numbers |
| `Manifest.OrderedUnique` | ThermoCheck/Pods/leveldb-library/db/version_set.cc:592-607 | A level in order is determined by its files |
| `Manifest.SnapshotHolds` | ThermoCheck/Pods/leveldb-library/db/version_set.cc:1088-1116 | A snapshot edit alone replays to the version it was taken of, with its compaction pointers |
| `Manifest.LastPointerWins` | ThermoCheck/Pods/leveldb-library/db/version_set.cc:650-656 | Of several pointers an edit names for a level the last one stays, and without one the level keeps its own |
| `Manifest.WriteSnapshot` | ThermoCheck/Pods/leveldb-library/db/version_set.cc:1088-1116 | The snapshot record decodes to an edit that lists every file of every level once, the comparator and the pointers, and no numbers |
| `Manifest.VersionSet.LogAndApply` | ThermoCheck/Pods/leveldb-library/db/version_set.cc:801-884 | Missing log numbers are filled in, the manifest gains a snapshot if it is new and then the edit, and replaying it still gives the current state |
| `Manifest.VersionSet.Recover` | ThermoCheck/Pods/leveldb-library/db/version_set.cc:886-1011 | Succeeds exactly if all records decode under this comparator and next file, log and last sequence numbers are present; the state is then the fold of the edits |
| `Manifest.Reopen` | ThermoCheck/Pods/leveldb-library/db/version_set.cc:886-1011 | Recovering from the manifest of any version set gives its exact current version and log numbers, the next file and last sequence numbers that its last edit recorded, and the pointers of its edits |
| `WriteBatch.RecordsRoundTrip` | ThermoCheck/Pods/leveldb-library/db/write_batch.cc:42-80 | Iterating encoded updates hands over exactly those updates, in order |
| `WriteBatch.Iterate` | ThermoCheck/Pods/leveldb-library/db/write_batch.cc:42-80 | On any bytes: what the handler is given before the end or the first bad record, and success exactly if the count matches |
| `WriteBatch.WriteBatch.Put` | ThermoCheck/Pods/leveldb-library/db/write_batch.cc:98-103 | The batch is the earlier updates and then this put, under the same sequence number |
| `WriteBatch.WriteBatch.Delete` | ThermoCheck/Pods/leveldb-library/db/write_batch.cc:105-109 | The batch is the earlier updates and then this deletion, under the same sequence number |
| `WriteBatch.WriteBatch.Append` | ThermoCheck/Pods/leveldb-library/db/write_batch.cc:144-148 | The updates of the source follow those of the batch and the counts add up |
| `WriteBatch.WriteBatch.SetSequence` | ThermoCheck/Pods/leveldb-library/db/write_batch.cc:94-96 | Only the sequence number changes |
| `WriteBatch.InsertInto` | ThermoCheck/Pods/leveldb-library/db/write_batch.cc:132-137 | The memtable gains exactly the handled updates under consecutive sequence numbers, also when a later record is corrupt; over an older memtable each key then reads as its last update left it |
| `WriteBatch.InsertBatch` | ThermoCheck/Pods/leveldb-library/db/write_batch.cc:115-137 | A built batch goes in whole, counts as corrupt only if its updates overflow the 32-bit count, and each key then reads as its last update left it |
| `WriteBatch.UpdatesAreRead` | ThermoCheck/Pods/leveldb-library/db/write_batch.cc:115-137 | The last update of a byte-string key decides what is read of it, and keys without an update read as before |
| `WriteBatch.RecordHandsOver` | ThermoCheck/Pods/leveldb-library/db/write_batch.cc:42-80 | A record marked 1 hands over a put, one marked 0 a deletion, with the key and value whose lengths stand before them; any other mark ends the iteration |
| `WriteBatch.HeaderBytes` | ThermoCheck/Pods/leveldb-library/db/write_batch.cc:82-96 | The sequence number is the first eight bytes and the count the next four, the least significant byte first |
| `Recovery.FlushWriteKeepsInv` | ThermoCheck/Pods/leveldb-library/db/db_impl.cc:535-566 | Writing the manifest record of a flush moves entries from logs to tables without losing or hiding any |
| `Recovery.MergeWriteKeepsInv` | ThermoCheck/Pods/leveldb-library/db/db_impl.cc:860-876 | Writing the manifest record of a compaction whose outputs read as its inputs did (exactly when they do is `CompactionRecovery.MergePreservesExactly`) keeps what the disk must cover and every read of the history |
| `Recovery.DeleteLogKeepsInv` | ThermoCheck/Pods/leveldb-library/db/db_impl.cc:223-278 | Deleting a log below the manifest log number loses nothing recoverable |
| `Recovery.DeleteTableKeepsInv` | ThermoCheck/Pods/leveldb-library/db/db_impl.cc:223-278 | Deleting a table that is neither live nor pending loses nothing recoverable |
| `Recovery.CrashKeepsInv` | ThermoCheck/Pods/leveldb-library/db/db_impl.cc:280-369 | A crash in any step, also during recovery, leaves a disk that covers every acknowledged write |
| `Recovery.ReadRecordKeepsInv` | ThermoCheck/Pods/leveldb-library/db/db_impl.cc:371-489 | Replaying a record rebuilds its entries and raises the recovered sequence number |
| `Recovery.SpillKeepsInv` | ThermoCheck/Pods/leveldb-library/db/db_impl.cc:450-480 | Writing the replayed memtable as a level-0 table keeps what was recovered |
| `Recovery.OpenDoneKeepsInv` | ThermoCheck/Pods/leveldb-library/db/db_impl.cc:1474-1506 | Opening with a new log and a manifest record re-establishes the running invariant |
| `Recovery.StepKeepsInv` | ThermoCheck/Pods/leveldb-library/db/db_impl.cc:223-566 | Every step of writing, switching, flushing, compacting, deleting, crashing and recovering, with compactions that preserve reads, keeps: manifest tables and logs from its log number on cover all acknowledged writes |
| `Recovery.RunKeepsInv` | ThermoCheck/Pods/leveldb-library/db/db_impl.cc:223-566 | The invariant holds in every state of every run whose compactions preserve reads |
| `Recovery.OpenReadsAsHistory` | ThermoCheck/Pods/leveldb-library/db/db_impl.cc:280-369 | An open database reads exactly as the history of logged writes: nothing acknowledged missing or hidden, nothing else present |
| `Recovery.NextSequenceIsFresh` | ThermoCheck/Pods/leveldb-library/db/db_impl.cc:361-366 | The last sequence number is at least that of every logged write of any incarnation, so the next is new |
| `Recovery.AcknowledgedWritesSurvive` | ThermoCheck/Pods/leveldb-library/db/db_impl.cc:280-369 | Over every run whose compactions preserve reads: a write acknowledged at one step is read from at any later step at which the database is open |
| `Recovery.OpenNeverStuck` | ThermoCheck/Pods/leveldb-library/db/db_impl.cc:280-369 | Recovery always has a next step until it is done |
| `ClientView.RunReadsLikeMap` | ThermoCheck/Pods/leveldb-library/db/db_impl.cc:280-369 | Over every run whose compactions preserve reads: an open database with nothing in flight answers every read like a map to which the logged puts and deletions of all incarnations were applied in order |
| `ClientView.AcknowledgedBatchIsRead` | ThermoCheck/Pods/leveldb-library/db/db_impl.cc:1185-1256 | Over every such run: the last operation of an acknowledged batch on a key is what any later open database reads of it, as long as no operation logged since has the key |
| `GroupCommit.BuildBatchGroup` | ThermoCheck/Pods/leveldb-library/db/db_impl.cc:1260-1306 | The group is the longest run from the front: it ends only before a sync writer behind a non-sync leader or before a batch with which it would exceed its limit, 128 KB besides a leader of at most 128 KB and 1 MB otherwise; the batches are joined in order |
| `GroupCommit.GroupIsUnique` | ThermoCheck/Pods/leveldb-library/db/db_impl.cc:1260-1306 | The queue determines its group |
| `GroupCommit.GroupIsBounded` | ThermoCheck/Pods/leveldb-library/db/db_impl.cc:1266-1288 | Behind a first batch of at most 128 KB the others together have at most 128 KB; otherwise the group has at most the larger of 1 MB and its first batch |
| `GroupCommit.GroupIsFull` | ThermoCheck/Pods/leveldb-library/db/db_impl.cc:1266-1303 | A writer left out although its sync flag allows it has a batch with which that bound would be exceeded |
| `GroupCommit.HeadersSaved` | ThermoCheck/Pods/leveldb-library/db/write_batch.cc:144-148 | The bytes counted for a group are those of its merged batch and of the twelve-byte headers that merging saves |
| `GroupCommit.WriteQueue.Enqueue` | ThermoCheck/Pods/leveldb-library/db/db_impl.cc:1185-1199 | A writer joins at the back, also while a group is being logged, and the invariant stays |
| `GroupCommit.WriteQueue.Lead` | ThermoCheck/Pods/leveldb-library/db/db_impl.cc:1200-1212 | The front writer leaves alone on an error or without a batch; otherwise it fixes its group under the next sequence numbers |
| `GroupCommit.WriteQueue.Finish` | ThermoCheck/Pods/leveldb-library/db/db_impl.cc:1214-1256 | All writers of the group leave with its one status; log, synced length, last sequence number and background error change exactly as the outcome says |
| `GroupCommit.GroupsAscend` | ThermoCheck/Pods/leveldb-library/db/db_impl.cc:1206-1240 | Later groups take later sequence numbers and later places in the log |
| `GroupCommit.RecordOwner` | ThermoCheck/Pods/leveldb-library/db/db_impl.cc:1206-1240 | Every log record comes from exactly one group |
| `GroupCommit.LogFollowsQueue` | ThermoCheck/Pods/leveldb-library/db/db_impl.cc:1185-1256 | Of two log records the earlier has the earlier writers and all the smaller sequence numbers |
| `GroupCommit.NoFailureNoGap` | ThermoCheck/Pods/leveldb-library/db/db_impl.cc:1206-1240 | While no append fails the sequence numbers in the log have no gaps |
| `GroupCommit.CommittedWritesAreLogged` | ThermoCheck/Pods/leveldb-library/db/db_impl.cc:1185-1256 | A write that returned success is in the log whole, in one record, and synced if it asked for that |
| `DBIter.LiveIsRead` | ThermoCheck/Pods/leveldb-library/db/db_iter.cc:168-198 | An entry is shown exactly if a read of its key at the snapshot returns it as a value |
| `DBIter.ReadIsLive` | ThermoCheck/Pods/leveldb-library/db/db_iter.cc:168-198 | Every key that reads to a value at the snapshot has an entry to show |
| `DBIter.LiveKeysAscend` | ThermoCheck/Pods/leveldb-library/db/db_iter.cc:141-299 | Entries shown have strictly ascending keys |
| `DBIter.DBIter.FindNextUserEntry` | ThermoCheck/Pods/leveldb-library/db/db_iter.cc:168-198 | The forward scan stops at the first live entry past the skipped key |
| `DBIter.DBIter.FindPrevUserEntry` | ThermoCheck/Pods/leveldb-library/db/db_iter.cc:227-267 | The backward scan stops at the last live entry at or before it, with its key and value saved |
| `DBIter.DBIter.Next` | ThermoCheck/Pods/leveldb-library/db/db_iter.cc:141-166 | From any direction, moves to the next live key or past the last |
| `DBIter.DBIter.Prev` | ThermoCheck/Pods/leveldb-library/db/db_iter.cc:200-225 | From any direction, moves to the previous live key or before the first |
| `DBIter.DBIter.Seek` | ThermoCheck/Pods/leveldb-library/db/db_iter.cc:269-281 | Lands on the first live key at or after the target |
| `DBIter.DBIter.SeekToFirst` | ThermoCheck/Pods/leveldb-library/db/db_iter.cc:283-292 | Lands on the first live key |
| `DBIter.DBIter.SeekToLast` | ThermoCheck/Pods/leveldb-library/db/db_iter.cc:294-299 | Lands on the last live key |
| `Merger.UnionExists` | ThermoCheck/Pods/leveldb-library/table/merger.cc:14-25 | Sorted children with distinct keys have a sorted union, with a place for every child entry |
| `Merger.MergingIterator.SeekToFirst` | ThermoCheck/Pods/leveldb-library/table/merger.cc:31-37 | Lands on the first entry of the union |
| `Merger.MergingIterator.SeekToLast` | ThermoCheck/Pods/leveldb-library/table/merger.cc:39-45 | Lands on the last entry of the union |
| `Merger.MergingIterator.Seek` | ThermoCheck/Pods/leveldb-library/table/merger.cc:47-53 | Lands on the lower bound of the target in the union |
| `Merger.MergingIterator.Next` | ThermoCheck/Pods/leveldb-library/table/merger.cc:55-79 | Moves one entry forward in the union, after direction switches too |
| `Merger.MergingIterator.Prev` | ThermoCheck/Pods/leveldb-library/table/merger.cc:81-108 | Moves one entry back in the union, after direction switches too |
| `Merger.MergingIterator.TurnForward` | ThermoCheck/Pods/leveldb-library/table/merger.cc:63-73 | Turning forward puts every other child at its first key past the current one |
| `Merger.MergingIterator.TurnReverse` | ThermoCheck/Pods/leveldb-library/table/merger.cc:89-103 | Turning back puts every other child at its last key before the current one |
| `SkipList.List.FindGreaterOrEqual` | ThermoCheck/Pods/leveldb-library/db/skiplist.h:260-281 | Returns the lower bound and, on every level in use, the node before it |
| `SkipList.List.FindLessThan` | ThermoCheck/Pods/leveldb-library/db/skiplist.h:283-303 | Returns the last node before the key |
| `SkipList.List.FindLast` | ThermoCheck/Pods/leveldb-library/db/skiplist.h:305-323 | Returns the last node |
| `SkipList.List.Contains` | ThermoCheck/Pods/leveldb-library/db/skiplist.h:370-378 | Answers exactly whether the key is in the list |
| `SkipList.List.Insert` | ThermoCheck/Pods/leveldb-library/db/skiplist.h:336-368 | Adds the key to its lowest levels and to nothing else; every level stays sorted and a sub-list of the one below |
| `SkipList.StepKeepsInv` | ThermoCheck/Pods/leveldb-library/db/skiplist.h:336-368 | In every state between two stores of the bottom-up linking each level is sorted and a sub-list of the one below, for every interleaving with readers |
| `SkipList.SearchIsExact` | ThermoCheck/Pods/leveldb-library/db/skiplist.h:260-281 | A search interleaved with insertion returns the exact lower bound of the keys present at its last level-0 read |
| `SkipList.ReaderNeverStuck` | ThermoCheck/Pods/leveldb-library/db/skiplist.h:260-281 | A reader never finds a pointer it may follow missing |
| `SkipList.RunKeepsInv` | ThermoCheck/Pods/leveldb-library/db/skiplist.h:260-368 | The invariant holds in every state of every run |
| `SkipList.SearchesInRuns` | ThermoCheck/Pods/leveldb-library/db/skiplist.h:260-281 | Over every run a search also misses no key that was there when it began |
| `Separator.CompareIsOrder` | ThermoCheck/Pods/leveldb-library/db/dbformat.cc:51-67 | The internal comparison is user key ascending, then sequence descending, and zero only for equal keys |
| `Separator.FindShortestSeparator` | ThermoCheck/Pods/leveldb-library/util/comparator.cc:29-50 | The common prefix with the next byte raised when there is room for it, strictly between the strings and no longer; otherwise unchanged |
| `Separator.FindShortSuccessor` | ThermoCheck/Pods/leveldb-library/util/comparator.cc:52-64 | Cut after the first byte below 0xff, which is raised; a run of 0xff stays |
| `Separator.InternalSeparator` | ThermoCheck/Pods/leveldb-library/db/dbformat.cc:69-86 | Separates a block from the next; a shortened key carries the largest sequence number |
| `Separator.InternalSuccessor` | ThermoCheck/Pods/leveldb-library/db/dbformat.cc:88-101 | The same after the last block |
| `Table.IndexAfter` | ThermoCheck/Pods/leveldb-library/table/table_builder.cc:104-115 | No key up to the end of a block is after the block index key |
| `Table.IndexBefore` | ThermoCheck/Pods/leveldb-library/table/table_builder.cc:104-115 | Every later key is after it, and so is its user key unless the index key is the last key of the block |
| `Table.TableBuilder.Add` | ThermoCheck/Pods/leveldb-library/table/table_builder.cc:94-123 | The pair joins the contents; a block is cut exactly when its estimate reaches the block size, and a pending index entry is settled first, with a shortest separator of the two keys |
| `Table.TableBuilder.Finish` | ThermoCheck/Pods/leveldb-library/table/table_builder.cc:198-253 | For every increasing key sequence and every way of cutting blocks the table holds exactly the pairs added, under a searchable index |
| `Table.SeekInBlock` | ThermoCheck/Pods/leveldb-library/table/two_level_iterator.cc:82-87 | The search in the one block the index points to finds the place in the whole table |
| `Table.TwoLevelIterator.Seek` | ThermoCheck/Pods/leveldb-library/table/two_level_iterator.cc:82-87 | Lands on the first pair at or after the target |
| `Table.TwoLevelIterator.SeekToFirst` | ThermoCheck/Pods/leveldb-library/table/two_level_iterator.cc:89-94 | Lands on the first pair |
| `Table.TwoLevelIterator.SeekToLast` | ThermoCheck/Pods/leveldb-library/table/two_level_iterator.cc:96-101 | Lands on the last pair |
| `Table.TwoLevelIterator.Next` | ThermoCheck/Pods/leveldb-library/table/two_level_iterator.cc:103-126 | Moves to the next pair of the whole table, across blocks |
| `Table.TwoLevelIterator.Prev` | ThermoCheck/Pods/leveldb-library/table/two_level_iterator.cc:109-139 | Moves to the previous pair of the whole table, across blocks |
| `Table.InternalGet` | ThermoCheck/Pods/leveldb-library/table/table.cc:216-244 | Reports a pair of the sought user key exactly when the first pair at or after the key in the whole table has it, and then that pair |
| `Block.BlockBuilder.Add` | ThermoCheck/Pods/leveldb-library/table/block_builder.cc:71-106 | The entry joins the block without the prefix it shares with the entry before, which is the longest there is, and with a restart point every interval entries |
| `Block.Build` | ThermoCheck/Pods/leveldb-library/table/block_builder.cc:62-106 | The built block describes exactly the list of entries; each that is no restart point leaves out all it shares with the one before, and restart points are an interval apart |
| `Block.DecodeEntry` | ThermoCheck/Pods/leveldb-library/table/block.cc:54-74 | The fast path for three one-byte lengths agrees with three varints on every input |
| `Block.EncodedIsReadable` | ThermoCheck/Pods/leveldb-library/table/block.cc:18-39 | In a built block every entry and every restart point can be read where the iterator looks for it |
| `Block.Iter.Next` | ThermoCheck/Pods/leveldb-library/table/block.cc:137-140 | Moves one entry forward |
| `Block.Iter.Prev` | ThermoCheck/Pods/leveldb-library/table/block.cc:142-161 | Moves one entry back, the inverse of moving forward, by going to a restart point and scanning |
| `Block.Iter.Seek` | ThermoCheck/Pods/leveldb-library/table/block.cc:163-201 | Binary search over restart points and a scan find the first entry at or after the target |
| `Block.Iter.SeekToFirst` | ThermoCheck/Pods/leveldb-library/table/block.cc:203-206 | Lands on the first entry |
| `Block.Iter.SeekToLast` | ThermoCheck/Pods/leveldb-library/table/block.cc:208-213 | Lands on the last entry |
| `Block.Scan` | ThermoCheck/Pods/leveldb-library/table/block.cc:137-140 | Iterating from the front returns the list the block was built from |
| `Log.CrcIsSound` | ThermoCheck/Pods/leveldb-library/db/log_writer.cc:82-108 | The masked CRC of the log meets what the reader asks of a checksum |
| `Log.Writer.AddRecord` | ThermoCheck/Pods/leveldb-library/db/log_writer.cc:34-80 | What a record appends is a function of the length of the file and the record only |
| `Log.WriteAll` | ThermoCheck/Pods/leveldb-library/db/log_writer.cc:23-80 | A log written through writers reopened between any records has the same bytes as one never closed |
| `Log.CutFillsBlock` | ThermoCheck/Pods/leveldb-library/db/log_writer.cc:34-80 | A fragment that is not the last of its record ends at the end of its block; zeros are written only where no header fits; the type says whether it begins and whether it ends the record |
| `Log.EndsAtIsLength` | ThermoCheck/Pods/leveldb-library/db/log_writer.cc:34-108 | Where a record ends is the length of the log of the records up to it |
| `Log.Reader.ReadPhysicalRecord` | ThermoCheck/Pods/leveldb-library/db/log_reader.cc:189-271 | On any file: a fragment only where the header, its length, type and checksum match, a damaged one is dropped to the end of its block and reported unless it is blank; a torn last fragment is the end of the file without a report |
| `Log.Reader.ReadRecord` | ThermoCheck/Pods/leveldb-library/db/log_reader.cc:56-174 | On any file a record read is a full fragment or a first, middle and last ones that follow one another in the file, each with its checksum; on a prefix of a log it is the next record if all of it is there, and otherwise nothing and no report |
| `Log.Reader.ReadAll` | ThermoCheck/Pods/leveldb-library/db/log_reader.cc:56-174 | Any prefix of a log reads as exactly the records lying wholly inside it, without a corruption report |
| `Crc32c.BitsLinear` | ThermoCheck/Pods/leveldb-library/util/crc32c.cc:276-377 | Moving past zero bits distributes over exclusive or |
| `Crc32c.OneStride` | ThermoCheck/Pods/leveldb-library/util/crc32c.cc:290-318 | One stride step does to the combination of the four strides what the word step does |
| `Crc32c.StrideWord` | ThermoCheck/Pods/leveldb-library/util/crc32c.cc:290-318 | A step of all four strides over a word is the byte-at-a-time fold over it |
| `Crc32c.Extend` | ThermoCheck/Pods/leveldb-library/util/crc32c.cc:276-377 | For every buffer, starting value and alignment the four-stride computation equals the bit-by-bit division, given tables that meet their recurrences |
| `Crc32c.CrcComposes` | ThermoCheck/Pods/leveldb-library/util/crc32c.h:14-20 | The checksum of a concatenation is the checksum of the first part extended by the second |
| `Crc32c.UnmaskMask` | ThermoCheck/Pods/leveldb-library/util/crc32c.h:22-38 | Unmasking a masked checksum gives it back |
| `Crc32c.MaskUnmask` | ThermoCheck/Pods/leveldb-library/util/crc32c.h:22-38 | And masking an unmasked one |
| `Crc32c.MaskRotates` | ThermoCheck/Pods/leveldb-library/util/crc32c.h:30-33 | The mask is the checksum rotated right by 15 bits plus the constant, in 32 bits |
| `Crc32c.XorBits` | ThermoCheck/Pods/leveldb-library/util/crc32c.cc:290-318 | A bit of the exclusive or is set exactly if the two bits differ |
| `Crc32c.TopBitEntry` | ThermoCheck/Pods/leveldb-library/util/crc32c.cc:20-64 | Entry 128 of the byte table is the polynomial |
| `Coding.FixedRoundTrip` | ThermoCheck/Pods/leveldb-library/util/coding.cc:9-33 | A fixed-length integer is read back if it fits |
| `Coding.FixedDigits` | ThermoCheck/Pods/leveldb-library/util/coding.cc:9-33 | Byte i of a fixed-length integer is its digit of 256 to the power i |
| `Coding.DecodedFixed` | ThermoCheck/Pods/leveldb-library/util/coding.h:60-85 | Four bytes are read as their little-endian sum, and eight as two such words |
| `Coding.EncodeVarint32` | ThermoCheck/Pods/leveldb-library/util/coding.cc:47-73 | The unrolled encoder emits the varint, in at most five bytes |
| `Coding.EncodeVarint64` | ThermoCheck/Pods/leveldb-library/util/coding.cc:81-90 | The loop emits the varint |
| `Coding.VarintLength` | ThermoCheck/Pods/leveldb-library/util/coding.cc:103-110 | The length counted is that of the varint |
| `Coding.ReadVarint` | ThermoCheck/Pods/leveldb-library/util/coding.cc:112-157 | The shifting loops read what the specification of a varint in a register of that width says |
| `Coding.VarintEnds` | ThermoCheck/Pods/leveldb-library/util/coding.cc:112-157 | On any bytes a varint ends at the first byte below 128, if that is within five respectively ten bytes, and its number is the sum of the seven-bit digits in the width of the register |
| `Coding.VarintNeverEnds` | ThermoCheck/Pods/leveldb-library/util/coding.cc:112-157 | Without such a byte nothing is read |
| `Coding.VarintIsShortest` | ThermoCheck/Pods/leveldb-library/util/coding.cc:47-90 | The encoder writes the digits of the number, marks all but the last, and writes no leading zero digit |
| `Coding.Varint32RoundTrip` | ThermoCheck/Pods/leveldb-library/util/coding.cc:112-140 | Every 32-bit varint is read back, whatever follows it |
| `Coding.Varint64RoundTrip` | ThermoCheck/Pods/leveldb-library/util/coding.cc:142-168 | Every 64-bit varint is read back, whatever follows it |
| `Coding.LengthPrefixedRoundTrip` | ThermoCheck/Pods/leveldb-library/util/coding.cc:98-101 | A length-prefixed string is read back, whatever follows it |
| `Bloom.CreateFilter` | ThermoCheck/Pods/leveldb-library/util/bloom.cc:28-54 | A bit of the new filter is set if and only if it is probed for one of the keys; its size is the least number of bytes, and at least eight, that gives each key its bits; what was in the buffer stays |
| `Bloom.ProbesWalk` | ThermoCheck/Pods/leveldb-library/util/bloom.cc:43-53 | The probes are those of a walk that starts at the hash and adds the rotated hash in 32 bits |
| `Bloom.DeltaRotates` | ThermoCheck/Pods/leveldb-library/util/bloom.cc:47-47 | The step is the hash rotated right by 17 bits |
| `Bloom.KeyMayMatch` | ThermoCheck/Pods/leveldb-library/util/bloom.cc:56-80 | Matches exactly if the filter is long enough and has an unknown probe count or all probed bits set |
| `Bloom.NoFalseNegatives` | ThermoCheck/Pods/leveldb-library/util/bloom.cc:28-80 | A filter never rejects a key it was made for |
| `Bloom.FilterIsUnique` | ThermoCheck/Pods/leveldb-library/util/bloom.cc:28-54 | The keys determine the filter |
| `FilterBlock.FilterBlockBuilder.StartBlock` | ThermoCheck/Pods/leveldb-library/table/filter_block.cc:21-27 | Closes every 2 KB range below the block, empty ones included |
| `FilterBlock.FilterBlockBuilder.AddKey` | ThermoCheck/Pods/leveldb-library/table/filter_block.cc:29-33 | The key is logged for the current block |
| `FilterBlock.FilterBlockBuilder.GenerateFilter` | ThermoCheck/Pods/leveldb-library/table/filter_block.cc:51-75 | The filter of a closed range is made of exactly the keys added for it |
| `FilterBlock.KeysOfRange` | ThermoCheck/Pods/leveldb-library/table/filter_block.cc:18-33 | The keys of a range are exactly those added for a block offset in its 2 KB |
| `FilterBlock.FilterBlockBuilder.Finish` | ThermoCheck/Pods/leveldb-library/table/filter_block.cc:35-49 | The block is the filters, their offsets, the offset of the offsets and the range size, and covers every key |
| `FilterBlock.OpenFinished` | ThermoCheck/Pods/leveldb-library/table/filter_block.cc:77-88 | Opening a finished block finds its filters |
| `FilterBlock.AsksTheRange` | ThermoCheck/Pods/leveldb-library/table/filter_block.cc:90-104 | Asking about a block is asking the policy about the filter of exactly its range, the last one ending at the array-offset word |
| `FilterBlock.FilterIsComplete` | ThermoCheck/Pods/leveldb-library/table/filter_block.cc:21-104 | A key added for a block always matches at its offset, over shared, skipped and empty ranges |
| `FilterBlock.BloomIsComplete` | ThermoCheck/Pods/leveldb-library/util/bloom.cc:28-80 | The Bloom filter policy meets what the filter block asks of a policy |
| `FilterBlock.FilterForTable` | ThermoCheck/Pods/leveldb-library/table/table.cc:216-230 | Such a filter block is one that a point lookup in the table may rely on |
| `HandleTable.HandleTable.Lookup` | ThermoCheck/Pods/leveldb-library/util/cache.cc:74-76 | Finds exactly what is filed under the key |
| `HandleTable.HandleTable.Insert` | ThermoCheck/Pods/leveldb-library/util/cache.cc:78-92 | Files the entry, returns what it replaces and keeps at least as many buckets as entries; the table grows only when the entries outnumber the buckets, to less than twice the entries |
| `HandleTable.HandleTable.Remove` | ThermoCheck/Pods/leveldb-library/util/cache.cc:94-103 | Takes out exactly the entry under the key |
| `HandleTable.HandleTable.Resize` | ThermoCheck/Pods/leveldb-library/util/cache.cc:122-147 | Rehashing every chain keeps the contents; the new length is the least doubling of four that is enough |
| `HandleTable.HomeIsRemainder` | ThermoCheck/Pods/leveldb-library/util/cache.cc:114-120 | Because the length is a power of two, the masked hash is its remainder |
| `Cache.LookupKeepsInv` | ThermoCheck/Pods/leveldb-library/util/cache.cc:252-259 | A hit takes one more reference and moves the entry to the in-use list if it was unused |
| `Cache.ReleaseKeepsInv` | ThermoCheck/Pods/leveldb-library/util/cache.cc:225-237 | Giving a handle back keeps: references are outstanding handles plus one if cached, each cached entry on the one list its count says, usage their total charge |
| `Cache.LastReleaseKeepsInv` | ThermoCheck/Pods/leveldb-library/util/cache.cc:225-237 | The deleter runs at the last use of an entry that left the cache, once |
| `Cache.EraseKeepsInv` | ThermoCheck/Pods/leveldb-library/util/cache.cc:307-316 | Taking an entry out of the cache keeps the invariant |
| `Cache.InsertKeepsInv` | ThermoCheck/Pods/leveldb-library/util/cache.cc:266-303 | A new cached entry keeps the invariant |
| `Cache.EvictOldest` | ThermoCheck/Pods/leveldb-library/util/cache.cc:293-300 | Evicting takes the front of the LRU list, deletes it and touches no entry a client holds |
| `Cache.ReleaseAscends` | ThermoCheck/Pods/leveldb-library/util/cache.cc:225-250 | Giving a handle back keeps the LRU list ascending by the time of the last release, and puts the entry on it exactly if it is cached and that was its last handle |
| `Cache.OldestFirst` | ThermoCheck/Pods/leveldb-library/util/cache.cc:293-300 | The front of the list was released before the rest |
| `Cache.LRUCache.Lookup` | ThermoCheck/Pods/leveldb-library/util/cache.cc:252-259 | Returns the cached entry under the key with one more handle on it, or nothing |
| `Cache.LRUCache.Release` | ThermoCheck/Pods/leveldb-library/util/cache.cc:261-264 | Deletes the entry exactly if that was its last handle and it is not cached; an entry it leaves unused is the newest of the LRU list, which ascends by the time of the last release |
| `Cache.LRUCache.Insert` | ThermoCheck/Pods/leveldb-library/util/cache.cc:266-303 | The caller holds the new entry once; afterwards usage is within capacity or nothing unused is left; every entry evicted was released before every unused one that stays, no more go than it takes, and held entries stay |
| `Cache.LRUCache.Erase` | ThermoCheck/Pods/leveldb-library/util/cache.cc:318-321 | The key is gone from the cache and held entries stay |
| `Cache.LRUCache.Prune` | ThermoCheck/Pods/leveldb-library/util/cache.cc:323-333 | Exactly the unused entries are deleted |
| `PbCommon.FieldIter.Next` | ThermoCheck/Pods/nanopb/pb_common.c:20-76 | Steps to the next field, counting required ones passed, or wraps to the first |
| `PbCommon.FieldIter.Find` | ThermoCheck/Pods/nanopb/pb_common.c:78-95 | Finds the field with the tag from any position, exactly if there is one; without fields, the terminator matches number 0 and nothing else |
| `PbEncode.EncodesExactly` | ThermoCheck/Pods/nanopb/pb_encode.c:147-236 | A message is encodable exactly if its arrays and byte strings are no longer than their storage, at every depth |
| `PbEncode.WriteVarint` | ThermoCheck/Pods/nanopb/pb_encode.c:608-628 | A stream takes the varint, or fails exactly if it does not fit |
| `PbEncode.WriteDatum` | ThermoCheck/Pods/nanopb/pb_encode.c:769-912 | Sizing and writing a value of any type take exactly its encoding |
| `PbEncode.WriteSubmessage` | ThermoCheck/Pods/nanopb/pb_encode.c:717-765 | The length written first is the number of bytes the second pass emits |
| `PbEncode.WriteArray` | ThermoCheck/Pods/nanopb/pb_encode.c:147-236 | A repeated field is nothing, one packed block of the announced size, or each element behind its tag |
| `PbEncode.WriteMessage` | ThermoCheck/Pods/nanopb/pb_encode.c:528-550 | Any stream takes exactly the encoding of the message, or fails exactly if it has none or it does not fit |
| `PbEncode.EncodedSize` | ThermoCheck/Pods/nanopb/pb_encode.c:567-576 | The sizing pass counts exactly the bytes the encoding has |
| `PbEncode.Encode` | ThermoCheck/Pods/nanopb/pb_encode.c:528-550 | Encoding into a buffer gives the encoding exactly if there is one and it fits |
| `PbDecode.IStream.Varint32` | ThermoCheck/Pods/nanopb/pb_decode.c:187-247 | The loop reads what the specification of a 32-bit varint says: sign extension, overflow and the wrapping shift counter included |
| `PbDecode.LongVarintWraps` | ThermoCheck/Pods/nanopb/pb_decode.c:211-243 | A varint with one bit, at place 7n, is read with that bit at 7n modulo 256, and refused exactly if that is beyond the register |
| `PbDecode.IStream.Varint64` | ThermoCheck/Pods/nanopb/pb_decode.c:255-275 | The loop reads what the specification of a 64-bit varint says |
| `PbDecode.ReadScalar` | ThermoCheck/Pods/nanopb/pb_decode.c:1339-1564 | Every scalar, string and byte decoder does what its specification says, range checks included |
| `PbDecode.ReadSlot` | ThermoCheck/Pods/nanopb/pb_decode.c:406-483 | A field of any rule is decoded into what it holds; a repeated one stops at its array size |
| `PbDecode.MarkSeen` | ThermoCheck/Pods/nanopb/pb_decode.c:1015-1020 | The bitmap then holds one more number |
| `PbDecode.CheckBits` | ThermoCheck/Pods/nanopb/pb_decode.c:1054-1072 | Comparing whole words and remaining bits accepts exactly when every number below the count was seen |
| `PbDecode.SeenByNumber` | ThermoCheck/Pods/nanopb/pb_decode.c:1033-1073 | All numbers below the count seen means exactly that every tracked required field was seen |
| `PbDecode.ReadMessage` | ThermoCheck/Pods/nanopb/pb_decode.c:928-1076 | The loop with its wrapping iterator and its bitmap decodes as specified (`PbFields` says what that means for an input), message types without fields included |
| `PbDecode.MessageIsSound` | ThermoCheck/Pods/nanopb/pb_decode.c:406-483 | Whatever the input, a decoded message fits its storage and holds at most one member of each oneof |
| `PbDecode.Decode` | ThermoCheck/Pods/nanopb/pb_decode.c:1078-1090 | Decoding into a message of defaults gives the specified, well-formed message |
| `PbFields.RequiredFieldsDecide` | ThermoCheck/Pods/nanopb/pb_decode.c:1033-1073 | An input whose fields decode is accepted exactly if each of the first 64 required fields has its number at a field boundary of the input |
| `PbFields.DecodeInTurn` | ThermoCheck/Pods/nanopb/pb_decode.c:946-1024 | Decoding one input behind another is decoding the second into what the first left |
| `PbFields.BlocksMerge` | ThermoCheck/Pods/nanopb/pb_decode.c:928-1076 | A message given in two complete blocks decodes to the second decoded into what the first left |
| `PbFields.UnknownFieldIgnored` | ThermoCheck/Pods/nanopb/pb_decode.c:985-989 | A field with a number the type does not have changes nothing, whatever its wire type, between any other fields |
| `PbFields.ZeroEndsInput` | ThermoCheck/Pods/nanopb/pb_decode.c:305-330 | A zero tag ends the input, whatever follows it |
| `PbFields.LastValueWins` | ThermoCheck/Pods/nanopb/pb_decode.c:406-421 | Of several values of a singular scalar field the last stays |
| `PbFields.ElementAppended` | ThermoCheck/Pods/nanopb/pb_decode.c:454-464 | A further element of a repeated field joins the end of its array, or is refused exactly if the array is full |
| `PbFields.UnsignedOnTheWire` | ThermoCheck/Pods/nanopb/pb_decode.c:1376-1398 | A varint is read as the number it writes, and refused if it is beyond the width of the field |
| `PbFields.SignedOnTheWire` | ThermoCheck/Pods/nanopb/pb_decode.c:1339-1374 | A varint is read in two-complement form of 64 bits, and refused if it is beyond the width of the field |
| `PbFields.ZigZagOnTheWire` | ThermoCheck/Pods/nanopb/pb_decode.c:1279-1293 | Even varints are the non-negative numbers and odd ones the negative, in turn |
| `PbFields.BoolOnTheWire` | ThermoCheck/Pods/nanopb/pb_decode.c:1328-1337 | A 32-bit varint is read as true exactly if it is not zero |
| `PbFields.GuideExample` | ThermoCheck/Pods/nanopb/pb_encode.c:608-628 | The worked examples of the Protocol Buffers encoding guide come out byte for byte |
| `PbRoundTrip.Varint32Exact` | ThermoCheck/Pods/nanopb/pb_decode.c:187-247 | Every 32-bit number written as a varint is read back |
| `PbRoundTrip.DatumRoundTrip` | ThermoCheck/Pods/nanopb/pb_decode.c:1339-1541 | Every value within bounds decodes from its encoding, whatever follows it |
| `PbRoundTrip.PackedRoundTrip` | ThermoCheck/Pods/nanopb/pb_decode.c:424-453 | A packed block decodes to the elements |
| `PbRoundTrip.UnpackedRoundTrip` | ThermoCheck/Pods/nanopb/pb_decode.c:454-464 | Elements behind tags decode to the elements |
| `PbRoundTrip.MessageRoundTrip` | ThermoCheck/Pods/nanopb/pb_decode.c:928-1090 | Decoding an encoding gives the message back, for every descriptor tree with distinct nonzero tags |
| `PbRoundTrip.EncodeThenDecode` | ThermoCheck/Pods/nanopb/pb_encode.c:528-550 | Every message within its bounds has an encoding, and one below 4 GB decodes to the message |

## Left out

- Install.LogAndApply: the in-memory half only; the manifest is written and replayed in `Manifest`, and when
  which half is on disk is a matter of `Recovery`.
- Manifest.VersionSet.LogAndApply: I/O errors while writing the manifest are not modelled, and the manifest is
  a list of records; their framing is in `Log`.
- Manifest.Reopen: the CURRENT file that names the manifest is not modelled, and neither is reusing an old
  manifest.
- Engine.DBImpl.BackgroundCompaction: pick, merge and install are one atomic step, so a memtable flush
  interleaved with a running compaction is not covered.
- Engine.DBImpl.Write: the batch is applied at once; queueing, logging and failures are in `GroupCommit` and
  `Recovery`.
- Recovery.MergeWriteKeepsInv: that the outputs read as the inputs did is asked of the step that saves the merge,
  because the code does not always see to it; `CompactionRecovery` says exactly when it does.
- Recovery.RunKeepsInv: runs with a compaction that changes a read are left out, for the same reason.
- Recovery.AcknowledgedWritesSurvive: runs with a compaction that changes a read are left out, for the same
  reason; `GapRun.GapArises` is one.
- Recovery.StepKeepsInv: the step that saves a merge is taken only if the merge preserves reads. Completed log
  appends survive a crash, and reading or writing a file does not fail; `reuse_logs` is off, as it is by
  default. Files held open by readers are not counted when tables are deleted.
- CompactionInputs.PickCompaction: which level is due, the floating-point scores and the seek charges are
  parameters.
- CompactionWork.CompactionState.DoCompactionWork: the size of an entry, which decides where an output file
  ends, is an abstract function, and a compaction that is aborted by an error is not modelled.
- WriteBatch.Iterate: the count of records is unbounded where the code uses an int.
- Log.Reader.ReadAll: an initial offset other than 0 is not modelled; of a file that is not a prefix of a log it
  says nothing beyond what `Log.Reader.ReadRecord` says of each record.
- Block.Iter.Seek: blocks that were not built by the block builder, and so the corruption errors, are not
  modelled.
- Block.DecodeEntry: the byte order of the machine and unaligned loads are not modelled.
- Crc32c.Extend: the 1280 table constants are a parameter that must meet its recurrences; the accelerated
  checksum of newer processors is not modelled.
- SkipList.StepKeepsInv: stores and loads are sequentially consistent; the acquire and release order of weaker
  machines is not modelled. Random heights are a parameter.
- Cache.LRUCache.Insert: the doubly linked lists are sequences and handles are entries of a map, so the
  relinking of pointers is not modelled; neither are the sixteen shards and their locks.
- Table.TableBuilder.Finish: blocks are sequences of pairs here; their bytes are in `Block` and the filter in
  `FilterBlock`. The meta index, the footer, compression and the block cache are not modelled.
- Bloom.CreateFilter: the hash is an abstract function; the number of probes is computed in real arithmetic.
- FilterBlock.FilterIsComplete: filters of 4 GB and more, whose offsets would wrap, are excluded, and so are
  blocks not made by the builder.
- DBIter.DBIter.Next: keys that do not parse and the sampling of reads are not modelled.
- PbCommon.FieldIter.Find: where the boolean read at the terminator of an empty field table is stored is not
  modelled.
- PbDecode.ReadSlot: pointers, callbacks, extensions, fixed-count arrays and the offsets of fields in a C
  struct are not modelled; a field of a message is its list of present values.
- PbDecode.Decode: default values other than zero and the contents left behind by a failed decoding are not
  modelled.
- PbRoundTrip.MessageRoundTrip: encodings of 4 GB and more, whose lengths the decoder cannot read, are excluded.
- Fields without presence flags of the proto3 style are not modelled.
- The memtable's arena encoding of an entry and the circular list of snapshots would only add easy members.
- `RepairDB`, `DestroyDB`, statistics, approximate sizes, table cache, environment, loggers and the C interface
  are not modelled.
- The application code around the two libraries is not modelled.
