# StructureDB storage engine: a verified model

A Dafny model of the storage engine of StructureDB and proofs about it. The model follows the C++ sources under
`src/server`: objects that change in place are classes, loops are loops, and coroutines are state machines whose steps
run between two suspension points. `dafny verify dfyconfig.toml` checks everything.

## What is proved

**Tables and trees.** A table file built from any sorted records and scanned over any range returns exactly the records
of that range (`TableIterators.BuildThenScan`), for every page size and every cache capacity; the page cache is
transparent and more capacity never costs more reads (`LruCaches`). A tree on files, driven by any list of Put, Flush,
Compact and Get, answers like a plain map (`LsmRuns.Execute`). Under every interleaving of these operations, with both
shared mutexes and their sleepers in the state, no record is lost or held twice, Flush and Compact never overlap, and a
Get sees one instant (`LsmInterleaving.EveryRun`); where no mem table is frozen over an older pending Put, a Get has the
newest version of its key first (`LsmInterleaving.EveryOrderlyRun`).

**Log, recovery, replication.** The log round-trips through its padded segment files, listed by name
(`WalFiles.WalRoundTrip`). After every history of upserts, commits, flushes, cleanings and restarts over any number of
storages, as long as the writer still has its file at every logged operation, recovery is exact
(`Recovery.EveryHistoryRecovers`). This is carried to trees on table files and a log on segment files, several storages
together: upserts, flushes and commits (`Durability.ExecuteAndRecover`), and the cleaner on the writer's directory
(`Durability.Engine.Clean`, `CleanAndRecover`, `Cleaning.CleanFiles`). A follower is always a prefix of its leader and
converges to it (`Replication`); re-applying a growing page is harmless exactly under a stated condition
(`Replication.ReappliesExactly`); a stream skips nothing that was there and the cleaner never takes a segment away first
(`Streaming.EveryStream`); what the cleaner removes under the follower registry are removals the protocol allows
(`Retention.CleanStep`). Fed by a stream without holes, a follower has replayed the leader's log up to the last complete
segment sent and the tail delivered of the next one (`Following.Follow`).

**Transactions.** In every run the lock tables are inverse to each other and no wake-up is lost (`TxStorage.EveryRun`).
In every run two running transactions never both have a version of a row, the version of a running transaction is the
newest of its row, and a lookup returns the newest version that is the reader's own or committed
(`TxRuns.EveryRunIsIsolated`). No write gets a number above a running transaction's version of its row, even when its own
transaction has ended meanwhile (`TxRuns.NoPutAboveRunning`). Lookups, scans and compactions suspended between rows while
others commit answer as of one moment (`TxRuns.SuspendedLookup`, `TxPasses.SuspendedScan`, `CompactOfAnInstant`). Over the
levels of the tree, a walk finds the versions of a row in the order of their numbers in every run that releases no lock
under a write with a number (`TxLevels.DisciplinedWalk`). Compaction leaves a reader's answers unchanged exactly under a
stated condition (`TxTables.CompactTreeExactly`), and a scan agrees with lookups exactly under another. A compaction
writes exactly the newest kept version of each key, frozen if committed, so that it is read even when the commit is
forgotten (`TxPasses.CompactInWrites`, `KeptIsFound`). All this is carried to the tree on files
(`TransactionalTables.TransactionalTable.Compact`, `Scan`).

## Where the code does less than it promises

Each item has a lemma with a concrete case, and where the property can be saved an exact condition.

- Put takes its number before it waits for the lock, so newer levels can hold smaller numbers when a Get has the levels
  locked meanwhile (`LsmInterleaving.PutsMayInsertOutOfOrder`, `StrandedPut`). Only `Lsm::Get` keeps that lock over a
  suspension, and the server does not call it. `LsmRuns`, `Recovery` and `Durability` treat one Put at a time.
- Flush numbers files by the count of tables and Compact by the last number plus one. After a Compact, files can be
  overwritten, removed or read in the wrong order at the next start (`TableNumbers`). Names sort by number only below
  10000, where the log writer reopens an old segment (`FileNames.ListingAscendsExactly`, `NextIsTaken`).
- A log page with an unused tail of 1 to 7 bytes makes the reader run past its buffer
  (`WalFiles.ReaderStaysInsideExactly`, `ShortTailOccurs`).
- The cleaner may remove the segment that is being written; upserts logged there afterwards are lost
  (`Recovery.CleanedWriterLosesUpsert`, `UpsertSurvivesExactly`, `CleanUnlinksExactly`). Commit events count as
  persistent, so cleaning forgets commits (`CleanForgetsCommit`, `CommitSurvivesExactly`).
- Two log writes in the wrong order, or a gap, stop the replay of a storage (`ReplayRebuildsExactly`, `GapBlocksReplay`),
  and a page out of order changes a follower when it is delivered again (`Replication.ReorderedPageDiffers`).
- A segment cleaned before a follower attaches is skipped for good, and with it everything behind the gap
  (`Streaming.HoleIsSkipped`, `ConsecutiveExactly`). A leader restart leaves a short segment behind, at which a stream
  stops for good (`Streaming.ShortSegmentBlocks`).
- The same wait, in a transaction that commits under it, can leave its record in a newer level than the newer version of
  the next one, which then does not read back its own write (`TxLevels.LatePutHidesWrite`, `PutWalksExactly`).
- A rollback during a compaction loses the committed version under the row rolled back (`TxPasses.RollbackLosesRow`).
- Scan and compaction skip a tombstone and accept an older version; compaction lets a running transaction's version
  displace a committed one and drops frozen rows of forgotten transactions; Scan does not look at the frozen flag
  (`TxTables.DeletedValueComesBack`, `RunningWriterHidesCommitted`, `FrozenRowIsForgotten`).
- Ids of transactions that did not commit are issued again after a restart (`TxStorage.IssuedAgainExactly`,
  `TxTables.LeftoverIsAdopted`). Row locks are not re-entrant (`TxStorage.HolderWaitsForItself`).

## Reading of the source

- The documentation says that every mutation is logged before it is applied; the code puts into the tree first and logs
  afterwards (`src/server/table/storage/lsm_storage.cpp:107-113`). The model follows the code.
- The arguments of the event constructor in `src/server/wal/events/lsm_storage_upsert_event.cpp:20-28` are evaluated in an
  order that C++ leaves open; the model reads them from left to right, the order in which they are written.
- `docs/replication.md` calls the function that finds the resume point `DetectResumeSegment`; in the code it is
  `NextSegmentToFetch`.
- A read past the end of a buffer is undefined behaviour in the source; here it is the fault `PastEnd`.
- A file is a byte sequence; reads and writes complete. The checksum is an arbitrary function of the page body.
- Records fit a page and events fit a log page; the source does not handle anything larger. Sequence numbers stay within
  64 bits.
- A history in `Recovery` is one upsert at a time: the tree entry and its log event belong together.
- A write takes its sequence number when its row lock is granted: nothing suspends between the two
  (`src/server/table/transactional_table.cpp:121-131`, `src/server/table/storage/lsm_storage.cpp:108`,
  `src/server/lsm/lsm.cpp:55`). The insert into the tree is a later step.
- Client sessions use the ids that Begin gave them and do not roll back a transaction that has committed (`TxRuns`).

## Model

| member | source | states |
|---|---|---|
| `Buffers.IntRoundTrip` | src/server/sdb/buffer_writer.cpp:19-22 | A 64-bit integer written in little-endian two's complement reads back, and the reader stops right after it, whatever follows |
| `Buffers.BoolRoundTrip` | src/server/sdb/buffer_writer.cpp:24-27 | A boolean reads back, whatever follows |
| `Buffers.StringRoundTrip` | src/server/sdb/buffer_reader.cpp:20-26 | A length-prefixed string reads back, whatever follows |
| `Buffers.IntReadsExactly` | src/server/sdb/buffer_reader.cpp:28-32 | A number is read exactly where its eight bytes stand |
| `Buffers.StringReadsExactly` | src/server/sdb/buffer_reader.cpp:20-26 | A string is read exactly where its length and bytes stand; everything else is a fault |
| `Buffers.LittleEndianAt` | src/server/sdb/buffer_writer.cpp:19-22 | Byte i of a number is its digit i to the base 256, least significant first |
| `Buffers.ZeroTail` | src/server/sdb/buffer_reader.cpp:28-32 | A run of zero bytes reads as the integer 0, or past the end of the buffer when it is shorter than eight bytes |
| `Buffers.BufferWriter.WriteString` | src/server/sdb/buffer_writer.cpp:14-17 | Appends the length and the bytes of the string |
| `Buffers.BufferReader.ReadInt` | src/server/sdb/buffer_reader.cpp:28-32 | Consumes what the decoder consumes and returns its result; reading past the buffer is an explicit fault |
| `Buffers.BufferReader.ReadBool` | src/server/sdb/buffer_reader.cpp:34-38 | Consumes one byte; any non-zero byte is true |
| `Buffers.BufferReader.ReadString` | src/server/sdb/buffer_reader.cpp:20-26 | Consumes a length and that many bytes; a negative or too large length is an explicit fault |
| `ByteStrings.LessExactly` | src/server/lsm/types.cpp:5-13 | One key is less than another exactly when at the first difference it ends or has the smaller unsigned byte |
| `Records.InRangeExactly` | src/server/lsm/iterators/mem_table_iterator.cpp:8-28 | A key is in a range exactly when it is not below the lower and not above the upper bound, for all four shapes of range |
| `Records.BeforeTransitive` | src/server/lsm/types.cpp:5-13 | The record order (key up, sequence number down, value up) is transitive |
| `Records.BeforeTotal` | src/server/lsm/types.cpp:5-13 | Two different records are always ordered one way |
| `Records.BeforeAsymmetric` | src/server/lsm/types.cpp:5-13 | The record order is strict |
| `Records.SortedUnique` | src/server/lsm/types.cpp:5-13 | A multiset of records has exactly one sorted arrangement |
| `Records.InsertSorted` | src/server/lsm/mem_table.cpp:15-17 | Inserting into the mem table keeps it sorted |
| `Records.RecordRoundTrip` | src/server/lsm/types.cpp:15-25 | A record written to bytes reads back, and reading stops where the next record starts |
| `Records.WriteRecord` | src/server/lsm/types.cpp:15-19 | The writer appends exactly the byte form of the record |
| `Records.ReadRecord` | src/server/lsm/types.cpp:21-25 | The reader returns what the record decoder returns and advances as far |
| `LruCaches.LruCache.Get` | src/server/cache/lru_cache.hpp:35-43 | A hit returns the value and moves its entry to the front; a miss changes nothing |
| `LruCaches.LruCache.Put` | src/server/cache/lru_cache.hpp:48-68 | The new entry is in front, other entries keep their order, and the least recent is dropped when the capacity is exceeded; capacity 0 stores nothing |
| `LruCaches.LruCache.Clear` | src/server/cache/lru_cache.hpp:82-85 | The cache is empty |
| `LruCaches.CacheIsRecencyPrefix` | src/server/cache/lru_cache.hpp:35-68 | After any reads, a cache of capacity c holds exactly the c most recently read pages, in order of recency |
| `LruCaches.CacheTransparent` | src/server/cache/lru_cache.hpp:35-68 | After any reads at any capacity, a hit returns what a load from disk returns |
| `LruCaches.Inclusion` | src/server/cache/lru_cache.hpp:35-68 | A page in a smaller cache is also in a larger one after the same reads |
| `LruCaches.MissesMonotone` | src/server/cache/lru_cache.hpp:35-68 | More capacity never causes more disk reads |
| `Pages.RecordsRoundTrip` | src/server/lsm/disk/page.cpp:20-47 | The records of a page body read back in order from their count |
| `Pages.PageRoundTrip` | src/server/lsm/disk/page_builder.cpp:32-63 | A built page has the fixed size and loads back to its records |
| `Pages.PageChecksumDetects` | src/server/lsm/disk/page.cpp:20-47 | A page body with a different checksum than the stored one is refused |
| `Pages.Load` | src/server/lsm/disk/page.cpp:20-47 | Loads the header and then record by record, with the same result as decoding the page; faults included |
| `Pages.ReadRecords` | src/server/lsm/disk/page.cpp:20-47 | The loop over the stored count returns what the list decoder returns |
| `Pages.Find` | src/server/lsm/disk/page.cpp:49-54 | The first position in a page whose key is not below the key asked for |
| `Pages.PageBuilder.AddRecord` | src/server/lsm/disk/page_builder.cpp:27-30 | The record goes into the page buffer after those already there and is counted |
| `Pages.PageBuilder.Extract` | src/server/lsm/disk/page_builder.cpp:32-43 | Returns the page with its final count and checksum |
| `Pages.PageBuilder.Clear` | src/server/lsm/disk/page_builder.cpp:45-52 | The builder is empty again |
| `SSTables.PackedPages` | src/server/lsm/disk/ss_table_builder.cpp:33-44 | Packing loses and reorders nothing, every page fits, and a page is closed only when the next record did not fit |
| `SSTables.MaxSeqIsMax` | src/server/lsm/disk/ss_table_builder.cpp:33-44 | The header number is the largest sequence number of the table, and one of its records has it |
| `SSTables.HeaderRoundTrip` | src/server/lsm/ss_table.cpp:27-36 | The table header reads back from the start of a file |
| `SSTables.PageSlice` | src/server/lsm/ss_table.cpp:65-80 | Page i of a table file is found at its offset, whole |
| `SSTables.SSTableBuilder.Add` | src/server/lsm/disk/ss_table_builder.cpp:33-44 | The file plus the open page always hold exactly the records added so far |
| `SSTables.SSTableBuilder.FlushPage` | src/server/lsm/disk/ss_table_builder.cpp:62-70 | The open page moves to the file, nothing else changes |
| `SSTables.SSTableBuilder.Finish` | src/server/lsm/disk/ss_table_builder.cpp:46-60 | The finished file is the table file of the records added |
| `SSTables.BuildTable` | src/server/lsm/mem_table.cpp:24-42 | Writing a list of records gives the table file of that list |
| `SSTables.SSTable.GetPage` | src/server/lsm/ss_table.cpp:65-80 | For any cache contents and any capacity, including 0, returns the decoded page on disk |
| `SSTables.SSTable.LowerBound` | src/server/lsm/ss_table.cpp:42-59 | The first page whose largest key is not below the key, or the page count |
| `TableIterators.SSTableIterator.Create` | src/server/lsm/iterators/ss_table_iterator.cpp:12-23 | The new iterator has exactly the records of the range left to return |
| `TableIterators.SSTableIterator.Start` | src/server/lsm/iterators/ss_table_iterator.cpp:12-23 | The start position skips exactly the records below the lower bound |
| `TableIterators.SSTableIterator.HasMoreIsExact` | src/server/lsm/iterators/ss_table_iterator.cpp:25-34 | HasMore holds exactly while records of the range are left |
| `TableIterators.SSTableIterator.Next` | src/server/lsm/iterators/ss_table_iterator.cpp:36-41 | Returns the first record left and leaves the rest |
| `TableIterators.SSTableIterator.NextImpl` | src/server/lsm/iterators/ss_table_iterator.cpp:43-56 | Steps over page ends: returns the record at the position in the whole table, or none at its end |
| `TableIterators.ScanTable` | src/server/lsm/ss_table.cpp:38-40 | A scan returns exactly the records of the range, in order, also when the versions of a key span pages |
| `TableIterators.BuildThenScan` | src/server/lsm/disk/ss_table_builder.cpp:33-70 | Building a file from sorted records and scanning it gives exactly the records of the range, for every page size they fit, every cache capacity and every range; a record is returned exactly when its key is not below the lower and not above the upper bound, a missing bound excluding nothing |
| `TableIterators.ProbeIsLeast` | src/server/lsm/iterators/mem_table_iterator.cpp:7-16 | The probe with the largest sequence number and an empty value separates keys below the bound from the rest |
| `TableIterators.MemTableIterator.constructor` | src/server/lsm/iterators/mem_table_iterator.cpp:7-16 | The new iterator has exactly the records of the range left |
| `TableIterators.MemTableIterator.HasMoreIsExact` | src/server/lsm/iterators/mem_table_iterator.cpp:18-26 | HasMore holds exactly while records of the range are left |
| `TableIterators.MemTableIterator.Next` | src/server/lsm/iterators/mem_table_iterator.cpp:28-32 | Returns the first record left and leaves the rest |
| `Merging.MergeIterator.Add` | src/server/lsm/iterators/merge_iterator.cpp:30-37 | Adding an input adds exactly its records to what is pending |
| `Merging.MergeIterator.Next` | src/server/lsm/iterators/merge_iterator.cpp:21-28 | Returns a smallest pending record and takes exactly it away |
| `Merging.Merge` | src/server/lsm/iterators/merge_iterator.cpp:9-41 | The merge of sorted inputs is sorted, is their multiset union and has their total count |
| `FileNames.NumberReadsBack` | src/server/lsm/lsm.cpp:21-28 | The number in a file name of any width reads back |
| `FileNames.NamesSortExactly` | src/server/wal/writer.cpp:87-91 | Names with four padded digits sort by number up to a limit if and only if the limit is below 10000 |
| `FileNames.SortedNumbers` | src/server/wal/reader.cpp:19-37 | Sorts the names of a directory as strings and reads the numbers off them: each file once, in name order, which is number order while numbers have four digits |
| `FileNames.ListingAscendsExactly` | src/server/lsm/lsm.cpp:42-44 | Files 0 to n are listed in number order if and only if n is below 10000 |
| `FileNames.NextIsTaken` | src/server/wal/writer.cpp:34-38 | With files 0 to 10000 the number after the last name is that of an existing file |
| `TableNumbers.FlushFromConsecutive` | src/server/lsm/lsm.cpp:97-130 | As long as files are numbered 0, 1, 2, ... by age, a flush keeps them so |
| `TableNumbers.FlushKeepsExactly` | src/server/lsm/lsm.cpp:114 | A flush keeps the directory such that a restart, which lists names, reads the tables in age order, if and only if the files are numbered 0, 1, 2, ... and are fewer than 10000 |
| `TableNumbers.CompactKeepsFileExactly` | src/server/lsm/lsm.cpp:157-207 | Compact removes the file it has just written if and only if its number is that of an open table, which cannot be while numbers grow with age |
| `TableNumbers.CompactThenFlush` | src/server/lsm/lsm.cpp:114 | After compacting n tables and flushing k, a restart reads the tables in age order if and only if k is 0, or n is 0 and k below 10000 |
| `TableNumbers.SecondCompactRemovesItsOwnFile` | src/server/lsm/lsm.cpp:174-202 | Flush, flush, Compact, flush, Compact leaves no table file at all |
| `Levels.ChronicleIs` | src/server/lsm/types.cpp:5-13 | A set of records with distinct numbers has one arrangement by sequence number |
| `Levels.KeyWalkIsMerge` | src/server/lsm/iterators/lsm_key_iterator.cpp:9-58 | On ordered levels, the newest-first walk for a key equals the merge of all levels cut to that key |
| `Levels.KeyWalkNeedsOrder` | src/server/lsm/iterators/lsm_key_iterator.cpp:35-58 | On levels out of age order the walk can return an older version first |
| `Levels.KeyWalkIsVersions` | src/server/lsm/iterators/lsm_key_iterator.cpp:35-58 | The walk lists the versions of a key newest first; the first is the value last put |
| `Trees.PutKeeps` | src/server/lsm/lsm.cpp:54-95 | Put keeps the tree invariant (levels sorted and in age order, each number once, tables at most the persisted number, memory above it) and appends one record to the log |
| `Trees.FreezeKeeps` | src/server/lsm/lsm.cpp:74-95 | Freezing the mem table keeps the invariant and the log |
| `Trees.FlushKeeps` | src/server/lsm/lsm.cpp:97-130 | A flush keeps the invariant, the level list and the log |
| `Trees.CompactKeeps` | src/server/lsm/lsm.cpp:157-207 | Replacing all tables by one that thins their merge keeps the invariant; a strategy that keeps everything keeps the log |
| `Lsm.Lsm.constructor` | src/server/lsm/lsm.cpp:40-52 | Opening an empty directory gives an empty tree with next number 1 |
| `Lsm.Lsm.Put` | src/server/lsm/lsm.cpp:54-95 | The log grows by exactly the new record with the next sequence number; the mem table is frozen exactly when it gets one record more than its size |
| `Lsm.Lsm.PutAt` | src/server/lsm/lsm.cpp:60-68 | Applied, and appended to the log, exactly when the number is the next one; otherwise nothing changes |
| `Lsm.Lsm.Flush` | src/server/lsm/lsm.cpp:97-130 | All frozen mem tables become table files, oldest first; level list and log are unchanged, the persisted number follows; the files on disk too |
| `Lsm.Lsm.FlushFront` | src/server/lsm/lsm.cpp:108-127 | One round: the oldest frozen mem table becomes the newest table |
| `Lsm.Lsm.Publish` | src/server/lsm/lsm.cpp:117-124 | The table appears and its mem table disappears in one step, and the persisted number grows to its largest |
| `Lsm.Lsm.WriteTable` | src/server/lsm/mem_table.cpp:24-42 | The new file holds exactly the records and opens as a table with them |
| `Lsm.Lsm.Get` | src/server/lsm/lsm.cpp:132-145 | Returns the value last put for the key, or nothing |
| `Lsm.Lsm.ScanKey` | src/server/lsm/lsm.cpp:147-150 | Returns all versions of the key, newest first |
| `Lsm.Lsm.ScanRange` | src/server/lsm/iterators/lsm_range_iterator.cpp:12-29 | Returns, sorted, exactly the records of the range over all levels; a record is returned exactly when its key is not below the lower and not above the upper bound, a missing bound excluding nothing |
| `Lsm.Lsm.Compact` | src/server/lsm/lsm.cpp:157-207 | The tables become one that holds what the strategy keeps of their sorted union; numbering and files follow the code |
| `Lsm.Lsm.MergeTables` | src/server/lsm/lsm.cpp:168-172 | Returns the sorted union of all tables and changes no record |
| `Lsm.Lsm.InstallTable` | src/server/lsm/lsm.cpp:174-202 | One table with the thinned merge takes the place of all; the invariant is kept, and a full merge keeps the log |
| `Lsm.Lsm.RemoveFiles` | src/server/lsm/lsm.cpp:200-202 | Exactly the files of the given tables are removed |
| `Lsm.LsmKeyIterator.Create` | src/server/lsm/iterators/lsm_key_iterator.cpp:9-22 | The new iterator has the whole newest-first walk left |
| `Lsm.LsmKeyIterator.Next` | src/server/lsm/iterators/lsm_key_iterator.cpp:28-33 | Returns the first record of the walk and leaves the rest |
| `Lsm.LsmKeyIterator.Advance` | src/server/lsm/iterators/lsm_key_iterator.cpp:54-58 | Moves past exhausted levels without changing what is left |
| `Lsm.LsmKeyIterator.GetNextIterator` | src/server/lsm/iterators/lsm_key_iterator.cpp:35-52 | Opens the next older level: frozen mem tables newest first, then tables newest first |
| `LsmRuns.Execute` | src/server/lsm/lsm.cpp:54-207 | A tree on files driven by any list of Put, Flush, Compact and Get answers every Get like a plain map |
| `LsmRuns.LastValueIsLookup` | src/server/lsm/lsm.cpp:132-145 | The newest value in the log is the value in the map that the log builds |
| `LsmRuns.KeyScanIsRangeScan` | src/server/lsm/iterators/lsm_range_iterator.cpp:12-29 | For every valid tree the fast key iterator yields what a range scan of that key yields |
| `LsmRuns.OpenKeeps` | src/server/lsm/lsm.cpp:40-52 | Opening the tables gives a valid tree whose log is the prefix of the old log that was in tables |
| `LsmRuns.Restart` | src/server/lsm/lsm.cpp:40-52 | Init over the directory of a tree, listed by name and below 10000 files, finds the same tables in the same order and continues after the largest number |
| `SharedMutexes.TryLockKeeps` | src/server/io/shared_mutex.cpp:15-48 | One attempt to lock keeps the mutex invariant |
| `SharedMutexes.UnlockKeeps` | src/server/io/shared_mutex.cpp:20-57 | An unlock keeps the mutex invariant and wakes every sleeper |
| `SharedMutexes.EveryRun` | src/server/io/shared_mutex.cpp:15-57 | In every interleaving an exclusive holder excludes all others, the state is -1 exactly when there is one and otherwise counts the shared holders, a sleeping shared waiter implies an exclusive holder, and a free mutex has no sleeper |
| `SharedMutexes.SharedMutex.Attempt` | src/server/io/shared_mutex.cpp:35-48 | The object does what one attempt of the state machine does |
| `SharedMutexes.SharedMutex.UnlockShared` | src/server/io/shared_mutex.cpp:20-23 | The object does what the shared unlock of the state machine does, wake-ups included |
| `SharedMutexes.SharedMutex.UnlockExclusive` | src/server/io/shared_mutex.cpp:30-33 | The object does what the exclusive unlock of the state machine does, wake-ups included |
| `LsmInterleaving.StepKeeps` | src/server/lsm/lsm.cpp:74-207 | Every step of Put, Flush, Compact or Get between two suspension points keeps locks, conservation and the bookkeeping of every coroutine |
| `LsmInterleaving.LocksKept` | src/server/io/shared_mutex.cpp:15-57 | Every step keeps both mutexes sound and every coroutine where its mutex says: asleep, woken or holding |
| `LsmInterleaving.OneMaintainer` | src/server/lsm/lsm.cpp:97-99 | Flush and Compact never run together, by the invariant of the maintenance mutex |
| `LsmInterleaving.EveryRun` | src/server/lsm/lsm.cpp:54-207 | In every interleaving at every suspension point, waits for both mutexes included: no inserted record is lost or held twice, numbers are unique, the mem table popped at publish is the one in the file, Flush and Compact never overlap, and a Get that ends has read the levels of a single instant |
| `LsmInterleaving.EveryFreeze` | src/server/lsm/lsm.cpp:74-95 | In every run the mem table stays within its size and every frozen one exceeds it by exactly one record |
| `LsmInterleaving.PutsMayInsertOutOfOrder` | src/server/lsm/lsm.cpp:54-58 | A Put that sleeps while a Get reads is overtaken by the next Put and leaves the smaller number in the newer level |
| `LsmInterleaving.EveryOrderlyRun` | src/server/lsm/lsm.cpp:54-145 | In every run that never freezes a mem table over an older pending Put, newer levels hold only larger numbers and a Get that ends has the newest version of its key first |
| `LsmInterleaving.StrandedPut` | src/server/lsm/lsm.cpp:74-95 | The condition is needed: a Put older than a record in the mem table being frozen, once it has its turn, leaves its record in a level above a larger number |
| `WalEvents.EventRoundTrip` | src/server/wal/events/io.cpp:24-35 | An event written with its tag parses back, and parsing stops where the next event starts |
| `WalEvents.UpsertRoundTrip` | src/server/wal/events/lsm_storage_upsert_event.cpp:20-39 | An upsert event reads back from its fields |
| `WalEvents.FlushEvent` | src/server/wal/events/io.cpp:31-35 | Appends exactly the bytes of the event |
| `WalEvents.ParseEvent` | src/server/wal/events/io.cpp:24-29 | Returns what the event decoder returns; an unknown tag is a fault |
| `WalFiles.PageReadsBack` | src/server/wal/recovery.cpp:24-31 | A page gives back its events; its zero tail stops the reader cleanly when it is empty or at least eight bytes, and otherwise makes it read outside the page |
| `WalFiles.AppendKeeps` | src/server/wal/writer.cpp:43-58 | Appending an event keeps the order, loses nothing and never splits an event over segments |
| `WalFiles.AppendPacks` | src/server/wal/writer.cpp:43-58 | A segment is closed only when the first event of the next one no longer fits it |
| `WalFiles.OnPage` | src/server/wal/recovery.cpp:24-31 | The parse loop returns the events of the page up to its end or first fault |
| `WalFiles.ReadLog` | src/server/wal/reader.cpp:19-37 | Reads every segment of the directory once, in the order of the names |
| `WalFiles.ReadFile` | src/server/wal/reader.cpp:39-65 | Reads pages until the end of the file or the first fault |
| `WalFiles.Writer.constructor` | src/server/wal/writer.cpp:31-41 | Opens the segment after the last name for appending; with four-digit numbers that is a new one and the others are left alone |
| `WalFiles.Writer.Write` | src/server/wal/writer.cpp:43-58 | The log grows by exactly this event and files hold exactly the log; the next segment is opened exactly when the event no longer fits the page, so that every closed segment was full for the event that follows it |
| `WalFiles.Writer.FlushPage` | src/server/wal/writer.cpp:60-91 | The open page is padded to the page size and the next segment opened; an empty page is left alone |
| `WalFiles.Writer.LoseFiles` | src/server/wal/cleaner.cpp:35-52 | When other files than the open one are removed, the files still hold exactly what is left of the log |
| `WalFiles.WalRoundTrip` | src/server/wal/reader.cpp:19-65 | With at most 10000 segments and no tail of 1 to 7 bytes, reading the directory in name order gives the events of earlier runs and then every event of this run, once and in order, never outside a page; closed segments are exactly one page |
| `WalFiles.SegmentsListedExactly` | src/server/wal/reader.cpp:19-37 | The segments of a first run are listed in the order written if and only if there are at most 10000 |
| `WalFiles.ReaderStaysInsideExactly` | src/server/wal/reader.cpp:39-65 | The reader never reads outside a page if and only if no closed segment leaves a tail of 1 to 7 bytes |
| `WalFiles.ShortTailOccurs` | src/server/wal/writer.cpp:60-75 | An event of 4095 bytes followed by another leaves such a tail |
| `Recovery.ReplayRebuilds` | src/server/lsm/lsm.cpp:60-68 | Replay rebuilds a storage from its persisted entries and the log of the rest, whatever else and however old the log holds |
| `Recovery.ReplayRebuildsExactly` | src/server/lsm/lsm.cpp:60-68 | With one event for every entry no table has, replay rebuilds the storage if and only if the log lists them in number order |
| `Recovery.RecoveryIsExact` | src/server/wal/recovery.cpp:39-49 | A restart brings back every entry of every storage, each once and in order |
| `Recovery.UpsertKeeps` | src/server/table/storage/lsm_storage.cpp:107-113 | A logged upsert keeps every storage recoverable |
| `Recovery.CommitKeeps` | src/server/transaction/storage.cpp:42-50 | A logged commit keeps every storage recoverable |
| `Recovery.FlushKeeps` | src/server/lsm/lsm.cpp:97-130 | A flush keeps every storage recoverable |
| `Recovery.CleanKeeps` | src/server/wal/cleaner.cpp:25-66 | Cleaning never changes what a recovery rebuilds, for any set of storages sharing the log |
| `Recovery.RestartKeeps` | src/server/wal/writer.cpp:31-41 | A restart rebuilds all storages, keeps them recoverable and opens a new segment |
| `Recovery.EveryHistoryRecovers` | src/server/wal/recovery.cpp:24-49 | After every history of upserts, commits, flushes, cleanings and restarts whose writer still has its file, a restart rebuilds every storage exactly |
| `Recovery.FreshDatabase` | src/server/wal/writer.cpp:31-41 | A new database meets the invariant the histories start from |
| `Recovery.UpsertSurvivesExactly` | src/server/wal/cleaner.cpp:35-52 | An upsert survives a restart if and only if the writer starts a new segment or its segment file is still in the directory |
| `Recovery.CleanUnlinksExactly` | src/server/wal/cleaner.cpp:35-52 | Cleaning removes the segment being written if and only if that segment is obsolete |
| `Recovery.CleanedWriterLosesUpsert` | src/server/wal/cleaner.cpp:35-52 | From a new database: upsert, flush, clean, upsert, restart loses the second entry |
| `Recovery.GapBlocksReplay` | src/server/lsm/lsm.cpp:60-68 | A log without the next number is not replayed at all |
| `Recovery.CommitSurvivesExactly` | src/server/wal/events/tx_storage_commit_event.cpp:26-29 | A commit survives cleaning if and only if a segment with its event is kept |
| `Recovery.CleanForgetsCommit` | src/server/wal/events/tx_storage_commit_event.cpp:26-29 | Cleaning one flushed upsert and its commit keeps the entry and forgets the commit |
| `Cleaning.Cleaner.AccumulatePersistence` | src/server/wal/cleaner.cpp:58-65 | A segment stays marked persistent exactly while every event seen was |
| `Cleaning.Cleaner.OnEvents` | src/server/wal/cleaner.cpp:25-33 | A segment with events is marked by whether all are persistent; one without is not marked |
| `Cleaning.Cleaner.DeleteObsoleteSegments` | src/server/wal/cleaner.cpp:35-52 | A file is left exactly when its segment is not marked or a follower may still need it; the files left are untouched |
| `Cleaning.CleanFiles` | src/server/wal/cleaner.cpp:70-85 | The cleaner on byte files leaves a segment exactly when it has no events, is at or above the retained one, or holds an upsert of an unknown storage or with a number above the persisted one; what is left is what the cleaning step of the recovery model keeps |
| `Retention.CleanStep` | src/server/database/jobs/wal_cleaner.cpp:31-42 | With the minimum of the follower registry, each file the cleaner removes is a removal that the streaming protocol allows, and no segment that a registered follower needs goes |
| `StorageRecovery.PutRepresents` | src/server/lsm/lsm.cpp:54-68 | A Put on the tree is an entry of the storage in the recovery model |
| `StorageRecovery.FlushRepresents` | src/server/lsm/lsm.cpp:97-130 | A flush of the tree is a growth of the persisted prefix |
| `StorageRecovery.FlushAllRepresents` | src/server/lsm/lsm.cpp:97-130 | The whole flush loop is a growth of the persisted prefix |
| `StorageRecovery.OpenRepresents` | src/server/lsm/lsm.cpp:40-52 | Opening the files gives the persisted prefix |
| `StorageRecovery.RecoverFromLog` | src/server/table/storage/lsm_storage.cpp:102-105 | Replaying events into the real tree has the effect of replay in the recovery model |
| `StorageRecovery.CrashAndRecover` | src/server/wal/recovery.cpp:39-49 | For one tree and a log that holds what its files lack: Init and replay bring back the whole tree and its next number |
| `Replication.PrefixSafety` | src/server/lsm/lsm.cpp:60-68 | Whatever genuine events arrive, lost, repeated or reordered, a follower storage stays a prefix of the leader's and never shrinks |
| `Replication.GrownPageReapplies` | src/server/wal/tail.hpp:21-27 | Applying a page and then the grown page equals applying the grown page once, for every page that lists no number before the one below it |
| `Replication.ReappliesExactly` | src/server/wal/tail.hpp:21-27 | Re-applying a grown page is harmless to every storage if and only if the page never lists a number before the one below it, however it grows |
| `Replication.TwiceIsOnceExactly` | src/server/wal/tail.hpp:21-27 | Applying a page twice equals applying it once on every storage exactly then |
| `Replication.ReorderedPageDiffers` | src/server/wal/tail.hpp:21-27 | A page with number 3 before number 2 changes a storage on the second pass |
| `Replication.Follower.ProcessPage` | src/server/replication/follower.cpp:32-52 | The page is mirrored under its segment number and its events are replayed into every storage |
| `Replication.Follower.ProcessPages` | src/server/replication/follower.cpp:32-52 | Any stream of genuine pages replays their events and keeps every storage a prefix of the leader's |
| `Replication.FollowerConverges` | src/server/replication/follower.cpp:32-52 | A follower ends equal to its leader once the whole log has passed in order, whatever arrived in between or again |
| `Streaming.FollowerRegistry.Register` | src/server/replication/follower_registry.cpp:8-13 | A fresh token is added with its position, the others stay |
| `Streaming.FollowerRegistry.MinRetainedSegment` | src/server/replication/follower_registry.cpp:28-38 | The least segment any follower needs, attained by one; nothing without followers |
| `Streaming.CollectPagesFrom` | src/server/wal/tail.cpp:57-77 | Exactly the non-empty pages of later segments, and of the position's own segment if its page is still due, in the order of the names |
| `Streaming.Pump.SendPages` | src/server/services/replication_service/replication_service.cpp:72-143 | The loop over one poll does what the page steps of the protocol do: the complete pages before the first short one are sent and the registry follows them; the short one is delivered unless it was before with the same size, and is asked for again |
| `Streaming.ListKeeps` | src/server/wal/tail.cpp:62-71 | A listing made while the leader writes and cleans covers everything due that was not missing from the start |
| `Streaming.ReadKeeps` | src/server/wal/tail.cpp:26-53 | Segments read one by one, with writes and cleaning in between, stay ascending and complete except for the last; a segment gone by then aborts the poll |
| `Streaming.SendKeeps` | src/server/services/replication_service/replication_service.cpp:72-143 | Sending a page keeps the stream ascending without skipping anything that was there, and the registry behind what was sent |
| `Streaming.EveryStream` | src/server/services/replication_service/replication_service.cpp:72-143 | On one leader life, whatever was missing at the start: complete segments sent ascend, each once, none that was there or was written later is skipped, and every one not yet sent is still in the directory whatever the cleaner does |
| `Streaming.EveryTail` | src/server/services/replication_service/replication_service.cpp:72-143 | In every run a tail that counts as sent is the last page delivered, and a poll whose last page is still growing ends with that page delivered |
| `Streaming.ConsecutiveExactly` | src/server/wal/tail.cpp:57-77 | Every run sends consecutive segments if and only if no segment from the follower's position to the active one is missing when it attaches |
| `Streaming.HoleIsSkipped` | src/server/wal/cleaner.cpp:35-52 | A segment that the cleaner removed before the follower attached is skipped: a run sends a later one without it |
| `Streaming.ShortSegmentBlocks` | src/server/services/replication_service/replication_service.cpp:78-143 | A stream at a short segment that no longer grows, as a restarted leader leaves it, never sends another complete segment |
| `Streaming.NextSegmentToFetch` | src/server/wal/tail.cpp:79-92 | The first segment that is missing or short; all before it are complete |
| `Following.Follow` | src/server/replication/follower.cpp:32-52 | A follower that has replayed the log before the segment it asks for, fed by a stream of one leader life without holes, has replayed the leader's log up to the last complete segment sent and the tail delivered of the next one, and nothing that is not the leader's |
| `Following.CompleteArrives` | src/server/services/replication_service/replication_service.cpp:72-143 | The events that arrive hold those of the complete segments, in order |
| `Following.TailArrives` | src/server/services/replication_service/replication_service.cpp:72-143 | The events that arrive hold those of the complete segments and then those of the tail |
| `TxStorage.AcquireKeeps` | src/server/transaction/storage.cpp:77-89 | An attempt to lock a row keeps the lock tables inverse and the sleepers on held rows |
| `TxStorage.ReleaseKeeps` | src/server/transaction/storage.cpp:91-109 | A release frees exactly the rows of that transaction and keeps the invariant |
| `TxStorage.EveryRun` | src/server/transaction/storage.cpp:77-109 | In every run the two lock tables are inverse and a sleeper's row is held, so no wake-up is lost |
| `TxStorage.ReleaseWakesAll` | src/server/io/condition_variable.cpp:29-37 | After a release that freed something nobody sleeps |
| `TxStorage.HolderWaitsForItself` | src/server/transaction/storage.cpp:77-89 | Row locks are not re-entrant: the holder that asks again waits, in every run, until its own commit or rollback |
| `TxStorage.IssuedAgainExactly` | src/server/transaction/storage.cpp:71-75 | After a restart exactly the ids from 10 on that are above every committed one are issued |
| `TxStorage.Storage.Rollback` | src/server/transaction/storage.cpp:34-40 | Marks the transaction and frees exactly its rows |
| `TxStorage.Storage.Attempt` | src/server/io/condition_variable.cpp:14-27 | One pass of the wait: takes a free row, or sleeps on a held one |
| `TxStorage.Storage.ReleaseAllLocks` | src/server/transaction/storage.cpp:91-109 | Frees exactly the rows of the transaction and wakes every sleeper |
| `TxStorage.Storage.RecoverAll` | src/server/transaction/storage.cpp:71-75 | Replaying commits marks exactly them and continues numbering after the largest |
| `TxValues.ValueRoundTrip` | src/server/table/transactional_table.cpp:26-52 | A transactional value parses back from its bytes |
| `TxValues.FreezeSetsTheFlag` | src/server/table/transactional_table.cpp:75-78 | Freezing a row changes only its flag and does not make its record larger |
| `FirstPerKey.FirstIsNewest` | src/server/table/transactional_table.cpp:139-151 | In versions listed newest first, the first that qualifies is the newest that does |
| `FirstPerKey.PassIsFirst` | src/server/table/transactional_table.cpp:80-84 | One pass over sorted rows that skips the key taken last returns, for every key, its newest qualifying version |
| `FirstPerKey.PassIsNewest` | src/server/table/transactional_table.cpp:80-84 | A record is taken by the pass exactly when it qualifies and no newer one of its key does |
| `FirstPerKey.OnePerKeyAscends` | src/server/table/transactional_table.cpp:188-191 | Such a pass returns keys strictly ascending, each at most once |
| `TxTables.AnswerIsNewest` | src/server/table/transactional_table.cpp:134-155 | A lookup returns the newest version that is the reader's own, committed or frozen, and nothing if that is a tombstone |
| `TxTables.LookupOfAnInstant` | src/server/table/transactional_table.cpp:139-151 | A lookup suspended between versions, while running transactions commit, answers as of the moment it judged the newest version, if only that one can belong to a running transaction |
| `TxTables.ScanIsLookup` | src/server/table/transactional_table.cpp:177-195 | Over one sorted record list with committed frozen rows: keys strictly ascend, and the scan agrees with Lookup on a key if and only if Lookup does not stop at a tombstone above a version still listed |
| `TxTables.OneVersionPerKey` | src/server/table/transactional_table.cpp:60-86 | Compaction leaves at most one version of a key, with its own sequence number |
| `TxTables.CompactKeyExactly` | src/server/table/transactional_table.cpp:60-86 | Compacting the versions of a key keeps a reader's answer if and only if nothing is resurrected, displaced or dropped |
| `TxTables.CompactTreeExactly` | src/server/table/transactional_table.cpp:60-86 | For a whole tree, key and reader: the answer is unchanged if and only if a version in memory decides it or compacting the tables is harmless |
| `TxTables.SettledIsUndisturbed` | src/server/table/transactional_table.cpp:60-86 | Tables of live rows, committed or of no interest to the reader, are compacted without effect |
| `TxTables.CompactionKeepsLookups` | src/server/table/transactional_table.cpp:60-86 | On such tables every lookup of every key is unchanged |
| `TxTables.DeletedValueComesBack` | src/server/table/transactional_table.cpp:66-68 | A committed deletion is undone by compaction, and a scan ignores it even before |
| `TxTables.RunningWriterHidesCommitted` | src/server/table/transactional_table.cpp:70-84 | The version of a running transaction pushes the committed one out of the compacted table |
| `TxTables.FrozenRowIsForgotten` | src/server/table/transactional_table.cpp:70-73 | A frozen row of a forgotten transaction is read by Lookup, left out by Scan and dropped by compaction |
| `TxTables.LeftoverIsAdopted` | src/server/transaction/storage.cpp:71-75 | A row of a transaction that never committed becomes visible once its id is issued again and committed |
| `TransactionalTables.FindVersion` | src/server/table/transactional_table.cpp:139-154 | The loop, with the transaction table of each moment, returns the first version visible when it is judged, or the fault of a row that does not parse |
| `TransactionalTables.ListRows` | src/server/table/transactional_table.cpp:181-193 | The loop returns the rows of the specified scan, each judged by the transaction table of its moment, and a fault exactly when some row does not parse |
| `TransactionalTables.LsmEngineIterator.Next` | src/server/table/storage/lsm_storage.cpp:31-38 | Hands out the next row and remembers its sequence number |
| `TransactionalTables.CompactRows` | src/server/table/transactional_table.cpp:60-86 | The loop writes the rows of the specified compaction, each judged by the transaction table of its moment: a row of a committed transaction with the frozen flag set, any other byte for byte, each with its own sequence number although rows carry none |
| `TransactionalTables.CompactRecords` | src/server/table/storage/lsm_storage.cpp:77-81 | The strategy run on the records of the tree gives the specified compaction, and a fault exactly when some row does not parse |
| `TransactionalTables.StrategyKeeps` | src/server/table/storage/lsm_storage.cpp:71-85 | The strategy keeps keys, numbers, order and record size, so the tree may use it |
| `TransactionalTables.RangeHoldsVersions` | src/server/lsm/iterators/lsm_range_iterator.cpp:12-29 | What a range scan of the tree reads of a key in the range are exactly its versions, newest first |
| `TransactionalTables.TransactionalTable.Lookup` | src/server/table/transactional_table.cpp:134-155 | On the real tree: the newest visible version of the key |
| `TransactionalTables.TransactionalTable.Write` | src/server/table/storage/lsm_storage.cpp:107-113 | With the row lock the new version is appended to the log of the tree; without it nothing is written |
| `TransactionalTables.TransactionalTable.Upsert` | src/server/table/transactional_table.cpp:117-132 | Afterwards the writer, and once it has committed everybody, reads the new value; the others read what they read before |
| `TransactionalTables.TransactionalTable.Delete` | src/server/table/transactional_table.cpp:157-175 | Nothing to delete if and only if the transaction sees no value; otherwise it sees none afterwards |
| `TransactionalTables.TransactionalTable.Scan` | src/server/table/transactional_table.cpp:177-195 | Keys strictly ascend; the rows are exactly the newest versions, within the bounds, that are the reader's own or committed and no tombstones; for every key within the bounds they show what Lookup returns if and only if no tombstone hides an older version |
| `TransactionalTables.TransactionalTable.Compact` | src/server/table/transactional_table.cpp:197-199 | Compacts the tree; for every key and reader the answer is unchanged if and only if nothing was disturbed; the new table holds exactly the newest kept version of each key, and those of committed transactions are read by everybody with an empty transaction table; a row that does not parse stops it and leaves the tree as it was |
| `TxRuns.ActionKeeps` | src/server/transaction/storage.cpp:28-109 | Every step of begin, lock, write, commit, rollback and compaction, with the number taken at the lock grant and the insert later, keeps: a version or granted write of a running transaction has its row locked by it and the largest number of the row, numbers are unique, a frozen row is committed |
| `TxRuns.EveryRunIsIsolated` | src/server/table/transactional_table.cpp:117-155 | In every run of one process life: a running transaction's version has its row locked by it and is the newest of the row, so two running transactions never both have a version of a row; a lookup returns the newest version that is the reader's own or committed; frozen rows are committed |
| `TxRuns.NoPutAboveRunning` | src/server/lsm/lsm.cpp:54-58 | In every run the number of a write under way is below that of every running transaction's version of its row, whatever became of its own transaction; while that is running it is above everything else on the row |
| `TxRuns.SuspendedLookup` | src/server/table/transactional_table.cpp:134-155 | In every run a lookup suspended between versions while others commit answers as of one moment |
| `TxRuns.WriteIsPrivate` | src/server/table/transactional_table.cpp:117-132 | A write changes only what its writer reads until the writer commits |
| `TxRuns.TreeCompactionIsAction` | src/server/table/storage/lsm_storage.cpp:27-85 | A compaction of the tree is a compaction step of these runs: rows are dropped or frozen, never changed |
| `TxLevels.DisciplinedWalk` | src/server/lsm/lsm.cpp:54-95 | In every run in which no transaction releases its locks under a write with a number, whatever the interleaving of inserts, freezes and merges, the walk over the levels finds the versions of every row in the order of the log |
| `TxLevels.PutWalksExactly` | src/server/lsm/lsm.cpp:74-95 | A Put into levels ordered row by row leaves the walk over its row in order if and only if no older level has a larger number of that row |
| `TxLevels.LatePutHidesWrite` | src/server/lsm/lsm.cpp:74-75 | The discipline is needed: a run in which a transaction commits under its own write, the mem table fills meanwhile, and the next writer of the row reads the late record instead of its own newer write |
| `TxLevels.MoveKeeps` | src/server/lsm/lsm.cpp:74-95 | Every move keeps the levels sorted and holding exactly the log, and under the discipline every row in order over the levels |
| `TxPasses.ScanOfAnInstant` | src/server/table/transactional_table.cpp:176-195 | What a scan suspended between rows shows of a key is what an undisturbed scan shows at the moment the newest version of the key is judged, when only transactions that were running commit and only that version can belong to one |
| `TxPasses.SuspendedScan` | src/server/table/transactional_table.cpp:176-195 | In every run, for every key of the table, such a scan is one of that moment |
| `TxPasses.CompactOfAnInstant` | src/server/table/transactional_table.cpp:60-86 | A compaction suspended between rows, while transactions commit and nothing else happens to them, leaves every key and reader the answer that a compaction at its end leaves |
| `TxPasses.CompactInWrites` | src/server/table/transactional_table.cpp:60-86 | A compaction writes exactly the newest version of each key that is no tombstone and of a committed or running transaction, frozen if committed and byte for byte otherwise |
| `TxPasses.KeptIsFound` | src/server/table/transactional_table.cpp:143 | A committed version that a compaction keeps is read by everybody with an empty transaction table |
| `TxPasses.RollbackLosesRow` | src/server/table/transactional_table.cpp:60-86 | With a rollback meanwhile it does not: the row rolled back takes the place of the committed one |
| `Durability.NewEngine` | src/server/lsm/lsm.cpp:40-52 | Empty trees and an empty log: the state every run can start from |
| `Durability.Engine.Upsert` | src/server/table/storage/lsm_storage.cpp:107-113 | Tree first, then log: the storage grows by the entry, and every storage can still be rebuilt from its files and the bytes of the log; the written storage takes the room of one record more, the others none |
| `Durability.Engine.Flush` | src/server/lsm/lsm.cpp:97-130 | No storage changes, and every one can still be rebuilt |
| `Durability.Execute` | src/server/table/storage/lsm_storage.cpp:107-113 | Any list of upserts, flushes and commits over any number of storages: each storage holds exactly its upserts, in order |
| `Durability.Engine.Clean` | src/server/wal/cleaner.cpp:70-85 | The cleaner on the directory of the writer removes exactly the obsolete segments; unless that includes the one being written, every storage can still be rebuilt from the files that are left |
| `Durability.Recover` | src/server/wal/recovery.cpp:39-49 | Opening the table files of all storages and replaying the log read from its segment files brings back every tree with the same log and next number, and the database goes on |
| `Durability.CleanAndRecover` | src/server/wal/cleaner.cpp:70-85 | Cleaning, then a crash, then recovery brings back every tree with the same log and next number |
| `Durability.ExecuteAndRecover` | src/server/wal/recovery.cpp:24-49 | Any such list, then a crash and recovery through the bytes: every storage has its old entries and the new ones, each once and in order, and the next number is one past the last |

## Left out

- gRPC services, protocol buffers, client library, command line, catalog, system views, configuration, logging and job timers.
- Torn writes inside one event, fsync, short reads and writes, file descriptors, threads and timers.
- CRC-32 itself: the proofs hold for every checksum function.
- Table iterators kept open across a freeze, Flush or Compact; a scan is drained when it is made, and each scan runs alone.
- The `cancelled_` and write-pending bookkeeping of the replication reactor, a follower's own commits in its local log, and segments of more than one page.
- Starvation and fairness of the locks.
- TransactionalTables.TransactionalTable.Scan: runs its loop without suspension, as do Lookup and Compact of the table; the loops themselves take the transaction table of each moment, and `TxRuns` and `TxPasses` say when that makes no difference.
- TxTables.CompactionKeepsLookups: a reader whose own rolled-back or forgotten rows are in the tables is not covered, because compaction drops those rows; `TxTables.CompactTreeExactly` covers every reader.
- LsmRuns.Restart: needs table numbers below 10000, since the code lists names; `TableNumbers.FlushKeepsExactly` shows what happens above.
- WalFiles.WalRoundTrip: needs segment numbers below 10000 and tails the reader can handle; `SegmentsListedExactly` and `ReaderStaysInsideExactly` show that both are needed.
- WalFiles.Writer.Write: an event longer than a page is not modelled.
- Recovery.EveryHistoryRecovers: histories with Compact are not covered, since a compaction can drop the newest record of a storage and file numbers are then not kept by age.
- Durability.ExecuteAndRecover: no compaction between the operations; needs at most 10000 tables per storage, counted by full mem tables, and at most 10000 log segments.
- Durability.Engine.Clean: not when the segment being written is obsolete; `Recovery.CleanUnlinksExactly` and `CleanedWriterLosesUpsert` show what happens then.
- TxLevels.LatePutHidesWrite: the wait it needs occurs only while some reader keeps the levels locked over a suspension, as `Lsm::Get` does; the server does not call that.
- Streaming.EveryStream: covers one leader life and segment numbers below 10000; other followers only lower the retained segment, and a cleaner that read the registry before the follower registered has finished.
- Cleaning.CleanFiles: reads and judges a segment without suspension; upserts and flushes during a cleaning are not interleaved.
