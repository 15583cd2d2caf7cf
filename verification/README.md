# Models of the judging app's storage, encoding and queue

The app's difficult logic is in the C and C++ libraries it builds in, and in one cloud function. This project
models them in Dafny and proves what they promise:

- **LevelDB**, from the bottom up. `DbFormat` to `Db`: the log-structured store as a state machine (writes,
  memtable switches, flushes, trivial moves, compactions with other steps in between, snapshots) and as the class
  `Db`, whose methods are steps of it; `MergingIterator`, `DbIter`: its iterators; `InternalKeys`, `MemTable`,
  `SkipList`: the memtable down to single stores of its writer; `Coding`, `LogFormat` to `CommitRecovery`: the
  write-ahead log, write batches, group commit and crash recovery; `Block*`, `FilterBlock`: table blocks;
  `VersionEdit` to `VersionSet`: the manifest; `Collection`: which files may be deleted.
- **nanopb** (`Pb*`): the descriptor-driven encoder and decoder for fields stored in place.
- **The judging queue** (`JudgingQueue`): the two calls that read a snapshot and overwrite the whole queue.

The specification of a read is flat: `MultiVersion.Newest` looks for the newest entry of a key at or below a
sequence number in a plain set of entries. `StoreReads.StoreRefinesHistory` ties the whole store to it.

## What does not hold

Where the code does not keep a promise, a lemma exhibits an input and another one gives the exact condition.

- A deleted key can come back. Boundary files are added to the inputs of the upper level only, so an older value
  of a key may stay at the output level while the key's deletion marker is dropped (`DeletedKeyComesBack`). Reads
  survive an install if and only if that does not happen (`FinishKeepsReads`). The theorems about runs ask that a
  compaction starts with all files of the output level that share a user key with its inputs; the code does not
  check this.
- A flush during a compaction picks its level by the installed files only. Its table can land at the output level
  between the outputs, which breaks the level's order and hides the table's keys (`FlushedKeyIsLost`). The level
  stays in order if and only if the table lies before or after all entries the compaction keeps
  (`ToleratedIsExact`); the state machine allows exactly such flushes (`Store.Tolerated`).
- Clearing a version edit leaves its compaction pointers, so only an edit without any decodes to what was encoded
  (`EditRoundTrip`). Batching edits needs file numbers that are not used again (`BatchOneMore`).
- A manifest with fewer than two complete records cannot be recovered from, since the snapshot record holds no
  numbers (`RecoverReproduces`).
- A string without a terminator in its buffer is encoded in full, and the decoder refuses the encoding
  (`FullStringIsRefused`, `PbAgreement.RoundTrip`).
- An assignment call loops for ever on a candidate it cannot take, with a single free team for instance
  (`LastTeamHangs`, `CallReturns`), and teams of other judges may be assigned again, which leaves them on both
  lists (`ConverseIsNotKept`, `ConverseOverRuns`).

Where comments and code disagree the model follows the code. The comment on the filter reader says an empty filter
matches nothing, while the code asks the policy (`filter_block.cc:90-104`). Recovery marks file numbers as used and
then overwrites the next number (`version_set.cc:990-1000`). A message with no fields looks tag 0 up as a field of
type number and fails (`pb_common.c:78-95`).

## Model

| member | source | states |
|---|---|---|
| VersionFiles.FindFile | CIC Judging/Pods/leveldb-library/db/version_set.cc:88-106 | the binary search, on any list the place its halving leads to, and on a sorted level the first file whose largest key is not before the target |
| VersionFiles.SomeFileOverlapsRange | CIC Judging/Pods/leveldb-library/db/version_set.cc:124-157 | true exactly if some file of the list overlaps the range of user keys, by scanning at level 0 and by one binary search elsewhere |
| VersionFiles.SeekGet | CIC Judging/Pods/leveldb-library/db/memtable.cc:100-134 | a seek in sorted entries and one comparison give the newest entry of the user key at or below the sequence number |
| VersionRead.StagedIsNewest | CIC Judging/Pods/leveldb-library/db/version_set.cc:326-421 | in a version that keeps the level invariant, the level-by-level lookup with one file per deeper level equals the newest visible entry over the flat union of all files |
| VersionRead.VersionGet | CIC Judging/Pods/leveldb-library/db/version_set.cc:326-421 | the loop returns the staged lookup of any version, hence in an ordered one the newest entry of the key at or below the sequence number over all files |
| MultiVersion.NewestOfLayers | CIC Judging/Pods/leveldb-library/db/db_impl.cc:1126-1134 | a layer whose entries are newer hides the one below it: looking through two layers in turn is looking up their union |
| CompactionMeaning.CompactionPreservesReads | CIC Judging/Pods/leveldb-library/db/db_impl.cc:930-962 | the drop rules leave every read of a key at or above the smallest snapshot as it was, if and only if the compaction does not drop the deletion marker seen there while a value it shadows stays outside |
| CompactionMeaning.KeptIsTight | CIC Judging/Pods/leveldb-library/db/db_impl.cc:930-962 | of the entries of a key at or below the smallest snapshot at most one is kept, and no deletion marker there without data below; newer entries, and the newest one there, are never lost |
| CompactionMeaning.ClosedInputsNeverResurrect | CIC Judging/Pods/leveldb-library/db/db_impl.cc:949-960 | if whatever stays outside is newer than the inputs for keys at their base level, no key is resurrected |
| CompactionWork.Compaction.IsBaseLevelForKey | CIC Judging/Pods/leveldb-library/db/version_set.cc:1533-1552 | asked about keys in non-decreasing order, the moving level pointers answer exactly whether any file two or more levels down covers the key |
| CompactionWork.DoCompactionWork | CIC Judging/Pods/leveldb-library/db/db_impl.cc:906-999 | the loop's outputs are sorted and hold exactly the entries the two drop rules keep, however they are split over files; stated without the rules, they hold at most one entry of a key at or below the smallest snapshot and no obsolete marker |
| CompactionInputs.GetOverlappingInputs | CIC Judging/Pods/leveldb-library/db/version_set.cc:519-559 | the files that overlap the range; at level 0 the range restarts and grows until it is closed, which ends, and gives the least closed range around the one asked for |
| CompactionInputs.GetRange | CIC Judging/Pods/leveldb-library/db/version_set.cc:1205-1223 | the least range of internal keys that covers all the files |
| CompactionInputs.AddBoundaryInputs | CIC Judging/Pods/leveldb-library/db/version_set.cc:1378-1401 | terminates with no later file of the level starting with the largest selected user key, and keeps a gap-free selection gap-free |
| CompactionSetup.SameCountSameFiles | CIC Judging/Pods/leveldb-library/db/version_set.cc:1428-1447 | a wider range with as many overlapping files has the same overlapping files, so the size test of the expansion is sound |
| CompactionSetup.SetupOtherInputs | CIC Judging/Pods/leveldb-library/db/version_set.cc:1403-1460 | the two input lists are complete at their levels: what stays at the upper level is newer, and what stays at the lower one lies beside them |
| CompactionSetup.PickCompaction | CIC Judging/Pods/leveldb-library/db/version_set.cc:1270-1318 | from any first file, both input lists are closed and hold that file |
| CompactionSetup.CompactRange | CIC Judging/Pods/leveldb-library/db/version_set.cc:1464-1507 | a manual range, cut short above level 0, still yields closed inputs; nothing is found exactly if no file overlaps |
| CompactionSetup.PickLevelForMemTableOutput | CIC Judging/Pods/leveldb-library/db/version_set.cc:491-516 | the level returned is at most 2, and if it is not level 0, no file of that level or above overlaps the table |
| Install.FlushKeepsSound | CIC Judging/Pods/leveldb-library/db/version_set.cc:491-516 | a flushed table, newer than everything and placed under no overlap, keeps the level invariant |
| Install.InstallKeepsSound | CIC Judging/Pods/leveldb-library/db/db_impl.cc:860-876 | replacing the inputs by any split of their entries keeps the level invariant, provided the files that stay at the output level lie aside of them |
| StoreInvariant.StepKeepsInv | CIC Judging/Pods/leveldb-library/db/db_impl.cc:688-767 | every write, memtable switch, flush, trivial move, compaction start, install, abort and snapshot operation keeps the layering, the level invariant, the file numbers and what a running compaction relies on |
| StoreInvariant.OldestIsSmallest | CIC Judging/Pods/leveldb-library/db/snapshot.h:47-50 | the oldest listed snapshot is the smallest live one, so no compaction starts above a live snapshot |
| StoreReads.FinishKeepsReads | CIC Judging/Pods/leveldb-library/db/db_impl.cc:860-876 | installing a compaction leaves all reads at or above its smallest snapshot as they were, if and only if it resurrects no key |
| StoreReads.ClosedIsSafe | CIC Judging/Pods/leveldb-library/db/version_set.cc:1403-1460 | no key is resurrected if no file outside the inputs at the output level holds a user key of the inputs |
| StoreReads.RunKeepsClosed | CIC Judging/Pods/leveldb-library/db/db_impl.cc:908-918 | that condition, once true when a compaction starts, stays true until it ends, flushes in between included |
| StoreReads.SnapshotStable | CIC Judging/Pods/leveldb-library/db/db_impl.cc:1100-1174 | from its creation until its release a snapshot reads the same, over any run whose compactions start with inputs closed under user keys at the output level |
| StoreReads.StoreRefinesHistory | CIC Judging/Pods/leveldb-library/db/db_impl.cc:878-1036 | in every such run, each read at a live sequence number finds the newest entry at or below it among all entries ever written |
| StoreReads.RefinesHistoryIfSafe | CIC Judging/Pods/leveldb-library/db/db_impl.cc:878-1036 | the same for runs under the exact condition of each install instead, that it resurrects no key |
| Resurrection.DeletedKeyComesBack | CIC Judging/Pods/leveldb-library/db/version_set.cc:1403-1411 | a run from the empty store, by steps the code allows, in which a deleted key reads as deleted and, after one more compaction and no write, reads as its old value |
| FlushInside.SplitStaysSorted | CIC Judging/Pods/leveldb-library/db/db_impl.cc:908-918 | after a flush to the output level of a running compaction, that level is pairwise ordered once the compaction is installed, exactly if every output lies entirely before or entirely after the flushed table |
| FlushInside.ToleratedIsExact | CIC Judging/Pods/leveldb-library/db/db_impl.cc:908-918 | however the outputs are split, the level invariant survives such a flush exactly if the table lies before all or after all of the entries the compaction keeps, which is known when the flush picks its level |
| FlushInside.FlushedKeyIsLost | CIC Judging/Pods/leveldb-library/db/db_impl.cc:491-533 | a run from the empty store in which a key is written and flushed during a compaction, and after the install the store holds it but the staged lookup finds nothing |
| Database.Db.Get | CIC Judging/Pods/leveldb-library/db/db_impl.cc:1100-1145 | memtable, immutable memtable and levels in turn give the store's newest entry of the key at or below the snapshot |
| Database.Db.Write | CIC Judging/Pods/leveldb-library/db/db_impl.cc:1185-1258 | as one step of the store, and from then on every key reads as the last update the batch has for it, its value or nothing after a deletion, and other keys as before |
| WriteReads.WriteReadsBack | CIC Judging/Pods/leveldb-library/db/write_batch.cc:121-132 | the same of the state machine: the last update of a key in a batch, found by its index, is what the key reads as after the write |
| Database.Db.Put | CIC Judging/Pods/leveldb-library/db/db_impl.cc:1460-1464 | the key reads as the value, every other key as before |
| Database.Db.Delete | CIC Judging/Pods/leveldb-library/db/db_impl.cc:1466-1470 | the key reads as not found, every other key as before |
| Database.ReadAfterWrite | CIC Judging/Pods/leveldb-library/db/db_impl.cc:1100-1145 | a Get right after a Write answers with the batch's last update of the key, or as before if the batch does not name it |
| Database.Db.MakeRoomForWrite | CIC Judging/Pods/leveldb-library/db/db_impl.cc:1310-1370 | the full memtable becomes the immutable one and an empty one takes its place |
| Database.Db.GetSnapshot | CIC Judging/Pods/leveldb-library/db/db_impl.cc:1166-1169 | a snapshot of the last sequence number is appended to the list |
| Database.Db.ReleaseSnapshot | CIC Judging/Pods/leveldb-library/db/db_impl.cc:1171-1174 | exactly that snapshot is taken off the list |
| Database.Db.CompactMemTable | CIC Judging/Pods/leveldb-library/db/db_impl.cc:535-566 | the immutable memtable becomes a table of the level picked for it; this is a step of the store unless the table lands between what a running compaction keeps |
| Database.Db.BackgroundCompaction | CIC Judging/Pods/leveldb-library/db/db_impl.cc:688-767 | either a lone file moves down unchanged or a compaction of closed inputs starts at the smallest live snapshot |
| Database.Db.FinishCompaction | CIC Judging/Pods/leveldb-library/db/db_impl.cc:878-1036 | merging the inputs through the iterator, dropping by the two rules and installing the outputs is one step of the store, whatever else happened since the start |
| Database.Db.NewIterator | CIC Judging/Pods/leveldb-library/db/db_impl.cc:1062-1087 | an iterator over one merged sorted sequence of exactly the entries of all layers |
| Database.IteratorShowsReads | CIC Judging/Pods/leveldb-library/db/db_impl.cc:1147-1157 | what a user iterator shows at a sequence number is exactly what a Get there finds |
| Snapshots.SnapshotList.Oldest | CIC Judging/Pods/leveldb-library/db/snapshot.h:47-50 | the first node after the head is the live snapshot with the smallest number |
| Snapshots.SnapshotList.New | CIC Judging/Pods/leveldb-library/db/snapshot.h:57-76 | splices a node in before the head of the circular list: it is the last of the list, the others stay in order |
| Snapshots.SnapshotList.Delete | CIC Judging/Pods/leveldb-library/db/snapshot.h:79-88 | unlinks exactly the given node |
| Merging.MergingIterator.Seek | CIC Judging/Pods/leveldb-library/table/merger.cc:47-53 | the cursor stands at the first merged entry not before the target |
| Merging.MergingIterator.Next | CIC Judging/Pods/leveldb-library/table/merger.cc:55-79 | the cursor moves to the next entry of the merged sequence, also after going backwards |
| Merging.MergingIterator.Prev | CIC Judging/Pods/leveldb-library/table/merger.cc:81-108 | and to the previous one, also after going forwards |
| MergeInputs.MergeExists | CIC Judging/Pods/leveldb-library/table/merger.h:13-20 | sorted children without common keys have a merged sequence |
| DbIterator.YieldsIsFound | CIC Judging/Pods/leveldb-library/db/db_iter.cc:168-198 | the positions at which the user iterator stops are exactly the entries a Get at its sequence number would find |
| DbIterator.DBIter.Seek | CIC Judging/Pods/leveldb-library/db/db_iter.cc:269-281 | stands at the first live user key at or after the target |
| DbIterator.DBIter.SeekToFirst | CIC Judging/Pods/leveldb-library/db/db_iter.cc:283-292 | stands at the first live user key |
| DbIterator.DBIter.SeekToLast | CIC Judging/Pods/leveldb-library/db/db_iter.cc:294-299 | stands at the last live user key |
| DbIterator.DBIter.Next | CIC Judging/Pods/leveldb-library/db/db_iter.cc:141-166 | moves to the next live user key, in either direction before |
| DbIterator.DBIter.Prev | CIC Judging/Pods/leveldb-library/db/db_iter.cc:200-225 | moves to the previous live user key, in either direction before |
| InternalKeys.ParseIsInverse | CIC Judging/Pods/leveldb-library/db/dbformat.h:165-175 | parsing a byte string gives a key if and only if the string is the encoding of that key |
| InternalKeys.CompareIsBefore | CIC Judging/Pods/leveldb-library/db/dbformat.cc:51-67 | comparing encoded keys is: user keys ascending, then sequence numbers descending, then types descending |
| InternalKeys.CompareIsOrdering | CIC Judging/Pods/leveldb-library/db/dbformat.cc:51-67 | on any byte strings long enough it is a total preorder |
| InternalKeys.SeparatorSeparates | CIC Judging/Pods/leveldb-library/db/dbformat.cc:69-86 | a shortened separator lies at or after the start and before the limit |
| InternalKeys.SuccessorIsNotSmaller | CIC Judging/Pods/leveldb-library/db/dbformat.cc:88-101 | a shortened successor is not before the key |
| InternalKeys.LookupKey.constructor | CIC Judging/Pods/leveldb-library/db/dbformat.cc:121-138 | one buffer holds the memtable key, the internal key and the user key of a lookup |
| InternalKeys.LookupSplits | CIC Judging/Pods/leveldb-library/db/dbformat.cc:121-138 | a search key sorts before exactly the entries of its user key visible at its sequence number, and after everything before them |
| MemTables.EntryParts | CIC Judging/Pods/leveldb-library/db/memtable.cc:75-98 | the length-prefixed key and value are read back from the start of an entry's buffer |
| MemTables.LessIsOrdering | CIC Judging/Pods/leveldb-library/db/memtable.cc:28-34 | the comparator on whole buffers is an order the skip list can use |
| MemTables.MemTable.Add | CIC Judging/Pods/leveldb-library/db/memtable.cc:75-98 | the entry's buffer is inserted into the skip list: the table then holds exactly one more entry |
| MemTables.MemTable.Get | CIC Judging/Pods/leveldb-library/db/memtable.cc:100-134 | the skip-list search decides the lookup: the newest entry of the user key at or below the snapshot, and nothing exactly if there is none |
| SkipLists.StoreKeepsInv | CIC Judging/Pods/leveldb-library/db/skiplist.h:336-368 | after every single store of the writer each level is a sorted list and part of the one below, and the key set changes only at the store that links a node on level 0 |
| SkipLists.ReaderIsLinearizable | CIC Judging/Pods/leveldb-library/db/skiplist.h:260-281 | a search interleaved with any stores returns the least key at or above its target, and the last one below, of the list as it was at the search's last link read |
| SkipLists.SkipList.FindGreaterOrEqual | CIC Judging/Pods/leveldb-library/db/skiplist.h:260-281 | the first node at or above the key, with the nodes before it on every level |
| SkipLists.SkipList.FindLessThan | CIC Judging/Pods/leveldb-library/db/skiplist.h:283-301 | the last node before the key, or the head |
| SkipLists.SkipList.FindLast | CIC Judging/Pods/leveldb-library/db/skiplist.h:303-321 | the last node, or the head |
| SkipLists.SkipList.Insert | CIC Judging/Pods/leveldb-library/db/skiplist.h:336-368 | adds the key; in every memory in between the list held the old keys, or those and the new one |
| SkipLists.SkipList.Contains | CIC Judging/Pods/leveldb-library/db/skiplist.h:370-378 | true exactly if an equivalent key is in the list |
| Coding.FixedRoundTrip | CIC Judging/Pods/leveldb-library/util/coding.cc:9-33 | a number within the width is read back from its fixed-width bytes |
| Coding.VarintRoundTrip | CIC Judging/Pods/leveldb-library/util/coding.cc:112-169 | a number is read back from its variable-length bytes and exactly those are consumed |
| Coding.CutVarintFails | CIC Judging/Pods/leveldb-library/util/coding.cc:112-169 | a proper prefix of a varint is never read as a number |
| Coding.EncodeVarint32 | CIC Judging/Pods/leveldb-library/util/coding.cc:47-73 | the ladder of cases writes the general encoding |
| Coding.ShiftGroups | CIC Judging/Pods/leveldb-library/util/coding.cc:112-157 | the shift-and-or loop computes the number modulo the register's size, and stops where the general parse stops |
| Coding.LengthPrefixedRoundTrip | CIC Judging/Pods/leveldb-library/util/coding.cc:98-101 | a length-prefixed string is read back |
| LogFormat.UnmaskMask | CIC Judging/Pods/leveldb-library/util/crc32c.h:29-38 | unmasking a masked checksum gives it back, for every 32-bit value |
| LogFormat.Writer.AddRecord | CIC Judging/Pods/leveldb-library/db/log_writer.cc:34-80 | appends exactly the fragments of the record from the current block offset, and keeps the offset |
| LogReader.Reader.ReadPhysicalRecord | CIC Judging/Pods/leveldb-library/db/log_reader.cc:189-271 | on any file, a record returned stands at the front of what lies ahead behind a header with its length, kind and masked checksum, and the reader goes on right behind it; if the next whole record has another checksum, none is returned, the rest of the block is dropped and its size reported |
| LogReader.Reader.ReadRecord | CIC Judging/Pods/leveldb-library/db/log_reader.cc:56-174 | on any file, a record returned is put together in order from intact pieces of the file: one full one, or a first, middle ones and a last |
| LogReader.PhysicalIsIntact | CIC Judging/Pods/leveldb-library/db/log_reader.cc:242-271 | whatever the reader returns as a physical record is intact in its input |
| LogReader.DamagedIsRefused | CIC Judging/Pods/leveldb-library/db/log_reader.cc:242-257 | a whole record with a wrong checksum is refused with the rest of its block, and reported |
| LogReader.DamagedIsSkipped | CIC Judging/Pods/leveldb-library/db/log_reader.cc:153-159 | reading a logical record goes on behind that block, abandoning and reporting what was gathered before |
| LogReader.RecordsAreIntact | CIC Judging/Pods/leveldb-library/db/log_reader.cc:56-174 | every record read from any file is made of intact pieces in order |
| LogReader.TruncatedFile | CIC Judging/Pods/leveldb-library/db/log_reader.cc:56-174 | a log cut at any byte yields exactly the records whose last fragment ends before the cut, in order, and reports no corruption |
| LogReader.WholeFile | CIC Judging/Pods/leveldb-library/db/log_reader.cc:56-174 | with no cut every record comes back |
| WriteBatches.BatchRoundTrip | CIC Judging/Pods/leveldb-library/db/write_batch.cc:42-80 | iterating over a batch's bytes hands back its operations in order, with the count checked |
| WriteBatches.BadBatchIsRefused | CIC Judging/Pods/leveldb-library/db/write_batch.cc:51-80 | a batch is refused if an unknown tag follows its records or its count is not theirs; the records before are handed over |
| WriteBatches.BadRecordStops | CIC Judging/Pods/leveldb-library/db/write_batch.cc:51-74 | iteration stops at the first malformed record with its status, having handed over the ones before |
| WriteBatches.Iterate | CIC Judging/Pods/leveldb-library/db/write_batch.cc:42-80 | on any bytes, the operations handed over before the first malformed one, and the status |
| WriteBatches.WriteBatch.Put | CIC Judging/Pods/leveldb-library/db/write_batch.cc:98-103 | the bytes are edited in place to the batch with one more operation |
| WriteBatches.WriteBatch.Append | CIC Judging/Pods/leveldb-library/db/write_batch.cc:144-148 | the batch's operations are followed by the other batch's, and its count and sequence number stay right |
| WriteBatches.InsertInto | CIC Judging/Pods/leveldb-library/db/write_batch.cc:132-137 | operations enter the memtable under consecutive sequence numbers from the batch's own |
| Recovery.RecoverLogFile | CIC Judging/Pods/leveldb-library/db/db_impl.cc:371-453 | what replaying any log file, with or without paranoid checks, gathers and at which number it ends |
| Recovery.CrashRecovery | CIC Judging/Pods/leveldb-library/db/db_impl.cc:371-453 | a log of write groups cut at any byte replays to exactly the entries of the groups complete before it, under their own numbers, without an error, and ends at the last of these numbers |
| Recovery.ParanoidStops | CIC Judging/Pods/leveldb-library/db/db_impl.cc:371-425 | with paranoid checks a replay fails at the first thing the reader reports and keeps what it had |
| Recovery.ParanoidRefuses | CIC Judging/Pods/leveldb-library/db/db_impl.cc:418-436 | so it does at a record that is no whole batch |
| Recovery.LenientGoesOn | CIC Judging/Pods/leveldb-library/db/db_impl.cc:214-221 | without them no damage makes a replay fail |
| CommitRecovery.QueueRecovers | CIC Judging/Pods/leveldb-library/db/db_impl.cc:1185-1258 | after any run of the write queue, recovery from its log cut at any byte gives back exactly a prefix of the appended commits, and all of those up to a commit whose log had reached the disk |
| BlockFormat.DecodeEncoded | CIC Judging/Pods/leveldb-library/table/block.cc:54-76 | decoding an entry finds its three lengths, its key delta and its value |
| BlockFormat.DecodeEntry | CIC Judging/Pods/leveldb-library/table/block.cc:54-76 | the one-byte shortcut and the general path agree on any bytes |
| BlockBuilding.BlockBuilder.Add | CIC Judging/Pods/leveldb-library/table/block_builder.cc:72-106 | appends the entry, sharing the prefix with the last key unless the interval is full, when it becomes a restart point |
| BlockBuilding.BlockBuilder.Finish | CIC Judging/Pods/leveldb-library/table/block_builder.cc:62-70 | the finished bytes hold exactly the entries added since the last reset |
| BlockReading.FinishedBlockOpens | CIC Judging/Pods/leveldb-library/table/block.cc:24-39 | a finished block, of any restart interval, opens to an iterator over exactly its entries |
| BlockReading.BlockIter.Seek | CIC Judging/Pods/leveldb-library/table/block.cc:163-201 | binary search over the restart points and a scan stop at the first key not below the target |
| BlockReading.BlockIter.Next | CIC Judging/Pods/leveldb-library/table/block.cc:137-140 | goes from entry i to entry i + 1, with its full key and value |
| BlockReading.BlockIter.Prev | CIC Judging/Pods/leveldb-library/table/block.cc:142-161 | goes from entry i to entry i - 1, so it undoes Next |
| BlockReading.BlockIter.SeekToLast | CIC Judging/Pods/leveldb-library/table/block.cc:208-213 | stands at the last entry |
| FilterBlock.FilterBlockBuilder.StartBlock | CIC Judging/Pods/leveldb-library/table/filter_block.cc:21-27 | every earlier 2 KB range gets its filter, possibly an empty one |
| FilterBlock.FilterBlockBuilder.Finish | CIC Judging/Pods/leveldb-library/table/filter_block.cc:35-49 | the bytes are the filters of the groups of keys, their offsets and the base |
| FilterBlock.KeyMayMatch | CIC Judging/Pods/leveldb-library/table/filter_block.cc:90-104 | on any bytes, what the reader answers |
| FilterBlock.NoFalseNegatives | CIC Judging/Pods/leveldb-library/table/filter_block.cc:90-104 | with a policy without false negatives, a key of the i-th filter is reported as a possible match at every offset of its 2 KB |
| FilterBlock.FilterIsAsked | CIC Judging/Pods/leveldb-library/table/filter_block.cc:77-104 | on a finished block the answer is the policy's for the filter of the offset's own 2 KB, and yes beyond the last filter |
| VersionEdits.DecodeFrom | CIC Judging/Pods/leveldb-library/db/version_edit.cc:107-205 | what decoding any bytes into any edit gives, fields and error |
| VersionEdits.EncodeTo | CIC Judging/Pods/leveldb-library/db/version_edit.cc:41-85 | the bytes appended are those of the edit's fields in their fixed order |
| VersionEdits.EditRoundTrip | CIC Judging/Pods/leveldb-library/db/version_edit.cc:26-205 | decoding an encoded edit gives it back if and only if the edit decoded into held no compaction pointers, since clearing keeps them |
| ManifestBuilding.BatchOneMore | CIC Judging/Pods/leveldb-library/db/version_set.cc:650-693 | batching one more edit equals applying it to the saved version, if and only if it does not use again the number of a file deleted in the batch |
| ManifestBuilding.BatchIsOneByOne | CIC Judging/Pods/leveldb-library/db/version_set.cc:650-754 | so any number of edits that never reuse a number can be batched |
| ManifestBuilding.ReusedNumberRevives | CIC Judging/Pods/leveldb-library/db/version_set.cc:681-691 | a number deleted and used again does bring the first file back |
| ManifestBuilding.SaveTo | CIC Judging/Pods/leveldb-library/db/version_set.cc:695-739 | the merge yields the sorted union of the old and the added files without the deleted |
| ManifestEdits.Builder.Apply | CIC Judging/Pods/leveldb-library/db/version_set.cc:650-693 | the builder's sets afterwards, level by level |
| Manifests.Recover | CIC Judging/Pods/leveldb-library/db/version_set.cc:886-1011 | what recovery makes of any manifest file: the batched edits up to the end or the first error, and the numbers, or a failure |
| Manifests.RecoveredIsComplete | CIC Judging/Pods/leveldb-library/db/version_set.cc:934-988 | recovery succeeds only if nothing in the manifest is damaged, no edit names another comparator, and some edit gives each of the log, file and sequence numbers |
| Manifests.ReadEditsAreOwn | CIC Judging/Pods/leveldb-library/db/version_set.cc:934-972 | a manifest read without an error has one decoded edit for each record, all of this comparator |
| VersionSets.CutManifest | CIC Judging/Pods/leveldb-library/db/version_set.cc:934-972 | a manifest cut at any byte yields exactly the edits recorded completely before the cut |
| VersionSets.RecoverReproduces | CIC Judging/Pods/leveldb-library/db/version_set.cc:886-1011 | recovering from a manifest cut at any byte gives the version and numbers of the last complete edit, and fails if and only if no edit is complete after the snapshot |
| VersionSets.VersionSet.LogAndApply | CIC Judging/Pods/leveldb-library/db/version_set.cc:801-884 | a file is in the new version if and only if it was in the old one and the edit does not delete it, or the edit adds it, level by level; the manifest holds the snapshot and all edits since, completed |
| VersionSets.SavedIsVersioned | CIC Judging/Pods/leveldb-library/db/version_set.cc:695-754 | saving an edit over a version is, file by file, deleting and adding what it lists |
| VersionSets.VersionSet.OpenManifest | CIC Judging/Pods/leveldb-library/db/version_set.cc:1088-1116 | the snapshot record stands for the current version |
| VersionSets.RecoverIsCurrent | CIC Judging/Pods/leveldb-library/db/version_set.cc:801-1011 | reopening after LogAndApply gives back the current files and the numbers of the last edit |
| GroupCommit.BuildBatchGroup | CIC Judging/Pods/leveldb-library/db/db_impl.cc:1260-1306 | the group is the longest prefix of the queue the rules for syncs and sizes allow, its batch their operations in order |
| GroupCommit.AllOpsHoldsEach | CIC Judging/Pods/leveldb-library/db/db_impl.cc:1291-1302 | every request's batch stands in the group's whole and in order, behind those of the requests before it, and nothing else does |
| GroupCommit.CommitsHoldEach | CIC Judging/Pods/leveldb-library/db/db_impl.cc:1213-1235 | so in every commit of every run: operation k of a request got the commit's first number plus the operations before it |
| GroupCommit.WriteQueue.Lead | CIC Judging/Pods/leveldb-library/db/db_impl.cc:1185-1213 | the leader writes for a group exactly if there is room, no earlier sync failed and it has a batch, and never carries a sync write in a group without sync |
| GroupCommit.WriteQueue.Finish | CIC Judging/Pods/leveldb-library/db/db_impl.cc:1213-1258 | the whole group is answered with one status, and the sequence numbers are used up whether or not the append succeeded |
| GroupCommit.AnsweredInOrder | CIC Judging/Pods/leveldb-library/db/db_impl.cc:1185-1258 | in every run the requests answered are the first that arrived, in order, each answered in exactly one commit |
| GroupCommit.RangesApart | CIC Judging/Pods/leveldb-library/db/db_impl.cc:1185-1258 | the sequence ranges of any two commits are consecutive and disjoint, failed appends included |
| GroupCommit.LoggedInOrder | CIC Judging/Pods/leveldb-library/db/db_impl.cc:1185-1258 | the appended groups have the increasing numbers crash recovery relies on |
| Collection.CollectionIsSafe | CIC Judging/Pods/leveldb-library/db/db_impl.cc:223-278 | in every run, a collection removes no table a held version has and none being written, and any version the manifest may recover to keeps its tables and every log it needs |
| Collection.NeededLogsStay | CIC Judging/Pods/leveldb-library/db/db_impl.cc:239-262 | a log with data that no table of the current version has is never removed |
| Collection.DeleteObsoleteFiles | CIC Judging/Pods/leveldb-library/db/db_impl.cc:223-278 | exactly the needed files stay: tables and temp files of held versions or being written, logs from the log number on and the previous one, manifests from the current one on, and other kinds; none goes after a background error; over the directory of any state of the machine this is its collection step |
| Collection.LeftIsCollected | CIC Judging/Pods/leveldb-library/db/db_impl.cc:223-278 | in any state that can collect, the tables and logs the loop leaves are those the collection step leaves, so the safety of that step is the loop's |
| Collection.AddLiveFiles | CIC Judging/Pods/leveldb-library/db/version_set.cc:1167-1177 | the numbers of the files of every referenced version |
| PbRoundTrip.ZigzagRoundTrip | CIC Judging/Pods/nanopb/pb_decode.c:1240-1252 | signed 64-bit numbers survive the alternating encoding |
| PbRoundTrip.StoreUndoesCast | CIC Judging/Pods/nanopb/pb_decode.c:1289-1348 | a number in the range of its field survives the cast to 64 bits, the wire and the checked cast back |
| PbRoundTrip.Varint32RoundTrip | CIC Judging/Pods/nanopb/pb_decode.c:182-247 | every 32-bit key or length is read back by the overflow-checking loop |
| PbRoundTrip.NumberRoundTrip | CIC Judging/Pods/nanopb/pb_decode.c:1240-1388 | so are numbers of the five numeric types |
| PbRoundTrip.PackedRoundTrip | CIC Judging/Pods/nanopb/pb_decode.c:418-441 | a packed array is read back entry by entry |
| PbRoundTrip.MessageRoundTrip | CIC Judging/Pods/nanopb/pb_decode.c:901-1049 | decoding the encoding of any message of any descriptor tree gives the defaults overwritten by what was present, or a refusal if a string present fills its buffer |
| PbAgreement.RoundTrip | CIC Judging/Pods/nanopb/pb_decode.c:1051-1063 | decoding succeeds if and only if every string present leaves room for its terminator, required fields included; then the same fields are present with the same values and encoding again gives the same bytes |
| PbDirect.RoundTripSlots | CIC Judging/Pods/nanopb/pb_decode.c:1051-1063 | slot by slot, without asking what is present: the decoded message has the same flags, counts, union choices and data |
| PbAgreement.FullStringIsRefused | CIC Judging/Pods/nanopb/pb_decode.c:1428-1461 | any text that fills its buffer is encoded in full, and the decoder refuses the encoding |
| PbAgreement.AllDefaultIsNothingPresent | CIC Judging/Pods/nanopb/pb_encode.c:213-305 | the test for a default submessage holds exactly if nothing in it is present |
| PbAgreement.SameEncoding | CIC Judging/Pods/nanopb/pb_encode.c:494-516 | messages that agree on what is present have the same encoding |
| PbFieldIter.FieldIter.Next | CIC Judging/Pods/nanopb/pb_common.c:20-76 | steps to the next field counting required ones, and wraps to the first at the terminator |
| PbFieldIter.FieldIter.Find | CIC Judging/Pods/nanopb/pb_common.c:78-95 | one wrapping search from any position finds a field with the tag if there is one, and otherwise ends where it started |
| PbEncoder.EncodeVarint | CIC Judging/Pods/nanopb/pb_encode.c:574-594 | the buffer loop writes the base-128 encoding, if there is room |
| PbEncoder.EncodeSvarint | CIC Judging/Pods/nanopb/pb_encode.c:596-605 | the complemented shift is the alternating encoding |
| PbEncoder.EncodeArray | CIC Judging/Pods/nanopb/pb_encode.c:126-211 | a repeated field is written packed where its type allows, with the size computed first, or entry by entry |
| PbEncoder.EncodeBasicField | CIC Judging/Pods/nanopb/pb_encode.c:307-392 | exactly the values present are written, by the field's rule |
| PbEncoder.EncodeSubmessage | CIC Judging/Pods/nanopb/pb_encode.c:682-730 | the counting pass and the writing pass write the same number of bytes, so the error for a changed size is never returned |
| PbEncoder.EncodeMessage | CIC Judging/Pods/nanopb/pb_encode.c:494-516 | on a stream of any room, counting or writing, the encoding is written in full, or the call fails exactly if there is none or it does not fit |
| PbEncoder.GetEncodedSize | CIC Judging/Pods/nanopb/pb_encode.c:533-543 | the size is the length of the encoding |
| PbEncoder.EncodeToBuffer | CIC Judging/Pods/nanopb/pb_encode.c:84-121 | a buffer receives the encoding exactly if it fits |
| PbDecoder.IStream.ReadVarint32 | CIC Judging/Pods/nanopb/pb_decode.c:182-247 | on any bytes, what the loop with its overflow rules accepts and where it stops |
| PbDecoder.IStream.ReadVarint | CIC Judging/Pods/nanopb/pb_decode.c:250-271 | on any bytes, up to ten groups modulo 2^64 |
| PbDecoder.IStream.SkipField | CIC Judging/Pods/nanopb/pb_decode.c:316-326 | skips exactly one value of the wire type |
| PbDecoder.IStream.CloseSubstream | CIC Judging/Pods/nanopb/pb_decode.c:367-395 | after a substream is closed the parent stands right behind it, however much of it was read |
| PbDecoder.ReadField | CIC Judging/Pods/nanopb/pb_decode.c:401-475 | what one record does to the message, by the field's rule and type, on any bytes |
| PbDecoder.DecodeNoInit | CIC Judging/Pods/nanopb/pb_decode.c:901-1049 | on any bytes, the loop with the wrapping cursor and the bitmap computes the specified decoding, and it succeeds only if each of the first 64 required fields has a record among those it went over |
| PbDecoder.DecodeBuffer | CIC Judging/Pods/nanopb/pb_decode.c:1051-1063 | decoding any buffer, no required field is missing and nothing exceeds the memory of the message |
| PbMissing.DecodedHasRequired | CIC Judging/Pods/nanopb/pb_decode.c:1006-1046 | if any bytes decode into any message, every tracked required field has a record, as a scan that only steps over values finds |
| PbMissing.SubmessageMissing | CIC Judging/Pods/nanopb/pb_decode.c:1463-1485 | a submessage without a required field is refused, with the value it is part of |
| PbMissing.WithoutRequiredIsRefused | CIC Judging/Pods/nanopb/pb_decode.c:1006-1046 | the encoding of any message without the record of one tracked required field is refused |
| PbBounds.DecodedInBounds | CIC Judging/Pods/nanopb/pb_decode.c:1289-1508 | whatever bytes are decoded, texts with terminator and bytes fit their buffers, arrays their entries and numbers their types, at every depth |
| PbBounds.UnknownIsSkipped | CIC Judging/Pods/nanopb/pb_decode.c:929-960 | a record of a field the descriptor does not have changes nothing, for each of the four wire types |
| PbRequired.Complete | CIC Judging/Pods/nanopb/pb_decode.c:1008-1046 | comparing whole words and the last partial one checks exactly the bits of the tracked required fields |
| PbRequired.CompleteIsSeen | CIC Judging/Pods/nanopb/pb_decode.c:1008-1046 | the bitmap is complete if and only if every one of the first 64 required fields was seen |
| JudgingQueues.TakeTeams | CIC Judging/functions/index.js:60-90 | a loop ends with the choice it computes, or never |
| JudgingQueues.ProcessAssignedQueue | CIC Judging/functions/index.js:17-101 | the queue stored by a call that returns: teams are newly taken only from the judge's group and unscored by the judge, free ones with the fewest scores first, others only once no free one is left, and nothing else changes |
| JudgingQueues.CallIsFair | CIC Judging/functions/index.js:36-90 | every newly listed team is one of the database in the judge's group and not scored by the judge; it is free and no free one left out has fewer scores, or all free ones were taken before it |
| JudgingQueues.TeamsAreSorted | CIC Judging/functions/index.js:5-15 | candidates are looked at in the order of their number of scores, the fewest first |
| JudgingQueues.CallReturns | CIC Judging/functions/index.js:58-90 | a call returns if and only if the candidates it looks at have ids, are not on the judge's list, and none is met twice; then it has taken them all |
| JudgingQueues.QueueStaysGood | CIC Judging/functions/index.js:17-145 | from a good queue, every queue stored in any interleaving of snapshot reads and overwrites has at most three distinct teams for each judge, and a team marked as a judge's is on that judge's list |
| JudgingQueues.AssignConverse | CIC Judging/functions/index.js:58-96 | a call keeps the converse, that listed teams are marked, if and only if none of the teams it takes was anyone's in its snapshot |
| JudgingQueues.RemoveConverse | CIC Judging/functions/index.js:117-134 | a removal keeps it if and only if the team is not marked as another judge's |
| JudgingQueues.ConverseOverRuns | CIC Judging/functions/index.js:17-145 | over any interleaving it holds of all queues if and only if every event met its condition |
| JudgingQueues.ConverseIsNotKept | CIC Judging/functions/index.js:76-90 | a good queue with the converse loses it in one call, which takes a team of another judge |
| JudgingQueues.LastTeamHangs | CIC Judging/functions/index.js:60-90 | with a single free team and an empty list the call takes it, meets it again and never returns |

## Left out

- StoreReads.StoreRefinesHistory: for runs whose compactions start with inputs closed under user keys at the output level and whose flushes are tolerable, conditions the code does not establish; the failing runs are exhibited and the conditions of each step are exact.
- StoreReads.SnapshotStable: under the same two conditions.
- VersionSets.VersionSet.LogAndApply: for writes of the manifest that succeed, and edits whose file numbers are new on their level.
- VersionSets.RecoverReproduces: for manifests whose edits never add a number twice on a level.
- Database.Db.Write: a single writer with room in the memtable and sequence numbers left; the queue of writers is `GroupCommit`.
- Collection.DeleteObsoleteFiles: the tie to the state machine is for files numbered from 1 and no previous log.
- Collection.CollectionIsSafe: file operations are atomic, and a failed manifest write leaves the old or the new version to recover to.
- FilterBlock.NoFalseNegatives: for blocks below 4 GB; the hash functions of a policy are a parameter.
- User keys of the store are integers and values strings: only the order of the keys matters there. `InternalKeys`, `MemTable` and the formats work on bytes with a comparator as a parameter.
- Compactions start and finish in two steps, with any other steps in between; aborting is a third one. The split of the outputs over files is arbitrary, so size limits and ShouldStopBefore make no difference.
- One iterator child for each file instead of one concatenating iterator for each level.
- The checksum is a parameter; tables hold their entries directly, without index blocks, footers, caches and compression.
- Lengths and offsets are unbounded: blocks and messages of 4 GB and more, whose 32-bit sums would wrap, are not captured, nor is a varint long enough to wrap an eight-bit shift count.
- Internal keys that do not parse, which a compaction keeps and an iterator reports.
- I/O errors inside the readers, reading a log from an offset other than 0, and log files with bytes of a failed append in the middle.
- Splitting a recovered log into several tables, reusing logs, and the choice of when to compact: scores, seek counters and read samples.
- The skip list's stores are sequentially consistent; reference counts, locks and condition variables are atomic steps.
- A filter or comparator that breaks its contract, and user comparators that fail.
- nanopb callbacks, extensions, pointer fields, arrays of fixed count, and offsets inside message structures: a message is a slot for each field and a choice for each union.
- nanopb decoding on values: the decoder returns the new message instead of writing through pointers, and what a failed call leaves behind is not captured.
- The judging queue stored under the key judgeAssigned is not mistaken for a judge's list, as it would be for a judge of that name; a missing judge or an empty database is not modelled.
- RepairDB, DumpFile, the C bindings, options, info logs, statistics, and all of the app's views and network calls.
