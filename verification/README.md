# Verified models of LevelDB and nanopb

A Dafny model of the two libraries vendored under Flash-Chat: the LevelDB storage engine and the nanopb
protocol-buffer codec.  `dafny verify dfyconfig.toml` checks the whole project.

* Storage engine: internal keys (`InternalKeys`), what a read means (`Reads`), files and levels (`Files`,
  `Versions`), the drop rule and the compaction loop (`Compactions`, `CompactionWork`), when the drop rule is
  safe (`Straddling`) and a run in which it is not (`Resurrection`), input selection (`InputSelection`), version
  edits and their installation (`VersionBuilder`, `Installs`, `Manifest`, `Recovery`), and the database as a
  state machine (`Database`).
* Iterators: one flat cursor (`Cursors`) that the merging, two-level and user-key iterators are proved to be
  (`MergingIterator`, `TwoLevelIterator`, `UserIterator`), and the iterator of a database (`DatabaseIterator`).
* Concurrency as interleaved steps: the skip list with lock-free readers (`SkipList`) and the writer queue with
  group commit (`GroupCommit`).
* Formats: codings, blocks, filters, tables, the log with its checksum, batches and edits (`Coding`, `Block`,
  `Bloom`, `FilterBlock`, `Bytewise`, `Table`, `TableBlocks`, `Crc`, `Log`, `LogIntegrity`, `WriteBatch`,
  `VersionEdit`).
* The cache: hash table, intrusive lists, reference counts (`HandleTable`, `LruLists`, `LruCache`).
* nanopb: the codec as functions on bytes (`Nanopb`), what the decoder accepts (`NanopbDecoding`), the encoder
  over limited and counting streams (`NanopbStreams`), field search and the required-field bitmap (`NanopbFields`).

Methods follow the loops and fields of the original; each is proved against a function or a relation on states
whose properties are then proved as lemmas.  User keys of the storage engine are ranks, real numbers, because
its theorems use only their order; `Bytewise.RankPreservesOrder` embeds byte strings into them.

## Findings

Properties that do not hold of the code, each with an input and the exact condition under which they do:

* A compaction can bring a deleted key back.  `AddBoundaryInputs` is applied to the upper level only
  (`db/version_set.cc:1407` and `:1422`), so the lower level can keep an older value of a user key whose tombstone
  is dropped.  `Resurrection.DropRuleCanResurrect` gives a run of twelve ordinary steps from an empty database
  and the compaction that follows; `Database.CompactionIsSafeExactly` gives the condition, on the files before
  the compaction.  `Database` admits the compactions that meet it.
* Decoding into a used `VersionEdit` keeps its old compaction pointers, because `Clear` does not clear them:
  exact condition in `VersionEdits.EditRestoredExactly`.  Recovery decodes into fresh objects.
* A nanopb string that fills its storage without a zero byte is encoded but not accepted back, and a string with
  a zero byte inside loses what follows it: exact conditions in `Nanopb.StringNeedsItsTerminator`.
* A merging iterator that changes direction at a key that two children hold does not make one exact step:
  exact condition in `MergingIterators.NoDuplicateNeighbours`.  `DatabaseIterators.MergeIsStored` shows that the
  children of a database never share a key.

## Model

| member | source | states |
|---|---|---|
| `InternalKeys.TagRoundTrip` | 14 - Flash-Chat/Pods/leveldb-library/db/dbformat.cc:14-18 | unpacking the 64-bit tag of an internal key gives back its sequence number and type |
| `InternalKeys.CompareIsTotalOrder` | 14 - Flash-Chat/Pods/leveldb-library/db/dbformat.cc:51-67 | the packed comparison is user key ascending, then sequence and type descending; it is zero only for equal keys |
| `InternalKeys.LookupKeyDividesVersions` | 14 - Flash-Chat/Pods/leveldb-library/db/dbformat.cc:121-138 | the key that is looked up sorts at or before exactly the versions that the snapshot sees and everything with a greater user key |
| `Files.FlattenSorted` | 14 - Flash-Chat/Pods/leveldb-library/db/version_set.cc:157-228 | the files of a disjoint level, end to end, are one sorted run |
| `Versions.FindFile` | 14 - Flash-Chat/Pods/leveldb-library/db/version_set.cc:88-106 | the binary search returns the first file that ends at or after the key: all files before it end earlier, all from it on do not |
| `Versions.SeekFindsNewest` | 14 - Flash-Chat/Pods/leveldb-library/db/version_set.cc:263-276 | in a sorted run the seek for the lookup key lands on the newest visible entry of the user key, or on another user key if there is none |
| `Versions.OnlyFoundFileMatters` | 14 - Flash-Chat/Pods/leveldb-library/db/version_set.cc:366-380 | in a disjoint level no file but the one found by binary search can hold the newest visible entry, although a user key may span several files |
| `Versions.GetLevelZero` | 14 - Flash-Chat/Pods/leveldb-library/db/version_set.cc:347-364 | reading overlapping level-zero files newest first and stopping at the first hit finds the newest visible entry of the whole level |
| `Versions.Get` | 14 - Flash-Chat/Pods/leveldb-library/db/version_set.cc:326-421 | the level-by-level read that stops early agrees with the newest visible entry over the entries of all levels |
| `Compactions.HiddenExactly` | 14 - Flash-Chat/Pods/leveldb-library/db/db_impl.cc:935-955 | the loop's one-entry memory calls an entry hidden exactly when a newer entry of its user key, anywhere in the input, is at or below the smallest snapshot |
| `Compactions.KeptExactly` | 14 - Flash-Chat/Pods/leveldb-library/db/db_impl.cc:935-990 | the loop keeps, in order, exactly the entries that some snapshot still tells apart or that are the newest below all of them and not obsolete tombstones |
| `Compactions.DropPreservesReadsExactly` | 14 - Flash-Chat/Pods/leveldb-library/db/db_impl.cc:890-990 | over any two parts of a tree, dropping leaves every read at or above the smallest snapshot unchanged if and only if no dropped tombstone hid a value outside of the inputs |
| `Straddling.ResurrectedExactly` | 14 - Flash-Chat/Pods/leveldb-library/db/version_set.cc:1403-1412 | that happens to a user key if and only if its newest entry below the snapshots is an obsolete input tombstone and, of the lower files left out that start with an older entry of the key, the one with the newest start begins with a value |
| `Straddling.CleanUncoversNothing` | 14 - Flash-Chat/Pods/leveldb-library/db/version_set.cc:1378-1401 | it cannot happen if no lower file that is left out starts with the user key that ends a lower input |
| `Database.CompactionIsSafeExactly` | 14 - Flash-Chat/Pods/leveldb-library/db/db_impl.cc:878-1030 | after a compaction the reads still follow the history, and the whole invariant holds, if and only if no user key is uncovered in this sense before it |
| `Database.BoundaryCleanIsSafe` | 14 - Flash-Chat/Pods/leveldb-library/db/version_set.cc:1378-1401 | a compaction whose lower inputs end at user-key boundaries is always safe |
| `Resurrection.DropRuleCanResurrect` | 14 - Flash-Chat/Pods/leveldb-library/db/version_set.cc:1403-1417 | twelve ordinary steps from an empty database reach a state in which the next compaction turns a deleted key back into its old value |
| `Resurrection.ExampleIsReachable` | 14 - Flash-Chat/Pods/leveldb-library/db/db_impl.cc:878-1030 | the run to that state: every step is a legal write, snapshot, flush or safe compaction, and the invariant holds at its end |
| `Resurrection.PickNext` | 14 - Flash-Chat/Pods/leveldb-library/db/version_set.cc:1270-1324 | whatever its hints, picking a compaction of that level chooses exactly those inputs |
| `CompactionWork.Compaction.IsBaseLevelForKey` | 14 - Flash-Chat/Pods/leveldb-library/db/version_set.cc:1533-1552 | with cursors that only move forward, over ascending questions, it decides whether any deeper file's range holds the user key |
| `CompactionWork.DoCompactionWork` | 14 - Flash-Chat/Pods/leveldb-library/db/db_impl.cc:878-1013 | the loop writes exactly the kept entries, in order, into consecutively numbered non-empty outputs with correct bounds, wherever the size limits cut |
| `Database.LoopOutputsFitStep` | 14 - Flash-Chat/Pods/leveldb-library/db/db_impl.cc:860-876 | what the loop writes is what the compaction step of the state machine installs |
| `Installs.FlushKeepsValid` | 14 - Flash-Chat/Pods/leveldb-library/db/db_impl.cc:491-533 | a flushed memtable installed at a picked level keeps levels sorted and disjoint, newer entries shallower, and newer level-zero files higher-numbered |
| `Installs.CompactionKeepsValid` | 14 - Flash-Chat/Pods/leveldb-library/db/db_impl.cc:860-876 | so do the outputs of a compaction, or a file moved one level down, for any selection that meets the contract of input selection |
| `Installs.CompactedEntries` | 14 - Flash-Chat/Pods/leveldb-library/db/db_impl.cc:860-876 | the new version holds the entries of the files left alone and of the outputs, and nothing else |
| `Manifest.FlushIsReplayable` | 14 - Flash-Chat/Pods/leveldb-library/db/version_set.cc:650-693 | a flush yields an edit that the version builder can apply: known levels, ordered files, no number used again |
| `Manifest.CompactionIsReplayable` | 14 - Flash-Chat/Pods/leveldb-library/db/version_set.cc:650-693 | so does a compaction or a move, although a moved file keeps its number |
| `Manifest.InstallFlush` | 14 - Flash-Chat/Pods/leveldb-library/db/version_set.cc:801-884 | the builder turns a flush into a valid version that holds the old entries and the flushed ones |
| `Manifest.InstallCompactionResults` | 14 - Flash-Chat/Pods/leveldb-library/db/version_set.cc:801-884 | the builder turns a compaction into a valid version that holds the remaining entries and the outputs |
| `Manifest.LogAndApply` | 14 - Flash-Chat/Pods/leveldb-library/db/version_set.cc:801-884 | the builder computes the one version that an edit stands for |
| `Database.NextKeepsInv` | 14 - Flash-Chat/Pods/leveldb-library/db/db_impl.cc:688-767 | every write, memtable switch, flush, move, safe compaction and snapshot change keeps the invariant |
| `Database.ReadsFollowHistory` | 14 - Flash-Chat/Pods/leveldb-library/db/db_impl.cc:1100-1145 | in every state of every run, a read at the current sequence number or a live snapshot answers what the full history of writes says |
| `Database.SnapshotIsStable` | 14 - Flash-Chat/Pods/leveldb-library/db/db_impl.cc:1166-1175 | a snapshot answers the same as long as it is live, however the database moves on |
| `Database.OthersStayLive` | 14 - Flash-Chat/Pods/leveldb-library/db/snapshot.h:79-88 | releasing a snapshot takes only that one off the list and leaves the order of the others |
| `Database.NewSnapshotIsAdded` | 14 - Flash-Chat/Pods/leveldb-library/db/snapshot.h:57-71 | taking a snapshot adds the current sequence number behind the others |
| `Database.LastWriteIsRead` | 14 - Flash-Chat/Pods/leveldb-library/db/db_impl.cc:1185-1236 | a read right after a batch finds the last operation of the batch on the key |
| `Database.OtherReadsStay` | 14 - Flash-Chat/Pods/leveldb-library/db/db_impl.cc:1185-1236 | keys that the batch does not name, and reads at earlier sequence numbers, answer as before |
| `Database.Get` | 14 - Flash-Chat/Pods/leveldb-library/db/db_impl.cc:1100-1145 | memtable, immutable memtable, then levels: the first hit is the answer over everything stored, and at live snapshots over the history |
| `DatabaseIterators.ChildrenCover` | 14 - Flash-Chat/Pods/leveldb-library/db/db_impl.cc:1062-1087 | the children of the database iterator are sorted, share no key, and together hold exactly what is stored |
| `DatabaseIterators.MergeIsStored` | 14 - Flash-Chat/Pods/leveldb-library/db/db_impl.cc:1062-1087 | merged they are one sorted sequence of what is stored |
| `DatabaseIterators.SeekAndGet` | 14 - Flash-Chat/Pods/leveldb-library/db/db_iter.cc:269-281 | an iterator's seek for a user key and a point read at the same snapshot find the same value, or both find none |
| `DatabaseIterators.ScanFollowsHistory` | 14 - Flash-Chat/Pods/leveldb-library/db/db_iter.cc:141-299 | at a live snapshot the iterator's live positions are exactly the keys, and their values, that the history gives a value |
| `UserIterator.LiveIsAnswer` | 14 - Flash-Chat/Pods/leveldb-library/db/db_iter.cc:168-198 | a user key has a live position exactly when a read finds a value for it, and it is that value |
| `UserIterator.LiveKeysAscend` | 14 - Flash-Chat/Pods/leveldb-library/db/db_iter.cc:141-198 | live positions ascend strictly by user key, so no key is shown twice |
| `UserIterator.DBIter.Next` | 14 - Flash-Chat/Pods/leveldb-library/db/db_iter.cc:141-198 | moves to the first live position after the current one, from either direction |
| `UserIterator.DBIter.Prev` | 14 - Flash-Chat/Pods/leveldb-library/db/db_iter.cc:200-267 | moves to the last live position before the current one, from either direction |
| `UserIterator.DBIter.Seek` | 14 - Flash-Chat/Pods/leveldb-library/db/db_iter.cc:269-281 | stands at the first live position at or after the target |
| `UserIterator.DBIter.SeekToLast` | 14 - Flash-Chat/Pods/leveldb-library/db/db_iter.cc:294-299 | stands at the last live position |
| `InputSelection.GetOverlappingInputs` | 14 - Flash-Chat/Pods/leveldb-library/db/version_set.cc:519-559 | at level zero the restarts end, with exactly the files that overlap the least closed range around the request; deeper, with those that overlap the request |
| `InputSelection.AddBoundaryInputs` | 14 - Flash-Chat/Pods/leveldb-library/db/version_set.cc:1378-1401 | adds a chain of boundary files, leaves none behind, keeps a gapless selection gapless, and changes nothing when there is none |
| `InputSelection.SetupOtherInputs` | 14 - Flash-Chat/Pods/leveldb-library/db/version_set.cc:1403-1462 | with or without growing the upper inputs, the result meets the contract of input selection |
| `InputSelection.PickCompaction` | 14 - Flash-Chat/Pods/leveldb-library/db/version_set.cc:1270-1324 | so does the picked compaction, which includes the file that a seek asked for |
| `InputSelection.CompactRange` | 14 - Flash-Chat/Pods/leveldb-library/db/version_set.cc:1464-1495 | so does a manual compaction, which holds all level-zero files of the least closed range around the request, or deeper the overlapping files in order up to the size limit; it finds nothing only if nothing overlaps |
| `InputSelection.SomeFileOverlapsRange` | 14 - Flash-Chat/Pods/leveldb-library/db/version_set.cc:122-155 | the linear and the binary search both decide whether any file overlaps the user-key range |
| `InputSelection.PickLevelForMemTableOutput` | 14 - Flash-Chat/Pods/leveldb-library/db/version_set.cc:491-516 | the level is the deepest of the first two such that nothing at it or above overlaps the memtable and not too much below it does; it is zero exactly if level one fails this or level zero overlaps |
| `VersionBuilder.SaveLevel` | 14 - Flash-Chat/Pods/leveldb-library/db/version_set.cc:695-753 | merging the base list with the added files gives the sorted list of all that are not deleted |
| `VersionBuilder.FoldMatchesOneAtATime` | 14 - Flash-Chat/Pods/leveldb-library/db/version_set.cc:650-753 | folding all edits into one builder leaves the files that one version per edit leaves, if no number is added twice to a level |
| `VersionBuilder.ReplayRebuildsLists` | 14 - Flash-Chat/Pods/leveldb-library/db/version_set.cc:924-992 | the lists are then equal in order too, since a sorted list is determined by its files |
| `Recovery.Recover` | 14 - Flash-Chat/Pods/leveldb-library/db/version_set.cc:924-1000 | records decoded each into a fresh edit and folded through one builder give the lists of one edit at a time; each number is the one of the last edit that gives it, and the previous log number is zero exactly if none does; a corrupt record, a wrong comparator or a missing number is reported |
| `Recovery.RecoveryRebuildsVersion` | 14 - Flash-Chat/Pods/leveldb-library/db/version_set.cc:924-1000 | a manifest as it was written recovers, exactly if its comparators match and the three numbers were ever given, to the last of the versions that its edits made one after the other, with the last numbers given |
| `VersionEdits.EditRoundTrip` | 14 - Flash-Chat/Pods/leveldb-library/db/version_edit.cc:41-205 | decoding an encoded edit gives it back, behind the compaction pointers that the object already had |
| `VersionEdits.EditRestoredExactly` | 14 - Flash-Chat/Pods/leveldb-library/db/version_edit.cc:26-39 | so it is restored exactly if and only if the object had no compaction pointers |
| `WriteBatches.OperationsRead` | 14 - Flash-Chat/Pods/leveldb-library/db/write_batch.cc:42-80 | the operations of a batch read back from its bytes in order |
| `WriteBatches.WriteBatch.Append` | 14 - Flash-Chat/Pods/leveldb-library/db/write_batch.cc:144-148 | the bytes of an appended batch stand for the operations of both, with the count of both and the first sequence number |
| `WriteBatches.InsertBytes` | 14 - Flash-Chat/Pods/leveldb-library/db/write_batch.cc:42-80 | any bytes are accepted exactly if they parse and the count is right; then entry after entry has the next sequence number and the key of its operation, with the value of a put, or as a tombstone for a deletion |
| `WriteBatches.WriteBatch.InsertInto` | 14 - Flash-Chat/Pods/leveldb-library/db/write_batch.cc:132-137 | a batch adds to a memtable one entry for each of its operations, in that way |
| `WriteBatches.LastOperationWins` | 14 - Flash-Chat/Pods/leveldb-library/db/write_batch.cc:117-137 | a read at the last number of a batch finds the last of its operations on the key |
| `WriteBatches.OtherKeysStay` | 14 - Flash-Chat/Pods/leveldb-library/db/write_batch.cc:117-137 | keys that the batch does not name read as before |
| `WriteBatches.AppliedConcat` | 14 - Flash-Chat/Pods/leveldb-library/db/write_batch.cc:144-148 | inserting an appended batch is inserting one after the other with sequence numbers that go on |
| `MergingIterators.MergeExists` | 14 - Flash-Chat/Pods/leveldb-library/table/merger.cc:148-176 | sorted children have an ordered merge with one item per child that holds a key |
| `MergingIterators.DistinctMergeIsSorted` | 14 - Flash-Chat/Pods/leveldb-library/table/merger.cc:31-176 | if no key is in two children the merge is the sorted union |
| `MergingIterators.MergingIterator.Seek` | 14 - Flash-Chat/Pods/leveldb-library/table/merger.cc:47-53 | stands at the first merged item at or after the target |
| `MergingIterators.MergingIterator.Next` | 14 - Flash-Chat/Pods/leveldb-library/table/merger.cc:55-79 | moves one item on; after a change of direction, to the first item with a greater key |
| `MergingIterators.MergingIterator.Prev` | 14 - Flash-Chat/Pods/leveldb-library/table/merger.cc:81-108 | moves one item back; after a change of direction, to the last item with a smaller key |
| `MergingIterators.NoDuplicateNeighbours` | 14 - Flash-Chat/Pods/leveldb-library/table/merger.cc:55-108 | a change of direction is one exact step if and only if the neighbouring item has another key |
| `TwoLevelIterators.SeekInBlock` | 14 - Flash-Chat/Pods/leveldb-library/table/two_level_iterator.cc:82-87 | when index keys divide the blocks, the sought position is in the block that the index seek finds, or at the start of a later one |
| `TwoLevelIterators.TwoLevelIterator.Seek` | 14 - Flash-Chat/Pods/leveldb-library/table/two_level_iterator.cc:82-87 | a cursor over the concatenated blocks, empty blocks skipped: the first entry at or after the target |
| `TwoLevelIterators.TwoLevelIterator.Next` | 14 - Flash-Chat/Pods/leveldb-library/table/two_level_iterator.cc:103-126 | the next position of the concatenation |
| `TwoLevelIterators.TwoLevelIterator.Prev` | 14 - Flash-Chat/Pods/leveldb-library/table/two_level_iterator.cc:109-139 | the previous position of the concatenation |
| `TwoLevelIterators.LevelIsDivided` | 14 - Flash-Chat/Pods/leveldb-library/db/version_set.cc:157-228 | the largest keys of a disjoint level divide its files, so the concatenating iterator is a cursor over the level |
| `Bytewise.RankPreservesOrder` | 14 - Flash-Chat/Pods/leveldb-library/util/comparator.cc:25-27 | byte strings in lexicographic order embed into the numbers, one to one |
| `Bytewise.SeparatorSeparates` | 14 - Flash-Chat/Pods/leveldb-library/util/comparator.cc:29-50 | a shortened separator lies strictly between the keys, is no longer, and no key in between is shorter |
| `Bytewise.SuccessorIsAbove` | 14 - Flash-Chat/Pods/leveldb-library/util/comparator.cc:52-63 | a shortened successor is above the key and no key above is shorter; it stays only for keys of all 255s |
| `Tables.SeparatorSeparates` | 14 - Flash-Chat/Pods/leveldb-library/db/dbformat.cc:69-86 | an index key is at or after the block's last key and before the next, and has its own user key strictly between unless it is the last key |
| `Tables.HandleRoundTrip` | 14 - Flash-Chat/Pods/leveldb-library/table/format.cc:15-29 | a block handle decodes to itself |
| `Tables.TableBuilder.Add` | 14 - Flash-Chat/Pods/leveldb-library/table/table_builder.cc:94-123 | keeps the built table consistent whatever the block size: deferred index entries, stored blocks, filter history |
| `Tables.TableBuilder.Finish` | 14 - Flash-Chat/Pods/leveldb-library/table/table_builder.cc:198-253 | the finished table holds what was added, tiled by its blocks, with one dividing index key each |
| `Tables.TableIsDivided` | 14 - Flash-Chat/Pods/leveldb-library/table/table_builder.cc:94-139 | so the two-level iterator over it is a cursor over the flat added sequence |
| `Tables.OneBlockIsEnough` | 14 - Flash-Chat/Pods/leveldb-library/table/table.cc:216-238 | the one block that the index seek finds holds the first entry at or after the key, or no entry of the sought user key is at or after it |
| `Tables.InternalGet` | 14 - Flash-Chat/Pods/leveldb-library/table/table.cc:216-244 | the single-block probe with its filter returns the sought user key's first entry at or after the key whenever there is one |
| `Tables.FilterOfTableAdmits` | 14 - Flash-Chat/Pods/leveldb-library/table/table_builder.cc:111-138 | the filter built along with a table admits every user key in the block that holds it |
| `TableBlocks.InternalOrderIs` | 14 - Flash-Chat/Pods/leveldb-library/db/dbformat.cc:51-67 | encoded internal keys have a rank by which they compare as internal keys do |
| `TableBlocks.ParsedEncoded` | 14 - Flash-Chat/Pods/leveldb-library/db/dbformat.h:165-175 | parsing an encoded internal key gives back its parts |
| `TableBlocks.WriteBlock` | 14 - Flash-Chat/Pods/leveldb-library/table/table_builder.cc:113-123 | the block builder writes the encoded entries of a block, in order |
| `TableBlocks.SeekInBlock` | 14 - Flash-Chat/Pods/leveldb-library/table/table.cc:229-236 | a seek in the bytes of a block finds the entry that the table's cursor finds |
| `TableBlocks.ReadBlock` | 14 - Flash-Chat/Pods/leveldb-library/table/block.cc:203-251 | reading the bytes of a block gives its entries back |
| `Blocks.DecodeEntry` | 14 - Flash-Chat/Pods/leveldb-library/table/block.cc:54-75 | with or without its fast path the lengths of an entry are those of the three varints, and checked against the input |
| `Blocks.LengthsRoundTrip` | 14 - Flash-Chat/Pods/leveldb-library/table/block_builder.cc:94-101 | the lengths of an encoded entry decode to themselves |
| `Blocks.BlockBuilder.Add` | 14 - Flash-Chat/Pods/leveldb-library/table/block_builder.cc:72-106 | the buffer still lies as the pairs demand, with prefixes shared between restarts, and one pair more |
| `Blocks.BlockIter.Seek` | 14 - Flash-Chat/Pods/leveldb-library/table/block.cc:163-201 | binary search over restarts and a scan land on the first pair at or after the target |
| `Blocks.BlockIter.Prev` | 14 - Flash-Chat/Pods/leveldb-library/table/block.cc:142-161 | stepping back over restart points lands on the exact predecessor |
| `Blocks.BlockIter.ParseNextKey` | 14 - Flash-Chat/Pods/leveldb-library/table/block.cc:224-251 | parsing restores the full key, the value and the restart index of the next pair |
| `Blocks.ReadAllPairs` | 14 - Flash-Chat/Pods/leveldb-library/table/block.cc:203-251 | iterating over a finished block gives the added pairs |
| `Bloom.CreateFilter` | 14 - Flash-Chat/Pods/leveldb-library/util/bloom.cc:28-54 | the loops that set bits in place write the specified filter |
| `Bloom.KeyMayMatch` | 14 - Flash-Chat/Pods/leveldb-library/util/bloom.cc:56-80 | the probing loop decides the specified match |
| `Bloom.MatchesExactly` | 14 - Flash-Chat/Pods/leveldb-library/util/bloom.cc:28-80 | a key matches if and only if each of its probes is a probe of some added key, for any hash function |
| `Bloom.AddedKeyMatches` | 14 - Flash-Chat/Pods/leveldb-library/util/bloom.cc:28-80 | so every added key matches |
| `FilterBlock.FilterBlockBuilder.Finish` | 14 - Flash-Chat/Pods/leveldb-library/table/filter_block.cc:35-49 | the contents are the filters of the 2 KB windows, their offsets and the trailer, and every key is in the window of its offset |
| `FilterBlock.ReaderAsksTheWindow` | 14 - Flash-Chat/Pods/leveldb-library/table/filter_block.cc:77-104 | through the offset array the reader asks exactly the filter of the window of the offset, and says yes past the end |
| `FilterBlock.NoFalseNegatives` | 14 - Flash-Chat/Pods/leveldb-library/table/filter_block.cc:21-104 | every key added under an offset may match at that offset |
| `SkipLists.StepKeepsInv` | 14 - Flash-Chat/Pods/leveldb-library/db/skiplist.h:260-368 | every single load and store keeps each level a sorted sublist of the level below and only adds keys |
| `SkipLists.EverySearchIsExact` | 14 - Flash-Chat/Pods/leveldb-library/db/skiplist.h:260-323 | a search by a lock-free reader answers exactly for the keys present at its last load, whatever height it read and however the writer interleaved |
| `SkipLists.PublishAddsOneKey` | 14 - Flash-Chat/Pods/leveldb-library/db/skiplist.h:337-368 | a publishing store adds the key to its level only, bottom up |
| `SkipLists.LevelIsSortedList` | 14 - Flash-Chat/Pods/leveldb-library/db/skiplist.h:255-258 | following the links of a level visits exactly its keys, in order |
| `GroupCommit.GroupIsLongest` | 14 - Flash-Chat/Pods/leveldb-library/db/db_impl.cc:1260-1306 | the group takes the longest run of writers that keeps to the size limit and lets no sync writer join a leader that does not sync |
| `GroupCommit.BuildBatchGroup` | 14 - Flash-Chat/Pods/leveldb-library/db/db_impl.cc:1260-1306 | the loop collects the batches of that group: each whole, in queue order, with nothing between them, so that the cuts between the batches add up to the whole |
| `GroupCommit.StepKeepsInv` | 14 - Flash-Chat/Pods/leveldb-library/db/db_impl.cc:1185-1255 | every step of every writer, with logging and syncing that may fail, keeps the queue invariant |
| `GroupCommit.LoggedAndAppliedOnceInOrder` | 14 - Flash-Chat/Pods/leveldb-library/db/db_impl.cc:1185-1255 | without errors, every finished batch lies whole, once and in queue order in the operations that the log's records hold one after the other, and that the memtable holds under consecutive sequence numbers up to the last one |
| `GroupCommit.BatchesAreAtomic` | 14 - Flash-Chat/Pods/leveldb-library/db/db_impl.cc:1207-1236 | at every moment only entries of finished groups are at or below the last sequence number; those of a group in flight are all above it |
| `GroupCommit.GroupsShareTheirFate` | 14 - Flash-Chat/Pods/leveldb-library/db/db_impl.cc:1238-1248 | all writers of a group get their leader's status; a successful sync group is in the synced log; after a failed sync every later group fails |
| `Log.Writer.AddRecord` | 14 - Flash-Chat/Pods/leveldb-library/db/log_writer.cc:34-80 | a record is appended as fragments that never cross a 32 KB block |
| `Log.Writer.Reopen` | 14 - Flash-Chat/Pods/leveldb-library/db/log_writer.cc:27-30 | a writer reopened at the length of a complete log goes on with it |
| `Log.Reader.ReadRecord` | 14 - Flash-Chat/Pods/leveldb-library/db/log_reader.cc:56-176 | the loop over blocks, fragments and damage does what the specified reading does, and makes progress |
| `Log.CutOffLogReadsAsPrefix` | 14 - Flash-Chat/Pods/leveldb-library/db/log_reader.cc:56-271 | any byte prefix of a log reads as the records that are complete in it, with no corruption reported; the whole log reads as all records |
| `LogIntegrity.ReturnedIsIntact` | 14 - Flash-Chat/Pods/leveldb-library/db/log_reader.cc:56-271 | from any bytes, however damaged, a record that is returned is put together from fragments that are in the file, with their checksums, in order and of the right types |
| `Crc.StrideIsAdvance` | 14 - Flash-Chat/Pods/leveldb-library/util/crc32c.cc:276-322 | one table-driven step of a stride is sixteen byte steps of the shift register |
| `Crc.Extend` | 14 - Flash-Chat/Pods/leveldb-library/util/crc32c.cc:276-377 | the strided loop, for any length and any address, computes the byte-at-a-time register |
| `Crc.ExtendConcat` | 14 - Flash-Chat/Pods/leveldb-library/util/crc32c.h:15-20 | extending over two pieces is extending over their concatenation |
| `Crc.MaskRoundTrip` | 14 - Flash-Chat/Pods/leveldb-library/util/crc32c.h:29-38 | masking and unmasking undo each other |
| `Crc.MaskValues` | 14 - Flash-Chat/Pods/leveldb-library/util/crc32c.h:29-33 | masking is the rotation by fifteen bits and the addition, with its values at 0, 1 and 0x8000 |
| `Crc.TableEntries` | 14 - Flash-Chat/Pods/leveldb-library/util/crc32c.cc:20-64 | the byte table that the polynomial defines has the original table's entries at 16, 32, 64 and 128 |
| `Crc.ChecksumAsWrittenAndRead` | 14 - Flash-Chat/Pods/leveldb-library/db/log_writer.cc:93-96 | the checksum made from a stored type checksum and the payload is that of both together, and a stored word unmasks to it exactly if it is the word that is written |
| `Coding.VarintRoundTrip` | 14 - Flash-Chat/Pods/leveldb-library/util/coding.cc:81-157 | a varint reads back, whatever follows it, and ends where it was written |
| `Coding.VarintHasNoCompletePrefix` | 14 - Flash-Chat/Pods/leveldb-library/util/coding.cc:142-157 | no proper prefix of a varint reads as one |
| `Coding.GetVarint32Ptr` | 14 - Flash-Chat/Pods/leveldb-library/util/coding.cc:112-128 | the shifting loop reads what the specification reads, on any bytes |
| `Coding.LengthPrefixedRoundTrip` | 14 - Flash-Chat/Pods/leveldb-library/util/coding.cc:98-189 | a length-prefixed slice reads back with the rest of the input |
| `Coding.FixedOfDecoded` | 14 - Flash-Chat/Pods/leveldb-library/util/coding.h:60-85 | fixed-width decoding and encoding undo each other on any bytes |
| `HandleTables.HandleTable.Insert` | 14 - Flash-Chat/Pods/leveldb-library/util/cache.cc:78-92 | the table adds a handle in place of the one with its key, and stays a map while it grows |
| `HandleTables.HandleTable.Remove` | 14 - Flash-Chat/Pods/leveldb-library/util/cache.cc:94-103 | removes exactly the handle with the key, or nothing if there is none |
| `HandleTables.HandleTable.Resize` | 14 - Flash-Chat/Pods/leveldb-library/util/cache.cc:122-146 | moving every chain to the new array keeps the handles |
| `LruLists.UnlinkShortens` | 14 - Flash-Chat/Pods/leveldb-library/util/cache.cc:239-242 | two pointer writes take an element out of a circular list and leave its order |
| `LruLists.LinkLastAppends` | 14 - Flash-Chat/Pods/leveldb-library/util/cache.cc:244-250 | four pointer writes put an element at the newest end |
| `LruCaches.RefIsSound` | 14 - Flash-Chat/Pods/leveldb-library/util/cache.cc:217-223 | a reference keeps the lists, the counts and the total charge right |
| `LruCaches.RefReferences` | 14 - Flash-Chat/Pods/leveldb-library/util/cache.cc:217-223 | a reference adds one to the count and to what the client holds, puts a cached entry in use and off the unused list, and changes no other handle and no order |
| `LruCaches.UnrefIsSound` | 14 - Flash-Chat/Pods/leveldb-library/util/cache.cc:225-237 | giving up a reference, which frees an entry or makes it the newest unused one, keeps lists, counts, the total charge and the one deletion of each entry right |
| `LruCaches.LRUCache.Release` | 14 - Flash-Chat/Pods/leveldb-library/util/cache.cc:261-264 | takes one reference from the client; the last one deletes a handle outside the cache, or makes a cached entry the newest unused one; nothing else changes and what clients hold stays |
| `LruCaches.LRUCache.Insert` | 14 - Flash-Chat/Pods/leveldb-library/util/cache.cc:266-303 | the new entry replaces at most the one with its key; then exactly the oldest unused entries go, no more than needed, until the usage fits or none is left; whatever clients hold survives |
| `LruCaches.LRUCache.Lookup` | 14 - Flash-Chat/Pods/leveldb-library/util/cache.cc:252-259 | finds the cached entry of the key exactly if there is one, and then the client holds one reference more and the entry is in use, and nothing else has changed |
| `LruCaches.LRUCache.Erase` | 14 - Flash-Chat/Pods/leveldb-library/util/cache.cc:307-321 | removes exactly the entry with the key; it lives on outside the cache while clients hold it |
| `LruCaches.LRUCache.Prune` | 14 - Flash-Chat/Pods/leveldb-library/util/cache.cc:323-333 | deletes exactly the entries that no client uses, oldest first; whatever clients hold survives |
| `Nanopb.Varint32Decodes` | 14 - Flash-Chat/Pods/nanopb/pb_decode.c:187-253 | a canonical varint decodes to its value although overlong forms and sign extension are accepted |
| `Nanopb.ScalarRoundTrip` | 14 - Flash-Chat/Pods/nanopb/pb_decode.c:1318-1548 | every scalar, bytes and string kind decodes to what was encoded, a string to its text |
| `Nanopb.PackedRoundTrip` | 14 - Flash-Chat/Pods/nanopb/pb_decode.c:430-455 | a packed array decodes to its values |
| `Nanopb.SlotsRoundTrip` | 14 - Flash-Chat/Pods/nanopb/pb_decode.c:925-1073 | field after field, the decoder turns defaults into what is restored of a complete message, also for unions and repeated fields |
| `Nanopb.MessageRoundTrip` | 14 - Flash-Chat/Pods/nanopb/pb_encode.c:528-550 | a decoded message has every present field, at every depth, and the default of every absent one |
| `NanopbDecoding.CanonicalRoundTrip` | 14 - Flash-Chat/Pods/nanopb/pb_encode.c:528-550 | a message without zero bytes in strings, whose absent fields hold their defaults, comes back exactly as it was |
| `NanopbDecoding.PartialMessageDecodes` | 14 - Flash-Chat/Pods/nanopb/pb_decode.c:925-1073 | with any fields left out and unknown fields put in anywhere, a message is accepted exactly if none of the first 64 required fields is left out, and the unknown fields change nothing |
| `NanopbDecoding.AcceptedHasRequired` | 14 - Flash-Chat/Pods/nanopb/pb_decode.c:1008-1068 | whatever bytes are accepted hold a key of each of the first 64 required fields |
| `NanopbDecoding.AcceptedFits` | 14 - Flash-Chat/Pods/nanopb/pb_decode.c:406-480 | whatever bytes are accepted, numbers, byte strings and arrays are within their limits and at most one member of a union is set, at every depth |
| `NanopbDecoding.ScalarAcceptedExactly` | 14 - Flash-Chat/Pods/nanopb/pb_decode.c:1318-1548 | an encoded scalar is accepted exactly if the field can hold it |
| `NanopbDecoding.EncodedIsSkippable` | 14 - Flash-Chat/Pods/nanopb/pb_decode.c:321-331 | a decoder that does not know a field skips exactly its value, by the wire type alone |
| `NanopbDecoding.ZigZagIsShort` | 14 - Flash-Chat/Pods/nanopb/pb_encode.c:630-639 | zig-zag codes of small numbers are small whatever their sign, and decode to them |
| `Nanopb.StringNeedsItsTerminator` | 14 - Flash-Chat/Pods/nanopb/pb_encode.c:875-899 | a string is refused back exactly if it fills its storage without a zero byte; otherwise its text comes back, which is the whole storage exactly if that has no zero byte |
| `NanopbStreams.PackedSize` | 14 - Flash-Chat/Pods/nanopb/pb_encode.c:147-200 | the size of a packed array, by width or by a counting pass, is the length of its encoding |
| `NanopbStreams.EncodeArray` | 14 - Flash-Chat/Pods/nanopb/pb_encode.c:147-236 | a repeated field writes or counts the specified bytes, and fails exactly if there is no room |
| `NanopbStreams.EncodeSubmessage` | 14 - Flash-Chat/Pods/nanopb/pb_encode.c:717-765 | the second pass writes as many bytes as the first one counted, at every depth |
| `NanopbStreams.EncodeMessage` | 14 - Flash-Chat/Pods/nanopb/pb_encode.c:528-550 | a stream takes exactly the encoding of the message, or fails exactly if it does not fit |
| `NanopbStreams.GetEncodedSize` | 14 - Flash-Chat/Pods/nanopb/pb_encode.c:567-577 | the counted size is the length of the encoding |
| `NanopbStreams.EncodeToBuffer` | 14 - Flash-Chat/Pods/nanopb/pb_encode.c:86-125 | a buffer takes a message exactly if it is long enough, and decoding it restores the message |
| `NanopbFields.FieldIter.Find` | 14 - Flash-Chat/Pods/nanopb/pb_common.c:78-96 | the wrapping search finds a field with the tag exactly if there is one, and comes back to where it was otherwise |
| `NanopbFields.FoundIsTheField` | 14 - Flash-Chat/Pods/nanopb/pb_common.c:78-96 | with distinct tags it finds the same field wherever it starts |
| `NanopbFields.FieldsSeen.AllSeen` | 14 - Flash-Chat/Pods/nanopb/pb_decode.c:1046-1068 | the words of the bitmap, with the mask for the last one, decide whether all required fields were seen |
| `NanopbFields.BitmapDecides` | 14 - Flash-Chat/Pods/nanopb/pb_decode.c:925-1068 | the bits by rank among required fields stand for the required fields, of which only the first 64 are checked |

## Left out

- A memtable flush that runs inside a compaction: flush and compaction install are atomic steps.
- Compaction scores, seek counters, compaction pointers and read sampling: which level or file is picked is arbitrary.
- The limits that end a compaction output: arbitrary, per entry; sizes of output files are counted in entries.
- `Database.Next`: only admits compactions that uncover nothing, as exactly characterised by `Database.CompactionIsSafeExactly`; the code performs the others too.
- `Database.Get`: its state holds memtables as sorted sequences; the encoding of memtable entries and reference counts are not modelled.
- `DatabaseIterators.SeekAndGet`: runs the user-key iterator over the flat cursor that the merging and two-level iterators are proved to be, not over those objects.
- Sorting by file number: `std::sort` is insertion into a sorted list.
- `Recovery.Recover`: collects the decoded edits and hands them to the builder when all are fine; the code hands over each at once and drops the builder after a problem.  Reading CURRENT, reusing a manifest and `MarkFileNumberUsed` are not modelled.
- Corrupted internal keys, blocks and index entries, and the status paths that report them.
- Log reading from an initial offset above zero, `LastRecordOffset`, and flush errors of the file.
- The accelerated CRC path, which depends on the port.
- Table files: snappy, block trailers, the meta-index block, the footer and the block cache; blocks are found by handle.  `TableBlocks` connects the entries of a block with its bytes.
- The hash functions: arbitrary.  Random heights of skip-list nodes: any height from 1 to 12.
- `SkipLists.EverySearchIsExact`: steps are sequentially consistent; relaxed and acquire/release orderings are not distinguished.
- `GroupCommit.LoggedAndAppliedOnceInOrder`: waiting for room (`MakeRoomForWrite`) is one step, and a failed log write leaves no part of its record.
- Arena allocation, file locks, environment calls, logging, statistics, `repair.cc`, `c.cc`, `dumpfile.cc` and `filename.cc`.
- `LruCaches.LRUCache.Insert`: hash chains are sequences, handles are numbers, and values are not stored; the sharded wrapper and the destructor are not modelled.
- nanopb callbacks, extensions, pointer fields, fixed-count arrays (repeated fields without a count) and the 32-bit-only build.
- `Nanopb.Varint32Decodes`: the bit counter is unbounded, while the original's may wrap after 36 bytes of an overlong varint.
- `Nanopb.StringNeedsItsTerminator`: a storage shorter than its size stands for one that is terminated there; bytes after the terminator are not kept on decoding.
- The encoder's checks of corrupt structures, and field number zero in a descriptor.
- The Swift apps, the GTMSessionFetcher headers and the generated tables: no property beyond single bodies.
