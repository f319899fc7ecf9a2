# Models of LevelDB, nanopb and the DTLS handshake layer of BoringSSL

This project models the three protocol cores that the application vendors under `ios/Pods`, and proves what they are
for. Everything is Dafny 4.11; `dafny verify dfyconfig.toml` checks all of it.

`basics.dfy` and `varint.dfy` hold what several of them share: options, bytes and base-128 varints.

**LevelDB.** A log-structured store. User keys appear as integers, their position in the comparator's order
(`Comparators.RankPreservesOrder` shows that this loses nothing); an entry is an internal key and a value. Where
tables and blocks themselves are the subject, keys are byte strings; elsewhere a table file is the sorted sequence of
its entries, which is what `Tables.InternalGet` and `TwoLevelIterators` show a table to be.

- `internal_key.dfy`, `comparator.dfy`: internal keys, and what a read should return, stated without levels or files.
- `version.dfy`: the levels of a version, the invariant they keep, and the lookup through them.
- `picking.dfy`, `compaction_inputs.dfy`, `compaction_picking.dfy`: choosing the inputs of a compaction.
- `compaction.dfy`, `compaction_cuts.dfy`: running one, and where it cuts its outputs.
- `compaction_theorems.dfy`, `compaction_resurfaces.dfy`: exactly when reads survive a compaction.
- `flush.dfy`, `version_builder.dfy`, `version_steps.dfy`: memtable flushes and version edits.
- `memtable.dfy`, `skip_list.dfy`: memtables, and the list behind them under one writer and concurrent readers.
- `database.dfy`, `database_logs.dfy`, `database_manifest.dfy`, `database_code.dfy`, `database_steps.dfy`,
  `database_clean.dfy`: the database as a state machine with a crash possible between any two steps, the methods that
  carry out the steps, and recovery.
- `database_files.dfy`: the same machine on the bytes of its logs and manifests, with appends torn by crashes.
- `database_resurfaces.dfy`: a run in which a compaction brings a deleted value back.
- `merging_iterator.dfy`, `db_iter.dfy`: iterators that change direction over merged and filtered entries.
- `log_format.dfy`, `log_reader.dfy`: the write-ahead log on disk.
- `log_unknown_type.dfy`, `log_damage.dfy`: what the reader makes of records of unknown type and of damaged blocks.
- `coding.dfy`, `block.dfy`, `block_iter.dfy`: blocks of prefix-compressed entries, byte by byte, and the search in
  them.
- `bloom.dfy`, `filter.dfy`: bloom filters and filter blocks, byte by byte.
- `table.dfy`, `two_level.dfy`: tables of blocks behind an index of shortened keys, lookups and iterators.
- `handle_table.dfy`, `cache.dfy`, `cache_recency.dfy`: one shard of the cache, with its hash table, reference counts
  and eviction, and the order in which it evicts over whole runs.
- `group_commit.dfy`: concurrent writers that commit in groups.

**nanopb.** A protobuf codec driven by field descriptors. `nanopb_wire.dfy` and `nanopb_scalar.dfy` hold the wire
formats, `nanopb_message.dfy` encoding and decoding of whole messages as functions over a tree of descriptors,
`nanopb_roundtrip.dfy` the round trip, `nanopb_format.dfy` the bytes in the terms of the Protocol Buffers "Encoding"
document and the decoding of fields a decoder does not know, `nanopb_merge.dfy` messages one after another,
`nanopb_safety.dfy` what is promised for arbitrary bytes, and `nanopb_encoder.dfy` and `nanopb_decoder.dfy` the stream
code that implements the functions.

**DTLS.** `dtls_fragment.dfy`, `dtls_reassembly.dfy`, `dtls_receiver.dfy`, `dtls_sender.dfy`, `dtls_end_to_end.dfy`
and `dtls_transfer.dfy` follow one flight of handshake messages from the sender's cuts to the receiver's reassembly
(RFC 6347, sections 4.2.2 to 4.2.4); `dtls_any_network.dfy` lets the network deliver anything.

## Where the code falls short of its promise

- A compaction can bring a deleted value back. `SetupOtherInputs` closes only the `level` inputs over shared user keys
  (`ios/Pods/leveldb-library/db/version_set.cc:1384`), not the `level+1` inputs. `CompactionResurfaces` has a concrete
  version, `DatabaseResurfaces.DeletionIsForgotten` a run of the database that reaches it and then forgets a deletion;
  `CompactionTheorems.CompactionPreservesReads` says exactly when reads survive, in terms of the deletion markers
  among the inputs and the files left behind at `level+1`; and `ClosedNextLevelIsSafe` shows that closing those inputs
  too would be enough. In the database state machine the flag `safe` records whether all compactions so far met the
  condition: conservation of entries holds always, agreement of reads with the full history while the flag is set.
- The receiver means to ignore fragments too far in the future, but one exactly seven messages ahead passes the test
  (`ios/Pods/BoringSSL-GRPC/src/ssl/d1_both.cc:371-373`) and then aborts the connection (`d1_both.cc:263-267`).
  `DtlsReassembly.AbortsAtEdge`: for a peer that sends only proper fragments of consistent messages, a run raises an
  alert if and only if some fragment arrives for the message exactly one window ahead of the next one to be read.
- The log reader means to report a record of unknown type and to read on, but tells kEof and kBadRecord from types
  read from the file by number only (`ios/Pods/leveldb-library/db/log_reader.h:66-72`). `UnknownTypes.UnknownReads`
  says what becomes of every record of unknown type with a correct checksum, wherever the reader stands: type 5 ends
  the log, type 6 counts as an invalid record, every other type is dealt with as meant. `UnknownTypes.PromiseKept` has
  the exact condition for one record, and `UnknownTypes.UnknownIsReported` for whole logs: the payload is reported if
  and only if the type is neither 5 nor 6, and what follows is read if and only if it is not 5.
  `LogReaders.ReservedTypeEndsLog` is a concrete instance. The writer produces no such record.
- A nanopb message does not always come back. `NanopbRoundTrip.MessageRoundTrip` says exactly when: a stored message
  that has an encoding is restored if and only if no present string fills its buffer and no length-delimited block
  takes 4 GB or more (`Readable`), and no field without presence holds a zero where its default is something else
  (`ZerosKept`), at any depth, array elements and submessages included. Without the first, decoding fails; without
  only the second, it yields the defaults instead (`DecodeAfterEncode`, which also says when the encoding exists).
  `FullStringIsRefused`, `LargeBlockIsRefused` and `ZeroHidesDefault` have an example of each.

## Model

| member | source | states |
|---|---|---|
| InternalKeys.LowerBound | ios/Pods/leveldb-library/db/skiplist.h:260-276 | the first entry not before the sought key: everything earlier is smaller, nothing later is |
| ReadSpec.SeekFindsNewest | ios/Pods/leveldb-library/db/dbformat.h:55-61 | seeking to (user key, snapshot, highest type) lands on the newest visible entry of the user key, or on none if there is none |
| ReadSpec.ReadLayers | ios/Pods/leveldb-library/db/db_impl.cc:1126-1141 | of a newer and an older layer, the newer decides a read exactly when it holds a visible entry for the key |
| Comparators.KeyOrder | ios/Pods/leveldb-library/db/dbformat.cc:47-63 | the internal key order is total, antisymmetric and transitive over byte-string user keys |
| Comparators.RankPreservesOrder | ios/Pods/leveldb-library/util/comparator.cc:25-27 | finitely many byte strings can be replaced by integers without changing any comparison |
| Comparators.FindShortestSeparator | ios/Pods/leveldb-library/util/comparator.cc:29-52 | a no longer string strictly between start and limit, cut off and raised behind their first difference, if that leaves room below the limit; otherwise the start itself |
| Comparators.SeparatorIsShortest | ios/Pods/leveldb-library/util/comparator.cc:29-52 | nothing shorter than a separator that was cut off lies between start and limit |
| Comparators.FindShortSuccessor | ios/Pods/leveldb-library/util/comparator.cc:54-66 | the key cut off and raised at its first byte below 0xff; the key itself exactly when it is all 0xff |
| Comparators.SuccessorIsShortest | ios/Pods/leveldb-library/util/comparator.cc:54-66 | nothing shorter than a successor that was cut off comes after the key |
| Comparators.SeparateKeys | ios/Pods/leveldb-library/db/dbformat.cc:65-83 | an index separator opens the separating user key if that is shorter, strictly between those of start and limit, and is the start key otherwise |
| Comparators.SucceedKey | ios/Pods/leveldb-library/db/dbformat.cc:85-97 | an index key for the last block opens the succeeding user key if that is shorter, and is the last key otherwise |
| Versions.FindFile | ios/Pods/leveldb-library/db/version_set.cc:87-106 | the index of the first file that ends at or after the key, by binary search |
| Versions.TableGet | ios/Pods/leveldb-library/table/table.cc:214-242 | a table lookup yields the newest visible entry of the user key in the table, or none exactly when there is none |
| Versions.GetInLevelZero | ios/Pods/leveldb-library/db/version_set.cc:285-302 | trying overlapping level-0 files newest first and stopping at the first hit yields the newest entry of the level |
| Versions.GetInLevel | ios/Pods/leveldb-library/db/version_set.cc:304-321 | in a sorted level the one file chosen by FindFile decides for the whole level |
| Versions.LevelDecides | ios/Pods/leveldb-library/db/version_set.cc:281-322 | an entry found at a level, when no shallower level has a visible one, is the answer for the whole version |
| Versions.Get | ios/Pods/leveldb-library/db/version_set.cc:324-400 | the level-by-level search with early stop returns exactly what a read over all entries of the version returns |
| Picking.SomeFileOverlapsRange | ios/Pods/leveldb-library/db/version_set.cc:121-154 | true exactly when some file meets the user-key range, by scan or by binary search |
| Picking.GetOverlappingInputs | ios/Pods/leveldb-library/db/version_set.cc:498-538 | at level 0 the restarting scan terminates and returns exactly the files in the least range closed under overlap; deeper, the files that meet the range |
| Picking.FindLargestKey | ios/Pods/leveldb-library/db/version_set.cc:1303-1317 | the largest upper bound, or nothing for no files |
| Picking.GetRange | ios/Pods/leveldb-library/db/version_set.cc:1182-1204 | the smallest lower and largest upper bound of a non-empty list of files |
| Picking.RangeIsTight | ios/Pods/leveldb-library/db/version_set.cc:1182-1204 | that range bounds every file, and both ends are attained |
| Picking.FindSmallestBoundaryFile | ios/Pods/leveldb-library/db/version_set.cc:1321-1341 | the smallest file that starts after the key with the same user key, or none |
| Picking.AddBoundaryInputs | ios/Pods/leveldb-library/db/version_set.cc:1355-1378 | terminates, and appends exactly the chain of boundary files |
| Picking.BoundaryFilesAreNext | ios/Pods/leveldb-library/db/version_set.cc:1355-1378 | on a sorted disjoint level the chain is a contiguous run after which no boundary file is left |
| CompactionInputs.OverlappingIsRun | ios/Pods/leveldb-library/db/version_set.cc:498-538 | the files of a disjoint level that meet a range are contiguous |
| CompactionInputs.OverlapKeepsClear | ios/Pods/leveldb-library/db/version_set.cc:1387-1388 | every level+1 file not picked lies wholly before or wholly after all inputs, sharing no user key with the level inputs |
| CompactionInputs.SeedClosed | ios/Pods/leveldb-library/db/version_set.cc:1384-1384 | after AddBoundaryInputs no file left at the level holds an older entry for a user key of the inputs |
| CompactionInputs.GatheredIsUnique | ios/Pods/leveldb-library/db/version_set.cc:498-538 | a request determines the files gathered for it: at level 0 those over the least closed range, deeper those that meet it |
| CompactionInputs.SetupIsUnique | ios/Pods/leveldb-library/db/version_set.cc:1380-1426 | the seed determines the inputs of a compaction at both levels; the level+1 inputs are always exactly the files over the range of the level inputs |
| Compactions.Compaction.constructor | ios/Pods/leveldb-library/db/version_set.cc:1474-1484 | a new compaction starts with zeroed level pointers and no level+1 inputs |
| Compactions.Compaction.SetupOtherInputs | ios/Pods/leveldb-library/db/version_set.cc:1380-1439 | the inputs are exactly the seed with its boundary chain and the level+1 files over their range, or the expansion when that is worth it; they form a safe pick, the grandparents are exactly the level+2 files over the range of all inputs, and the pointer is the largest level key |
| Compactions.Compaction.GrowInputs | ios/Pods/leveldb-library/db/version_set.cc:1395-1426 | the inputs stay as they are, or become exactly the wider ones when those add level files, meet the same number of level+1 files and stay under the size limit |
| Compactions.Compaction.Expand | ios/Pods/leveldb-library/db/version_set.cc:1395-1426 | the wider level inputs are exactly the files over the range of all inputs with their boundary chain; they are taken if and only if the three conditions hold, and then form a safe pick |
| Compactions.Compaction.OverlappingNext | ios/Pods/leveldb-library/db/version_set.cc:1385-1388 | the level+1 inputs are exactly the files that meet the user-key range of the level inputs, and complete a safe pick |
| Compactions.Compaction.IsBaseLevelForKey | ios/Pods/leveldb-library/db/version_set.cc:1510-1529 | with its advancing level pointers, answers exactly whether no file below level+1 covers the user key, for non-decreasing keys |
| Compactions.Compaction.ShouldStopBefore | ios/Pods/leveldb-library/db/version_set.cc:1531-1554 | counts exactly the grandparent bytes passed since the last cut, and cuts when they exceed the limit |
| OutputCuts.StopMeans | ios/Pods/leveldb-library/db/version_set.cc:1531-1554 | an output is stopped only where more than the limit of grandparent bytes ends between two entries of the input |
| OutputCuts.NothingToPass | ios/Pods/leveldb-library/db/version_set.cc:1531-1554 | without grandparents no output is ever stopped |
| OutputCuts.EveryCutHasReason | ios/Pods/leveldb-library/db/db_impl.cc:930-1013 | two tables are divided only where the first reached the size limit or the output was stopped between them; no table goes on past the limit or across a stop |
| OutputCuts.OnlyTheLimitCuts | ios/Pods/leveldb-library/db/db_impl.cc:995-1013 | where nothing stops the output, every table but the last reached the size limit |
| Compactions.CutBefore | ios/Pods/leveldb-library/db/db_impl.cc:931-937 | the output is closed before an entry if and only if more than ten files' worth of grandparents has been passed since it was last stopped |
| Compactions.KeptIsSublist | ios/Pods/leveldb-library/db/db_impl.cc:957-985 | what is kept is a sorted sublist of the input with exactly the entries the two drop rules spare |
| Compactions.KeptIsNeeded | ios/Pods/leveldb-library/db/db_impl.cc:957-985 | of every user key at most one entry at or below the smallest snapshot is kept, and no marker at or below it with nothing deeper |
| Compactions.CutsOfSorted | ios/Pods/leveldb-library/db/db_impl.cc:1000-1022 | cutting a sorted sequence into files gives disjoint files with the same entries |
| Compactions.ShouldDrop | ios/Pods/leveldb-library/db/db_impl.cc:967-985 | drops exactly entries hidden by a newer one visible at the snapshot, and deletion markers at or below it with nothing deeper |
| Compactions.CompactEntry | ios/Pods/leveldb-library/db/db_impl.cc:930-1024 | one round appends the entry exactly when the rules keep it, and closes the output before it exactly at a stop and after it exactly at the size limit |
| Compactions.CompactEntries | ios/Pods/leveldb-library/db/db_impl.cc:912-1028 | the loop writes exactly the kept entries of the merged input, in order, in the tables that stops and size limit determine |
| Compactions.CompactionState.Finish | ios/Pods/leveldb-library/db/db_impl.cc:820-867 | closing an output changes nothing of what has been produced, and numbers go on without a gap |
| Compactions.DoCompactionWork | ios/Pods/leveldb-library/db/db_impl.cc:887-1046 | the outputs concatenate to exactly the kept entries, are disjoint, carry consecutive fresh numbers, and are exactly the tables that stops and size limit cut them into |
| Compactions.OutputsEndForReason | ios/Pods/leveldb-library/db/db_impl.cc:930-1013 | every output but the last reached the size limit, or ends where more than ten files' worth of grandparents has been passed; without grandparents every output but the last reached the limit |
| CompactionTheorems.CompactionKeepsValid | ios/Pods/leveldb-library/db/db_impl.cc:869-885 | installing any compaction keeps every level sorted and disjoint, shallower levels newer and file numbers distinct |
| CompactionTheorems.InstalledEntries | ios/Pods/leveldb-library/db/db_impl.cc:869-885 | a compaction adds no entry |
| CompactionTheorems.DroppedIsGone | ios/Pods/leveldb-library/db/db_impl.cc:957-985 | an entry the rules drop is nowhere in the new version |
| CompactionTheorems.ReadAfterMarker | ios/Pods/leveldb-library/db/db_impl.cc:973-985 | once an obsolete marker is dropped, a read returns what the unpicked level+1 files hold |
| CompactionTheorems.ReadSurvives | ios/Pods/leveldb-library/db/db_impl.cc:887-1046 | if nothing left at level+1 is hidden by a dropped marker, every read at or above the smallest snapshot is unchanged |
| CompactionTheorems.MarkerMustStay | ios/Pods/leveldb-library/db/version_set.cc:1380-1388 | otherwise the hidden value reappears |
| CompactionTheorems.CompactionPreservesReads | ios/Pods/leveldb-library/db/db_impl.cc:887-1046 | reads at or above the smallest snapshot are unchanged if and only if no dropped marker hides a value left at level+1 |
| CompactionTheorems.ClosedNextLevelIsSafe | ios/Pods/leveldb-library/db/version_set.cc:1380-1388 | closing the level+1 inputs over shared user keys as well would make the condition hold |
| CompactionResurfaces.PickedInputs | ios/Pods/leveldb-library/db/version_set.cc:1380-1439 | a concrete valid version on which input selection leaves the hidden file behind |
| CompactionResurfaces.DeletedValueComesBack | ios/Pods/leveldb-library/db/version_set.cc:1387-1388 | on it, a compaction with all its premises met brings a deleted value back |
| CompactionPicking.VersionSet.constructor | ios/Pods/leveldb-library/db/version_set.cc:756-775 | a version set starts on its version with no compaction pointers |
| CompactionPicking.VersionSet.Start | ios/Pods/leveldb-library/db/version_set.cc:1247-1299 | a ready compaction whose inputs are exactly what is set up from these files, with the pointer moved to its largest level key |
| CompactionPicking.VersionSet.PickCompaction | ios/Pods/leveldb-library/db/version_set.cc:1247-1299 | yields a compaction exactly when there is a reason to; it starts from the first file past the pointer, or the first file, or the file that used up its seeks, and its inputs are exactly what is set up from that file; size compactions move past the pointer while anything is past it |
| CompactionPicking.VersionSet.CompactRange | ios/Pods/leveldb-library/db/version_set.cc:1441-1472 | yields nothing exactly when no file meets the range; otherwise the inputs are exactly what is set up from the files gathered for the range, cut off below level 0 at the size limit |
| CompactionPicking.VersionSet.Truncate | ios/Pods/leveldb-library/db/version_set.cc:1454-1466 | the shortest part at the front that reaches the size limit, or everything if nothing does |
| CompactionPicking.MakeInputIterator | ios/Pods/leveldb-library/db/version_set.cc:1214-1245 | the iterator runs over exactly the entries of the inputs, sorted |
| CompactionPicking.InputsMerge | ios/Pods/leveldb-library/db/version_set.cc:1214-1245 | the input files of a safe pick have a merge, because no entry lives in two files |
| CompactionPicking.TrivialMoveIsCheap | ios/Pods/leveldb-library/db/version_set.cc:1492-1500 | what passes the trivial-move test can be moved: the version stays valid with the same entries, and later compacting the file meets little data below |
| CompactionPicking.Compact | ios/Pods/leveldb-library/db/db_impl.cc:730-768 | exactly when the trivial-move test passes, its one file is recorded at the next level; otherwise the recorded outputs are a run of DoCompactionWork on the merged inputs, cut by its rules and numbered consecutively |
| Flushes.PickLevelForMemTableOutput | ios/Pods/leveldb-library/db/version_set.cc:470-496 | the level is determined: level 0 if a level-0 file meets the range, and otherwise the deepest one, up to 2, reached by steps each of which finds the next level clear and little data below it |
| Flushes.FlushKeepsValid | ios/Pods/leveldb-library/db/db_impl.cc:500-542 | adding a memtable table at the picked level keeps every invariant of the version |
| VersionBuilders.Builder.Apply | ios/Pods/leveldb-library/db/version_set.cc:629-669 | the builder represents the edit applied to what it represented |
| VersionBuilders.Builder.SaveTo | ios/Pods/leveldb-library/db/version_set.cc:672-715 | saving yields a version that lists exactly the represented files of every level, in order |
| VersionBuilders.ReplayAll | ios/Pods/leveldb-library/db/version_set.cc:895-946 | applying all edits to one builder and saving once yields the replayed file sets |
| VersionBuilders.ListsUnique | ios/Pods/leveldb-library/db/version_set.cc:672-715 | the sets of files determine the version |
| VersionBuilders.ApplyOne | ios/Pods/leveldb-library/db/version_set.cc:777-800 | a new version is built from one edit to exactly the files it describes |
| VersionBuilders.ReplayEqualsSteps | ios/Pods/leveldb-library/db/version_set.cc:629-715 | one builder for all edits and one builder per edit give the same version, if no file is added twice at a level |
| VersionSteps.CompactionEditInstalls | ios/Pods/leveldb-library/db/db_impl.cc:869-885 | the edit of a compaction leads exactly to the version with inputs replaced by outputs |
| VersionSteps.FlushEditAdds | ios/Pods/leveldb-library/db/db_impl.cc:534-565 | the edit of a flush leads exactly to the version with the table added |
| VersionSteps.TrivialMoveKeepsEntries | ios/Pods/leveldb-library/db/db_impl.cc:730-752 | moving a file down keeps the version valid and its entries the same |
| MemTables.MemTable.constructor | ios/Pods/leveldb-library/db/memtable.cc:21-24 | a new memtable is empty |
| MemTables.MemTable.Add | ios/Pods/leveldb-library/db/memtable.cc:76-101 | adds exactly the entry and keeps the order |
| MemTables.MemTable.Get | ios/Pods/leveldb-library/db/memtable.cc:103-136 | reports a hit exactly when an entry is visible, and then the answer of the newest |
| MemTables.InsertInto | ios/Pods/leveldb-library/db/write_batch.cc:116-141 | the memtable gains exactly the operations of the batch, numbered consecutively |
| DatabaseLogs.WriteKeepsInv | ios/Pods/leveldb-library/db/db_impl.cc:1216-1250 | logging and inserting a batch keeps the invariant |
| DatabaseLogs.RotateKeepsInv | ios/Pods/leveldb-library/db/db_impl.cc:1356-1376 | switching logs and memtables keeps the invariant |
| DatabaseLogs.InstallKeepsInv | ios/Pods/leveldb-library/db/version_set.cc:836-851 | making the recorded version current, and dropping the immutable memtable exactly if it was recorded, keeps the invariant |
| DatabaseLogs.CleanKeepsInv | ios/Pods/leveldb-library/db/db_impl.cc:222-287 | removing obsolete files removes nothing a recovery needs |
| DatabaseManifest.AppendKeepsManifest | ios/Pods/leveldb-library/db/version_set.cc:777-835 | appending a good edit keeps the manifest describing a valid version with all its tables present |
| DatabaseManifest.FlushKeepsInv | ios/Pods/leveldb-library/db/db_impl.cc:544-575 | recording a flushed memtable and retiring its log keeps the invariant |
| DatabaseManifest.MoveKeepsInv | ios/Pods/leveldb-library/db/db_impl.cc:730-752 | recording a trivial move keeps the invariant |
| DatabaseManifest.CompactKeepsInv | ios/Pods/leveldb-library/db/db_impl.cc:869-1046 | recording a compaction keeps the invariant |
| DatabaseManifest.RecoveryKeepsValid | ios/Pods/leveldb-library/db/db_impl.cc:345-370 | adding the tables recovered from the logs at level 0 keeps the version valid |
| DatabaseManifest.OpenDoneKeepsInv | ios/Pods/leveldb-library/db/db_impl.cc:1480-1512 | switching CURRENT to the new manifest loses and doubles nothing |
| DatabaseManifest.InitInv | ios/Pods/leveldb-library/db/db_impl.cc:181-211 | a new database satisfies the invariant |
| DatabaseManifest.StepKeepsInv | ios/Pods/leveldb-library/db/version_set.cc:777-859 | every step, a crash between any two included, keeps the invariant |
| DatabaseManifest.NothingIsLost | ios/Pods/leveldb-library/db/db_impl.cc:289-498 | at every point of every run each committed entry is in a table of the recorded version, in a live log, or was removed by a compaction, once; and if every compaction was safe, recovery reads like the full history |
| DatabaseManifest.NumberingGoesOn | ios/Pods/leveldb-library/db/db_impl.cc:373-375 | at every point of every run, crashes and recoveries included, the last sequence number the database goes on from is the largest ever committed, and 0 if none was |
| DatabaseManifest.SnapshotsReadHistory | ios/Pods/leveldb-library/db/db_impl.cc:1110-1155 | while the database is up and every compaction was safe, reads at live snapshots and at the latest sequence number agree with the full history |
| DatabaseFiles.TornReads | ios/Pods/leveldb-library/db/log_reader.cc:189-271 | after any part of an append but the whole, a file reads as if nothing had been appended, without a report |
| DatabaseFiles.TornKeepsFiles | ios/Pods/leveldb-library/db/db_impl.cc:1216-1250 | a crash in the middle of writing a batch, or of recording an edit, leaves logs and manifests that read as before it |
| DatabaseFiles.TornAppendsAreHarmless | ios/Pods/leveldb-library/db/db_impl.cc:289-498 | over every run of the database on the bytes of its files, with any append torn anywhere by a crash, the database stays in states it can reach without torn appends, and every log and manifest reads as that state says |
| DatabaseFiles.NothingIsTorn | ios/Pods/leveldb-library/db/db_impl.cc:289-378 | reading all files after any such run gives exactly one disk, from which every committed entry is recovered unless a compaction dropped it |
| DatabaseSteps.FlushMemTable | ios/Pods/leveldb-library/db/db_impl.cc:544-575 | from every reachable state, the table the code writes and the edit it records are steps of the database machine |
| DatabaseSteps.RunCompaction | ios/Pods/leveldb-library/db/db_impl.cc:730-768 | likewise for a compaction or a trivial move, run at the oldest live snapshot or else the last sequence number |
| DatabaseCleaning.AddLiveFiles | ios/Pods/leveldb-library/db/version_set.cc:1144-1154 | the live table numbers are the pending ones and those of the files of the version |
| DatabaseCleaning.ObsoleteFiles | ios/Pods/leveldb-library/db/db_impl.cc:231-272 | the names to delete are exactly the logs below the log number, the manifests older than the current one, and the tables neither pending nor in the version |
| DatabaseCleaning.CleaningIsStep | ios/Pods/leveldb-library/db/db_impl.cc:222-287 | deleting them is a step of the database machine, and leaves exactly the files that are needed |
| DatabaseResurfaces.ReachBefore | ios/Pods/leveldb-library/db/version_set.cc:1380-1439 | a run of the database from its creation on, with flushes, a compaction and a snapshot, reaches the version of CompactionResurfaces |
| DatabaseResurfaces.DeletionIsForgotten | ios/Pods/leveldb-library/db/version_set.cc:1387-1388 | after one compaction more, the latest read returns the value of a deleted key, which the full history does not |
| DatabaseCode.Get | ios/Pods/leveldb-library/db/db_impl.cc:1110-1155 | memtable, immutable memtable and version searched in turn answer exactly like a read over all their entries |
| DatabaseCode.LayersOfRun | ios/Pods/leveldb-library/db/db_impl.cc:1110-1155 | at every point of every run at which the database is up, the three layers are ordered by age as Get demands |
| DatabaseCode.GetInRun | ios/Pods/leveldb-library/db/db_impl.cc:1110-1155 | at every such point at which all compactions were safe, Get answers from the full history, at the latest sequence number or at a live snapshot |
| DatabaseCode.WriteLevel0Table | ios/Pods/leveldb-library/db/db_impl.cc:500-542 | the table holds exactly the memtable and has the size reported for it, at the level PickLevelForMemTableOutput promises, or level 0 during recovery; no table for an empty memtable |
| DatabaseCode.CompactMemTable | ios/Pods/leveldb-library/db/db_impl.cc:544-575 | the edit is that of a flush of the immutable memtable, at the promised level |
| DatabaseCode.RecoverLogFile | ios/Pods/leveldb-library/db/db_impl.cc:380-498 | the tables written so far and from this log hold exactly the replayed entries, each table newer than the one before; each table of this log holds exactly the records that fill a memtable up to the limit, and the largest number replayed is attained |
| DatabaseCode.ReplayLogs | ios/Pods/leveldb-library/db/db_impl.cc:345-370 | replaying the live logs in order yields exactly their entries, with file numbers above every log |
| DatabaseCode.RecoverVersion | ios/Pods/leveldb-library/db/version_set.cc:861-972 | replaying the edits of the manifest through one builder yields exactly the version recorded in it |
| DatabaseCode.Recover | ios/Pods/leveldb-library/db/db_impl.cc:289-378 | from every disk state the database can leave behind, recovery succeeds; the version rebuilt from the manifest with the tables made from the logs holds exactly the durable entries; the last sequence number is the larger of the recorded one and the largest in the logs, and every recovered table is a memtable that was over the limit or the last of its log |
| MergingIterators.MergeExists | ios/Pods/leveldb-library/table/merger.cc:31-108 | children with pairwise different keys have a sorted merge |
| MergingIterators.MergingIterator.constructor | ios/Pods/leveldb-library/table/merger.cc:14-27 | starts invalid over the merge of its children |
| MergingIterators.MergingIterator.SeekToFirst | ios/Pods/leveldb-library/table/merger.cc:31-37 | the cursor stands at the front of the merge |
| MergingIterators.MergingIterator.SeekToLast | ios/Pods/leveldb-library/table/merger.cc:39-45 | the cursor stands at the end of the merge |
| MergingIterators.MergingIterator.Seek | ios/Pods/leveldb-library/table/merger.cc:47-53 | the cursor stands at the first entry of the merge not before the key |
| MergingIterators.MergingIterator.Next | ios/Pods/leveldb-library/table/merger.cc:55-79 | one step forward in the merge, from either direction |
| MergingIterators.MergingIterator.Prev | ios/Pods/leveldb-library/table/merger.cc:81-108 | one step back in the merge, from either direction |
| DBIterators.VisibleIsRead | ios/Pods/leveldb-library/db/db_iter.cc:177-207 | the entries the cursor stops at are exactly those a read at its sequence number returns |
| DBIterators.CursorVisitsEveryKey | ios/Pods/leveldb-library/db/db_iter.cc:141-308 | walking the cursor visits every user key with a visible value, and no other |
| DBIterators.DBIter.constructor | ios/Pods/leveldb-library/db/db_iter.cc:47-58 | starts invalid |
| DBIterators.DBIter.FindNextUserEntry | ios/Pods/leveldb-library/db/db_iter.cc:177-207 | stops at the next visible user key, or at the end |
| DBIterators.DBIter.FindPrevUserEntry | ios/Pods/leveldb-library/db/db_iter.cc:236-276 | stops at the previous visible user key, or before the front |
| DBIterators.DBIter.Next | ios/Pods/leveldb-library/db/db_iter.cc:141-175 | moves to the next visible user key, from either direction |
| DBIterators.DBIter.Prev | ios/Pods/leveldb-library/db/db_iter.cc:209-234 | moves to the previous visible user key, from either direction |
| DBIterators.DBIter.Seek | ios/Pods/leveldb-library/db/db_iter.cc:278-290 | moves to the first visible user key not before the target |
| DBIterators.DBIter.SeekToFirst | ios/Pods/leveldb-library/db/db_iter.cc:292-301 | moves to the first visible user key |
| DBIterators.DBIter.SeekToLast | ios/Pods/leveldb-library/db/db_iter.cc:303-308 | moves to the last visible user key |
| LogFormat.UnmaskMask | ios/Pods/leveldb-library/util/crc32c.h:23-36 | unmasking a stored checksum gives the checksum back |
| LogFormat.MaskRotates | ios/Pods/leveldb-library/util/crc32c.h:28-31 | without its constant, a masked checksum is the checksum with its lower 15 bits moved to the top |
| LogFormat.HeaderLayout | ios/Pods/leveldb-library/db/log_writer.cc:82-108 | a physical record is four bytes of masked checksum, two of length, one of type, lowest bytes first, and the payload |
| LogFormat.Writer.constructor | ios/Pods/leveldb-library/db/log_writer.cc:24-26 | an empty file |
| LogFormat.Writer.EmitPhysicalRecord | ios/Pods/leveldb-library/db/log_writer.cc:82-108 | appends header and payload of one physical record |
| LogFormat.Writer.AddRecord | ios/Pods/leveldb-library/db/log_writer.cc:34-80 | the file is always the encoding of exactly the records added, and only ever grows |
| LogFormat.ThreeRecords | ios/Pods/leveldb-library/db/log_writer.cc:34-80 | records of 1000, 97270 and 8000 bytes become one FULL piece, three pieces over three blocks, six zeros, and one FULL piece at the front of the fourth block |
| LogReaders.Reader.constructor | ios/Pods/leveldb-library/db/log_reader.cc:18-29 | opens at the front of the file |
| LogReaders.Reader.ReadPhysicalRecord | ios/Pods/leveldb-library/db/log_reader.cc:189-271 | block refills, bad lengths, zero records, checksum mismatches, the type bytes that coincide with kEof and kBadRecord, and the drops reported for each |
| LogReaders.Reader.ReadRecord | ios/Pods/leveldb-library/db/log_reader.cc:56-174 | reassembly of fragments, and the drops reported for every malformed sequence, as one function of the bytes not yet read |
| LogReaders.ReservedTypeEndsLog | ios/Pods/leveldb-library/db/log_reader.h:64-73 | a concrete instance of the next rows: a record of type 5 at the front of a file ends the reading without a report, whatever follows it |
| UnknownTypes.UnknownReads | ios/Pods/leveldb-library/db/log_reader.cc:144-171 | in any state of the reader, inside a record or not, a record of unknown type with a correct checksum ends the reading if its type is 5, counts as an invalid record if it is 6, and is otherwise reported with all that is dropped |
| UnknownTypes.PromiseKept | ios/Pods/leveldb-library/db/log_reader.cc:144-171 | the reader deals with such a record as its default case means to if and only if the type is neither 5 nor 6, or it is 6, empty and inside a record, where nothing goes unreported |
| UnknownTypes.UnknownInLog | ios/Pods/leveldb-library/db/log_reader.cc:56-174 | behind the records of a whole log, such a record of type 5 hides everything after it without a report, one of type 6 is passed over without a report, and any other is reported and passed over; every record before it is returned |
| UnknownTypes.UnknownIsReported | ios/Pods/leveldb-library/db/log_reader.cc:161-171 | the payload is reported if and only if the type is neither 5 nor 6, and what follows is read if and only if the type is not 5 or nothing follows |
| LogReaders.PhysicalReads | ios/Pods/leveldb-library/db/log_reader.cc:189-271 | a written physical record is read back whole, or the reader stops silently where the file ends |
| LogReaders.LogicalReads | ios/Pods/leveldb-library/db/log_reader.cc:56-174 | a written record is read back whole or not at all, with no report |
| LogReaders.PrefixReadsBack | ios/Pods/leveldb-library/db/log_reader.cc:56-271 | reading any byte prefix of a log returns exactly the records complete in it, and reports nothing |
| LogReaders.LogRoundTrip | ios/Pods/leveldb-library/db/log_writer.cc:34-108 | reading a whole log returns every record added, and reports nothing |
| DamagedLogs.FragmentIsWritten | ios/Pods/leveldb-library/db/log_reader.cc:239-270 | in any state of the reader, a fragment is returned only for bytes that are exactly what the writer makes of it, header and checksum included |
| DamagedLogs.OnlyChecked | ios/Pods/leveldb-library/db/log_reader.cc:56-174 | every record read from any file whatever is made of such pieces, from a first to a last one and in the order of the file |
| DamagedLogs.DamageIsReported | ios/Pods/leveldb-library/db/log_reader.cc:216-256 | in any state, a header that does not fit its block or a checksum that does not match is reported with the rest of the block, a record begun before it is given up with a report, and reading goes on at the next block |
| DamagedLogs.DamageIsContained | ios/Pods/leveldb-library/db/log_reader.cc:239-256 | behind the records of a log, damage costs the rest of its block and the record that lies across its end; everything that begins behind is read |
| DamagedLogs.BoundaryInLog | ios/Pods/leveldb-library/db/log_writer.cc:34-80 | at every block boundary a log goes on with the rest of the record that lies across it, if any, and then with the records that begin behind it |
| DamagedLogs.DamageInLog | ios/Pods/leveldb-library/db/log_reader.cc:239-256 | in any log, bytes damaged from the beginning of a record to the end of its block cost that record and those that begin in front of that end, and no others |
| GroupCommit.BuildBatchGroup | ios/Pods/leveldb-library/db/db_impl.cc:1270-1316 | the combined batch is the longest run of writers that may join, with their operations in order |
| GroupCommit.GroupIsBounded | ios/Pods/leveldb-library/db/db_impl.cc:1276-1284 | a group of more than one batch takes at most 1 MB, and at most 128 KB more than a small first batch |
| GroupCommit.StepKeepsInv | ios/Pods/leveldb-library/db/db_impl.cc:1195-1266 | every step of every writer keeps the commit invariant |
| GroupCommit.WritesAreOrdered | ios/Pods/leveldb-library/db/db_impl.cc:1195-1266 | in every interleaving calls return in order of arrival, each once; the log is their batches in that order, numbered without gap; no sync writer returns before a sync of its record |
| GroupCommit.GroupsAreAtomic | ios/Pods/leveldb-library/db/db_impl.cc:1216-1250 | the published sequence number never shows part of a group |
| DtlsFragments.Parse | ios/Pods/BoringSSL-GRPC/src/ssl/d1_both.cc:450-464 | a parsed fragment fits its fields, and nothing of the input is lost |
| DtlsFragments.HeaderLayout | ios/Pods/BoringSSL-GRPC/src/ssl/d1_both.cc:499-525 | type, message length, number, offset and fragment length in 1, 3, 2, 3 and 3 bytes, highest first, and then the body |
| DtlsFragments.ParseSerialize | ios/Pods/BoringSSL-GRPC/src/ssl/d1_both.cc:450-464 | a serialized fragment is parsed back, whatever follows |
| DtlsFragments.SerializeParse | ios/Pods/BoringSSL-GRPC/src/ssl/d1_both.cc:450-464 | nothing else parses to the same fragment |
| DtlsReassembly.AbortsAtEdge | ios/Pods/BoringSSL-GRPC/src/ssl/d1_both.cc:371-381 | for a peer that sends only proper fragments, a run ends in an alert exactly when some fragment arrives for a message exactly one window ahead |
| DtlsReassembly.DeliverKeepsCurrent | ios/Pods/BoringSSL-GRPC/src/ssl/d1_both.cc:387-391 | a message that can be released is never changed by later fragments |
| DtlsReassembly.DeliverKeepsInv | ios/Pods/BoringSSL-GRPC/src/ssl/d1_both.cc:343-398 | a fragment of the flight is accepted, and its slot then holds exactly the bytes that have arrived |
| DtlsReassembly.FlightReassembles | ios/Pods/BoringSSL-GRPC/src/ssl/d1_both.cc:206-433 | under any order, repetition, overlap and loss there is no alert, and exactly a prefix of the flight has been released |
| DtlsReassembly.ReleasedIffArrived | ios/Pods/BoringSSL-GRPC/src/ssl/d1_both.cc:403-433 | the next message can be released exactly when all its bytes have arrived, and is then the original |
| DtlsReassembly.EverythingIsReleased | ios/Pods/BoringSSL-GRPC/src/ssl/d1_both.cc:403-433 | once everything has arrived, asking yields the rest of the flight |
| DtlsAnyNetwork.AlertsExactly | ios/Pods/BoringSSL-GRPC/src/ssl/d1_both.cc:355-381 | on a network that delivers anything, in every reachable state: a fragment raises an alert if and only if it does not lie within a message of allowed length, is not of the one message expected, is exactly one window ahead, or contradicts an earlier fragment of its message |
| DtlsAnyNetwork.AnyNetwork | ios/Pods/BoringSSL-GRPC/src/ssl/d1_both.cc:260-433 | whatever arrives, every slot lies in the window, within the length limit, and holds exactly the bytes of the fragments accepted for it; every released message has the next number and takes each byte from a fragment accepted for it |
| DtlsReceivers.MarkedMask | ios/Pods/BoringSSL-GRPC/src/ssl/d1_both.cc:196-231 | the three assignments set exactly the bits of the range |
| DtlsReceivers.FullMask | ios/Pods/BoringSSL-GRPC/src/ssl/d1_both.cc:233-242 | the byte-wise test finds the mask full exactly when every bit of the message is set |
| DtlsReceivers.HmFragment.constructor | ios/Pods/BoringSSL-GRPC/src/ssl/d1_both.cc:151-194 | nothing of a new message has been received, and an empty one is complete |
| DtlsReceivers.HmFragment.Mark | ios/Pods/BoringSSL-GRPC/src/ssl/d1_both.cc:206-246 | exactly the range is added to the received bytes, and the mask is dropped exactly when all are |
| DtlsReceivers.HmFragment.Store | ios/Pods/BoringSSL-GRPC/src/ssl/d1_both.cc:393-397 | copying and marking write exactly the body at its offset |
| DtlsReceivers.Receiver.constructor | ios/Pods/BoringSSL-GRPC/src/ssl/d1_both.cc:250-254 | an empty window at the first message number |
| DtlsReceivers.Receiver.GetIncomingMessage | ios/Pods/BoringSSL-GRPC/src/ssl/d1_both.cc:260-290 | finds or makes the slot of the message, and refuses a header that contradicts it |
| DtlsReceivers.Receiver.ProcessFragment | ios/Pods/BoringSSL-GRPC/src/ssl/d1_both.cc:343-398 | one fragment changes the receiver exactly as specified, alerts included |
| DtlsReceivers.Receiver.OpenHandshake | ios/Pods/BoringSSL-GRPC/src/ssl/d1_both.cc:343-401 | a record changes the receiver exactly as its fragments in turn, up to the first that is refused |
| DtlsReceivers.Receiver.GetMessage | ios/Pods/BoringSSL-GRPC/src/ssl/d1_both.cc:403-419 | yields the current message exactly when complete, encoded as one whole fragment |
| DtlsReceivers.Receiver.NextMessage | ios/Pods/BoringSSL-GRPC/src/ssl/d1_both.cc:421-433 | moves the window on by one, with 16-bit numbers |
| DtlsSenders.Sender.constructor | ios/Pods/BoringSSL-GRPC/src/ssl/d1_both.cc:488-497 | nothing to send |
| DtlsSenders.Sender.AddOutgoing | ios/Pods/BoringSSL-GRPC/src/ssl/d1_both.cc:551-580 | the flight grows by the message unless full, and handshake messages use up a number |
| DtlsSenders.Sender.AddMessage | ios/Pods/BoringSSL-GRPC/src/ssl/d1_both.cc:499-525 | the message carries the next number and is stored as one whole fragment |
| DtlsSenders.Sender.SealNextMessage | ios/Pods/BoringSSL-GRPC/src/ssl/d1_both.cc:623-709 | fits the space, makes progress exactly when a byte of body fits, takes all that is left of the message or else exactly what the room allows, and leaves nothing out before the new position |
| DtlsSenders.Sender.SealNextPacket | ios/Pods/BoringSSL-GRPC/src/ssl/d1_both.cc:711-755 | succeeds exactly if one byte of body fits; the packet fits the MTU, holds the flight over its span with one record a message, and ends with the flight, with a record that takes all the room left, or where nothing more would fit |
| DtlsSenders.Sender.SendFlight | ios/Pods/BoringSSL-GRPC/src/ssl/d1_both.cc:757-800 | success exactly when everything has been handed over and the transport flushes, which room for one byte and a transport that takes everything guarantee; every packet handed over fits the MTU and leaves nothing out that would have fitted |
| DtlsSenders.Sender.FlushFlight | ios/Pods/BoringSSL-GRPC/src/ssl/d1_both.cc:802-807 | the flight counts as sent, and success means what it means for send_flight |
| DtlsSenders.Sender.Retransmit | ios/Pods/BoringSSL-GRPC/src/ssl/d1_both.cc:809-818 | a rewind sends every message again in full, in such packets |
| DtlsEndToEnd.FlightIsSafe | ios/Pods/BoringSSL-GRPC/src/ssl/d1_both.cc:206-433 | whatever the network does, the receiver releases an unchanged prefix of the flight and raises no alert |
| DtlsEndToEnd.FlightGetsThrough | ios/Pods/BoringSSL-GRPC/src/ssl/d1_both.cc:626-818 | if one complete pass arrives, in any order and mixed with anything sent, the whole flight is released |
| DtlsEndToEnd.NumberedIsFlight | ios/Pods/BoringSSL-GRPC/src/ssl/d1_both.cc:499-580 | the sender numbers its messages as the receiver expects |
| DtlsTransfers.HandleEvent | ios/Pods/BoringSSL-GRPC/src/ssl/d1_both.cc:343-433 | opening a record, or asking for a message, changes the receiver as the run says |
| DtlsTransfers.TakeRest | ios/Pods/BoringSSL-GRPC/src/ssl/d1_both.cc:403-433 | asking until nothing is left yields exactly the messages that have arrived in full, up to the first that has not |
| DtlsTransfers.Transfer | ios/Pods/BoringSSL-GRPC/src/ssl/d1_both.cc:206-433 | with a sender and a receiver object and any network between them: no alert, and exactly the messages the network brought in full, up to the first it did not; the whole flight if a complete pass arrived |
| NanopbWire.EncodeVarint | ios/Pods/nanopb/pb_encode.c:608-628 | writes the base-128 digits, lowest first |
| NanopbWire.VarintRoundTrip | ios/Pods/nanopb/pb_decode.c:255-275 | every 64-bit varint is read back, whatever follows |
| NanopbWire.Varint32RoundTrip | ios/Pods/nanopb/pb_decode.c:187-252 | every 32-bit varint is read back, whatever follows |
| NanopbWire.Varint32Overflows | ios/Pods/nanopb/pb_decode.c:207-240 | every longer varint of a size an object can have is refused |
| NanopbScalars.ZigZagInverse | ios/Pods/nanopb/pb_encode.c:630-639 | zigzag coding is a bijection between signed and unsigned 64-bit numbers |
| NanopbScalars.ScalarRoundTrip | ios/Pods/nanopb/pb_decode.c:1285-1445 | every scalar its field can hold is read back |
| NanopbScalars.BlobRoundTrip | ios/Pods/nanopb/pb_decode.c:1447-1570 | terminated strings and fitting byte arrays are read back |
| NanopbScalars.UnterminatedString | ios/Pods/nanopb/pb_decode.c:1487-1523 | a string that fills its buffer is encoded but cannot be decoded |
| NanopbFormat.VarintDigits | ios/Pods/nanopb/pb_encode.c:608-628 | byte j of a varint is digit j in base 128, with the high bit set on all but the last, and no digit too many |
| NanopbFormat.LittleEndianDigits | ios/Pods/nanopb/pb_encode.c:641-668 | byte j of a fixed-width number is digit j in base 256 |
| NanopbFormat.EncodedAsRecords | ios/Pods/nanopb/pb_encode.c:528-550 | an encoded message is, field by field, the records of the Encoding document: the varint of 8 times the number plus 0, 1, 2 or 5, and then a varint, eight bytes, a length with its bytes, or four bytes |
| NanopbFormat.SlotBytes | ios/Pods/nanopb/pb_encode.c:341-426 | so is what a single field writes |
| NanopbFormat.FixedSkipped | ios/Pods/nanopb/pb_decode.c:321-331 | wire type 1 skips exactly eight bytes and wire type 5 exactly four, and both fail on fewer |
| NanopbFormat.PayloadSkipped | ios/Pods/nanopb/pb_decode.c:321-331 | a payload is skipped to its end by its wire type; a block of 4 GB or more is refused |
| NanopbRoundTrip.PackedReads | ios/Pods/nanopb/pb_decode.c:425-452 | a packed array is read back entry by entry |
| NanopbRoundTrip.FieldReads | ios/Pods/nanopb/pb_decode.c:953-1034 | the decoding loop consumes exactly what a field wrote and stands after the field, or fails exactly when the field holds a string that fills its buffer or a block of 4 GB or more |
| NanopbFormat.UnknownField | ios/Pods/nanopb/pb_decode.c:966-995 | whatever a field the decoder does not know has written is passed over without a trace, unless a block of it takes 4 GB or more |
| NanopbFormat.OlderDecoderReads | ios/Pods/nanopb/pb_decode.c:934-1034 | a decoder that knows only some of the fields of a message reads those as they were sent and passes over the others; it fails exactly if one of its own is not readable or a block of another takes 4 GB or more |
| NanopbMerge.ReadsOn | ios/Pods/nanopb/pb_decode.c:934-1034 | decoding goes on behind a message with what that message has left: one message after another is decoded into the same struct |
| NanopbMerge.ZeroEnds | ios/Pods/nanopb/pb_decode.c:298-320 | a zero where a tag should be ends the message, whatever follows |
| NanopbMerge.CutOffTag | ios/Pods/nanopb/pb_decode.c:187-252 | a tag that is cut off makes decoding fail |
| NanopbMerge.EntryAppended | ios/Pods/nanopb/pb_decode.c:454-463 | an entry of a scalar array that comes with its own tag is appended, and one too many is refused |
| NanopbSafety.DecodedIsSafe | ios/Pods/nanopb/pb_decode.c:406-482 | whatever the bytes: a message that is accepted fits its struct, with arrays and strings within their bounds, numbers of their type, fixed arrays complete or absent and at most one member of a union, down to its submessages |
| NanopbSafety.RequiredOrRefused | ios/Pods/nanopb/pb_decode.c:1018-1079 | a message whose fields can be read is accepted if and only if its last fixed array is complete and every required field among the first 64 occurs in it |
| NanopbSafety.SignedReads | ios/Pods/nanopb/pb_decode.c:1345-1380 | a varint is read into a signed field if and only if it is, modulo 2^64 for eight bytes and 2^32 for fewer, a number the field can hold |
| NanopbSafety.UnsignedReads | ios/Pods/nanopb/pb_decode.c:1382-1429 | unsigned and zigzag fields take exactly the numbers they can hold |
| NanopbRoundTrip.DecodeAfterEncode | ios/Pods/nanopb/pb_decode.c:934-1096 | a stored message has an encoding exactly when every array in it fits its field; decoding that fails exactly when some string fills its buffer or some length-delimited block takes 4 GB or more, and otherwise yields the message with the zeros of defaulted fields replaced |
| NanopbRoundTrip.ZeroSeen | ios/Pods/nanopb/pb_encode.c:238-337 | a value that counts as default to the encoder is all zero, and a field without presence comes back unchanged exactly when its default is all zero too |
| NanopbRoundTrip.MessageSeen | ios/Pods/nanopb/pb_encode.c:341-426 | what comes back is the message itself exactly when no field without presence holds a zero over another default, at any depth |
| NanopbRoundTrip.MessageRoundTrip | ios/Pods/nanopb/pb_decode.c:934-1096 | for distinct tags, every stored message with an encoding is restored, up to absent optional fields and unchosen union members, if and only if no present string fills its buffer, no length-delimited block takes 4 GB or more, and no field without presence holds a zero over another default |
| NanopbRoundTrip.ZeroHidesDefault | ios/Pods/nanopb/pb_encode.c:355-359 | an int32 field without presence whose default is not zero comes back with its default when it held zero |
| NanopbRoundTrip.FullStringIsRefused | ios/Pods/nanopb/pb_decode.c:1487-1523 | a message with a required string that fills its buffer encodes and is then refused |
| NanopbRoundTrip.LargeBlockIsRefused | ios/Pods/nanopb/pb_decode.c:1447-1485 | so does one with 4 GB of bytes or more |
| NanopbEncoders.OutStream.Sizing | ios/Pods/nanopb/pb_encode.h:106-110 | a stream that only counts |
| NanopbEncoders.OutStream.Write | ios/Pods/nanopb/pb_encode.c:103-125 | fails exactly when the buffer is full, and otherwise counts and appends |
| NanopbEncoders.EncodeSubmessage | ios/Pods/nanopb/pb_encode.c:717-765 | the length measured on the first pass is the number of bytes the second pass writes, at every depth |
| NanopbEncoders.EncodeBlock | ios/Pods/nanopb/pb_encode.c:168-209 | likewise for packed arrays |
| NanopbEncoders.FixedItemsSize | ios/Pods/nanopb/pb_encode.c:168-176 | the length computed for fixed-width arrays is the measured one |
| NanopbEncoders.EncodeSlotTo | ios/Pods/nanopb/pb_encode.c:341-426 | a field is written exactly as its rule and presence say |
| NanopbEncoders.EncodeTo | ios/Pods/nanopb/pb_encode.c:528-550 | fails exactly when the message has no encoding or the buffer no room, and otherwise appends the encoding |
| NanopbEncoders.GetEncodedSize | ios/Pods/nanopb/pb_encode.c:567-576 | exactly the number of bytes encoding will write |
| NanopbDecoders.FieldIter.constructor | ios/Pods/nanopb/pb_common.c:8-27 | stands at the first field |
| NanopbDecoders.FieldIter.Next | ios/Pods/nanopb/pb_common.c:29-85 | advances with the count of required fields, and wraps around at the end |
| NanopbDecoders.FieldIter.Find | ios/Pods/nanopb/pb_common.c:87-104 | finds a field with the tag exactly when there is one, from any position |
| NanopbDecoders.InStream.ReadVarint | ios/Pods/nanopb/pb_decode.c:255-275 | reads what the varint specification says, ten bytes at most |
| NanopbDecoders.InStream.ReadVarint32 | ios/Pods/nanopb/pb_decode.c:187-252 | likewise for 32 bits, sign extension and overflow checks included |
| NanopbDecoders.InStream.Skip | ios/Pods/nanopb/pb_decode.c:321-331 | skips exactly one field of the wire type |
| NanopbDecoders.ReadPacked | ios/Pods/nanopb/pb_decode.c:425-452 | reads entries until the block or the array is used up, and fails if anything is left |
| NanopbDecoders.ReadSlot | ios/Pods/nanopb/pb_decode.c:406-482 | updates a field as its rule says, unions and repeated fields included |
| NanopbDecoders.DecodeNoInit | ios/Pods/nanopb/pb_decode.c:934-1082 | the tag loop with unknown fields, fixed-count arrays and required fields decodes exactly as specified |
| NanopbDecoders.DecodeFrom | ios/Pods/nanopb/pb_decode.c:1084-1096 | decodes from defaults |
| DtlsSenders.Sender.MakeWay | ios/Pods/BoringSSL-GRPC/src/ssl/d1_both.cc:543-549 | a flight that has been sent in full is dropped before a new one begins |
| DtlsSenders.Sender.AddChangeCipherSpec | ios/Pods/BoringSSL-GRPC/src/ssl/d1_both.cc:586-593 | takes a place in the flight without a message number |
| SkipLists.SkipList.constructor | ios/Pods/leveldb-library/db/skiplist.h:324-334 | every level is empty |
| SkipLists.SkipList.FindGreaterOrEqual | ios/Pods/leveldb-library/db/skiplist.h:260-281 | the first key not before the target, and the node before it at every level |
| SkipLists.SkipList.FindLessThan | ios/Pods/leveldb-library/db/skiplist.h:283-302 | the last key before the target, or the head |
| SkipLists.SkipList.StoreLink | ios/Pods/leveldb-library/db/skiplist.h:360-366 | one link store keeps every level sorted and nested |
| SkipLists.SkipList.Insert | ios/Pods/leveldb-library/db/skiplist.h:336-368 | exactly the key is added, at the levels below its height, from the bottom up |
| SkipLists.SearchSkipsNothing | ios/Pods/leveldb-library/db/skiplist.h:260-368 | however link stores and reads of the pointer maps interleave, a finished search has found a node not before the target and skipped no key present when it began |
| Coding.EncodeVarint32 | ios/Pods/leveldb-library/util/coding.cc:21-47 | all five branches write the base-128 digits, lowest first |
| Coding.EncodeVarint64 | ios/Pods/leveldb-library/util/coding.cc:55-64 | the loop writes the base-128 digits, lowest first |
| Coding.GetVarint32Ptr | ios/Pods/leveldb-library/util/coding.cc:86-102 | the loop reads exactly the varint at the front, and says where it ends |
| Coding.GetVarint32Reads | ios/Pods/leveldb-library/util/coding.cc:104-114 | every 32-bit varint is read back, whatever follows |
| Coding.LengthPrefixedReads | ios/Pods/leveldb-library/util/coding.cc:72-75 | a length-prefixed string is read back, whatever follows |
| Coding.Fixed32RoundTrip | ios/Pods/leveldb-library/util/coding.h:81-98 | a fixed-width number is read back |
| Coding.Fixed32Layout | ios/Pods/leveldb-library/util/coding.h:54-62 | the lowest byte comes first |
| Blocks.BlockBuilder.constructor | ios/Pods/leveldb-library/table/block_builder.cc:40-44 | an empty block with one restart point |
| Blocks.EntryLayout | ios/Pods/leveldb-library/table/block_builder.cc:89-98 | with lengths below 128, an entry is the bytes shared, the bytes not shared and the bytes of the value, and then both |
| Blocks.BlockBuilder.CommonPrefix | ios/Pods/leveldb-library/table/block_builder.cc:79-84 | exactly the bytes the key has in common with the one before |
| Blocks.BlockBuilder.Add | ios/Pods/leveldb-library/table/block_builder.cc:71-105 | the block gains exactly the entry, sharing all it can with the key before it, or nothing at a restart point, which comes exactly after a full interval |
| Blocks.BlockBuilder.Finish | ios/Pods/leveldb-library/table/block_builder.cc:61-69 | the entries, then the restart points and their number |
| Blocks.EntryReads | ios/Pods/leveldb-library/table/block.cc:55-73 | an encoded entry is decoded into its lengths, key rest and value, whatever follows |
| Blocks.FinishedOpens | ios/Pods/leveldb-library/table/block.cc:20-40 | a finished block is taken apart into the entries and restart points it was made from |
| BlockIterators.BlockIter.constructor | ios/Pods/leveldb-library/table/block.cc:116-125 | on a finished block, an invalid iterator over exactly the entries added |
| BlockIterators.BlockIter.ParseNextKey | ios/Pods/leveldb-library/table/block.cc:225-252 | rebuilds the next key from the one before, and follows the restart points |
| BlockIterators.BlockIter.Next | ios/Pods/leveldb-library/table/block.cc:138-141 | one entry forward |
| BlockIterators.BlockIter.Prev | ios/Pods/leveldb-library/table/block.cc:143-162 | one entry back, through the restart point before it |
| BlockIterators.BlockIter.Seek | ios/Pods/leveldb-library/table/block.cc:164-202 | binary then linear search lands on the first key not before the target |
| BlockIterators.BlockIter.SeekToFirst | ios/Pods/leveldb-library/table/block.cc:204-207 | the first entry, if any |
| BlockIterators.BlockIter.SeekToLast | ios/Pods/leveldb-library/table/block.cc:209-214 | the last entry, if any |
| Blooms.CreateFilter | ios/Pods/leveldb-library/util/bloom.cc:28-54 | appends the bytes with exactly the probed bits set, and the number of probes |
| Blooms.KeyMayMatch | ios/Pods/leveldb-library/util/bloom.cc:56-80 | true exactly when every probe of the key is set, or the number of probes is reserved |
| Blooms.SetKeysSets | ios/Pods/leveldb-library/util/bloom.cc:43-53 | a bit is set exactly when it is a probe of one of the keys |
| Blooms.ProbeIs | ios/Pods/leveldb-library/util/bloom.cc:43-53 | probe j is the hash plus j times the rotated hash, in 32 bits |
| Blooms.DeltaRotates | ios/Pods/leveldb-library/util/bloom.cc:46-46 | the rotated hash is the hash with its lower 17 bits moved to the top |
| Blooms.FilterIsExact | ios/Pods/leveldb-library/util/bloom.cc:28-80 | a filter lets a key through exactly when every probe of the key is a probe of some key it was built from |
| Blooms.BloomNeverMisses | ios/Pods/leveldb-library/util/bloom.cc:28-80 | the bloom policy never rejects a key it was built from |
| Filters.FilterBlockBuilder.constructor | ios/Pods/leveldb-library/table/filter_block.cc:18-19 | no filters and no keys |
| Filters.FilterBlockBuilder.GenerateFilter | ios/Pods/leveldb-library/table/filter_block.cc:51-75 | the waiting keys get a filter, or an empty one if there are none |
| Filters.FilterBlockBuilder.StartBlock | ios/Pods/leveldb-library/table/filter_block.cc:21-27 | one filter for every 2 KB of block offsets, made from exactly the keys added for the blocks in its range |
| Filters.FilterBlockBuilder.AddKey | ios/Pods/leveldb-library/table/filter_block.cc:29-33 | the key waits for the filter of the current block |
| Filters.FilterBlockBuilder.Finish | ios/Pods/leveldb-library/table/filter_block.cc:35-49 | every filter covers exactly the keys added for the blocks in its range, and the contents are the filters with their offsets |
| Filters.FilterBlockOpens | ios/Pods/leveldb-library/table/filter_block.cc:77-88 | a finished filter block is taken apart again |
| Filters.BlockFilterDecides | ios/Pods/leveldb-library/table/filter_block.cc:90-104 | what decides for a block is the filter made from the keys covered by its range, or none if there are none |
| Filters.AddedKeyMatches | ios/Pods/leveldb-library/table/filter_block.cc:21-104 | a key added for a data block is never rejected for that block |
| Tables.TableBuilder.constructor | ios/Pods/leveldb-library/table/table_builder.cc:65-70 | an empty table |
| Tables.TableBuilder.Add | ios/Pods/leveldb-library/table/table_builder.cc:94-123 | the entries are those added; a block is written as soon as its size estimate reaches the block size, and not before; the block that waits for it gets its index entry with a short separator; every finished block is stored and covered by its filter |
| Tables.TableBuilder.Flush | ios/Pods/leveldb-library/table/table_builder.cc:125-139 | the waiting entries become a block; nothing waits afterwards |
| Tables.TableBuilder.WriteBlock | ios/Pods/leveldb-library/table/table_builder.cc:141-194 | the block is stored at the end of the file, which grows by its length and a trailer of five bytes, and its index entry is due |
| Tables.TableBuilder.Finish | ios/Pods/leveldb-library/table/table_builder.cc:198-253 | every entry lies in a block and every block is indexed; with a policy that never misses and filters under 4 GB, the filter knows every key |
| Tables.IndexAscends | ios/Pods/leveldb-library/table/table_builder.cc:94-107 | index keys ascend, as the index block demands |
| Tables.InternalGet | ios/Pods/leveldb-library/table/table.cc:214-242 | whatever is passed on is the first entry at or after the key in the whole table; if that entry has the key's user key, it is passed on |
| TwoLevelIterators.TwoLevelIterator.constructor | ios/Pods/leveldb-library/table/two_level_iterator.cc:71-78 | starts invalid |
| TwoLevelIterators.TwoLevelIterator.InitDataBlock | ios/Pods/leveldb-library/table/two_level_iterator.cc:146-161 | the data iterator is that of the index entry, if any |
| TwoLevelIterators.TwoLevelIterator.SkipEmptyDataBlocksForward | ios/Pods/leveldb-library/table/two_level_iterator.cc:115-126 | empty blocks are skipped without moving the cursor |
| TwoLevelIterators.TwoLevelIterator.SkipEmptyDataBlocksBackward | ios/Pods/leveldb-library/table/two_level_iterator.cc:128-139 | from the end of a block, the cursor moves to the entry before it |
| TwoLevelIterators.TwoLevelIterator.Seek | ios/Pods/leveldb-library/table/two_level_iterator.cc:82-87 | the cursor stands at the first entry of the concatenation at or after the key |
| TwoLevelIterators.TwoLevelIterator.SeekToFirst | ios/Pods/leveldb-library/table/two_level_iterator.cc:89-94 | the cursor stands at the first entry |
| TwoLevelIterators.TwoLevelIterator.SeekToLast | ios/Pods/leveldb-library/table/two_level_iterator.cc:96-101 | the cursor stands at the last entry |
| TwoLevelIterators.TwoLevelIterator.Next | ios/Pods/leveldb-library/table/two_level_iterator.cc:103-107 | one entry forward |
| TwoLevelIterators.TwoLevelIterator.Prev | ios/Pods/leveldb-library/table/two_level_iterator.cc:109-113 | one entry back |
| TwoLevelIterators.FinishedTableIterates | ios/Pods/leveldb-library/table/table.cc:208-212 | the index of a finished table divides its blocks, and the blocks join to exactly the entries added |
| HandleTables.HandleTable.constructor | ios/Pods/leveldb-library/util/cache.cc:72-72 | an empty table |
| HandleTables.MaskIsRemainder | ios/Pods/leveldb-library/util/cache.cc:115-117 | masking a hash with the length less one is its remainder, for a power of two |
| HandleTables.HandleTable.FindPointer | ios/Pods/leveldb-library/util/cache.cc:115-121 | the place of the key in its chain, or the end of the chain if it is in none |
| HandleTables.HandleTable.Lookup | ios/Pods/leveldb-library/util/cache.cc:75-77 | what the key leads to, if anything |
| HandleTables.HandleTable.Insert | ios/Pods/leveldb-library/util/cache.cc:79-93 | only this key leads elsewhere, what it led to is returned, and the number of chains doubles exactly when there would be more entries than chains |
| HandleTables.HandleTable.Remove | ios/Pods/leveldb-library/util/cache.cc:95-103 | only this key leads nowhere any more |
| HandleTables.HandleTable.Resize | ios/Pods/leveldb-library/util/cache.cc:123-147 | no lookup changes, and the number of chains becomes the next power of two |
| LruCaches.RefKeepsOk | ios/Pods/leveldb-library/util/cache.cc:218-224 | a lookup keeps counts, lists, table and usage in agreement |
| LruCaches.ReleaseKeepsOk | ios/Pods/leveldb-library/util/cache.cc:226-238 | so does a release |
| LruCaches.EraseKeepsOk | ios/Pods/leveldb-library/util/cache.cc:308-322 | so does erasing a key |
| LruCaches.PutKeepsOk | ios/Pods/leveldb-library/util/cache.cc:267-293 | so does a new entry, which replaces what its key led to |
| LruCaches.EvictKeepsOk | ios/Pods/leveldb-library/util/cache.cc:294-301 | so does evicting any number of the entries longest unused |
| LruCaches.EvictOne | ios/Pods/leveldb-library/util/cache.cc:294-301 | erasing the key of the oldest unused entry evicts exactly that entry |
| LruCaches.LastRelease | ios/Pods/leveldb-library/util/cache.cc:226-238 | a release runs a deleter exactly when it gives up the last reference to an entry no longer in the cache |
| LruCaches.ReleaseOrder | ios/Pods/leveldb-library/util/cache.cc:226-238 | an entry becomes the newest unused one exactly when its last client gives it up |
| LruCaches.LookupOrder | ios/Pods/leveldb-library/util/cache.cc:218-224 | an entry that is looked up leaves the unused ones, and the others stay in order |
| LruCaches.LruCache.constructor | ios/Pods/leveldb-library/util/cache.cc:198-204 | an empty cache |
| LruCaches.LruCache.Lookup | ios/Pods/leveldb-library/util/cache.cc:253-260 | the handle of the key, with one reference more; the other unused entries keep their order |
| LruCaches.LruCache.Release | ios/Pods/leveldb-library/util/cache.cc:262-265 | one reference less; the entry goes to the newest end of the unused ones exactly if that was its last client and it is in the cache |
| LruCaches.LruCache.Insert | ios/Pods/leveldb-library/util/cache.cc:267-304 | the key leads to the new entry; the usage is within the capacity or nothing unused is left; no more was evicted than that took, oldest first |
| LruCaches.LruCache.Erase | ios/Pods/leveldb-library/util/cache.cc:319-322 | the key leads nowhere; its entry lives on while clients hold it |
| LruCaches.LruCache.Prune | ios/Pods/leveldb-library/util/cache.cc:324-334 | exactly the unused entries are evicted |
| LruCaches.LruCache.Destroy | ios/Pods/leveldb-library/util/cache.cc:206-216 | when no cached entry is in use, every deleter has run once, but for entries that clients still hold |
| CacheRecency.UnusedByRelease | ios/Pods/leveldb-library/util/cache.cc:186-189 | at every point of every run of operations the unused entries are listed by the time of their last release |
| CacheRecency.EvictsLeastRecentlyUsed | ios/Pods/leveldb-library/util/cache.cc:294-301 | an unused entry that an insertion evicts was last released before every one that stays |
| DtlsSenders.Sender.AddData | ios/Pods/BoringSSL-GRPC/src/ssl/d1_both.cc:582-584 | the message joins the flight that is not sent yet, if there is room, and uses up its number |

## Left out

- LevelDB: the flush of the immutable memtable inside a running compaction (`db_impl.cc:917-928`); a compaction is one
  step from pick to installation.
- LevelDB: `reuse_logs`, repair, statistics, seek and size scores, write stalls, `RandomCompactionPeriod` sampling,
  and error returns of the environment; completed appends are durable and renames atomic (a crash may tear the append
  under way, which `DatabaseFiles` covers), so writes without `sync` are taken to survive.
- LevelDB: keys that do not parse, which iterators and compactions skip with an error.
- LevelDB: compaction pointers and the comparator name inside version edits, and the byte encoding of edits and write
  batches, which `DatabaseFiles` takes as any injective functions.
- LevelDB: the sequence number in the header of an empty batch, which recovery reads even though no entry carries it.
- LevelDB: the footer, the metaindex block, compression and checksums of blocks; a table file gives back by offset the
  block written there, and `Tables` takes the bytes of a data block, which `Blocks` models, as a sequence of entries.
- LevelDB: tables without a filter policy when writing; reading without one is modelled.
- LevelDB: the choice of a node's height in the skip list, and `FindLast`; outside `skip_list.dfy` a memtable is the
  sorted sequence of its entries.
- LevelDB: the division of the cache into shards by the top bits of the hash, which sends a key always to the same
  shard; handles are numbered in order rather than addresses, and the linked lists are sequences, oldest first.
- Blocks.BlockBuilder.Add: assumes keys and values shorter than 4 GB, whose lengths the source casts to 32 bits.
- Blocks.BlockBuilder.Finish: assumes a block shorter than 4 GB, for the same reason.
- LevelDB: corrupt blocks, which `Block::Iter` reports as errors; `Blocks` covers finished blocks.
- LevelDB: `LevelFileNumIterator`, whose concatenation of a level's files appears as one sorted child of the merging
  iterator, and mmap.
- Blooms.CreateFilter: does not compute the number of probes from the bits per key, which takes floating point.
- Tables.TableBuilder.Finish: does not write the blocks after the data blocks to the file; it returns the filter block
  and leaves the index in its field.
- Tables.TableBuilder.WriteBlock: stores the block as its entries; its bytes, compression and checksum are left out.
- DatabaseCleaning.ObsoleteFiles: takes one version as live, where the source also keeps the tables of versions that
  iterators still hold, and does not model temporary files or the refusal to clean up after a background error.
- Compactions.CompactEntries: does not model corrupted keys or shutting down midway.
- DatabaseManifest.NothingIsLost: the agreement of reads is conditional on the flag `safe`, because of the compactions
  described above.
- Versions.Get: does not model read errors or the seek statistics it collects.
- Log reading from an initial offset other than zero, and reading with checksums off.
- NanopbRoundTrip.MessageRoundTrip: like the other results on decoding what was encoded, covers encodings below 2^63
  bytes, more than any object can have, and the tags of the wire format, 1 to 2^29-1.
- nanopb: callbacks, extensions, pointer fields, `PB_WITHOUT_64BIT`, and fields with tag zero; C storage is a value,
  so updates in place are not captured.
- nanopb: the width 4 or 8 times the count that `encode_array` computes for fixed-width elements is measured here like
  any other; `NanopbEncoders.FixedItemsSize` shows the two agree.
- DTLS: record sealing, epochs beyond choosing the overhead, the transcript, timers, allocation failures, and
  `has_message`, which only guards a callback.
- DTLS: a connection shut down for writing or without a transport, on which `send_flight` fails at once.
- `SSL_MAX_HANDSHAKE_FLIGHT`: taken as 7, its value in `ios/Pods/BoringSSL-GRPC/src/ssl/internal.h:1261`.
- DatabaseSteps.RunCompaction: assumes a last sequence number below 2^56-1, the value the code takes for none.
