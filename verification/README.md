# Models of a log-structured store and a protobuf codec

This project models two libraries that the QuickCuts admin app ships: LevelDB, a
log-structured key-value store, and nanopb, a protobuf encoder and decoder driven by field
descriptors. The models follow the C++ and C code; objects that change are classes whose
methods are proved against functions and predicates, and what the libraries promise is
proved about those for all inputs, all runs and all reachable states.

One specification runs through the store: a database is a finite set of entries (user key,
sequence number, kind, value), and a read at a snapshot is the value of the newest entry of
the key that is not newer than the snapshot, or nothing if that is a deletion
(`DbFormat.Read`). Everything else is measured against it.

| part | files |
|---|---|
| entries, reads, files, versions | DbFormat, Files, VersionSearch, Version |
| choosing and running compactions | CompactionInputs, Compaction, DropRules, Picked |
| manifest | VersionBuilder, Edits, Manifest, EditCodec |
| the store as a state machine, and as an object | LevelMoves, Lsm, LsmInvariant, LsmTheorems, LsmSteps, LsmLimits, LsmHoles, Snapshots, Db |
| iterators | Merger, TwoLevel, InternalIterator, DbIter |
| memtable index under concurrency | SkipList |
| log, write batches, group commit, recovery | Log, LogRoundTrip, LogReuse, WriteBatch, WriteQueue, GroupCommit, Recovery, Durability |
| table format | Coding, Comparator, Block, BlockReader, Bloom, FilterBlock, Table, TableBuilder |
| block cache and checksum | HandleTable, Cache, Crc32c |
| nanopb | PbFormat, PbEncode, PbDecode, PbRoundTrip, PbCut, PbDecoder |
| the bytes of all these formats, spelled out | Formats |

`dafny verify dfyconfig.toml` checks all of it.

## Where the code falls short of a promise

Eight properties that one would expect do not hold of the code. Each has an input that shows
it and a condition under which the code does meet it; paths are relative to
QuickCutsAdminApp/Pods.

- A compaction can bring a deleted value back. Boundary files are added only to the inputs of
  the compacted level (leveldb-library/db/version_set.cc:1384 and :1399), not to those of the
  next level (:1387). If a user key is split over two files of the next level, a deletion in the
  first is dropped while the value it hides stays in the second.
  `LsmHoles.DroppedMarkerResurrects` is a run from the empty store that ends this way;
  `DropRules.DropsPreserveReadsIff`, `Picked.CompactionPreservesReadsIff` and
  `LsmTheorems.FinishKeepsReadsIff` give the exact condition; `LsmLimits.ClosedRunsAreSafe` and
  `Durability.ClosedCrashRunsAreSafe` show that closing the inputs of the next level at user keys
  would be enough in every run.
- A memtable flush that is installed in the middle of a compaction
  (leveldb-library/db/db_impl.cc:918-928) can put its table into a gap between the inputs that an
  output of the compaction covers, so that the level is no longer disjoint.
  `LsmHoles.FlushFallsIntoGap` is a run, `LsmLimits.FlushBesideCompactionIff` the exact condition.
  All other flushes beside a running compaction are part of the runs.
- A crash need not leave a prefix of the writes. Switching logs does not sync the old one
  (leveldb-library/db/db_impl.cc:1356-1373), so a synced write in the new log can survive while an
  older, unsynced one is lost: `Durability.OlderWriteLost`. `Durability.CrashLeavesPrefixIff` gives
  the exact condition; synced writes are never lost (`Durability.SyncedNeverLost`).
- A log that a crash has torn is appended to when logs are reused
  (leveldb-library/db/db_impl.cc:466-486), and what is appended, synced or not, can be lost.
  `LogReuse.SafeCutIff` gives the exact condition, for every checksum function and any history of
  earlier crashes. A cut is safe (`LogReuse.SafeCut`) where no byte of a header is left; in a header
  so near to the end of its block that the writer fills the rest with zeros, if its length is not
  there yet or is zero; and behind a first fragment that had no room for data. Everywhere else some
  appended record is lost: `LogReuse.TornAppendLost` for cuts in data, with an exception only for
  bytes whose checksum matches by chance, which happens (`LogReuse.TornAppendFound`), and
  `LogReuse.BetweenFragmentsReported` for cuts between fragments, without any.
- `VersionEdit::Clear` (leveldb-library/db/version_edit.cc:26-39) keeps the compaction pointers, so
  decoding into an edit that has some does not give the encoded edit back.
  `EditCodec.EditRoundTripIff` gives the exact condition.
- The 32-bit varint decoder (nanopb/pb_decode.c:216-243) notices an overflow in the fifth digit
  only if that is the last one; with a zero byte behind it the number is read modulo 2^32:
  `PbDecode.OverflowMissed`. `PbDecode.ShortVarint` says exactly what varints of up to 37 bytes
  give.
- Its bit position has eight bits, so that longer varints wrap around: `PbDecode.LongVarintWraps`
  is the shortest length at which that happens.
- With an empty descriptor a key of tag 0 finds the terminator (nanopb/pb_common.c:87-104), and a
  bool is decoded that the message has no room for: `PbDecode.TagZeroOfEmptyMessage`. No other
  descriptor does that (`PbDecode.TagZeroUnknown`, `PbDecoder.FieldIterFind`).

## Model

| member | source | states |
|---|---|---|
| `DbFormat.FirstSourceWins` | QuickCutsAdminApp/Pods/leveldb-library/db/db_impl.cc:1127-1141 | if one source is newer than the rest for every user key, its newest entry decides the read of the whole, and the rest matters only if it has no candidate |
| `DbFormat.ReadDependsOnCandidates` | QuickCutsAdminApp/Pods/leveldb-library/db/db_impl.cc:1110-1126 | a read at a snapshot depends only on the versions of the key up to that snapshot |
| `Version.SeekFindsNewest` | QuickCutsAdminApp/Pods/leveldb-library/db/memtable.cc:101-135 | the first entry at or after the lookup key (user key, snapshot, seek type) is the newest visible version of the user key, or there is none |
| `Version.SeekAndSave` | QuickCutsAdminApp/Pods/leveldb-library/db/version_set.cc:262-276 | seeking once and looking at one entry answers the read of a sorted list: value, deleted, or not found |
| `VersionSearch.FindFile` | QuickCutsAdminApp/Pods/leveldb-library/db/version_set.cc:87-105 | binary search returns the first file whose largest key is at or after the key |
| `VersionSearch.SomeFileOverlapsRange` | QuickCutsAdminApp/Pods/leveldb-library/db/version_set.cc:107-156 | the binary search over a sorted level and the scan over level 0 both decide whether some file meets the user-key range, for any begin and end |
| `Version.SearchLevel0` | QuickCutsAdminApp/Pods/leveldb-library/db/version_set.cc:281-300 | probing the level-0 files that cover the key, newest number first, answers the read of the whole level |
| `Version.SearchLevel` | QuickCutsAdminApp/Pods/leveldb-library/db/version_set.cc:302-321 | below level 0 the single file found by FindFile answers the read of the whole level |
| `Version.OneFileSuffices` | QuickCutsAdminApp/Pods/leveldb-library/db/version_set.cc:302-321 | no other file of a sorted level can change what the found file says about a user key, even if the key runs over several files |
| `Version.Get` | QuickCutsAdminApp/Pods/leveldb-library/db/version_set.cc:324-400 | for every valid version, searching level by level and stopping at a value or a deletion gives the newest entry over all files |
| `Db.LayeredRead` | QuickCutsAdminApp/Pods/leveldb-library/db/db_impl.cc:1110-1155 | memtable, then immutable memtable, then files: the first layer with a candidate gives the read of all entries together |
| `Db.Db.Get` | QuickCutsAdminApp/Pods/leveldb-library/db/db_impl.cc:1110-1155 | in every reachable state Get returns the value of the newest entry of the key not newer than the snapshot over all sources, and nothing if that entry is a deletion or missing |
| `VersionSearch.GetOverlappingInputs` | QuickCutsAdminApp/Pods/leveldb-library/db/version_set.cc:498-538 | below level 0 exactly the overlapping files; on level 0 the restart loop ends with the files of the least range that contains the request and that no file crosses |
| `VersionSearch.RestartShrinks` | QuickCutsAdminApp/Pods/leveldb-library/db/version_set.cc:524-533 | each restart of the loop removes a file that could still widen the range, so the loop ends |
| `CompactionInputs.FindSmallestBoundaryFile` | QuickCutsAdminApp/Pods/leveldb-library/db/version_set.cc:1321-1341 | the file with the least smallest key among those that start after the largest key on the same user key |
| `CompactionInputs.AddBoundaryInputs` | QuickCutsAdminApp/Pods/leveldb-library/db/version_set.cc:1355-1378 | ends with no file of the level left out that continues the last user key of the inputs; keeps the inputs as a prefix, keeps a run of neighbours a run, and adds nothing to a selection that shares no user key with the rest |
| `CompactionInputs.GetRange` | QuickCutsAdminApp/Pods/leveldb-library/db/version_set.cc:1182-1204 | the smallest and the largest internal key of the inputs |
| `CompactionInputs.LeftOutNewer` | QuickCutsAdminApp/Pods/leveldb-library/db/version_set.cc:1355-1378 | every version of an input user key that stays behind in the level is newer than the versions in the inputs |
| `CompactionInputs.ChainIsRun` | QuickCutsAdminApp/Pods/leveldb-library/db/version_set.cc:1355-1378 | below level 0, a run of files with its boundary chain is a longer run: each further file starts on the user key at which the one before ends, and the next one does not |
| `CompactionInputs.FirstIsLeast` | QuickCutsAdminApp/Pods/leveldb-library/db/version_set.cc:1384-1386 | what is chosen for one file of a sorted level lies in every run of the level that contains the file and splits no user key |
| `CompactionInputs.CutSize` | QuickCutsAdminApp/Pods/leveldb-library/db/version_set.cc:1453-1464 | the shortest front of the files whose sizes reach the limit, or all of them |
| `CompactionInputs.SetupOtherInputs` | QuickCutsAdminApp/Pods/leveldb-library/db/version_set.cc:1380-1439 | the level inputs are the least version-closed set with the given files: those and their boundary chain; the inputs of the next level are exactly its files in their user-key range; the level inputs are larger only if there are such files, the grown range takes as many of them, and the sizes of these and of the grown inputs together stay below the limit |
| `CompactionInputs.PickCompaction` | QuickCutsAdminApp/Pods/leveldb-library/db/version_set.cc:1247-1301 | a compaction from a file: below level 0 its inputs are chosen in this way for that file alone, on level 0 for the files of the least range around it that no file crosses |
| `CompactionInputs.CompactRange` | QuickCutsAdminApp/Pods/leveldb-library/db/version_set.cc:1441-1472 | a manual compaction is empty exactly if no file overlaps the range; its inputs are chosen in this way for the overlapping files, below level 0 for the shortest front of these that reaches the size limit |
| `Compaction.Compaction.IsBaseLevelForKey` | QuickCutsAdminApp/Pods/leveldb-library/db/version_set.cc:1510-1529 | over nondecreasing user keys the advancing pointers give the answer of the stateless check: no file two or more levels below covers the key |
| `Compaction.PreviousEntryDecides` | QuickCutsAdminApp/Pods/leveldb-library/db/db_impl.cc:943-972 | remembering the last sequence number of the current user key is enough to know whether a newer version at or below the snapshot hides the entry |
| `Compaction.DoCompactionWork` | QuickCutsAdminApp/Pods/leveldb-library/db/db_impl.cc:887-1058 | however the outputs are cut, they hold in order exactly the input entries e such that no newer input entry of the user key is at or below the smallest snapshot and, if e is a deletion at or below it, a file two or more levels down covers the user key; no output goes on once it is big enough, and where the grandparents never ask for a cut every output but the last is |
| `DropRules.DropsPreserveReadsIff` | QuickCutsAdminApp/Pods/leveldb-library/db/db_impl.cc:943-972 | dropping entries changes no read at or after the smallest snapshot if and only if no dropped deletion that was the newest version hides a value in the files of the next level that were left out |
| `Picked.CompactionPreservesReadsIff` | QuickCutsAdminApp/Pods/leveldb-library/db/db_impl.cc:887-1058 | the same equivalence for the inputs that the pickers choose out of any valid version |
| `Picked.BoundaryClosureSuffices` | QuickCutsAdminApp/Pods/leveldb-library/db/version_set.cc:1384-1400 | if no file left out in the next level starts on the user key at which an input of that level ends, the compaction changes no read |
| `LsmTheorems.FinishKeepsReadsIff` | QuickCutsAdminApp/Pods/leveldb-library/db/db_impl.cc:869-885 | installing the outputs of a running compaction, with writes and flushes in between, keeps all reads from its smallest snapshot on if and only if no dropped deletion hid a left-out value |
| `LsmHoles.DroppedMarkerResurrects` | QuickCutsAdminApp/Pods/leveldb-library/db/version_set.cc:1384-1400 | a run from the empty store, every flush at the level the code chooses, that ends in a compaction whose only possible inputs bring a deleted value back: the key reads as deleted before its results are installed and as its old value after |
| `LsmLimits.ClosedRunsAreSafe` | QuickCutsAdminApp/Pods/leveldb-library/db/version_set.cc:1380-1439 | if every compaction starts with next-level inputs that end between user keys, no step of the run can bring a deleted value back |
| `LevelMoves.PushDown` | QuickCutsAdminApp/Pods/leveldb-library/db/db_impl.cc:869-885 | replacing inputs by outputs one level down keeps levels sorted, disjoint and newer above older, if the outputs fit beside what stays |
| `Picked.OutputsFit` | QuickCutsAdminApp/Pods/leveldb-library/db/version_set.cc:1384-1400 | outputs made of input entries lie beside every file left out in the next level |
| `Db.PickLevelForMemTableOutput` | QuickCutsAdminApp/Pods/leveldb-library/db/version_set.cc:470-495 | 0 if some level-0 file overlaps; otherwise the deepest level up to 2 that the table may pass down to step by step, and no level down to there overlaps it |
| `LevelMoves.AddFlushed` | QuickCutsAdminApp/Pods/leveldb-library/db/db_impl.cc:500-542 | a table newer than every file keeps the version valid when it is added at level 0, or deeper if nothing down to that level overlaps it |
| `LsmLimits.FlushBesideCompactionIff` | QuickCutsAdminApp/Pods/leveldb-library/db/db_impl.cc:918-928 | a flush installed between the start and the end of a compaction leaves a valid version if and only if its table stays clear of the outputs when it lands in their level |
| `LsmHoles.FlushFallsIntoGap` | QuickCutsAdminApp/Pods/leveldb-library/db/db_impl.cc:918-928 | a run from the empty store in which a flush in the middle of a compaction goes to a level clear of its key, and installing the compaction leaves two overlapping files there |
| `VersionBuilder.Builder.Apply` | QuickCutsAdminApp/Pods/leveldb-library/db/version_set.cc:629-669 | an edit deletes and adds file numbers per level; an added number is no longer deleted |
| `VersionBuilder.SaveLevel` | QuickCutsAdminApp/Pods/leveldb-library/db/version_set.cc:672-715 | merging the base list with the added files gives the sorted list of both without the deleted numbers |
| `VersionBuilder.MergeSorted` | QuickCutsAdminApp/Pods/leveldb-library/db/version_set.cc:672-715 | merging two sorted lists without a common file is sorted and loses nothing |
| `VersionBuilder.Builder.SaveTo` | QuickCutsAdminApp/Pods/leveldb-library/db/version_set.cc:672-730 | every level of the new version is the base level with the recorded changes |
| `VersionBuilder.ReplayEqualsLive` | QuickCutsAdminApp/Pods/leveldb-library/db/version_set.cc:900-976 | where replaying a manifest gives the live version, it still does after logging and applying one more edit that adds no file number to a level twice |
| `Edits.CompactionIsMoved` | QuickCutsAdminApp/Pods/leveldb-library/db/version_set.cc:777-860 | the edit of a compaction turns a version into the one with the inputs replaced by the outputs |
| `Edits.FlushIsAdded` | QuickCutsAdminApp/Pods/leveldb-library/db/db_impl.cc:500-542 | the edit of a flush turns a version into the one with the new file in its level |
| `Edits.ManifestStep` | QuickCutsAdminApp/Pods/leveldb-library/db/version_set.cc:777-860 | logging and applying an edit with new file numbers keeps the live version equal to the replay of the manifest |
| `LsmTheorems.RecoveryRebuildsLevels` | QuickCutsAdminApp/Pods/leveldb-library/db/version_set.cc:862-987 | in every run, whether from the empty store or from a reopened one, replaying the manifest gives the live version |
| `Manifest.SnapshotReplays` | QuickCutsAdminApp/Pods/leveldb-library/db/version_set.cc:1064-1092 | the one edit written for a whole version replays to that version |
| `Manifest.SnapshotKeepsManifestInv` | QuickCutsAdminApp/Pods/leveldb-library/db/version_set.cc:1064-1092 | a store may go on from the rewritten manifest: live version and replay agree and no number is recorded twice |
| `Manifest.ReplayIsFold` | QuickCutsAdminApp/Pods/leveldb-library/db/version_set.cc:862-970 | for any number of edits, one builder fed with all of them saves what applying them one version at a time gives |
| `Manifest.SnapshotThenEdits` | QuickCutsAdminApp/Pods/leveldb-library/db/version_set.cc:1064-1092 | a manifest of a snapshot and later edits gives that version with those edits applied |
| `Manifest.WriteSnapshot` | QuickCutsAdminApp/Pods/leveldb-library/db/version_set.cc:1082-1089 | the loops over levels and files build the edit of the whole version |
| `Manifest.Recover` | QuickCutsAdminApp/Pods/leveldb-library/db/version_set.cc:886-970 | the loop over the edits of a manifest ends with the version they replay to |
| `LsmTheorems.StepKeepsInv` | QuickCutsAdminApp/Pods/leveldb-library/db/db_impl.cc:544-575 | writes, memtable switches, flushes, moves, compaction starts and ends, and snapshots keep the invariant: levels sorted and disjoint, newer above older, level 0 ordered by number, memtables newest, manifest replayable |
| `LsmTheorems.RunKeepsInv` | QuickCutsAdminApp/Pods/leveldb-library/db/db_impl.cc:697-776 | the invariant holds in every run, from any state in which it holds, in which no flush lands on a running compaction |
| `LsmSteps.FilesAfterStep` | QuickCutsAdminApp/Pods/leveldb-library/db/db_impl.cc:697-776 | a flush adds its file to its level, a move takes its file one level down, an installed compaction puts its outputs in the place of its inputs one level down, and nothing else changes which files a level has |
| `LsmSteps.MemtablesAfterStep` | QuickCutsAdminApp/Pods/leveldb-library/db/db_impl.cc:544-575 | a full memtable waits unchanged until one table of exactly its entries, under the next file number, has been written |
| `LsmSteps.CompactionWrites` | QuickCutsAdminApp/Pods/leveldb-library/db/db_impl.cc:887-972 | a compaction that starts in a reachable state will write exactly those of its input entries that the oldest snapshot, or the newest read if there is none, or a later one can need |
| `LsmTheorems.StepKeepsReads` | QuickCutsAdminApp/Pods/leveldb-library/db/db_impl.cc:887-1058 | a safe step changes no read at any sequence number between the smallest snapshot and the last one |
| `LsmTheorems.SnapshotReadsNeverChange` | QuickCutsAdminApp/Pods/leveldb-library/db/db_impl.cc:1176-1185 | a read at a snapshot gives the same value as long as the snapshot is held, whatever steps happen |
| `LsmTheorems.LatestReadIsView` | QuickCutsAdminApp/Pods/leveldb-library/db/db_impl.cc:1195-1268 | in every safe run the latest read of a key is what the last write to it in the run said, on top of what was there at the start |
| `LsmTheorems.EmptyStore` | QuickCutsAdminApp/Pods/leveldb-library/db/db_impl.cc:181-216 | the invariant holds of the empty store and every key reads as nothing, so that runs may start there |
| `LsmTheorems.SnapshotIsOldView` | QuickCutsAdminApp/Pods/leveldb-library/db/db_impl.cc:1176-1185 | a read at a held snapshot is what the latest read was when the snapshot was taken |
| `Durability.FilesAfter` | QuickCutsAdminApp/Pods/leveldb-library/db/db_impl.cc:500-575 | of all steps only a flush adds to the files, and it adds exactly the immutable memtable |
| `Durability.RestartKeepsInv` | QuickCutsAdminApp/Pods/leveldb-library/db/db_impl.cc:289-378 | a restart from the manifest, kept or rewritten, gives a store in which the invariant holds, with the levels of before |
| `Durability.NextKeepsInv` | QuickCutsAdminApp/Pods/leveldb-library/db/db_impl.cc:1195-1268 | writes, log switches, syncs, flushes, compactions, crashes that take an unsynced end of each log, and replayed records keep this: the memtables hold exactly what their logs say and every logged record is newer than all files |
| `Durability.LatestReadSurvivesCrashes` | QuickCutsAdminApp/Pods/leveldb-library/db/db_impl.cc:380-498 | in every safe run with any number of crashes and restarts, the latest read of a key is the last write to it among the records that were flushed, logged, or still to be replayed |
| `Durability.SyncedNeverLost` | QuickCutsAdminApp/Pods/leveldb-library/db/db_impl.cc:1226-1243 | a record that was synced or flushed is never lost, through any later crashes |
| `Durability.NothingInvented` | QuickCutsAdminApp/Pods/leveldb-library/db/db_impl.cc:380-498 | every record a store holds after any crashes was written by some write of the run |
| `Durability.RestartReadsWhatIsLeft` | QuickCutsAdminApp/Pods/leveldb-library/db/db_impl.cc:289-378 | once a restart has replayed its logs, the latest read of every key is the last write to it in what the crash left |
| `Durability.CrashLeavesPrefixIff` | QuickCutsAdminApp/Pods/leveldb-library/db/db_impl.cc:1360-1373 | what a crash leaves is a prefix of the writes if and only if it took nothing of the old log or everything of the new one |
| `Durability.OlderWriteLost` | QuickCutsAdminApp/Pods/leveldb-library/db/db_impl.cc:1360-1373 | a run in which a crash loses a write while a later, synced one survives |
| `Durability.ClosedCrashRunsAreSafe` | QuickCutsAdminApp/Pods/leveldb-library/db/version_set.cc:1380-1439 | if every compaction starts with next-level inputs that end between user keys, every run with crashes is safe |
| `LsmTheorems.ReadAfterBatch` | QuickCutsAdminApp/Pods/leveldb-library/db/write_batch.cc:117-137 | a batch under consecutive sequence numbers acts on the latest read as its operations do one after the other |
| `Lsm.BatchInserted` | QuickCutsAdminApp/Pods/leveldb-library/db/memtable.cc:76-99 | inserting a batch into a sorted memtable keeps it sorted and adds exactly the numbered operations |
| `Db.Db.Write` | QuickCutsAdminApp/Pods/leveldb-library/db/db_impl.cc:1195-1268 | takes a write step: the operations enter the memtable under the next sequence numbers |
| `Db.Db.LogAndApply` | QuickCutsAdminApp/Pods/leveldb-library/db/version_set.cc:777-860 | the levels become those of the edit and the edit is appended to the manifest |
| `Db.Db.WriteLevel0Table` | QuickCutsAdminApp/Pods/leveldb-library/db/db_impl.cc:500-542 | one table with exactly the entries of the immutable memtable, none if that is empty, and a level it may go to |
| `Db.Db.CompactMemTable` | QuickCutsAdminApp/Pods/leveldb-library/db/db_impl.cc:544-575 | takes a flush step; the invariant survives unless the table falls onto a running compaction |
| `Db.Db.BackgroundCompaction` | QuickCutsAdminApp/Pods/leveldb-library/db/db_impl.cc:697-776 | moves the seed file down if it is alone and the next level is clear, or starts a compaction with exactly the inputs that are chosen for it |
| `Db.Db.ManualCompaction` | QuickCutsAdminApp/Pods/leveldb-library/db/db_impl.cc:697-776 | does nothing exactly if no file of the level overlaps the range, otherwise starts a compaction with exactly the inputs that are chosen for the range and the size limit, and never moves a file whole |
| `Db.Db.InstallCompactionResults` | QuickCutsAdminApp/Pods/leveldb-library/db/db_impl.cc:869-885 | takes the step that replaces the inputs by the outputs |
| `Db.Db.GetSnapshot` | QuickCutsAdminApp/Pods/leveldb-library/db/db_impl.cc:1176-1179 | a new snapshot of the last sequence number joins the back of the list |
| `Db.Db.ReleaseSnapshot` | QuickCutsAdminApp/Pods/leveldb-library/db/db_impl.cc:1181-1185 | this snapshot leaves the list and the others stay in order |
| `Db.Db.Reopen` | QuickCutsAdminApp/Pods/leveldb-library/db/db_impl.cc:289-378 | the version that the manifest replays to, a manifest kept or rewritten as a snapshot, no memtables and no snapshots: a restart of the store before |
| `Db.Db.ReplayRecord` | QuickCutsAdminApp/Pods/leveldb-library/db/db_impl.cc:405-440 | the operations of a logged record enter the memtable under its numbers and the last sequence number covers them |
| `Db.Db.NewIterator` | QuickCutsAdminApp/Pods/leveldb-library/db/db_impl.cc:1157-1167 | an iterator at the given snapshot or the last sequence number, over a merging iterator whose sources hold exactly the entries of memtables and files |
| `Snapshots.SnapshotList.New` | QuickCutsAdminApp/Pods/leveldb-library/db/snapshot.h:57-76 | a snapshot with the number joins the back of the ring |
| `Snapshots.SnapshotList.Delete` | QuickCutsAdminApp/Pods/leveldb-library/db/snapshot.h:79-90 | exactly this snapshot leaves the ring |
| `Snapshots.SnapshotList.Oldest` | QuickCutsAdminApp/Pods/leveldb-library/db/snapshot.h:47-50 | the first snapshot, which has the smallest number |
| `Snapshots.SnapshotList.Newest` | QuickCutsAdminApp/Pods/leveldb-library/db/snapshot.h:51-54 | the last snapshot, which has the largest number |
| `Snapshots.SnapshotList.Empty` | QuickCutsAdminApp/Pods/leveldb-library/db/snapshot.h:46 | there are no snapshots |
| `Snapshots.Unlink` | QuickCutsAdminApp/Pods/leveldb-library/db/snapshot.h:79-90 | setting two pointers takes one node out of a ring and leaves the rest of it linked both ways |
| `Db.OutputsAreGood` | QuickCutsAdminApp/Pods/leveldb-library/db/db_impl.cc:820-867 | the files made of the outputs are sorted, disjoint, newly numbered, and hold exactly the survivors |
| `Db.InputListsGood` | QuickCutsAdminApp/Pods/leveldb-library/db/version_set.cc:1214-1245 | no two input files share an internal key, so the merging iterator may run over them |
| `Merger.ReadAll` | QuickCutsAdminApp/Pods/leveldb-library/db/version_set.cc:1214-1245 | draining a merging iterator gives the strictly sorted list of all entries of its children |
| `Merger.MergingIterator.SeekToFirst` | QuickCutsAdminApp/Pods/leveldb-library/table/merger.cc:31-37 | the least entry of the union |
| `Merger.MergingIterator.SeekToLast` | QuickCutsAdminApp/Pods/leveldb-library/table/merger.cc:39-45 | the greatest entry of the union |
| `Merger.MergingIterator.Seek` | QuickCutsAdminApp/Pods/leveldb-library/table/merger.cc:47-53 | the least entry at or after the target |
| `Merger.MergingIterator.Next` | QuickCutsAdminApp/Pods/leveldb-library/table/merger.cc:55-79 | the least entry of the union after the current one, whichever direction the iterator had |
| `Merger.MergingIterator.Prev` | QuickCutsAdminApp/Pods/leveldb-library/table/merger.cc:81-108 | the greatest entry of the union before the current one, whichever direction the iterator had |
| `Merger.MergingIterator.FindSmallest` | QuickCutsAdminApp/Pods/leveldb-library/table/merger.cc:148-161 | the least key among the children is the least of the union in the region that they all start in |
| `Merger.MergingIterator.FindLargest` | QuickCutsAdminApp/Pods/leveldb-library/table/merger.cc:163-176 | the greatest key among the children is the greatest of the union in the region that they all end in |
| `TwoLevel.TwoLevelIterator.Seek` | QuickCutsAdminApp/Pods/leveldb-library/table/two_level_iterator.cc:82-87 | the least entry at or after the target, skipping empty blocks |
| `TwoLevel.TwoLevelIterator.SeekToFirst` | QuickCutsAdminApp/Pods/leveldb-library/table/two_level_iterator.cc:89-94 | the least entry of the concatenation |
| `TwoLevel.TwoLevelIterator.SeekToLast` | QuickCutsAdminApp/Pods/leveldb-library/table/two_level_iterator.cc:96-101 | the greatest entry of the concatenation |
| `TwoLevel.TwoLevelIterator.Next` | QuickCutsAdminApp/Pods/leveldb-library/table/two_level_iterator.cc:103-107 | the next entry of the concatenation |
| `TwoLevel.TwoLevelIterator.Prev` | QuickCutsAdminApp/Pods/leveldb-library/table/two_level_iterator.cc:109-113 | the previous entry of the concatenation |
| `TwoLevel.TwoLevelIterator.SkipEmptyDataBlocksForward` | QuickCutsAdminApp/Pods/leveldb-library/table/two_level_iterator.cc:115-126 | from an exhausted block to the first entry of the region |
| `TwoLevel.TwoLevelIterator.SkipEmptyDataBlocksBackward` | QuickCutsAdminApp/Pods/leveldb-library/table/two_level_iterator.cc:128-139 | from before a block to the last entry of the region |
| `TwoLevel.TwoLevelIterator.InitDataBlock` | QuickCutsAdminApp/Pods/leveldb-library/table/two_level_iterator.cc:146-161 | the data iterator belongs to the block that the index iterator stands on, and is kept if the handle is the same |
| `TwoLevel.SeekStartsAt` | QuickCutsAdminApp/Pods/leveldb-library/table/two_level_iterator.cc:82-87 | the first separator not before the target leads to the block where entries at or after it start |
| `DbIter.DBIter.SeekToFirst` | QuickCutsAdminApp/Pods/leveldb-library/db/db_iter.cc:292-301 | the first visible user key with its value |
| `DbIter.DBIter.SeekToLast` | QuickCutsAdminApp/Pods/leveldb-library/db/db_iter.cc:303-308 | the last visible user key with its value |
| `DbIter.DBIter.Seek` | QuickCutsAdminApp/Pods/leveldb-library/db/db_iter.cc:278-290 | the first visible user key at or after the target |
| `DbIter.DBIter.Next` | QuickCutsAdminApp/Pods/leveldb-library/db/db_iter.cc:141-175 | the first visible user key after the current one, also right after a move backwards |
| `DbIter.DBIter.Prev` | QuickCutsAdminApp/Pods/leveldb-library/db/db_iter.cc:209-234 | the last visible user key before the current one, also right after a move forwards |
| `DbIter.DBIter.FindNextUserEntry` | QuickCutsAdminApp/Pods/leveldb-library/db/db_iter.cc:177-207 | skips newer, hidden and deleted entries up to the first key of the range that a read would return |
| `DbIter.DBIter.FindPrevUserEntry` | QuickCutsAdminApp/Pods/leveldb-library/db/db_iter.cc:236-276 | collects the newest visible version of each key on the way back and stops at the last key of the range that a read would return |
| `DbIter.DBIter.ScanBack` | QuickCutsAdminApp/Pods/leveldb-library/db/db_iter.cc:212-231 | scans the inner iterator back until the user key is smaller, or past the start, where no visible key is left |
| `Merger.SortedUnion` | QuickCutsAdminApp/Pods/leveldb-library/table/merger.cc:31-108 | the entries of sources without a common key form one sorted list |
| `Merger.LeastIsAt` | QuickCutsAdminApp/Pods/leveldb-library/table/merger.cc:148-161 | standing on the least entry of a part of the keys is standing at an index of that list, so the merging iterator moves over it one entry at a time |
| `Merger.GreatestIsAt` | QuickCutsAdminApp/Pods/leveldb-library/table/merger.cc:163-176 | the same for the greatest entry |
| `DbIter.MovesUndoEachOther` | QuickCutsAdminApp/Pods/leveldb-library/db/db_iter.cc:141-276 | moving to the next key and back, or to the previous key and back, returns to the same key and value |
| `DbIter.YieldsIsRead` | QuickCutsAdminApp/Pods/leveldb-library/db/db_iter.cc:177-207 | what the iterator yields for a user key is what a read of that key at the snapshot returns |
| `InternalIterator.ConcatenatedSorted` | QuickCutsAdminApp/Pods/leveldb-library/db/version_set.cc:222-227 | the files of a level one after the other are the sorted list of its entries |
| `InternalIterator.DeepCover` | QuickCutsAdminApp/Pods/leveldb-library/db/version_set.cc:229-245 | one list per nonempty level below level 0 covers exactly their entries |
| `InternalIterator.SourcesCover` | QuickCutsAdminApp/Pods/leveldb-library/db/db_impl.cc:1072-1097 | in every reachable state the sources of an iterator, memtables, level-0 files and one list per deeper level, hold exactly all entries, and no two share an internal key |
| `SkipList.FindGreaterOrEqual` | QuickCutsAdminApp/Pods/leveldb-library/db/skiplist.h:260-281 | the first key at or after the target on level 0, and on every level the last node before it |
| `SkipList.StepKeepsInv` | QuickCutsAdminApp/Pods/leveldb-library/db/skiplist.h:337-368 | after every single store of an insertion each level is a sorted chain contained in the level below, and every search still stands before its target |
| `SkipList.RunKeepsInv` | QuickCutsAdminApp/Pods/leveldb-library/db/skiplist.h:337-368 | the same in every run of one writer and any number of readers, for any heights |
| `SkipList.PublishAddsKey` | QuickCutsAdminApp/Pods/leveldb-library/db/skiplist.h:361-367 | publishing a level adds the new key to that level and changes no other level |
| `SkipList.LastReadAnswers` | QuickCutsAdminApp/Pods/leveldb-library/db/skiplist.h:260-318 | a search that overlaps an insertion returns the right node of the level-0 list at the moment of its last read |
| `SkipList.LevelsGrow` | QuickCutsAdminApp/Pods/leveldb-library/db/skiplist.h:337-368 | no level ever loses a key |
| `SkipList.SearchKeepsGoal` | QuickCutsAdminApp/Pods/leveldb-library/db/skiplist.h:260-318 | no step of the writer or of other readers changes what a search looks for |
| `SkipList.SearchSeesInsertedKeys` | QuickCutsAdminApp/Pods/leveldb-library/db/skiplist.h:260-318 | a search answers for a level-0 list that contains every key there was when it started |
| `LogWriter.Writer.AddRecord` | QuickCutsAdminApp/Pods/leveldb-library/db/log_writer.cc:34-80 | the fragment loop appends the fragments that the file length alone determines, with block trailers, also for a writer reopened at the end of a file |
| `LogWriter.BlockEndIsBlockStart` | QuickCutsAdminApp/Pods/leveldb-library/db/log_writer.cc:27-31 | a writer at the end of a full block and one at the start of the next emit the same |
| `LogReader.Reader.ReadPhysicalRecord` | QuickCutsAdminApp/Pods/leveldb-library/db/log_reader.cc:189-271 | the buffered reader returns the fragment, the position and the reports that the file bytes at the current offset determine |
| `LogReader.Reader.ReadRecord` | QuickCutsAdminApp/Pods/leveldb-library/db/log_reader.cc:56-174 | on any file, the assembled record, the position and the reports are those of reading at the offset |
| `LogRoundTrip.EmittedRead` | QuickCutsAdminApp/Pods/leveldb-library/db/log_reader.cc:56-174 | where a file agrees with an emitted record as far as it goes, reading gives the record if it is complete and a silent end of file if not |
| `LogRoundTrip.LogRoundTrip` | QuickCutsAdminApp/Pods/leveldb-library/db/log_reader.cc:56-174 | for all records, reading a log gives back exactly the records with no report |
| `LogRoundTrip.CutLogReadsPrefix` | QuickCutsAdminApp/Pods/leveldb-library/db/log_reader.cc:189-271 | on any prefix of a log, reading gives exactly the records that lie wholly inside it, with no report |
| `LogRoundTrip.SomeCut` | QuickCutsAdminApp/Pods/leveldb-library/db/log_writer.cc:34-80 | every prefix of a log lies between the ends of two consecutive records |
| `LogRoundTrip.UnfinishedReported` | QuickCutsAdminApp/Pods/leveldb-library/db/log_reader.cc:91-121 | a first fragment without its end is reported with its size, unless it is empty, and the full record behind it is read |
| `LogRoundTrip.HalvesJoined` | QuickCutsAdminApp/Pods/leveldb-library/db/log_reader.cc:108-142 | a first and a last fragment make one record |
| `LogRoundTrip.StrayReported` | QuickCutsAdminApp/Pods/leveldb-library/db/log_reader.cc:123-142 | a middle or last fragment without a start is reported with its size, and the full record behind it is read |
| `Formats.RecordBytes` | QuickCutsAdminApp/Pods/leveldb-library/db/log_writer.cc:82-108 | the bytes of a log of one short record, one by one |
| `Formats.RecordCut` | QuickCutsAdminApp/Pods/leveldb-library/db/log_writer.cc:34-80 | a record is not cut if it fits behind one header into its block; otherwise its first fragment, of type 2, ends with the block; fewer than seven bytes at the end of a block are zeros |
| `Formats.RestCut` | QuickCutsAdminApp/Pods/leveldb-library/db/log_writer.cc:59-78 | the rest of a record fills whole blocks with fragments of type 3 and ends with one of type 4 |
| `LogReuse.AppendToCleanCut` | QuickCutsAdminApp/Pods/leveldb-library/db/log_writer.cc:27-80 | a writer reopened where a record or its block ends emits what it would have emitted without the restart |
| `LogReuse.SafeCutIff` | QuickCutsAdminApp/Pods/leveldb-library/db/db_impl.cc:466-486 | for any log that could be gone on with so far and every checksum function: whatever a reopened writer adds behind a torn record reads back after the complete ones, with nothing reported, if and only if the cut is safe, a condition on the length of the file and of the record and the number of its bytes that are left |
| `LogReuse.LogResumes` | QuickCutsAdminApp/Pods/leveldb-library/db/log_writer.cc:34-80 | every log that a writer has written whole could be gone on with |
| `LogReuse.AddedResumes` | QuickCutsAdminApp/Pods/leveldb-library/db/log_reader.cc:91-121 | a complete record more, also behind an empty first fragment, leaves a log that can be gone on with |
| `LogReuse.CutResumes` | QuickCutsAdminApp/Pods/leveldb-library/db/log_reader.cc:189-271 | so does a record torn at a safe cut: the reader goes on as if its bytes were not there |
| `LogReuse.TornLogReadsBack` | QuickCutsAdminApp/Pods/leveldb-library/db/db_impl.cc:466-486 | however often a log was torn at safe cuts and gone on with, it reads back as the records written whole, in order, with nothing reported |
| `LogReuse.PartReadsBack` | QuickCutsAdminApp/Pods/leveldb-library/db/db_impl.cc:466-486 | cut anywhere in what was added after a restart, the file reads back as everything before and the records that are whole |
| `LogReuse.TornAppendLost` | QuickCutsAdminApp/Pods/leveldb-library/db/log_reader.cc:220-250 | behind a record torn in the data of any of its fragments, whatever bytes follow: the complete records are never read with another one behind them and no report, unless the checksum of the torn fragment is that of the bytes now in its place, and even then not if the other one is the empty record |
| `LogReuse.BetweenFragmentsReported` | QuickCutsAdminApp/Pods/leveldb-library/db/log_reader.cc:91-121 | between two fragments of which the first has data, any appended record makes the reader report the torn one, for every checksum |
| `LogReuse.AcceptedIsPhysical` | QuickCutsAdminApp/Pods/leveldb-library/db/log_reader.cc:220-270 | what the reader accepts as a fragment is, byte for byte, what a writer would have written for that type and data |
| `LogReuse.TornAppendFound` | QuickCutsAdminApp/Pods/leveldb-library/db/log_reader.cc:189-271 | a checksum function and a torn header behind which one appended record does read back, so that an unsafe cut need not show at once |
| `LogFormat.UnmaskInvertsMask` | QuickCutsAdminApp/Pods/leveldb-library/util/crc32c.h:29-38 | unmasking a masked checksum gives it back |
| `Coding.EncodeVarint32` | QuickCutsAdminApp/Pods/leveldb-library/util/coding.cc:21-47 | the unrolled encoder writes the base-128 digits of the value |
| `Coding.EncodeVarint64` | QuickCutsAdminApp/Pods/leveldb-library/util/coding.cc:55-64 | the loop writes the base-128 digits of the value |
| `Coding.VarintRoundTrip` | QuickCutsAdminApp/Pods/leveldb-library/util/coding.cc:116-131 | a varint of at most the allowed length is read back with its length, whatever follows |
| `Coding.GetVarint32` | QuickCutsAdminApp/Pods/leveldb-library/util/coding.cc:86-102 | the shifting loop computes the value of the digits modulo 2^32, or fails on a varint that is cut off or too long |
| `Coding.Fixed64RoundTrip` | QuickCutsAdminApp/Pods/leveldb-library/util/coding.h:64-103 | little-endian 64-bit words are read back |
| `Coding.CutStringNotTaken` | QuickCutsAdminApp/Pods/leveldb-library/util/coding.cc:155-164 | a length-prefixed string that is cut off anywhere is not read |
| `Coding.StringTaken` | QuickCutsAdminApp/Pods/leveldb-library/util/coding.cc:155-164 | a length-prefixed string is read back and the rest of the input remains |
| `WriteBatch.Batch.Put` | QuickCutsAdminApp/Pods/leveldb-library/db/write_batch.cc:98-103 | the representation becomes that of the operations so far and this put, with the count patched |
| `WriteBatch.Batch.Delete` | QuickCutsAdminApp/Pods/leveldb-library/db/write_batch.cc:105-109 | the representation becomes that of the operations so far and this deletion |
| `WriteBatch.Batch.Append` | QuickCutsAdminApp/Pods/leveldb-library/db/write_batch.cc:144-148 | the operations of the source follow those already there; the sequence number stays |
| `WriteBatch.Batch.SetSequence` | QuickCutsAdminApp/Pods/leveldb-library/db/write_batch.cc:94-96 | only the sequence number changes |
| `WriteBatch.Batch.Iterate` | QuickCutsAdminApp/Pods/leveldb-library/db/write_batch.cc:42-80 | on any bytes, hands over the operations up to the first error and reports too small, bad put, bad delete, unknown tag or wrong count |
| `WriteBatch.Batch.InsertInto` | QuickCutsAdminApp/Pods/leveldb-library/db/write_batch.cc:132-137 | adds the operations under consecutive sequence numbers from that of the batch, also when an error ends it early |
| `WriteBatch.BatchRoundTrip` | QuickCutsAdminApp/Pods/leveldb-library/db/write_batch.cc:42-137 | iterating over a batch gives back its operations in order, its count and its sequence number |
| `WriteBatch.CutBatchRejected` | QuickCutsAdminApp/Pods/leveldb-library/db/write_batch.cc:42-80 | a batch that lost its end is never accepted, and only its own operations reach the handler |
| `WriteBatch.BatchErrors` | QuickCutsAdminApp/Pods/leveldb-library/db/write_batch.cc:42-80 | whatever the operations: another count than theirs is a wrong count, a byte that is neither 0 nor 1 after them an unknown tag, and they are handed over before that is said |
| `Formats.BatchBytes` | QuickCutsAdminApp/Pods/leveldb-library/db/write_batch.cc:5-40 | a batch is its sequence number in eight bytes, the count in four, and the operations |
| `Recovery.RecoverLogFile` | QuickCutsAdminApp/Pods/leveldb-library/db/db_impl.cc:380-498 | on any file and options, a recovery that succeeds has kept every operation that the loop over the records replayed, in tables and the memtable together, in order; there is a memtable exactly if the log is kept; if it is not, what was replayed last is saved, and a failure of that is a failure of the recovery |
| `Recovery.EndKeepsAll` | QuickCutsAdminApp/Pods/leveldb-library/db/db_impl.cc:466-495 | nothing replayed is lost when the loop has ended: the last memtable is kept with the log, saved as a table, or the recovery fails |
| `Recovery.AnyLogReplays` | QuickCutsAdminApp/Pods/leveldb-library/db/db_impl.cc:427-462 | on any bytes and with any options, a replay that succeeds has recovered exactly the operations, up to the first error of each, of the records that are read and long enough, in order; without paranoid checks it fails only if saving does, with them it succeeds only on a log without damage |
| `Recovery.ReplaySavesWhenFull` | QuickCutsAdminApp/Pods/leveldb-library/db/db_impl.cc:450-461 | every table that the replay saves was full, and no memtable goes on full |
| `Recovery.CutLogRecovers` | QuickCutsAdminApp/Pods/leveldb-library/db/db_impl.cc:380-498 | after a crash that leaves any prefix of a log of batches, the result of recovery holds exactly the operations of the batches complete in the prefix, in order, and a last sequence number beyond all of them; it fails only if saving a memtable does |
| `Recovery.SyncedWritesSurvive` | QuickCutsAdminApp/Pods/leveldb-library/db/db_impl.cc:1224-1242 | every operation of a synced write that was told it succeeded is in the result of every recovery that succeeds, under its number, whatever part of the unsynced log a crash takes |
| `Recovery.SurvivingPrefix` | QuickCutsAdminApp/Pods/leveldb-library/db/db_impl.cc:380-498 | what is left of a log after a crash reads back as a part from its start with everything synced |
| `Recovery.ReusedLogRecovers` | QuickCutsAdminApp/Pods/leveldb-library/db/db_impl.cc:466-486 | recovering a log that a restart kept, that was added to and cut again, gives all it held before, then a part from the start of what was added, with everything synced |
| `Recovery.ReusedLogKeepsSynced` | QuickCutsAdminApp/Pods/leveldb-library/db/db_impl.cc:466-486 | on a reused log too, every operation of an acknowledged synced write is in the result of every recovery that succeeds |
| `WriteQueue.GroupLimits` | QuickCutsAdminApp/Pods/leveldb-library/db/db_impl.cc:1270-1316 | a leader that does not sync takes no synced write, and a group outgrows its limit only if its first batch alone does |
| `WriteQueue.GroupMeans` | QuickCutsAdminApp/Pods/leveldb-library/db/db_impl.cc:1276-1311 | what decides a group, in full: a write that asks for a sync does not join one that does not, batches join while the bytes stay at most 1 MB, or 128 KB more than the first batch where that has at most 128 KB, and nothing else ends a group |
| `WriteQueue.SmallWritesJoin` | QuickCutsAdminApp/Pods/leveldb-library/db/db_impl.cc:1276-1311 | waiting writers with at most 128 KB in all, none of which asks for a sync that the first does not ask for, go together |
| `WriteQueue.StepKeepsInv` | QuickCutsAdminApp/Pods/leveldb-library/db/db_impl.cc:1195-1268 | every arrived writer is in exactly one group or waits in order, groups are numbered without gaps, and the log and the memtable hold what the groups say, with failures at any point |
| `WriteQueue.RunKeepsInv` | QuickCutsAdminApp/Pods/leveldb-library/db/db_impl.cc:1195-1268 | the same in every run of concurrent writers |
| `WriteQueue.EachBatchOnceInOrder` | QuickCutsAdminApp/Pods/leveldb-library/db/db_impl.cc:1195-1268 | without failures, whatever left the queue was logged and inserted once, in queue order, numbered from 1 without gaps, and replaying the log gives the same entries |
| `WriteQueue.AcknowledgedMeansCommitted` | QuickCutsAdminApp/Pods/leveldb-library/db/db_impl.cc:1214-1258 | with failures of other groups, a writer told success has all its operations in the memtable and its batch in the log, in the synced part if it asked for that |
| `WriteQueue.FailedSyncStopsWrites` | QuickCutsAdminApp/Pods/leveldb-library/db/db_impl.cc:1237-1242 | after a failed sync nothing is logged or inserted any more |
| `WriteQueue.GroupIsOneWrite` | QuickCutsAdminApp/Pods/leveldb-library/db/db_impl.cc:1216-1235 | the numbered operations of a group are one write step of the store |
| `GroupCommit.CommitQueue.BuildBatchGroup` | QuickCutsAdminApp/Pods/leveldb-library/db/db_impl.cc:1270-1316 | the group is the longest front of the queue that nothing stops, and the batch holds its operations in order |
| `GroupCommit.CommitQueue.Lead` | QuickCutsAdminApp/Pods/leveldb-library/db/db_impl.cc:1208-1218 | the front writer takes a group and the next sequence numbers, or fails without room |
| `GroupCommit.CommitQueue.InsertGroupIntoMemTable` | QuickCutsAdminApp/Pods/leveldb-library/db/db_impl.cc:1233-1235 | the operations are inserted under the numbers of the record |
| `GroupCommit.CommitQueue.FinishGroup` | QuickCutsAdminApp/Pods/leveldb-library/db/db_impl.cc:1246-1263 | exactly the writers of the group leave the queue and get its status |
| `Comparator.TotalOrder` | QuickCutsAdminApp/Pods/leveldb-library/util/comparator.cc:27-29 | two byte strings are equal or exactly one is before the other |
| `Comparator.RankEmbedsOrder` | QuickCutsAdminApp/Pods/leveldb-library/util/comparator.cc:27-29 | the rank of a key among the keys of a database decides both order and equality, so layers that only compare keys cannot tell keys from ranks |
| `Comparator.FindShortestSeparator` | QuickCutsAdminApp/Pods/leveldb-library/util/comparator.cc:31-52 | start, or a shorter string after start and before limit; it changes exactly if the first difference leaves room for a byte in between |
| `Comparator.FindShortSuccessor` | QuickCutsAdminApp/Pods/leveldb-library/util/comparator.cc:54-66 | the key if it is all 0xff; otherwise a string after it, and nothing shorter is after it |
| `Comparator.EncodedParts` | QuickCutsAdminApp/Pods/leveldb-library/db/dbformat.h:95-98 | the user key and the tag of an encoded internal key are read back |
| `Comparator.KeyTransitive` | QuickCutsAdminApp/Pods/leveldb-library/db/dbformat.cc:47-63 | the order of internal keys, increasing user key and then decreasing tag, is transitive |
| `Comparator.KeyTotal` | QuickCutsAdminApp/Pods/leveldb-library/db/dbformat.cc:47-63 | two internal keys neither of which is before the other have the same user key and tag |
| `Comparator.EncodedOrder` | QuickCutsAdminApp/Pods/leveldb-library/db/dbformat.cc:47-63 | encoded internal keys are in the order of the keys of the store: by user key, and of one user key the newer first |
| `Formats.KeyBytes` | QuickCutsAdminApp/Pods/leveldb-library/db/dbformat.h:73-98 | an internal key is the user key and eight bytes, the lowest 1 for a value and 0 for a deletion, the rest the sequence number |
| `Comparator.FindShortestKeySeparator` | QuickCutsAdminApp/Pods/leveldb-library/db/dbformat.cc:65-82 | start, or the earliest internal key of a shorter user key strictly between the two; which of them, exactly |
| `Comparator.FindShortKeySuccessor` | QuickCutsAdminApp/Pods/leveldb-library/db/dbformat.cc:84-97 | the key, or the earliest internal key of a shorter later user key; which of them, exactly |
| `BlockBuilder.Builder.Add` | QuickCutsAdminApp/Pods/leveldb-library/table/block_builder.cc:71-105 | the buffer stays a correct layout of all entries added: a restart point exactly after every full interval, and between them each key shares the longest prefix it has in common with the one before |
| `BlockBuilder.Builder.Finish` | QuickCutsAdminApp/Pods/leveldb-library/table/block_builder.cc:61-69 | the block is the encoding of exactly the entries added, with these restart points and shared prefixes, and as long as the size estimate says |
| `BlockBuilder.AddedEntry` | QuickCutsAdminApp/Pods/leveldb-library/table/block_builder.cc:71-105 | one more entry, at a restart point or not, extends a layout |
| `BlockIsDetermined.OneShape` | QuickCutsAdminApp/Pods/leveldb-library/table/block_builder.cc:71-105 | the entries and the restart interval alone determine the layout of a block, and so its every byte |
| `BlockReader.DecodeEntry` | QuickCutsAdminApp/Pods/leveldb-library/table/block.cc:55-76 | the fast path for three one-byte lengths and the slow path read the same header |
| `BlockReader.EntryHeader` | QuickCutsAdminApp/Pods/leveldb-library/table/block.cc:55-76 | the header of an encoded entry gives back its lengths, key suffix and value |
| `BlockReader.Iter.SeekToFirst` | QuickCutsAdminApp/Pods/leveldb-library/table/block.cc:204-207 | stands on the first entry |
| `BlockReader.Iter.SeekToLast` | QuickCutsAdminApp/Pods/leveldb-library/table/block.cc:209-214 | stands on the last entry |
| `BlockReader.Iter.Next` | QuickCutsAdminApp/Pods/leveldb-library/table/block.cc:138-141 | stands on the next entry |
| `BlockReader.Iter.Prev` | QuickCutsAdminApp/Pods/leveldb-library/table/block.cc:143-162 | stands on the previous entry, found again from its restart point |
| `BlockReader.Iter.FindRestartPoint` | QuickCutsAdminApp/Pods/leveldb-library/table/block.cc:164-191 | binary search ends at the last restart point whose key is before the target, or at the first: the next one is not before it |
| `BlockReader.Iter.Seek` | QuickCutsAdminApp/Pods/leveldb-library/table/block.cc:164-202 | stands on the first entry not before the target, or is invalid if there is none |
| `BlockReader.Iter.ParseNextKey` | QuickCutsAdminApp/Pods/leveldb-library/table/block.cc:225-252 | the next entry has exactly the key and value added, rebuilt from the shared prefix |
| `BlockReader.ReadAll` | QuickCutsAdminApp/Pods/leveldb-library/table/block.cc:138-252 | iterating over a finished block yields exactly the entries added, for any restart interval |
| `Bloom.CreateFilter` | QuickCutsAdminApp/Pods/leveldb-library/util/bloom.cc:28-54 | the loops over keys and probes set the bits of the filter that the keys determine |
| `Bloom.KeyMayMatch` | QuickCutsAdminApp/Pods/leveldb-library/util/bloom.cc:56-80 | on any bytes, the loop decides whether all probes of the key hit, with the reserved probe counts matching everything |
| `Bloom.FilterMatchesIff` | QuickCutsAdminApp/Pods/leveldb-library/util/bloom.cc:28-80 | a key matches a filter if and only if each of its probes is hit by a probe of some added key; in particular every added key matches |
| `Bloom.BloomNeverMisses` | QuickCutsAdminApp/Pods/leveldb-library/util/bloom.cc:28-80 | the Bloom policy has no false negatives for any bits per key and any hash |
| `FilterBlock.Builder.StartBlock` | QuickCutsAdminApp/Pods/leveldb-library/table/filter_block.cc:21-27 | filters are generated up to the block offset; the keys added before are in the filters of their blocks |
| `FilterBlock.Builder.AddKey` | QuickCutsAdminApp/Pods/leveldb-library/table/filter_block.cc:29-33 | the key joins those of the current range of 2 KB |
| `FilterBlock.Builder.GenerateFilter` | QuickCutsAdminApp/Pods/leveldb-library/table/filter_block.cc:51-75 | the waiting keys become one filter, an empty one if there are none |
| `FilterBlock.Builder.Finish` | QuickCutsAdminApp/Pods/leveldb-library/table/filter_block.cc:35-49 | a reader of the finished block asks, for a block offset, one filter made of exactly the keys of the blocks in its 2 KB, and lets everything pass past the last filter |
| `FilterBlock.ReadsOwnFilter` | QuickCutsAdminApp/Pods/leveldb-library/table/filter_block.cc:77-104 | for any block offset the reader asks exactly the filter generated for its 2 KB window, and lets everything pass past the last one |
| `FilterBlock.NothingHidden` | QuickCutsAdminApp/Pods/leveldb-library/table/filter_block.cc:77-104 | with a policy that has no false negatives, no key is ruled out for a block that holds it |
| `Formats.FilterSize` | QuickCutsAdminApp/Pods/leveldb-library/util/bloom.cc:28-45 | a filter has the bits per key asked for, at least 64, in whole bytes, and the number of probes behind them |
| `Formats.ProbeSteps` | QuickCutsAdminApp/Pods/leveldb-library/util/bloom.cc:46-80 | the probes of a key are its hash and steps of the hash rotated right by 17 bits |
| `TableFormat.HandleRoundTrip` | QuickCutsAdminApp/Pods/leveldb-library/table/format.cc:15-29 | a block handle is read back |
| `TableFormat.InternalNeverMisses` | QuickCutsAdminApp/Pods/leveldb-library/db/dbformat.cc:101-115 | stripping tags before asking the user policy keeps it without false negatives |
| `TableFormat.BetweenKeys` | QuickCutsAdminApp/Pods/leveldb-library/db/dbformat.cc:65-82 | a key after the last key of a block and not after its shortened separator is not after the next key, and has another user key |
| `TableFormat.FirstInTable` | QuickCutsAdminApp/Pods/leveldb-library/table/table.cc:214-242 | the first entry at or after the key in the block that the index leads to is the first one of the whole table, unless the user key is not there |
| `TableFormat.FilteredOut` | QuickCutsAdminApp/Pods/leveldb-library/table/table.cc:220-226 | a block that the filter rules out holds no entry of the user key |
| `TableBuilder.Builder.Add` | QuickCutsAdminApp/Pods/leveldb-library/table/table_builder.cc:94-123 | the table so far holds the entries added; the index entry of the previous block is written first, with a separator between its last key and this one; the block is written exactly if its size estimate has reached the block size |
| `TableBuilder.Builder.IndexBefore` | QuickCutsAdminApp/Pods/leveldb-library/table/table_builder.cc:102-109 | the pending index entry gets a separator that this key may follow |
| `TableBuilder.Builder.Flush` | QuickCutsAdminApp/Pods/leveldb-library/table/table_builder.cc:125-139 | the block is written and its handle waits for the next key |
| `TableBuilder.Builder.WriteBlock` | QuickCutsAdminApp/Pods/leveldb-library/table/table_builder.cc:141-175 | the block can be read at the returned handle, and what was there before stays |
| `TableBuilder.Builder.WriteRawBlock` | QuickCutsAdminApp/Pods/leveldb-library/table/table_builder.cc:177-194 | the contents are appended, then a zero type byte and the masked checksum of both |
| `TableBuilder.Builder.WriteFilter` | QuickCutsAdminApp/Pods/leveldb-library/table/table_builder.cc:206-210 | the filter block is written and its handle leads to filters of exactly the keys of the blocks of each 2 KB |
| `TableBuilder.Builder.IndexLast` | QuickCutsAdminApp/Pods/leveldb-library/table/table_builder.cc:228-235 | the last block gets its index entry, with a short key after its last key |
| `TableBuilder.Builder.Finish` | QuickCutsAdminApp/Pods/leveldb-library/table/table_builder.cc:198-253 | the file is a table of exactly the entries added, with an ordered index, and filters of exactly the keys of the blocks of each 2 KB |
| `TableFormat.FirstNotBefore` | QuickCutsAdminApp/Pods/leveldb-library/table/table.cc:214-242 | there is always a first entry not before a key, possibly past the end |
| `Table.InternalGet` | QuickCutsAdminApp/Pods/leveldb-library/table/table.cc:214-242 | reports only the first entry at or after the key, and does report it whenever it has the same user key, despite shortened separators; it reports what the one block found by the index has, and nothing exactly if the filter rules the key out or that block ends before it |
| `HandleTable.Table.FindPointer` | QuickCutsAdminApp/Pods/leveldb-library/util/cache.cc:115-121 | the slot of the key in its chain, or the end of the chain if the key is not in the table |
| `HandleTable.Table.Lookup` | QuickCutsAdminApp/Pods/leveldb-library/util/cache.cc:75-77 | what the table maps the key to |
| `HandleTable.Table.Insert` | QuickCutsAdminApp/Pods/leveldb-library/util/cache.cc:79-93 | the table maps the key to the new entry and the old one is returned; the buckets are doubled exactly when the entries outnumber them |
| `HandleTable.Table.Remove` | QuickCutsAdminApp/Pods/leveldb-library/util/cache.cc:95-105 | the table no longer maps the key and the old entry is returned |
| `HandleTable.Table.Resize` | QuickCutsAdminApp/Pods/leveldb-library/util/cache.cc:123-146 | the same table in the least power of two of buckets, from 4 on, that is no less than the number of entries |
| `Cache.RefKeepsInv` | QuickCutsAdminApp/Pods/leveldb-library/util/cache.cc:218-224 | taking a reference keeps the cache consistent: an entry that only the cache held moves to the in-use list |
| `Cache.UnrefKeepsInv` | QuickCutsAdminApp/Pods/leveldb-library/util/cache.cc:226-238 | dropping a reference keeps the cache consistent: the deleter runs exactly when the last one goes, once |
| `Cache.EraseKeepsInv` | QuickCutsAdminApp/Pods/leveldb-library/util/cache.cc:308-317 | erasing removes the entry from its list, the table and the usage, and frees it only if no client holds it |
| `Cache.AddKeepsInv` | QuickCutsAdminApp/Pods/leveldb-library/util/cache.cc:267-291 | a new entry is in the table, in use, and charged |
| `Cache.EraseAfterAdd` | QuickCutsAdminApp/Pods/leveldb-library/util/cache.cc:283-288 | freeing the replaced entry after adding the new one is the same as before it |
| `Cache.LRUCache.Lookup` | QuickCutsAdminApp/Pods/leveldb-library/util/cache.cc:253-260 | the entry of the key, with exactly one client more and every other entry unchanged, or nothing; an entry without clients leaves its place among the evictable ones |
| `Cache.LRUCache.Release` | QuickCutsAdminApp/Pods/leveldb-library/util/cache.cc:262-265 | exactly one client less of this entry; the last client of a cached entry puts it at the new end of the evictable ones, which stay in the order of their last release; the last reference deletes it |
| `Cache.LRUCache.Erase` | QuickCutsAdminApp/Pods/leveldb-library/util/cache.cc:319-322 | the key is gone, its entry is uncharged, deleted if no client holds it, and otherwise lives on for its clients |
| `Cache.LRUCache.Prune` | QuickCutsAdminApp/Pods/leveldb-library/util/cache.cc:324-334 | the entries that only the cache holds are deleted, oldest first; entries in use stay |
| `Cache.LRUCache.Insert` | QuickCutsAdminApp/Pods/leveldb-library/util/cache.cc:267-306 | usage is within the capacity or nothing evictable is left; the entries evicted were released before every evictable one that stays, in that order, and are no more than needed; the key maps to the new entry unless caching is off |
| `Crc32c.WordIsFourBytes` | QuickCutsAdminApp/Pods/leveldb-library/util/crc32c.cc:313-320 | a 32-bit step equals four byte steps |
| `Crc32c.StrideAddsWord` | QuickCutsAdminApp/Pods/leveldb-library/util/crc32c.cc:294-310 | one stride on one of the four lanes, recombined, equals adding that word to the single register |
| `Crc32c.ExtendByStrides` | QuickCutsAdminApp/Pods/leveldb-library/util/crc32c.cc:332-366 | four interleaved lanes compute the byte-at-a-time checksum of what they consumed |
| `Crc32c.Extend` | QuickCutsAdminApp/Pods/leveldb-library/util/crc32c.cc:276-377 | for every length, alignment and initial value the strided checksum equals the byte-at-a-time one |
| `Crc32c.ExtendComposes` | QuickCutsAdminApp/Pods/leveldb-library/util/crc32c.h:14-20 | extending over a concatenation equals extending over the parts in turn |
| `Crc32c.CrcTablesAreGood` | QuickCutsAdminApp/Pods/leveldb-library/util/crc32c.cc:20-244 | the tables of the Castagnoli polynomial satisfy what the strided algorithm needs |
| `Crc32c.StrideTable3Entry` | QuickCutsAdminApp/Pods/leveldb-library/util/crc32c.cc:200-244 | the polynomial gives the first entry of the last stride table |
| `Crc32c.ByteTableEntries` | QuickCutsAdminApp/Pods/leveldb-library/util/crc32c.cc:20-64 | the polynomial gives the entries of the byte table at the powers of two |
| `Crc32c.FirstChecksums` | QuickCutsAdminApp/Pods/leveldb-library/util/crc32c.cc:276-377 | the checksum of nothing and that of one zero byte |
| `EditCodec.FieldRoundTrip` | QuickCutsAdminApp/Pods/leveldb-library/db/version_edit.cc:105-203 | every tagged field is read back, whatever follows it |
| `EditCodec.FieldsRoundTrip` | QuickCutsAdminApp/Pods/leveldb-library/db/version_edit.cc:105-203 | decoding an encoded list of fields applies them in order and finds no error |
| `EditCodec.EditRoundTrip` | QuickCutsAdminApp/Pods/leveldb-library/db/version_edit.cc:41-203 | decoding an encoded edit gives the edit, with its compaction pointers after those the target already had |
| `EditCodec.EditRoundTripIff` | QuickCutsAdminApp/Pods/leveldb-library/db/version_edit.cc:26-39 | the edit itself comes back if and only if the target had no compaction pointers |
| `EditCut.CutEdit` | QuickCutsAdminApp/Pods/leveldb-library/db/version_edit.cc:105-203 | an edit of which only the first bytes are there is accepted if and only if it ends between two fields, and then it is the edit of the whole ones |
| `EditCut.CutFieldFails` | QuickCutsAdminApp/Pods/leveldb-library/db/version_edit.cc:105-203 | a field cut anywhere inside is an error |
| `EditCut.BadFieldFails` | QuickCutsAdminApp/Pods/leveldb-library/db/version_edit.cc:86-203 | a tag other than 1 to 7 and 9, or a level that does not exist, is an error |
| `Formats.FileFieldBytes` | QuickCutsAdminApp/Pods/leveldb-library/db/version_edit.cc:14-84 | the bytes of a deleted and of a new file in an edit |
| `Formats.EditBytes` | QuickCutsAdminApp/Pods/leveldb-library/db/version_edit.cc:41-84 | the order of the fields of an edit |
| `EditCodec.EncodeTo` | QuickCutsAdminApp/Pods/leveldb-library/db/version_edit.cc:41-84 | the bytes are the fields of the edit in order |
| `EditCodec.DecodeFrom` | QuickCutsAdminApp/Pods/leveldb-library/db/version_edit.cc:105-203 | on any bytes, the loop fails or ends with the fields applied to the cleared target |
| `PbEncode.OStream.Write` | QuickCutsAdminApp/Pods/nanopb/pb_encode.c:103-132 | a sizing stream counts, a real stream also writes, and either fails without a change when the bytes do not fit |
| `PbEncode.OStream.EncodeVarint` | QuickCutsAdminApp/Pods/nanopb/pb_encode.c:608-628 | writes the base-128 digits of the value |
| `PbEncode.EncodeSubmessage` | QuickCutsAdminApp/Pods/nanopb/pb_encode.c:717-765 | the sizing pass and the writing pass agree, so the submessage is written length first and the check for a changed size never fails |
| `PbEncode.PackedSize` | QuickCutsAdminApp/Pods/nanopb/pb_encode.c:166-187 | the size computed for a packed array is the size of its encoding |
| `PbEncode.EncodeArray` | QuickCutsAdminApp/Pods/nanopb/pb_encode.c:147-236 | a repeated field is one packed string or one tagged value per item |
| `PbEncode.EncodeField` | QuickCutsAdminApp/Pods/nanopb/pb_encode.c:341-426 | absent optional fields and zero singular fields write nothing |
| `PbEncode.PbEncode` | QuickCutsAdminApp/Pods/nanopb/pb_encode.c:528-550 | the stream gets the encoding of the message, counted or written, or fails because it does not fit |
| `PbRoundTrip.ScalarRoundTrip` | QuickCutsAdminApp/Pods/nanopb/pb_decode.c:1334-1445 | every scalar of every type and width is read back, negative values and zigzag included |
| `PbRoundTrip.ValueRoundTrip` | QuickCutsAdminApp/Pods/nanopb/pb_decode.c:1447-1547 | bytes, strings and nested messages are read back |
| `PbRoundTrip.RecordDecodes` | QuickCutsAdminApp/Pods/nanopb/pb_decode.c:406-483 | a record of a known field updates that field, a record of an unknown one is skipped |
| `PbRoundTrip.MessageRoundTrip` | QuickCutsAdminApp/Pods/nanopb/pb_decode.c:934-1082 | decoding an encoded message over defaults gives the message |
| `PbRoundTrip.RoundTrip` | QuickCutsAdminApp/Pods/nanopb/pb_decode.c:934-1082 | the same with well-formed records of unknown fields inserted anywhere between the fields, of the message and of the messages nested in it at every depth |
| `PbRoundTrip.DecodesIff` | QuickCutsAdminApp/Pods/nanopb/pb_decode.c:934-1082 | records that fit, in any order, repeated and with unknown ones in between, are accepted if and only if every required field with fewer than 64 required fields before it occurs among them, at every depth; then they give the slots that they make up |
| `PbCut.CutMessage` | QuickCutsAdminApp/Pods/nanopb/pb_decode.c:934-1082 | of such records only the first bytes: accepted if and only if the cut falls between two records and the whole ones include what is required |
| `PbCut.CutRecordFails` | QuickCutsAdminApp/Pods/nanopb/pb_decode.c:187-483 | a record cut anywhere inside, in the key, the length, or the data, is an error |
| `PbCut.FieldExtends` | QuickCutsAdminApp/Pods/nanopb/pb_decode.c:406-483 | a field that can be decoded is decoded the same whatever follows it |
| `PbRoundTrip.DecodedInBounds` | QuickCutsAdminApp/Pods/nanopb/pb_decode.c:1334-1547 | whatever the bytes, a message that is accepted has every number within its type, every string and array within its room, at every depth |
| `PbRoundTrip.LoopInBounds` | QuickCutsAdminApp/Pods/nanopb/pb_decode.c:934-1037 | the same of decoding over any message that is within its bounds |
| `Formats.FieldKeys` | QuickCutsAdminApp/Pods/nanopb/pb_encode.c:669-707 | the key of a field: its tag, and below it 0 for varints, 1 and 5 for words of eight and four bytes, 2 for what has a length |
| `Formats.ValueBytes` | QuickCutsAdminApp/Pods/nanopb/pb_encode.c:630-715 | the bytes of values: two's complement in ten bytes for negative numbers, zigzag for sint types, little-endian words |
| `PbRoundTrip.RecordsAreEncoding` | QuickCutsAdminApp/Pods/nanopb/pb_encode.c:528-550 | the encoding of a message is the concatenation of its records |
| `PbRoundTrip.NestedIsValue` | QuickCutsAdminApp/Pods/nanopb/pb_encode.c:717-765 | a nested message written as its records has the bytes of the whole value |
| `PbDecoder.IStream.DecodeVarint32` | QuickCutsAdminApp/Pods/nanopb/pb_decode.c:187-252 | on any stream, the loop with its 8-bit bit position reads what the byte-by-byte definition says, or fails |
| `PbDecoder.IStream.DecodeVarint` | QuickCutsAdminApp/Pods/nanopb/pb_decode.c:255-276 | the 64-bit decoder reads at most ten bytes, modulo 2^64 |
| `PbDecoder.SkipUnknown` | QuickCutsAdminApp/Pods/nanopb/pb_decode.c:321-334 | skips a field by its wire type |
| `PbDecoder.MakeSubstream` | QuickCutsAdminApp/Pods/nanopb/pb_decode.c:372-385 | the substream is exactly the prefixed bytes, which leave the outer stream |
| `PbDecoder.CloseSubstream` | QuickCutsAdminApp/Pods/nanopb/pb_decode.c:387-403 | the outer stream continues after them |
| `PbDecoder.DecodeFieldFrom` | QuickCutsAdminApp/Pods/nanopb/pb_decode.c:406-483 | a field is decoded as its type and wire type say, packed arrays item by item until the array is full |
| `PbDecoder.DecodeNoInit` | QuickCutsAdminApp/Pods/nanopb/pb_decode.c:934-1082 | on any stream, the loop over tags and the required-field check give the decoded slots or fail, which for records that fit means exactly what DecodesIff says |
| `PbDecoder.WriteAndRead` | QuickCutsAdminApp/Pods/nanopb/pb_decode.c:1084-1095 | a message written to a buffer and read back is the same, unless the buffer is too small |
| `PbDecode.ShortVarint` | QuickCutsAdminApp/Pods/nanopb/pb_decode.c:187-247 | what the 32-bit decoder makes of any varint of up to 37 bytes: the low 32 bits of five digits, and exactly when it refuses |
| `PbDecode.FittingVarint` | QuickCutsAdminApp/Pods/nanopb/pb_decode.c:187-247 | no varint of up to 37 bytes whose number fits 32 bits is refused or read as another |
| `PbDecode.PaddedVarint` | QuickCutsAdminApp/Pods/nanopb/pb_decode.c:216-243 | a number of up to 35 bits with a sixth byte behind its digits is read modulo 2^32 |
| `PbDecode.OverflowMissed` | QuickCutsAdminApp/Pods/nanopb/pb_decode.c:216-243 | seven times 2^32, so encoded, is read as 0 |
| `PbDecode.LongVarintWraps` | QuickCutsAdminApp/Pods/nanopb/pb_decode.c:210-236 | 37 continuation bytes and a 1 are read as 8 |
| `PbDecode.TagZeroOfEmptyMessage` | QuickCutsAdminApp/Pods/nanopb/pb_common.c:87-104 | an empty descriptor finds its terminator for tag 0 and takes a bool |
| `PbDecode.TagZeroUnknown` | QuickCutsAdminApp/Pods/nanopb/pb_decode.c:952-994 | with any other descriptor of positive tags, a key of tag 0 is that of an unknown field: its bytes are skipped and no field changes |
| `PbDecoder.FieldIterFind` | QuickCutsAdminApp/Pods/nanopb/pb_common.c:87-104 | the cyclic search finds the field with the tag from any starting position, or none if there is none, and for tag 0 it finds something exactly if the descriptor is empty |

## Left out

- User keys in the store, iterator and skip-list layers are integers: these layers only compare keys, and `Comparator.RankEmbedsOrder` shows that comparing cannot tell byte strings from their ranks.
- Where outputs are cut: `ShouldStopBefore` and the output file size are arbitrary functions, so the results hold for every choice; that outputs overlap few grandparents is not stated.
- Which file to compact: scores, seek statistics, read sampling and the compaction pointer are replaced by an arbitrary file of the level.
- Sequence numbers: a write is only modelled while the last sequence number stays below 2^56 - 1; the code does not check this.
- Db.Db.CompactMemTable: promises the invariant only for a flush that stays clear of a running compaction, because the code does not check it (see above).
- Db.Db.BackgroundCompaction: whether the grandparents of a trivial move are small enough is an input.
- Internal keys that fail to parse, corrupt blocks and read errors in compactions and iterators: the store layer starts from well-formed tables.
- Obsolete file removal, file numbers of logs, the CURRENT file and writing the manifest as a log file: the manifest is the sequence of its edits, and it is never torn.
- `std::sort`, `std::set` and `std::vector` are modelled by sequences and insertion.
- The memtable of the store is a sorted list; the skip list is a model of its own.
- Skip list: atomic stores and loads interleave one at a time; weaker memory orders and the arena are left out.
- Log reader: reading from an initial offset greater than zero, and I/O errors other than a short file.
- Lsm.BatchInserted: the byte layout of a memtable entry is left out.
- LsmTheorems.StepKeepsInv and the other theorems about runs: a compaction takes the numbers of all its output files when it begins, any numbers from there on; the code takes them one by one, between those of flushes.
- Durability.NextKeepsInv: a restart that fills a memtable saves it by an ordinary flush, one edit for each table, where the code collects them in one edit; a record that a restart has read back counts as durable.
- Db.Db.NewIterator: the sources of the merging iterator are cursors over lists; the block-wise iterator of tables and levels (TwoLevel) is proved on its own. Read sampling and the reference counts of versions are left out.
- Db.Db.Reopen: the last sequence number and the next file number are any that cover the version, where the code takes them from the last edit of the manifest.
- Recovery.RecoverLogFile: one log file; whether a memtable is full and whether saving it works are arbitrary functions; several logs are replayed in the order of their numbers by the same method.
- WriteBatch.Batch.Put: fewer than 2^31 operations in a batch and strings below 2^32 bytes, as the integer types of the code demand.
- GroupCommit.CommitQueue.Lead: making room (delays, waiting for a compaction, switching logs) either works or fails; a log write fails as a whole.
- TableBuilder.Builder.Add: blocks stay below 2^32 bytes and offsets below 2^64, as the formats demand.
- TableBuilder.Builder.Finish: no metaindex block and no footer, the handles of the index and the filter are passed on directly; blocks are not compressed; write errors and `Abandon` are left out.
- Table.InternalGet: block trailers are written but not verified on reading; the block cache is a model of its own.
- Bloom.CreateFilter: the hash is an arbitrary function.
- FilterBlock.Builder.Finish: the filter block stays below 2^32 bytes.
- Cache.LRUCache.Insert: one shard, hash and bucket mask as remainder, the key and its hash together as key; the destructor and the shard choice are left out.
- Crc32c.Extend: the tables are those of the polynomial (`Crc32c.CrcTablesAreGood`), not the 1280 constants of the code, of which only the entries of the byte table at powers of two are compared; hardware acceleration is left out.
- EditCodec.EditRoundTrip: strings below 2^32 bytes and keys that are not empty, as encoded internal keys are.
- PbEncode.PbEncode: static fields only; no callbacks, pointers, extensions, oneof members, fixed-count arrays or fixed-length bytes.
- PbEncode.EncodeField: the same.
- PbDecoder.DecodeFieldFrom: the same.
- PbDecoder.DecodeNoInit: the same; with an empty descriptor the bool of the terminator is read but stored nowhere.
- PbRoundTrip.RoundTrip: encodings below 2^32 bytes, field tags distinct and within the wire format; no overflow of `size_t`.
- Repair, dump, the C binding, statistics, the POSIX environment and the Swift application are not part of this model.
