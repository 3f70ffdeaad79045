# Storage and serialization models

This project models the storage and serialization code that the app ships in its pods: LevelDB's log-structured merge
engine with its data structures and codecs, and the nanopb encoder and decoder. Each Dafny file names the source files
it follows.

**The engine.** A memtable, an immutable memtable and seven levels of sorted files. The specification is one flat
multi-version map: a read of user key `u` at sequence `s` gives the newest entry of `u` with a sequence of at most `s`,
and a deletion reads as absent. `InternalKeys`, `MultiVersion` and `Levels` define it; `VersionGet` shows that the
lookup is that read; `InputSelection`, `CompactionInputs`, `Compactions`, `CompactionRun`, `CompactionSafety` and
`Flush` follow compaction and flush; `StoreSteps` is the state machine over whole runs and `Database` the object whose
methods perform its steps; `Restarts` adds crashes; `StoreIterator` and `TwoLevelIterator` lead to iterators over the
whole store; `VersionBuilder` and `EditCodec` replay and encode the manifest; `MergingIterator` and `DbIterator` are the
iterators.

**Three claims are false of the code, and their exact conditions are proved.** `SetupOtherInputs` closes the right edge
of the inputs of `level` (version_set.cc:1407) but not of `level+1`. If a deletion at the right edge of the `level+1`
inputs is dropped while the next, omitted `level+1` file still begins with an older value of the same user key, the
value comes back, unless an entry in a memtable shields it. `Resurrection` holds a run from the empty store in which
this happens. `CompactionPreservesMeaning` proves for versions, and `StoreSteps.CompactChangesRead`, `CompactKeeps`,
`EveryReachableState` and `SnapshotIsolation` for what clients read, that reads are preserved if and only if it does not
happen; `RightEdgeClosedIsSafe` proves that closing the right edge would exclude it. The level invariants hold in any
case. The other two claims are about the round trip of nanopb. The encoder writes a string that fills its array and the
decoder wants room for a NUL (pb_decode.c:1489): `PbRoundTrip.RoundTrip` proves that decoding succeeds if and only if no
written string fills its array, and `FullStringIsRefused` gives a message. The encoder omits a proto3 field that is zero
even when the descriptor has another default for it, which then comes back: `RoundTrip` proves that the message is
restored if and only if this does not happen, `PlainIsKept` that it does not for descriptors without such defaults, and
`ZeroIsLost` gives a message.

**Where code and comments differ, the model follows the code.** `Compaction::IsBaseLevelForKey` moves its pointers
forward only and is right only for keys in ascending order, which is its use. `VersionEdit::Clear` leaves the compaction
pointers. The log reader takes an intact fragment of type 5, which no writer makes, for the end of the file and does not
report it (log_reader.cc:144). `DBIter` in reverse may stand further back than "just before all entries" of its key when
entries above the snapshot lie between.

**Data structures.** `SkipList` is the skip list as a state machine with one writer and any number of readers, one step
per load or store; `SkipListMethods` are its operations. `WriteQueue`, `WriteBatch` and `Recovery` follow group commit
from the queue to the log and back after a crash, and `GroupCommit` shows that runs of the queue are runs of the store.
`LogFormat`, `LogWriter`, `LogReader` and `LogRoundTrip` are the log, cut and damaged files included; `Crc32c` its
checksum and `Crc32cValues` the numbers of it; `HandleTable` and `LruCache` the cache; `Bytes`, `Coding`, `BlockFormat`,
`BlockBuilder`, `BlockIterator` and `BlockRoundTrip` the block; `Separators`, `Bloom`, `FilterBlock`, `Table` and
`TableBuilder` the table. `Formats` fixes the bytes of the encodings by laws of their digits and by literal examples.

**nanopb.** `PbTypes` describes messages by descriptor and says what their encoding is (Protocol Buffers Encoding,
sections "Base 128 Varints", "Signed Integers" and "Packed Repeated Fields"); `PbWritten` says the same in terms of the
message alone, with `PbExamples` for literal bytes; `PbEncode` is the two-pass encoder. `PbWire` defines all forms in
which a message may come: units in any order, numbers of arrays packed or one by one, unknown and superseded units
between them, ended by the input or by a zero byte, at any depth; `PbCanonical` shows that the encoder writes one of
them. `PbRestore`, `PbProgress`, `PbDecodeScalars`, `PbBounds` and `PbDecode` are the decoder, which restores a message
from every such form; `PbRoundTrip` puts them together.

`dafny verify dfyconfig.toml` checks the whole project.

## Model

| member | source | states |
|---|---|---|
| InternalKeys.BeforeIsStrictTotalOrder | VoisinMalin/Pods/leveldb-library/db/dbformat.cc:51-67 | the internal-key order (user key up, sequence down, type down) is a strict total order |
| InternalKeys.SeekKeySplits | VoisinMalin/Pods/leveldb-library/db/dbformat.cc:121-138 | a lookup key separates exactly the entries of its user key up to the snapshot, and later keys, from everything before |
| MultiVersion.ReadOnTop | VoisinMalin/Pods/leveldb-library/db/db_impl.cc:1121-1133 | reading the flat map of two stores of which one is newer: the newer one answers if it has any covering entry, else the older one does |
| Levels.OneHome | VoisinMalin/Pods/leveldb-library/db/version_set.cc:335-350 | under the level invariants an entry (user key and sequence) has one file only |
| Levels.EntriesAreUnique | VoisinMalin/Pods/leveldb-library/db/version_set.cc:335-350 | the entries of all levels form a flat map: no two share user key and sequence |
| VersionGet.FindFile | VoisinMalin/Pods/leveldb-library/db/version_set.cc:88-106 | the binary search returns the boundary: files before it end before the key, files from it on do not |
| VersionGet.SearchRun | VoisinMalin/Pods/leveldb-library/table/table.cc:216-244 | a lookup in a sorted run finds the newest covering entry, or there is none |
| VersionGet.TableGet | VoisinMalin/Pods/leveldb-library/db/version_set.cc:263-276 | one file answers with its newest covering entry, or has none |
| VersionGet.SortNewestFirst | VoisinMalin/Pods/leveldb-library/db/version_set.cc:357-363 | level-0 candidates are the same files, higher numbers first |
| VersionGet.FilesToSearch | VoisinMalin/Pods/leveldb-library/db/version_set.cc:346-387 | the chosen files are enough: an entry elsewhere on the level is superseded by one in a chosen file; below level 0 one file at most |
| VersionGet.OneProbeSuffices | VoisinMalin/Pods/leveldb-library/db/version_set.cc:368-387 | a user key that straddles files of a sorted level: the first file found holds the newest covering entry |
| VersionGet.FirstHitIsNewest | VoisinMalin/Pods/leveldb-library/db/version_set.cc:389-417 | the first hit, level by level and newest file first, is the newest entry over all files |
| VersionGet.Get | VoisinMalin/Pods/leveldb-library/db/version_set.cc:326-421 | `Version::Get` is the read of the flat map of all entries of the version, for every user key and snapshot |
| InputSelection.SomeFileOverlapsRange | VoisinMalin/Pods/leveldb-library/db/version_set.cc:122-157 | true exactly when some file overlaps the range, by scan or by binary search |
| InputSelection.GetOverlappingInputs | VoisinMalin/Pods/leveldb-library/db/version_set.cc:519-559 | the restarting loop ends; on level 0 the result is closed under user-range overlap and is the least closed set containing the overlapping files, below it is exactly the overlapping files |
| InputSelection.GrowthStaysLeast | VoisinMalin/Pods/leveldb-library/db/version_set.cc:543-557 | each widening of the range stays within every closed set that contains the request |
| CompactionInputs.PickLevelForMemTableOutput | VoisinMalin/Pods/leveldb-library/db/version_set.cc:491-516 | the chosen level is at most 2, nothing from level 0 down to it overlaps, and it is not lower only for a stated reason |
| CompactionInputs.GetRange | VoisinMalin/Pods/leveldb-library/db/version_set.cc:1205-1224 | the least smallest and the greatest largest key of the inputs |
| CompactionInputs.FindSmallestBoundaryFile | VoisinMalin/Pods/leveldb-library/db/version_set.cc:1344-1362 | the first file that continues the user key, or there is none |
| CompactionInputs.AddBoundaryInputs | VoisinMalin/Pods/leveldb-library/db/version_set.cc:1378-1401 | ends with no file to the right continuing the last user key; only files that continue the user key are added; a contiguous run stays contiguous; an overlap-closed input is left alone |
| CompactionInputs.ExpandInputs | VoisinMalin/Pods/leveldb-library/db/version_set.cc:1420-1450 | the inputs are grown to the files of the level that overlap both inputs, with their boundary files, exactly if these are more, stay within the size limit and leave the next-level inputs the same in number; a grown selection is again a correct selection with the very same next-level inputs |
| CompactionInputs.SameCountSameFiles | VoisinMalin/Pods/leveldb-library/db/version_set.cc:1433-1441 | the code compares only the numbers of next-level files; as the range has grown, equally many are the same files |
| CompactionInputs.PickCompaction | VoisinMalin/Pods/leveldb-library/db/version_set.cc:1270-1322 | the picked inputs include the next file in turn after the compaction pointer (wrapping), and are overlap-closed on level 0 |
| CompactionInputs.StartFrom | VoisinMalin/Pods/leveldb-library/db/version_set.cc:1293-1319 | starting from one file gives inputs that a compaction may start from |
| CompactionInputs.CompactRange | VoisinMalin/Pods/leveldb-library/db/version_set.cc:1464-1495 | a manual range gives the overlapping files, on level 0 the least closed set of them, and above level 0 those up to the first that exceeds the size limit; none exactly if no file overlaps |
| Compactions.Compaction.IsTrivialMove | VoisinMalin/Pods/leveldb-library/db/version_set.cc:1515-1523 | true exactly for one input, none below, and a bounded grandparent overlap |
| Compactions.Compaction.SetupOtherInputs | VoisinMalin/Pods/leveldb-library/db/version_set.cc:1403-1462 | the two input sets are a correct selection (no user key of the level inputs continues outside them to the right, every overlapping next-level file is in, the chosen next-level files are contiguous), set up as the code says from the first inputs; the new pointer is the largest key; the grandparents are exactly the files of level+2 that overlap the range of all inputs |
| Compactions.Compaction.IsBaseLevelForKey | VoisinMalin/Pods/leveldb-library/db/version_set.cc:1533-1552 | the moving level pointers give the same answer as checking every file of the levels from level+2 down, for user keys in ascending order |
| Compactions.Compaction.PointersStayBehind | VoisinMalin/Pods/leveldb-library/db/version_set.cc:1533-1552 | the condition for the pointers carries over to every later user key |
| Compactions.HiddenByPredecessor | VoisinMalin/Pods/leveldb-library/db/db_impl.cc:940-965 | an entry is hidden by a newer one at or below the snapshot exactly when its predecessor in the input is one; this is what `last_sequence_for_key` finds out |
| Compactions.KeptSurvive | VoisinMalin/Pods/leveldb-library/db/db_impl.cc:940-985 | the entries that are kept are those that survive |
| Compactions.DoCompactionWork | VoisinMalin/Pods/leveldb-library/db/db_impl.cc:878-1036 | the outputs, whatever the places where they are cut, hold in order exactly the input entries that survive: no newer entry of the input hides them from the smallest snapshot, and they are no deletion at or below it whose user key lies in no file further down |
| CompactionRun.MakeInputIterator | VoisinMalin/Pods/leveldb-library/db/version_set.cc:1237-1268 | the merged iterator runs over exactly the entries of all inputs in strict order |
| CompactionRun.BuildOutputs | VoisinMalin/Pods/leveldb-library/db/db_impl.cc:786-858 | output files are valid, disjoint, numbered, and hold the pieces |
| CompactionRun.OutputsCompact | VoisinMalin/Pods/leveldb-library/db/db_impl.cc:860-876 | the files that the loop leaves are what a compaction step must install |
| CompactionSafety.RemainingIsNewer | VoisinMalin/Pods/leveldb-library/db/version_set.cc:1403-1407 | an entry left on the level is newer than every chosen entry of its user key |
| CompactionSafety.SharedKeyIsTaken | VoisinMalin/Pods/leveldb-library/db/version_set.cc:1409-1413 | a next-level file that has a user key of a chosen file is chosen too |
| CompactionSafety.OmittedIsApart | VoisinMalin/Pods/leveldb-library/db/version_set.cc:1403-1462 | an omitted next-level file lies wholly before or wholly after all inputs in internal-key order |
| CompactionSafety.ReplaceKeepsValid | VoisinMalin/Pods/leveldb-library/db/db_impl.cc:860-876 | replacing the inputs by any valid outputs keeps every level disjoint and every user key layered by age |
| CompactionSafety.EntriesAfter | VoisinMalin/Pods/leveldb-library/db/db_impl.cc:890-999 | after installation the version has exactly the entries before, less the dropped ones |
| CompactionSafety.KeepsRead | VoisinMalin/Pods/leveldb-library/db/db_impl.cc:890-999 | for a user key that is not resurrected, every read at or above the smallest snapshot is the same before and after |
| CompactionSafety.ResurrectionShows | VoisinMalin/Pods/leveldb-library/db/db_impl.cc:940-965 | for a resurrected user key the read at the smallest snapshot turns from deleted to found |
| CompactionSafety.CompactionPreservesMeaning | VoisinMalin/Pods/leveldb-library/db/db_impl.cc:890-999 | all reads at or above the smallest snapshot are preserved if and only if no user key is resurrected: its newest entry at the snapshot is an obsolete deletion among the inputs and the next, omitted level+1 file starts with an older value of it |
| CompactionSafety.VersionRead | VoisinMalin/Pods/leveldb-library/db/db_impl.cc:890-999 | one read at a time: it changes, from deleted to found, if and only if its user key is resurrected and the version has no entry of it between the smallest snapshot and the read |
| CompactionSafety.RightEdgeClosedIsSafe | VoisinMalin/Pods/leveldb-library/db/version_set.cc:1422-1422 | if the level+1 inputs are closed at their right edge as well, no user key is resurrected |
| Resurrection.CompactionCanResurrect | VoisinMalin/Pods/leveldb-library/db/version_set.cc:1407-1413 | a concrete run from the empty store, by steps that the store takes, in which every state is faithful until the last compaction brings a deleted key back: boundary inputs are added for the level only, not for level+1 |
| VersionBuilder.BySmallestIsTotal | VoisinMalin/Pods/leveldb-library/db/version_set.cc:593-606 | (smallest key, number) orders files totally |
| VersionBuilder.SortedIsUnique | VoisinMalin/Pods/leveldb-library/db/version_set.cc:593-606 | a set of files has one sorted order |
| VersionBuilder.Builder.InsertAdded | VoisinMalin/Pods/leveldb-library/db/version_set.cc:689-690 | a file enters the added set of its level once |
| VersionBuilder.Builder.Apply | VoisinMalin/Pods/leveldb-library/db/version_set.cc:650-692 | deletions and additions accumulate per level; an addition cancels an earlier deletion of its number |
| VersionBuilder.SaveLevel | VoisinMalin/Pods/leveldb-library/db/version_set.cc:695-740 | the merge loop gives exactly the files that are in the base or added and not deleted, sorted |
| VersionBuilder.Builder.SaveTo | VoisinMalin/Pods/leveldb-library/db/version_set.cc:695-754 | the same for every level |
| VersionBuilder.LogAndApply | VoisinMalin/Pods/leveldb-library/db/version_set.cc:801-825 | one edit on a version: each level sorted, with exactly the kept and the added files |
| VersionBuilder.MovePointers | VoisinMalin/Pods/leveldb-library/db/version_set.cc:650-657 | on every level stands the last compaction pointer that the edits give for it |
| VersionBuilder.Recover | VoisinMalin/Pods/leveldb-library/db/version_set.cc:924-1000 | folding all edits into one builder and saving once gives the replayed levels; log numbers, manifest and file number, last sequence and compaction pointers are the last ones given; an edit with another comparator, or a number that no edit gives, is an error and nothing else is |
| VersionBuilder.ApplyStepwise | VoisinMalin/Pods/leveldb-library/db/version_set.cc:801-825 | applying the edits one version at a time gives the replayed levels |
| VersionBuilder.ReplayedIsUnique | VoisinMalin/Pods/leveldb-library/db/version_set.cc:924-1000 | the replayed levels are determined, so both ways give the same version |
| EditCodec.EncodeItem | VoisinMalin/Pods/leveldb-library/db/version_edit.cc:41-85 | one tagged record is appended in its format |
| EditCodec.EncodeTo | VoisinMalin/Pods/leveldb-library/db/version_edit.cc:41-85 | the records of an edit in the order of the code |
| EditCodec.BodyRoundTrip | VoisinMalin/Pods/leveldb-library/db/version_edit.cc:107-205 | every kind of record is read back as written |
| EditCodec.ItemsRoundTrip | VoisinMalin/Pods/leveldb-library/db/version_edit.cc:107-205 | the records that were written are the records that are read |
| EditCodec.ItemsMakeEdit | VoisinMalin/Pods/leveldb-library/db/version_edit.cc:107-205 | the records of an edit, applied in order, make the edit again |
| EditCodec.DecodeFrom | VoisinMalin/Pods/leveldb-library/db/version_edit.cc:107-205 | of any bytes it takes exactly those that are records and nothing else, and applies them in order; what was encoded decodes to the same edit; when the receiving edit is not fresh its compaction pointers stay in front, because clearing leaves them |
| Flush.FlushKeepsValid | VoisinMalin/Pods/leveldb-library/db/version_set.cc:491-516 | a memtable newer than the version, placed on the picked level, keeps all level invariants and adds exactly its entries |
| StoreSteps.WriteKeeps | VoisinMalin/Pods/leveldb-library/db/db_impl.cc:1206-1239 | a write keeps the invariants and the agreement of reads with the history |
| StoreSteps.WrittenIsRead | VoisinMalin/Pods/leveldb-library/db/write_batch.cc:98-137 | what was written is read: at the new last sequence the last operation of the batch on a key decides, in the store and in the history, a put with its value, an empty one too, and a deletion as deleted |
| StoreSteps.OthersReadAsBefore | VoisinMalin/Pods/leveldb-library/db/write_batch.cc:98-137 | a write changes no read of a key that is not in the batch, nor any read at an earlier sequence |
| StoreSteps.SwitchKeeps | VoisinMalin/Pods/leveldb-library/db/db_impl.cc:1345-1367 | so does switching the memtable |
| StoreSteps.FlushKeeps | VoisinMalin/Pods/leveldb-library/db/db_impl.cc:491-533 | so does a flush to the picked level |
| StoreSteps.MoveKeeps | VoisinMalin/Pods/leveldb-library/db/db_impl.cc:718-728 | so does a trivial move |
| StoreSteps.CompactChangesRead | VoisinMalin/Pods/leveldb-library/db/db_impl.cc:890-999 | a compaction changes a client's read, from deleted to found, if and only if its user key is resurrected and no entry shields the read: none in a memtable at or below it, none in the version between the smallest snapshot and it |
| StoreSteps.CompactKeeps | VoisinMalin/Pods/leveldb-library/db/db_impl.cc:860-876 | a compaction keeps the invariants always, and the agreement of all reads with the history if and only if it uncovers no deleted value at the smallest snapshot |
| StoreSteps.SnapshotKeeps | VoisinMalin/Pods/leveldb-library/db/snapshot.h:57-72 | taking a snapshot keeps all; the first snapshot is the oldest |
| StoreSteps.ReleaseKeeps | VoisinMalin/Pods/leveldb-library/db/snapshot.h:79-89 | releasing one keeps all |
| StoreSteps.StepKeepsValid | VoisinMalin/Pods/leveldb-library/db/db_impl.cc:688-767 | every step keeps the invariants, and the agreement of reads unless it is an uncovering compaction, and then it does not; written entries are only added to, above the last sequence |
| StoreSteps.StepKeepsRead | VoisinMalin/Pods/leveldb-library/db/db_impl.cc:1100-1145 | a step changes what is read at a live sequence number if and only if it is a compaction that uncovers a deleted value for that very read |
| StoreSteps.EveryReachableState | VoisinMalin/Pods/leveldb-library/db/db_impl.cc:688-767 | in every run every state has disjoint and layered levels; all states up to any point read from the compaction floor up as the flat map of all writes if and only if no compaction on the way uncovers a deleted value |
| StoreSteps.RunMovesOn | VoisinMalin/Pods/leveldb-library/db/db_impl.cc:1232-1240 | along a run sequences, floor and history only grow |
| StoreSteps.SnapshotIsolation | VoisinMalin/Pods/leveldb-library/db/db_impl.cc:1100-1145 | between any two states of a run a read at a sequence number that is live at the end is the same if and only if no compaction in between uncovers a deleted value for it; otherwise nothing was found before and something is found after |
| Restarts.StepBelow | VoisinMalin/Pods/leveldb-library/db/db_impl.cc:688-767 | every step keeps the memtables newer than all that has left them, and what is below them faithful to it, if no compaction brings a deleted value back |
| Restarts.RestartKeeps | VoisinMalin/Pods/leveldb-library/db/db_impl.cc:280-378 | a crash that loses any part of the memtables keeps all invariants, and reads are then those of the writes that survive |
| Restarts.EveryStateOfLife | VoisinMalin/Pods/leveldb-library/db/db_impl.cc:280-378 | so it is after any number of crashes in any run |
| Database.MemTableAdd | VoisinMalin/Pods/leveldb-library/db/memtable.cc:75-98 | a newer entry goes to its sorted place |
| Database.InsertInto | VoisinMalin/Pods/leveldb-library/db/write_batch.cc:132-137 | a batch adds one entry per operation, numbered upward |
| Database.InstallEdit | VoisinMalin/Pods/leveldb-library/db/db_impl.cc:860-876 | the edit of a compaction, applied by the builder, replaces inputs by outputs |
| Database.InstallFlush | VoisinMalin/Pods/leveldb-library/db/db_impl.cc:535-566 | the edit of a flush adds one file |
| Database.RunCompaction | VoisinMalin/Pods/leveldb-library/db/db_impl.cc:878-1036 | the whole compaction, inputs to installed version, is a compaction step |
| Database.DB.Write | VoisinMalin/Pods/leveldb-library/db/db_impl.cc:1185-1256 | performs a write step; a read of any key at the new last sequence gives the last operation on it in the batch, found with its value or deleted, and a read of any other key what it gave before |
| Database.DB.SwitchMemTable | VoisinMalin/Pods/leveldb-library/db/db_impl.cc:1345-1367 | performs a switch step |
| Database.DB.GetSnapshot | VoisinMalin/Pods/leveldb-library/db/db_impl.cc:1166-1169 | returns the last sequence and performs a snapshot step |
| Database.DB.Release | VoisinMalin/Pods/leveldb-library/db/db_impl.cc:1171-1174 | performs a release step |
| Database.DB.Get | VoisinMalin/Pods/leveldb-library/db/db_impl.cc:1100-1145 | memtable, immutable memtable and version together give the read of the whole store, and of the history from the floor up |
| StoreIterators.StoreRunsAreDistinct | VoisinMalin/Pods/leveldb-library/db/db_impl.cc:1062-1090 | no key is in two of the child iterators of the store: memtable, immutable memtable, each level-0 file, each other level |
| StoreIterators.StoreRunsHold | VoisinMalin/Pods/leveldb-library/db/db_impl.cc:1062-1090 | merged, the child iterators run over exactly the entries of the store, sorted |
| StoreIterators.LevelIsIndexed | VoisinMalin/Pods/leveldb-library/db/version_set.cc:223-228 | an index of the largest keys of the files of a level leads through the concatenation of the files |
| Database.DB.NewIterator | VoisinMalin/Pods/leveldb-library/db/db_impl.cc:1147-1157 | an iterator over the visible map of the whole store at a snapshot, which from the floor up is that of the history |
| Database.DB.CompactMemTable | VoisinMalin/Pods/leveldb-library/db/db_impl.cc:535-566 | performs a flush step |
| Database.DB.BackgroundCompaction | VoisinMalin/Pods/leveldb-library/db/db_impl.cc:688-767 | performs a trivial move exactly if the compaction is not manual, has one input and none below, and its overlap with the files of level+2 is within the limit; otherwise a compaction with the inputs of `SetupOtherInputs` |
| Merging.MergingIterator.FindSmallest | VoisinMalin/Pods/leveldb-library/table/merger.cc:148-161 | with every child at its place the smallest child head is the next merged entry |
| Merging.MergingIterator.FindLargest | VoisinMalin/Pods/leveldb-library/table/merger.cc:163-176 | the largest child entry is the previous merged entry |
| Merging.MergingIterator.TurnForward | VoisinMalin/Pods/leveldb-library/table/merger.cc:58-76 | repositioning the other children is enough to go on forward |
| Merging.MergingIterator.TurnBackward | VoisinMalin/Pods/leveldb-library/table/merger.cc:84-104 | repositioning the other children is enough to go on backward |
| Merging.MergingIterator.Next | VoisinMalin/Pods/leveldb-library/table/merger.cc:55-79 | moves one place forward in the merged sequence, after any direction |
| Merging.MergingIterator.Prev | VoisinMalin/Pods/leveldb-library/table/merger.cc:81-108 | moves one place backward |
| Merging.MergingIterator.Seek | VoisinMalin/Pods/leveldb-library/table/merger.cc:47-53 | stands at the first merged entry at or after the target |
| Merging.MergingIterator.SeekToFirst | VoisinMalin/Pods/leveldb-library/table/merger.cc:31-37 | stands at the first merged entry |
| Merging.MergingIterator.SeekToLast | VoisinMalin/Pods/leveldb-library/table/merger.cc:39-45 | stands at the last merged entry |
| Merging.SeekSplits | VoisinMalin/Pods/leveldb-library/table/merger.cc:47-53 | seeking each child splits each run at the merged position |
| TwoLevel.FlatIsSorted | VoisinMalin/Pods/leveldb-library/table/two_level_iterator.cc:28-80 | the blocks one after the other are one sorted sequence |
| TwoLevel.TwoLevelIterator.InitDataBlock | VoisinMalin/Pods/leveldb-library/table/two_level_iterator.cc:153-170 | the data iterator is over the block that the index stands at, or there is none |
| TwoLevel.TwoLevelIterator.SkipEmptyDataBlocksForward | VoisinMalin/Pods/leveldb-library/table/two_level_iterator.cc:122-133 | skipping empty blocks forward keeps the place among all entries |
| TwoLevel.TwoLevelIterator.SkipEmptyDataBlocksBackward | VoisinMalin/Pods/leveldb-library/table/two_level_iterator.cc:135-146 | so does skipping them backward, past the beginning to the end |
| TwoLevel.TwoLevelIterator.Seek | VoisinMalin/Pods/leveldb-library/table/two_level_iterator.cc:85-90 | stands at the first of all entries at or after the target |
| TwoLevel.TwoLevelIterator.SeekToFirst | VoisinMalin/Pods/leveldb-library/table/two_level_iterator.cc:92-97 | stands at the first entry of all |
| TwoLevel.TwoLevelIterator.SeekToLast | VoisinMalin/Pods/leveldb-library/table/two_level_iterator.cc:99-104 | stands at the last entry of all |
| TwoLevel.TwoLevelIterator.Next | VoisinMalin/Pods/leveldb-library/table/two_level_iterator.cc:106-110 | one entry forward, across any number of empty blocks |
| TwoLevel.TwoLevelIterator.Prev | VoisinMalin/Pods/leveldb-library/table/two_level_iterator.cc:112-116 | one entry backward, or past the end from the first |
| DbIterator.VisibleIsTheMap | VoisinMalin/Pods/leveldb-library/db/db_iter.cc:168-198 | the visible entries are, in ascending order, exactly the user keys whose newest entry at the snapshot is a value, with that value |
| DbIterator.DBIter.FindNextUserEntry | VoisinMalin/Pods/leveldb-library/db/db_iter.cc:168-198 | finds the next visible entry, skipping what the saved key hides |
| DbIterator.DBIter.FindPrevUserEntry | VoisinMalin/Pods/leveldb-library/db/db_iter.cc:227-267 | finds the last visible entry at or before the inner position |
| DbIterator.DBIter.Next | VoisinMalin/Pods/leveldb-library/db/db_iter.cc:141-166 | moves one place forward in the visible map, after any direction |
| DbIterator.DBIter.Prev | VoisinMalin/Pods/leveldb-library/db/db_iter.cc:200-225 | moves one place backward, or past the end |
| DbIterator.DBIter.Seek | VoisinMalin/Pods/leveldb-library/db/db_iter.cc:269-281 | stands at the first visible user key at or after the target |
| DbIterator.DBIter.SeekToFirst | VoisinMalin/Pods/leveldb-library/db/db_iter.cc:283-292 | stands at the first visible user key |
| DbIterator.DBIter.SeekToLast | VoisinMalin/Pods/leveldb-library/db/db_iter.cc:294-299 | stands at the last visible user key |
| SkipList.LoadOnPath | VoisinMalin/Pods/leveldb-library/db/skiplist.h:262-281 | a link on a search path is never unset, and leads on along the level or ends the search on it |
| SkipList.PublishInserts | VoisinMalin/Pods/leveldb-library/db/skiplist.h:361-367 | setting the predecessor's link inserts the prepared node into the chain of that level |
| SkipList.RaiseKeeps | VoisinMalin/Pods/leveldb-library/db/skiplist.h:347-359 | raising the height before the node exists keeps all levels |
| SkipList.AllocateKeeps | VoisinMalin/Pods/leveldb-library/db/skiplist.h:361-361 | a fresh node with unset links changes no chain |
| SkipList.PrepareKeeps | VoisinMalin/Pods/leveldb-library/db/skiplist.h:362-365 | setting the node's own link changes no chain |
| SkipList.PublishKeeps | VoisinMalin/Pods/leveldb-library/db/skiplist.h:362-367 | each level stays sorted and a sublist of the level below, up to the node in flight |
| SkipList.ReaderSurvives | VoisinMalin/Pods/leveldb-library/db/skiplist.h:262-322 | what a reader has found so far stays good while the writer goes on |
| SkipList.LoadKeepsReader | VoisinMalin/Pods/leveldb-library/db/skiplist.h:262-322 | every load of a reader is of a set link; the last load gives the exact answer for the list of that moment |
| SkipList.StepKeepsInv | VoisinMalin/Pods/leveldb-library/db/skiplist.h:337-368 | every atomic step of writer or reader keeps the invariant; lists only grow |
| SkipList.WriterNeverStuck | VoisinMalin/Pods/leveldb-library/db/skiplist.h:337-368 | half way through an insertion the writer can always go on |
| SkipList.EveryInterleaving | VoisinMalin/Pods/leveldb-library/db/skiplist.h:337-368 | in every interleaving every level is a sorted chain within the level below, at every moment |
| SkipList.ConcurrentSearch | VoisinMalin/Pods/leveldb-library/db/skiplist.h:262-322 | a search by a reader during insertions gives the exact answer of its last load and misses no key that was present when it began |
| SkipList.NextIsAdjacent | VoisinMalin/Pods/leveldb-library/db/skiplist.h:207-210 | a load of the lowest link of a listed node is of a set link and leads to the next key in the list of that moment |
| SkipList.ConcurrentScan | VoisinMalin/Pods/leveldb-library/db/skiplist.h:207-231 | a forward scan in any interleaving visits ascending keys, never follows an unset link, and misses no key that was present when it began |
| SkipListMethods.List.constructor | VoisinMalin/Pods/leveldb-library/db/skiplist.h:325-334 | an empty list |
| SkipListMethods.List.FindGreaterOrEqual | VoisinMalin/Pods/leveldb-library/db/skiplist.h:262-281 | the first node not below the key, and on every level in use the node after which the key would go |
| SkipListMethods.List.FindLessThan | VoisinMalin/Pods/leveldb-library/db/skiplist.h:285-302 | the last node below the key, or the head |
| SkipListMethods.List.FindLast | VoisinMalin/Pods/leveldb-library/db/skiplist.h:305-322 | the last node, or the head |
| SkipListMethods.List.Contains | VoisinMalin/Pods/leveldb-library/db/skiplist.h:371-378 | true exactly for the keys in the list |
| SkipListMethods.List.LinkNode | VoisinMalin/Pods/leveldb-library/db/skiplist.h:361-367 | the linking loop inserts the node at its rank and keeps all levels |
| SkipListMethods.List.Insert | VoisinMalin/Pods/leveldb-library/db/skiplist.h:337-368 | the sorted keys with the new key at its place, for every height |
| SkipListMethods.Iterator.Next | VoisinMalin/Pods/leveldb-library/db/skiplist.h:207-210 | one place forward |
| SkipListMethods.Iterator.Prev | VoisinMalin/Pods/leveldb-library/db/skiplist.h:213-221 | one place backward, by a search |
| SkipListMethods.Iterator.Seek | VoisinMalin/Pods/leveldb-library/db/skiplist.h:224-226 | the first key not below the target |
| SkipListMethods.Iterator.SeekToFirst | VoisinMalin/Pods/leveldb-library/db/skiplist.h:229-231 | the first key |
| SkipListMethods.Iterator.SeekToLast | VoisinMalin/Pods/leveldb-library/db/skiplist.h:234-239 | the last key |
| WriteQueue.BuildBatchGroup | VoisinMalin/Pods/leveldb-library/db/db_impl.cc:1260-1306 | the group is the longest prefix of the queue that may be committed together (no sync writer behind a non-sync leader, size within the limit), and the result is its operations in order |
| WriteQueue.GroupSize | VoisinMalin/Pods/leveldb-library/db/db_impl.cc:1266-1296 | a group takes 128 KB more than a small leader at most, and 1 MB with a larger one; the writer after it would exceed that, or asks for a sync that the leader does not make |
| WriteQueue.GroupIsValid | VoisinMalin/Pods/leveldb-library/db/db_impl.cc:1271-1303 | a group never has more operations than a batch count can hold |
| WriteQueue.StepKeeps | VoisinMalin/Pods/leveldb-library/db/db_impl.cc:1185-1256 | every step of the protocol keeps the invariant |
| WriteQueue.EveryReachableState | VoisinMalin/Pods/leveldb-library/db/db_impl.cc:1185-1256 | so it holds in every reachable state |
| WriteQueue.DoneInOrder | VoisinMalin/Pods/leveldb-library/db/db_impl.cc:1241-1253 | writers are done in the order of arrival, each once, each in one group |
| WriteQueue.GroupsAreApart | VoisinMalin/Pods/leveldb-library/db/db_impl.cc:1207-1211 | groups have disjoint, increasing ranges of sequence numbers |
| WriteQueue.BatchesAreAtomic | VoisinMalin/Pods/leveldb-library/db/db_impl.cc:1207-1239 | a reader whose snapshot is the last sequence of any moment sees every batch of any later moment wholly or not at all |
| WriteQueue.OnlyCommittedIsVisible | VoisinMalin/Pods/leveldb-library/db/db_impl.cc:1213-1239 | entries at or below the last sequence are exactly those of committed groups |
| WriteQueue.SyncMeansDurable | VoisinMalin/Pods/leveldb-library/db/db_impl.cc:1216-1226 | a sync writer is never committed by a non-sync leader, and when it is done its record is on the disk |
| WriteQueue.LeaderNeverStuck | VoisinMalin/Pods/leveldb-library/db/db_impl.cc:1185-1256 | while writers wait, the first can go on |
| WriteQueue.StepIsProgress | VoisinMalin/Pods/leveldb-library/db/db_impl.cc:1185-1256 | an arrival leaves the leader's remaining work as it is, every other step lessens it or completes a group |
| WriteQueue.EveryWriterCompletes | VoisinMalin/Pods/leveldb-library/db/db_impl.cc:1185-1256 | from every reachable state, every writer that has arrived is done after finitely many steps of leaders |
| GroupCommit.FinishIsWrite | VoisinMalin/Pods/leveldb-library/db/db_impl.cc:1225-1256 | committing a group is one write step of the store, with the operations of the group |
| GroupCommit.QueueRunIsStoreRun | VoisinMalin/Pods/leveldb-library/db/db_impl.cc:1185-1256 | for every run of the queue there is a run of the store that has been written exactly what the queue has committed |
| GroupCommit.ReadersSeeTheStore | VoisinMalin/Pods/leveldb-library/db/db_impl.cc:1100-1145 | a reader whose snapshot is published reads the memtable, with whatever a leader is inserting, as the flat map of the store |
| GroupCommit.EveryBothState | VoisinMalin/Pods/leveldb-library/db/db_impl.cc:1185-1306 | queue and store together, with switches, flushes, compactions and snapshots between any two steps: the store has been written exactly what the queue has committed, and all its reads have agreed with that if and only if no compaction uncovered a deleted value |
| GroupCommit.BothReadersSeeTheSame | VoisinMalin/Pods/leveldb-library/db/db_impl.cc:1100-1145 | in any such interleaving a published read of the committed batches is the read of the store if and only if the store agrees with its history there |
| WriteBatches.WriteBatch.Put | VoisinMalin/Pods/leveldb-library/db/write_batch.cc:98-103 | appends one operation and counts it |
| WriteBatches.WriteBatch.Delete | VoisinMalin/Pods/leveldb-library/db/write_batch.cc:105-109 | appends one operation and counts it |
| WriteBatches.WriteBatch.Append | VoisinMalin/Pods/leveldb-library/db/write_batch.cc:144-148 | appends all operations of another batch |
| WriteBatches.WriteBatch.SetSequence | VoisinMalin/Pods/leveldb-library/db/write_batch.cc:94-96 | renumbers the batch and changes nothing else |
| WriteBatches.WriteBatch.Iterate | VoisinMalin/Pods/leveldb-library/db/write_batch.cc:42-80 | reads back exactly the operations that were put in, and of any bytes takes exactly those that are records and nothing else, as many as the count says |
| WriteBatches.OpRoundTrip | VoisinMalin/Pods/leveldb-library/db/write_batch.cc:42-80 | one operation is read back as written, whatever follows it |
| WriteBatches.OpsRoundTrip | VoisinMalin/Pods/leveldb-library/db/write_batch.cc:42-80 | the operations that were written are the operations that are read |
| Recovery.Replay | VoisinMalin/Pods/leveldb-library/db/db_impl.cc:418-439 | replaying the records of committed groups rebuilds their entries and the last sequence |
| Recovery.RecoverLogFile | VoisinMalin/Pods/leveldb-library/db/db_impl.cc:371-439 | after a crash in any reachable state with the log cut at any byte not before what was synced: recovery rebuilds exactly what some number of first groups wrote, each whole, with the matching last sequence, and loses no synced group |
| LogFormat.HeaderRoundTrip | VoisinMalin/Pods/leveldb-library/db/log_reader.cc:217-247 | the reader gets length and checksum back from a header, though it computes the checksum in one go and the writer in two |
| LogFormat.LogBytesAppend | VoisinMalin/Pods/leveldb-library/db/log_writer.cc:27-30 | a writer opened on an existing log makes the log of all records |
| LogFormat.NextFragment | VoisinMalin/Pods/leveldb-library/db/log_writer.cc:34-80 | one turn of the loop writes the next fragment of what is left |
| LogFormat.CompleteRecordsIs | VoisinMalin/Pods/leveldb-library/db/log_reader.cc:56-174 | the number of records that end at or before a cut, characterised by lengths |
| LogWriter.Writer.EmitPhysicalRecord | VoisinMalin/Pods/leveldb-library/db/log_writer.cc:82-108 | appends one fragment with its header |
| LogWriter.Writer.AddRecord | VoisinMalin/Pods/leveldb-library/db/log_writer.cc:34-80 | appends the record, cut into fragments at block boundaries with padded trailers |
| LogReader.Reader.ReadPhysicalRecord | VoisinMalin/Pods/leveldb-library/db/log_reader.cc:189-271 | on any file the buffered reader gives what the file says next without a buffer: a fragment with a right checksum, the end of the file, or a damaged fragment, which costs the rest of its block and is reported |
| LogReader.ExpectedPhysical | VoisinMalin/Pods/leveldb-library/db/log_reader.cc:189-271 | when the file goes on with a fragment, this is it if it is whole, and the end of file if it is cut; nothing is reported |
| LogReader.Reader.Assemble | VoisinMalin/Pods/leveldb-library/db/log_reader.cc:92-172 | what one fragment does to the record being put together, for every type of fragment, and which ones are reported |
| LogReader.Reader.ReadRecord | VoisinMalin/Pods/leveldb-library/db/log_reader.cc:56-174 | on any file the loop returns, and reports, what the fragments from here on make |
| LogReader.NothingIsMadeUp | VoisinMalin/Pods/leveldb-library/db/log_reader.cc:56-174 | on any file a record that is returned stands in it as a chain of adjacent fragments with right checksums, first to last |
| LogReader.NextOfLog | VoisinMalin/Pods/leveldb-library/db/log_reader.cc:56-174 | in a log the next record is returned exactly if the file holds all of it, and nothing is reported |
| LogReader.DamageIsContained | VoisinMalin/Pods/leveldb-library/db/log_reader.cc:189-271 | whatever stands before a block at which a log begins: what is returned ends before the block, or it is the first record of that log |
| LogReader.FalseEndStops | VoisinMalin/Pods/leveldb-library/db/log_reader.cc:189-271 | the exception: an intact fragment of type 5, which no writer makes, is taken for the end of the file |
| LogRoundTrip.ReadAll | VoisinMalin/Pods/leveldb-library/db/db_impl.cc:418-418 | reads all records that the reader gives |
| LogRoundTrip.LogIsRead | VoisinMalin/Pods/leveldb-library/db/db_impl.cc:408-439 | of a log, perhaps cut, exactly the complete records are read, in order, and nothing is reported |
| LogRoundTrip.DamagedLogIsRead | VoisinMalin/Pods/leveldb-library/db/log_reader.cc:189-271 | whatever damage stands before a block at which a log begins, the complete records of that log are the last that are read, unless a false end stands before it |
| LogRoundTrip.CutAndReadBack | VoisinMalin/Pods/leveldb-library/db/log_reader.cc:56-174 | for every list of records and every byte at which the file is cut: exactly the records that end at or before the cut are read, and no corruption is reported |
| LogRoundTrip.WholeFileHasAll | VoisinMalin/Pods/leveldb-library/db/log_reader.cc:56-174 | with an uncut file nothing is lost |
| Crc32c.ByteStepsIsLinear | VoisinMalin/Pods/leveldb-library/util/crc32c.cc:276-377 | a byte step is linear over GF(2) |
| Crc32c.TableStepIsByteSteps | VoisinMalin/Pods/leveldb-library/util/crc32c.cc:287-291 | one table step is eight bit steps of the polynomial of RFC 3720, section 12.1, whose values Crc32cValues fixes |
| Crc32c.StrideStepIsAdvance | VoisinMalin/Pods/leveldb-library/util/crc32c.cc:294-300 | four table entries advance a word by 16 zero bytes |
| Crc32c.WordIsFourBytes | VoisinMalin/Pods/leveldb-library/util/crc32c.cc:313-320 | a word at once is four bytes one by one |
| Crc32c.StrideTakesWord | VoisinMalin/Pods/leveldb-library/util/crc32c.cc:349-358 | feeding a word to the oldest stride is feeding it to the combined register |
| Crc32c.ExtendByStrides | VoisinMalin/Pods/leveldb-library/util/crc32c.cc:332-366 | the strides, the word tail and the combination leave the register of the simple form |
| Crc32c.Extend | VoisinMalin/Pods/leveldb-library/util/crc32c.cc:276-377 | for every buffer, start address and initial value the fast form is bit-at-a-time CRC-32C, given tables that meet their equations |
| Crc32c.GoodTablesExist | VoisinMalin/Pods/leveldb-library/util/crc32c.cc:20-232 | such tables exist |
| Crc32c.ExtendComposes | VoisinMalin/Pods/leveldb-library/util/crc32c.h:14-17 | the checksum of a concatenation is computed piecewise |
| Crc32c.MaskRoundTrip | VoisinMalin/Pods/leveldb-library/util/crc32c.h:29-38 | masking and unmasking undo each other |
| Crc32cValues.ByteEntries | VoisinMalin/Pods/leveldb-library/util/crc32c.cc:20-64 | the eight single-bit entries of the byte table are the words of the source |
| Crc32cValues.ByteEntriesAdd | VoisinMalin/Pods/leveldb-library/util/crc32c.cc:20-64 | every other entry is the sum of the entries of its bits, so the eight words fix the table |
| Crc32cValues.ZeroBytes | VoisinMalin/Pods/leveldb-library/util/crc32c.cc:276-377 | 32 zero bytes give 0x8a9136aa, as in section B.4 of RFC 3720 |
| Crc32cValues.OneBytes | VoisinMalin/Pods/leveldb-library/util/crc32c.cc:276-377 | 32 bytes of ones give 0x62a8ab43, as in the same section |
| Crc32cValues.MaskValues | VoisinMalin/Pods/leveldb-library/util/crc32c.h:26-32 | three masked checksums: rotation by 15 bits and the added constant |
| HandleTables.HandleTable.FindPointer | VoisinMalin/Pods/leveldb-library/util/cache.cc:114-120 | the slot of a key and hash, or the end of its bucket when no node has them |
| HandleTables.HandleTable.Lookup | VoisinMalin/Pods/leveldb-library/util/cache.cc:74-76 | finds the node exactly when there is one |
| HandleTables.HandleTable.Insert | VoisinMalin/Pods/leveldb-library/util/cache.cc:78-92 | the contents with the new node in place of the one of the same slot, across resizes |
| HandleTables.HandleTable.Remove | VoisinMalin/Pods/leveldb-library/util/cache.cc:94-102 | the contents without the node of the slot |
| HandleTables.HandleTable.Resize | VoisinMalin/Pods/leveldb-library/util/cache.cc:122-146 | rehashing keeps the contents and makes room for one node to a bucket |
| LruCache.LookupKeeps | VoisinMalin/Pods/leveldb-library/util/cache.cc:217-223 | a new reference keeps the cache invariant (table, lists, references, usage, deletions) |
| LruCache.ReleaseKeeps | VoisinMalin/Pods/leveldb-library/util/cache.cc:225-237 | so does dropping one |
| LruCache.EraseKeeps | VoisinMalin/Pods/leveldb-library/util/cache.cc:307-316 | so does erasing an entry |
| LruCache.AddKeeps | VoisinMalin/Pods/leveldb-library/util/cache.cc:280-288 | so does adding one |
| LruCache.EraseOldestEvicts | VoisinMalin/Pods/leveldb-library/util/cache.cc:293-300 | erasing the head of the LRU list deletes exactly that entry |
| LruCache.HeldIsAlive | VoisinMalin/Pods/leveldb-library/util/cache.cc:225-237 | the deleter never runs while a client holds the entry |
| LruCache.LastReleaseDecides | VoisinMalin/Pods/leveldb-library/util/cache.cc:225-237 | it runs exactly when the last reference goes; an entry that the cache keeps becomes the newest on the LRU list |
| LruCache.KeepsMemory | VoisinMalin/Pods/leveldb-library/util/cache.cc:252-303 | whatever keeps the entries keeps every cached entry the one that was inserted last for its slot |
| LruCache.AddEnters | VoisinMalin/Pods/leveldb-library/util/cache.cc:266-291 | adding an entry with or without a cache: it has what the caller gave, and of its slot no other entry stays cached |
| LruCache.LRUCache.Ref | VoisinMalin/Pods/leveldb-library/util/cache.cc:217-223 | moves an entry from the LRU list to the in-use list on its first client |
| LruCache.LRUCache.Unref | VoisinMalin/Pods/leveldb-library/util/cache.cc:225-237 | frees or moves back |
| LruCache.LRUCache.FinishErase | VoisinMalin/Pods/leveldb-library/util/cache.cc:307-316 | takes the entry out of list, usage and cache and drops the cache's reference |
| LruCache.LRUCache.Lookup | VoisinMalin/Pods/leveldb-library/util/cache.cc:252-259 | returns the cached entry of the slot with one more client, or there is none; the entry has the key, the hash and the value that was inserted last for the slot |
| LruCache.LRUCache.Release | VoisinMalin/Pods/leveldb-library/util/cache.cc:261-264 | drops one client; key, hash, value and charge of no entry change |
| LruCache.LRUCache.Insert | VoisinMalin/Pods/leveldb-library/util/cache.cc:266-303 | the new handle has the given key, hash, value and charge, cached or not, no other entry of its slot stays cached, and no other entry changes; it then evicts the oldest unused entries until the charges fit or none is left, and no more than needed |
| LruCache.LRUCache.Erase | VoisinMalin/Pods/leveldb-library/util/cache.cc:318-321 | erases the entry of the slot, if any; no other entry changes |
| LruCache.LRUCache.Prune | VoisinMalin/Pods/leveldb-library/util/cache.cc:323-333 | evicts all unused entries; no other entry changes |
| LruCache.LRUCache.Destroy | VoisinMalin/Pods/leveldb-library/util/cache.cc:205-215 | when no client holds anything, every entry ever inserted has been deleted exactly once |
| Coding.VarintRoundTrip | VoisinMalin/Pods/leveldb-library/util/coding.cc:112-157 | a varint is read back with what follows it, within the byte limit |
| Coding.EncodeVarint32 | VoisinMalin/Pods/leveldb-library/util/coding.cc:47-73 | the unrolled cases write the varint |
| Coding.EncodeVarint64 | VoisinMalin/Pods/leveldb-library/util/coding.cc:81-90 | the loop writes the varint |
| Coding.GetVarint32 | VoisinMalin/Pods/leveldb-library/util/coding.h:90-100 | fast path and loop read what the format says, on any bytes |
| Coding.GetVarint64 | VoisinMalin/Pods/leveldb-library/util/coding.cc:142-169 | reads what the format says, on any bytes |
| Coding.FixedRoundTrip | VoisinMalin/Pods/leveldb-library/util/coding.cc:9-33 | fixed-length numbers are read back |
| Coding.SliceRoundTrip | VoisinMalin/Pods/leveldb-library/util/coding.cc:98-101 | a length-prefixed slice is read back with what follows it |
| Coding.GetLengthPrefixedSlice | VoisinMalin/Pods/leveldb-library/util/coding.cc:181-190 | reads what the format says, on any bytes |
| Formats.VarintDigits | VoisinMalin/Pods/leveldb-library/util/coding.cc:81-90 | every byte of a varint holds its seven bits of the number, the lowest first, and the top bit says that more follow |
| Formats.VarintLength | VoisinMalin/Pods/leveldb-library/util/coding.cc:81-90 | a varint is as long as the number needs |
| Formats.ParseIs | VoisinMalin/Pods/leveldb-library/util/coding.cc:112-157 | of any bytes, a varint that is not too long is read as the number of its groups, shortest form or not |
| Formats.FixedDigits | VoisinMalin/Pods/leveldb-library/util/coding.cc:9-33 | every byte of a fixed-length number, the lowest first |
| Bytes.BitValues | VoisinMalin/Pods/leveldb-library/util/coding.cc:9-33 | what each bit of a byte stands for |
| Bytes.BitsAdd | VoisinMalin/Pods/leveldb-library/util/coding.cc:9-33 | a byte is the sum of its bits |
| Formats.LogLayout | VoisinMalin/Pods/leveldb-library/db/log_format.h:14-33 | blocks of 32768 bytes, headers of 7, and the numbers of the four fragment types |
| Formats.LogRecord | VoisinMalin/Pods/leveldb-library/db/log_writer.cc:82-108 | the bytes of a log with one record: masked checksum of type and payload, length, type, payload |
| Formats.BatchRecord | VoisinMalin/Pods/leveldb-library/db/write_batch.cc:5-14 | the bytes of a batch with a put and a deletion |
| Formats.EditRecord | VoisinMalin/Pods/leveldb-library/db/version_edit.cc:15-85 | the bytes of an edit with a record of every kind |
| Formats.Block | VoisinMalin/Pods/leveldb-library/table/block_builder.cc:5-27 | the bytes of a block of two entries |
| BlockFormat.DecodeEntry | VoisinMalin/Pods/leveldb-library/table/block.cc:54-74 | the fast path gives what the general path gives, on any bytes |
| BlockFormat.DecodesAt | VoisinMalin/Pods/leveldb-library/table/block.cc:54-74 | at the offset of an entry its lengths, key rest and value are decoded, and the end is the next offset |
| BlockBuilders.BlockBuilder.Add | VoisinMalin/Pods/leveldb-library/table/block_builder.cc:72-106 | one more entry with the longest common prefix shared; a restart point every interval, where nothing is shared |
| BlockBuilders.BlockBuilder.Finish | VoisinMalin/Pods/leveldb-library/table/block_builder.cc:62-70 | appends the restart array; the size is the estimate |
| BlockBuilders.BlockBuilder.Reset | VoisinMalin/Pods/leveldb-library/table/block_builder.cc:47-54 | an empty block again |
| BlockBuilders.LayoutGrows | VoisinMalin/Pods/leveldb-library/table/block_builder.cc:72-106 | the bytes stay a well-formed layout of the entries |
| BlockIterators.FinishedIsBlock | VoisinMalin/Pods/leveldb-library/table/block_builder.cc:62-70 | a finished block is what the iterator expects |
| BlockIterators.Iter.ParseNextKey | VoisinMalin/Pods/leveldb-library/table/block.cc:224-251 | stands at the next entry with its key rebuilt, its value and its restart index; false at the end |
| BlockIterators.Iter.Seek | VoisinMalin/Pods/leveldb-library/table/block.cc:163-201 | lands on the first key not less than the target |
| BlockIterators.Iter.Next | VoisinMalin/Pods/leveldb-library/table/block.cc:137-140 | one entry forward |
| BlockIterators.Iter.Prev | VoisinMalin/Pods/leveldb-library/table/block.cc:142-161 | one entry backward, or past the end from the first |
| BlockIterators.Iter.SeekToFirst | VoisinMalin/Pods/leveldb-library/table/block.cc:203-206 | the first entry |
| BlockIterators.Iter.SeekToLast | VoisinMalin/Pods/leveldb-library/table/block.cc:208-213 | the last entry |
| BlockRoundTrip.OpenBlock | VoisinMalin/Pods/leveldb-library/table/block.cc:24-39 | finds the restart array of a block, and refuses a block that is too short for it |
| BlockRoundTrip.RoundTrip | VoisinMalin/Pods/leveldb-library/table/block.cc:137-213 | the iterator over a finished block yields exactly the entries forward, and the same backward |
| Separators.FindShortestSeparator | VoisinMalin/Pods/leveldb-library/util/comparator.cc:29-50 | the key itself or a key strictly between: cut after the first byte that differs, which grows by one, exactly if that stays before the limit |
| Separators.FindShortSuccessor | VoisinMalin/Pods/leveldb-library/util/comparator.cc:52-63 | the key itself or a later one, not longer: cut after the first byte that can grow |
| Separators.FindInternalSeparator | VoisinMalin/Pods/leveldb-library/db/dbformat.cc:69-86 | the key itself or the first possible key of a user key strictly between, exactly if the shortened user key is shorter and later |
| Separators.FindInternalSuccessor | VoisinMalin/Pods/leveldb-library/db/dbformat.cc:88-101 | not before the key; the first possible key of the shortened user key exactly if that is shorter and later |
| Separators.SeparatorIsSafe | VoisinMalin/Pods/leveldb-library/db/dbformat.cc:69-86 | start <= separator < limit, and a lookup key in the gap has another user key than the limit |
| Bloom.CreateFilter | VoisinMalin/Pods/leveldb-library/util/bloom.cc:28-54 | every key that went in matches, no bit is set that no key probes, and the size is the bits asked for, in whole bytes and 64 at least |
| Bloom.KeyMayMatch | VoisinMalin/Pods/leveldb-library/util/bloom.cc:56-80 | true exactly when all probed bits are set, or for reserved encodings |
| Bloom.ProbeValues | VoisinMalin/Pods/leveldb-library/util/bloom.cc:28-54 | probes of two hash values |
| FilterBlocks.FilterBlockBuilder.StartBlock | VoisinMalin/Pods/leveldb-library/table/filter_block.cc:21-27 | one filter for each 2 KB window so far; what is covered stays covered |
| FilterBlocks.FilterBlockBuilder.GenerateFilter | VoisinMalin/Pods/leveldb-library/table/filter_block.cc:51-75 | the new filter covers the keys that waited |
| FilterBlocks.BlockMayMatch | VoisinMalin/Pods/leveldb-library/table/filter_block.cc:90-104 | no false negatives; where there is a filter, it decides |
| TableBuilders.TableBuilder.Add | VoisinMalin/Pods/leveldb-library/table/table_builder.cc:94-123 | keeps blocks in order, index keys as separators and filters covering, across any block boundaries |
| TableBuilders.TableBuilder.Flush | VoisinMalin/Pods/leveldb-library/table/table_builder.cc:125-194 | writes the block at the end of the file, with its five bytes of trailer, and starts the next filter window |
| TableBuilders.TableBuilder.Finish | VoisinMalin/Pods/leveldb-library/table/table_builder.cc:213-253 | the finished table is valid and holds exactly what was added |
| Tables.InternalGet | VoisinMalin/Pods/leveldb-library/table/table.cc:216-244 | with one block read at most: an entry of the looked-up user key comes back exactly if it is the first entry at or after the key in the whole table |
| Tables.NextBlockIsAnotherUser | VoisinMalin/Pods/leveldb-library/table/table.cc:216-244 | when the index leads to a block without an answer, the first later entry has another user key |
| PbEncode.Write | VoisinMalin/Pods/nanopb/pb_encode.c:103-124 | counts, and writes what fits |
| PbEncode.EncodeVarint | VoisinMalin/Pods/nanopb/pb_encode.c:608-628 | writes the base-128 varint |
| PbEncode.EncodeSVarint | VoisinMalin/Pods/nanopb/pb_encode.c:630-639 | the shift and complement are the zigzag form |
| PbEncode.EncodeTagForField | VoisinMalin/Pods/nanopb/pb_encode.c:675-707 | tag and wire type of the field |
| PbEncode.EncValue | VoisinMalin/Pods/nanopb/pb_encode.c:769-912 | each kind of value in its form |
| PbEncode.EncodeArrayField | VoisinMalin/Pods/nanopb/pb_encode.c:147-236 | arrays packed where the kind allows, each element with a tag otherwise |
| PbEncode.PackedSize | VoisinMalin/Pods/nanopb/pb_encode.c:165-193 | the size of a packed array, computed or by a sizing pass, is that of its bytes |
| PbEncode.CheckProto3DefaultValue | VoisinMalin/Pods/nanopb/pb_encode.c:240-337 | true exactly for the recursive default predicate; for a proto3 field exactly if it is zero: the number 0, no bytes, no character before the NUL, or a submessage that holds nothing |
| PbEncode.EncodeBasicField | VoisinMalin/Pods/nanopb/pb_encode.c:341-426 | a field is written exactly if it is present; for one that holds nothing the stream stays as it is |
| PbEncode.EncodeSubmessage | VoisinMalin/Pods/nanopb/pb_encode.c:717-765 | sizing and writing agree, so a changed size is never reported |
| PbEncode.Encode | VoisinMalin/Pods/nanopb/pb_encode.c:528-550 | on a sizing and on a writing stream: succeeds exactly if the message can be encoded and there is room, and then writes or counts exactly its bytes |
| PbEncode.SizeThenEncode | VoisinMalin/Pods/nanopb/pb_encode.c:567-576 | the sizing run counts exactly the bytes of the writing run; writing succeeds exactly if sizing does and the buffer is at least that size; sizing succeeds exactly if every array that is written fits its room |
| PbWritten.DefaultIsZero | VoisinMalin/Pods/nanopb/pb_encode.c:240-337 | a proto3 field counts as default exactly if it is zero, for every kind |
| PbWritten.AllDefaultHoldsNothing | VoisinMalin/Pods/nanopb/pb_encode.c:290-308 | a message of defaults is one of zero proto3 fields and absent optional, repeated and union fields, without required fields and fixed-count arrays |
| PbWritten.LeftOutExactly | VoisinMalin/Pods/nanopb/pb_encode.c:240-426 | a field is encoded as no bytes exactly if it holds nothing, for every kind and rule |
| PbWritten.EmptyExactly | VoisinMalin/Pods/nanopb/pb_encode.c:528-550 | a message is encoded as no bytes exactly if all of its fields are |
| PbWritten.EncodingSucceeds | VoisinMalin/Pods/nanopb/pb_encode.c:147-236 | encoding succeeds exactly if every array that is written, at any depth, fits its room |
| PbExamples.Tags | VoisinMalin/Pods/nanopb/pb_encode.c:675-707 | the tag bytes of every wire type |
| PbExamples.Numbers | VoisinMalin/Pods/nanopb/pb_encode.c:769-840 | literal encodings of booleans, unsigned and zigzag numbers |
| PbExamples.MinusOne | VoisinMalin/Pods/nanopb/pb_encode.c:769-806 | a negative number takes ten bytes in every width |
| PbExamples.FixedNumbers | VoisinMalin/Pods/nanopb/pb_encode.c:641-673 | literal encodings of fixed-size numbers |
| PbExamples.Strings | VoisinMalin/Pods/nanopb/pb_encode.c:842-912 | literal encodings of bytes, of fixed-length bytes and of a string up to its NUL |
| PbExamples.MessageBytes | VoisinMalin/Pods/nanopb/pb_encode.c:528-550 | the bytes of a message with a number, a packed array, an array of strings, a submessage and an absent field |
| PbRestore.AllDefaultIsDecoded | VoisinMalin/Pods/nanopb/pb_encode.c:290-308 | a message that is omitted as default is restored by a message in its initial state |
| PbRestore.DefaultIsInitial | VoisinMalin/Pods/nanopb/pb_decode.c:839-919 | before decoding every field is absent, empty, zero, or the default that its descriptor gives, at any depth |
| PbRestore.DefaultIsReady | VoisinMalin/Pods/nanopb/pb_decode.c:1078-1090 | a message in its initial state may be decoded into, whatever comes |
| PbRestore.MergedIsDecoded | VoisinMalin/Pods/nanopb/pb_decode.c:1078-1090 | what is merged into the initial state is what was sent, and the initial state for the rest, at any depth |
| PbRestore.DecodedIsSame | VoisinMalin/Pods/nanopb/pb_decode.c:839-900 | what was written, with defaults for the rest, is the message if and only if no zero of a proto3 field is lost to another default of its descriptor, at any depth |
| PbRestore.PlainIsKept | VoisinMalin/Pods/nanopb/pb_decode.c:870-886 | a descriptor that gives proto3 fields no default of their own loses no zero |
| PbBounds.DefaultFits | VoisinMalin/Pods/nanopb/pb_decode.c:839-919 | the initial message fits its struct |
| PbDecodeScalars.DecodeVarint32 | VoisinMalin/Pods/nanopb/pb_decode.c:187-247 | of any bytes reads exactly the varints of numbers of 32 bits, shortest form or not, with the spare bytes that a sign extension may have; the end of the stream is reported exactly when nothing is left at the first byte; what the encoder writes is read back |
| PbDecodeScalars.DecodeVarint | VoisinMalin/Pods/nanopb/pb_decode.c:255-275 | of any bytes reads exactly the varints of ten bytes or fewer, bits above 64 dropped; what the encoder writes is read back |
| PbDecodeScalars.EncodedIsVarint | VoisinMalin/Pods/nanopb/pb_encode.c:608-628 | what the encoder writes for a number is a varint of it, as short as possible |
| PbDecodeScalars.ZigZagRoundTrip | VoisinMalin/Pods/nanopb/pb_decode.c:1279-1291 | zigzag numbers are read back |
| PbDecodeScalars.SignedRoundTrip | VoisinMalin/Pods/nanopb/pb_decode.c:1339-1374 | sign-extended numbers of each width are read back |
| PbDecode.MakeSubstream | VoisinMalin/Pods/nanopb/pb_decode.c:372-400 | the substream is the prefixed bytes and the rest follows |
| PbDecode.SkipField | VoisinMalin/Pods/nanopb/pb_decode.c:277-331 | a payload of any wire type (a varint of any length, 8 bytes, a size with its bytes, 4 bytes) is skipped wholly and nothing after it; for varints and fixed sizes nothing else is |
| PbDecode.DecodeTag | VoisinMalin/Pods/nanopb/pb_decode.c:298-319 | a tag is read back; at the end of the input, and at a zero byte, the message ends |
| PbDecode.FindField | VoisinMalin/Pods/nanopb/pb_common.c:78-95 | going round from any place finds the field of the tag, or there is none |
| PbDecode.DecString | VoisinMalin/Pods/nanopb/pb_decode.c:1481-1517 | a string is read exactly when it leaves room for the NUL |
| PbDecode.DecodeValue | VoisinMalin/Pods/nanopb/pb_decode.c:1328-1564 | each kind of value is restored from every encoding that it may have, a submessage merged into what is there, except that it is refused exactly when a string in it fills its array; any other bytes give a value that fits its struct or an error |
| PbDecode.DecodePackedArray | VoisinMalin/Pods/nanopb/pb_decode.c:422-449 | all elements of a packed run are restored behind those that came before; whatever the bytes, no more than there is room for |
| PbDecode.DecodeElement | VoisinMalin/Pods/nanopb/pb_decode.c:451-462 | one element of an array is restored behind those that came before; whatever the bytes, no more than there is room for |
| PbDecode.DecodeOneOf | VoisinMalin/Pods/nanopb/pb_decode.c:464-478 | a field of a union is stored and the others are not; a submessage is merged into what is there only if it is the field that was stored |
| PbDecode.DecodeStaticField | VoisinMalin/Pods/nanopb/pb_decode.c:406-483 | one unit is taken and restored, for every rule of the field, and nothing else of the message changes but the has-flags of its union |
| PbDecode.MissingRequired | VoisinMalin/Pods/nanopb/pb_decode.c:1033-1073 | true exactly if one of the first 64 required fields has not been seen |
| PbDecode.DecodeNoinit | VoisinMalin/Pods/nanopb/pb_decode.c:928-1076 | into any message that has no elements yet where some come: of a message in any form in which it may come (units in any order, numbers of arrays packed or not, units of unknown tags and superseded values between them, ended by the input or by a zero byte, at any depth) what comes takes the place of what was there, submessages are merged, of a union the last is stored, and all else stays; it fails exactly if a first required field or the rest of a fixed-count array is missing or a string fills its array; any other bytes give a message that fits its struct or an error |
| PbDecode.Decode | VoisinMalin/Pods/nanopb/pb_decode.c:1078-1090 | the same from the defaults of the descriptor: what was sent, and for the rest the initial state |
| PbWire.UnknownMayCome | VoisinMalin/Pods/nanopb/pb_decode.c:957-989 | a unit of an unknown tag may come at any place between the units of a message |
| PbCanonical.UnitSplits | VoisinMalin/Pods/nanopb/pb_encode.c:528-550 | what is left of an encoding is a tag, a payload and the rest |
| PbCanonical.MessageIsMessage | VoisinMalin/Pods/nanopb/pb_encode.c:528-550 | what the encoder writes is one of the forms in which a message may come |
| PbProgress.UnitTaken | VoisinMalin/Pods/nanopb/pb_decode.c:944-1022 | a unit of the message brings decoding on by its values, whatever came before |
| PbProgress.OldTaken | VoisinMalin/Pods/nanopb/pb_decode.c:406-483 | a number, bytes or a string that a later one supersedes leaves no trace |
| PbProgress.EndsComplete | VoisinMalin/Pods/nanopb/pb_decode.c:1025-1076 | at the end of a complete message everything that was sent is restored, every fixed-count array is complete and every required field was seen |
| PbProgress.EndsIncomplete | VoisinMalin/Pods/nanopb/pb_decode.c:1025-1076 | at the end of another the decoder finds what is missing |
| PbRoundTrip.RoundTrip | VoisinMalin/Pods/nanopb/pb_decode.c:1078-1090 | encode, then decode: it succeeds if and only if no string that was written fills its array; the result is what was written with defaults for the rest, and that is the message (every present field restored, what was absent absent) if and only if no zero is lost to another default |
| PbRoundTrip.ReadAnyForm | VoisinMalin/Pods/nanopb/pb_decode.c:928-1090 | a message that comes in any form is restored if and only if it is complete and no string fills its array, and is the same if and only if no zero is lost to another default |
| PbRoundTrip.UnknownIsSkipped | VoisinMalin/Pods/nanopb/pb_decode.c:957-989 | a literal input with an unknown 64-bit field before the field of the descriptor |
| PbRoundTrip.FullStringIsRefused | VoisinMalin/Pods/nanopb/pb_decode.c:1489-1512 | a message with one full string, which is encoded and not decoded |
| PbRoundTrip.ZeroIsLost | VoisinMalin/Pods/nanopb/pb_encode.c:310-330 | a proto3 number 0 whose descriptor has the default 5, which does not come back |

## Left out

- I/O errors, status codes and background errors of LevelDB: only error-free runs of the store are modelled. Damaged logs, batches, edits and varints are, in LogReader, WriteBatches, EditCodec and Coding; damaged blocks and tables are not.
- The flush that runs inside `DoCompactionWork` while the mutex is released: flush and compaction are separate atomic steps; nothing is claimed about that interleaving.
- User keys of the store, the merging and user iterators and the skip list are real numbers, which stand for any countable total order; the bytewise order appears where separators matter (Separators).
- Compaction scores, seek statistics, read sampling, output splitting by size and grandparents, and approximate sizes: which compaction runs and where outputs are cut are arbitrary.
- The choice of log and file numbers, deletion of obsolete files, the order in which several logs are recovered, reuse of a log, `repair.cc`, locking and shutdown.
- Restarts.RestartKeeps: that the manifest brings the version back is VersionBuilder.Recover, and that a log brings its entries back is Recovery.RecoverLogFile; here the version is kept and any part of the memtables may be lost.
- Weak memory ordering: steps of the skip list are sequentially consistent; the heights are arbitrary in 1 to 12.
- Merging.MergingIterator.FindSmallest: children with equal keys are not modelled, because the runs of a store have pairwise distinct internal keys.
- Merging.MergingIterator.constructor: the children are cursors over sorted sequences; that a concatenating iterator walks over such a sequence is TwoLevel.TwoLevelIterator, which is not itself a child here.
- Two lists of the cache are sequences of entries and buckets are sequences of nodes; their pointers are not modelled. Sharding is not modelled.
- Tables.InternalGet: blocks are sequences of entries here; that the bytes of a block are read back as its entries is BlockRoundTrip.RoundTrip. The byte layout of filter block, block handles and footer, the block cache, checksums of blocks and Snappy are left out.
- Bloom.CreateFilter: the array is a sequence of bits, and the hash any function.
- BlockIterators.Iter.ParseNextKey: damaged blocks are not modelled; the branches for them cannot be reached from finished blocks.
- Crc32c.Extend: the hardware-accelerated path is left out; the 1280 literal table entries are not copied, their defining equations are a precondition.
- LogReader.Reader.ReadRecord: reading starts at offset 0 and verifies checksums; resynchronisation from another offset is left out.
- VersionGet.SearchRun: a table is one sorted run here; index, filter and block are the subject of Tables.
- Database.DB.Write: the queue, the log record and the sync are the subject of WriteQueue; that a committed group is a write step is GroupCommit.QueueRunIsStoreRun.
- WriteQueue.EveryReachableState: sequence numbers up to 2^56 - 1 are assumed to be enough; waiting for room in the memtable is not modelled; one log stands for the logs between memtable switches.
- Recovery.RecoverLogFile: the table that is written when a recovered memtable is full is left out.
- WriteBatches.WriteBatch.Iterate: the operations are returned at once; what a handler has been given before an error is found is not modelled.
- EditCodec.DecodeFrom: the order of checks within a malformed record is not modelled beyond failing.
- PbEncode.Encode: callbacks, extensions, pointer fields and streams with I/O are left out; sizes are assumed to fit `size_t`.
- PbDecode.Decode: that the submessages of one message may themselves come in several units is not among the forms of PbWire (PbDecode.DecodeNoinit says that each unit is merged into what is there), and only numbers, bytes and strings may be superseded. A known unit has a wire type of its field there, which the code does not check. A union field, and the elements of an array, are not initialised by the code; here they are zero.
- PbDecodeScalars.DecodeVarint32: of varints of more than 37 bytes, where the position of a bit wraps round in its 8 bits, only the end is claimed.
- Swift sources, Firebase, BoringSSL and other network libraries of the repository.
