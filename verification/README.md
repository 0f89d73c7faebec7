# HCDB in Dafny

HCDB is a key-value engine made of a log, a sorted memtable and immutable sorted
tables. Every write gets a sequence number, readers may pin a snapshot, and
compaction merges tables while dropping versions that no snapshot can reach.
This project models that engine and proves what it is for: a read returns the
last write it may see, in every state of every run, through flushes,
compactions, crashes and reopens.

## How it is built

- **Keys and levels.** `InternalKey`, `Versions`, `Seek`, `MemTable`. A level is a
  sequence of versions. Its meaning is the newest version visible at a snapshot
  (`Newest`), and the meaning of the whole engine is the history of writes, in
  which write n has number n (`LastWrite`). The level invariant is `Pairwise`:
  whatever a lower level holds that is newer than a version in a higher level is
  in that higher level too. The weaker `Shadowed`, which also accepts it in a level
  above, is exact for level-order search.
- **Compaction.** `Merge`, `Grouping`, `Compaction`, `GroupOrder`, `Levels`, and
  `ReopenOrder` for the order in which a reopen finds the outcomes. `FileSize`
  computes how long table files are, builds tables of any given sizes, and says
  exactly for which sizes a compaction keeps lookups.
- **State machine.** `Store` holds the state, the events (a crash may fall between
  any two), what events are possible, and the guards that reads rest on.
  `StoreInvariant` is the invariant and its preservation event by event, `Recovery`
  the crash and reopen, `Prefix` when a crash leaves one prefix of the writes for
  all keys, `Runs` the theorems about runs that meet the guards, and `Unguarded`
  those about all runs. `Flushing` is a flush that runs to its end, and `Disk` what
  a compaction leaves on disk. `Reach` restricts runs to what the engine does
  between crashes: table files have the length that their contents give them, and a
  full memtable takes no write. `Failures` has such runs, one for each guard.
- **The engine object.** `Database` is the imperative engine, with `TableSet` and
  `TableDir` for its loops over tables and files. It carries a ghost `Store`, and
  each of its methods is proved to carry out the store's events.
- **Tables.** `Table` (blocks, sparse index, iterator, lookup), `Bloom`,
  `BlockCodec`, `TableFile`, `TableWriter`, `SSTable` (the byte layout, from two
  writers back through the reader), `FileLookup` (a lookup on the bytes through the
  cache), `FileNames`.
- **Scan.** `Scan`, `ScanAt`: the queue-driven merge of all levels.
- **Log.** `Framing` states torn-tail and replay laws for any format of framed
  items from four pointwise laws of the format. `Wal` proves those laws of the
  record format, and `EntryLog` carries them over to versions.
- **Cache and wire protocol.** `Cache`, `Resp`, with `Decimal` and `Bytes` below.
- **Byte by byte.** `Layout` says of every file format where each field stands and
  how it is spelled, and `Wire` the same of the protocol, in literal bytes. Order of
  keys and of bytes in numbers have definitions of their own in `Bytes`.

CRC-32 and FNV are parameters: every theorem holds for every checksum function
and every pair of hash functions. Sequence numbers are limited to 2^56 - 1 as in
the trailer. Sizes and offsets that the source stores in 32 or 64 bits are
written out as such.

## What the code does not promise unconditionally

Some things that one would like to hold do not. Each has its exact condition here,
and an input or a run on which it fails.

- Level-order search finds the newest version exactly for shadowed levels
  (`FirstHitIsNewestIff`).
- A compaction of table files of given sizes keeps all lookups exactly when its
  groups, empty tables apart, come out in table order, and they survive a reopen
  exactly when the order in which it finds the outcomes is the table order too
  (`CompactionKeepsLookupsIff`). Without empty tables that is to say that only the
  first group merges (`FullOrderIff`). `OutOfOrderRunFails` is a run with four
  tables, short and long by turns, whose compaction answers with a value that had
  been replaced. `LaterMergeRunFails` is one with a long table over three short ones,
  which reads right until the engine is reopened.
- A snapshot survives every merge exactly when it is at or above the floor, or is 0
  (`SafeAtIff`). `GetSnapshot` loads the number and pins it in two steps. Reads at a
  number loaded earlier are right in every run exactly when it is 0 or no compaction
  has dropped below it in between (`LatePinIff`). Another pin at or below it ensures
  that too. `LatePinFails` has, for every other number and drop floor, a run whose
  read misses a write.
- Between the install of a flushed table and the reset of the log, a crash that
  loses part of the log leaves all lookups right exactly when no key has both a
  surviving and a lost record (`UnsyncedInstallIff`), because a flush does not sync
  the log first. In `UnsyncedInstallFails` eleven writes of a key are read as ten.
  Each single key still reads as after a prefix of the writes (`AnyCrashReads`). All
  keys read as after one and the same prefix exactly when every lost record of a key
  that keeps a record comes after every lost record of the other keys
  (`PrefixRecoveryIff`). In `NoCommonPrefix` a twelfth write, of another key, is read
  while the eleventh is lost.

Theorems about reads over whole runs carry these conditions as guards of the
events concerned. A comment in internal/base/internal.go says that a search key
sorts before every visible version and after every other. It does so only for keys
of a valid kind (`SearchKeyCutsIff`).

## Model

| member | source | states |
|---|---|---|
| InternalKeys.TrailerRoundTrip | internal/base/internal.go:83-95 | number and kind come back out of the packed trailer exactly for numbers of at most 56 bits |
| InternalKeys.KeyRoundTrip | internal/base/internal.go:133-147 | decoding undoes encoding, and encoding undoes decoding on every string long enough for a trailer |
| Bytes.CompareIsLexicographic | internal/base/internal.go:149-159 | one user key comes before another exactly when it is a proper prefix of it or has the smaller byte where they first differ |
| Bytes.PutIsLittle | internal/base/internal.go:163-166 | integers are stored least significant byte first |
| Layouts.KeyLayout | internal/base/internal.go:62-87 | a stored key is the user key, one byte of kind and seven of number; deletes are of kind 0 and writes of kind 1 |
| Layouts.ShortKey | internal/base/internal.go:133-147 | a string too short for a trailer decodes to a key of kind 255 |
| InternalKeys.EncodeInto | internal/base/internal.go:163-166 | writing into a caller's buffer fills exactly the encoding and leaves the rest |
| InternalKeys.KeyOrderTotal | internal/base/internal.go:153-159 | the key order is total, and only equal keys compare equal |
| InternalKeys.KeyOrderTransitive | internal/base/internal.go:153-159 | the key order is transitive |
| InternalKeys.SearchKeyCuts | internal/base/internal.go:128-130 | the search key at a snapshot separates the visible versions of a user key from the others |
| InternalKeys.SearchKeyCutsIff | internal/base/internal.go:128-130 | it does so at every snapshot exactly for keys of a valid kind |
| Watermarks.Watermark.Begin | internal/base/watermark.go:21-25 | the reference counts are the multiset of outstanding pins, plus one |
| Watermarks.Watermark.Done | internal/base/watermark.go:28-36 | the multiset loses one pin, and an unpinned number changes nothing |
| Watermarks.Watermark.GetFloor | internal/base/watermark.go:42-53 | the floor is the least outstanding pin, or the maximum without pins |
| Watermarks.FloorIsUnique | internal/base/watermark.go:42-53 | that minimum is unique |
| MemTables.InsertMembers | memtable/memtable.go:39-47 | insertion adds the entry and replaces only one with the same key |
| MemTables.InsertAllElems | memtable/memtable.go:39-47 | versions accumulate: the tree of writes with distinct keys is sorted and holds exactly them |
| MemTables.MemTable.Put | memtable/memtable.go:39-47 | tree and size after an insert, sortedness kept, whatever the kind of the key |
| MemTables.MemTable.Get | memtable/memtable.go:52-75 | where the seek lands, and among keys of a valid kind the newest version visible at the snapshot, with a tombstone told apart from absence |
| MemTables.MemTable.Collect | memtable/iterator.go:22-44 | the eager iterator collects the range from the seek on |
| MemTables.Walk | memtable/iterator.go:29-41 | the collecting callback computes the range function |
| MemTables.RangeMembers | memtable/iterator.go:29-41 | the range holds exactly the visible entries up to the upper bound |
| Seeking.SeekFindsFirstVisible | memtable/memtable.go:58-65 | in a sorted level the entry after the search key is the first visible version, or there is none |
| Versions.FirstVisibleIsNewest | db/operations.go:36-52 | inside one level the first visible version is the newest |
| Versions.FirstHitIsNewest | db/db.go:113-127 | over shadowed levels the first level with a hit holds the newest version |
| Versions.FirstHitIsNewestIff | db/db.go:113-127 | level-order search is right for every key and snapshot exactly when the levels are shadowed |
| Versions.PairwiseIsShadowed | db/db.go:113-127 | the inductive level invariant implies the exact condition |
| Versions.CoveringReadsHistory | db/operations.go:40-52 | the newest version in what is still stored is the last write of the history |
| Versions.LastWriteStable | db/operations.go:21-25 | later writes do not change what a snapshot reads |
| Versions.WriteUpdates | db/operations.go:107-114 | after one more write its key answers with it at every snapshot from its number on, and all other keys and earlier snapshots as before |
| Merging.MergeIterators | compaction/merge.go:43-65 | the two loops and the sort compute the merge function |
| Merging.MergeElems | compaction/merge.go:43-65 | the output is sorted and holds only input entries |
| Merging.MergePreservesNewest | compaction/merge.go:27-42 | for every key and every snapshot at or above floor the newest version, tombstones included, is kept |
| Merging.MergeKeepsOneLow | compaction/merge.go:31-35 | each key keeps at most one version at or below floor |
| Merging.SafeAtIff | compaction/merge.go:31-35 | a snapshot is safe under every merge of numbered versions exactly when it is at or above floor, or is 0 |
| Merging.DropsBelowFloor | compaction/merge.go:52-59 | for every snapshot from 1 on below floor, tables whose needed version the merge drops |
| Merging.MergeDominates | compaction/merge.go:43-65 | what dominated each input of a merge dominates its output |
| Merging.MergeDominatesInputs | compaction/merge.go:43-65 | the merged table may stand in front of its own inputs, as it does until they are deleted |
| Merging.SortEntriesSorted | sstable/sort_entries.go:10-18 | a sorted permutation by internal key |
| Grouping.IsSimilarSizeMeaning | compaction/is_similar_size.go:5-13 | similarity is symmetric and means that both sizes are positive and each is less than three times the other, integer division having rounded the factor of two |
| Grouping.GroupBySimilarSize | compaction/group_by_similar_size.go:9-45 | the loops over the used array compute the grouping function |
| Grouping.GroupsAreGrouping | compaction/group_by_similar_size.go:23-42 | the groups partition the tables, each in table order, each member similar to its seed |
| Compaction.OutcomesPreserveNewest | compaction/compact.go:26-42 | whatever the order of groups, nothing a snapshot at or above floor needs is lost |
| Compaction.OutcomesPairwise | compaction/compact.go:26-42 | groups in table order, empty tables apart, keep the level invariant |
| Compaction.OutcomesSameHit | compaction/compact.go:16-54 | with groups in table order, empty tables apart, every lookup at or above floor is the same before and after |
| Compaction.OutOfOrderFails | compaction/compact.go:26-42 | with an older version in an earlier group than the newer one, the lookup after the compaction returns the older one |
| ReopenOrders.ReopenRestoresOrder | compaction/merge.go:23-24 | when only the first group merges, a reopen lists the outcomes in the compacted order |
| ReopenOrders.LaterMergeFails | compaction/merge.go:23-24 | with an older version in a later group that merges, the lookup after a reopen returns the older one |
| ReopenOrders.ReopenedIsOrder | sstable/reader.go:76-79 | a reopen finds the outcomes of the groups in one fixed order: merged ones first, the last of them foremost, then the others |
| ReopenOrders.OrderPartition | sstable/reader.go:76-79 | in that order the groups still partition the tables |
| ReopenOrders.OrderIff | compaction/merge.go:23-24 | that order is the table order exactly when the groups come out in order and no group after the first merges |
| FileSizes.SinglesSize | sstable/writer.go:63-168 | the length of the file of a table with one entry to the block |
| FileSizes.CrossingOfSizes | compaction/group_by_similar_size.go:9-18 | for all attainable sizes and any two places, tables that together hold the writes 1, 2, 3 and so on, sorted and accepted by Put, with an older and a newer version of a key in these places |
| FileSizes.StockIsSized | compaction/group_by_similar_size.go:9-18 | the files of these tables have exactly the given sizes |
| FileSizes.KeepsLookupsAsIff | compaction/compact.go:26-42 | putting the outcomes of any groups, in any order, for tables of these file sizes keeps all lookups exactly when the tables that hold anything stay in table order |
| FileSizes.KeepsLookupsIff | compaction/compact.go:16-54 | compaction of tables of these file sizes keeps all lookups exactly below the threshold or with groups, empty tables apart, in table order |
| FileSizes.KeepsLookupsReopenedIff | sstable/reader.go:76-79 | lookups survive compaction and reopen exactly when the order that the reopen finds is, empty tables apart, the table order |
| FileSizes.FullOrderIff | compaction/compact.go:26-42 | without empty tables these two conditions are groups in order, and besides no merge after the first group |
| FileSizes.EngineEmptyIsShortest | sstable/writer.go:63-168 | only the file of an empty table is as short as that |
| FileSizes.CompactionKeepsLookupsIff | compaction/compact.go:16-54 | both, for the lengths of the files that the engine writes, those of empty tables included |
| FileSizes.OutOfOrderTables | compaction/compact.go:26-42 | for all sizes and groups out of order, tables of these very sizes whose lookup through the outcomes is stale |
| FileSizes.ShortLongShortLong | compaction/group_by_similar_size.go:23-42 | files short and long by turns form two interleaved groups |
| FileSizes.StaleRead | compaction/compact.go:16-54 | four such files whose compaction answers with the first version of a key in place of its second |
| GroupOrder.InOrderIffConcat | compaction/compact.go:26-42 | groups are in table order exactly when, written one after the other, they are the table list |
| GroupOrder.FirstGroupIsPrefix | compaction/compact.go:44-51 | if only the first group merges, in order, it is the newest tables and every other group one table in its place |
| Levels.WriteKeepsOver | db/operations.go:72-74 | a write with the highest number keeps the memtable over the tables |
| Levels.FlushKeepsPairwise | db/db.go:149-150 | prepending the memtable keeps the level invariant |
| StoreInvariants.ReadIsLastWrite | db/operations.go:40-52 | under the invariant a read at or above the drop floor returns the last write it may see |
| StoreInvariants.WriteInv | db/operations.go:56-96 | a write keeps the invariant |
| StoreInvariants.InstallInv | db/db.go:143-150 | installing the memtable as the newest table keeps it |
| StoreInvariants.ResetLogInv | db/db.go:168-177 | resetting the log keeps it |
| StoreInvariants.StartInv | db/db.go:156 | starting a compaction at the watermark's floor keeps it |
| StoreInvariants.MergeNextInv | compaction/compact.go:26-42 | each merge of a group keeps it, also for the files on disk |
| StoreInvariants.FinishMergingInv | db/db.go:163 | putting the outcomes in place keeps it |
| StoreInvariants.DeleteNextInv | compaction/compact.go:44-51 | each deletion of a merged file keeps it |
| Recovery.CrashReplay | wal/replay.go:37-131 | after a crash the log replays to exactly its whole surviving records, the durable ones among them |
| Recovery.SeqNumRestored | db/db.go:57 | the highest number in log and tables is that of the last surviving write |
| Recovery.CrashInv | db/db.go:16-60 | a crash at any step and a reopen keep the invariant, and lose at most the last nine writes |
| Recovery.UnsyncedInstallIff | db/db.go:142-154 | a crash between install and log reset leaves lookups right exactly when no key has both a surviving and a lost record |
| Recovery.CutRead | db/db.go:142-154 | whatever such a crash leaves of the log, each key reads as after all writes before the first lost record, or as after all writes |
| Prefixes.DecidesIs | db/db.go:142-154 | it is the former exactly for a key that keeps a record |
| Prefixes.InstalledPrefix | db/db.go:142-154 | one prefix for all keys, lacking at most nine writes, if every lost record of a key that keeps a record comes after every lost record of the other keys |
| Prefixes.InstalledPrefixIff | db/db.go:142-154 | there is such a prefix exactly in that case |
| Runs.RunInv | db/operations.go:21-114 | every state of every run satisfies the invariant |
| Runs.ReadsAreLastWrites | db/operations.go:36-52 | in every state of every run a read at a pinned snapshot or of the latest state is the last write it may see |
| Runs.SnapshotIsolation | db/operations.go:18-30 | reads at a snapshot pinned in two states agree, whatever happened between |
| Runs.SnapshotFreezes | db/operations.go:18-30 | from when a snapshot is taken until it is released, reads at it return what reads of the latest state returned then |
| Runs.PrefixRecovery | db/db.go:16-87 | after a crash at any step every key reads as after one prefix of the issued writes that lacks at most the last nine; right after a table's install this asks for that order of the lost records |
| Runs.PrefixRecoveryIff | db/db.go:16-87 | there is one prefix for all keys exactly in those cases |
| Runs.GuardedRecovery | db/db.go:16-87 | after a guarded crash the reopened engine goes on with such a prefix as its history and its length as its counter |
| Runs.AnyCrashReads | db/db.go:16-87 | after any crash at any step each key reads as after a prefix of the issued writes that lacks at most the last nine |
| Runs.PinInvIff | db/operations.go:21-25 | pinning a number loaded earlier keeps the invariant exactly when it is 0 or no compaction has dropped below it |
| Unguarded.RunIsAnyRun | db/operations.go:21-114 | a run that meets the guards is one of all runs, so that the next three hold of it |
| Unguarded.NumbersStayFresh | db/db.go:57 | in every state of any run, guarded or not, the counter is at or above every stored number, and stored copies of one version agree |
| Unguarded.FloorStepIff | internal/base/watermark.go:38-53 | no step but the late pin of a number below it takes the effective floor back |
| Unguarded.FloorNeverDecreases | internal/base/watermark.go:38-53 | in any run without crashes and such pins the effective floor never decreases, and stays at or below every later pin |
| Flushing.CompactionLevels | compaction/compact.go:16-54 | the events of a compaction, whatever its groups, end in exactly its outcomes, and raise the drop floor to the watermark's |
| Disks.CompactionDisk | compaction/compact.go:26-51 | whatever its groups, a compaction leaves on disk exactly its outcomes, merged ones first, the last of them foremost |
| Reaching.ReopenedAfterFlush | db/db.go:16-60 | after a flush that compacts, a reopen answers from those files in that order |
| Failures.LatePinIff | db/operations.go:21-25 | every guarded run that ends at a drop floor reads right at a number exactly when the number is 0 or at or above the floor |
| Failures.LatePinFails | db/operations.go:21-25 | for every number from 1 on and every drop floor above it, a run in which the number is loaded, compactions drop below it, it is pinned, and the read at it misses a write |
| Failures.UnsyncedInstallFails | db/db.go:142-154 | a run of eleven writes of a key, a flush that crashes with the log as the tenth write synced it, and the reopened engine answers with the tenth value |
| Failures.NoCommonPrefix | db/db.go:142-154 | the same with a twelfth write of another key: one key reads as of the tenth write, the other as of the twelfth, and no prefix of the writes explains both |
| Failures.OutOfOrderRunFails | compaction/compact.go:26-42 | a run of four flushes whose compaction is out of order: the key's replaced value is read |
| Failures.LaterMergeRunFails | compaction/merge.go:23-24 | a run of four flushes whose compaction merges a later group: reads are right after it, and after a reopen the key's replaced value is read |
| Failures.EngineMeets | sstable/writer.go:63-168 | the record format and the table files of the engine meet what these runs ask of them |
| Flushing.FlushInv | db/db.go:142-166 | a flush that runs to its end keeps the invariant, with or without crashes to come |
| TableSets.Search | db/db.go:113-127 | the loop over tables answers from the first level with a hit, a tombstone ending it |
| TableSets.MaxSeqNum | db/db.go:95-111 | the loops find the highest number stored in any table |
| TableSets.MergeGroup | compaction/merge.go:11-25 | reading the group's tables, merging and writing gives a readable table of the merge |
| TableDirs.MergeGroups | compaction/compact.go:26-42 | the group loop carries out the merge events one by one and notes the names of what it merged |
| TableDirs.DeleteMerged | compaction/compact.go:44-51 | the loop over the old tables removes exactly the noted files, as the delete events do |
| TableDirs.CompactTables | compaction/compact.go:16-54 | tables, directory and names end as the events say, and every table of the result is in the directory |
| TableDirs.ByNameRestores | sstable/reader.go:76-79 | sorted by their text names, files whose names sort by age come back newest first, however the directory lists them |
| TableDirs.TimesSortByAge | sstable/reader.go:76-79 | creation times with as many digits sort by age |
| FileNames.NameOrderIff | compaction/merge.go:23 | as text, the earlier of two creation times sorts first exactly when it is at most the leading digits of the later |
| FileNames.NamesSortByTime | sstable/reader.go:76-79 | times with as many digits sort by age, and two times that do not |
| Databases.RebuildMemtable | db/db.go:62-87 | the replay loop rebuilds the memtable of the replayed versions and their highest number, and truncates the log |
| Databases.Open | db/db.go:16-60 | from what a crash left, in any directory order, the engine object of the reopened store, which lacks at most nine writes |
| Databases.Restart | db/db.go:16-60 | an engine object that dies with any part of its log above the synced one comes back valid, with the same guarantees, lacking at most nine writes |
| Databases.Database.GetAt | db/operations.go:40-52 | the level-order answer, and at pinned snapshots and the latest state the last write that the reader may see |
| Databases.Database.Get | db/operations.go:32-34 | the last write |
| Databases.Database.ScanAt | db/iterator.go:77-138 | a scan at a pinned snapshot or of the latest state yields, in lexicographic order, exactly the keys between the bounds, both included, whose last write is a value |
| Databases.Database.GetSnapshot | db/operations.go:21-25 | loads and pins the last number given out and keeps the engine valid |
| Databases.Database.Pin | db/operations.go:23 | the pin of any number; it keeps the guarantees when the number is 0 or no compaction has dropped below it |
| Databases.Database.ReleaseSnapshot | db/operations.go:28-30 | removes one pin and keeps the engine valid |
| Databases.Database.Put | db/operations.go:56-77 | a key over 1024 bytes or a value over 1048576 is an error that changes nothing; otherwise the history grows by exactly this version, flush included, the key answers with the value from then on, and all other keys and earlier snapshots as before |
| Databases.Database.Delete | db/operations.go:79-96 | the same with a tombstone: the key answers with nothing from then on |
| Databases.Database.Append | db/operations.go:107-114 | log, then memtable, with the next number; the key answers with the value, or after a delete with nothing |
| Databases.Database.FlushIfFull | db/operations.go:100-105 | flushes at four megabytes and not before |
| Databases.Database.ForceFlush | db/db.go:129-134 | carries out a whole flush, and keeps each guarantee when the groups meet its guard |
| Databases.Database.Install | db/db.go:142-154 | table installed in list and directory, memtable replaced, log reset |
| Databases.Database.CompactTables | db/db.go:156-163 | compaction at the watermark's floor replaces the table list and deletes the merged files |
| Framing.TornTail | wal/replay.go:37-128 | for every list of items and every cut, replay returns exactly the items wholly before the cut and ends after the last |
| Framing.WholeIsMaximal | wal/replay.go:37-128 | that number of whole items is the largest that fits before the cut |
| Framing.ReplayIdempotent | wal/replay.go:24-131 | on arbitrary bytes, replaying the truncated file gives the same items and truncates nothing |
| Framing.ReplayExtends | wal/replay.go:24-131 | on arbitrary bytes, items appended after truncation replay after the old ones |
| Framing.ReplayStops | wal/replay.go:37-128 | items followed by bytes that do not start with one: replay returns the items and cuts after them |
| Framing.ReplayFile | wal/replay.go:37-128 | the replay loop computes the replay function |
| Wal.ParseEncoded | wal/replay.go:37-116 | a record reads back exactly when its lengths are within the limits, whatever follows it |
| Wal.ParseTorn | wal/replay.go:37-116 | no proper front of a record is accepted |
| Wal.DamageIsRefused | wal/replay.go:76-86 | a frame whose checksum is not that of its data is refused, wherever it stands and whatever follows |
| Wal.ReplayStopsAtDamage | wal/replay.go:24-131 | a log with such a frame replays to the records before it and is cut there |
| Wal.RecordIsRead | wal/replay.go:37-128 | a frame with the right checksum, within the limits, that carries a record is read as that record |
| Wal.ReadIsRecord | wal/replay.go:37-128 | nothing else is read as a record |
| Layouts.RecordLayout | wal/append.go:9-58 | a record is the length of the rest, the lengths of key and value, both, and the checksum of these |
| Wal.RecordsAreLawful | wal/append.go:9-58 | the record format satisfies the laws that the replay theorems need |
| Wal.WriteDataBuff | wal/append.go:35-58 | the buffer writes build the data part |
| Wal.Log.Append | wal/append.go:9-33 | appends exactly one encoded record |
| Wal.Log.Write | wal/operators.go:16-31 | every tenth write makes the whole log durable |
| Wal.Log.Reset | db/db.go:168-177 | empties the log and keeps the write counter |
| Wal.Log.ReplayLog | wal/replay.go:24-131 | returns the replayed records and truncates the file after the last |
| EntryLog.EntriesAreLawful | db/db.go:72-84 | the replay laws carry over to versions with their numbers and kinds |
| EntryLog.AcceptedFits | db/operations.go:10-16 | the lengths that writes accept are exactly those that replay accepts |
| EntryLog.ReplayThrough | db/db.go:72-84 | replaying records and decoding them is replaying versions |
| Tables.SplitPartitions | sstable/write_from_entries.go:41-81 | the blocks are non-empty and partition the entries in order |
| SSTables.BlocksAreFull | sstable/write_from_entries.go:41-81 | every block is closed as soon as it has 4096 bytes of entries, and only the last may have fewer |
| Tables.WriteTableWellFormed | sstable/write_from_entries.go:19-111 | a written table holds exactly its entries and is readable |
| Tables.SearchIndex | sstable/index.go:167-183 | the last block whose first key is at or before the target, or none |
| Tables.SeeksExactly | sstable/iterator.go:24-51 | without equal keys the seek yields exactly the visible entries from the key on |
| Tables.StartBlock | sstable/iterator.go:24-51 | starting in the found block loses nothing but copies of the key itself |
| Tables.Iterator.LoadBlock | sstable/iterator.go:66-81 | loading a block continues the flat sequence there |
| Tables.Iterator.Advance | sstable/iterator.go:85-97 | one entry further, across block borders |
| Tables.Iterator.SkipInvisible | sstable/iterator.go:58-64 | skips nothing that is visible |
| Tables.Iterator.NextEntry | sstable/iterator.go:102-106 | the next visible entry |
| Tables.Iterator.SeekTo | sstable/iterator.go:24-51 | what remains is the flat search, up to copies of the key |
| Tables.LookupIn | sstable/sstable.go:24-46 | the newest visible version, a tombstone or absence, the filter never changing the answer |
| Bloom.NoFalseNegatives | bloomfilter/bloomfilter_operations.go:3-18 | every added key may be contained, after any additions |
| Bloom.BitsAreProbes | bloomfilter/hash.go:8-18 | after any additions the bits set are exactly the probes (h1 + i * h2) modulo 2^64 modulo the size of the added keys |
| Bloom.ContainsProbes | bloomfilter/bloomfilter_operations.go:10-18 | a key is answered for exactly when all its probes are set |
| Bloom.BloomFilter.AddKey | bloomfilter/bloomfilter_operations.go:3-8 | the in-place loop sets the bits of the specification |
| Bloom.BloomFilter.Test | bloomfilter/bloomfilter_operations.go:10-18 | the reading loop decides membership of the specification |
| Bloom.SerializeRoundTrip | bloomfilter/hash.go:34-64 | bits, size and hash count come back exactly when the numbers fit 32 bits |
| Layouts.FilterLayout | bloomfilter/hash.go:34-47 | a stored filter is its number of bits, its number of probes and the bits, eight to the byte, the first in the lowest place |
| Bloom.SerializeFilter | bloomfilter/hash.go:34-47 | the packing loop computes the serialization |
| Bloom.DeserializeFilter | bloomfilter/hash.go:50-64 | the unpacking loop computes the deserialization |
| BlockCodec.BlockRoundTrip | sstable/block.go:48-137 | a block within the size limits decodes to its entries |
| BlockCodec.DamagedBlockIsRefused | sstable/block.go:85-95 | a block whose stored checksum is not that of its data is refused |
| Layouts.BlockLayout | sstable/block.go:48-67 | a block is the number of entries, the entries and the checksum of both |
| Layouts.EntryLayout | sstable/block.go:69-83 | an entry is the lengths of stored key and value, and both |
| BlockCodec.IndexEntriesReadBack | sstable/index.go:62-121 | index entries read back |
| Layouts.IndexLayout | sstable/index.go:62-78 | an index entry is the length of the first key, that key, and offset and length of the block |
| BlockCodec.FeetReadBack | sstable/index.go:141-163 | the footer reads back |
| Layouts.FootLayout | sstable/index.go:141-149 | the footer is the offset of the index, its number of entries and the offset of the filter |
| Layouts.NameLayout | sstable/writer.go:65 | a file is named by the decimal digits of its time and .sst, a cached block by its file, a colon and its offset |
| TableFiles.IndexTiles | sstable/writer.go:105-135 | the index ranges tile the data section |
| TableFiles.Sections | sstable/writer.go:137-168 | data, index, filter and footer stand where the stored offsets say |
| TableFiles.FileRoundTrip | sstable/reader.go:27-68 | reading a written file gives its index, its filter bytes and exactly its entries |
| TableFiles.ReadBlocks | sstable/block_iterator.go:12-40 | the loop over the index reads all blocks, flattened |
| TableWriters.Collector.Add | sstable/write_block_collector.go:13-22 | the collected entries grow by one in the shared array |
| TableWriters.Collector.Drain | sstable/write_block_collector.go:32-38 | the drained entries come out unchanged although the array is reused |
| TableWriters.Flush | sstable/writer.go:63-168 | writes the bytes of the table file |
| TableWriters.WriteFromEntries | sstable/write_from_entries.go:19-111 | writes the same bytes as the other writer for the same entries |
| TableWriters.IndexSize | sstable/writer.go:170-176 | the summing loop computes the length of the encoded index |
| SSTables.TableRoundTrip | sstable/reader.go:27-68 | for sorted entries within the size limits, the written file reads back to the same filter and entries, and every block length fits 32 bits |
| Scans.SkipPast | db/iterator.go:146-155 | a source skips exactly its entries of the given key |
| Scans.LeastIsNewest | db/iterator.go:36-46 | the head of the queue is the newest version of the least user key |
| Scans.MergeIterator.NextKey | db/iterator.go:106-138 | one step yields the next shown key with its value, and nothing shown is skipped |
| ScanAts.Scan | db/iterator.go:80-138 | a drained scan yields keys in strictly ascending lexicographic order, exactly those between the bounds, both included, whose newest visible version is a value, for any order of tables |
| ScanAts.ScanAgreesWithGet | db/iterator.go:80-138 | under the level invariant a scan shows a key with a value exactly when a point read returns it |
| Caches.HoldsMostRecent | cache/lru.go:28-53 | after any accesses the cache holds the most recent distinct keys, in order, as many as its capacity |
| Caches.HeldIff | cache/lru.go:28-53 | after any accesses a key is held exactly when it was accessed and fewer other keys than the capacity were accessed after it; never more keys than the capacity are held |
| Caches.LRU.Get | cache/operations.go:3-14 | a hit moves to the front, a miss changes nothing |
| Caches.LRU.Put | cache/lru.go:28-43 | list and map stay in step, the key is held, other entries keep their values, and with a positive capacity there are never more keys than that |
| Caches.LRU.EvictOldest | cache/lru.go:45-53 | the last key leaves list and map |
| Caches.CacheKeyInjective | sstable/sstable.go:49 | path and offset are determined by the cache key |
| Caches.ReadBlock | sstable/sstable.go:48-82 | a cached read returns what an uncached one would, failures included |
| Caches.ReadBlocks | sstable/sstable.go:48-82 | over a run of reads the cache ends with exactly the blocks after whose last read fewer other blocks than the capacity were read |
| FileLookups.BlockThroughIndex | sstable/sstable.go:59-77 | reading by the stored index entry i gives block i |
| FileLookups.StoredKeysAreFirstKeys | sstable/index.go:62-121 | the stored first keys decode to the first keys of the blocks |
| FileLookups.FileServes | sstable/sstable.go:48-82 | so reading a written file by stored offsets serves its blocks |
| FileLookups.LookupFile | sstable/sstable.go:24-46 | filter, binary search over stored keys and block reads through the cache give the answer of the lookup in the table |
| Decimal.PrintIntBack | resp/reader.go:55-66 | a printed number parses back exactly when it has 64 bits |
| Decimal.PrintNatPlaces | resp/writer.go:36-71 | the text of a number is its decimal digits, the last one last, without zeros in front |
| Decimal.SignsAre | resp/reader.go:55-66 | a plus or minus sign may stand in front, and 64 bits are the limit on both sides |
| Decimal.NoNumber | resp/reader.go:55-66 | with anything but digits after that it is no number |
| Resp.RoundTripIff | resp/reader.go:39-96 | a value survives writing and reading, whatever follows it, exactly when it is well formed |
| Wires.TextOnWire | resp/reader.go:48-53 | a line that starts with + is read as a simple string and one that starts with - as an error |
| Wires.IntegerOnWire | resp/reader.go:55-60 | a line that starts with : is read as a number |
| Wires.BulkOnWire | resp/reader.go:62-74 | a line that starts with $ is followed by a string of that length and two more bytes |
| Wires.NullOnWire | resp/reader.go:67-83 | a negative length stands for no string or no array |
| Wires.ArrayOnWire | resp/reader.go:76-91 | a line that starts with * is followed by as many values |
| Wires.RefusedOnWire | resp/reader.go:44-96 | any other first byte, a bad number and an empty line are refused |
| Wires.BareLine | resp/reader.go:100-110 | a line may end in a line feed alone |
| Wires.WrittenAs | resp/writer.go:36-71 | each kind of value is written with its type byte, its shortest number and full line ends |
| Resp.ReadElemsBack | resp/reader.go:84-91 | pipelined values come back one after the other |
| Resp.ReadIsWellFormed | resp/reader.go:39-96 | every value read is well formed |
| Resp.ReadLocal | resp/reader.go:34-38 | unless the input ends too early, the result does not depend on what follows |
| Resp.CutIsShort | resp/reader.go:34-38 | a value cut anywhere is neither accepted nor refused, but waits for more input |
| Resp.Reader.TakeLine | resp/reader.go:100-110 | reads one line, without its end |
| Resp.Reader.Take | resp/reader.go:39-96 | the recursive reader consumes exactly one value |
| Resp.Writer.Put | resp/writer.go:36-71 | the recursive writer appends exactly the printed value |

## Left out

- Databases.Database.Put: requires that the sequence numbers up to 2^56 - 2 are not used up, because the source does not check the limit; `TrailerRoundTrip` says what is lost beyond it.
- Databases.Database.Delete: requires the same.
- Databases.Database.Append: requires the same.
- Databases.Database.ForceFlush: keeps the answers only for groups in table order, which `CompactionKeepsLookupsIff` proves to be exact where no table is empty.
- Recovery.CrashInv: a crash between install and log reset keeps the invariant only when no key is cut, which `UnsyncedInstallIff` proves to be exact; `CutRead` says what is read otherwise.
- Runs.PrefixRecovery: runs in which only the first group of a compaction merges, in order, which `CompactionKeepsLookupsIff` proves to be exact where no table is empty. The condition right after an install is exact (`PrefixRecoveryIff`).
- Failures.OutOfOrderRunFails: for a filter of up to four million bits, so that a value that Put accepts makes a file three times as long; the source's own filter has less than a million. `CompactionKeepsLookupsIff` has no such bound.
- Failures.LaterMergeRunFails: the same.
- Databases.Open: requires a store that satisfies the invariant with crashes, as `Database` keeps it while its flag `recoverable` is set, and file names that sort by age; `NameOrderIff` says when they do.
- FileSizes.CompactionKeepsLookupsIff: for the size of an empty table and sizes from one entry with a one-byte key on, all files together below 2^56 bytes; the two sizes between belong to tables of nothing but the empty key, which cannot all keep clear of one another. The tables shown are not always a list that flushes can leave: they may be longer than a memtable gets, or more than the threshold.
- Stores.Reopen: what survives a crash counts as durable afterwards. A process that is killed with an unsynced log, reopened and then hit by a power loss can lose more than the last nine writes.
- Wal.ParseEncoded: only for records whose total length fits 32 bits, because longer ones wrap around in the source before any limit is looked at; the engine accepts none of them (`AcceptedFits`).
- Layouts.RecordLayout: for lengths that fit their 32-bit fields, as all do that the engine accepts; so are the other layouts.
- SSTables.TableRoundTrip: only for files below 2^63 bytes with fewer than 2^32 blocks, the widths that the source stores them in.
- Caches.ReadBlock: one LRU; the sharded cache in front of it only routes keys.
- Scans.MergeIterator.NextKey: the heap is an ordered queue and a source is the sequence it still has to yield.
- Resp.RoundTripIff: an array length too large to allocate is read as missing input, and so is a bulk length below 2^63 - 2 for which there is no memory, instead of failing at allocation.
- The tables of `Database` are values (blocks and filter); `TableRoundTrip` ties such a value to the bytes of its file.
- The log's buffer in memory is not modelled: a crash may keep any part of the log above the durable one. The crashes of `Failures` keep exactly the durable part.
- Installing a table (temporary file, sync, rename) and truncating the log are single durable steps; a temporary file left by a crash is not modelled.
- Reading and writing files does not fail; errors of the file system and what the source makes of them are not modelled.
- Locks and goroutines: one step per locked call. Scans that run while their files are deleted are not modelled.
- The TCP server, command dispatch and configuration are not part of this model.
- The B-tree is a sorted sequence, the library sort an insertion sort with the same specification.
- The size of a Bloom filter, computed in floating point, is any positive number.
