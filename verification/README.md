# Verification of the embedded stores

This project models the two engines that the library carries with it, and proves that they do what they
are for.

- The hash map of `deps/stb/stb_ds.h`: an open-addressed index over a dense array of elements, probed bucket by
  bucket, with tombstones, thresholds for growing, shrinking and rebuilding, and deletion by swap; and the
  string arena of the same file. The hash is an arbitrary function, so everything holds for every hash.
- FlashDB in `deps/flashdb/src`, at a write granularity of one bit: the key-value database with garbage
  collection, recovery after power loss and two caches; the time series database, a circular log with a
  binary search by time; and below them the checksum, the status bytes and the cache of file descriptors.

## How the model is built

Where the program changes things step by step, so does the model: classes with the program's fields, loops
with the program's loops, arrays overwritten in place. Each method is proved against functions on values,
and what the program promises is proved about those functions.

| files | part |
|---|---|
| `PowerOfTwo`, `Probing`, `Slots`, `HashCost`, `HashIndex`, `HashMap`, `HashMapRuns`, `StringArena` | `stb_ds.h` |
| `Crc32`, `StatusTable`, `FileCache`, `FlashNumbers`, `FlashBytes` | `fdb_utils.c`, `fdb_file.c`, bytes on flash |
| `KvStore`, `KvCollect`, `KvReclaim`, `KvRefinement`, `KvEvery` | the key-value database as functions on sectors of records |
| `KvCrash`, `KvWalks`, `KvStrays`, `KvOverwrites`, `KvLossExact`, `KvStrayRuns`, `KvLossBytes`, `KvSpoils`, `KvSecondMagic`, `KvCrashRuns` | power loss: what it leaves, what a start repairs, and what is lost |
| `KvCaches`, `KvNames`, `KvDb`, `KvDbRuns`, `KvIterator`, `KvLoad` | the key-value database as the program runs it |
| `RecordBytes`, `KvScan`, `KvFlash` | its records and sectors as bytes |
| `TsLog`, `TsPacking`, `TsDb`, `TsQuery`, `TsRuns` | the time series database |
| `TslBytes`, `TsFlash` | its entries and sectors as bytes |

A sector of the key-value database is a sequence of records. The class `KvDb` keeps it beside the bytes of the
flash: every write is made in both, and `Valid` says that the bytes of each sector are exactly its header, its
records one behind the other, and erased flash. Headers, free space, searches, the check by prefix, the choice of
the records to move, and values are read from the bytes. The time series database is built in the same way.

To check the project, run `dafny verify dfyconfig.toml` in this directory.

## Where the code differs from what one would expect

- A set that loses power after the first status byte of its record, or within the magic word, leaves bytes that no
  read visits and no start removes. A walk of the sector adds up the lengths of the records that it visits
  (`deps/flashdb/src/fdb_kvdb.c:470`) and then looks for erased flash from there on; so after a restart it ends too
  early if the last record ends in erased bytes, and the next record is written over the end of that one:
  `KeyLostInRun` is such a run. `LossThenSetExactly` says which losses are fatal to the next set, and
  `StraysExactly` that some later run of sets and restarts loses a key exactly if there are stray bytes.
- The search behind an incomplete record begins one byte into it (`deps/flashdb/src/fdb_kvdb.c:330`). If a second
  magic word lies there, in the name or by chance in the checksum, what is before and behind it is read as a header,
  and marked if its length cannot be (`deps/flashdb/src/fdb_kvdb.c:357-366`): `SearchPassesExactly`. In
  `SecondMagicLosesKey` the mark damages the length of the record itself, and the old value, which was copied
  behind it, is lost with the next set.
- The name cache compares only as many bytes as the key has (`deps/flashdb/src/fdb_kvdb.c:261`) of a record with
  the same 16 bits of checksum. `FindKv` says exactly when this goes wrong; `MistakenKey` is a run in which a
  lookup of "led" returns the record of "lednw".
- A name of exactly FDB_KV_NAME_MAX bytes is accepted (`deps/flashdb/src/fdb_kvdb.c:1189-1192`), but the search on
  flash compares the name as it was cut when it was read, and never finds it: `SetThenGetExactly`,
  `LongKeyIsMissed`. Through the cache it is found exactly while the cache has its address, so until it is
  evicted, or a restart empties the cache: `FindKv`, `LongNameInCache`. When garbage collection moves such a
  record it files the new address under the checksum of the cut name and leaves the old address in the table; of
  the two checksums nothing is claimed from then on.
- A status that is a positive multiple of eight is written as an erased byte and lost: `StepReadBackExactly`. No
  status enumeration of the library has one.
- The eviction loop of the descriptor cache is right only for tables of at most two entries, which is the
  table's size: `EvictionSafeExactly`.
- Erasing a sector file writes whole pieces of 32 bytes; if the sector is not a whole number of them, the size of
  the last write is negative: `FileCache.Erase`.
- The time series database checks only that max_len is below the sector size, not that an entry fits an empty
  sector: `FirstEntryFitsExactly`.
- Reopening a time series database does not need a free index slot: one free byte reads as an unused slot, and
  a sector filled to the last byte ends the walk by itself: `WalkEntries`. Reopening a full one, written without
  rollover, finds no sector to go on with: `Reopen`.

## Model

| member | source | states |
|---|---|---|
| `Probing.ProbesDiffer` | `deps/stb/stb_ds.h:976-1002` | the first `slot_count` probes of one probe sequence look at different slots, for every hash and every power-of-two table of at least 8 slots |
| `Probing.ProbesCover` | `deps/stb/stb_ds.h:1246-1277` | those probes leave out no slot |
| `Probing.RoundsDiffer` | `deps/stb/stb_ds.h:1272-1277` | growing steps of whole buckets never return to a bucket within `slot_count / 8` rounds |
| `Slots.ProbeEnds` | `deps/stb/stb_ds.h:1246-1277` | a probe that has not stopped has passed fewer slots than the table has, as long as slots in use and tombstones leave one empty: every probe loop ends |
| `Slots.MissMeansAbsent` | `deps/stb/stb_ds.h:1257-1269` | stopping at an empty slot is right: no slot holds the key |
| `Slots.FillKeepsReachable` | `deps/stb/stb_ds.h:1430-1447` | filling a slot whose probe path has no empty slot keeps every entry reachable |
| `Slots.TombstoneKeepsReachable` | `deps/stb/stb_ds.h:1488-1494` | deleting by tombstone keeps every other entry reachable |
| `Slots.RedirectKeepsReachable` | `deps/stb/stb_ds.h:1503-1515` | pointing a slot at another element changes no probe path |
| `Slots.CopyDone` | `deps/stb/stb_ds.h:964-1008` | a rebuilt table into which every slot in use was copied holds the same pairs of hash and index, one slot for each |
| `HashIndexes.HashIndex.FindSlot` | `deps/stb/stb_ds.h:1232-1279` | the slot that holds the key; -1 exactly when no slot does; the loop over buckets ends |
| `HashIndexes.HashIndex.ProbeForPut` | `deps/stb/stb_ds.h:1384-1428` | the slot of the key if present; else the first deleted slot on the probe path before the first empty slot, and that empty slot exactly if there is no deleted one before it |
| `HashIndexes.HashIndex.Fill` | `deps/stb/stb_ds.h:1430-1447` | the slot takes the pair, and both counters stay exact |
| `HashIndexes.HashIndex.Bury` | `deps/stb/stb_ds.h:1488-1494` | the slot becomes a tombstone, and both counters stay exact |
| `HashIndexes.HashIndex.Redirect` | `deps/stb/stb_ds.h:1503-1515` | the slot points at another element, and nothing else changes |
| `HashIndexes.HashIndex.ProbeForEmpty` | `deps/stb/stb_ds.h:970-1002` | a reinsertion finds an empty slot on a clear path, and ends |
| `HashIndexes.HashIndex.Rehash` | `deps/stb/stb_ds.h:884-1011` | the new table holds every pair exactly once, reachable, with no tombstones and the same used count, at every new size; its work is counted slot by slot |
| `HashMaps.HashMap.Get` | `deps/stb/stb_ds.h:1281-1310` | the array index of the key, or -1 |
| `HashMaps.HashMap.EnsureRoom` | `deps/stb/stb_ds.h:1357-1371` | before a put the table is created or doubled when its used count is at the threshold; elements keep their places |
| `HashMaps.HashMap.Put` | `deps/stb/stb_ds.h:1337-1459` | the element array is the old one with the key updated in place, or appended if it was absent; the cost is that of the cost model |
| `HashMaps.HashMap.PutWithRoom` | `deps/stb/stb_ds.h:1384-1459` | a new key is put at that slot of the table and at the end of the array; a known key changes its element only |
| `HashMaps.HashMap.Delete` | `deps/stb/stb_ds.h:1472-1538` | the element array is the old one with the last element moved into the hole; reports whether the key was present |
| `HashMaps.HashMap.RemoveBySwap` | `deps/stb/stb_ds.h:1484-1515` | bury, move, look up again, redirect: table and array are linked again |
| `HashMaps.HashMap.ShrinkOrRebuild` | `deps/stb/stb_ds.h:1523-1531` | the table shrinks, is rebuilt at its size, or stays, as the thresholds say; elements are untouched |
| `HashMaps.SecondLookup` | `deps/stb/stb_ds.h:1503-1512` | while two array cells hold the same key, the only slot with that key is the one that held the last index |
| `HashMaps.SwapDeleteLinked` | `deps/stb/stb_ds.h:1484-1515` | after a swap deletion slots in use and array positions are in bijection again |
| `HashMaps.DeleteLastLinked` | `deps/stb/stb_ds.h:1484-1498` | so they are after deleting the last element |
| `HashMaps.RehashLinked` | `deps/stb/stb_ds.h:964-1008` | a rebuilt table is linked to the same elements |
| `HashMapRuns.LookupFindsLastPut` | `deps/stb/stb_ds.h:1281-1538` | after any run of puts and deletes a lookup finds the value of the last put of the key that no delete follows, or nothing |
| `HashMapRuns.InsertionOrder` | `deps/stb/stb_ds.h:345-348` | without deletes, keys sit in the order of their first put |
| `HashMapRuns.Replay` | `deps/stb/stb_ds.h:1337-1538` | any run on a new map, for every hash function: the array is what the calls describe, the work counted in its loops is at most 36 (k + 1), and the table has at most 8 slots or 4 for each element and three more |
| `HashCost.ThresholdsLeaveRoom` | `deps/stb/stb_ds.h:890-935` | used and tombstone thresholds together stay below the slot count |
| `HashCost.RunPays` | `deps/stb/stb_ds.h:904-906` | the potential of used and tombstone counts pays for every resize in any run |
| `HashCost.AmortisedConstant` | `deps/stb/stb_ds.h:318-323` | any run of k puts and deletes from empty fills, visits, reinserts and copies at most 36 (k + 1) slots and elements |
| `HashCost.LinearSpace` | `deps/stb/stb_ds.h:1523-1527` | after any run from empty the table has 8 slots at most, or four for each element and three more, however many elements were deleted |
| `StringArenas.StringArena.Alloc` | `deps/stb/stb_ds.h:1557-1603` | a string that fits the rest of the block goes directly below the last one, and no block is added; otherwise exactly one is: a newest one of the step's size if the string fits it, else one of the string's size behind the newest, whose rest stays; the step advances exactly while that size is below the maximum; regions are apart and earlier strings keep place and contents |
| `StringArenas.Replay` | `deps/stb/stb_ds.h:1557-1603` | after any sequence of allocations every string is whole where it was put, no two regions overlap, and every block is at most 1 MB long or holds just one string |
| `StringArenas.BlockSizesDouble` | `deps/stb/stb_ds.h:1563-1567` | the sizes of the blocks added one after the other are 512, 512, 1024, 1024 and so on: each size for two blocks, then its double |
| `StringArenas.BlockSizeBounded` | `deps/stb/stb_ds.h:1567-1584` | the doubling block size stops at exactly 1 << 20 |
| `Crc32.TableIsByteStep` | `deps/flashdb/src/fdb_utils.c:21-65` | every table entry equals eight bit steps of the polynomial division of section 8 of RFC 1952 |
| `Crc32.TableRoundIsByteStep` | `deps/flashdb/src/fdb_utils.c:77-89` | one round of the loop folds one byte and divides by eight bits |
| `Crc32.CalcCrc32` | `deps/flashdb/src/fdb_utils.c:77-89` | the loop computes the reference checksum |
| `Crc32.CrcByChunks` | `deps/flashdb/src/fdb_utils.c:77-89` | a checksum continued over two pieces is that of their concatenation |
| `Crc32.DetectsBurst` | `deps/flashdb/src/fdb_utils.c:77-89` | two messages that differ only within four consecutive bytes never have the same checksum |
| `StatusTable.GetStatus` | `deps/flashdb/src/fdb_utils.c:119-145` | reads the status that the table encodes |
| `StatusTable.EncodingUnique` | `deps/flashdb/src/fdb_utils.c:119-145` | a table encodes at most one status |
| `StatusTable.WriteStatus` | `deps/flashdb/src/fdb_utils.c:147-168` | changes the one byte that the new status selects, and nothing around the table |
| `StatusTable.StepReadBackExactly` | `deps/flashdb/src/fdb_utils.c:91-117` | a later status is read back after a one-byte write exactly when it is not a multiple of eight, on NOR flash and in a file |
| `StatusTable.RunReadsLast` | `deps/flashdb/src/fdb_utils.c:91-180` | after any increasing run of statuses, none a multiple of eight, the last one is read |
| `FileCaches.FileCache.OpenDbFile` | `deps/flashdb/src/fdb_file.c:86-120` | returns a descriptor open on the sector of the address, which the table has from then on; one it has already is returned and the table left alone; cached sectors stay distinct and exactly the cached descriptors open |
| `FileCaches.FileCache.UpdateFileCache` | `deps/flashdb/src/fdb_file.c:55-84` | which entry takes the descriptor, which one is closed, and that nothing else changes |
| `FileCaches.FileCache.Read` | `deps/flashdb/src/fdb_file.c:122-136` | reads what direct access to one file for each sector reads |
| `FileCaches.FileCache.Write` | `deps/flashdb/src/fdb_file.c:138-155` | leaves the files as a direct write does |
| `FileCaches.FileCache.Erase` | `deps/flashdb/src/fdb_file.c:157-178` | the file is all erased bytes, as many as the sector has exactly when the sector size is a multiple of 32, and else rounded up to one; what the last write is asked for is then negative |
| `FileCaches.EvictionSafeExactly` | `deps/flashdb/src/fdb_file.c:64-78` | the eviction loop leaves a closed descriptor in the table exactly when the table has more than two entries |
| `KvCollect.AllocWhileCollecting` | `deps/flashdb/src/fdb_kvdb.c:915-938` | while a sector is collected, allocation for its next record always succeeds, in another sector that is not dirty |
| `KvCollect.AppendWhileCollecting` | `deps/flashdb/src/fdb_kvdb.c:829-861` | writing the copy keeps room for all records still to be moved: one empty sector can take a whole sector |
| `KvCollect.MoveWhileCollecting` | `deps/flashdb/src/fdb_kvdb.c:1006-1067` | moving a record succeeds, marks the old one deleted and keeps its pair live once |
| `KvCollect.MoveRecordsLosesNothing` | `deps/flashdb/src/fdb_kvdb.c:1122-1134` | the loop over a sector never fails a move and keeps the live records |
| `KvCollect.CollectSectorLosesNothing` | `deps/flashdb/src/fdb_kvdb.c:1112-1151` | collecting a sector loses nothing, uses at most one empty sector and gives one back |
| `KvCollect.CollectFromLosesNothing` | `deps/flashdb/src/fdb_kvdb.c:863-883` | so does the loop over the sectors, from every place |
| `KvCollect.CollectLosesNothing` | `deps/flashdb/src/fdb_kvdb.c:1153-1171` | garbage collection never fails a move, keeps the live records and ends with at least one empty sector; what it frees is `KvReclaim.CollectFrees` |
| `KvReclaim.CollectSectorFrees` | `deps/flashdb/src/fdb_kvdb.c:1112-1151` | collecting a dirty sector erases it, frees exactly the bytes of its records that are not moved, leaves every other dirty sector as it is, and adds only written copies behind the records of clean ones |
| `KvReclaim.CollectFrees` | `deps/flashdb/src/fdb_kvdb.c:1112-1171` | what a requested collection does: nothing but end the request while more than one sector is empty; else it collects the first dirty sector in scan order and goes on one by one, until the sector collected before the last one, at first the empty one, has more free than wanted; the bytes in use over all sectors fall by exactly those of the unmoved records of the sectors collected, and the dirty sectors not reached are untouched |
| `KvReclaim.DirtyIsThere` | `deps/flashdb/src/fdb_kvdb.c:863-883` | every dirty sector is in the order of that loop; with `DirtyInOrder`, once and by its place in the scan |
| `KvReclaim.RunMarked` | `deps/flashdb/src/fdb_kvdb.c:964-998` | after any run of operations the sectors that are not clean are exactly those with a record that no collection moves |
| `KvReclaim.GarbageIsFreed` | `deps/flashdb/src/fdb_kvdb.c:1153-1171` | so a collection asked for with one empty sector left frees space whenever there is a deleted record anywhere |
| `KvReclaim.AllocExactly` | `deps/flashdb/src/fdb_kvdb.c:915-938` | outside a collection an allocation takes the first sector in use that fits, else the first empty one while more than one is left; with one left it fails and asks for a collection, and fails without asking only if the record fits no empty sector |
| `KvReclaim.SetReportsFullExactly` | `deps/flashdb/src/fdb_kvdb.c:1069-1089` | a set reports full flash exactly if there is no room and, if one sector is empty, none after the collection it then asks for either |
| `KvReclaim.SetSucceeds` | `deps/flashdb/src/fdb_kvdb.c:1295-1327` | a set succeeds if there is room, which there is for all that fits an empty sector while more than one is empty; and also if the record fits an empty sector beside the records to be moved out of the first dirty sector |
| `KvReclaim.NothingToCollect` | `deps/flashdb/src/fdb_kvdb.c:1069-1089` | with no dirty sector a set reports full flash exactly if there is no room |
| `KvReclaim.DeletedSpaceIsUsed` | `deps/flashdb/src/fdb_kvdb.c:1069-1151` | on two sectors of 4096 bytes, with a value of 3900 bytes set and deleted, a value of 100 bytes is set, into space that was not free before |
| `KvRefinement.FindRefines` | `deps/flashdb/src/fdb_kvdb.c:559-583` | a search on flash finds the value that the map has for a key, for every key |
| `KvRefinement.GetRefines` | `deps/flashdb/src/fdb_kvdb.c:622-645` | a get that searches the flash, the name cache left aside, returns the value that the map has, or none |
| `KvRefinement.NewKvLosesNothing` | `deps/flashdb/src/fdb_kvdb.c:1069-1089` | making room keeps the live records, whether it succeeds or not; room found may be used |
| `KvRefinement.ReplaceEffect` | `deps/flashdb/src/fdb_kvdb.c:1305-1325` | a set into room replaces exactly the pair of the record it is told is the old one |
| `KvRefinement.SetRefines` | `deps/flashdb/src/fdb_kvdb.c:1295-1327` | with the search on flash in place of the cached one: a set stores its value in the map; a set that reports a full flash or a long name changes no live record |
| `KvRefinement.DelRefines` | `deps/flashdb/src/fdb_kvdb.c:940-1001` | with the search on flash in place of the cached one: a delete removes the key, or reports that it is absent and changes nothing |
| `KvRefinement.SetThenGetExactly` | `deps/flashdb/src/fdb_kvdb.c:559-583` | after a successful set the search on flash returns the value exactly when the name is shorter than FDB_KV_NAME_MAX |
| `KvRefinement.RunRefines` | `deps/flashdb/src/fdb_kvdb.c:1295-1327` | with the search on flash in place of the cached one: after any run of sets, deletes and gets with collections between them, a lookup returns the last successful set; every sector keeps more than the threshold free and none is full |
| `KvCrash.AllWritesAreTheSet` | `deps/flashdb/src/fdb_kvdb.c:1295-1327` | the nine flash writes together are the set |
| `KvCrash.EveryPrefixIsSafe` | `deps/flashdb/src/fdb_kvdb.c:1295-1327` | after every prefix of the writes, the header cut at any byte, as the next start finds the record, there are never two written records for the key, and the old record is intact until the new one is declared written |
| `KvCrash.BootEnds` | `deps/flashdb/src/fdb_kvdb.c:1595-1662` | one start marks the incomplete record, and completes the pending deletion unless the scan stopped there; incomplete records bound the starts needed |
| `KvLossExact.IncompleteEndsStart` | `deps/flashdb/src/fdb_kvdb.c:1595-1614` | a start that meets an incomplete record before anything else to recover marks that record, and leaves all else, a pending deletion behind it too, as it was |
| `KvLossExact.DeletionThenIncomplete` | `deps/flashdb/src/fdb_kvdb.c:1595-1614` | a start that meets the pending deletion first moves that record, then marks the incomplete one, and does nothing else |
| `KvCrash.OldestIs` | `deps/flashdb/src/fdb_kvdb.c:1546-1561` | what a start takes for the oldest sector is the last one in use behind an empty one, or 0 if there is none |
| `KvCrash.OldestOfRun` | `deps/flashdb/src/fdb_kvdb.c:1546-1561` | if the sectors in use lie one behind the other around the ring, and some are empty, that is the first of them, so that a scan meets all of them before any empty one |
| `KvCrash.TwoStartsRecover` | `deps/flashdb/src/fdb_kvdb.c:1595-1662` | two starts complete every recovery |
| `KvCrash.RecoversOldOrNew` | `deps/flashdb/src/fdb_kvdb.c:1581-1662` | power loss after any number of writes of a set, then two starts: the live records stand for the old map before the WRITE byte and for the new map after it, if there is room for one copy |
| `KvLossBytes.LossOnFlash` | `deps/flashdb/src/fdb_kvdb.c:755-767` | the bytes that a cut write leaves are those of one more record: stray bytes without a complete magic word behind others, a bare header with an error without a complete length, else an incomplete record that a search passes over |
| `KvStrays.LossLeavesStrayExactly` | `deps/flashdb/src/fdb_kvdb.c:755-767` | a loss leaves stray bytes exactly when the record was begun behind others and its magic word is not complete |
| `KvStrays.StartsKeepStraysExactly` | `deps/flashdb/src/fdb_kvdb.c:312-346` | no start removes them: they are there after two starts exactly when the loss left them |
| `KvOverwrites.SetByWalkExactly` | `deps/flashdb/src/fdb_kvdb.c:452-487` | a set whose address comes from a walk keeps the map exactly when the walk does not fall short over a live record |
| `KvOverwrites.SpoiledIsLost` | `deps/flashdb/src/fdb_kvdb.c:452-487` | if it does, the key of the last record of the sector is found no more |
| `KvSpoils.OverwriteIsNoticed` | `deps/flashdb/src/fdb_kvdb.c:374-401` | a record written up to seven bytes too early, over the erased bytes that end the last record, always breaks the checksum of that record |
| `KvLossBytes.SearchPassesExactly` | `deps/flashdb/src/fdb_kvdb.c:280-310` | the search that begins one byte into an incomplete record passes it exactly when no second magic word of it was written; otherwise it stops inside |
| `KvOverwrites.RightWalkIsSet` | `deps/flashdb/src/fdb_kvdb.c:1295-1327` | with a walk that does not fall short, the set by walk is the set |
| `KvLossExact.TakesCopyExactly` | `deps/flashdb/src/fdb_kvdb.c:915-938` | the next start copies the old record behind the stray bytes exactly if there is room for it and no sector looked at before takes it |
| `KvLossExact.LossThenSetExactly` | `deps/flashdb/src/fdb_kvdb.c:452-487` | power loss at any point of a set, two starts, and a set of any key into any sector: the map is what it should be exactly when the loss was not fatal to the next set, a condition on the loss, the old record and the sectors before it |
| `KvStrayRuns.StraysExactly` | `deps/flashdb/src/fdb_kvdb.c:452-487` | after a loss in a set, whose sector has room for two short records more, and two starts: there are sets and restarts, with nothing collected, that lose a key exactly if the loss left stray bytes |
| `KvSecondMagic.SecondMagicLosesKey` | `deps/flashdb/src/fdb_kvdb.c:357-366` | a record whose checksum is the magic word, cut after its header: the walks of the next two starts on the bytes, and the copy of the old record whose checksum the next record breaks |
| `KvLossExact.KeyLostInRun` | `deps/flashdb/src/fdb_kvdb.c:452-487` | a fatal run from formatted flash: set "k", lose power after the first byte of the next record, start twice, set "j", and "k" is gone |
| `KvCrashRuns.DeleteWritesRefine` | `deps/flashdb/src/fdb_kvdb.c:964-1001` | power loss between the two writes of a delete: the first one is the delete |
| `KvCrashRuns.RunWithPowerLosses` | `deps/flashdb/src/fdb_kvdb.c:1295-1327` | over whole runs of operations and harmless losses in sets and deletes, each followed by two starts: the map is what the run describes, with no key twice, and no stray bytes are left |
| `KvLoads.KvLoader.FindOldest` | `deps/flashdb/src/fdb_kvdb.c:1546-1561` | the loop finds the last sector in use behind an empty one, or 0 if there is none |
| `KvLoads.KvLoader.RecoverRecord` | `deps/flashdb/src/fdb_kvdb.c:1595-1624` | one turn of the recovery scan, the caches left aside: complete a deletion, or mark an incomplete record and stop |
| `KvLoads.KvLoader.Load` | `deps/flashdb/src/fdb_kvdb.c:1630-1669` | the loop over sectors and records of a start, once, on flash that needs no formatting and no resumed collection, has exactly the effect for which recovery is proved |
| `KvCaches.KvCache.Update` | `deps/flashdb/src/fdb_kvdb.c:207-246` | the node of the checksum takes the address, and only nodes before it age; for a new checksum all nodes in use age, and the first unused node is taken, or else the first least active one is given up; no other entry changes |
| `KvCaches.KvCache.Remove` | `deps/flashdb/src/fdb_kvdb.c:229-234` | nothing is known about the checksum any more; only the first node with it changes |
| `KvCaches.SectorCache.Find` | `deps/flashdb/src/fdb_kvdb.c:177-188` | the entry of a sector, if there is one |
| `KvCaches.SectorCache.Update` | `deps/flashdb/src/fdb_kvdb.c:151-172` | the entry of the sector, or else the last unused one, holds what was read; only a table full of other sectors stays as it was; every entry agrees with the flash |
| `KvCaches.SectorCache.Drop` | `deps/flashdb/src/fdb_kvdb.c:817-823` | the entry of an erased sector is unused, the others are as they were, and every entry agrees with the flash |
| `KvCaches.SectorCache.Refresh` | `deps/flashdb/src/fdb_kvdb.c:190-205` | the entry of a sector follows a write or a mark there, the others are as they were, and every entry agrees with the flash |
| `KvFlashes.KvFlash.ReadHeader` | `deps/flashdb/src/fdb_kvdb.c:431-451` | the header of a sector reads as its two statuses, and as a header |
| `KvFlashes.KvFlash.Format` | `deps/flashdb/src/fdb_kvdb.c:769-827` | the sector is erased but for its header; all other sectors are as they were |
| `KvFlashes.KvFlash.SetStore` | `deps/flashdb/src/fdb_kvdb.c:829-861` | one byte is written, and the sector holds the same records under the new status |
| `KvFlashes.KvFlash.MarkRecord` | `deps/flashdb/src/fdb_kvdb.c:964-968` | one byte is written: the sector holds the same records, the one with its new status |
| `KvFlashes.KvFlash.WriteRecord` | `deps/flashdb/src/fdb_kvdb.c:1208-1258` | the sector holds one more record behind the others |
| `KvFlashes.KvFlash.CopyRecord` | `deps/flashdb/src/fdb_kvdb.c:1041-1052` | a record copied in pieces of 32 bytes is the same record in the other sector |
| `KvFlashes.KvFlash.Walk` | `deps/flashdb/src/fdb_kvdb.c:452-487` | the free space found by walking the bytes is that of the records |
| `KvFlashes.KvFlash.FindInSector` | `deps/flashdb/src/fdb_kvdb.c:545-554` | the search through the bytes finds the first matching record, whatever the cached empty address |
| `KvDbs.KvDb.ReadSectorInfo` | `deps/flashdb/src/fdb_kvdb.c:416-502` | what is returned agrees with the flash: from the cache, which then stays as it was, if it knows enough, and else read from the bytes and cached |
| `KvDbs.KvDb.AllocKv` | `deps/flashdb/src/fdb_kvdb.c:915-938` | through the sector cache: the sector and the request that the specification gives |
| `KvDbs.KvDb.FindKvNoCache` | `deps/flashdb/src/fdb_kvdb.c:576-583` | the first matching record in scan order |
| `KvDbs.KvDb.FindKv` | `deps/flashdb/src/fdb_kvdb.c:585-607` | the record the evicting cache hits, or else the one the search on flash finds, which is cached from then on; for keys below FDB_KV_NAME_MAX this is the one on flash exactly when the cache is not fooled; a key of that length is found exactly while the cache hits it |
| `KvDbs.KvDb.GetKvFromCache` | `deps/flashdb/src/fdb_kvdb.c:251-274` | a hit is exactly the address cached for the checksum of the key where the bytes on flash start with the key; it makes its node more active, and a miss changes nothing |
| `KvDbs.KvDb.ChangeStatus` | `deps/flashdb/src/fdb_kvdb.c:964-998` | record and sector are marked, in the bytes, in the records and in the sector cache |
| `KvDbs.KvDb.PrepareDelete` | `deps/flashdb/src/fdb_kvdb.c:964-967` | the record is prepared for deletion, and only its name may be stale in the cache |
| `KvDbs.KvDb.CompleteDelete` | `deps/flashdb/src/fdb_kvdb.c:968-1001` | the record is deleted, its sector dirty, and both caches agree with the flash |
| `KvDbs.KvDb.UpdateSecStatus` | `deps/flashdb/src/fdb_kvdb.c:829-861` | the status byte and the status of the sector that takes a record, and whether it is full |
| `KvDbs.KvDb.AppendOnFlash` | `deps/flashdb/src/fdb_kvdb.c:1184-1265` | a new record or a copy lies behind the others, in the bytes and in the records |
| `KvDbs.KvDb.WriteRecord` | `deps/flashdb/src/fdb_kvdb.c:1208-1258` | the record, with a name of up to 64 bytes, is behind the others, and both caches know it |
| `KvDbs.KvDb.MoveKv` | `deps/flashdb/src/fdb_kvdb.c:1006-1067` | a move during collection never fails, has the specified effect, leaves both caches right, and brings no checksum in doubt but those of a name of 64 bytes |
| `KvDbs.KvDb.CollectOne` | `deps/flashdb/src/fdb_kvdb.c:1112-1151` | the loop over the records of a sector, the erase, and the new oldest sector have the specified effect |
| `KvDbs.KvDb.CollectGarbage` | `deps/flashdb/src/fdb_kvdb.c:1153-1171` | the loops over all sectors have exactly the effect for which `KvReclaim.CollectFrees` says what is freed |
| `KvDbs.KvDb.MakeRoom` | `deps/flashdb/src/fdb_kvdb.c:1069-1089` | allocate, collect once, and allocate again, as specified |
| `KvDbs.KvDb.Replace` | `deps/flashdb/src/fdb_kvdb.c:1305-1325` | the rest of a set, as specified for the record found, whichever it is; the new record is remembered |
| `KvDbs.KvDb.NoFalseHit` | `deps/flashdb/src/fdb_kvdb.c:251-274` | no cached record is mistaken for a key if no live name and no name of 64 bytes can be |
| `KvDbs.KvDb.Set` | `deps/flashdb/src/fdb_kvdb.c:1295-1327` | always leaves the database, both caches and the bytes in order, and remembers what it set; unless a name can be mistaken for the key, it is the set of the specification and the map gains the value |
| `KvDbs.KvDb.Delete` | `deps/flashdb/src/fdb_kvdb.c:940-1001` | the same for a delete |
| `KvDbs.KvDb.Get` | `deps/flashdb/src/fdb_kvdb.c:622-645` | the value in the map, or none, unless a name can be mistaken for the key; and for every key the value last set while the cache remembers it |
| `KvDbRuns.Replay` | `deps/flashdb/src/fdb_kvdb.c:1295-1327` | any run from erased flash through caches and collections: the bytes of every sector hold its header and its records, without gap or overlap; and over names that cannot be mistaken for each other every get returns what the map after the operations before it has |
| `KvDbRuns.MistakenKey` | `deps/flashdb/src/fdb_kvdb.c:255-262` | on a new database, with "lednw" set, a lookup of "led" returns the record of "lednw", though no record on flash has the name "led" |
| `KvDbRuns.FirstSet` | `deps/flashdb/src/fdb_kvdb.c:1295-1327` | the first set on formatted flash succeeds for every name of up to 64 bytes that fits, and the search on flash finds it exactly when the name is shorter |
| `KvDbRuns.LongKeyIsMissed` | `deps/flashdb/src/fdb_kvdb.c:559-574` | so for the name of 64 times "a": it is set, and the search on flash finds nothing |
| `KvDbRuns.LongNameInCache` | `deps/flashdb/src/fdb_kvdb.c:585-607` | every name of 64 bytes set on a new database is found through the cache, and by no search on flash |
| `KvIterators.KvIterator.Next` | `deps/flashdb/src/fdb_kvdb.c:1860-1896` | goes to the next live record; false exactly when none is left |
| `KvIterators.LiveFromExactly` | `deps/flashdb/src/fdb_kvdb.c:1860-1896` | the records it visits are all live records and nothing else, oldest sector first, each once |
| `KvIterators.Iterate` | `deps/flashdb/src/fdb_kvdb.c:1831-1896` | an iteration from the start visits exactly those |
| `FlashNumbers.NatRoundTrip` | `deps/flashdb/src/fdb_kvdb.c:1194-1198` | every 32-bit number is read back from its four bytes |
| `RecordBytes.CreateBlob` | `deps/flashdb/src/fdb_kvdb.c:1189-1203` | reports long names and large records without a write; else header, name, value and checksum are intact, the status written last, and nothing else is touched |
| `RecordBytes.NewCrc` | `deps/flashdb/src/fdb_kvdb.c:1212-1226` | the checksum over the four fields one by one is that of the payload as a whole |
| `RecordBytes.PayloadCrc` | `deps/flashdb/src/fdb_kvdb.c:374-391` | reading in pieces of 32 bytes computes the same checksum |
| `RecordBytes.ReadKv` | `deps/flashdb/src/fdb_kvdb.c:348-414` | what a read returns, for every content of the flash; a record without a plausible length is marked |
| `RecordBytes.ReadsBack` | `deps/flashdb/src/fdb_kvdb.c:348-414` | for all sizes, an intact record reads with its checksum right and its status, length, name and value; only a name of 64 bytes is cut |
| `RecordBytes.DamageIsNoticed` | `deps/flashdb/src/fdb_kvdb.c:374-401` | damage within four consecutive bytes of the payload always makes the read report a wrong checksum |
| `KvScans.FindNext` | `deps/flashdb/src/fdb_kvdb.c:280-310` | the first magic word from the start on, none overlooked between the windows of 32 bytes; the last 32 bytes are not searched, and nothing if the start is the cached empty address |
| `KvScans.ContinueFf` | `deps/flashdb/src/fdb_utils.c:185-210` | the address from which everything up to the end is erased |
| `KvScans.NextFound` | `deps/flashdb/src/fdb_kvdb.c:312-346` | the search behind a record, or one byte into an incomplete one, finds the next record, past stray bytes, and none behind the last |
| `KvScans.WalkSector` | `deps/flashdb/src/fdb_kvdb.c:452-487` | the walk reads every record once, in order, none missed, incomplete ones too; the address it ends at falls short of the end by exactly as many bytes as the last record ends in erased ones, but no more than there are stray bytes |
| `KvScans.AppendRecordBytes` | `deps/flashdb/src/fdb_kvdb.c:1184-1265` | writing a record behind any others extends the tiling by that record |
| `KvScans.MarkRecordBytes` | `deps/flashdb/src/fdb_kvdb.c:964-968` | writing a later status changes that record's status and nothing else, also to mark an incomplete one |
| `TsDbs.TsDb.Append` | `deps/flashdb/src/fdb_tsdb.c:451-499` | refused if too long, not later, or full, and then nothing changes; with room left in the current sector the entry goes behind the others there and nothing leaves the log; without, it goes alone into the next one, and if no other sector is left, the entries of the oldest one leave the log and no others |
| `TsDbs.TsDb.UpdateSecStatus` | `deps/flashdb/src/fdb_tsdb.c:379-449` | the current sector stays if it is not in use or has room for the entry; else the next one is opened, at the cost of the oldest one only if no other is left; full exactly if there is none to go to |
| `TsDbs.TsDb.Enter` | `deps/flashdb/src/fdb_tsdb.c:451-499` | the entry is placed by that rule, read off the entries in the sectors |
| `TsDbs.TsDb.CloseSector` | `deps/flashdb/src/fdb_tsdb.c:386-410` | the end written into a sector's header is that of its last entry |
| `TsDbs.TsDb.OpenSector` | `deps/flashdb/src/fdb_tsdb.c:411-431` | the next sector is opened; unless it is empty, exactly its entries leave the log and the one behind it is the oldest |
| `TsDbs.TsDb.WalkEntries` | `deps/flashdb/src/fdb_tsdb.c:275-304` | the walk ends at the last entry, never takes data for an entry, and finds the free space, even when index and data meet |
| `TsDbs.TsDb.Reopen` | `deps/flashdb/src/fdb_tsdb.c:1021-1070` | the same cursor, oldest sector and last time are found again exactly if the database is not full |
| `TsLog.AroundReclaims` | `deps/flashdb/src/fdb_tsdb.c:421-431` | giving up the oldest sector drops its entries from the front of the log and no others |
| `TsLog.AroundNext` | `deps/flashdb/src/fdb_tsdb.c:412-422` | while empty sectors are left, the next one is empty and nothing is dropped |
| `TsPacking.PackTight` | `deps/flashdb/src/fdb_tsdb.c:385` | the groups of entries that share a sector are all that was accepted, in order; each fits a sector, and none had room for the first entry of the next |
| `TsPacking.PlacedHolds` | `deps/flashdb/src/fdb_tsdb.c:379-449` | an entry placed by that rule keeps it so that the sectors up to the current one hold the last such groups, one each, and that a group is missing only if no sector is left for it |
| `TsPacking.LogIsLastGroups` | `deps/flashdb/src/fdb_tsdb.c:411-431` | the log is as many of the last groups as there are sectors |
| `TsRuns.Replay` | `deps/flashdb/src/fdb_tsdb.c:451-499` | after any run of appends from erased flash the bytes of every sector hold its header, index and data; the log is as many of the last groups of the accepted entries as there are sectors, each group without room for the first entry of the next: nothing is dropped before that; so it is an end of everything accepted, in time order, with the last accepted entry in it |
| `TsQueries.Iterate` | `deps/flashdb/src/fdb_tsdb.c:556-596` | visits the whole log, oldest entry first, each once |
| `TsQueries.IterateReverse` | `deps/flashdb/src/fdb_tsdb.c:606-649` | visits exactly the reverse |
| `TsQueries.SearchStart` | `deps/flashdb/src/fdb_tsdb.c:654-680` | the binary search ends and returns the first index whose time is not before `from`, after at most one probe more than the logarithm of the number of entries |
| `TsQueries.IterateByTime` | `deps/flashdb/src/fdb_tsdb.c:691-769` | for from <= to, visits what a filter by time keeps of the log |
| `TsQueries.WithinExactly` | `deps/flashdb/src/fdb_tsdb.c:691-769` | that filter keeps exactly the entries in the span, in increasing time order |
| `TslBytes.WriteTslBytes` | `deps/flashdb/src/fdb_tsdb.c:350-377` | the four writes of an entry extend the sector by that entry; index and data stay apart, and what is between them erased |
| `TsFlashes.TsFlash.ReadHeader` | `deps/flashdb/src/fdb_tsdb.c:242-268` | the header of a sector reads as its status, first time and end |
| `TsFlashes.TsFlash.Start` | `deps/flashdb/src/fdb_tsdb.c:436-446` | status and first time are in the header of an empty sector |
| `TsFlashes.TsFlash.Close` | `deps/flashdb/src/fdb_tsdb.c:386-409` | end and status are in the header; index and data are as they were |
| `TsFlashes.TsFlash.WriteEntry` | `deps/flashdb/src/fdb_tsdb.c:350-377` | the sector holds one more entry, and its header is as it was |
| `TsFlashes.TsFlash.ReadSlot` | `deps/flashdb/src/fdb_tsdb.c:147-175` | every index slot up to the last reads as its entry, and the one behind as none |
| `TslBytes.ReadSlotOf` | `deps/flashdb/src/fdb_tsdb.c:147-175` | every entry reads back with its time, length and blob; the slot behind the last reads as unused while one byte is free |

## Left out

- KvRefinement.GetRefines: the name cache; `KvDbs.KvDb.Get` has it.
- KvRefinement.SetRefines: the name cache; `KvDbs.KvDb.Set` has it.
- KvRefinement.DelRefines: the name cache; `KvDbs.KvDb.Delete` has it.
- KvRefinement.RunRefines: the name cache; `KvDbRuns.Replay` has it.
- KvDbs.KvDb.Set: a key is not covered once a record with a name of 64 bytes and the checksum of the key, cut or whole, has been moved, or while one may be moved to make room: the cache then has an address at which there may be anything.
- KvDbs.KvDb.Get: the same, once such a record has been moved.
- KvDbs.KvDb.Delete: the same.
- KvDbRuns.Replay: sets of names of exactly FDB_KV_NAME_MAX bytes are excluded, for this reason; and what gets return is stated for names that cannot be mistaken for each other, since otherwise the cache answers with the wrong record.
- KvDbs.KvDb.GetKvFromCache: a key of more than FDB_KV_NAME_MAX bytes never hits; the comparison past the end of the name buffer is not modelled.
- KvDbs.KvDb.FindKvNoCache: a record's address is computed from the records kept beside the bytes where the program keeps it in the cache table.
- KvCrash.BootEnds: needs room for one copy of the old record when its deletion was under way; without it a start collects garbage and scans again, and that loop is not modelled.
- KvCrash.TwoStartsRecover: takes an incomplete record to be passed over as a whole; `KvLossBytes.SearchPassesExactly` says when it is.
- KvCrash.RecoversOldOrNew: room for the copy, and an incomplete record without a second magic word among the bytes that were written, at which a search would stop and read a header; `KvSecondMagic.SecondMagicLosesKey` shows what such a magic word can do.
- KvCrashRuns.RunWithPowerLosses: losses are harmless if they leave no stray bytes, if no second magic word of an incomplete record was written, and if a pending deletion has room for a copy.
- KvLossBytes.LossOnFlash: the checksum of an incomplete record is taken not to match by chance; it matches only if the missing bytes would have been erased ones.
- KvLossExact.LossThenSetExactly: an incomplete record without a second magic word, as for `KvCrash.RecoversOldOrNew`; and only the first set after the starts, `KvStrayRuns.StraysExactly` has the later ones.
- KvStrayRuns.StraysExactly: the same incomplete records, and sets that find room without garbage collection.
- KvSpoils.OverwriteIsNoticed: more than seven bytes overwritten, which takes several such losses in one sector.
- KvFlashes.KvFlash.Walk: the same.
- KvFlashes.KvFlash.FindInSector: a sector with stray bytes.
- KvScans.WalkSector: a sector with stray bytes whose last record is incomplete.
- KvLoads.KvLoader.RecoverRecord: the two caches, which are empty when a start begins and are filled by it.
- KvLoads.KvLoader.Load: the caches, the formatting of sectors with a bad header, a collection resumed, and the scan that is repeated after one.
- RecordBytes.ReadKv: a read behind the end of the flash is taken to find erased bytes.
- FileCaches.FileCache.Erase: the last write when the sector size is not a multiple of 32, whose size is then negative and taken for a huge one.
- TsFlashes.TsFlash.ReadHeader: the second copy of the end information, which is read only if the first was cut short.
- TsFlashes.TsFlash.Close: the second copy of the end information, which is written only if the first was begun before.
- TsDbs.TsDb.Reopen: a database whose current sector was opened but, by a loss of power, holds no entry yet.
- TsQueries.IterateByTime: only from <= to; the descending branch may read the slot behind the last index.
- TslBytes.WriteTslBytes: times of a 32-bit clock, as configured; 64-bit times change only the entry size.
- Power loss inside garbage collection and inside a start, and faults of the flash itself: a torn copy uses up the room that the space argument needs.
- User statuses and deletion marks of time series entries: they do not change what is visited.
- Callbacks that stop an iteration early.
- Hash functions and seeding, hashes of strings and bytes, the default element, and the side channel `temp_key`.
- Memory allocation, pointer layout, the macros of `stb_ds.h`, overflow of sizes, and `stbds_strreset`.
- FlashDB's locks, logging, path names, the LIBC and FAL backends, big-endian machines, combined sectors, default values, automatic updates, fixed blob sizes, and write granularities above one bit.
- Reading a value into a buffer shorter than the value.
- Wi-Fi, web sockets, FTP, file handles, threads, timers, events and preferences: thin layers over ESP-IDF and FreeRTOS.
- The forwarding wrappers `include/KVDB.hpp` and `include/KVHandle.hpp`, and the small utilities for addresses, identifiers and log boxes.
