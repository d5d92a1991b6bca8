# The cdb statistics cache, verified

This project models, in Dafny, the shared-memory statistics cache of this MySQL tree (`cdb/`) and two data
structures of its client (`client/readline.cc`, `client/completion_hash.cc`), and proves what they promise.

`dafny verify dfyconfig.toml` checks everything.

How the modules build on each other:

- `Bytes`, `Arithmetic`, `Lists`, `Options`: little-endian words, division facts, sequences.
- `ChunkAllocators`: the pool of linked chunks. Free list and chains partition it in every state.
- `Links`, `HashMaps`: nodes on a free list, or on a bucket list and the recency list at once. The class keeps
  the linked lists in arrays, as the code does; its abstract value is a list of entries, newest first.
- `RecencyMaps`: that abstract value, a bounded map in recency order, and its laws.
- `CacheAccesses`: the public operations, iterators, dump and recovery; `Codec` has their byte formats,
  `CleanScan` the scan that restarts, `Binlogs` the rotating log.
- `BucketCopies`: a cache copied bucket by bucket.
- `CacheRuns`: all sequences of operations. `Recovery`: all runs with dumps and crashes, on abstract values.
  `LargeDumps`: a run whose dump is too large for its size to be returned. `CrashRuns`: the real cache follows them.
- `Murmur`, `HashValues`, `HashedKeys`, `ShmMaps`: the hash and its inverse, a hash worked out, why a hash-keyed map is
  exact, the map and its iterator.
- `Statistics`, `Recorders`, `TabDmls`, `TabRecorders`: what is recorded. `StatMaps`: the recorders on the real map.
  `SegmentSwitch`: the double buffer as a state machine over all interleavings. `SwitchedStatistics` puts both together.
- `Md5`, `LineReaders`, `CompletionHashes`: the remaining cores.

Handles are indices, `-1` the invalid one. Integers are unbounded; wrap-around and signedness are written out where
the code relies on or falls for them: hash words, bit counts, clock differences, length bytes, the bucket number of
a key, the lengths of values and buffers, the size of a dump file. A length can be computed with (`LenOk`) if it and
the chunk size less one add up to less than 2^31; in every reachable state all lengths are such.

Where comments in the code say something else, the model follows the code: the name count of a table key
carries 255 names, not 256; string lengths are read back as signed bytes; `core_recover` goes round once more
after the last record; a value of no bytes cannot be inserted, but can replace one; a log record of any of the last
eight lengths that `WriteToBinLog` lets through does not fit its buffer; a zero byte ends a line of batch input;
a dump whose size is negative as a 32-bit number is taken for a failed one, and the log is kept.

## Model

| member | source | states |
|---|---|---|
| `ChunkAllocators.ChunkNumExact` | cdb/tfc_cache_chunk_alloc.cpp:159-168 | the 32-bit rounding-up formula gives the number of chunks that a chain of len bytes needs, counted chunk by chunk, if and only if len and the chunk size less one add up to less than 2^31 |
| `ChunkAllocators.LongLengthIsNegative` | cdb/tfc_cache_chunk_alloc.cpp:159-168 | a length of 2^31 gives a negative number of chunks, for every chunk size up to 2^30 |
| `ChunkAllocators.PartitionTake` | cdb/tfc_cache_chunk_alloc.cpp:7-26 | taking any number of chunks off the free list keeps free list and chains a partition of the pool |
| `ChunkAllocators.PartitionGive` | cdb/tfc_cache_chunk_alloc.cpp:28-41 | giving a whole chain back keeps free list and chains a partition of the pool |
| `ChunkAllocators.CollectScatter` | cdb/tfc_cache_chunk_alloc.cpp:170-227 | gathering after scattering returns exactly the data, for every length and chain, exact multiples of the chunk size included |
| `ChunkAllocators.ChunkAllocator.constructor` | cdb/tfc_cache_chunk_alloc.cpp:43-60 | a new pool is valid, with every chunk free |
| `ChunkAllocators.ChunkAllocator.FreeListInsert` | cdb/tfc_cache_chunk_alloc.cpp:135-141 | pushes one chunk on the linked free list; only its link changes |
| `ChunkAllocators.ChunkAllocator.FreeListRemove` | cdb/tfc_cache_chunk_alloc.cpp:143-156 | pops the first chunk; fails exactly on an empty list |
| `ChunkAllocators.ChunkAllocator.Malloc` | cdb/tfc_cache_chunk_alloc.cpp:7-26 | fails exactly for no chunks, a negative number or too many; else a new chain of that many chunks, the free count down by as much, every other chain and its data untouched; the pool stays valid if and only if the number is not negative |
| `ChunkAllocators.ChunkAllocator.Free` | cdb/tfc_cache_chunk_alloc.cpp:28-41 | the chain is gone, its chunks are free again, every other chain and its data untouched |
| `ChunkAllocators.ChunkAllocator.Merge` | cdb/tfc_cache_chunk_alloc.cpp:170-203 | copies exactly the stored bytes to the buffer position, or refuses and changes nothing when the room is too small |
| `ChunkAllocators.ChunkAllocator.Split` | cdb/tfc_cache_chunk_alloc.cpp:205-227 | the chain then holds exactly the data; no byte of any other chain changes |
| `ChunkAllocators.ChunkAllocator.Reallocate` | cdb/tfc_cache_hash_map.cpp:224-252 | freeing a chain and allocating its replacement cannot run short when the free chunks and the old chain together suffice |
| `ChunkAllocators.ChunkAllocator.VerifyPoolData` | cdb/tfc_cache_chunk_alloc.cpp:62-88 | the walk of the free list ends and re-opening succeeds exactly when the parameters match |
| `Links.UnlinkKeeps` | cdb/tfc_cache_hash_map.cpp:351-383 | taking any node out of a doubly linked list leaves the others linked both ways, in order |
| `Links.PushKeeps` | cdb/tfc_cache_hash_map.cpp:332-349 | a node from elsewhere becomes the new head, linked both ways |
| `Links.RemovedKeeps` | cdb/tfc_cache_hash_map.cpp:488-529 | removing a node, or one that is on no list, gives the right head and tail; other lists do not notice |
| `Links.FrontKeeps` | cdb/tfc_cache_hash_map.cpp:443-464 | moving or adding a node to the front gives a list linked both ways with the right ends |
| `RecencyMaps.LookupAfter` | cdb/tfc_cache_access.cpp:87-225 | dictionary laws: what touching, setting and cleaning do to every key, whatever the recency order |
| `RecencyMaps.LookupDrop` | cdb/tfc_cache_access.cpp:263-293 | deleting a key removes it and nothing else |
| `RecencyMaps.StepsStayWithin` | cdb/tfc_cache_access.cpp:87-225 | no operation exceeds the nodes or the chunks, and keys stay distinct |
| `HashMaps.PlacedTouch` | cdb/tfc_cache_hash_map.cpp:443-464 | moving a node to the front keeps every node on its lists exactly once |
| `HashMaps.PlacedDelete` | cdb/tfc_cache_hash_map.cpp:386-404 | a deleted node leaves its bucket list and the recency list for the free list, every node still placed once |
| `HashMaps.PlacedInsert` | cdb/tfc_cache_hash_map.cpp:406-425 | a free node joins its key's bucket list and the recency list, every node still placed once |
| `HashMaps.HashMap.constructor` | cdb/tfc_cache_hash_map.cpp:61-94 | a new map is valid and empty, with the given limits |
| `HashMaps.HashMap.DeleteFromAddList` | cdb/tfc_cache_hash_map.cpp:488-529 | unlinks a node from the recency list; a node on no list is left alone |
| `HashMaps.HashMap.InsertAddListHead` | cdb/tfc_cache_hash_map.cpp:443-464 | the node is at the front, the rest in its old order, both ends right |
| `HashMaps.HashMap.SearchBucket` | cdb/tfc_cache_hash_map.cpp:140-158 | the bucket walk finds the node exactly if some entry has the key |
| `HashMaps.HashMap.FindNode` | cdb/tfc_cache_hash_map.cpp:140-158 | finds exactly the keys present, and a hit moves to the front of the recency list |
| `HashMaps.HashMap.InsertNode` | cdb/tfc_cache_hash_map.cpp:160-182 | for an absent key and a length that can be computed with: fails exactly when nodes or chunks run out or the value is empty, else the new entry is in front; all list invariants kept |
| `HashMaps.HashMap.UpdateNode` | cdb/tfc_cache_hash_map.cpp:209-258 | for a length that can be computed with: fails exactly when the chunks do not suffice, and then changes nothing; else the new value is in front |
| `HashMaps.HashMap.FreeNode` | cdb/tfc_cache_hash_map.cpp:386-404 | the node's chunks are freed and it leaves its bucket list; the lists of all other nodes stay right |
| `HashMaps.HashMap.DeleteNode` | cdb/tfc_cache_hash_map.cpp:309-330 | exactly this entry is gone, order and values of the others unchanged |
| `HashMaps.HashMap.Reopen` | cdb/tfc_cache_hash_map.cpp:96-138 | re-opening any reachable image without initialising ends, and succeeds exactly when all four parameters match |
| `HashMaps.HashMap.MergeNodeData` | cdb/tfc_cache_hash_map.h:309-312 | gives the bytes of the entry, or refuses and changes nothing when the room is too small |
| `HashMaps.HashMap.BucketMembers` | cdb/tfc_cache_hash_map.h:291-307 | a bucket list holds exactly the entries whose keys have its number, each once |
| `HashMaps.HashMap.BucketHolds` | cdb/tfc_cache_hash_map.h:233-236 | a bucket list holds exactly the entries whose first four key bytes, as a number with the low byte first, leave the bucket's number modulo the number of buckets |
| `CacheAccesses.CacheAccess.Get` | cdb/tfc_cache_access.cpp:18-34 | the stored value, its length and flag, or not found, or the error for a buffer whose size is too small as a signed number; a hit moves to the front in all cases |
| `CacheAccesses.CacheAccess.GetKey` | cdb/tfc_cache_access.cpp:66-81 | the same without the data |
| `CacheAccesses.CacheAccess.Set` | cdb/tfc_cache_access.cpp:87-133 | for a length that can be computed with and a value that fits the buffers of the log: fails exactly when there is no room for it; a failed set changes no value; a dirty set is logged once |
| `CacheAccesses.StageLog` | cdb/tfc_cache_access.cpp:105-130 | building the record in the buffer, an eight-byte expiry time included, stays inside it and gives the record |
| `CacheAccesses.LoggableLengths` | cdb/tfc_cache_access.cpp:105-130 | all copies of a set and of the log behind it stay inside their buffers if and only if the value has at most MAX_BINLOG_ITEM_LEN - 36 bytes |
| `CacheAccesses.LongestValueIsNotLoggable` | cdb/tfc_cache_access.cpp:124-127 | the longest value that the assertion lets through is not one of them |
| `CacheAccesses.CacheAccess.MarkClean` | cdb/tfc_cache_access.cpp:194-225 | the entry is clean and in front, and the log has one record more, exactly if the key is present |
| `CacheAccesses.CacheAccess.Del` | cdb/tfc_cache_access.cpp:263-293 | the key is gone and the log has one record more, exactly if it was present |
| `CacheAccesses.CacheAccess.OldestKey` | cdb/tfc_cache_access.cpp:321-332 | the last entry in recency order, which stays where it is |
| `CacheAccesses.CacheAccess.NextDirty` | cdb/tfc_cache_access.h:128-152 | the iterator goes on to the next dirty entry and skips no dirty one |
| `CacheAccesses.CacheAccess.MarkCleanAll` | cdb/tfc_cache_access.cpp:414-439 | the scan that restarts after each marking ends, with the list that the restarting scan describes, and the log has one record more for each key marked, in that order; if all values fit the buffer, every entry whose first four key bytes leave the remainder is clean, and every other as it was |
| `Codec.SelectedIsClass` | cdb/tfc_cache_access.cpp:429-435 | the filter lets a key through if and only if the number in its first four bytes leaves the remainder, negative arguments being read as unsigned |
| `CleanScan.CleanedListLaws` | cdb/tfc_cache_access.cpp:414-439 | no entry is lost and only flags of matching entries change; every matching entry ends clean exactly if no oversized value stops the scan before one, in particular if all values fit its buffer |
| `CleanScan.ScanCleans` | cdb/tfc_cache_access.cpp:414-439 | the same condition, both directions, from any point of the scan |
| `CleanScan.MarkedKeys` | cdb/tfc_cache_access.cpp:414-439 | if all values fit the buffer, the keys marked are the matching ones of the head and of the dirty entries, once each, in recency order |
| `CleanScan.CleanedLookup` | cdb/tfc_cache_access.cpp:414-439 | what marking does to every key, by its first four bytes: clean in the remainder class, unchanged outside it |
| `CacheAccesses.CacheAccess.CoreDumpMem` | cdb/tfc_cache_access.cpp:443-479 | the buffer holds the encoded head and other dirty entries, as far as filter and room allow: none whose first four key bytes leave another remainder, and all that leave this one if there is room |
| `Codec.DumpedAre` | cdb/tfc_cache_access.cpp:443-479 | which entries are dumped: head or dirty, and in the remainder class by the key bytes; all of these if there is room |
| `CacheAccesses.CacheAccess.CoreRecoverMem` | cdb/tfc_cache_access.cpp:482-516 | sets the complete records of any buffer in order; its assertion fails exactly when one does not fit; logs each record once, if there is a log |
| `CacheAccesses.CopyByDump` | cdb/tfc_cache_access.cpp:443-516 | a filtered dump with room for everything, then recovery into an empty cache of the same size, with or without a log: the records read back are the chosen entries, but for an empty one at the end; the assertion fails exactly if one of them is empty; otherwise the copy is those records reversed and all dirty, and its log has them in order; so all chosen entries come back if and only if none is empty |
| `CacheAccesses.CacheAccess.CoreDumpBucketMem` | cdb/tfc_cache_access.cpp:519-552 | the buffer holds the encoded entries of the bucket list in order, clean ones too, as far as there is room, and the result tells exactly whether there was; they are entries whose key numbers leave the number of the bucket, and if there was room, all of these |
| `CacheAccesses.CacheAccess.CoreRecoverBucketMem` | cdb/tfc_cache_access.cpp:555-595 | sets the complete records of any buffer in order, up to the first that does not fit, and returns the bytes of those set; succeeds exactly if all fit and no record is cut short |
| `BucketCopies.BucketCopied` | cdb/tfc_cache_access.cpp:519-595 | if a cache holds the first buckets of another of the same size in which no value is empty, the records of the next bucket all fit, and then it holds that one too |
| `BucketCopies.CopyByBuckets` | cdb/tfc_cache_access.cpp:519-595 | dumping all buckets one after the other and recovering each into an empty cache of the same size: every call succeeds and the copy has exactly the entries of the original, clean ones included, all dirty, if and only if no value is empty |
| `Codec.DumpedChosen` | cdb/tfc_cache_access.cpp:443-479 | with room for everything, a filtered dump is exactly the chosen entries of the dump list, in order |
| `Codec.ChosenMembers` | cdb/tfc_cache_access.cpp:459-464 | an entry is chosen if and only if it is on the list and the filter selects its key |
| `Recovery.DumpRoundTrip` | cdb/tfc_cache_access.cpp:443-516 | every dumped entry fits when its turn comes if and only if none is empty, and then the result is the dump list reversed and all dirty |
| `Codec.LogRoundTrip` | cdb/tfc_cache_access.cpp:106-130 | a log record decodes to what was logged |
| `Codec.Formats` | cdb/tfc_cache_access.cpp:106-130 | log records and dump entries byte by byte |
| `Codec.ParseSerialize` | cdb/tfc_cache_access.cpp:482-516 | parsing a dump gives back its records; only a final empty one is lost |
| `CacheAccesses.CacheAccess.CoreDump` | cdb/tfc_cache_access.cpp:598-659 | the file holds the dump list up to the first entry that is too large, the old file is kept as the last one, and the size is returned as a signed 32-bit number |
| `CacheAccesses.CacheAccess.CoreRecover` | cdb/tfc_cache_access.cpp:661-709 | sets all records of the file, and once more the last one if that is empty, since the end of file shows late; fails exactly on an oversized record, with those before it set |
| `CacheAccesses.CacheAccess.StartUp` | cdb/tfc_cache_access.cpp:739-809 | a new cache is rebuilt from dump and surviving log, any other left alone |
| `CacheAccesses.CacheAccess.TimeCheck` | cdb/tfc_cache_access.cpp:813-851 | a due dump is written, and it empties the log exactly if its size is not taken for a failure; otherwise nothing changes |
| `Recovery.ClearsLogExactly` | cdb/tfc_cache_access.cpp:813-851 | a dump empties the log if and only if its size modulo 2^32 is less than 2^31 |
| `CacheRuns.PerformOps` | cdb/tfc_cache_access.cpp:18-293 | over every sequence of get, get_key, set, del and mark_clean with lengths that can be computed with, results and contents are those of the bounded map in recency order |
| `CacheRuns.RunIsStored` | cdb/tfc_cache_access.cpp:18-293 | after any sequence of operations the cache holds under each key what the operations and their return codes say: the value and flag of the last set that succeeded, unless deleted since; cleaned if marked since |
| `CacheRuns.StoredAnswers` | cdb/tfc_cache_access.cpp:18-293 | after any sequence every return code and every value read is the one that these contents give |
| `CacheRuns.UsedKeyIsFirst` | cdb/tfc_cache_hash_map.cpp:443-464 | the key of an operation comes first in the recency order, if it is stored afterwards, and all others keep their order |
| `CacheRuns.RunStaysWithin` | cdb/tfc_cache_access.cpp:18-293 | in every state of a run keys are distinct and nodes and chunks suffice |
| `CacheRuns.FailedSetChangesNothing` | cdb/tfc_cache_access.cpp:87-133 | after any run, a set succeeds exactly when the value fits, and changes at most the value of its own key |
| `Recovery.RunWithin` | cdb/tfc_cache_access.cpp:87-851 | in every state of every run with dumps, crashes, dirty and clean sets, keys are distinct, and nodes and chunks suffice |
| `Recovery.CrashLosesNoDirtyData` | cdb/tfc_cache_access.cpp:739-809 | for every coherent run with any number of crashes and no value longer than recovery can read: every non-empty dirty entry is back with its value and dirty. A run is coherent if its last dump emptied the log and no clean set since then gave another value to a key on file |
| `Recovery.DirtyComesBack` | cdb/tfc_cache_access.cpp:739-809 | for every coherent run: no replayed non-empty insert fails, every rebuilt entry has the lost value, and a dirty entry is back as it was if and only if the part of the dump that recovery reads and the log hold a non-empty value of it that no later record deletes |
| `Recovery.RebuiltKeys` | cdb/tfc_cache_access.cpp:739-809 | exactly which keys come back after a coherent run: those with such a value on file |
| `Recovery.RebuiltFlags` | cdb/tfc_cache_access.cpp:774-804 | the flag of every entry that comes back after a coherent run: dirty, unless the last record of its key in the log is a mark_clean, and then clean |
| `Recovery.LogAloneIsExact` | cdb/tfc_cache_access.cpp:774-804 | if all operations of a run are logged and none is a dump, the log brings the cache back as it was: values, flags and recency order |
| `Recovery.LongEntryIsLost` | cdb/tfc_cache_access.cpp:669-690 | a value one byte longer than the buffer of recovery, dumped, is dirty before the crash and gone after it, so the condition on long values is needed |
| `Recovery.EmptiedEntryIsLost` | cdb/tfc_cache_access.cpp:598-709 | an entry emptied and then dumped is dirty before the crash and gone after it, so the condition on empty values is needed |
| `LargeDumps.LargeDumpBringsOldValueBack` | cdb/tfc_cache_access.cpp:598-851 | a run of sets of at most 32 MiB whose dump has between 2^31 and 2^32 bytes: the log stays, and after a crash a key has an older value, dirty, so the condition on the size is needed |
| `CrashRuns.LargeRunIsTaken` | cdb/tfc_cache_access.cpp:598-851 | that run is one of the real cache: all sets are in the limits and its log fits the log files |
| `Recovery.CleanSetExact` | cdb/tfc_cache_access.cpp:87-133 | after any coherent run, a clean set that fits leaves what recovery rebuilds in agreement with the cache if and only if the run stays coherent |
| `Recovery.CleanSetLosesData` | cdb/tfc_cache_access.cpp:87-133 | a clean set of another value for a key on file, after which a crash loses the dirty entry of another key |
| `CrashRuns.Restart` | cdb/tfc_cache_access.cpp:739-809 | crash and restart of the real cache is the crash step of the model |
| `CrashRuns.FromDumpOnEmpty` | cdb/tfc_cache_access.cpp:661-709 | on an empty cache the late end of file changes nothing: recovery rebuilds what it reads of the dump |
| `CrashRuns.EffectiveAll` | cdb/tfc_cache_access.cpp:813-823 | unless the cache only logs, all operations of a run take effect; if it does, the checks of the time do not |
| `CrashRuns.Execute` | cdb/tfc_cache_access.cpp:87-851 | every run of the real cache with dirty and clean sets, cleanings, deletes, dumps and crashes, with dumping or with the log alone, is the run of the model as long as the log since it was last emptied is smaller than all log files together |
| `CrashRuns.ExecuteAndCrash` | cdb/tfc_cache_access.cpp:87-851 | crash recovery of the real cache after every such coherent run: exactly what is on file comes back, with the value it had and the flag that the log gives it, a dirty entry as it was; if no value is longer than recovery can read, all non-empty dirty entries are back; if every operation is logged and none is a dump, the cache is as it was |
| `Binlogs.RenameKeeps` | cdb/tfc_binlog.cpp:465-491 | renaming to a name not in use changes no record and no order |
| `Binlogs.OverflowIsLate` | cdb/tfc_binlog.cpp:440-491 | rotation drops records only once the files hold as much as all of them just full |
| `Binlogs.BinLog.ShiftFiles` | cdb/tfc_binlog.cpp:440-491 | nothing happens below the size limit; at the limit every file gets the next number, no live file is overwritten, exactly the oldest one is dropped, and there is no newest file; a single file stays |
| `Binlogs.BinLog.WriteToBinLog` | cdb/tfc_binlog.cpp:387-438 | a record of allowed length that fits the staging buffer is appended, lengths not allowed are refused; afterwards the files are the last pieces of the history, each closed by the record that filled it; nothing is dropped while less than the capacity of all files has been written |
| `Binlogs.RotatedWrite` | cdb/tfc_binlog.cpp:387-491 | appending and rotating keeps the files the last pieces of the history, cut wherever a file is just full |
| `Binlogs.FilesAreBounded` | cdb/tfc_binlog.cpp:452-489 | after any history, with two files or more: the newest file is below the limit, every other one is full, but not without its last record |
| `Binlogs.BinLog.Bounded` | cdb/tfc_binlog.cpp:440-491 | all files together have a bound that does not depend on the history, if there are two files or more; a single one keeps every record |
| `Binlogs.RecordStaging` | cdb/tfc_binlog.cpp:423-425 | the three copies into the staging buffer stay inside it if and only if the record has at most MAX_BINLOG_ITEM_LEN - 8 bytes |
| `Binlogs.LongestRecordDoesNotFit` | cdb/tfc_binlog.cpp:395-425 | the longest record that the length test lets through is not one of them |
| `Binlogs.StageRecord` | cdb/tfc_binlog.cpp:421-427 | time, length and record, one behind the other |
| `Binlogs.BinLog.ClearAllBinLog` | cdb/tfc_binlog.cpp:52-80 | no record survives |
| `Binlogs.BinLog.ReadRecordFromBinLog` | cdb/tfc_binlog.cpp:275-331 | returns the next surviving record, or the end, or the error for one that is too long |
| `Binlogs.BinLog.ReadAll` | cdb/tfc_binlog.cpp:82-331 | reading from the start returns each surviving record once, oldest first, and stops |
| `Murmur.MurmurHash3X64128` | cdb/MurmurHash3.cpp:255-332 | block loop, tail switch and finalization compute the hash |
| `Murmur.TailWord` | cdb/MurmurHash3.cpp:294-314 | the exclusive or of the shifted bytes, in the order of the switch, is the little-endian word of the bytes |
| `Murmur.MixTail` | cdb/MurmurHash3.cpp:294-316 | the fall-through of the switch mixes in both words, one or none, by the length of the tail |
| `Murmur.RestUndone` | cdb/MurmurHash3.cpp:255-332 | the explicit inverse: for a key of any length, the hash and the key's leading blocks give back its last bytes, up to sixteen |
| `Murmur.HashUndone` | cdb/MurmurHash3.cpp:255-332 | for any seed, the inverse gives back every key of up to sixteen bytes from its hash |
| `Murmur.FinishUndone` | cdb/MurmurHash3.cpp:317-332 | finalization is undone, for every pair of words and every length |
| `Murmur.HashInjective` | cdb/MurmurHash3.cpp:39-332 | for any seed, no two inputs of the same length up to 16 bytes share a hash |
| `HashValues.HashOfOneTwo` | cdb/MurmurHash3.cpp:255-332 | the hash of one key as two literal words |
| `HashedKeys.KeyHashInjective` | cdb/tfc_shm_map.h:103-110 | no two keys of the three statistics maps share a stored key |
| `HashValues.StoredKeyOfOneTwo` | cdb/tfc_shm_map.h:103-110 | the sixteen literal bytes under which the pair (1, 2) is stored |
| `HashedKeys.HashedMapIsExact` | cdb/tfc_shm_map.h:37-88 | over every run the hash-keyed map returns what a map by the real key returns, and holds the same entries |
| `HashedKeys.RunIsDictionary` | cdb/tfc_shm_map.h:37-88 | after any sequence of calls the map holds what calls and results say: the inserts that were done and not erased since |
| `HashedKeys.DictionaryAnswers` | cdb/tfc_shm_map.h:37-88 | after any sequence find, get and erase answer as a dictionary with these contents does |
| `ShmMaps.ShmMap.CacheKey` | cdb/tfc_shm_map.h:226-229 | the stored key is the hash of the key |
| `ShmMaps.ShmMap.FindCached` | cdb/tfc_shm_map.h:236-239 | on the key cached before, as in a map by the real key |
| `ShmMaps.ShmMap.GetCached` | cdb/tfc_shm_map.h:258-261 | on the key cached before, as in a map by the real key; a miss leaves the caller's value alone |
| `ShmMaps.ShmMap.InsertCached` | cdb/tfc_shm_map.h:269-272 | on the key cached before, as in a map by the real key; fails exactly when the cache is full |
| `ShmMaps.ShmMap.EraseCached` | cdb/tfc_shm_map.h:280-283 | on the key cached before, as in a map by the real key |
| `ShmMaps.ShmMap.Find` | cdb/tfc_shm_map.h:241-245 | as in a map by the real key |
| `ShmMaps.ShmMap.Get` | cdb/tfc_shm_map.h:263-267 | as in a map by the real key; a miss leaves the caller's value alone |
| `ShmMaps.ShmMap.Insert` | cdb/tfc_shm_map.h:274-278 | as in a map by the real key; fails exactly when the cache is full |
| `ShmMaps.ShmMap.Erase` | cdb/tfc_shm_map.h:285-289 | as in a map by the real key |
| `ShmMaps.PerformAll` | cdb/tfc_shm_map.h:219-298 | any sequence of calls has the results of a bounded map keyed by the keys themselves |
| `ShmMaps.ShmMapIterator.InitBegin` | cdb/tfc_shm_map.h:151-168 | begins at the oldest entry, with its value if the buffer can take it, or is the end on an empty cache |
| `ShmMaps.ShmMapIterator.Next` | cdb/tfc_shm_map.h:170-193 | goes on to the next younger entry; after the youngest it is the end and the recency order is as before the walk |
| `ShmMaps.ShmMapIterator.Extract` | cdb/tfc_shm_map.h:195-202 | the value shown, exactly if the entry fits the buffer |
| `ShmMaps.ForEach` | cdb/tfc_shm_map.h:151-209 | on any cache the walk ends, visits every entry once from oldest to newest, and leaves the recency list as it was; values of the size of the value type are seen as stored, longer ones not, shorter ones in front of the bytes shown before |
| `ShmMaps.VisitsArePairs` | cdb/tfc_shm_map.h:151-209 | if all values have the size of the value type, the visits are the entries |
| `Statistics.CommStat.Add` | cdb/cdb.cpp:301-330 | the bucket loop with its early exit counts the time in every bucket whose bounds it lies strictly between |
| `Statistics.OneBucket` | cdb/cdb.cpp:304-307 | no time lies in two buckets |
| `Statistics.BucketCounts` | cdb/cdb.cpp:304-329 | each bucket counts the times strictly between its two bounds, given as numbers |
| `Statistics.LargestDouble` | cdb/cdb.cpp:306-312 | the last bound is the largest double |
| `Statistics.AddedIsSummary` | cdb/cdb.cpp:301-330 | adding a time to the statistics of a list gives the statistics of the longer list |
| `Statistics.BucketsAddUp` | cdb/cdb.cpp:324-329 | the buckets add up to the total but for the times of at most 0.02 or exactly on a threshold |
| `Recorders.Elapsed` | cdb/cdb.cpp:340 | the wrapped difference is never negative, and the true one if the clock did not go back |
| `Recorders.RecordLookup` | cdb/cdb.cpp:342-379 | one recording updates its own key if there is room, and no other |
| `Recorders.RecordsAreExact` | cdb/cdb.cpp:332-480 | after any sequence of recordings the map holds exactly the keys seen first, as many as there is room for, each with count, sum, minimum, maximum and buckets of all its own times |
| `StatMaps.PackedSet` | cdb/cdb.cpp:342-379 | storing a record in the map of bytes is storing it in the map of statistics |
| `StatMaps.StatMap.UpdateRecord` | cdb/cdb.cpp:360-371 | get, add and insert of a record that is there, through the bytes of the map, adds the time to its statistics |
| `StatMaps.StatMap.AddRecord` | cdb/cdb.cpp:332-380 | find, then insert or get, add and insert again, on the shared-memory map, is one recording; nothing when switched off |
| `StatMaps.StoredRecordsAreExact` | cdb/cdb.cpp:332-480 | the same of the entries as stored, key and statistics as bytes under the hashes of the keys |
| `StatMaps.RecordEvents` | cdb/cdb.cpp:332-480 | on a cache that was reset, the recorder called for any list of events leaves under the hash of every key exactly the bytes of its key and of the statistics of all its times, or nothing if it came too late |
| `Recorders.ExtremesAreTimes` | cdb/cdb.cpp:309-323 | the recorded minimum and maximum are times of the key and bound all of them |
| `SegmentSwitch.SwitchIsSafe` | cdb/cdb_shm_mgr.cpp:127-159 | in every interleaving of any number of recorders and patient switches, on top of what the locks give: no recorder in a segment being reset, an empty new current, no use of a deleted cache object, no lost update, nobody waiting for someone who waits |
| `SegmentSwitch.HistoryIsStored` | cdb/cdb.cpp:342-379 | in every interleaving at all, the history of a segment is the list of records stored in it since its reset, read off the steps alone |
| `SegmentSwitch.NothingIsLost` | cdb/cdb_shm_mgr.cpp:127-159 | with patient switches a segment holds exactly these records, each applied once, in order |
| `SegmentSwitch.RecordingGoesThrough` | cdb/cdb.cpp:342-379 | a recorder that finds the current segment free can go through, adds its record and changes nothing else |
| `SegmentSwitch.SwitchGoesThrough` | cdb/cdb_shm_mgr.cpp:127-159 | a switch that finds both segments free can go through: an empty segment is current then, the other as it was |
| `SegmentSwitch.LocksAlwaysHold` | cdb/cdb_shm_mgr.cpp:127-159 | in every interleaving at all, with switches at any time: two distinct segments, nobody inside either at the swap, one recorder per segment, no circle of waits |
| `SegmentSwitch.PatienceIsExact` | cdb/cdb.cpp:60-77 | a switch that starts now can never overlap a recorder if and only if no recorder refers to the standby segment |
| `SegmentSwitch.NoWaitCycle` | cdb/cdb_shm_mgr.cpp:142-158 | whoever holds a lock that someone waits for is not waiting |
| `SwitchedStatistics.SegmentsAreExact` | cdb/cdb.cpp:332-480 | under every such interleaving each segment holds the exact statistics of the records that the steps of the run stored in it since its reset |
| `TabDmls.TabDml.MarshalSize` | cdb/cdb.cpp:496-507 | exactly the bytes that statistics and key take |
| `TabDmls.TabDml.MarshalKey` | cdb/cdb.cpp:509-532 | the key fills the buffer behind the statistics, its hash is returned, and every database name of the object is overwritten by its table name |
| `TabDmls.TabDml.MarshalStats` | cdb/cdb.cpp:556-560 | the statistics go in front, the key stays |
| `TabDmls.TabDml.DeMarshalKey` | cdb/cdb.cpp:534-554 | reads the key that the buffer holds |
| `TabDmls.KeyRoundTrip` | cdb/cdb.cpp:509-554 | a key reads back as itself if and only if it has at most 255 names and no string of more than 127 bytes |
| `TabDmls.EncodeKeyInjective` | cdb/cdb.cpp:509-532 | distinct keys within these bounds have distinct encodings |
| `TabDmls.SecondMarshal` | cdb/cdb.cpp:519-529 | marshalling an object twice gives the same key if and only if every table has the name of its database |
| `TabDmls.MarshalAndRead` | cdb/cdb.cpp:496-576 | what one object marshals another reads back, as it was before marshalling |
| `TabDmls.TabStatsValue` | cdb/cdb.cpp:584-635 | the statistics of each operation type after any sequence: exact, except that a minimum not started by the first event is zero |
| `TabDmls.TabMinimum` | cdb/cdb.cpp:607-630 | the minimum of a type is its least time if and only if the first event is of that type or some time is zero |
| `TabDmls.TabMinimumLost` | cdb/cdb.cpp:607-630 | an insert followed by an update, where the reported minimum of the update is wrong |
| `TabRecorders.TabRecordLookup` | cdb/cdb.cpp:584-641 | one recording updates its own key if there is room, and no other |
| `TabRecorders.RecordFitsAgain` | cdb/cdb.cpp:619-633 | a record that is there always finds room for its update, so only first inserts are refused |
| `TabRecorders.TabRecordsAreExact` | cdb/cdb.cpp:584-641 | over any times of any keys with records of any sizes, refused or not: a key that once found room has the statistics of all its times from then on, a key that never did has none |
| `Md5.Md5Context.AddCount` | cdb/tfc_md5.cpp:105-111 | the two count words are eight times the byte count modulo 2^64, the carry found by comparison |
| `Md5.Md5Context.Update` | cdb/tfc_md5.cpp:97-135 | however the message is cut, the context is that of the concatenation, for every input that the 32-bit index can walk |
| `Md5.GuardIsExact` | cdb/tfc_md5.cpp:123-124 | then the 32-bit test finds another block exactly if there is one |
| `Md5.BlocksStayInside` | cdb/tfc_md5.cpp:117-124 | the block loop reads no byte beyond an input of less than 2^32 bytes if and only if the buffer is empty before it, or buffer and input together have less than 2^32 bytes |
| `Md5.WholeBlocksFit` | cdb/tfc_md5.cpp:97-135 | so parts of whole blocks, with any last part, are always taken |
| `Md5.Md5Context.Final` | cdb/tfc_md5.cpp:141-165 | the digest of section 3 of RFC 1321 over the padded message, for any block transformation; the context is cleared |
| `Md5.DigestBytes` | cdb/tfc_md5.cpp:79-160 | the digest byte by byte from the four words, low byte first, the words starting from the four of section 3.3 of RFC 1321 |
| `Md5.InitialBytes` | cdb/tfc_md5.cpp:86-89 | the initial words are the bytes that section 3.3 of RFC 1321 gives |
| `Md5.DigestOfParts` | cdb/tfc_md5.cpp:79-165 | any number of updates gives the digest of the whole message |
| `Md5.PaddedInjective` | cdb/tfc_md5.cpp:144-158 | two messages with the same padded form are the same |
| `LineReaders.LineBuffer.Grow` | client/readline.cc:145-168 | growing keeps the bytes and the range, and is refused only for more than the largest size less one block |
| `LineReaders.LineBuffer.FillBuffer` | client/readline.cc:137-198 | the line so far moves to the front and new bytes follow it, for every short read; at the end of the file a newline stands in |
| `LineReaders.LineBuffer.InternReadLine` | client/readline.cc:202-237 | finds the end of the next line, which a newline or a zero byte makes, the end of the input or a full buffer; the rest of the input is kept |
| `LineReaders.LineBuffer.BatchReadLine` | client/readline.cc:45-59 | the next line without newline and carriage return, or up to and with its zero byte, the last unterminated line as it is, or a piece of a line longer than the limit; nothing is lost, except that behind a zero byte the first byte of what follows may be overwritten |
| `LineReaders.PiecesAreLines` | client/readline.cc:45-59 | within the line limit and without zero bytes before the last byte, the pieces returned are exactly the lines of the text |
| `LineReaders.PiecesAreNotLines` | client/readline.cc:45-59 | with a zero byte before the last byte they are not, however the reads fall |
| `LineReaders.ReadAll` | client/readline.cc:45-237 | for every text and every schedule of short reads: the text comes back piece by piece to its end, and within the limit the pieces are its lines if and only if no byte but the last is zero |
| `CompletionHashes.HashTable.Update` | client/completion_hash.cc:61-112 | one more word under its key and under no other, for any hash function; only an empty key fails |
| `CompletionHashes.HashTable.Find` | client/completion_hash.cc:114-134 | the words entered under the key, newest first, with their count |
| `CompletionHashes.HashTable.AddWord` | client/completion_hash.cc:220-226 | the table holds every prefix of every word added |
| `CompletionHashes.EnteredWords` | client/completion_hash.cc:220-226 | looking up a prefix is filtering the list of added words |
| `CompletionHashes.HashTable.FindAllMatches` | client/completion_hash.cc:159-172 | exactly the added words with the prefix, newest first, with multiplicity |
| `CompletionHashes.HashTable.FindLongestMatch` | client/completion_hash.cc:174-203 | the longest prefix that all matching words share |

## Left out

- CacheAccesses.CacheAccess.CoreRecover: the file is one that a dump has written.
- CacheAccesses.CacheAccess.Set: a value that does not fit the buffers of the log, which the code overruns, is excluded when it would be logged; so is a length that cannot be computed with, for which `ChunkAllocators.ChunkNumExact` and `ChunkAllocators.ChunkAllocator.Malloc` say what goes wrong: the number of chunks is wrong, and if negative it spoils the count of free chunks for good.
- HashMaps.HashMap.InsertNode: lengths that cannot be computed with are excluded, for the same reason.
- HashMaps.HashMap.UpdateNode: lengths that cannot be computed with are excluded, for the same reason.
- CacheRuns.PerformOps: lengths that cannot be computed with are excluded, for the same reason.
- CacheAccesses.CacheAccess.StartUp: the log holds records that the cache has written; the compile-time completeness flag is off.
- CacheAccesses.CacheAccess.CoreRecoverMem: length fields of 2^31 and more, which the code reads as negative, and lengths that cannot be computed with are excluded.
- CacheAccesses.CacheAccess.CoreRecoverBucketMem: the same length fields are excluded.
- CacheAccesses.CopyByDump: values that the log of the copy cannot take are excluded.
- BucketCopies.CopyByBuckets: values that the log of the copy cannot take are excluded; the buffer has room for the largest bucket.
- CacheAccesses.CacheAccess.CoreDumpMem: modulus and remainder are 32-bit values and the modulus is not zero.
- CrashRuns.Execute: values fit the buffers of the log and have lengths that can be computed with; a dump and the clearing of the log are one step; files that rotation has dropped are gone.
- CrashRuns.ExecuteAndCrash: after a dump that left the log as it was, up to the next dump that empties it, nothing is promised: the old log is replayed over a newer dump, which can go wrong as in `LargeDumps.LargeDumpBringsOldValueBack` but need not.
- Binlogs.BinLog.WriteToBinLog: failing file operations are not modelled; the time in a record head is any number; a record that overruns the staging buffer is excluded.
- Binlogs.BinLog.ReadRecordFromBinLog: reading starts at the oldest record, the only start time that recovery uses.
- Md5.Md5Context.Update: an input for which the index of the block loop wraps around, so that the code reads beyond it, is excluded.
- Statistics.CommStat.Add: times are real numbers; the rounding of doubles is not modelled, and counters do not overflow.
- Recorders.Elapsed: times are real numbers; the rounding of doubles is not modelled, and counters do not overflow.
- LineReaders.LineBuffer.FillBuffer: read errors and failing allocation are not modelled.
- CompletionHashes.HashTable.Update: failing allocation is not modelled; bucket chains and word lists are sequences.
- TabDmls.TabDml.DeMarshalKey: the buffer has to hold a key, since the code reads it unchecked.
- SegmentSwitch.SwitchIsSafe: a switch starts when no recorder refers to the standby segment any more; the code relies on its sixty seconds for this.
- StatMaps.StatMap.AddRecord: how 64 bytes hold the statistics is a parameter, which has to represent those that occur.
- StatMaps.StatMap.UpdateRecord: the same parameter.
- StatMaps.RecordEvents: the same parameter.
- TabRecorders.TabRecordsAreExact: keys with the same 128-bit hash share a record, and are taken to have records of the same size.
- ShmMaps.ForEach: nothing else uses the cache during the walk.
- Time stamps and expiry times, which nothing modelled here reads; `get_lru_pre`, `oldest` and `del_node`, which read or delete one node found by the modelled lists.
- Mirror dump and its replay; when a dump is due (wall clock).
- Attaching shared memory, mutexes and spin locks: locks are abstract in the state machine.
- The configuration file reader, segment meta data, usage percentages, `CacheAccessUin`: thin or mostly input and output.
- The MD5 block transformation is a parameter; the 32-bit hash variants are unused.
- `batch_readline_command` and `completion_hash_exists`: not part of this model.
- The server and the other clients of the tree.
