# Verified models of the stateful cores of vbe

This project models, in Dafny 4.11, the parts of the backup tool whose
correctness depends on more than one function: the append-only hash map
`bigmap`, the size-limited persistent cache with its heap, its per-key mutexes
and the content cache on top, the demultiplexer of the gRPC client session, the
copying and moving of snapshot history, the directory cache, the evaluation of
ignore rules, access control entries, and the text form of snapshot sources.

Each module follows one source file. What the source changes in place is a class
whose methods are proved against a specification on values, and the theorems
are proved about that specification, for every input, every run or every
interleaving. `dafny verify dfyconfig.toml` checks everything.

| file | models |
|---|---|
| `ProbeSequence.dfy` | double hashing over a prime number of slots visits every slot |
| `BigmapCodec.dfy`, `TableSizes.dfy`, `PrimeSizes.dfy`, `BigmapTable.dfy`, `Bigmap.dfy` | `internal/bigmap/bigmap_internal.go` |
| `CacheHeap.dfy`, `PersistentCache.dfy` | `internal/cache/persistent_lru_cache.go` |
| `MutexMap.dfy`, `GetOrLoad.dfy` | `internal/cache/mutex_map.go` and `GetOrLoad` |
| `ContentCache.dfy` | `internal/cache/content_cache.go` |
| `GrpcSession.dfy` | the inner session of `repo/grpc_repository_client.go` |
| `SourceInfo.dfy`, `History.dfy` | `snapshot/source.go`, `snapshot/manager.go`, `cli/command_snapshot_copy_move_history.go` |
| `CacheFs.dfy` | `fs/cachefs/cache.go` |
| `IgnoreFs.dfy` | `fs/ignorefs/ignorefs.go` |
| `Acl.dfy`, `Authz.dfy` | `internal/acl/acl_manager.go`, `internal/acl/acl.go`, `internal/auth/authz_acl.go`, `internal/auth/authz.go` |
| `Basics.dfy` | types that several modules share |

## Main results

- **bigmap refines a finite map.** `Bigmap.Run`: every sequence of operations, through any number of growths and segment
  changes, gives the answers of a map from byte strings to byte strings, up to the panic when the list of table sizes is exhausted.
- **The sweep is right for every pattern of failing deletes** (`SweepRun`, `SweepOutcome`), and no interleaving of lock
  sections exceeds the hard limit by more than what hits and rewrites have added since a `Put` last began (`RunsStayNearLimit`,
  `RunsKeepLimit`).
- **One exclusive holder per key** although entries disappear before the unlock (`ExclusiveHolderIsAlone`), no deadlock and no
  leak (`MutexMap.NoDeadlock`, `NoEntryLeaks`); and a key is fetched again only if it was lost in between (`OneFetchIsEnough`).
- **The session never mixes up, doubles or loses messages** (`ChannelsCarryTheirOwn`, `NoPanic`) as long as harmless
  messages arrive, and harmless messages are exactly those that can do no harm (`HarmlessExactly`). After a receive error every
  request made before it is closed or in its sender's hands when the loop stops, which it does after exactly three steps for
  each (`CleanupReachesAll`, `CleanupEndsExactly`).
- **The content cache is transparent** (`ContentCache.Run`): in every history of reads, prefetches, evictions and visible
  corruption, with others interfering, a read is answered as by storage, unless it is a range of a blob whose cached copy was
  corrupted since it was stored.
- **Moving history loses no snapshot** in any store it goes through, whichever storage operation fails (`History.Run`, `MoveArrives`).
- **The directory cache is an LRU list** (`CacheFs.Run`, `RunsKeepGood`, `RunsKeepLimits`) up to the first call that breaks it, and
  both when that happens and when such a call never returns is stated exactly (`Cache.GetEntries`, `RunToFirstBreak`, `HangingRun`).
- **The last matching ignore rule wins** over a whole chain of contexts (`ShouldIncludeByName`).
- **Adding an access entry without overwriting raises levels exactly by what it grants** (`AddedLevelWithoutOverwrite`);
  `AddLowersExactly` and `FailedDeleteLowersExactly` say for every outcome when a level drops.
- **The default access entries give every user, on every target, exactly the level their comments promise**
  (`DefaultLevelIsHighest`, `ManifestAccessLevel`), and on snapshots and policies what was allowed before there were entries, up to
  an exact exception (`DefaultIsLegacyExactly`).
- **`ParseSourceInfo` undoes `String` exactly for printable sources** (`RoundTripExactly`).

## Where the code does less than one might expect

Each is stated with its exact condition.

- Copying history twice is not always the same as copying once: if the destination has no host (as in `user@:/path`), the
  query for existing copies asks for the host "" and finds none, so every run copies again (`CopyAgainIsIdleExactly`).
- In the directory cache, `moveToHead` leaves the old back pointer on the new head. If that entry then expires before anything
  else becomes the head, removing it leaves it in the list (`RemoveEntryLocked`, `BreakingRun`). An entry without an id is
  never found, so storing a second one leaves the first in the list without a map entry (`AddLocked`). If the broken head
  pointed to the tail, the tail gets a successor and stays the tail when it is removed. If it is also empty and the reload
  makes an eviction necessary, the eviction loop removes it for ever, holding the mutex; in all other cases the loop ends
  (`EvictLocked`, `StuckForever`). `HangingRun` gets there with five calls for three directories.
- A policy that says to drop its parents' ignore rules clears only the new, still empty context; the parents' rules apply all
  the same, unless one of the policy's own rules matches (`BuildContext`, `ParentRulesAreDroppedExactly`).
- A cache hit records the *requested* length, which is -1 for a full read, so the byte total is the sum of recorded lengths
  and not of bytes on disk (`TotalIsRecorded`, `FullReadForgetsBytes`), and reading alone can exceed the limit (`HitKeepsLimitExactly`, `HitCanBreakLimit`). A full read makes room for
  one byte too many (`RunsKeepLimit`).
- Range reads of a cached blob are not verified, so after a corruption they are right exactly if the range is intact
  (`BlobHitIsRightExactly`), and not cut off at its end: a range that ends inside the checksum is answered, where storage would refuse it
  (`CachedRangeIsRightExactly`). A blob id shares its cache key with a content id if it is the same, for a content id with a
  prefix, or its rotation by one, for one without (`KeysCollideExactly`).
- The read loop of the gRPC session sends to a closed channel, or blocks for good, on some schedule exactly if a message arrives
  for a request that is not active, or a partial answer for one whose `Send` has failed or may still fail (`HarmlessExactly`). A
  final answer to such a request does no harm.
- If writing the new access entry fails after the old ones were deleted, a level drops exactly if nothing but those entries
  granted it (`FailedWriteLowersExactly`). If deleting one of several old entries fails, a level can drop exactly if only those
  entries granted it and one of them grants less (`FailedDeleteLowersExactly`).

## Model

| member | source | states |
|---|---|---|
| `ProbeSequence.PrimeDividesNoSmallProduct` | internal/bigmap/bigmap_internal.go:81-138 | a prime table size divides no product of two smaller positive numbers |
| `ProbeSequence.ProbesAreDistinct` | internal/bigmap/bigmap_internal.go:209-222 | with n slots, n prime, and a step below n, the first n probes are pairwise different |
| `ProbeSequence.ProbesCoverAllSlots` | internal/bigmap/bigmap_internal.go:209-222 | and so they visit every slot |
| `ProbeSequence.ProbeAdvances` | internal/bigmap/bigmap_internal.go:217-219 | the closed form of a probe is what repeated addition modulo the table size computes |
| `ProbeSequence.TrialDivision` | internal/bigmap/bigmap_internal.go:81-83 | a number without divisors up to its square root is prime, with only 2, 3 and the neighbours of multiples of 6 to try |
| `TableSizes.NextSizeIsLarger` | internal/bigmap/bigmap_internal.go:81-138 | the listed sizes increase strictly, by at least 200 |
| `TableSizes.ProbeSumFits` | internal/bigmap/bigmap_internal.go:214-219 | the sum of slot and step stays below 2^64 for every listed table size |
| `TableSizes.GrowthProductFitsExactly` | internal/bigmap/bigmap_internal.go:278-282 | the product of the growth test fits an int64 for every load factor below 100% if and only if the table has at most 2^56 slots |
| `BigmapCodec.UvarintInvertsPutUvarint` | internal/bigmap/bigmap_internal.go:171-178 | decoding a base-128 length gives back the length and the number of bytes it took |
| `BigmapCodec.PutUvarintFits` | internal/bigmap/bigmap_internal.go:299-307 | a length below 2^32 takes at most the five bytes reserved for it |
| `BigmapCodec.UnendingIsTruncated` | internal/bigmap/bigmap_internal.go:164-176 | a length that does not end is reported as truncated |
| `BigmapCodec.LongestNumber` | internal/bigmap/bigmap_internal.go:164-176 | a number of ten bytes is read if and only if it fits 64 bits |
| `BigmapCodec.LayoutExample` | internal/bigmap/bigmap_internal.go:294-309 | the layout of a record, byte by byte |
| `BigmapCodec.EncodedLength` | internal/bigmap/bigmap_internal.go:284-307 | a record takes no more than the payload computed before it is written |
| `BigmapCodec.KeyDecodes` | internal/bigmap/bigmap_internal.go:200-206 | where a record was written, the length byte is not zero and the key bytes follow it |
| `BigmapCodec.ValueDecodes` | internal/bigmap/bigmap_internal.go:171-178 | after the key come the decodable value length and then exactly the value |
| `BigmapCodec.RecordOffset` | internal/bigmap/bigmap_internal.go:234-250 | record j of a segment starts where the first j records end |
| `BigmapCodec.RescanRecoversRecords` | internal/bigmap/bigmap_internal.go:234-250 | parsing a segment from offset 0 recovers exactly the records appended, in order; the zero-byte test never stops it early |
| `BigmapCodec.ZeroEndsRescan` | internal/bigmap/bigmap_internal.go:237 | and a zero byte ends the scan, whatever follows |
| `BigmapTable.KeysHashAlikeExactly` | internal/bigmap/bigmap_internal.go:181-197 | keys hash alike if and only if their first 4 or 8 bytes agree, and step alike if and only if bytes 8 to 16 do; keys below 16 bytes step by one |
| `BigmapTable.DoubleHashing` | internal/bigmap/bigmap_internal.go:181-222 | for a prime table size the walk of hash and secondary hash reaches every slot for every key |
| `BigmapTable.KeysAreDistinct` | internal/bigmap/bigmap_internal.go:209-222 | in a table in order no key occupies two slots |
| `BigmapTable.EmptySlotMeansAbsent` | internal/bigmap/bigmap_internal.go:209-222 | a probe that stops at an empty slot proves the key is not bound |
| `BigmapTable.InsertKeepsOrder` | internal/bigmap/bigmap_internal.go:309-317 | filling that slot keeps every record reachable and adds exactly one binding |
| `BigmapTable.SlotsInUse` | internal/bigmap/bigmap_internal.go:278-282 | a table is full exactly when it binds as many keys as it has slots |
| `BigmapTable.ProbeHasSlotsLeft` | internal/bigmap/bigmap_internal.go:209-222 | while fewer keys than slots are bound, a probe that has not stopped has unvisited slots left |
| `BigmapTable.ProbeStopsExactly` | internal/bigmap/bigmap_internal.go:209-222 | the probe loop ends if and only if the key is present or a slot is free |
| `Bigmap.RoomExactlyBelowFullLoad` | internal/bigmap/bigmap_internal.go:278-282 | an insertion below the growth threshold always leaves a free slot if and only if the load factor is below 100% |
| `Bigmap.TableSizesOk` | internal/bigmap/bigmap_internal.go:81-138 | if the listed numbers are primes, the list meets what the map needs of its table sizes |
| `Bigmap.SizeIsPrime` | internal/bigmap/bigmap_internal.go:81-138 | the first 14 listed sizes, up to the first growth of a map of the default size, are primes |
| `Bigmap.ProvedSizesOk` | internal/bigmap/bigmap_internal.go:81-138 | these sizes alone meet what the map needs, with nothing taken on trust |
| `Bigmap.RescanAdvances` | internal/bigmap/bigmap_internal.go:234-250 | while the length byte is not zero, the rescan is at the next record and its key has not been met before |
| `Bigmap.RescanEnds` | internal/bigmap/bigmap_internal.go:234-250 | the rescan of a segment stops only at its end, after all its records |
| `Bigmap.AppendKeepsOrder` | internal/bigmap/bigmap_internal.go:284-317 | appending a record keeps the segments a concatenation of records and every old slot pointing at its record |
| `Bigmap.InsertKeepsIndex` | internal/bigmap/bigmap_internal.go:309-317 | filling the slot keeps slots and records in step and adds the binding |
| `Bigmap.ReadValue` | internal/bigmap/bigmap_internal.go:171-178 | the 32-bit offset arithmetic of Get locates exactly the stored value |
| `Bigmap.InternalMap.constructor` | internal/bigmap/bigmap_internal.go:424-452 | a new map is valid and binds nothing |
| `Bigmap.InternalMap.FindSlotInSlice` | internal/bigmap/bigmap_internal.go:209-222 | terminates at the slot of the key if it is bound and at an empty slot otherwise |
| `Bigmap.InternalMap.Contains` | internal/bigmap/bigmap_internal.go:146-153 | answers whether the key is bound |
| `Bigmap.InternalMap.Get` | internal/bigmap/bigmap_internal.go:156-179 | a key is found exactly if it is bound; with values the result is the caller's buffer followed by the bound value |
| `Bigmap.InternalMap.RescanSegment` | internal/bigmap/bigmap_internal.go:234-250 | enters each record of a segment exactly once |
| `Bigmap.InternalMap.GrowLocked` | internal/bigmap/bigmap_internal.go:230-254 | the larger table binds the same records; the secondary prime is the old table size |
| `Bigmap.InternalMap.PutIfAbsent` | internal/bigmap/bigmap_internal.go:257-318 | adds the binding and says so if and only if the key was absent, otherwise changes nothing; the panics are exactly those of the code |
| `Bigmap.DefaultMap` | internal/bigmap/bigmap_internal.go:27-40 | the size, growth threshold and segments of a map made without options; options that are given are kept |
| `Bigmap.NewSegmentCapacity` | internal/bigmap/bigmap_internal.go:370-388 | segments are in memory until there are as many as configured, then mapped files if mapping works |
| `Bigmap.NewInternalMapWithOptions` | internal/bigmap/bigmap_internal.go:408-452 | defaults replace zero options; an initial size below 2^9 is refused, one beyond the list is an index panic |
| `Bigmap.ExhaustedAtLimit` | internal/bigmap/bigmap_internal.go:278-282 | the list of sizes runs out exactly when the largest table's threshold is reached |
| `Bigmap.ContentsAreAdded` | internal/bigmap/bigmap_internal.go:146-318 | before each operation of a run exactly the bindings are there that earlier operations reported as added |
| `Bigmap.RunAnswersRight` | internal/bigmap/bigmap_internal.go:146-318 | so every answer of a run follows from the earlier operations and answers |
| `Bigmap.Run` | internal/bigmap/bigmap_internal.go:146-318 | every run of operations answers as a finite map does; said of the answers alone: a key is found exactly if an earlier Put was answered with success, with that Put's value after the caller's buffer, and a well-formed key is added exactly once while there is room |
| `CacheHeap.RootIsOldest` | internal/cache/persistent_lru_cache.go:235-237 | the root of the heap is an oldest item |
| `CacheHeap.Swap` | internal/cache/persistent_lru_cache.go:239-245 | exchanges two elements and keeps the index the inverse of the data |
| `CacheHeap.Up` | internal/cache/persistent_lru_cache.go:247-253 | restores the heap when one element is too old for its parent, keeping the items |
| `CacheHeap.Down` | internal/cache/persistent_lru_cache.go:255-266 | restores the heap below a replaced element, keeping the items |
| `CacheHeap.HeapPush` | internal/cache/persistent_lru_cache.go:247-253 | heap order, inverse index and sum of lengths after a push |
| `CacheHeap.HeapRemove` | internal/cache/persistent_lru_cache.go:268-277 | heap order, inverse index and sum of lengths after a removal anywhere |
| `CacheHeap.HeapReplace` | internal/cache/persistent_lru_cache.go:258-262 | heap order, inverse index and sum of lengths after an update in place |
| `CacheHeap.UpdateNeverGoesBack` | internal/cache/persistent_lru_cache.go:255-266 | no timestamp ever moves backwards; only a strictly newer record replaces one, and only its own |
| `CacheHeap.ContentMetadataHeap.Push` | internal/cache/persistent_lru_cache.go:247-253 | adds the item and its length |
| `CacheHeap.ContentMetadataHeap.Remove` | internal/cache/persistent_lru_cache.go:124-126 | removes exactly the item and its length |
| `CacheHeap.ContentMetadataHeap.Pop` | internal/cache/persistent_lru_cache.go:268-277 | removes an oldest item |
| `CacheHeap.ContentMetadataHeap.AddOrUpdate` | internal/cache/persistent_lru_cache.go:255-266 | replaces only older records and changes the total by the difference |
| `PersistentCache.DeleteOldest` | internal/cache/persistent_lru_cache.go:294-323 | the deletion loop tries items oldest first, each at most once, and stops only when the limits allow |
| `PersistentCache.PutBack` | internal/cache/persistent_lru_cache.go:325-328 | pushes every item of a list and adds up their lengths |
| `PersistentCache.SweepHeap` | internal/cache/persistent_lru_cache.go:294-329 | after a sweep exactly the successfully deleted items are gone and the total is lower by exactly their lengths |
| `PersistentCache.SumIsRecorded` | internal/cache/persistent_lru_cache.go:223-277 | the running total of the heap is the sum of the recorded lengths |
| `PersistentCache.SweepConservesBytes` | internal/cache/persistent_lru_cache.go:294-329 | a sweep lowers the recorded bytes by exactly what it deleted |
| `PersistentCache.SweepOutcome` | internal/cache/persistent_lru_cache.go:280-329 | a sweep ends with at most maxSizeBytes used and the hard limit met, or with only failed items left, or with the hard limit met and every untried item younger than minSweepAge |
| `PersistentCache.SweepTriesOnlyInNeed` | internal/cache/persistent_lru_cache.go:294-323 | each item tried is the oldest not tried yet, and when it is tried the hard limit is exceeded, or maxSizeBytes is and the item is at least minSweepAge old |
| `PersistentCache.ScanHeap` | internal/cache/persistent_lru_cache.go:331-383 | the initial scan enters all listed blobs and then sweeps them |
| `PersistentCache.PendingIsReserved` | internal/cache/persistent_lru_cache.go:169-211 | in every interleaving the pending bytes are the sum of the reservations in flight |
| `PersistentCache.StepDrifts` | internal/cache/persistent_lru_cache.go:98-211 | what each lock section but the first one of Put adds to recorded plus reserved bytes: the growth of the recorded length, less the reservation given back |
| `PersistentCache.PutBeginMeetsLimit` | internal/cache/persistent_lru_cache.go:169-182 | a Put that begins brings the cache back within the hard limit from any state, with deletes that succeed and reservations that fit alone |
| `PersistentCache.ScanMeetsLimit` | internal/cache/persistent_lru_cache.go:331-383 | the first sweep brings any listing within the hard limit, whatever lengths it has |
| `PersistentCache.RunsStayNearLimit` | internal/cache/persistent_lru_cache.go:169-329 | in every run of lock sections in any order, whatever hits record, the hard limit is exceeded by no more than the upward drift since a Put last began |
| `PersistentCache.ModestStepsDriftLittle` | internal/cache/persistent_lru_cache.go:98-211 | a step with a hit that records no more than before drifts upwards only by rewriting a blob whose recorded length is negative |
| `PersistentCache.RunsKeepLimit` | internal/cache/persistent_lru_cache.go:169-329 | with hits that record no more than before: the hard limit holds in every run without full reads, and is exceeded by at most one byte for each step since a Put last began in a run with them |
| `PersistentCache.HitKeepsLimitExactly` | internal/cache/persistent_lru_cache.go:98-113 | a hit keeps the limit if and only if the length it records fits what is left |
| `PersistentCache.HitCanBreakLimit` | internal/cache/persistent_lru_cache.go:98-211 | a run from the empty cache in which a hit alone breaks the limit |
| `PersistentCache.FullReadForgetsBytes` | internal/cache/persistent_lru_cache.go:107-111 | a full read replaces the recorded length of a blob by -1 |
| `PersistentCache.Cache.SweepLocked` | internal/cache/persistent_lru_cache.go:294-329 | is a sweep in the sense above, on the object, and ends in one of the three ways, in bytes and ages |
| `PersistentCache.Cache.InitialScan` | internal/cache/persistent_lru_cache.go:331-383 | enters the listing and sweeps it |
| `PersistentCache.Cache.TotalIsRecorded` | internal/cache/persistent_lru_cache.go:223-277 | totalDataBytes is the sum of recorded lengths |
| `PersistentCache.Cache.BeginPut` | internal/cache/persistent_lru_cache.go:169-182 | the first lock section of Put reserves, then sweeps |
| `PersistentCache.Cache.EndPut` | internal/cache/persistent_lru_cache.go:202-211 | the second one gives the reservation back and records the blob |
| `PersistentCache.Cache.RecordHit` | internal/cache/persistent_lru_cache.go:98-113 | a hit records the requested length |
| `PersistentCache.Cache.ForgetInvalid` | internal/cache/persistent_lru_cache.go:115-127 | an invalid blob is removed from the list |
| `MutexMap.MutexMap.GetMutexAndAddRef` | internal/cache/mutex_map.go:57-77 | returns the mutex of the key's entry, made if there was none, and counts one more reference |
| `MutexMap.MutexMap.GetMutexAndReleaseRef` | internal/cache/mutex_map.go:79-95 | returns the same mutex and drops the entry with the last reference |
| `MutexMap.ReferenceIsThere` | internal/cache/mutex_map.go:79-95 | whoever has a reference finds its entry and the mutex it locked |
| `MutexMap.StepKeepsInv` | internal/cache/mutex_map.go:22-95 | every step of every caller keeps counts exact and mutexes shared |
| `MutexMap.RunsKeepInv` | internal/cache/mutex_map.go:22-95 | so does every interleaving |
| `MutexMap.EntriesCountUsers` | internal/cache/mutex_map.go:57-95 | in every run the reference count is the number of callers between add-ref and release-ref, and an entry exists exactly while there are any |
| `MutexMap.ExclusiveHolderIsAlone` | internal/cache/mutex_map.go:22-55 | in every run an exclusive holder of a key excludes every other holder |
| `MutexMap.HoldersShare` | internal/cache/mutex_map.go:22-55 | two holders of a key at the same time are both readers |
| `MutexMap.MutexesExclude` | internal/cache/mutex_map.go:20-54 | no mutex is locked by a writer and somebody else, also while an unlock is still to come |
| `MutexMap.NoEntryLeaks` | internal/cache/mutex_map.go:76-94 | no entry is left when no call is in progress |
| `MutexMap.CanFinish` | internal/cache/mutex_map.go:20-54 | every call can take its next step, at once or when its mutex is available |
| `MutexMap.NoDeadlock` | internal/cache/mutex_map.go:20-54 | in every run one of the calls in progress can take its next step |
| `MutexMap.UnlockMayComeLate` | internal/cache/mutex_map.go:35-38 | for every key there is a run in which another caller locks a fresh mutex before the unlock: only the unlock itself overlaps |
| `GetOrLoad.LoadStepKeepsInv` | internal/cache/persistent_lru_cache.go:60-91 | every step of every call of GetOrLoad, and of other users of the locks, keeps each call holding its key exclusively from its second look to its release |
| `GetOrLoad.LoadRunsKeepInv` | internal/cache/persistent_lru_cache.go:60-91 | so does every interleaving |
| `GetOrLoad.AtMostOneFetch` | internal/cache/persistent_lru_cache.go:72-90 | in every run at most one call of GetOrLoad at a time looks again, fetches or stores for a key |
| `GetOrLoad.OneFetchIsEnough` | internal/cache/persistent_lru_cache.go:59-92 | a key is fetched a second time only if in between it was lost, or could not be fetched or stored |
| `GetOrLoad.LooksDecide` | internal/cache/persistent_lru_cache.go:65-80 | a call returns without a fetch only if one of its two looks finds the key |
| `GetOrLoad.CanGoOn` | internal/cache/persistent_lru_cache.go:59-92 | what each call does next, by stage and by what is cached, and that only the lock can hold it up |
| `GrpcSession.InnerSession.RegisterRequest` | repo/grpc_repository_client.go:150-159 | is the registering step of the system; in every sound state the id is new and the channel its own |
| `GrpcSession.InnerSession.Dispatch` | repo/grpc_repository_client.go:116-123 | is the receiving step of the system; a harmless message finds the channel of its request |
| `GrpcSession.InnerSession.TakeBackChannel` | repo/grpc_repository_client.go:176-193 | is the step of a sender whose Send failed; what it gets is its own channel, still open |
| `GrpcSession.InnerSession.CleanUpChannel` | repo/grpc_repository_client.go:133-139 | is a step of the final cleanup; what it gets is the open channel of the request |
| `GrpcSession.StepKeepsInv` | repo/grpc_repository_client.go:110-208 | every step of every sender and of the read loop keeps the invariant of the session, as long as harmless messages arrive |
| `GrpcSession.RunsKeepInv` | repo/grpc_repository_client.go:110-208 | so does every interleaving |
| `GrpcSession.NoPanic` | repo/grpc_repository_client.go:110-208 | in every run with harmless messages no channel is sent to after close or closed twice, and the read loop never blocks on a nil channel |
| `GrpcSession.RequestIDsAreUnique` | repo/grpc_repository_client.go:146-185 | in every run each request has its own id and channel |
| `GrpcSession.ChannelsCarryTheirOwn` | repo/grpc_repository_client.go:110-208 | in every run a channel carries exactly its own responses in arrival order, optionally followed by one STREAM_BROKEN |
| `GrpcSession.ResponsesInOrder` | repo/grpc_repository_client.go:110-142 | the responses of a request are its messages, each once, in order of arrival |
| `GrpcSession.CleanupReachesAll` | repo/grpc_repository_client.go:195-208 | when the read loop has stopped after a receive error, every request made before the error is off the map, and its channel is closed or in its sender's hands |
| `GrpcSession.CleanupNeverBlocks` | repo/grpc_repository_client.go:132-140 | during the cleanup one of its steps can always be taken |
| `GrpcSession.CleanupEndsExactly` | repo/grpc_repository_client.go:110-142 | the read loop stops exactly when it has taken three steps for each request that was active at the error and one more, whatever senders do meanwhile |
| `GrpcSession.NoDeadlock` | repo/grpc_repository_client.go:110-208 | in every run each sender and the read loop can take its next step, unless it waits for the mutex or a message or is done |
| `GrpcSession.PromisedRunsAreTame` | repo/grpc_repository_client.go:110-208 | a server that answers only requests that were sent, and nothing after a final answer, sends harmless messages only |
| `GrpcSession.PartialAnswerEndangers` | repo/grpc_repository_client.go:116-185 | a partial answer to a request that is not (yet) sent can be sent to a closed channel |
| `GrpcSession.AnswerToInactiveRequestEndangers` | repo/grpc_repository_client.go:116-125 | a message for an inactive request blocks the read loop |
| `GrpcSession.HarmlessExactly` | repo/grpc_repository_client.go:110-208 | in every sound state a message can lead to a panic or a blocked read loop if and only if it is not harmless: for an active request, and sent unless the answer is final |
| `ContentCache.ContentIDsExactly` | internal/cache/content_cache.go:42-50 | content ids are hexadecimal digits with an optional letter from g to z in front |
| `ContentCache.ContentKeysAreDistinct` | internal/cache/content_cache.go:42-50 | distinct content ids have distinct cache keys |
| `ContentCache.KeysCollideExactly` | internal/cache/content_cache.go:42-54 | a blob and a content share a key if and only if the ids are equal, for a content id with a prefix, or the content id is the rotation of the blob id by one, for one without |
| `ContentCache.PackBlobsNeverCollide` | internal/cache/content_cache.go:42-54 | blob ids with a character other than a hexadecimal digit after the first never collide with contents |
| `ContentCache.ProtectedVerifies` | internal/cacheprot/storage_protection.go:47-65 | protected data verify and give back the data |
| `ContentCache.VerifiesExactly` | internal/cacheprot/storage_protection.go:47-65 | exactly what was protected verifies |
| `ContentCache.ReadsFromCacheExactly` | internal/cache/persistent_lru_cache.go:131-166 | which requests a cache entry answers and with which bytes |
| `ContentCache.EvictionKeepsOk` | internal/cache/persistent_lru_cache.go:115-127 | removing an entry keeps the cache faithful |
| `ContentCache.ChangingBlobKeepsOk` | internal/cache/content_cache.go:97-111 | caching a blob keeps it faithful, and so does corrupting one so that it no longer verifies |
| `ContentCache.ChangingContentKeepsOk` | internal/cache/content_cache.go:113-144 | so does caching a content, or corrupting one so that it no longer verifies |
| `ContentCache.BlobHitIsRightExactly` | internal/cache/content_cache.go:64-95 | in a faithful cache a cached blob answers an in-range request as storage would if and only if the range is intact, so whole blobs always, since they are verified |
| `ContentCache.IntactBlobHasIntactRanges` | internal/cache/persistent_lru_cache.go:131-166 | entries that were not corrupted have all ranges intact |
| `ContentCache.ContentHitIsRight` | internal/cache/content_cache.go:113-144 | a cached content read in full is the content |
| `ContentCache.CachedRangeIsRightExactly` | internal/cache/persistent_lru_cache.go:131-166 | an intact cached blob answers any range as storage would if and only if the range does not end inside the checksum |
| `ContentCache.ApplyKeepsOk` | internal/cache/content_cache.go:56-168 | every change to the cache keeps it faithful: evictions, stored blobs and contents, visible corruption |
| `ContentCache.ReplayIsOk` | internal/cache/content_cache.go:56-168 | so the cache is faithful after every history |
| `ContentCache.UndamagedIsIntact` | internal/cache/content_cache.go:97-111 | after every history the cached copy of a blob is the blob, unless it was corrupted since it was last stored or evicted |
| `ContentCache.DamageNeedsCorruption` | internal/cache/content_cache.go:56-168 | a blob that nothing has corrupted is not damaged |
| `ContentCache.UndamagedBlobHitIsRight` | internal/cache/persistent_lru_cache.go:131-166 | all ranges of an undamaged cached blob are intact after every history |
| `ContentCache.LookupDecides` | internal/cache/content_cache.go:64-95 | after every history a lookup answers right, or misses and storage answers, unless it is a range of a damaged blob |
| `ContentCache.ContentLookupIsRight` | internal/cache/content_cache.go:113-144 | a cached content that verifies is the content, after every history |
| `ContentCache.ReadAgainIsHit` | internal/cache/content_cache.go:56-144 | what was read and stored once is read from the cache the next time |
| `ContentCache.ReadAddsNoCorruption` | internal/cache/content_cache.go:56-144 | a read corrupts nothing: what is corrupted afterwards was before, or others did it |
| `ContentCache.PrefetchAddsNoCorruption` | internal/cache/content_cache.go:150-168 | nor does a prefetch |
| `ContentCache.ContentCacheImpl.GetPartial` | internal/cache/persistent_lru_cache.go:131-166 | a full read answers if and only if the entry verifies, with its data, and deletes it otherwise; nothing else changes |
| `ContentCache.ContentCacheImpl.FetchBlobInternal` | internal/cache/content_cache.go:97-111 | returns the stored blob; if the cache takes it, its entry is then exactly the protected blob |
| `ContentCache.ContentCacheImpl.GetContentFromFullBlob` | internal/cache/content_cache.go:64-95 | any in-range request is answered as by storage if and only if the cached range is intact, so always for whole blobs and for blobs not damaged since they were stored; any other request is refused unless the cache answers it; the cache stays what its history says |
| `ContentCache.ContentCacheImpl.GetContentFromFullOrPartialBlob` | internal/cache/content_cache.go:113-144 | the same when contents are cached one by one |
| `ContentCache.ContentCacheImpl.GetContentFromContent` | internal/cache/content_cache.go:124-143 | when the cached blob does not answer, the cached content or storage gives the content, which is then cached |
| `ContentCache.ContentCacheImpl.GetContent` | internal/cache/content_cache.go:56-62 | from every history and under interference, an in-range request is answered as by storage unless it is a range of a blob whose cached copy was corrupted since it was stored, and the call corrupts nothing itself |
| `ContentCache.ContentCacheImpl.PrefetchBlob` | internal/cache/content_cache.go:150-168 | after a prefetch that stored, the blob is cached, and its entry is exactly the protected blob unless damaged; it fails only for missing blobs |
| `ContentCache.CorruptionSoFar` | internal/cache/content_cache.go:56-168 | in every run only corruption events corrupt |
| `ContentCache.CleanReadIsUndamaged` | internal/cache/content_cache.go:56-168 | a read of a blob that no event so far has corrupted looks at an undamaged entry |
| `ContentCache.Run` | internal/cache/content_cache.go:56-168 | in every run of reads, prefetches, evictions and corruption, each event on the cache the one before left, with interference: a read is answered as by storage unless it is a range of a blob damaged since it was stored, so always if no event so far corrupted the blob |
| `Source.PrintableRoundTrips` | snapshot/source.go:18-71 | parsing the text of a printable source gives the source |
| `Source.UnprintableIsLost` | snapshot/source.go:18-71 | parsing the text of any other source gives something else |
| `Source.RoundTripExactly` | snapshot/source.go:18-71 | the round trip holds on every host if and only if the source is printable |
| `Source.StringIsInjective` | snapshot/source.go:18-28 | no two printable sources print alike |
| `Source.LocalTextIsOwnDirectory` | snapshot/source.go:61-70 | a text without '@', with ':' before it, or with ':' but no user is a directory of the current user on this host |
| `Source.OtherTextIsReadAlike` | snapshot/source.go:34-59 | any other text is read alike on every host |
| `History.LabelsRoundTrip` | snapshot/manager.go:58-77 | labels keep the whole source |
| `History.QueryFindsMatches` | snapshot/manager.go:62-87 | a query finds a saved snapshot if and only if its source has the host, and the user and path where given |
| `History.AcceptedExactlyWhenApart` | cli/command_snapshot_copy_move_history.go:161-237 | a pair of patterns is accepted if and only if no two matching sources get the same destination |
| `History.DestinationIsFixed` | cli/command_snapshot_copy_move_history.go:221-237 | destinations are their own destination, complete, and match the destination pattern if it has a host |
| `History.EvidenceIsInPlace` | cli/command_snapshot_copy_move_history.go:193-218 | a snapshot that shows that a copy exists is itself in place, so it is never deleted |
| `History.NothingIsLost` | cli/command_snapshot_copy_move_history.go:82-146 | in every state of a run each original has a manifest with its start time and root at its source or its destination |
| `History.CopyKeepsShape` | cli/command_snapshot_copy_move_history.go:131-136 | saving a copy keeps the books of a run |
| `History.RemoveKeepsShape` | cli/command_snapshot_copy_move_history.go:113-141 | so does deleting an original that has a copy |
| `History.Repository.PutManifest` | snapshot/manager.go:139-144 | puts under an id never used before, and the history of stores grows by exactly that store |
| `History.Repository.DeleteManifest` | cli/command_snapshot_copy_move_history.go:113-141 | deletes one manifest, and the history of stores grows by exactly that store |
| `History.Repository.ListSnapshots` | snapshot/manager.go:80-87 | lists each matching snapshot once |
| `History.Repository.SaveSnapshot` | snapshot/manager.go:112-147 | refuses exactly incomplete sources and tags that are source labels; otherwise saves source labels and tags |
| `History.Repository.UpdateSnapshot` | snapshot/manager.go:233-248 | replaces a manifest by a new one; a failure loses nothing |
| `History.SnapshotExists` | cli/command_snapshot_copy_move_history.go:193-218 | answers whether a listed snapshot of the source has the start time and root of the given one |
| `History.CopySourceAndDestination` | cli/command_snapshot_copy_move_history.go:161-191 | returns the two parsed patterns, with the current user and host if no destination is given, and only pairs that keep histories apart |
| `History.PairsAcceptedExactly` | cli/command_snapshot_copy_move_history.go:161-191 | a pair is returned if and only if both can be parsed and the guards accept them |
| `History.CopyOrMoveOne` | cli/command_snapshot_copy_move_history.go:101-142 | one snapshot is copied, moved, deleted or passed over, and the books stay right even if storage fails |
| `History.CopyOrMove` | cli/command_snapshot_copy_move_history.go:82-146 | the loop over all listed snapshots; the trace is all that was added to the history of stores |
| `History.TraceIsHistory` | cli/command_snapshot_copy_move_history.go:82-146 | consecutive stores of the trace differ by exactly one put or one delete |
| `History.OneManifestChanges` | cli/command_snapshot_copy_move_history.go:82-146 | that is, one manifest is gone, or one under a new id is there, and all others are unchanged |
| `History.Run` | cli/command_snapshot_copy_move_history.go:82-191 | the command changes nothing if it refuses, loses nothing in any of the stores it goes through, one change at a time, and completes if storage works |
| `History.MoveArrives` | cli/command_snapshot_copy_move_history.go:82-146 | after a completed copy or move a manifest with the start time and root of each matching snapshot has the host, user and path of the destination, and exactly a move has deleted the original |
| `History.NewManifestsAreCopies` | cli/command_snapshot_copy_move_history.go:131-136 | all that is new after a completed run has the start time, root and tags of a listed snapshot, and its destination as source |
| `History.NoDoubleCopies` | cli/command_snapshot_copy_move_history.go:82-146 | a completed run adds at most one manifest for each snapshot it lists |
| `History.OthersStay` | cli/command_snapshot_copy_move_history.go:82-146 | everything that is not moved stays, and a dry run changes nothing |
| `History.FoundCopyIsIdle` | cli/command_snapshot_copy_move_history.go:82-146 | where copies are found, copying again changes nothing |
| `History.UnfoundCopyRepeats` | cli/command_snapshot_copy_move_history.go:95-122 | where they are not, some store is copied again |
| `History.CopyAgainIsIdleExactly` | cli/command_snapshot_copy_move_history.go:82-237 | copying twice is copying once, for every store, if and only if copies are found |
| `CacheFs.Cache.Remove` | fs/cachefs/cache.go:64-78 | unlinks any entry but a head that points back; of such a head, what it leaves, and that the tail gets a successor if and only if the head pointed to it |
| `CacheFs.Cache.AddToHead` | fs/cachefs/cache.go:53-62 | puts a new entry in front of the list |
| `CacheFs.Cache.MoveToHead` | fs/cachefs/cache.go:43-51 | brings an entry to the front and leaves its back pointer |
| `CacheFs.Cache.RemoveEntryLocked` | fs/cachefs/cache.go:191-195 | list, map and counter lose exactly the entry, unless it is a head that points back, which then stays in the list without a map entry |
| `CacheFs.Cache.GetEntriesFromCacheLocked` | fs/cachefs/cache.go:118-139 | finds unexpired entries and moves them to the front, removes expired ones |
| `CacheFs.Cache.AddLocked` | fs/cachefs/cache.go:174-183 | storing is right if list and map agree and the id is new; otherwise the id is in the list twice |
| `CacheFs.Cache.BrokenOrAstrayIsInvalid` | fs/cachefs/cache.go:64-78 | a head, or the entry after it, that is not the one in the map, or a listed entry that the map does not find, means list and map disagree |
| `CacheFs.Cache.Round` | fs/cachefs/cache.go:184-195 | removing the tail keeps each kind of disorder, and the list or the counter gets smaller |
| `CacheFs.Cache.EvictLast` | fs/cachefs/cache.go:184-186 | so does a round of the eviction loop, which on a list in order evicts what the specification evicts |
| `CacheFs.Cache.EvictLocked` | fs/cachefs/cache.go:184-186 | evicts from the end until both limits hold; from every kind of disorder but a stuck tail the loop ends too, without panic, and list and map still disagree |
| `CacheFs.Cache.StuckForever` | fs/cachefs/cache.go:184-186 | a round from a stuck state leaves tail and counter as they were and the state stuck, so the loop never ends |
| `CacheFs.Cache.BeforeEviction` | fs/cachefs/cache.go:143-183 | a call reaches the eviction loop stuck if and only if its head is expired and points to an empty tail and the reload makes an eviction necessary |
| `CacheFs.Cache.GetEntries` | fs/cachefs/cache.go:143-189 | every call that does not get stuck returns; list and map agree afterwards if and only if the call does not break the list, and then the call does what the list-of-items specification says |
| `CacheFs.Run` | fs/cachefs/cache.go:118-195 | every run without such a call gives the specified answers |
| `CacheFs.RunsKeepGood` | fs/cachefs/cache.go:118-189 | after every run with ids the items are what was stored last, in order of last use |
| `CacheFs.RunsKeepLimits` | fs/cachefs/cache.go:182-186 | both limits hold after every call |
| `CacheFs.RunToFirstBreak` | fs/cachefs/cache.go:118-195 | list and map agree after a run if and only if no call has broken the list, up to the first one that does |
| `CacheFs.EvictKeepsLongestPrefix` | fs/cachefs/cache.go:182-186 | eviction keeps the longest prefix that fits |
| `CacheFs.EvictKeepsNewest` | fs/cachefs/cache.go:173-186 | eviction never reaches the entry just added, if one directory is allowed |
| `CacheFs.HitsExactly` | fs/cachefs/cache.go:118-139 | a call hits if and only if its id is cached and has not expired |
| `CacheFs.MissAnswers` | fs/cachefs/cache.go:155-188 | a miss answers with an error, with what was loaded if it is kept, or with the wrapped entries if it is too big |
| `CacheFs.StoredIsHit` | fs/cachefs/cache.go:118-189 | what a call has stored, the next call for the id finds until it expires |
| `CacheFs.HitReturnsLoaded` | fs/cachefs/cache.go:118-189 | a hit returns the wrapped form of what was last loaded and stored for the id, entry by entry |
| `CacheFs.AnswersAreContents` | fs/cachefs/cache.go:143-189 | with stable directories every answer is the directory, as loaded or wrapped |
| `CacheFs.PromotedThenExpiredBreaks` | fs/cachefs/cache.go:43-78 | a hit on an entry behind the head, then its expiry, breaks the list |
| `CacheFs.BreakingRun` | fs/cachefs/cache.go:43-78 | four calls on an empty cache that break the list, for any two ids |
| `CacheFs.PromotedThenHangs` | fs/cachefs/cache.go:43-78 | from every state within limits: a hit on the last entry, then its expiry and a reload too big for an empty tail, gets stuck |
| `CacheFs.ThirdIsEndless` | fs/cachefs/cache.go:118-189 | three directories, the middle one empty, lead to such a state, for any ids and limits that hold them |
| `CacheFs.HangingRun` | fs/cachefs/cache.go:118-195 | five calls on an empty cache, the last of which never returns |
| `IgnoreFs.IgnoredAfter` | fs/ignorefs/ignorefs.go:47-53 | one more rule decides if it matches, else the rules before it do |
| `IgnoreFs.IgnoredBelow` | fs/ignorefs/ignorefs.go:37-63 | the rules of lower directories decide if one of them matches |
| `IgnoreFs.IgnoredExactly` | internal/wcmatch/wcmatch.go:324-334 | a path is ignored if and only if a rule that is not negated matches it and no later rule does; rules for directories only do not count for files |
| `IgnoreFs.IgnoreContext.ShouldIncludeByName` | fs/ignorefs/ignorefs.go:37-63 | the recursive evaluation with skipped matchers is "last matching rule wins" over all rules from the root, also said of the rules' patterns alone |
| `IgnoreFs.CombineAndDedupe` | fs/ignorefs/ignorefs.go:360-378 | keeps the first occurrence of each name, in order |
| `IgnoreFs.DedupeKeepsNames` | fs/ignorefs/ignorefs.go:360-378 | the same names, each once |
| `IgnoreFs.DedupeKeepsOrder` | fs/ignorefs/ignorefs.go:360-378 | in the order of their first occurrences |
| `IgnoreFs.IgnoreContext.OverrideFromPolicy` | fs/ignorefs/ignorefs.go:318-345 | the settings and rules a policy puts in place, or failure on a rule that cannot be parsed |
| `IgnoreFs.CompiledAt` | fs/ignorefs/ignorefs.go:334-342 | each line of a policy gives one rule at its place, or the policy fails |
| `IgnoreFs.IgnoreContext.LoadDotIgnoreFiles` | fs/ignorefs/ignorefs.go:347-358 | appends the rules of the ignore files in order |
| `IgnoreFs.FileRulesInOrder` | fs/ignorefs/ignorefs.go:347-358 | ignore files give their rules one after the other |
| `IgnoreFs.FilesOverridePolicy` | fs/ignorefs/ignorefs.go:274-316 | where a rule of a directory's ignore files matches, they decide, else its policy does |
| `IgnoreFs.BuildContext` | fs/ignorefs/ignorefs.go:274-316 | a directory's rules are its parent's followed by its own, whatever the policy says about parents |
| `IgnoreFs.ParentRulesAreDroppedExactly` | fs/ignorefs/ignorefs.go:318-325 | dropping the parents' rules is obeyed for a path if and only if an own rule matches or the parents do not ignore it |
| `Acl.UserMatchesExactly` | internal/acl/acl_manager.go:19-34 | a rule matches if and only if it is one user and one host, each `*` or the actual one |
| `Acl.RuleIsUsableExactly` | internal/acl/acl_manager.go:27-34 | a rule is valid if and only if somebody matches it |
| `Acl.ReplaceAllKeepsExactly` | internal/acl/acl.go:50-61 | replacing changes nothing if and only if there is nothing to replace or it is replaced by itself |
| `Acl.OwnUserIsUserExactly` | internal/acl/acl.go:50-61 | the placeholder for the user stands for the user if and only if the name has no host placeholder in it that is then replaced |
| `Acl.OwnHostIsHost` | internal/acl/acl.go:50-61 | the placeholder for the host stands for the host |
| `Acl.PlainRuleMatchesExactly` | internal/acl/acl.go:50-61 | a rule without placeholders matches exactly the targets that have all its labels |
| `Acl.OwnUserRuleMatchesExactly` | internal/acl/acl.go:50-61 | a rule for the own user matches exactly the targets of that user, for names without the host placeholder |
| `Acl.OwnHostRuleMatchesExactly` | internal/acl/acl.go:50-61 | a rule for the own host matches exactly the targets of that host |
| `Acl.ValidatedExactly` | internal/acl/acl.go:91-160 | exactly which users, labels and levels an entry may have |
| `Acl.EffectivePermissions` | internal/acl/acl_manager.go:51-69 | computes the level of the entries |
| `Acl.LevelIsHighest` | internal/acl/acl_manager.go:51-69 | that level is the highest granted by any matching entry, at least NONE |
| `Acl.EntriesForUser` | internal/acl/acl_manager.go:37-47 | keeps the entries that match the user, in order |
| `Acl.FilterKeepsLevel` | internal/acl/acl_manager.go:37-69 | filtering by user first never changes the level |
| `Acl.LoadedLevelIsLevel` | internal/acl/acl_manager.go:51-110 | the order in which entries are loaded does not matter |
| `Acl.Repository.LoadEntries` | internal/acl/acl_manager.go:72-110 | loads each entry once, from the known ones where possible |
| `Acl.Repository.DeleteOld` | internal/acl/acl_manager.go:123-133 | deletes entries for the same user and target, or stops at a higher one |
| `Acl.Repository.AddACL` | internal/acl/acl_manager.go:113-145 | the outcomes of adding and the exact store each leaves; with working deletes, refused exactly if a higher entry exists and overwriting was not asked for |
| `Acl.AddOutcomes` | internal/acl/acl_manager.go:113-145 | what each outcome means for the entries, one by one: what is kept, deleted, added or in the way |
| `Acl.AddedLevelExactly` | internal/acl/acl_manager.go:113-145 | after a success the level is the higher of what the other entries and the new one grant |
| `Acl.AddedLevelWithoutOverwrite` | internal/acl/acl_manager.go:113-145 | without overwriting, it is the higher of the old level and what the entry grants |
| `Acl.RefusalKeepsLevel` | internal/acl/acl_manager.go:123-128 | a refusal changes no level, although it may have deleted lower entries |
| `Acl.AddLowersExactly` | internal/acl/acl_manager.go:113-145 | exactly when a level drops, for every outcome but a failed delete, which lowers one only if that was to be seen before the call; without overwriting only a failed delete or write can |
| `Acl.FailedDeleteLowersExactly` | internal/acl/acl_manager.go:123-133 | some failed delete lowers a level if and only if only entries for the same user and target rule grant it, they may be deleted, and one of them grants less |
| `Acl.StoreHasLevel` | internal/acl/acl_manager.go:51-69 | every store gives every user a level for every target |
| `Acl.OthersKeepLevel` | internal/acl/acl_manager.go:113-145 | nothing changes for users and targets the entry does not match, whatever happens |
| `Acl.AddKeepsUnique` | internal/acl/acl_manager.go:113-145 | at most one entry for each user rule and target rule stays an invariant |
| `Acl.FailedWriteLowersExactly` | internal/acl/acl_manager.go:123-141 | a failed write lowers a level if and only if every entry that granted it was for the same user rule and target rule |
| `Acl.FailedDeleteChangesNothing` | internal/acl/acl_manager.go:129-131 | a failed delete changes nothing if there was at most one entry to delete |
| `Authz.OwnAccountIsUserAtHost` | internal/auth/authz_acl.go:80-87 | both placeholders in one value stand for user@host |
| `Authz.DefaultLevelIsHighest` | internal/auth/authz_acl.go:33-88 | the level the default entries give each user on each target: append to contents, full on own snapshots, policies and account, read on global and own-host policies, none on anything else |
| `Authz.DefaultIsLegacyExactly` | internal/auth/authz.go:54-80 | on snapshots and policies that is what is allowed without entries, except if and only if a policy is the user's own and also marked global or for the host |
| `Authz.ManifestAccessLevel` | internal/auth/authz_acl.go:104-166 | a user name that is not user@host gets nothing, without entries the older rules apply, and otherwise the highest level of all entries |

## Left out

- Bigmap.TableSizesOk: primality of the 42 listed table sizes above 2^21 is the hypothesis `ListedSizesArePrime`; all bigmap results hold for every list of primes that are at least 200 apart, and the first 14 listed sizes are proved to be such.
- Bigmap.NewInternalMapWithOptions: rests on that hypothesis too, because it uses the whole list.
- Bigmap.Run: requires a load factor between 1 and 99, segment sizes and records below 2^32 bytes and fewer than 2^32 operations, the limits within which the 32-bit offsets of the code are exact; lookups take keys of at least four bytes, shorter ones make the hash functions read out of bounds.
- Bigmap.InternalMap.PutIfAbsent: the object left behind by the panic at the end of the list of table sizes is not described; the growth test's product is modelled without 64-bit wrap-around, which `GrowthProductFitsExactly` excludes up to 2^56 slots.
- Memory-mapped files, temporary files and `Close` of bigmap: a new segment is an empty byte sequence with a capacity; whether mapping works is a parameter.
- The encrypting wrapper in `internal/bigmap/bigmap_map.go` and all cryptography: the checksum of the cache protection is any function with results of 32 bytes.
- PersistentCache.RunsKeepLimit: hits in such a run record no more than before, because reading alone can break the limit. A full read records -1, and a Put over such a record counts one byte less than it writes, so runs with full reads can exceed the limit by one byte for each such Put; `RunsStayNearLimit` covers all hits.
- Reading and touching blobs on disk, metrics and the background goroutines of the persistent cache: storage results and clock readings are parameters.
- ContentCache.ContentCacheImpl.GetContent: corruption that still verifies is not modelled; it would need a collision of the checksum. Deleting an entry that fails verification always works; one that stays would fail again. A negative length with an offset other than 0, on which the code panics, is an error in the model.
- Fairness and liveness of mutexes and channels, and `sendMutex`: sends of different requests may overlap in the model, which only adds interleavings; only safety is proved, and dialing, retries, credentials and payloads of gRPC are not modelled.
- Manifests that cannot be read, which `LoadSnapshots` drops with a log message, and the JSON form of manifests.
- Source.UnprintableIsLost: stated for a reading host with another name than the source's own, where the loss shows; `RoundTripExactly` covers all hosts.
- `SortByTime` and the commands that list or expire snapshots.
- CacheFs.Cache.GetEntries: requires that the call does not get stuck, since it would not return (`BeforeEviction`, `StuckForever`), and, for breaking calls, that the cache is within its limits, as it is in every run (`RunsKeepLimits`). A nil cache, which just calls the loader, is left out.
- CacheFs.Run: covers the runs without a breaking call; what calls on a list that is already broken do is not modelled.
- CacheFs.RunToFirstBreak: excludes a last call that gets stuck if its head points to the tail, which the list of items does not show.
- Pattern matching of ignore rules: a compiled pattern is any predicate on paths, applied to the path without its leading "./"; the callbacks that report ignored entries and the size, device and cache-directory filters are left out.
- Authz.DefaultLevelIsHighest: stated for user names without the host placeholder in them, which would be replaced in turn (`OwnUserIsUserExactly`).
- The refresh of cached access entries and repository switching in `internal/auth`, and repository upgrades.
