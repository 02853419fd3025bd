# Verified models of the cache library's core

This project models the parts of the C++ cache library that are hardest to get
right, and proves what they promise. Each module covers one component:

- `FreeStack`, `FreeStackAlone`: the lock-free free list of a size class (a Treiber
  stack with a tagged head) and its counters, as a transition system over any number
  of threads, and what one call does by itself. Owners of blocks may overwrite them at
  any time, and a compare-and-swap may fail spuriously.
- `MemoryBudget`: the reservation protocol of `memory_monitor` and `memory_guard`,
  one atomic load or update per step.
- `SlabAllocator`: size classes, block headers, frees with untrusted sizes, and
  NUMA routing.
- `RateLimiter`: the ring of samples behind growth-rate throttling.
- `Crc32`, `Crc32Values`, `Serde`, `Snapshot`, `SnapshotIo`, `Sharded`,
  `SnapshotLayout`: the checksum and the values that identify it, the value codec, the
  snapshot format, the code that writes and parses it, sharded save and restore, and
  the offset of every field.
- `LruSpec`, `LruEffects`, `CompactCache`: delayed-promotion LRU as a function on a
  list, what each operation means for the keys and their order, and the compact cache
  (map, list and slot pool) that implements it.
- `AsyncQueue`: the bounded queue of callback events and its overflow policies.
- `Handles`: reference accounting of read handles, with sharded wrap-around
  counters and per-thread batching.
- `PoolTotals`, `PooledCache`: the pooled cache's running totals under concurrency,
  and its pools, eviction order and global limits one operation at a time.
- `Replication`: hot-key replication and the replica-key transforms.
- `ChainedValue`: values kept as doubly linked chunks on the heap.

`Seqs`, `Basics`, `Arithmetic` and `Modular` hold shared definitions.

Conventions. A thrown exception is an `Err` result or a false or `threw` return
value. The clock, the random pick of a replica, the thread's NUMA node, what the
operating system answers, whether `incRef` succeeds, which step of building an entry
throws, which keys a write evicts, and whether memory runs out while a shard is
refilled are parameters. `std::size_t` has 64 bits. Concurrent components are
transition systems: `Executable(s0, steps)` says that a run is possible,
`After(s0, steps)` is where it leads. Sequential components are classes whose
methods update their fields.

Findings, where the code does not have the property one would expect:

- At the granularity of single loads, `try_reserve` can overshoot the budget: a
  commit inside each of its two reading windows goes unnoticed. Some interleaving
  takes committed memory past the budget exactly when two guards can exist and the
  budget is at least two bytes and less than the largest `size_t`
  (`MemoryBudget.OvershootExactly`). `MemoryBudget.HardCap` proves the cap for every
  run in which no call succeeds after commits fell into both of its windows.
- The integer replica-key transform maps a key to itself at replica number 219, so it
  is correct for exactly 219 replicas or fewer (`Replication.IntegerKeysGood`).
- A slab smaller than one block yields a block that does not fit in it; blocks lie
  inside their slab exactly when the slab holds at least one
  (`SlabAllocator.CarvedInside`).
- `parse_sharded_serialized_data` ignores the cache kind that `deserialize` checks;
  otherwise the two restore the same shards (`Sharded.ReadersAgree`,
  `Sharded.ReadersDisagree`).
- Restoring a sharded cache is not all or nothing. The parser does not look at two
  configuration fields that `set_config` refuses once a shard has been refilled: an
  insertion point specification above 7, and a refresh ratio that is negative or not a
  number. Memory aside, a restore is all or nothing exactly when every shard's
  configuration is accepted (`Sharded.AllOrNothingExactly`); otherwise the shards before
  the first refused one are replaced, and that one has its new items under its old
  configuration (`Sharded.ShardedCache.Deserialize`, `Sharded.HalfRestored`).
- A snapshot is decoded from byte 36 on, but its checksum starts where `header_size`
  says. The checksum protects all that is decoded exactly when `header_size` is 36;
  under any larger one the first decoded byte can change unnoticed
  (`Snapshot.CoveredExactly`, `Snapshot.AnyHeaderSize`). The outer checksum of a sharded
  snapshot, too, covers all that follows the header exactly when `header_size` is 36, in
  both readers (`Sharded.ShardsCoveredExactly`, `Sharded.UncoveredShardsAccepted`).
- `add` of the compact cache reports success even when the size limit is zero and
  nothing is stored; what it reports as added is stored exactly when the limit is not
  zero (`CompactCache.Cache.Add`, `CompactCache.AddedButMissing`).
- `flush_pending` loads the asynchronous mode before it takes the lock, so a flush can
  queue its events after the final drain of stop, when no worker is left. The queue is
  empty then exactly when no overtaken flush has a batch that an empty queue takes
  (`AsyncQueue.EmptyAfterStopExactly`, `AsyncQueue.StrandedAfterStop`).
- Two overlapping `replicated_set` calls on one key can leave the key and its copies in
  disagreement after both have finished, exactly when there is a copy and the values
  differ (`Replication.WritersDivergeExactly`).
- Releasing a handle spares the counter of a cache that was destroyed, but copying or
  re-attaching one does not ask. A copy writes a destroyed cache's counter exactly
  when its source pins an item, is counted there and `incRef` succeeds
  (`Handles.World.CopyConstruct`, `Handles.World.CopyAssign`, `Handles.World.Attach`,
  `Handles.CopyAfterDestroy`).

## Model

| member | source | states |
|---|---|---|
| `FreeStack.Linearizable` | memory.hpp:1987-2046 | In every interleaving of any number of threads, with owners scribbling on their blocks, the history of allocate, push and carve is accepted by an atomic stack, and the state refines it: the chain through memory is that stack, and free, owned and in-transit blocks partition the carved ones. |
| `FreeStack.StepRefines` | memory.hpp:1987-2015 | Every concrete step, including a compare-and-swap on a recycled head, is exactly one step of the atomic stack (the ABA argument). |
| `FreeStack.SpecKeepsPartition` | memory.hpp:2034-2046 | The atomic stack keeps every carved block in exactly one place. |
| `FreeStack.NeverHandedOutTwice` | memory.hpp:1987-2015 | A block being handed out is carved, not free, not owned by a caller, and held by no other thread; the free chain is acyclic. |
| `FreeStack.NullMeansEmpty` | memory.hpp:1987-2015 | allocate() answers null only if the free list was empty at some instant of the call. |
| `FreeStack.LiveNeverOvercounts` | memory.hpp:2113-2147 | Reading alloc_ops and later free_ops never reports more live blocks than were out at any instant between. |
| `FreeStack.PeakNeverOverstates` | memory.hpp:2185-2197 | Any bound on the blocks out at all times bounds peak_bytes. |
| `FreeStack.QuiescentCountersExact` | memory.hpp:2022-2030 | With all threads idle, alloc_ops - free_ops is the blocks out, free_count is the chain length modulo 2^32, free and owned blocks partition the carved ones, and the peak covers what is live. |
| `FreeStack.CountersKept` | memory.hpp:2169-2197 | Every step keeps the live, free and peak counters in agreement with the stack, up to the updates still to come. |
| `FreeStackAlone.AllocAlone` | memory.hpp:1987-2015 | From any state with a block at the head, an undisturbed allocate takes that block, leaves the next one at the head, and counts it in all three counters and the peak. |
| `FreeStackAlone.AllocEmptyAlone` | memory.hpp:1987-2015 | On an empty list an undisturbed allocate changes nothing. |
| `FreeStackAlone.FreeAlone` | memory.hpp:2017-2032 | An undisturbed deallocate puts the block at the head, in front of what was there, and counts it. |
| `FreeStackAlone.LastFreedFirst` | memory.hpp:1987-2032 | A block that one thread frees is the next one another thread is handed, and list and live count are then as before. |
| `FreeStackAlone.OwnedWordsKept` | memory.hpp:1987-2046 | In every interleaving the first word of a block that a caller owns is what its owner was given or last wrote: the allocator never writes to it. |
| `MemoryBudget.ReservedIsOwned` | memory.hpp:1140-1179 | In every run reserved_bytes is the bytes owned by guards, undecided calls and half-done commits, and their sum stays within the budget. |
| `MemoryBudget.HardCap` | memory.hpp:1140-1173 | Committed memory stays within the budget in every run in which no call succeeds after a commit in both of its reading windows. |
| `MemoryBudget.CapWithoutOverlap` | memory.hpp:1474-1483 | If no commit falls between a call's loads, committed memory stays within the budget, and so does committed plus reserved up to commits between their two updates. |
| `MemoryBudget.CapCanBeOvershot` | memory.hpp:1155-1167 | From any start with two guards and any budget of two bytes or more below the largest size_t, a run commits one byte too many. |
| `MemoryBudget.OneByteIsSafe` | memory.hpp:1155-1167 | With a budget of one byte no run of any number of guards overshoots: whoever owns the byte has an up-to-date reading. |
| `MemoryBudget.OvershootExactly` | memory.hpp:1140-1173 | Some run takes committed memory past the budget if and only if there are two guards and the budget is at least two bytes and less than the largest size_t. |
| `MemoryBudget.AccountedKept` | memory.hpp:1430-1483 | Every step of reserving, committing, rolling back, moving and evicting keeps the reservation accounting. |
| `MemoryBudget.CurrentIsCommitted` | memory.hpp:1117-1124 | In every run current_memory is, modulo 2^64, the bytes of the guards that committed less the bytes reported as evicted. |
| `MemoryBudget.CallsServed` | memory.hpp:1140-1173 | In every run a guard holds, and so commits, the bytes its call was asked for, also after a move, and a call compares and swaps at most eight times. |
| `MemoryBudget.FailsExactly` | memory.hpp:1155-1173 | In every run a call fails exactly when its bytes do not fit what it has read, or with its eighth lost attempt. |
| `MemoryBudget.RefusedUndisturbed` | memory.hpp:1155-1161 | An undisturbed reservation that does not fit leaves everything as it was. |
| `MemoryBudget.MovedAndRolledBack` | memory.hpp:1444-1469 | A reservation that moves to another guard and is rolled back there leaves everything as it was. |
| `MemoryBudget.EvictedIsFreeAgain` | memory.hpp:1117-1124 | After committing bytes and evicting as many, an undisturbed reservation of them succeeds again and restores the state. |
| `SlabAllocator.ClassIndexFor` | memory.hpp:2631-2642 | The doubling loop returns the smallest class that is large enough. |
| `SlabAllocator.ClassIndexForPayload` | memory.hpp:2618-2623 | The smallest class whose payload holds the request, or the large marker when none does. |
| `SlabAllocator.ClaimFitsMeans` | memory.hpp:2554-2560 | A claimed size is accepted exactly when the block could hold it, or when claim and block are both too large for any class. |
| `SlabAllocator.CarvedInside` | memory.hpp:1937-1945 | All carved blocks lie inside the slab, and the bytes they take are within it, exactly when the slab is at least one block long. |
| `SlabAllocator.NumaAllocator.constructor` | memory.hpp:3520-3533 | A new allocator, with slabs of any size, owns no blocks and meets the invariant. |
| `SlabAllocator.NumaAllocator.CarveAll` | memory.hpp:2034-2046 | Carving a slab adds as many blocks as the source counts to one list only, changes no existing header, and keeps all blocks disjoint if the bytes they take were untouched. |
| `SlabAllocator.NumaAllocator.AllocateLarge` | memory.hpp:2795-2816 | An oversized request gets a new disjoint block with its own header. |
| `SlabAllocator.NumaAllocator.Pop` | memory.hpp:2486-2494 | The block on top of a list becomes live with the size asked for. |
| `SlabAllocator.NumaAllocator.AllocateOn` | memory.hpp:2486-2526 | A returned block was not live, belongs to that node and is of the class that serves the size. It comes from the top of its list; a slab is added only when that list is empty and the limit is not reached. Null means the class is exhausted, an exception that the system refused memory, and either changes nothing but the failure count. |
| `SlabAllocator.NumaAllocator.Allocate` | memory.hpp:3544-3546 | The same, on the calling thread's node or node 0. |
| `SlabAllocator.NumaAllocator.FreeByHeader` | memory.hpp:2820-2827 | The block returns to the list of the node and class recorded when it was carved, or to the heap. |
| `SlabAllocator.NumaAllocator.Deallocate` | memory.hpp:2540-2562 | From any thread with any claimed size: null is ignored; a foreign pointer or a claim that does not fit changes only the reject count; otherwise the block goes home, and the size asked for is never rejected. |
| `SlabAllocator.NumaAllocator.DeallocateBlock` | memory.hpp:2571-2579 | Without a size, every block with our header goes home; null is ignored and any other pointer only counted. |
| `RateLimiter.CapacityFor` | memory.hpp:160-165 | The ring's capacity is the least power of two, at least 2, above the window. |
| `RateLimiter.MaskIsRemainder` | memory.hpp:174-175 | Masking a position with a power of two less one is its remainder, so positions within a lap have different slots. |
| `RateLimiter.Limiter.AddValue` | memory.hpp:172-192 | The ring holds exactly the most recent samples after every addition, however often it wraps. |
| `RateLimiter.Limiter.NormalizedRate` | memory.hpp:265-281 | The rate is the change from the oldest to the newest sample of the sliding window, per sample. |
| `RateLimiter.RateOfLine` | memory.hpp:274-280 | Samples that change by the same amount each time have that amount as their rate, or its opposite when declines count. |
| `RateLimiter.Limiter.Exceeded` | memory.hpp:205-208 | True exactly when a positive budget is exceeded by the rate. |
| `RateLimiter.Limiter.ThrottledMagnitude` | memory.hpp:225-243 | Never more than asked, never above a rate greater than one, and in full when the rate does not limit it. |
| `Crc32.TableCorrect` | serialization.hpp:173-224 | Each of the 256 table words is eight bitwise CRC steps of its index. |
| `Crc32.TableStepSerial` | serialization.hpp:219-222 | One table look-up and shift takes in the eight bits of a byte. |
| `Crc32.SerialBijective` | serialization.hpp:219-222 | Taking in the same bits is a bijection on the register. |
| `Crc32.ComputeCrc` | serialization.hpp:173-224 | The table-driven loop computes the bit-by-bit reflected CRC-32 of every input. |
| `Crc32Values.CheckValue` | serialization.hpp:219-224 | The check value of this CRC-32: the digits 1 to 9 give 0xCBF43926, stored as 26 39 F4 CB. |
| `Crc32Values.Residue` | serialization.hpp:219-224 | Every message followed by its own checksum has the checksum 0x2144DF1C. |
| `Crc32Values.LeadingZeroCounts` | serialization.hpp:219-224 | A zero byte in front of any message changes its checksum. |
| `Crc32.BurstDetected` | serialization.hpp:173-224 | Two inputs that differ, and only inside 32 consecutive bits, have different checksums. |
| `Crc32.FourBytesAreABurst` | serialization.hpp:173-224 | Damage within four consecutive bytes is such a difference. |
| `Serde.DecodeEncode` | serialization.hpp:442-508 | Decoding an encoded value followed by anything gives the value and leaves the rest, for all nested strings, blobs, pairs, vectors and optionals within the limits. |
| `Serde.RoundTrip` | serialization.hpp:442-508 | The round trip succeeds exactly for the values within the decoder's limits. |
| `Serde.DecodeSound` | serialization.hpp:410-508 | Whatever is decoded from any bytes is well typed and within the limits. |
| `Serde.BinaryWriter.PatchAt` | serialization.hpp:263-267 | Overwrites bytes already written, or fails and changes nothing. |
| `Serde.BinaryReader.ReadBytes` | serialization.hpp:275-303 | Delivers the next bytes and advances, or fails at the end of the data. |
| `Serde.SerdeWrite` | serialization.hpp:410-502 | Writing a value appends its encoding. |
| `Serde.SerdeRead` | serialization.hpp:417-508 | Reading delivers what decoding the remaining bytes gives, value or error. |
| `Snapshot.ConfigRoundTrip` | serialization.hpp:541-571 | Reading back the 13 configuration fields gives the configuration. |
| `Snapshot.ListRoundTrip` | serialization.hpp:615-632 | Reading back the list state and its reserved words gives the list state. |
| `Snapshot.ItemBack` | serialization.hpp:587-601 | Reading back an item gives the item and leaves what follows. |
| `Snapshot.SnapshotRoundTrip` | serialization.hpp:752-896 | Parsing a serialized snapshot returns every field its kind of cache carries and the same items, exactly when it is within the parser's limits. |
| `Snapshot.ParseSound` | serialization.hpp:823-896 | Anything the parser accepts has typed items within the limits. |
| `Snapshot.AlteredPayloadRejected` | serialization.hpp:861-868 | A serialized snapshot altered only inside 32 consecutive payload bits is rejected by its checksum before anything is decoded. |
| `Snapshot.HeaderCheckIsInspection` | serialization.hpp:331-377 | The parser's header check accepts exactly the data that header inspection reports as good for that kind of cache. |
| `Snapshot.AcceptedPassesInspection` | serialization.hpp:331-377 | Every accepted blob gets magic_ok, version_supported and checksum_ok. |
| `SnapshotLayout.InspectSaved` | serialization.hpp:331-377 | Inspecting a saved snapshot reports its kind, its number of items and payload offset 36, or an unsupported one above ten million items. |
| `Snapshot.CoveredIsRefused` | serialization.hpp:848-871 | Any accepted blob with header_size 36 whose bytes behind the header are altered inside 32 consecutive bits is refused by its checksum. |
| `Snapshot.UncoveredIsAccepted` | serialization.hpp:848-877 | Any accepted blob with a larger header_size is still accepted, with another result, when its first decoded byte is replaced by any other. |
| `Snapshot.CoveredExactly` | serialization.hpp:848-877 | For every accepted blob: every burst of damage behind the header is refused if and only if header_size is 36. |
| `Snapshot.AnyHeaderSize` | serialization.hpp:848-871 | A blob that claims any header_size from 36 to its end, with the checksum of what follows, is accepted and restores the whole state. |
| `Snapshot.FeaturesUncovered` | serialization.hpp:855-867 | The features of any accepted blob are under no checksum: another low byte is accepted and read as other features. |
| `SnapshotIo.SerializeSnapshot` | serialization.hpp:752-793 | Appending the fields and patching the checksum writes exactly the specified bytes. |
| `SnapshotIo.WriteHeader` | serialization.hpp:757-766 | Writes the 36 header bytes with zeros where the checksum goes, and says where that is. |
| `SnapshotIo.Seal` | serialization.hpp:786-790 | Patches in the checksum of everything after the header. |
| `SnapshotIo.ReadHeader` | serialization.hpp:830-868 | Performs the header checks in their order and delivers what they decide. |
| `SnapshotIo.ParseData` | serialization.hpp:823-896 | The reader-driven parser returns exactly the specified result or error for every input. |
| `SnapshotLayout.LittleEndianAt` | serialization.hpp:242-256 | Byte i of a written integer is its digit of weight 256^i. |
| `SnapshotLayout.HeaderLayout` | serialization.hpp:757-765 | The header field by field at its offset, from the bytes 4C 52 55 53 to the checksum. |
| `SnapshotLayout.ConfigLayout` | serialization.hpp:541-555 | The 13 fields of a configuration at their offsets in 53 bytes. |
| `SnapshotLayout.ListLayout` | serialization.hpp:615-623 | The list state is two words and twelve zero bytes. |
| `SnapshotLayout.ItemLayout` | serialization.hpp:587-593 | An item is its key, its value, update time, flags and queue. |
| `SnapshotLayout.PayloadLayout` | serialization.hpp:767-784 | Configuration, what its kind carries, and items, each at its offset. |
| `SnapshotLayout.RestoredByKind` | serialization.hpp:770-779 | By kind: LRU and sharded LRU get their list state back, TinyLFU and W-TinyLFU their sketch, and the others defaults. |
| `SnapshotLayout.LimitsAre` | serialization.hpp:443-495 | A string comes back exactly up to a million bytes, a blob up to a hundred million, a vector up to ten million elements. |
| `Sharded.SavedThenParsed` | serialization.hpp:1244-1346 | Either reader, given saved shards, returns every shard's own parse, or the first shard's failure. |
| `Sharded.ShardedRoundTrip` | serialization.hpp:1244-1346 | Saving LRU shards within the limits and reading them back gives every shard's state. |
| `Sharded.OneBadShardFailsAll` | serialization.hpp:1336-1342 | One shard that does not parse, at any position, fails the whole restore. |
| `Sharded.AlteredShardsRejected` | serialization.hpp:1317-1324 | Damage inside 32 consecutive bits of the shard data is caught by the outer checksum in both readers. |
| `Sharded.ReadersAgree` | lru.hpp:998-1042 | The two readers accept the same data and give the same shards, except for the kind check. |
| `Sharded.LabelledThenParsed` | lru.hpp:998-1042 | Shards saved under any kind in the header: one reader returns every shard's own parse or the first failure, the other does so for the sharded kind and refuses every other kind. |
| `Sharded.ReadersDisagree` | serialization.hpp:1302-1307 | A blob of the plain LRU kind that one reader accepts and the other refuses. |
| `Sharded.ShardsCoveredExactly` | serialization.hpp:1308-1324 | In both readers the header check refuses every burst of damage behind the header if and only if header_size is 36. |
| `Sharded.UncoveredShardsAccepted` | lru.hpp:1015-1040 | When header_size reaches past byte 64, both readers accept any other value of that byte and restore other features for the first shard. |
| `Sharded.SerializeSharded` | lru.hpp:953-992 | Writes the framed concatenation of the shards' own blobs. |
| `SnapshotLayout.ShardedLayout` | serialization.hpp:1261-1269 | The header of a sharded snapshot, with the number of shards and kind 5. |
| `SnapshotLayout.ShardPlace` | serialization.hpp:1270-1273 | Each shard is its length and its own blob, at the sum of the lengths before it. |
| `Sharded.ShardedCache.Deserialize` | serialization.hpp:1286-1346 | Succeeds, memory aside, exactly when the data parses to the right number of shards and every configuration is accepted; data that does not parse changes nothing, and a refused configuration stops the rebuilding at that shard. |
| `Sharded.ShardedCache.Load` | lru.hpp:1103-1119 | The same for the parse-then-rebuild path, including a wrong shard count. |
| `Sharded.ShardedCache.Rebuild` | lru.hpp:1046-1057 | Throws, memory aside, exactly when set_config refuses some shard's configuration; the shards before the first such one are replaced, that one is refilled under its old configuration, and the later ones are unchanged. |
| `Sharded.ShardedCache.RebuildShard` | serialization.hpp:971-990 | A shard is refilled before its configuration is validated, and keeps the old one when that is refused. |
| `Sharded.AllOrNothingExactly` | mm.hpp:460-469 | Whatever the shards held, rebuilding replaces all of them or none if and only if every parsed configuration is accepted. |
| `SnapshotLayout.NonNegativeMeans` | mm.hpp:466-469 | The refresh ratio is accepted exactly when its eight bytes are not a NaN and are positive or either zero. |
| `Sharded.RestoreTwo` | serialization.hpp:1336-1346 | Any two saved shards, the second with a configuration that is refused: deserialize throws with the first replaced and the second refilled under its old configuration. |
| `Sharded.HalfRestored` | mm.hpp:460-469 | Such a blob: two empty shards with good checksums, the second with an insertion point specification of 8. |
| `LruSpec.StepBounded` | compact_cache.hpp:301-316 | Every operation keeps the size limit, and the memory limit up to one slot. |
| `LruSpec.StepOrdered` | compact_cache.hpp:871-887 | Every operation keeps the list sorted by promotion time, keys unique, values current, and stamps within the refresh time of the last use. |
| `LruSpec.RunBounded` | compact_cache.hpp:287-366 | Over every run the size limit holds and memory stays within its limit plus one slot. |
| `LruSpec.RunOrdered` | compact_cache.hpp:341-356 | Over every run with a clock that does not go back the list stays sorted and holds the values last stored. |
| `LruSpec.AddedIsStored` | compact_cache.hpp:938-953 | Adding an absent key stores it exactly when the size limit is not zero; at zero nothing changes. |
| `LruSpec.EvictedBehindKept` | compact_cache.hpp:880-887 | Whatever an operation evicts lay behind everything it keeps. |
| `LruSpec.EvictionError` | compact_cache.hpp:871-887 | Bounded error: an evicted key's last use is at most max(refresh - 1, 0) seconds after that of any key kept. |
| `LruSpec.SlackIsReached` | compact_cache.hpp:871-887 | The bound is tight: for every refresh time some run evicts a key used exactly refresh - 1 seconds after one it keeps. |
| `LruEffects.ApplyDoes` | compact_cache.hpp:287-477 | Every operation does what its name says: del leaves every other entry in its order and not the key; flush leaves nothing; get and set of a present key touch that entry only, at the head exactly if it was due; a new key goes to the head; and no operation evicts more than the limits ask for. |
| `LruEffects.OthersKept` | compact_cache.hpp:414-424 | A deletion keeps exactly the entries under other keys. |
| `CompactCache.MapFinds` | compact_cache.hpp:287-296 | The map finds exactly the keys on the list, at the slot the list has them. |
| `CompactCache.ErasedCoherent` | compact_cache.hpp:889-907 | Erasing keeps map, list and pool in agreement and removes exactly that entry. |
| `CompactCache.PromotedCoherent` | compact_cache.hpp:871-878 | Promotion keeps them in agreement and moves exactly that entry to the head. |
| `CompactCache.NewEntry` | compact_cache.hpp:318-356 | Building an entry either links it at the head or gives the slot back, and both keep the agreement. |
| `CompactCache.Cache.constructor` | compact_cache.hpp:259-270 | A new cache is empty and consistent, with one block of slots unless its size limit is zero. |
| `CompactCache.Cache.Deallocate` | compact_cache.hpp:139-148 | Vacates the slot, destroys its key and value exactly if it is occupied, and returns it to the free list. |
| `CompactCache.Cache.EraseSlot` | compact_cache.hpp:889-907 | Takes one entry out of map, list and pool, and its memory off the count. |
| `CompactCache.Cache.EvictLru` | compact_cache.hpp:880-887 | Drops the last entry, if any. |
| `CompactCache.Cache.RecordAccess` | compact_cache.hpp:871-878 | Promotes exactly when the refresh time has passed in 32-bit arithmetic. |
| `CompactCache.Cache.MakeRoomBySize` | compact_cache.hpp:309-313 | The eviction loop ends with room for one more entry, keeping the most recent ones. |
| `CompactCache.Cache.MakeRoomByMemory` | compact_cache.hpp:314-316 | The eviction loop ends with memory within its limit or the cache empty. |
| `CompactCache.Cache.Build` | compact_cache.hpp:327-356 | Constructing key, value and map entry in turn: a throw at any of the three leaves map, list, pool and the numbers of live key and value objects as they were. |
| `CompactCache.Cache.StoreNew` | compact_cache.hpp:327-356 | The new entry is at the head, or a throwing step leaves the entries as they were. |
| `CompactCache.Cache.Overwrite` | compact_cache.hpp:291-297 | Changes the value of a present key and counts as an access. |
| `CompactCache.Cache.Set` | compact_cache.hpp:287-366 | Does to the entries what the specification says, keeps everything consistent and within limits, undoes a step that throws, and leaves exactly the entries' key and value objects alive. |
| `CompactCache.Cache.Add` | compact_cache.hpp:369-378 | The same without touching a key that is present; reports whether it was absent, and what it reports as added is stored exactly when the size limit is not zero. |
| `CompactCache.AddedButMissing` | compact_cache.hpp:951-953 | With a size limit of zero, add reports success for a key that is then not found. |
| `CompactCache.Cache.Get` | compact_cache.hpp:384-398 | Returns the stored value or a miss, and promotes. |
| `CompactCache.Cache.Peek` | compact_cache.hpp:407-412 | Returns the same value and changes nothing. |
| `CompactCache.Cache.Del` | compact_cache.hpp:414-424 | Afterwards the key is not there, every other entry is, in its order, and the answer says whether there was one. |
| `CompactCache.Cache.Flush` | compact_cache.hpp:432-445 | Returns every slot to the pool, last entry first, and clears the map; the three structures agree again and no key is left. |
| `CompactCache.Cache.SetMaxSize` | compact_cache.hpp:472-477 | Keeps the most recent entries the new limit allows. |
| `AsyncQueue.PushedIsResult` | core.hpp:631-650 | Pushing a batch one by one leaves the last events (drop oldest) or the first (drop newest) of the old queue and the batch. |
| `AsyncQueue.KeptOrLost` | core.hpp:631-650 | Every event of the old queue and the batch is kept or lost, never both. |
| `AsyncQueue.BatchInOrder` | core.hpp:631-650 | What was taken and what is queued keeps the order in which events entered. |
| `AsyncQueue.BatchIsDrained` | core.hpp:654-735 | A batch holds, for each of the seven kinds, exactly the drained events of that kind in their order, and as many as the seven lists together. |
| `AsyncQueue.CallbackQueue.PushEvent` | core.hpp:631-650 | One push under the policy; it refuses only under reject and only when the queue is full. |
| `AsyncQueue.CallbackQueue.PushAll` | core.hpp:654-660 | No push is refused once the batch was seen to fit, so the later reject branch is unreachable. |
| `AsyncQueue.CallbackQueue.Enqueue` | core.hpp:605-735 | The asynchronous path: what is not kept is counted as dropped, and under reject everything is kept. |
| `AsyncQueue.CallbackQueue.FlushPending` | core.hpp:587-738 | The batch is queued under the policy with drops counted, or handed back whole for synchronous dispatch; the events accounted for grow by exactly the seven lists, and each is in exactly one place. |
| `AsyncQueue.CallbackQueue.Flush` | core.hpp:594-738 | The same for a flush that loaded the mode earlier, whatever the mode is by the time it takes the lock. |
| `AsyncQueue.CallbackQueue.WorkerTake` | core.hpp:1035-1057 | Takes at most 256 events, oldest first. |
| `AsyncQueue.CallbackQueue.Drain` | core.hpp:1060-1071 | Takes everything, in order. |
| `AsyncQueue.CallbackQueue.Stop` | core.hpp:1020-1032 | Later batches are dispatched at once, and what is queued is drained. |
| `AsyncQueue.EmptyAfterStopExactly` | core.hpp:1020-1032 | After the final drain and any flushes that had seen the mode on, the queue is empty if and only if none of them has a batch that an empty queue takes. |
| `AsyncQueue.CallbackQueue.StopThenFlush` | core.hpp:1020-1032 | Stop followed by the flushes it overtook: what they queue stays there with the mode off, and every event is still accounted for. |
| `AsyncQueue.StrandedAfterStop` | core.hpp:594-595 | One event flushed across a stop stays queued, whatever the limit and the policy. |
| `Handles.ShardMoves` | core.hpp:1616-1632 | One shard moving, even around its end, moves the total by as much modulo 2^64. |
| `Handles.World.Construct` | core.hpp:2906-2930 | Constructing a handle, with incRef succeeding or failing, keeps all three accounting laws. |
| `Handles.World.ConstructPrePinned` | core.hpp:2936-2949 | The caller's pin becomes the handle's. |
| `Handles.World.FindAndPin` | core.hpp:2932-2936 | A pin taken before any handle exists is counted as such. |
| `Handles.World.CopyConstruct` | core.hpp:2955-2979 | Copying pins again, or gives an empty handle; a cache's counter changes, even a destroyed cache's, exactly when the source pins an item counted there and incRef succeeds. |
| `Handles.World.CopyAssign` | core.hpp:3005-3030 | The new item is pinned before the old one is let go; a failed pin leaves an empty handle; a destroyed cache's counter changes exactly when another handle that pins an item counted there is copied and incRef succeeds. |
| `Handles.World.MoveConstruct` | core.hpp:3067-3076 | The pin moves; nothing is counted. |
| `Handles.World.MoveAssign` | core.hpp:3079-3092 | The old pin is released and the other's moves in. |
| `Handles.World.Release` | core.hpp:3125-3165 | Takes the handle off every counter, and touches a cache's counter only while that cache is alive. |
| `Handles.World.Attach` | core.hpp:3213-3229 | Moves the handle from one cache's counter to another's, once; a destroyed cache's counter changes exactly when the handle pins an item counted there. |
| `Handles.World.DestroyCache` | core.hpp:3128-3142 | Handles may outlive the cache; the laws for all other counters stay. |
| `Handles.CopyAfterDestroy` | core.hpp:2955-2976 | A handle outlives its cache, and copying it writes the counter of the destroyed cache. |
| `Handles.World.FlushThread` | core.hpp:3319-3330 | Publishing a thread's delta leaves the global total plus all deltas unchanged modulo 2^64. |
| `Handles.World.Note` | core.hpp:3338-3350 | The delta moves by one and never exceeds 63. |
| `Handles.World.Load` | core.hpp:1626-1632 | For a live cache, the sum of its shards is the number of live handles attached to it, modulo 2^64. |
| `Handles.World.ActiveCount` | core.hpp:3352-3361 | The global count is off by at most 63 for every other thread. |
| `PoolTotals.StepKeeps` | pooled_cache.hpp:1056-1086 | Every step of any thread keeps lock exclusion, the stability of snapshots, and both totals. |
| `PoolTotals.TotalsPlusOwed` | pooled_cache.hpp:450-490 | In every interleaving, outside a recomputation, each total plus the deltas in flight is the sum over pools modulo 2^64. |
| `PoolTotals.ExactWhenSettled` | pooled_cache.hpp:561-589 | With no delta in flight both totals are exact modulo 2^64. |
| `PoolTotals.ExactUnderExclusiveLock` | pooled_cache.hpp:1077-1086 | An exclusive holder between operations finds, or leaves, exact totals. |
| `PoolTotals.PoolsAreBooked` | pooled_cache.hpp:450-490 | In every run each pool is what the last operation on it, or the last restructuring, made it. |
| `PoolTotals.SettledTotals` | pooled_cache.hpp:450-490 | With no delta in flight the totals are the sums over the pools the operations made. |
| `PooledCache.SwapPopIndexOk` | pooled_cache.hpp:334-358 | Swap-and-pop keeps names and positions in one-to-one correspondence and drops only the removed name. |
| `PooledCache.SwapPopRemoves` | pooled_cache.hpp:334-358 | Swap-and-pop removes exactly the named pool. |
| `PooledCache.SortPositions` | pooled_cache.hpp:1025-1034 | A permutation of the pools sorted by priority, larger pools first among equals. |
| `PooledCache.FirstNonEmptyIsMinimal` | pooled_cache.hpp:762-792 | The first non-empty pool in the order has the least priority value of all that hold anything, and in a fresh order the most entries of those. |
| `PooledCache.Pools.AddPool` | pooled_cache.hpp:289-330 | Adds an empty pool exactly if the name is new and not empty, the priority is at least 1 and the insertion point at most 7; changes nothing otherwise. |
| `PooledCache.Pools.RemovePool` | pooled_cache.hpp:334-361 | Removes the named pool and keeps index and totals right. |
| `PooledCache.Pools.ResizePool` | pooled_cache.hpp:364-375 | The totals follow whatever the pool evicts. |
| `PooledCache.Pools.SetPriority` | pooled_cache.hpp:378-385 | Changes one priority; the order is rebuilt before it is used again. |
| `PooledCache.Pools.RebuildEvictionOrder` | pooled_cache.hpp:1018-1035 | Afterwards the order is a clean permutation by current priority. |
| `PooledCache.Pools.EvictGlobal` | pooled_cache.hpp:753-792 | Evicts from a non-empty pool of least priority value and from no other; fails only when all pools are empty. |
| `PooledCache.Pools.EnsureCapacity` | pooled_cache.hpp:1000-1010 | Ends with the global limits met, stops as soon as they are, and changes nothing if they already were. No pool grows, and a pool that has lost something leaves every pool of smaller priority value empty. |
| `PooledCache.Pools.LimitsMet` | pooled_cache.hpp:967-977 | Eviction is asked for exactly when the pools together exceed the size or the memory limit. |
| `PooledCache.Pools.Set` | pooled_cache.hpp:450-490 | The operation takes effect, all pools together are within the global limits afterwards, and evictions before and after it follow priority. |
| `PooledCache.Pools.Del` | pooled_cache.hpp:561-589 | The totals follow the pool. |
| `PooledCache.Pools.RecomputeTotals` | pooled_cache.hpp:1077-1086 | The totals are the sums over the pools. |
| `PooledCache.Pools.UpdateTotals` | pooled_cache.hpp:1056-1071 | Adds the difference between the two snapshots to both totals. |
| `PooledCache.Pools.SetGlobalLimits` | pooled_cache.hpp:712-731 | All pools together are within the new limits, and what is evicted for that follows priority. |
| `Replication.Manager.Register` | hot_key_replica.hpp:396-417 | Registers the key once, within the cap and only if it is cached. Each copy then holds the key's value and is there exactly unless a later write evicted it; everything else is as before but for what the writes evicted. |
| `Replication.Manager.Unregister` | hot_key_replica.hpp:421-433 | Removes every copy of the key and nothing else. |
| `Replication.Manager.ReplicatedSet` | hot_key_replica.hpp:619-647 | Acts as the plain map's update. Key and copies hold the new value and are there exactly unless a write evicted them; everything else is as before but for what the writes evicted. |
| `Replication.Overtaken` | hot_key_replica.hpp:629-644 | An interleaving of two calls that ends with one value under the key and the other under every copy. |
| `Replication.WritersDivergeExactly` | hot_key_replica.hpp:629-644 | Two overlapping calls on one key can leave key and copies in disagreement if and only if there is a copy and the values differ. |
| `Replication.Manager.ReplicatedGet` | hot_key_replica.hpp:559-612 | Whichever replica is picked, a hit is the latest value, and it is a miss exactly when neither that replica nor the key is cached. |
| `Replication.IntegerReplicaIs` | hot_key_replica.hpp:798-824 | For a key in the low half, the marker and the number change the high half only. |
| `Replication.IntegerReplicaInjective` | hot_key_replica.hpp:798-824 | Equal replica keys come from the same key and number. |
| `Replication.IntegerKeysGood` | hot_key_replica.hpp:798-824 | For unsigned keys of 16 bits or more used in their low half, replica keys are distinct and never ordinary keys exactly up to 219 replicas. |
| `Replication.StringKeysGood` | hot_key_replica.hpp:790-797 | For strings without the marker byte five from the end, the same holds exactly up to 2^32 replicas. |
| `Replication.StringReplicaIs` | hot_key_replica.hpp:790-797 | A replica key is the key, the marker byte, and the number in four bytes, highest first. |
| `ChainedValue.PackedCount` | chained_item.hpp:305-329 | Chunks that are all full but the last are as many as rounding up says. |
| `ChainedValue.Value.Append` | chained_item.hpp:319-322 | Linking a chunk behind the last keeps the list well formed in both directions. |
| `ChainedValue.Value.AssignRaw` | chained_item.hpp:305-329 | Builds a well-formed list of new chunks, as many as rounding up says, that assembles to the input. |
| `ChainedValue.Value.AssembleRaw` | chained_item.hpp:344-354 | Returns the bytes in order, or nothing for an empty value. |
| `ChainedValue.Value.CopyFrom` | chained_item.hpp:481-500 | The copy holds the same bytes in chunks that are all new. |
| `ChainedValue.Value.ChunkCount` | chained_item.hpp:371-375 | Counts the chunks: the size over the payload, rounded up. |
| `ChainedValue.Value.Overhead` | chained_item.hpp:378-385 | With the payload bytes it is all the memory of all the chunks. |
| `ChainedValue.Value.Clear` | chained_item.hpp:437-447 | Frees the chunks first to last, each once. |
| `ChainedValue.Value.TryCascadingEvict` | chained_item.hpp:259-274 | Frees every chunk, or changes nothing, exactly when something is pinned. |

## Left out

- MemoryBudget.HardCap: for one given run the condition is sufficient only; which configurations can overshoot at all is exact in MemoryBudget.OvershootExactly.
- FreeStack.Linearizable: the tag is unbounded, so a tag that wraps around is not modelled, and neither is wrap-around of the 64-bit operation counters.
- FreeStack.QuiescentCountersExact: total and free block counts of several classes together are not summed.
- RateLimiter.Limiter.AddValue: concurrent additions and the wrap-around of the position after 2^64 samples are not modelled; a difference of samples does not overflow.
- Sharded.ShardedCache.Rebuild: a shard is identified with the parsed state it is rebuilt from; how the LRU list and its insertion point are rebuilt is not modelled, and what is left of a shard when memory runs out is a parameter.
- Sharded.SavedThenParsed: blobs of 2^32 bytes or more, whose length does not fit its field, are excluded.
- Sharded.LabelledThenParsed: the same blobs are excluded.
- Sharded.OneBadShardFailsAll: the same blobs are excluded.
- CompactCache.Cache.Overwrite: assigning over a present value does not throw.
- CompactCache.Cache.Set: assigning over a present value does not throw, and the shut-down flag, statistics, callbacks and locks are not modelled.
- PooledCache.Pools.Set: the cache inside a pool is abstract, as any new size and memory; totals are unbounded here and wrap around only in PoolTotals.
- PooledCache.Pools.EvictGlobal: evicting from a non-empty pool succeeds; skipping a pool whose lock is taken is not modelled.
- Handles.World.Attach: the cache of the new counter is alive, since its notifier is read there; global tracking is always on. The memory of a destroyed cache's counter stays readable in the model, so that a write to it can be seen.
- Handles.World.CopyConstruct: the converting copies between handle types are not modelled.
- PooledCache.Pools.ResizePool: a pool that holds nothing uses no memory, here and wherever a pool's size and memory are given.
- AsyncQueue.CallbackQueue.Stop: the calls are one at a time; the interleaving that splits a flush is AsyncQueue.CallbackQueue.StopThenFlush.
- Replication.Manager.ReplicatedSet: calls on one key do not overlap; what two that do can lead to is Replication.WritersDivergeExactly.
- Replication.Manager.ReplicatedGet: readers inside a half-done replicated_set, and replicated_cas, are not modelled.
- ChainedValue.Chunk.Write: the offset parameter, which no caller gives, is not modelled.
- ChainedValue.Value.CopyFrom: custom chunk allocators and moves are not modelled; the chained-item flag is stated only for assignment, copying and clearing.
- SlabAllocator.NumaAllocator.AllocateOn: the second look at the list under the class lock, which only another thread can make succeed, is not modelled.
- SlabAllocator.NumaAllocator.DeallocateBlock: freeing the same block twice is excluded.
- SlabAllocator.NumaAllocator.Deallocate: freeing the same block twice is excluded, and memory that is not ours is taken not to carry the header's magic.
- The per-class free list is lock-free in FreeStack and a plain stack in SlabAllocator; the two are not composed.
- File input and output, shared memory, NUMA system calls, the OS memory sampler and the platform wrappers.
- Probabilistic admission, watermarks and the random number generator.
- The unified cache, the memory-management strategies, the intrusive list and the reference-count word, used only through their contracts.
- The event tracker, admission filters, compressed pointers, resharding, statistics formatting and pool rebalancing.
