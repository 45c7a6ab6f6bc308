# smmalloc set-up and thread caches, modelled in Dafny

smmalloc is a small-block allocator. `Allocator::Init` takes one arena from the backend
allocator and cuts it into up to 64 equal regions, one per bucket. Bucket i serves
elements of 16 * (i + 1) bytes. Each bucket threads an intrusive free list of tagged
32-bit links through its region (`PoolBucket::Create`). Each thread can also own a
per-bucket cache (`TlsPoolBucket`). The cache holds a small inline array L0 and a
caller-supplied buffer L1. `CreateThreadCache` binds the caches and can pre-fill them.
`DestroyThreadCache` flushes them back to the buckets.

The model covers the sequential part of `Source/Native/smmalloc.cpp`:

- `arith.dfy` (`Arith`): facts about products, quotients and remainders.
- `pow2.dfy` (`Pow2`): `GetNextPow2` bit by bit, on naturals below 2^32 viewed as 32-bit
  words. The `uint32_t` wrap of `n - 1` and `n + 1` is written out, and so is the final
  conversion to a 32-bit `int`. The file also has `Align` and `IsAligned`.
- `pool_bucket.dfy` (`PoolBuckets`): `PoolBucket` as a class. The free list is an array
  of `TaggedIndex` link words, one per element of the slab. `Walk` and `FreeList` read
  the chain back from the head.
- `tls_pool_bucket.dfy` (`TlsCache`): `TlsPoolBucket` as a class with `Init` (including
  warm-up) and `Destroy`.
- `allocator.dfy` (`Allocators`): `Allocator` with `Init`, `CreateThreadCache` and
  `DestroyThreadCache`. The `thread_local` cache array is an explicit `ThreadCache` object.

Addresses are naturals, and 0 is the null pointer.

Some behaviour of the code as written is stated as it is:

- The arena end `Init` records is one byte past the end of the last bucket's slab
  (line 213; `Allocator.Init`).
- A slab smaller than one element still gets a one-element free list that runs past the
  slab (`CreatedChainOverruns`).
- The closing debug check of `TlsPoolBucket::Init` (line 99) fails when warm-up is cut
  short (`WarmupShortfall`).
- `CreateThreadCache` advances its index twice per round, so only the even buckets get a
  cache (see Findings).
- `elementsNum` is `cacheSize + 7`, truncated to 32 bits. `TlsPoolBucket::Init` asserts
  it is at least 9, so `CreateThreadCache` requires `CacheElementsNum(cacheSize) >= 9`.
  A `cacheSize` of 0 or 1 trips that assertion in the source.

## Model

| member | source | states |
|---|---|---|
| Pow2.NextPow2Unsigned | Source/Native/smmalloc.cpp:178-186 | the `uint32_t` value of `n + 1` after the smear stays below 2^32 (its value is pinned by NextPow2UnsignedValue and NextPow2UnsignedWraps) |
| Pow2.GetNextPow2 | Source/Native/smmalloc.cpp:178-187 | the `uint32_t` result converted to `int` lies in [INT_MIN, 2^31) (its value is pinned by GetNextPow2Value and GetNextPow2Overflow) |
| Pow2.SmearFills | Source/Native/smmalloc.cpp:180-184 | the five shift-and-or steps (shifts 16, 8, 4, 2, 1) set exactly the bits at or below the highest set bit of `n` |
| Pow2.NextPow2UnsignedValue | Source/Native/smmalloc.cpp:178-187 | for 1 <= n <= 2^31 the `uint32_t` result is the least power of two >= n |
| Pow2.NextPow2UnsignedWraps | Source/Native/smmalloc.cpp:179-186 | for n = 0 and n > 2^31 the `uint32_t` arithmetic wraps and the result is 0 |
| Pow2.GetNextPow2Value | Source/Native/smmalloc.cpp:178-187 | for 1 <= n <= 2^30 GetNextPow2 returns a positive power of two r with n <= r < 2n |
| Pow2.GetNextPow2Overflow | Source/Native/smmalloc.cpp:178-187 | n = 0 or n > 2^31 gives 0; 2^30 < n <= 2^31 gives INT_MIN, because 2^31 does not fit the `int` result |
| Pow2.NextPow2IsGetNextPow2 | Source/Native/smmalloc.cpp:178-187 | on [1, 2^30] GetNextPow2 equals the least power of two reached by doubling from 1 |
| Pow2.NextPow2Least | Source/Native/smmalloc.cpp:178-187 | no power of two >= m lies below the round-up of m |
| Pow2.NextPow2DividesLarger | Source/Native/smmalloc.cpp:200-221 | the round-up of a smaller element size divides the round-up of a larger one |
| Pow2.Align | Source/Native/smmalloc.cpp:202 | Align(x, a) for a power of two a is a multiple of a in [x, x + a) |
| Pow2.AlignLeast | Source/Native/smmalloc.cpp:202 | Align(x, a) is at most any multiple of a that is >= x; Align's own contract makes it such a multiple, below x + a |
| PoolBuckets.PoolBucket.constructor | Source/Native/smmalloc.cpp:172 | a bucket of a new allocator has null slab pointers, an empty free list (head Invalid), tag 0 and no shared free elements |
| PoolBuckets.PoolBucket.Create | Source/Native/smmalloc.cpp:141-170 | the slab bounds stay; the link words become CreatedLinks; head is {0, 0}; globalTag ends at the number of links written minus one, mod 2^32 |
| PoolBuckets.CreatedChain | Source/Native/smmalloc.cpp:146-169 | the free list from head {0, 0} visits element i at offset i * elementSize, for every slot, in address order |
| PoolBuckets.CreatedChainFits | Source/Native/smmalloc.cpp:153-165 | when one element fits, the list holds exactly size / elementSize elements, each aligned and inside the slab, with strictly increasing offsets, so it has no cycle |
| PoolBuckets.CreatedChainOverruns | Source/Native/smmalloc.cpp:146-164 | a slab smaller than one element still gets a one-element list at offset 0, which ends past pBufferEnd |
| PoolBuckets.CreatedTags | Source/Native/smmalloc.cpp:149-168 | link k is tagged k, every slot but the last holds a link, the last is Invalid, and tags increase along the slab |
| TlsCache.TlsPoolBucket.constructor | Source/Native/smmalloc.cpp:27 | a thread's cache starts zeroed: no buffer, no bucket, empty L0 and L1, with its own L0 array of 7 slots |
| TlsCache.TlsPoolBucket.GetElementsCount | Source/Native/smmalloc.cpp:99 | the count the line 99 check reads is the number of handles the cache holds, L0 and L1 together |
| TlsCache.WarmupTarget | Source/Native/smmalloc.cpp:65 | warm-up aims for nothing when cold, half of maxElementsCount when warm and all of it when hot |
| TlsCache.WarmupAllocate | Source/Native/smmalloc.cpp:67-84 | the warm-up stack holds the accepted blocks in reverse allocation order; the block handed to Free is the first one of another bucket, unless a null came first |
| TlsCache.AcceptedLength | Source/Native/smmalloc.cpp:69-84 | warm-up keeps at most one block per attempt, and every kept block is non-null and in the bucket being warmed |
| TlsCache.AcceptedFull | Source/Native/smmalloc.cpp:69-99 | the cache reaches its target iff every attempt returns a non-null block of the right bucket; then nothing is freed |
| TlsCache.WarmupShortfall | Source/Native/smmalloc.cpp:65-99 | for any warm-up whose first allocation is null, a warm cache with an L1 capacity of at least 2 keeps no block and frees none, below its target of at least 1, so the check on line 99 fails |
| TlsCache.TlsPoolBucket.ReleaseToCache | Source/Native/smmalloc.cpp:91 | succeeds iff L1 has room, and then pushes the handle on top of L1; otherwise nothing changes |
| TlsCache.TlsPoolBucket.ReleaseWarmed | Source/Native/smmalloc.cpp:86-97 | every release of the warm-up stack succeeds, and L1 ends holding the stack from top to bottom |
| TlsCache.TlsPoolBucket.Init | Source/Native/smmalloc.cpp:39-100 | binds the cache to the bucket with maxElementsCount = maxElementsNum - 7 and an empty L0; L1 read top-down is the accepted warm-up blocks; freed is the rejected block; countMatches iff the cache holds the target count |
| TlsCache.TlsPoolBucket.DrainL0 | Source/Native/smmalloc.cpp:103-106 | the L0 handles are appended to L1, which then holds every cached handle |
| TlsCache.TlsPoolBucket.ReturnL1CacheToMaster | Source/Native/smmalloc.cpp:108-109 | the top count handles of L1 leave the cache and join the bucket's shared free elements |
| TlsCache.TlsPoolBucket.Destroy | Source/Native/smmalloc.cpp:102-121 | every field is reset; the old L1 buffer is returned holding all cached handles; when it held any, they all join the bucket's free elements, and otherwise the bucket is untouched |
| Allocators.AlignmentMax | Source/Native/smmalloc.cpp:200 | the alignment is a power of two between 16 * count and 32 * count |
| Allocators.AlignmentMaxMatches | Source/Native/smmalloc.cpp:200 | AlignmentMax(count) is GetNextPow2(16 * count) |
| Allocators.BucketSizeLeast | Source/Native/smmalloc.cpp:202 | the bucket size is the least multiple of the alignment that holds the requested size |
| Allocators.Allocator.constructor | Source/Native/smmalloc.cpp:172-176 | a new allocator has no buckets configured and null arena pointers |
| Allocators.Allocator.ClearDataBegin | Source/Native/smmalloc.cpp:206-208 | every entry of bucketsDataBegin becomes null |
| Allocators.Allocator.InitBucket | Source/Native/smmalloc.cpp:218-224 | bucket i's slab is region i of the arena, and Create has threaded it for its element size |
| Allocators.Allocator.LayOutBuckets | Source/Native/smmalloc.cpp:215-227 | each configured bucket is laid out over its region with element size 16 * (i + 1), and its data pointer is recorded; the other slots are untouched |
| Allocators.Allocator.Init | Source/Native/smmalloc.cpp:189-228 | a configured allocator or a count of 0 changes nothing; otherwise the bucket size is Align(requested, AlignmentMax), every bucket is laid out over its region with its data pointer recorded, and the recorded arena end is one byte past the end of the last bucket's slab |
| Allocators.RegionsTile | Source/Native/smmalloc.cpp:210-223 | consecutive regions abut, distinct regions do not overlap, and all of them lie inside the count * size bytes of the arena |
| Allocators.RegionAligned | Source/Native/smmalloc.cpp:219-221 | the start of region i is a multiple of the round-up of its element size |
| Allocators.AlignmentCheckPasses | Source/Native/smmalloc.cpp:221 | the IsAligned(pData, GetNextPow2(elementSize)) check passes for every bucket |
| Allocators.ThreadCache.constructor | Source/Native/smmalloc.cpp:27 | the thread starts with 64 distinct caches, all fields zero |
| Allocators.Allocator.BindCache | Source/Native/smmalloc.cpp:126-128 | the cache of slot i gets a fresh L1 buffer of cacheSize + 7 words (32-bit) and is bound to bucket i with an empty L0; its L1, read top-down, holds the blocks warm-up kept for bucket i; the returned outcome is the block Init handed to Free and whether the line 99 count check held; no other cache changes |
| Allocators.Allocator.BindNext | Source/Native/smmalloc.cpp:126-128 | one round binds slot i as BindCache does and records its outcome; the slots bound before keep their caches, buffers and outcomes, and all bound slots keep pairwise distinct L1 buffers |
| Allocators.Allocator.CreateThreadCache | Source/Native/smmalloc.cpp:124-132 | as written, the slots that get a cache are exactly CachedSlots(bucketsCount), the even ones below bucketsCount; each gets a fresh L1 buffer, distinct from every other slot's, holding top-down the blocks warm-up kept for its bucket, and its outcome records the block freed and the line 99 check result; every other slot is unchanged |
| Allocators.CachedSlotsMembers | Source/Native/smmalloc.cpp:125-130 | the slots the doubled increment visits are exactly the even ones below the count |
| Allocators.CachedSlotsCount | Source/Native/smmalloc.cpp:125-130 | the doubled increment visits (count + 1) / 2 slots |
| Allocators.OddBucketsUncached | Source/Native/smmalloc.cpp:125-130 | with two or more buckets, bucket 1 gets no cache, and fewer than count buckets get one |
| Allocators.Allocator.CreateThreadCacheEveryBucket | Source/Native/smmalloc.cpp:124-132 | with a single increment per round, every slot below bucketsCount gets a cache with a fresh L1 buffer, distinct from every other slot's, holding top-down the blocks warm-up kept for its bucket, with its outcome recorded; the rest are unchanged |
| Allocators.Allocator.DestroyThreadCache | Source/Native/smmalloc.cpp:134-139 | all 64 caches are reset, configured or not, and the L1 buffer of each goes to the backend's Free, slot by slot |

## Left out

- Atomics and memory orders: `globalTag` and `head` are plain fields. The lock-free CAS protocol of the shared free list is not modelled, and neither is concurrent use of a bucket.
- `thread_local`: the per-thread array `tlsCacheBuckets` (line 27) is an explicit `ThreadCache` object passed to the operations. Its slots are never reassigned, only the caches in them, so it is a constant sequence of cache objects; the allocator's `buckets` array is a constant sequence of bucket objects for the same reason.
- The backend allocator (`GenericAllocator`, lines 231-283):
  - The arena address is a parameter of `Init`, assumed aligned to the requested alignment as `GenericAllocator::Alloc` guarantees (lines 249-256). Allocation failure (a null arena) is not modelled.
  - The L1 buffers of `CreateThreadCache` are fresh arrays, never null.
  - `Free` of an L1 buffer is recorded in `freedBuffers`.
- The header `smmalloc.h` is not part of this model. `SMM_MAX_CACHE_ITEMS_COUNT` (7), `SMM_MAX_BUCKET_COUNT` (64), `Align` and `IsAligned` are restated from their uses. From it:
  - `Allocate<false>` and `GetBucketIndex`, called by warm-up, are oracles (functions of the attempt and of the block address).
  - The `Free` of a block of another bucket is recorded in `freed`.
  - `GetBucketElementSize` is not needed, because the oracle already fixes the block size.
- TlsCache.TlsPoolBucket.ReleaseToCache: a stand-in for the header's `ReleaseToCache<false>`. It pushes onto L1 while L1 has room, and does not model the bucket-index check or the statistics of the real function.
- TlsCache.TlsPoolBucket.ReturnL1CacheToMaster: a stand-in for the header's function. It moves the top `count` handles of L1 into a ghost multiset of the bucket's shared free elements, instead of splicing them into the lock-free list.
- Handles: the cache stores block addresses rather than the header's 32-bit offset encoding.
- The warm-up link stack, written through the blocks' own memory, is a sequence.
- The slab's memory is modelled only by the link word at the start of each element.
- Statistics (`SMMALLOC_STATS_SUPPORT`) and the managed wrapper `Source/Managed/Smmalloc.cs` are not modelled.
- `size_t` overflow: `Align` and `bucketSizeInBytes * bucketsCount` are computed without 64-bit wrap-around.
- PoolBuckets.CreatedChain: requires a slab below 2^32 bytes. For larger slabs the 32-bit offsets and tags that Create writes are truncated, and the chain is not characterised.
- Pow2.NextPow2Unsigned: its own contract bounds the result only; the value is stated by the lemmas NextPow2UnsignedValue and NextPow2UnsignedWraps.
- Pow2.GetNextPow2: its own contract bounds the result only; the value is stated by the lemmas GetNextPow2Value, GetNextPow2Overflow and NextPow2IsGetNextPow2.
- Allocators.Allocator.Init: states the alignment as AlignmentMax(count). That this equals the source's GetNextPow2(16 * count) is the separate lemma AlignmentMaxMatches.
- Allocators.Allocator.DestroyThreadCache: states that every cache is reset and every buffer is handed back. It does not restate, summed over all caches, where the cached handles go. TlsCache.TlsPoolBucket.Destroy states that for each cache.

## Findings

| source | as written | input that shows it | evidently intended | confidence | as-written member | corrected member |
|---|---|---|---|---|---|---|
| Source/Native/smmalloc.cpp:125-130 | the loop header and the body both increment `i` | bucketsCount = 2: only slot 0 is initialised, and bucket 1 never gets a thread cache | every bucket below bucketsCount gets a cache | medium, not executed | Allocators.Allocator.CreateThreadCache, Allocators.OddBucketsUncached | Allocators.Allocator.CreateThreadCacheEveryBucket |
