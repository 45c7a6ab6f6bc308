/** The allocator's set-up and per-thread cache management: `Allocator::Init` cuts one
    arena into equal regions, one per bucket, and threads each bucket's free list;
    `CreateThreadCache` and `DestroyThreadCache` bind and unbind the calling thread's
    per-bucket caches.

    Addresses are naturals and 0 is the null pointer. The arena the backend allocator
    returns is a parameter, and so are the warm-up oracles. The thread-local cache array
    is an explicit `ThreadCache` object. */
module Allocators {
  import opened Arith
  import opened Pow2
  import opened PoolBuckets
  import opened TlsCache

  /** SMM_MAX_BUCKET_COUNT: the number of bucket slots. */
  const MAX_BUCKET_COUNT: nat := 64

  /** The element size of bucket i: 16, 32, 48, ... bytes. */
  function ElementSize(i: nat): (es: nat)
    ensures es >= 16 && es % 16 == 0
  {
    16 * (i + 1)
  }

  /** The first address of the region of bucket i in an arena starting at `base`. */
  function RegionStart(base: nat, bucketSize: nat, i: nat): nat
  {
    base + i * bucketSize
  }

  /** The arena size: `count` regions of `bucketSize` bytes. */
  function ArenaBytes(bucketSize: nat, count: nat): nat
  {
    bucketSize * count
  }

  /** The alignment Init rounds the bucket size to: the power of two covering the element
      size of the largest of `count` buckets. */
  function AlignmentMax(count: nat): (a: nat)
    requires 1 <= count <= MAX_BUCKET_COUNT
    ensures IsPow2(a) && 16 * count <= a < 32 * count
  {
    NextPow2(16 * count)
  }

  /** A bucket after Init: its slab is `[start, start + size)` and Create has threaded the
      free list for elements of `es` bytes through it. */
  ghost predicate LaidOut(b: PoolBucket, start: nat, size: nat, es: nat)
    reads b, b.links
    requires es > 0
  {
    b.pData == start && b.pBufferEnd == start + size && b.head == Link(0, 0) &&
    b.links[..] == CreatedLinks(es, size)
  }

  /** The slots below `count` that CreateThreadCache, as written, visits: 0, 2, 4, ... */
  function CachedSlots(count: nat): set<nat>
  {
    if count == 0 then {}
    else CachedSlots(count - 1) + (if (count - 1) % 2 == 0 then {count - 1} else {})
  }

  /** The allocations the warm-up of slot i sees: attempt j of bucket i. */
  function BucketAllocations(allocate: (nat, nat) -> nat, i: nat): nat -> nat
  {
    j => allocate(i, j)
  }

  /** What TlsPoolBucket::Init reports for one slot: the block warm-up handed back to
      `Free`, and whether the closing check of the element count held. */
  datatype WarmupOutcome = WarmupOutcome(freed: Option<nat>, countMatches: bool)

  /** The L1 buffer size CreateThreadCache asks for, truncated to 32 bits. */
  function CacheElementsNum(cacheSize: nat): (n: nat)
    ensures n < U32
  {
    (cacheSize + MAX_CACHE_ITEMS_COUNT) % U32
  }

  /** The calling thread's caches, one per bucket slot (the `thread_local` array). The
      array itself is never reassigned, only the caches in it, so its slots are a
      constant sequence of cache objects. */
  class ThreadCache {
    const caches: seq<TlsPoolBucket>

    ghost predicate Valid()
      reads this, caches
    {
      |caches| == MAX_BUCKET_COUNT &&
      (forall a, b :: 0 <= a < b < |caches| ==> caches[a] != caches[b]) &&
      (forall k :: 0 <= k < |caches| ==> caches[k].Valid())
    }

    constructor()
      ensures Valid()
      ensures forall k :: 0 <= k < |caches| ==> caches[k].Zeroed() && fresh(caches[k])
    {
      var i := 0;
      var built: seq<TlsPoolBucket> := [];
      while i < MAX_BUCKET_COUNT
        invariant 0 <= i <= MAX_BUCKET_COUNT && |built| == i
        invariant forall a, b :: 0 <= a < b < i ==> built[a] != built[b]
        invariant forall k :: 0 <= k < i ==> built[k].Zeroed() && built[k].Valid() && fresh(built[k])
      {
        var c := new TlsPoolBucket();
        built := built + [c];
        i := i + 1;
      }
      caches := built;
    }
  }

  class Allocator {
    var bucketsCount: nat
    var bucketSizeInBytes: nat
    var pBuffer: nat
    var pBufferEnd: nat
    /** The bucket array is a member of the allocator whose elements are updated in
        place and never replaced, so it is a constant sequence of bucket objects. */
    const buckets: seq<PoolBucket>
    const bucketsDataBegin: array<nat>

    ghost predicate Valid()
      reads this
    {
      |buckets| == MAX_BUCKET_COUNT && bucketsDataBegin.Length == MAX_BUCKET_COUNT &&
      bucketsCount <= MAX_BUCKET_COUNT &&
      (forall a, b :: 0 <= a < b < |buckets| ==> buckets[a] != buckets[b])
    }

    constructor()
      ensures Valid() && fresh(bucketsDataBegin)
      ensures forall k :: 0 <= k < |buckets| ==> fresh(buckets[k])
      ensures bucketsCount == 0 && bucketSizeInBytes == 0 && pBuffer == 0 && pBufferEnd == 0
    {
      bucketsCount := 0;
      bucketSizeInBytes := 0;
      pBufferEnd := 0;
      pBuffer := 0;
      var i := 0;
      var built: seq<PoolBucket> := [];
      while i < MAX_BUCKET_COUNT
        invariant 0 <= i <= MAX_BUCKET_COUNT && |built| == i
        invariant forall a, b :: 0 <= a < b < i ==> built[a] != built[b]
        invariant forall k :: 0 <= k < i ==> fresh(built[k])
      {
        var b := new PoolBucket();
        built := built + [b];
        i := i + 1;
      }
      buckets := built;
      bucketsDataBegin := new nat[MAX_BUCKET_COUNT];
    }

    /** Allocator::Init. `arena` is the address the backend returns for the arena, which
        it aligns to the requested alignment. The alignment is GetNextPow2(16 * count),
        written here as AlignmentMax(count); AlignmentMaxMatches shows the two agree. */
    method Init(newBucketsCount: nat, newBucketSizeInBytes: nat, arena: nat)
      requires Valid()
      requires bucketsCount == 0 ==> newBucketsCount <= MAX_BUCKET_COUNT
      requires bucketsCount == 0 && newBucketsCount > 0 ==>
        arena % AlignmentMax(newBucketsCount) == 0
      modifies this, bucketsDataBegin, buckets
      ensures Valid()
      ensures old(bucketsCount) > 0 || newBucketsCount == 0 ==>
        bucketsCount == old(bucketsCount) && bucketSizeInBytes == old(bucketSizeInBytes) &&
        pBuffer == old(pBuffer) && pBufferEnd == old(pBufferEnd) &&
        unchanged(bucketsDataBegin) && forall k :: 0 <= k < MAX_BUCKET_COUNT ==> unchanged(buckets[k])
      ensures old(bucketsCount) == 0 && newBucketsCount > 0 ==>
        var size := bucketSizeInBytes;
        bucketsCount == newBucketsCount &&
        size == Align(newBucketSizeInBytes, AlignmentMax(newBucketsCount)) &&
        pBuffer == arena && pBufferEnd == arena + ArenaBytes(size, bucketsCount) + 1 &&
        pBufferEnd == buckets[bucketsCount - 1].pBufferEnd + 1 &&
        (forall k :: 0 <= k < bucketsCount ==>
           LaidOut(buckets[k], RegionStart(arena, size, k), size, ElementSize(k)) &&
           bucketsDataBegin[k] == RegionStart(arena, size, k)) &&
        (forall k :: bucketsCount <= k < MAX_BUCKET_COUNT ==>
           bucketsDataBegin[k] == 0 && unchanged(buckets[k]))
    {
      if bucketsCount > 0 {
        return;
      }

      if newBucketsCount == 0 {
        return;
      }

      bucketsCount := newBucketsCount;

      var alignmentMax := AlignmentMax(bucketsCount);

      bucketSizeInBytes := Align(newBucketSizeInBytes, alignmentMax);

      ClearDataBegin();

      var totalBytesCount := ArenaBytes(bucketSizeInBytes, bucketsCount);

      pBuffer := arena;
      pBufferEnd := pBuffer + totalBytesCount + 1;

      LayOutBuckets();
      ArenaEndPastRegions(pBuffer, bucketSizeInBytes, bucketsCount);
    }

    /** Init's bucket loop: bucket i gets region i of the arena as its slab, for the
        element size 16 * (i + 1), and the start of its region is recorded. */
    method LayOutBuckets()
      requires Valid() && 1 <= bucketsCount
      requires pBuffer % AlignmentMax(bucketsCount) == 0
      requires bucketSizeInBytes % AlignmentMax(bucketsCount) == 0
      requires forall k :: 0 <= k < MAX_BUCKET_COUNT ==> bucketsDataBegin[k] == 0
      modifies bucketsDataBegin, buckets
      ensures forall k :: 0 <= k < bucketsCount ==>
        LaidOut(buckets[k], RegionStart(pBuffer, bucketSizeInBytes, k), bucketSizeInBytes, ElementSize(k)) &&
        bucketsDataBegin[k] == RegionStart(pBuffer, bucketSizeInBytes, k)
      ensures forall k :: bucketsCount <= k < MAX_BUCKET_COUNT ==>
        bucketsDataBegin[k] == 0 && unchanged(buckets[k])
    {
      var elementSize := 16;
      var i := 0;
      while i < bucketsCount
        invariant 0 <= i <= bucketsCount && elementSize == ElementSize(i)
        invariant forall k :: 0 <= k < i ==>
          LaidOut(buckets[k], RegionStart(pBuffer, bucketSizeInBytes, k), bucketSizeInBytes, ElementSize(k)) &&
          bucketsDataBegin[k] == RegionStart(pBuffer, bucketSizeInBytes, k)
        invariant forall k :: i <= k < MAX_BUCKET_COUNT ==>
          bucketsDataBegin[k] == 0 && unchanged(buckets[k])
      {
        InitBucket(i, elementSize);
        var bucket := buckets[i];
        elementSize := elementSize + 16;
        bucketsDataBegin[i] := bucket.pData;
        forall k | 0 <= k <= i
          ensures LaidOut(buckets[k], RegionStart(pBuffer, bucketSizeInBytes, k), bucketSizeInBytes, ElementSize(k))
        {
          if k < i {
            assert buckets[k] != bucket;
          }
        }
        i := i + 1;
      }
    }

    /** Init's first loop: every entry of `bucketsDataBegin` is reset to null. */
    method ClearDataBegin()
      modifies bucketsDataBegin
      ensures forall k :: 0 <= k < bucketsDataBegin.Length ==> bucketsDataBegin[k] == 0
    {
      var i := 0;
      while i < bucketsDataBegin.Length
        invariant 0 <= i <= bucketsDataBegin.Length
        invariant forall k :: 0 <= k < i ==> bucketsDataBegin[k] == 0
      {
        bucketsDataBegin[i] := 0;
        i := i + 1;
      }
    }

    /** One round of Init's bucket loop: bucket i gets region i of the arena as its slab,
        whose start passes the alignment check, and Create threads its free list. */
    method InitBucket(i: nat, elementSize: nat)
      requires Valid() && 1 <= bucketsCount && i < bucketsCount
      requires elementSize == ElementSize(i)
      requires pBuffer % AlignmentMax(bucketsCount) == 0
      requires bucketSizeInBytes % AlignmentMax(bucketsCount) == 0
      modifies buckets[i]
      ensures LaidOut(buckets[i], RegionStart(pBuffer, bucketSizeInBytes, i), bucketSizeInBytes, elementSize)
      ensures buckets[i].sharedFree == old(buckets[i].sharedFree)
    {
      var bucket := buckets[i];
      bucket.pData := RegionStart(pBuffer, bucketSizeInBytes, i);
      RegionAligned(pBuffer, bucketSizeInBytes, bucketsCount, i);
      assert IsAligned(bucket.pData, NextPow2(elementSize));
      bucket.pBufferEnd := bucket.pData + bucketSizeInBytes;
      bucket.Create(elementSize);
      ghost var slab := bucket.pBufferEnd - bucket.pData;
      assert slab == bucketSizeInBytes;
    }

    /** Allocator::CreateThreadCache as written: the loop body and the loop header both
        advance the slot index, so only buckets 0, 2, 4, ... below `bucketsCount` get a
        cache, each with its own fresh L1 buffer of `cacheSize + 7` words, warmed up from
        its bucket. `outcomes` records, per visited slot, what its Init reported. */
    method CreateThreadCache(tc: ThreadCache, warmupOptions: CacheWarmupOptions, cacheSize: nat,
                             allocate: (nat, nat) -> nat, getBucketIndex: nat -> int)
      returns (outcomes: map<nat, WarmupOutcome>)
      requires Valid() && tc.Valid()
      requires forall k :: 0 <= k < MAX_BUCKET_COUNT ==> tc.caches[k].Zeroed()
      requires bucketsCount > 0 ==> CacheElementsNum(cacheSize) >= MAX_CACHE_ITEMS_COUNT + 2
      modifies tc.caches
      ensures tc.Valid()
      ensures forall k: nat :: k in outcomes <==> k in CachedSlots(bucketsCount)
      ensures forall k :: 0 <= k < MAX_BUCKET_COUNT ==>
        if k in outcomes then
          Ready(tc.caches[k], buckets[k], k, cacheSize, warmupOptions, allocate, getBucketIndex, outcomes[k]) &&
          fresh(tc.caches[k].pStorageL1)
        else
          unchanged(tc.caches[k])
      ensures forall a, b :: 0 <= a < b < MAX_BUCKET_COUNT && a in outcomes && b in outcomes ==>
        tc.caches[a].pStorageL1 != tc.caches[b].pStorageL1
    {
      outcomes := map[];
      var i := 0;
      while i < bucketsCount
        invariant i % 2 == 0 && i <= bucketsCount + 1
        invariant |tc.caches| == MAX_BUCKET_COUNT && tc.Valid()
        invariant forall k: nat :: k in outcomes <==> k < i && k % 2 == 0
        invariant forall k :: 0 <= k < MAX_BUCKET_COUNT && k < i ==>
          if k in outcomes then
            Ready(tc.caches[k], buckets[k], k, cacheSize, warmupOptions, allocate, getBucketIndex, outcomes[k]) &&
            fresh(tc.caches[k].pStorageL1)
          else
            unchanged(tc.caches[k])
        invariant forall k :: i <= k < MAX_BUCKET_COUNT ==> unchanged(tc.caches[k])
        invariant forall a, b :: 0 <= a < b < MAX_BUCKET_COUNT && a in outcomes && b in outcomes ==>
          tc.caches[a].pStorageL1 != tc.caches[b].pStorageL1
      {
        var before := outcomes;
        outcomes := BindNext(tc, i, warmupOptions, cacheSize, allocate, getBucketIndex, outcomes);
        EvenKeysStep(before, outcomes, i);
        i := i + 1;
        i := i + 1;
      }
      EvenKeysDone(outcomes, i, bucketsCount);
    }

    /** Allocator::CreateThreadCache with the loop advancing once per bucket: every
        configured bucket gets a cache, with its own fresh L1 buffer, warmed up from its
        bucket. */
    method CreateThreadCacheEveryBucket(tc: ThreadCache, warmupOptions: CacheWarmupOptions,
                                        cacheSize: nat, allocate: (nat, nat) -> nat,
                                        getBucketIndex: nat -> int)
      returns (outcomes: map<nat, WarmupOutcome>)
      requires Valid() && tc.Valid()
      requires forall k :: 0 <= k < MAX_BUCKET_COUNT ==> tc.caches[k].Zeroed()
      requires bucketsCount > 0 ==> CacheElementsNum(cacheSize) >= MAX_CACHE_ITEMS_COUNT + 2
      modifies tc.caches
      ensures tc.Valid()
      ensures forall k: nat :: k in outcomes <==> k < bucketsCount
      ensures forall k :: 0 <= k < MAX_BUCKET_COUNT ==>
        if k in outcomes then
          Ready(tc.caches[k], buckets[k], k, cacheSize, warmupOptions, allocate, getBucketIndex, outcomes[k]) &&
          fresh(tc.caches[k].pStorageL1)
        else
          unchanged(tc.caches[k])
      ensures forall a, b :: 0 <= a < b < MAX_BUCKET_COUNT && a in outcomes && b in outcomes ==>
        tc.caches[a].pStorageL1 != tc.caches[b].pStorageL1
    {
      outcomes := map[];
      var i := 0;
      while i < bucketsCount
        invariant i <= bucketsCount
        invariant |tc.caches| == MAX_BUCKET_COUNT && tc.Valid()
        invariant forall k: nat :: k in outcomes <==> k < i
        invariant forall k :: 0 <= k < i ==>
          Ready(tc.caches[k], buckets[k], k, cacheSize, warmupOptions, allocate, getBucketIndex, outcomes[k]) &&
          fresh(tc.caches[k].pStorageL1)
        invariant forall k :: i <= k < MAX_BUCKET_COUNT ==> unchanged(tc.caches[k])
        invariant forall a, b :: 0 <= a < b < MAX_BUCKET_COUNT && a in outcomes && b in outcomes ==>
          tc.caches[a].pStorageL1 != tc.caches[b].pStorageL1
      {
        outcomes := BindNext(tc, i, warmupOptions, cacheSize, allocate, getBucketIndex, outcomes);
        i := i + 1;
      }
    }

    /** One round of CreateThreadCache's loop with what the earlier rounds established
        carried over: slot i is bound and its report recorded, and the slots bound before
        keep their caches, L1 buffers and reports. */
    method BindNext(tc: ThreadCache, i: nat, warmupOptions: CacheWarmupOptions, cacheSize: nat,
                    allocate: (nat, nat) -> nat, getBucketIndex: nat -> int,
                    outcomes: map<nat, WarmupOutcome>)
      returns (outcomes': map<nat, WarmupOutcome>)
      requires Valid() && tc.Valid() && i < bucketsCount && i !in outcomes
      requires tc.caches[i].Zeroed()
      requires CacheElementsNum(cacheSize) >= MAX_CACHE_ITEMS_COUNT + 2
      requires forall k :: 0 <= k < MAX_BUCKET_COUNT && k in outcomes ==>
        Ready(tc.caches[k], buckets[k], k, cacheSize, warmupOptions, allocate, getBucketIndex, outcomes[k])
      requires forall a, b :: 0 <= a < b < MAX_BUCKET_COUNT && a in outcomes && b in outcomes ==>
        tc.caches[a].pStorageL1 != tc.caches[b].pStorageL1
      modifies tc.caches[i]
      ensures tc.Valid()
      ensures fresh(tc.caches[i].pStorageL1)
      ensures forall k :: k in outcomes' <==> k in outcomes || k == i
      ensures forall k :: 0 <= k < MAX_BUCKET_COUNT && k in outcomes' ==>
        Ready(tc.caches[k], buckets[k], k, cacheSize, warmupOptions, allocate, getBucketIndex, outcomes'[k])
      ensures forall a, b :: 0 <= a < b < MAX_BUCKET_COUNT && a in outcomes' && b in outcomes' ==>
        tc.caches[a].pStorageL1 != tc.caches[b].pStorageL1
      ensures forall k :: 0 <= k < MAX_BUCKET_COUNT && k != i ==> unchanged(tc.caches[k])
    {
      var outcome := BindCache(tc, i, warmupOptions, cacheSize, allocate, getBucketIndex);
      outcomes' := outcomes[i := outcome];
      forall k | 0 <= k < MAX_BUCKET_COUNT && k in outcomes
        ensures Ready(tc.caches[k], buckets[k], k, cacheSize, warmupOptions, allocate, getBucketIndex, outcomes'[k])
      {
        var c := tc.caches[k];
        assert unchanged(c, c.storageL0, c.pStorageL1, buckets[k]);
      }
    }

    /** Slot i's part of a round of CreateThreadCache's loop: the backend hands out a new
        L1 buffer of `cacheSize + 7` words and the cache of slot i is initialised with it
        for bucket i, with the warm-up allocations of that bucket; `outcome` is what its
        Init reports. */
    method BindCache(tc: ThreadCache, i: nat, warmupOptions: CacheWarmupOptions, cacheSize: nat,
                     allocate: (nat, nat) -> nat, getBucketIndex: nat -> int)
      returns (outcome: WarmupOutcome)
      requires Valid() && tc.Valid() && i < bucketsCount
      requires tc.caches[i].Zeroed()
      requires CacheElementsNum(cacheSize) >= MAX_CACHE_ITEMS_COUNT + 2
      modifies tc.caches[i]
      ensures tc.Valid()
      ensures fresh(tc.caches[i].pStorageL1)
      ensures Ready(tc.caches[i], buckets[i], i, cacheSize, warmupOptions, allocate, getBucketIndex, outcome)
      ensures forall k :: 0 <= k < MAX_BUCKET_COUNT && k != i ==> unchanged(tc.caches[k])
    {
      var elementsNum := CacheElementsNum(cacheSize);
      var localStack := new nat[elementsNum];
      var cache := tc.caches[i];
      var freed, countMatches := cache.Init(localStack, elementsNum, warmupOptions, buckets[i], i,
                                            BucketAllocations(allocate, i), getBucketIndex);
      outcome := WarmupOutcome(freed, countMatches);
      forall k | 0 <= k < MAX_BUCKET_COUNT && k != i
        ensures unchanged(tc.caches[k])
      {
        assert tc.caches[k] != cache;
      }
    }

    /** Allocator::DestroyThreadCache: destroys the cache of every one of the 64 slots,
        initialised or not, and hands each returned L1 buffer to the backend's `Free`
        (recorded in `freedBuffers`, slot by slot). */
    method DestroyThreadCache(tc: ThreadCache) returns (freedBuffers: seq<array?<nat>>)
      requires tc.Valid()
      modifies tc.caches
      modifies set k | 0 <= k < MAX_BUCKET_COUNT :: tc.caches[k].pStorageL1
      modifies (set k | 0 <= k < MAX_BUCKET_COUNT :: tc.caches[k].pBucket)`sharedFree
      ensures tc.Valid()
      ensures |freedBuffers| == MAX_BUCKET_COUNT
      ensures forall k :: 0 <= k < MAX_BUCKET_COUNT ==>
        tc.caches[k].Zeroed() && freedBuffers[k] == old(tc.caches[k].pStorageL1)
    {
      freedBuffers := [];
      var i := 0;
      while i < MAX_BUCKET_COUNT
        invariant 0 <= i <= MAX_BUCKET_COUNT && |freedBuffers| == i
        invariant |tc.caches| == MAX_BUCKET_COUNT && tc.Valid()
        invariant forall k :: 0 <= k < i ==>
          tc.caches[k].Zeroed() && freedBuffers[k] == old(tc.caches[k].pStorageL1)
        invariant forall k :: i <= k < MAX_BUCKET_COUNT ==> unchanged(tc.caches[k])
      {
        label Before:
        var cache := tc.caches[i];
        var p := cache.Destroy();
        forall k | 0 <= k < MAX_BUCKET_COUNT && k != i
          ensures unchanged@Before(tc.caches[k])
        {
          assert tc.caches[k] != cache;
        }
        freedBuffers := freedBuffers + [p];
        i := i + 1;
      }
    }
  }

  /** A cache CreateThreadCache has bound to `bucket`: a fresh L1 buffer of
      `cacheSize + 7` words (32-bit), an empty L0 and the bucket's data pointer. */
  ghost predicate CacheBound(c: TlsPoolBucket, bucket: PoolBucket, cacheSize: nat)
    reads c, bucket
  {
    c.Valid() && c.pBucket == bucket && c.pBucketData == bucket.pData &&
    c.pStorageL1 != null && c.pStorageL1.Length == CacheElementsNum(cacheSize) &&
    c.maxElementsCount + MAX_CACHE_ITEMS_COUNT == CacheElementsNum(cacheSize) &&
    c.numElementsL0 == 0
  }

  /** The L1 of a bound cache holds, top first, the blocks warm-up kept for bucket i. */
  ghost predicate WarmedUp(c: TlsPoolBucket, i: nat, warmupOptions: CacheWarmupOptions,
                           allocate: (nat, nat) -> nat, getBucketIndex: nat -> int)
    reads c, c.pStorageL1
  {
    c.pStorageL1 != null && c.numElementsL1 <= c.pStorageL1.Length &&
    Reversed(c.pStorageL1[..c.numElementsL1]) ==
      Accepted(BucketAllocations(allocate, i), getBucketIndex, i, 0,
               WarmupTarget(warmupOptions, c.maxElementsCount))
  }

  /** What warm-up of slot i reports: the block of another bucket it handed back, and
      whether the cache reached its target. */
  ghost function SlotOutcome(c: TlsPoolBucket, i: nat, warmupOptions: CacheWarmupOptions,
                             allocate: (nat, nat) -> nat, getBucketIndex: nat -> int): WarmupOutcome
    reads c, c.storageL0, c.pStorageL1
  {
    var num := WarmupTarget(warmupOptions, c.maxElementsCount);
    WarmupOutcome(Rejected(BucketAllocations(allocate, i), getBucketIndex, i, 0, num),
                  c.GetElementsCount() == num)
  }

  /** Slot i after CreateThreadCache: bound to its bucket, warmed up, with `outcome`
      being what its Init reported. */
  ghost predicate Ready(c: TlsPoolBucket, bucket: PoolBucket, i: nat, cacheSize: nat,
                        warmupOptions: CacheWarmupOptions, allocate: (nat, nat) -> nat,
                        getBucketIndex: nat -> int, outcome: WarmupOutcome)
    reads c, c.storageL0, c.pStorageL1, bucket
  {
    CacheBound(c, bucket, cacheSize) && WarmedUp(c, i, warmupOptions, allocate, getBucketIndex) &&
    outcome == SlotOutcome(c, i, warmupOptions, allocate, getBucketIndex)
  }

  // ---------------------------------------------------------------------------
  // The arena layout Init produces.
  // ---------------------------------------------------------------------------

  /** The regions of the buckets tile the arena: region i ends where region i + 1
      starts, regions of different buckets do not overlap, and all of them lie within
      the `count * size` bytes of the arena. */
  lemma RegionsTile(base: nat, size: nat, count: nat, i: nat, j: nat)
    requires i < j < count
    ensures RegionStart(base, size, i) + size == RegionStart(base, size, i + 1)
    ensures RegionStart(base, size, i) + size <= RegionStart(base, size, j)
    ensures base <= RegionStart(base, size, i)
    ensures RegionStart(base, size, j) + size <= base + count * size
  {
    MulSucc(i, size);
    MulSucc(j, size);
    MulMonotone(i + 1, j, size);
    MulMonotone(j + 1, count, size);
  }

  /** The alignment check of Init holds: the region of bucket i starts at a multiple of
      the power of two covering its element size, because the arena and the bucket size
      are multiples of the alignment of the largest bucket. */
  lemma RegionAligned(base: nat, size: nat, count: nat, i: nat)
    requires 1 <= count <= MAX_BUCKET_COUNT && i < count
    requires base % AlignmentMax(count) == 0 && size % AlignmentMax(count) == 0
    ensures RegionStart(base, size, i) % NextPow2(ElementSize(i)) == 0
  {
    var big, small := AlignmentMax(count), NextPow2(ElementSize(i));
    Pow2Positive(big);
    Pow2Positive(small);
    NextPow2DividesLarger(ElementSize(i), 16 * count);
    StartAligned(base, size, i, big, small);
  }

  /** A region start is a multiple of `small` when the arena start and the bucket size
      are multiples of `big`, itself a multiple of `small`. */
  lemma StartAligned(base: nat, size: nat, i: nat, big: nat, small: nat)
    requires small > 0 && big > 0 && big % small == 0
    requires base % big == 0 && size % big == 0
    ensures RegionStart(base, size, i) % small == 0
  {
    ModTransitive(size, big, small);
    ModTransitive(base, big, small);
    var q := size / small;
    DivExact(size, small);
    MulAssoc(i, q, small);
    assert i * size == (i * q) * small;
    ModAddMultiple(base, i * q, small);
  }

  /** The alignment Init computes with GetNextPow2 is AlignmentMax. */
  lemma AlignmentMaxMatches(count: nat)
    requires 1 <= count <= MAX_BUCKET_COUNT
    ensures GetNextPow2(16 * count) == AlignmentMax(count)
  {
    NextPow2IsGetNextPow2(16 * count);
  }

  /** The alignment check of Init's bucket loop, as written with GetNextPow2, passes
      for every bucket. */
  lemma AlignmentCheckPasses(base: nat, size: nat, count: nat, i: nat)
    requires 1 <= count <= MAX_BUCKET_COUNT && i < count
    requires base % AlignmentMax(count) == 0 && size % AlignmentMax(count) == 0
    ensures GetNextPow2(ElementSize(i)) > 0 &&
      IsAligned(RegionStart(base, size, i), GetNextPow2(ElementSize(i)))
  {
    RegionAligned(base, size, count, i);
    NextPow2IsGetNextPow2(ElementSize(i));
  }

  /** The bucket size Init picks is the least multiple of the alignment that holds the
      requested size. */
  lemma BucketSizeLeast(count: nat, requested: nat, m: nat)
    requires 1 <= count <= MAX_BUCKET_COUNT
    requires m % AlignmentMax(count) == 0 && requested <= m
    ensures var size := Align(requested, AlignmentMax(count));
      requested <= size && size % AlignmentMax(count) == 0 && size <= m
  {
    AlignLeast(requested, AlignmentMax(count), m);
  }

  /** The arena end Init records lies one byte past the last region. */
  lemma ArenaEndPastRegions(base: nat, size: nat, count: nat)
    requires count >= 1
    ensures RegionStart(base, size, count - 1) + size + 1 == base + size * count + 1
  {
    MulSucc(count - 1, size);
  }

  /** As written, CreateThreadCache gives a cache to the even slots below `count` and
      to no other. */
  lemma {:induction false} CachedSlotsMembers(count: nat)
    ensures forall k: nat :: k in CachedSlots(count) <==> k < count && k % 2 == 0
  {
    if count > 0 {
      CachedSlotsMembers(count - 1);
    }
  }

  /** As written, CreateThreadCache gives a cache to (count + 1) / 2 of the `count`
      buckets. */
  lemma {:induction false} CachedSlotsCount(count: nat)
    ensures |CachedSlots(count)| == (count + 1) / 2
  {
    if count > 0 {
      var prev := CachedSlots(count - 1);
      CachedSlotsCount(count - 1);
      HalfSucc(count - 1);
      if (count - 1) % 2 == 0 {
        CachedSlotsMembers(count - 1);
        assert count - 1 !in prev;
        assert CachedSlots(count) == prev + {count - 1};
        assert |prev + {count - 1}| == |prev| + 1;
      } else {
        assert CachedSlots(count) == prev;
      }
    }
  }

  /** Stepping by two from an even index adds exactly that index to the even numbers
      below it. */
  lemma EvenStep(i: nat)
    requires i % 2 == 0
    ensures (i + 2) % 2 == 0
    ensures forall k: nat :: (k < i + 2 && k % 2 == 0) <==> (k < i && k % 2 == 0) || k == i
  {
    forall k: nat
      ensures (k < i + 2 && k % 2 == 0) <==> (k < i && k % 2 == 0) || k == i
    {
      if k == i + 1 {
        DivModUnique(k, 2, i / 2, 1);
      }
    }
  }

  /** A round of CreateThreadCache's loop, as written, keeps the visited slots the
      even ones below the slot index. */
  lemma EvenKeysStep(m: map<nat, WarmupOutcome>, m': map<nat, WarmupOutcome>, i: nat)
    requires i % 2 == 0
    requires forall k: nat :: k in m <==> k < i && k % 2 == 0
    requires forall k: nat :: k in m' <==> k in m || k == i
    ensures (i + 2) % 2 == 0
    ensures forall k: nat :: k in m' <==> k < i + 2 && k % 2 == 0
  {
    EvenStep(i);
  }

  /** When CreateThreadCache's loop, as written, stops, the visited slots are the
      CachedSlots of the bucket count. */
  lemma EvenKeysDone(m: map<nat, WarmupOutcome>, i: nat, count: nat)
    requires i % 2 == 0 && count <= i <= count + 1
    requires forall k: nat :: k in m <==> k < i && k % 2 == 0
    ensures forall k: nat :: k in m <==> k in CachedSlots(count)
  {
    EvenBelow(i, count);
    CachedSlotsMembers(count);
  }

  /** An even index that overshoots an odd bound by one has the same even numbers below
      it as the bound. */
  lemma EvenBelow(i: nat, c: nat)
    requires i % 2 == 0 && c <= i <= c + 1
    ensures forall k: nat :: (k < i && k % 2 == 0) <==> (k < c && k % 2 == 0)
  {
  }

  /** Halving rounds up one step further exactly when `c` is even. */
  lemma HalfSucc(c: nat)
    ensures (c + 2) / 2 == (c + 1) / 2 + (if c % 2 == 0 then 1 else 0)
  {
    var q := c / 2;
    if c % 2 == 0 {
      DivModUnique(c + 2, 2, q + 1, 0);
      DivModUnique(c + 1, 2, q, 1);
    } else {
      DivModUnique(c + 2, 2, q + 1, 1);
      DivModUnique(c + 1, 2, q + 1, 0);
    }
  }

  /** With two or more buckets, some configured bucket (bucket 1 among them) gets no
      cache from CreateThreadCache as written. */
  lemma OddBucketsUncached(count: nat)
    requires count >= 2
    ensures 1 < count && 1 !in CachedSlots(count)
    ensures |CachedSlots(count)| < count
  {
    CachedSlotsMembers(count);
    CachedSlotsCount(count);
  }
}
