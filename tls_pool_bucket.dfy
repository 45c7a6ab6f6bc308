/** The per-thread cache of one bucket (`TlsPoolBucket`): a small inline array L0 and a
    caller-supplied overflow buffer L1, both holding handles of free elements of the
    bucket, plus the bookkeeping that binds the cache to its shared `PoolBucket`.

    Memory addresses are naturals and 0 stands for the null pointer. The allocator
    calls the warm-up makes (`Allocate`, `GetBucketIndex`) are oracles passed in as
    functions of the attempt number and of the block address. */
module TlsCache {
  import opened PoolBuckets

  /** SMM_MAX_CACHE_ITEMS_COUNT: the capacity of the inline L0 array. */
  const MAX_CACHE_ITEMS_COUNT: nat := 7

  datatype CacheWarmupOptions = Cold | Warm | Hot

  function Reversed<T>(s: seq<T>): (r: seq<T>)
    ensures |r| == |s|
  {
    if |s| == 0 then [] else Reversed(s[1..]) + [s[0]]
  }

  /** How many elements warm-up tries to put in the cache: none for a cold cache, half
      the L1 capacity for a warm one, all of it otherwise. */
  function WarmupTarget(options: CacheWarmupOptions, maxElementsCount: nat): (num: nat)
    ensures num <= maxElementsCount
    ensures options == Warm ==> 2 * num <= maxElementsCount < 2 * num + 2
    ensures options == Hot ==> num == maxElementsCount
    ensures options == Cold ==> num == 0
  {
    match options
    case Cold => 0
    case Warm => maxElementsCount / 2
    case Hot => maxElementsCount
  }

  /** The blocks warm-up keeps, in allocation order, from attempt `j` on: it stops at
      the first null result and at the first block that lies in another bucket. */
  function Accepted(allocate: nat -> nat, bucketOf: nat -> int, bucketIndex: nat, j: nat, num: nat)
    : seq<nat>
    decreases num - j
  {
    if j >= num || allocate(j) == 0 || bucketOf(allocate(j)) != bucketIndex as int then []
    else [allocate(j)] + Accepted(allocate, bucketOf, bucketIndex, j + 1, num)
  }

  /** The block warm-up hands back to `Free`: the first non-null block, from attempt `j`
      on, that lies in another bucket, unless a null result stops warm-up before it. */
  function Rejected(allocate: nat -> nat, bucketOf: nat -> int, bucketIndex: nat, j: nat, num: nat)
    : Option<nat>
    decreases num - j
  {
    if j >= num || allocate(j) == 0 then None
    else if bucketOf(allocate(j)) != bucketIndex as int then Some(allocate(j))
    else Rejected(allocate, bucketOf, bucketIndex, j + 1, num)
  }

  class TlsPoolBucket {
    var storageL0: array<nat>
    var numElementsL0: nat
    var pStorageL1: array?<nat>
    var numElementsL1: nat
    var maxElementsCount: nat
    var pBucket: PoolBucket?
    var pBucketData: nat

    /** L0 has its fixed capacity and L1, when present, holds `maxElementsCount` elements
        plus room for draining a full L0 into it. A cache holding elements has a buffer
        and a bucket to flush them to. */
    ghost predicate Valid()
      reads this
    {
      storageL0.Length == MAX_CACHE_ITEMS_COUNT && numElementsL0 <= MAX_CACHE_ITEMS_COUNT &&
      storageL0 != pStorageL1 &&
      (pStorageL1 != null ==>
         pStorageL1.Length == maxElementsCount + MAX_CACHE_ITEMS_COUNT &&
         numElementsL1 <= maxElementsCount) &&
      (pStorageL1 == null ==> numElementsL0 == 0 && numElementsL1 == 0) &&
      (numElementsL0 + numElementsL1 > 0 ==> pBucket != null)
    }

    /** Every field zero or null: the state of a cache never initialised or destroyed. */
    predicate Zeroed()
      reads this
    {
      numElementsL0 == 0 && numElementsL1 == 0 && pBucket == null && pBucketData == 0 &&
      pStorageL1 == null && maxElementsCount == 0
    }

    /** The number of handles the cache holds, in L0 and L1 together. */
    function GetElementsCount(): (n: nat)
      reads this, storageL0, pStorageL1
      ensures Valid() ==> n == |Cached()|
    {
      numElementsL0 + numElementsL1
    }

    /** The handles the cache holds: L1 bottom to top, then L0. */
    ghost function Cached(): seq<nat>
      reads this, storageL0, pStorageL1
      requires Valid()
    {
      (if pStorageL1 == null then [] else pStorageL1[..numElementsL1]) +
      storageL0[..numElementsL0]
    }

    constructor()
      ensures Zeroed() && Valid() && fresh(storageL0)
    {
      storageL0 := new nat[MAX_CACHE_ITEMS_COUNT];
      numElementsL0 := 0;
      pStorageL1 := null;
      numElementsL1 := 0;
      maxElementsCount := 0;
      pBucket := null;
      pBucketData := 0;
    }

    /** Stand-in for the allocator's `ReleaseToCache<false>` (no L0): pushes the handle
        onto L1 while L1 has room and reports whether it did. */
    method ReleaseToCache(p: nat) returns (r: bool)
      requires Valid() && pStorageL1 != null && pBucket != null
      modifies this`numElementsL1, pStorageL1
      ensures Valid()
      ensures r <==> old(numElementsL1) < maxElementsCount
      ensures r ==> (numElementsL1 == old(numElementsL1) + 1 &&
        pStorageL1[..numElementsL1] == old(pStorageL1[..numElementsL1]) + [p])
      ensures !r ==> (numElementsL1 == old(numElementsL1) && pStorageL1[..] == old(pStorageL1[..]))
    {
      if numElementsL1 < maxElementsCount {
        pStorageL1[numElementsL1] := p;
        numElementsL1 := numElementsL1 + 1;
        r := true;
      } else {
        r := false;
      }
    }

    /** The release half of warm-up (TlsPoolBucket::Init's second loop): every block on
        the warm-up stack goes back into the cache, and each release succeeds. */
    method ReleaseWarmed(blocks: seq<nat>)
      requires Valid() && pStorageL1 != null && pBucket != null
      requires numElementsL1 == 0 && |blocks| <= maxElementsCount
      modifies this`numElementsL1, pStorageL1
      ensures Valid()
      ensures numElementsL1 == |blocks| && pStorageL1[..numElementsL1] == blocks
    {
      var i := 0;
      while i < |blocks|
        invariant i <= |blocks| && Valid() && numElementsL1 == i
        invariant pStorageL1[..i] == blocks[..i]
      {
        var r := ReleaseToCache(blocks[i]);
        assert r;
        assert blocks[..i + 1] == blocks[..i] + [blocks[i]];
        i := i + 1;
      }
      assert blocks[..i] == blocks;
    }

    /** Stand-in for `ReturnL1CacheToMaster`: the top `count` handles of L1 leave the
        cache and join the shared bucket's free elements in one batch. */
    method ReturnL1CacheToMaster(count: nat)
      requires pBucket != null && pStorageL1 != null
      requires count <= numElementsL1 <= pStorageL1.Length
      modifies this`numElementsL1, pBucket`sharedFree
      ensures numElementsL1 == old(numElementsL1) - count
      ensures pBucket.sharedFree ==
        old(pBucket.sharedFree) + multiset(pStorageL1[numElementsL1..old(numElementsL1)])
    {
      pBucket.sharedFree := pBucket.sharedFree +
        multiset(pStorageL1[numElementsL1 - count..numElementsL1]);
      numElementsL1 := numElementsL1 - count;
    }

    /** TlsPoolBucket::Init: binds the cache to `bucket` with `pCacheStack` as L1 and,
        unless cold, warms it up. `freed` is the block handed to `Free` when warm-up met
        a block of another bucket; `countMatches` is the closing debug check that the
        cache holds as many elements as warm-up aimed for. */
    method Init(pCacheStack: array<nat>, maxElementsNum: nat, warmupOptions: CacheWarmupOptions,
                bucket: PoolBucket, bucketIndex: nat,
                allocate: nat -> nat, getBucketIndex: nat -> int)
      returns (freed: Option<nat>, countMatches: bool)
      requires Zeroed() && storageL0.Length == MAX_CACHE_ITEMS_COUNT
      requires maxElementsNum >= MAX_CACHE_ITEMS_COUNT + 2
      requires pCacheStack.Length == maxElementsNum && pCacheStack != storageL0
      modifies this, pCacheStack
      ensures Valid()
      ensures storageL0 == old(storageL0) && pStorageL1 == pCacheStack
      ensures pBucket == bucket && pBucketData == bucket.pData
      ensures maxElementsCount == maxElementsNum - MAX_CACHE_ITEMS_COUNT
      ensures numElementsL0 == 0
      ensures var num := WarmupTarget(warmupOptions, maxElementsCount);
        Reversed(pCacheStack[..numElementsL1])
          == Accepted(allocate, getBucketIndex, bucketIndex, 0, num) &&
        freed == Rejected(allocate, getBucketIndex, bucketIndex, 0, num) &&
        (countMatches <==> GetElementsCount() == num)
    {
      var poolBucket := bucket;
      pStorageL1 := pCacheStack;
      numElementsL1 := 0;
      numElementsL0 := 0;
      maxElementsCount := maxElementsNum - MAX_CACHE_ITEMS_COUNT;
      pBucket := poolBucket;
      pBucketData := pBucket.pData;
      freed := None;
      countMatches := true;

      if warmupOptions == Cold {
        assert pCacheStack[..0] == [];
        return;
      }

      var num := if warmupOptions == Warm then maxElementsCount / 2 else maxElementsCount;
      var root;
      root, freed := WarmupAllocate(num, bucketIndex, allocate, getBucketIndex);
      AcceptedLength(allocate, getBucketIndex, bucketIndex, 0, num);

      ReleaseWarmed(root);
      countMatches := GetElementsCount() == num;
    }

    /** The first step of Destroy: the L0 handles are pushed onto L1 after the ones
        already there. */
    method DrainL0()
      requires Valid()
      modifies this`numElementsL1, pStorageL1
      ensures numElementsL1 == old(GetElementsCount())
      ensures pStorageL1 != null ==>
        numElementsL1 <= pStorageL1.Length && pStorageL1[..numElementsL1] == old(Cached())
      ensures pStorageL1 == null ==> numElementsL1 == 0
    {
      ghost var l1 := if pStorageL1 == null then [] else pStorageL1[..numElementsL1];
      var i := 0;
      while i < numElementsL0
        invariant 0 <= i <= numElementsL0
        invariant numElementsL1 == old(numElementsL1) + i
        invariant pStorageL1 != null ==>
          numElementsL1 <= pStorageL1.Length &&
          pStorageL1[..numElementsL1] == l1 + storageL0[..i]
        invariant pStorageL1 == null ==> numElementsL1 == 0
      {
        pStorageL1[numElementsL1] := storageL0[i];
        numElementsL1 := numElementsL1 + 1;
        i := i + 1;
      }
      assert storageL0[..numElementsL0] == storageL0[..i];
    }

    /** TlsPoolBucket::Destroy: drains L0 into L1, flushes L1 to the shared bucket when it
        holds anything, clears every field and hands back the L1 buffer. */
    method Destroy() returns (r: array?<nat>)
      requires Valid()
      modifies this, pStorageL1, {pBucket}`sharedFree
      ensures Valid() && Zeroed() && storageL0 == old(storageL0)
      ensures r == old(pStorageL1)
      ensures r != null ==> r[..old(GetElementsCount())] == old(Cached())
      ensures old(GetElementsCount()) > 0 ==>
        old(pBucket).sharedFree == old(pBucket.sharedFree) + multiset(old(Cached()))
      ensures old(GetElementsCount()) == 0 && old(pBucket) != null ==>
        old(pBucket).sharedFree == old(pBucket.sharedFree)
    {
      ghost var held := Cached();
      DrainL0();
      assert pStorageL1 != null ==> pStorageL1[..numElementsL1] == held;

      if numElementsL1 > 0 {
        ReturnL1CacheToMaster(numElementsL1);
      }

      r := pStorageL1;

      pStorageL1 := null;
      numElementsL0 := 0;
      numElementsL1 := 0;
      maxElementsCount := 0;
      pBucket := null;
      pBucketData := 0;
    }
  }

  /** The allocation half of warm-up (TlsPoolBucket::Init's first loop): up to `num`
      blocks are allocated and pushed onto the warm-up link stack, stopping at a null
      result or at a block of another bucket, which is handed back to `Free`. */
  method WarmupAllocate(num: nat, bucketIndex: nat, allocate: nat -> nat, getBucketIndex: nat -> int)
    returns (root: seq<nat>, freed: Option<nat>)
    ensures Reversed(root) == Accepted(allocate, getBucketIndex, bucketIndex, 0, num)
    ensures freed == Rejected(allocate, getBucketIndex, bucketIndex, 0, num)
  {
    ghost var taken := Accepted(allocate, getBucketIndex, bucketIndex, 0, num);
    freed := None;
    root := [];
    var j := 0;
    while j < num
      invariant j <= num
      invariant Reversed(root) + Accepted(allocate, getBucketIndex, bucketIndex, j, num) == taken
      invariant Rejected(allocate, getBucketIndex, bucketIndex, j, num)
        == Rejected(allocate, getBucketIndex, bucketIndex, 0, num)
      invariant freed == None
    {
      var p := allocate(j);
      AcceptedStep(allocate, getBucketIndex, bucketIndex, j, num);
      if p == 0 {
        break;
      }
      if getBucketIndex(p) != bucketIndex as int {
        freed := Some(p);
        break;
      }
      ghost var rest := Accepted(allocate, getBucketIndex, bucketIndex, j + 1, num);
      ReversedCons(p, root);
      assert Reversed(root) + ([p] + rest) == (Reversed(root) + [p]) + rest;
      root := [p] + root;
      j := j + 1;
    }
    assert Reversed(root) + [] == Reversed(root);
  }

  /** One attempt of warm-up: a null block stops it with nothing handed back, a block
      of another bucket stops it and is handed back, any other block is kept. */
  lemma AcceptedStep(allocate: nat -> nat, bucketOf: nat -> int, bucketIndex: nat, j: nat, num: nat)
    requires j < num
    ensures allocate(j) == 0 ==>
      Accepted(allocate, bucketOf, bucketIndex, j, num) == [] &&
      Rejected(allocate, bucketOf, bucketIndex, j, num) == None
    ensures allocate(j) != 0 && bucketOf(allocate(j)) != bucketIndex as int ==>
      Accepted(allocate, bucketOf, bucketIndex, j, num) == [] &&
      Rejected(allocate, bucketOf, bucketIndex, j, num) == Some(allocate(j))
    ensures allocate(j) != 0 && bucketOf(allocate(j)) == bucketIndex as int ==>
      Accepted(allocate, bucketOf, bucketIndex, j, num)
        == [allocate(j)] + Accepted(allocate, bucketOf, bucketIndex, j + 1, num) &&
      Rejected(allocate, bucketOf, bucketIndex, j, num)
        == Rejected(allocate, bucketOf, bucketIndex, j + 1, num)
  {
  }

  lemma ReversedCons<T>(x: T, s: seq<T>)
    ensures Reversed([x] + s) == Reversed(s) + [x]
  {
    assert ([x] + s)[1..] == s;
  }

  /** Warm-up keeps at most one block per attempt, every kept block is non-null and
      belongs to the bucket being warmed. */
  lemma {:induction false} AcceptedLength(allocate: nat -> nat, bucketOf: nat -> int,
                                          bucketIndex: nat, j: nat, num: nat)
    requires j <= num
    ensures var a := Accepted(allocate, bucketOf, bucketIndex, j, num);
      |a| <= num - j &&
      forall p :: p in a ==> p != 0 && bucketOf(p) == bucketIndex as int
    decreases num - j
  {
    if !(j >= num || allocate(j) == 0 || bucketOf(allocate(j)) != bucketIndex as int) {
      AcceptedLength(allocate, bucketOf, bucketIndex, j + 1, num);
    }
  }

  /** Warm-up fills the cache to its target exactly when every one of the `num - j`
      attempts returns a non-null block of the right bucket; in that case nothing is
      handed back to `Free`. */
  lemma {:induction false} AcceptedFull(allocate: nat -> nat, bucketOf: nat -> int,
                                        bucketIndex: nat, j: nat, num: nat)
    requires j <= num
    ensures |Accepted(allocate, bucketOf, bucketIndex, j, num)| == num - j <==>
      forall k :: j <= k < num ==> allocate(k) != 0 && bucketOf(allocate(k)) == bucketIndex as int
    ensures |Accepted(allocate, bucketOf, bucketIndex, j, num)| == num - j ==>
      Rejected(allocate, bucketOf, bucketIndex, j, num) == None
    decreases num - j
  {
    if j < num {
      AcceptedFull(allocate, bucketOf, bucketIndex, j + 1, num);
      if allocate(j) == 0 || bucketOf(allocate(j)) != bucketIndex as int {
        assert Accepted(allocate, bucketOf, bucketIndex, j, num) == [];
      }
    }
  }

  /** The closing debug check of warm-up can fail: when the first allocation already
      returns null, a warm cache of a bucket whose L1 holds at least two elements ends up
      empty although warm-up aimed for at least one element. */
  lemma WarmupShortfall(maxElementsCount: nat, allocate: nat -> nat, bucketOf: nat -> int,
                        bucketIndex: nat)
    requires maxElementsCount >= 2 && allocate(0) == 0
    ensures var num := WarmupTarget(Warm, maxElementsCount);
      num >= 1 && Accepted(allocate, bucketOf, bucketIndex, 0, num) == [] &&
      Rejected(allocate, bucketOf, bucketIndex, 0, num) == None
  {
  }
}
