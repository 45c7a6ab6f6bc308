/** One size class of the allocator: a slab `[pData, pBufferEnd)` cut into elements of
    one size, and the intrusive free list that `PoolBucket::Create` threads through it.

    The slab's memory is modelled by its link words only: `links[k]` is the
    `TaggedIndex` stored at the start of element `k` (address `pData + k * elementSize`). */
module PoolBuckets {
  import opened Arith
  import opened Pow2

  datatype Option<T> = None | Some(value: T)

  /** A free-list link: the offset of the next free element from `pData` and a
      generation tag, both 32 bits wide. `Invalid` ends the list. */
  datatype TaggedIndex = Link(offset: nat, tag: nat) | Invalid

  /** The number of link words Create writes for a slab of `size` bytes: one per whole
      element, but always at least the first, even when not one element fits. */
  function SlotCount(size: nat, es: nat): (r: nat)
    requires es > 0
    ensures r >= 1
  {
    if size / es == 0 then 1 else size / es
  }

  /** The link word Create leaves in element `k` of a slab holding `n` whole elements:
      a link to element k + 1, tagged k, while element k + 1 fits; `Invalid` after that.
      Offset and tag are truncated to 32 bits. */
  function CreatedLink(es: nat, n: nat, k: nat): TaggedIndex
  {
    if k + 1 < n then Link(((k + 1) * es) % U32, k % U32) else Invalid
  }

  /** All link words Create leaves in a slab of `size` bytes. */
  function CreatedLinks(es: nat, size: nat): (ls: seq<TaggedIndex>)
    requires es > 0
  {
    seq(SlotCount(size, es), k requires 0 <= k => CreatedLink(es, size / es, k))
  }

  /** Following the chain from the element at offset `o`: the offsets visited up to and
      including the element holding `Invalid`, or None when a link is misaligned, leaves
      the slab, or the chain is longer than `fuel` (which a cycle always is). */
  function Walk(ls: seq<TaggedIndex>, es: nat, o: nat, fuel: nat): Option<seq<nat>>
    requires es > 0
    decreases fuel
  {
    if fuel == 0 || o % es != 0 || o / es >= |ls| then None
    else
      match ls[o / es]
      case Invalid => Some([o])
      case Link(next, _) =>
        match Walk(ls, es, next, fuel - 1)
        case None => None
        case Some(rest) => Some([o] + rest)
  }

  /** The offsets on the free list that starts at `head`; a list without a cycle visits
      each of the |ls| elements at most once. */
  function FreeList(head: TaggedIndex, ls: seq<TaggedIndex>, es: nat): Option<seq<nat>>
    requires es > 0
  {
    match head
    case Invalid => Some([])
    case Link(o, _) => Walk(ls, es, o, |ls|)
  }

  class PoolBucket {
    var pData: nat
    var pBufferEnd: nat
    /** The shared free-list head. */
    var head: TaggedIndex
    var globalTag: nat
    /** The link word at the start of each element of the slab. */
    var links: array<TaggedIndex>
    /** The elements that thread caches have handed back to this bucket. */
    ghost var sharedFree: multiset<nat>

    constructor()
      ensures pData == 0 && pBufferEnd == 0 && head == Invalid && globalTag == 0
      ensures links.Length == 0 && sharedFree == multiset{}
    {
      pData := 0;
      pBufferEnd := 0;
      head := Invalid;
      globalTag := 0;
      links := new TaggedIndex[0];
      sharedFree := multiset{};
    }

    /** PoolBucket::Create: threads the free list through the slab in address order. */
    method Create(elementSize: nat)
      requires elementSize >= 16
      requires pData <= pBufferEnd
      modifies this
      ensures pData == old(pData) && pBufferEnd == old(pBufferEnd)
      ensures sharedFree == old(sharedFree)
      ensures fresh(links)
      ensures links[..] == CreatedLinks(elementSize, pBufferEnd - pData)
      ensures head == Link(0, 0)
      ensures globalTag == (links.Length - 1) % U32
    {
      var size := pBufferEnd - pData;
      var n := size / elementSize;
      globalTag := 0;
      var node := pData;
      head := Link((node - pData) % U32, globalTag);
      links := new TaggedIndex[SlotCount(size, elementSize)];
      var k := 0;
      while true
        invariant 0 <= k < links.Length == SlotCount(size, elementSize)
        invariant node == pData + k * elementSize
        invariant globalTag == k % U32
        invariant forall i :: 0 <= i < k ==> links[i] == CreatedLink(elementSize, n, i)
        invariant head == Link(0, 0) && fresh(links)
        invariant pData == old(pData) && pBufferEnd == old(pBufferEnd)
        invariant sharedFree == old(sharedFree)
        decreases links.Length - k
      {
        var next := node + elementSize;
        MulSucc(k, elementSize);
        MulSucc(k + 1, elementSize);
        assert next == pData + (k + 1) * elementSize;
        FitsBelowQuotient(k + 1, elementSize, size);
        if next + elementSize <= pBufferEnd {
          assert k + 1 < n;
          links[k] := Link((next - pData) % U32, globalTag);
        } else {
          assert k + 1 >= n;
          links[k] := Invalid;
          break;
        }
        node := next;
        ModSucc(k, U32);
        k := k + 1;
        globalTag := (globalTag + 1) % U32;
      }
      assert links[..] == CreatedLinks(elementSize, size);
    }
  }

  // ---------------------------------------------------------------------------
  // The free list Create builds.
  // ---------------------------------------------------------------------------

  /** The offsets of `count` consecutive elements from element `from` on. */
  function Offsets(from: nat, count: nat, es: nat): seq<nat>
  {
    seq(count, i requires 0 <= i => (from + i) * es)
  }

  lemma OffsetsCons(from: nat, count: nat, es: nat)
    ensures Offsets(from, count + 1, es) == [from * es] + Offsets(from + 1, count, es)
  {
    var a, b := Offsets(from, count + 1, es), [from * es] + Offsets(from + 1, count, es);
    forall i | 0 <= i < count + 1
      ensures a[i] == b[i]
    {
      if i > 0 {
        assert b[i] == (from + 1 + (i - 1)) * es;
      }
    }
  }

  /** One step of a walk: an element that links onward contributes its own offset
      in front of the walk from its successor. */
  lemma WalkLink(ls: seq<TaggedIndex>, es: nat, o: nat, fuel: nat, rest: seq<nat>)
    requires es > 0 && fuel > 0 && o % es == 0 && o / es < |ls| && ls[o / es].Link?
    requires Walk(ls, es, ls[o / es].offset, fuel - 1) == Some(rest)
    ensures Walk(ls, es, o, fuel) == Some([o] + rest)
  {}

  /** Element k of a created slab sits at a multiple of the element size and links to
      element k + 1 exactly when that element still fits. */
  lemma CreatedLinkAt(es: nat, size: nat, k: nat)
    requires es > 0 && size < U32 && k < SlotCount(size, es)
    ensures (k * es) % es == 0 && (k * es) / es == k
    ensures var l := CreatedLinks(es, size)[k];
      if k + 1 < size / es then l == Link((k + 1) * es, k % U32) else l == Invalid
  {
    MultipleMod(k, es);
    if k + 1 < size / es {
      FitsBelowQuotient(k + 1, es, size);
      DivModUnique((k + 1) * es, U32, 0, (k + 1) * es);
    }
  }

  /** From element k on, the created chain visits elements k, k + 1, ... up to the last
      slot, in address order. */
  lemma {:induction false} WalkCreated(es: nat, size: nat, k: nat, fuel: nat)
    requires es > 0 && size < U32
    requires k < SlotCount(size, es) && fuel >= SlotCount(size, es) - k
    ensures Walk(CreatedLinks(es, size), es, k * es, fuel)
      == Some(Offsets(k, SlotCount(size, es) - k, es))
    decreases SlotCount(size, es) - k
  {
    var ls := CreatedLinks(es, size);
    var c := SlotCount(size, es) - k;
    CreatedLinkAt(es, size, k);
    OffsetsCons(k, c - 1, es);
    if k + 1 < size / es {
      WalkCreated(es, size, k + 1, fuel - 1);
      WalkLink(ls, es, k * es, fuel, Offsets(k + 1, c - 1, es));
    } else {
      assert c == 1 && Offsets(k + 1, 0, es) == [];
      assert [k * es] + [] == [k * es];
    }
  }

  /** After Create the free list from the head `{0, 0}` visits every slot once, in
      address order: element i sits at offset i * elementSize. */
  lemma CreatedChain(es: nat, size: nat)
    requires es >= 16 && size < U32
    ensures FreeList(Link(0, 0), CreatedLinks(es, size), es)
      == Some(Offsets(0, SlotCount(size, es), es))
  {
    WalkCreated(es, size, 0, SlotCount(size, es));
  }

  /** When the slab holds at least one element, the chain holds exactly ⌊size/es⌋
      elements; each offset is a multiple of the element size, the element lies inside
      the slab, and the offsets strictly increase, so none repeats and there is no cycle. */
  lemma CreatedChainFits(es: nat, size: nat)
    requires es >= 16 && es <= size < U32
    ensures var c := FreeList(Link(0, 0), CreatedLinks(es, size), es);
      c.Some? && |c.value| == size / es &&
      (forall i :: 0 <= i < |c.value| ==> c.value[i] % es == 0 && c.value[i] + es <= size) &&
      (forall i, j :: 0 <= i < j < |c.value| ==> c.value[i] < c.value[j])
  {
    CreatedChain(es, size);
    var c := Offsets(0, SlotCount(size, es), es);
    FitsBelowQuotient(0, es, size);
    forall i | 0 <= i < |c|
      ensures c[i] % es == 0 && c[i] + es <= size
    {
      MultipleMod(i, es);
      FitsBelowQuotient(i, es, size);
    }
    forall i, j | 0 <= i < j < |c|
      ensures c[i] < c[j]
    {
      MulSucc(i, es);
      MulMonotone(i + 1, j, es);
    }
  }

  /** A slab smaller than one element still gets a one-element chain: the element at
      offset 0, which runs past the end of the slab. */
  lemma CreatedChainOverruns(es: nat, size: nat)
    requires es >= 16 && size < es && size < U32
    ensures FreeList(Link(0, 0), CreatedLinks(es, size), es) == Some([0])
    ensures 0 + es > size
  {
    DivModUnique(size, es, 0, size);
    CreatedChain(es, size);
    assert Offsets(0, 1, es) == [0];
  }

  /** Link word k of a created slab is tagged k; every slot but the last holds a link,
      and tags strictly increase along the slab (for fewer than 2^32 elements). */
  lemma CreatedTags(es: nat, size: nat)
    requires es > 0 && size < U32
    ensures var ls := CreatedLinks(es, size);
      ls[|ls| - 1] == Invalid &&
      (forall k :: 0 <= k < |ls| - 1 ==> ls[k].Link? && ls[k].tag == k) &&
      (forall i, j :: 0 <= i < j < |ls| - 1 ==> ls[i].tag < ls[j].tag)
  {
    var ls := CreatedLinks(es, size);
    var n := size / es;
    DivModUnique(size, es, n, size % es);
    if n > 0 {
      MulAtLeast(n, es);
    }
    forall k | 0 <= k < |ls| - 1
      ensures ls[k].Link? && ls[k].tag == k
    {
      DivModUnique(k, U32, 0, k);
    }
  }
}
