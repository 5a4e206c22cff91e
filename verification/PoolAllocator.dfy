/**
  pool_allocator (util/pool_allocator.h, util/pool_allocator.c): fixed-size slots in one byte
  array. A free slot's first four bytes hold the index of the next free slot; slots at and after
  `allocEnd` have never been used and carry no link.
 */
module PoolAllocator {
  import opened Bits
  import opened Memory
  import opened Chains

  /** POOL_ALLOCATOR_NULL_ELEM */
  const NULL_ELEM: u32 := 0xFFFF_FFFF

  // ----- slots of a byte pool -----

  predicate HasSlot(len: nat, es: nat, id: nat) {
    (id + 1) * es <= len
  }

  /** A pool of `len` bytes is exactly `n` slots. */
  predicate IsSlots(len: nat, es: nat, n: nat) {
    len == n * es
  }

  /** The bytes of slot `id`. */
  function Slot(p: seq<byte>, es: nat, id: nat): (r: seq<byte>)
    requires HasSlot(|p|, es, id)
    ensures |r| == es
  {
    assert (id + 1) * es == id * es + es;
    p[id * es..id * es + es]
  }

  function SetSlot(p: seq<byte>, es: nat, id: nat, x: seq<byte>): (r: seq<byte>)
    requires HasSlot(|p|, es, id) && |x| == es
    ensures |r| == |p|
  {
    assert (id + 1) * es == id * es + es;
    Patch(p, id * es, x)
  }

  lemma SlotInRange(len: nat, es: nat, n: nat, id: nat)
    requires id < n && IsSlots(len, es, n)
    ensures HasSlot(len, es, id) && id * es + es <= len
  {
    MulMonotone(id + 1, n, es);
  }

  lemma SetSlotSlots(p: seq<byte>, es: nat, n: nat, id: nat, x: seq<byte>, j: nat)
    requires id < n && j < n && IsSlots(|p|, es, n) && |x| == es
    ensures HasSlot(|p|, es, id) && HasSlot(|p|, es, j)
    ensures Slot(SetSlot(p, es, id, x), es, j) == if j == id then x else Slot(p, es, j)
  {
    SlotInRange(|p|, es, n, id);
    SlotInRange(|p|, es, n, j);
    assert id < j ==> id * es + es <= j * es by { MulMonotone(id + 1, j, es); }
    assert j < id ==> j * es + es <= id * es by { MulMonotone(j + 1, id, es); }
    PatchRange(p, id * es, x, j * es);
  }

  /** __pool_allocator_elem: `index * elem_size` in 32 bits. */
  function ElemOffset(es: u32, id: u32): u32 {
    Wrap32(id * es)
  }

  /** The byte ranges of all slots, as the 32-bit offsets place them, are disjoint. */
  ghost predicate OffsetsApart(es: u32, n: u32) {
    forall i: u32, j: u32 :: i < j < n ==>
      ElemOffset(es, i) + es <= ElemOffset(es, j) || ElemOffset(es, j) + es <= ElemOffset(es, i)
  }

  /** The 32-bit offsets keep the slots apart if and only if the last slot begins below 2^32. */
  lemma OffsetsApartIff(es: u32, n: u32)
    requires es >= 4 && n > 0
    ensures OffsetsApart(es, n) <==> (n - 1) * es < TWO32
  {
    hide Wrap32;
    if (n - 1) * es < TWO32 {
      forall i: u32, j: u32 | i < j < n ensures ElemOffset(es, i) + es <= ElemOffset(es, j) {
        OffsetBelow(es, n, i);
        OffsetBelow(es, n, j);
        MulMonotone(i + 1, j, es);
        assert (i + 1) * es == i * es + es;
      }
    } else {
      // the first slot that wraps begins inside the first one
      var x := (TWO32 + es - 1) / es;
      FirstWrapped(es, n, x);
      var i: u32, j: u32 := 0, x;
      assert ElemOffset(es, i) == 0 by { WordZero(es); }
      assert ElemOffset(es, j) < es;
    }
  }

  lemma WordZero(es: u32)
    ensures 0 * es == 0 && Wrap32(0) == 0
  {
  }

  lemma OffsetBelow(es: u32, n: u32, i: u32)
    requires i < n && (n - 1) * es < TWO32
    ensures ElemOffset(es, i) == i * es
  {
    MulMonotone(i, n - 1, es);
    MulMonotone(0, i, es);
    ModWithin(i * es, TWO32);
  }

  lemma FirstWrapped(es: u32, n: u32, j: int)
    requires es >= 4 && n > 0 && (n - 1) * es >= TWO32 && j == (TWO32 + es - 1) / es
    ensures 0 < j < n && Wrap32(j * es) < es
  {
    var x := TWO32 + es - 1;
    assert x == j * es + x % es;
    assert TWO32 <= j * es < TWO32 + es;
    assert n * es == (n - 1) * es + es;
    if j >= n { MulMonotone(n, j, es); }
    if j <= 0 { MulMonotone(j, 0, es); }
    DivModUnique(j * es, TWO32, 1, j * es - TWO32);
  }

  /** No slot but `id` differs. */
  ghost predicate OthersKept(p: seq<byte>, p': seq<byte>, es: nat, n: nat, id: nat)
    requires |p| == |p'| && IsSlots(|p|, es, n)
  {
    forall j: nat :: j < n && j != id ==> HasSlot(|p|, es, j) && Slot(p', es, j) == Slot(p, es, j)
  }

  // ----- the free list -----

  /** The link stored in a free slot. */
  function Link(p: seq<byte>, es: nat, id: nat): u32
    requires HasSlot(|p|, es, id) && es >= 4
  {
    Load32(Slot(p, es, id))
  }

  /** `chain[i]` links to `chain[i + 1]`, and its last slot to `last`. */
  ghost predicate Linked(p: seq<byte>, es: nat, n: nat, chain: seq<nat>, last: u32)
    requires es >= 4
  {
    forall i :: 0 <= i < |chain| ==>
      && chain[i] < n
      && HasSlot(|p|, es, chain[i])
      && Link(p, es, chain[i]) == After(chain, i, last)
  }

  lemma LinkedNone(p: seq<byte>, es: nat, n: nat, last: u32)
    requires es >= 4
    ensures Linked(p, es, n, [], last)
  {
  }

  lemma LinkedTail(p: seq<byte>, es: nat, n: nat, chain: seq<nat>, last: u32)
    requires es >= 4 && chain != [] && Linked(p, es, n, chain, last)
    ensures HasSlot(|p|, es, chain[0])
    ensures Link(p, es, chain[0]) == First(chain[1..], last)
    ensures Linked(p, es, n, chain[1..], last)
  {
    hide HasSlot, Link;
    forall i | 0 <= i < |chain[1..]|
      ensures chain[1..][i] < n && HasSlot(|p|, es, chain[1..][i])
      ensures Link(p, es, chain[1..][i]) == After(chain[1..], i, last)
    {
      assert chain[1..][i] == chain[i + 1];
    }
  }

  lemma LinkedPush(p: seq<byte>, es: nat, n: nat, chain: seq<nat>, last: u32, id: nat)
    requires es >= 4 && Linked(p, es, n, chain, last) && id < n && HasSlot(|p|, es, id)
    requires Link(p, es, id) == First(chain, last)
    ensures Linked(p, es, n, [id] + chain, last)
  {
    hide HasSlot, Link;
    var c := [id] + chain;
    forall i | 0 <= i < |c|
      ensures c[i] < n && HasSlot(|p|, es, c[i])
      ensures Link(p, es, c[i]) == After(c, i, last)
    {
      if i > 0 { assert c[i] == chain[i - 1]; }
    }
  }

  ghost function LiveIds(used: nat, chain: seq<nat>): set<nat> {
    set id | 0 <= id < used && id !in chain
  }

  lemma PushLive(used: nat, chain: seq<nat>, id: nat)
    requires id in LiveIds(used, chain) && Distinct(chain)
    ensures LiveIds(used, [id] + chain) == LiveIds(used, chain) - {id}
    ensures Distinct([id] + chain) && forall x :: x in [id] + chain ==> x == id || x in chain
  {
  }

  lemma PopLive(used: nat, chain: seq<nat>)
    requires chain != [] && Distinct(chain) && forall x :: x in chain ==> x < used
    ensures chain[0] < used && chain[0] !in LiveIds(used, chain)
    ensures LiveIds(used, chain[1..]) == LiveIds(used, chain) + {chain[0]}
    ensures Distinct(chain[1..]) && forall x :: x in chain[1..] ==> x in chain
  {
    assert chain[0] in chain;
    assert chain == [chain[0]] + chain[1..];
  }

  lemma NoChainAllLive(used: nat)
    ensures forall x: nat :: x < used ==> x in LiveIds(used, [])
  {
  }

  lemma GrowLive(used: nat)
    ensures used !in LiveIds(used, [])
    ensures LiveIds(used + 1, []) == LiveIds(used, []) + {used}
  {
  }

  class Allocator {
    const pool: array<byte>
    const elemSize: u32
    const nElems: u32
    var freeList: u32
    var allocEnd: u32
    ghost var chain: seq<nat>  // slots that were freed, most recently freed first
    ghost var live: set<nat>   // ids handed out and not returned

    /** Slots below this bound have been used. */
    ghost function Used(): nat reads this {
      if allocEnd == NULL_ELEM then nElems else allocEnd
    }

    /** Ids handed out and not returned. */
    ghost function Live(): set<nat> reads this {
      live
    }

    ghost predicate Valid() reads this, pool {
      && nElems > 0 && elemSize >= 4
      && IsSlots(pool.Length, elemSize, nElems) && (nElems - 1) * elemSize < TWO32
      && (allocEnd == NULL_ELEM || allocEnd < nElems)
      && live == LiveIds(Used(), chain)
      && Distinct(chain)
      && (forall id :: id in chain ==> id < Used())
      && freeList == First(chain, allocEnd)
      && Linked(pool[..], elemSize, nElems, chain, allocEnd)
    }

    /** Live ids, the free chain and the never-used tail partition [0, nElems). */
    lemma Partition(id: nat)
      requires Valid()
      ensures id in Live() ==> id !in chain && id < Used()
      ensures id in chain ==> id < Used()
      ensures Used() <= nElems
      ensures id < nElems ==> id in Live() || id in chain || Used() <= id
    {
    }

    /** The assertion at the top of pool_allocator_alloc. */
    lemma FreeListBelowEnd()
      requires Valid()
      ensures freeList <= allocEnd
      ensures freeList == NULL_ELEM || freeList == allocEnd ==> chain == []
    {
      if chain != [] { assert chain[0] in chain; }
    }

    /** pool_allocator_init after its checks. */
    constructor (elemSize: u32, nElems: u32)
      requires nElems > 0 && elemSize >= 4 && (nElems - 1) * elemSize < TWO32
      ensures Valid() && Live() == {} && fresh(pool)
      ensures this.elemSize == elemSize && this.nElems == nElems
    {
      this.elemSize := elemSize;
      this.nElems := nElems;
      MulMonotone(0, nElems, elemSize);
      pool := new byte[nElems * elemSize](_ => 0);
      freeList, allocEnd := 0, 0;
      chain, live := [], {};
    }

    ghost function SlotOf(id: nat): seq<byte>
      requires Valid() && id < nElems
      reads this, pool
    {
      SlotInRange(pool.Length, elemSize, nElems, id);
      Slot(pool[..], elemSize, id)
    }

    /** The byte offset of a slot, computed in 32 bits. */
    method Offset(id: u32) returns (off: nat)
      requires Valid() && id < nElems
      ensures off == id * elemSize && off + elemSize <= pool.Length
    {
      SlotInRange(pool.Length, elemSize, nElems, id);
      OffsetBelow(elemSize, nElems, id);
      off := ElemOffset(elemSize, id);
    }

    /** Overwrites a live slot; this is also what the slot's owner may do. */
    method FillSlot(id: u32, x: seq<byte>)
      requires Valid() && id in Live() && |x| == elemSize
      modifies pool
      ensures Valid() && SlotOf(id) == x
      ensures OthersKept(old(pool[..]), pool[..], elemSize, nElems, id)
    {
      hide Slot, Linked, HasSlot, IsSlots;
      ghost var before := pool[..];
      Copy(id, x);
      forall j: nat | j < nElems
        ensures HasSlot(pool.Length, elemSize, j)
        ensures Slot(pool[..], elemSize, j) == if j == id then x else Slot(before, elemSize, j)
      {
        SetSlotSlots(before, elemSize, nElems, id, x, j);
      }
      LinkedKept(before, pool[..], elemSize, nElems, chain, allocEnd);
    }

    method Copy(id: u32, x: seq<byte>)
      requires Valid() && id < nElems && |x| == elemSize
      modifies pool
      ensures HasSlot(pool.Length, elemSize, id)
      ensures pool[..] == SetSlot(old(pool[..]), elemSize, id, x)
    {
      SlotInRange(pool.Length, elemSize, nElems, id);
      var off := Offset(id);
      Memcpy(pool, off, x);
    }

    method ReadSlot(id: u32) returns (x: seq<byte>)
      requires Valid() && id < nElems
      ensures x == SlotOf(id)
    {
      var off := Offset(id);
      x := pool[off..off + elemSize];
    }

    /** Takes the head of the free list off it. */
    method Unlink() returns (id: u32)
      requires Valid() && freeList != NULL_ELEM
      modifies this
      ensures Valid() && id < nElems && id !in old(Live()) && Live() == old(Live()) + {id}
    {
      hide Slot, Link, Linked, HasSlot, IsSlots, LiveIds, Distinct;
      FreeListBelowEnd();
      id := freeList;
      if id == allocEnd {
        GrowLive(id);
        allocEnd := if id < nElems - 1 then id + 1 else NULL_ELEM;
        LinkedNone(pool[..], elemSize, nElems, allocEnd);
        freeList := allocEnd;
      } else {
        PopLive(Used(), chain);
        LinkedTail(pool[..], elemSize, nElems, chain, allocEnd);
        freeList := ReadLink(id);
        chain := chain[1..];
      }
      live := live + {id};
    }

    /**
      pool_allocator_alloc: an id that was not live, its slot zeroed; NULL_ELEM exactly when
      every id is live.
     */
    method Alloc() returns (id: u32)
      requires Valid()
      modifies this, pool
      ensures Valid()
      ensures id == NULL_ELEM <==> forall x: nat :: x < nElems ==> x in old(Live())
      ensures id == NULL_ELEM ==> Live() == old(Live()) && pool[..] == old(pool[..])
      ensures id != NULL_ELEM ==>
                && id < nElems && id !in old(Live()) && Live() == old(Live()) + {id}
                && SlotOf(id) == Zeros(elemSize)
                && OthersKept(old(pool[..]), pool[..], elemSize, nElems, id)
    {
      hide Slot, Linked, HasSlot, IsSlots, LiveIds, Distinct;
      FreeListBelowEnd();
      if freeList == NULL_ELEM {
        NoChainAllLive(nElems);
        return NULL_ELEM;
      }
      id := Unlink();
      FillSlot(id, Zeros(elemSize));
    }

    method ReadLink(id: u32) returns (next: u32)
      requires Valid() && id < nElems
      ensures HasSlot(pool.Length, elemSize, id) && next == Link(pool[..], elemSize, id)
    {
      SlotInRange(pool.Length, elemSize, nElems, id);
      var slot := ReadSlot(id);
      next := Load32(slot);
    }

    /** Puts a live id at the head of the free list. */
    ghost method Push(id: u32)
      requires Valid() && id in Live() && HasSlot(pool.Length, elemSize, id)
      requires Link(pool[..], elemSize, id) == freeList
      modifies this`chain, this`live
      ensures chain == [id] + old(chain) && live == old(live) - {id} && live == LiveIds(Used(), chain)
      ensures Distinct(chain) && (forall x :: x in chain ==> x < Used())
      ensures Linked(pool[..], elemSize, nElems, chain, allocEnd)
    {
      hide Link, Linked, HasSlot, IsSlots, Distinct;
      PushLive(Used(), chain, id);
      LinkedPush(pool[..], elemSize, nElems, chain, allocEnd, id);
      chain, live := [id] + chain, live - {id};
    }

    /**
      pool_allocator_free, for every id in range. The free list gains the id and keeps what it had
      if and only if the id was live. It keeps what it had also when the id is the first never-used
      one and nothing else is free: then nothing changes but the slot's bytes.
     */
    method Free(id: u32)
      requires Valid() && id < nElems
      modifies this, pool
      ensures freeList == id && allocEnd == old(allocEnd)
      ensures id in old(Live()) ==> Valid() && Live() == old(Live()) - {id}
      ensures id == old(allocEnd) && old(chain) == [] ==> Valid() && id !in Live() && Live() == old(Live())
      ensures OthersKept(old(pool[..]), pool[..], elemSize, nElems, id)
      ensures (exists chain' :: FreeListIs(pool[..], elemSize, nElems, Used(), freeList, allocEnd, chain')
                                && Adds(chain', id, old(chain)))
              <==> id in old(Live())
      ensures (exists chain' :: FreeListIs(pool[..], elemSize, nElems, Used(), freeList, allocEnd, chain')
                                && Keeps(chain', old(chain)))
              <==> id in old(Live()) || (id == old(allocEnd) && old(chain) == [])
    {
      hide Slot, Linked, HasSlot, IsSlots, Distinct, Store32, Load32;
      SlotInRange(pool.Length, elemSize, nElems, id);
      ghost var before, was := pool[..], chain;
      var slot := ReadSlot(id);
      var x := Store32(slot, freeList);
      Copy(id, x);
      forall j: nat | j < nElems
        ensures HasSlot(pool.Length, elemSize, j)
        ensures Slot(pool[..], elemSize, j) == if j == id then x else Slot(before, elemSize, j)
      {
        SetSlotSlots(before, elemSize, nElems, id, x, j);
      }
      FreeIff(before, pool[..], elemSize, nElems, Used(), allocEnd, chain, id);
      if id in live {
        LinkedKept(before, pool[..], elemSize, nElems, chain, allocEnd);
        Push(id);
      }
      if chain == [] { LinkedNone(pool[..], elemSize, nElems, allocEnd); }
      freeList := id;
    }
  }

  // ----- which ids may be freed -----

  /** The free list starting at `head` is `chain`, and then the never-used slots from `last` on. */
  ghost predicate FreeListIs(p: seq<byte>, es: nat, n: nat, used: nat, head: nat, last: u32, chain: seq<nat>) {
    && es >= 4 && Distinct(chain) && (forall x :: x in chain ==> x < used)
    && head == First(chain, last) && Linked(p, es, n, chain, last)
  }

  ghost predicate Adds(chain': seq<nat>, id: nat, chain: seq<nat>) {
    forall x :: x in chain' <==> x == id || x in chain
  }

  ghost predicate Keeps(chain': seq<nat>, chain: seq<nat>) {
    forall x :: x in chain ==> x in chain'
  }

  /**
    Linking `id` in front of the list gives a sound list of `id` and the old ids if and only if
    `id` is live, and one that at least keeps the old ids if `id` is live or there are none and
    `id` is the first never-used slot. Otherwise a slot that is already free closes a cycle, the
    first never-used slot cuts the old ids off, and a later one lies behind the end of the list,
    which the assertion at the head of pool_allocator_alloc forbids.
   */
  lemma FreeIff(p: seq<byte>, p': seq<byte>, es: nat, n: nat, used: nat, last: u32, chain: seq<nat>, id: nat)
    requires es >= 4 && |p| == |p'| && used <= n && used <= last && id < n
    requires FreeListIs(p, es, n, used, First(chain, last), last, chain)
    requires forall j: nat :: j < n ==> HasSlot(|p|, es, j)
    requires forall j: nat :: j < n && j != id ==> Slot(p', es, j) == Slot(p, es, j)
    requires Link(p', es, id) == First(chain, last)
    ensures (exists chain' :: FreeListIs(p', es, n, used, id, last, chain') && Adds(chain', id, chain))
            <==> id in LiveIds(used, chain)
    ensures (exists chain' :: FreeListIs(p', es, n, used, id, last, chain') && Keeps(chain', chain))
            <==> id in LiveIds(used, chain) || (id == last && chain == [])
  {
    hide Slot, HasSlot, Linked, Load32, FreeListIs;
    if id in LiveIds(used, chain) {
      LiveIsAdded(p, p', es, n, used, last, chain, id);
      assert Adds([id] + chain, id, chain) && Keeps([id] + chain, chain);
    } else {
      if id == last && chain == [] {
        OnlyNeverUsed(p', es, n, used, last);
        assert Keeps([], chain);
      }
      forall chain' | FreeListIs(p', es, n, used, id, last, chain')
        ensures !Adds(chain', id, chain)
        ensures Keeps(chain', chain) ==> id == last && chain == []
      {
        NotLiveBreaks(p, p', es, n, used, last, chain, id, chain');
      }
    }
  }

  lemma OnlyNeverUsed(p: seq<byte>, es: nat, n: nat, used: nat, last: u32)
    requires es >= 4
    ensures FreeListIs(p, es, n, used, last, last, [])
  {
  }

  /** A sound list that starts at an id that was not live has lost every old id. */
  lemma NotLiveBreaks(p: seq<byte>, p': seq<byte>, es: nat, n: nat, used: nat, last: u32, chain: seq<nat>,
                      id: nat, chain': seq<nat>)
    requires es >= 4 && |p| == |p'| && used <= n && used <= last && id < n && id !in LiveIds(used, chain)
    requires FreeListIs(p, es, n, used, First(chain, last), last, chain)
    requires forall j: nat :: j < n ==> HasSlot(|p|, es, j)
    requires forall j: nat :: j < n && j != id ==> Slot(p', es, j) == Slot(p, es, j)
    requires Link(p', es, id) == First(chain, last)
    requires FreeListIs(p', es, n, used, id, last, chain')
    ensures chain' == [] && id == last && !Adds(chain', id, chain) && (Keeps(chain', chain) ==> chain == [])
  {
    hide Slot, HasSlot, Linked, Load32;
    if chain' != [] {
      assert chain'[0] == id && id in chain';
      Cycle(p, p', es, n, used, last, chain, id, chain');
    } else {
      assert id !in chain';
      if chain != [] { assert chain[0] in chain && chain[0] !in chain'; }
    }
  }

  lemma LiveIsAdded(p: seq<byte>, p': seq<byte>, es: nat, n: nat, used: nat, last: u32, chain: seq<nat>, id: nat)
    requires es >= 4 && |p| == |p'| && used <= n && id in LiveIds(used, chain)
    requires FreeListIs(p, es, n, used, First(chain, last), last, chain)
    requires forall j: nat :: j < n ==> HasSlot(|p|, es, j)
    requires forall j: nat :: j < n && j != id ==> Slot(p', es, j) == Slot(p, es, j)
    requires Link(p', es, id) == First(chain, last)
    ensures FreeListIs(p', es, n, used, id, last, [id] + chain)
  {
    hide Slot, HasSlot, Linked, Load32, Distinct;
    PushLive(used, chain, id);
    LinkedKept(p, p', es, n, chain, last);
    LinkedPush(p', es, n, chain, last, id);
  }

  /** A slot that is freed while it is on the list is reached again from itself. */
  lemma Cycle(p: seq<byte>, p': seq<byte>, es: nat, n: nat, used: nat, last: u32, chain: seq<nat>, id: nat,
              chain': seq<nat>)
    requires es >= 4 && |p| == |p'| && used <= n && used <= last && id < n && id in chain
    requires FreeListIs(p, es, n, used, First(chain, last), last, chain)
    requires forall j: nat :: j < n ==> HasSlot(|p|, es, j)
    requires forall j: nat :: j < n && j != id ==> Slot(p', es, j) == Slot(p, es, j)
    requires Link(p', es, id) == First(chain, last) && id in chain'
    ensures !FreeListIs(p', es, n, used, id, last, chain')
  {
    hide Slot, HasSlot, Load32, Linked;
    if FreeListIs(p', es, n, used, id, last, chain') {
      var k :| 0 <= k < |chain| && chain[k] == id;
      assert id !in chain[..k];
      Follow(p, p', es, n, used, last, chain, id, chain', k);
    }
  }

  /** Up to the freed slot, the new list goes through the old one. */
  lemma {:induction false} Follow(p: seq<byte>, p': seq<byte>, es: nat, n: nat, used: nat, last: u32,
                                  chain: seq<nat>, id: nat, chain': seq<nat>, k: nat)
    requires es >= 4 && |p| == |p'| && used <= n && used <= last && id < n
    requires FreeListIs(p, es, n, used, First(chain, last), last, chain)
    requires forall j: nat :: j < n ==> HasSlot(|p|, es, j)
    requires forall j: nat :: j < n && j != id ==> Slot(p', es, j) == Slot(p, es, j)
    requires Link(p', es, id) == First(chain, last) && id in chain'
    requires FreeListIs(p', es, n, used, id, last, chain')
    requires k < |chain| && id !in chain[..k]
    ensures k + 1 < |chain'| && chain'[k + 1] == chain[k]
    decreases k
  {
    hide Slot, HasSlot, Load32, Linked, Link;
    assert chain[k] in chain;
    if k == 0 {
      NextOn(p', es, n, chain', last, 0);
    } else {
      assert chain[k - 1] != id && chain[k - 1] in chain;
      assert id !in chain[..k - 1];
      Follow(p, p', es, n, used, last, chain, id, chain', k - 1);
      NextOn(p, es, n, chain, last, k - 1);
      NextOn(p', es, n, chain', last, k);
      SameLink(p, p', es, chain[k - 1]);
    }
  }

  lemma NextOn(p: seq<byte>, es: nat, n: nat, chain: seq<nat>, last: u32, k: nat)
    requires es >= 4 && Linked(p, es, n, chain, last) && k < |chain|
    ensures HasSlot(|p|, es, chain[k]) && Link(p, es, chain[k]) == After(chain, k, last)
  {
  }

  lemma SameLink(p: seq<byte>, p': seq<byte>, es: nat, j: nat)
    requires es >= 4 && |p| == |p'| && HasSlot(|p|, es, j) && Slot(p', es, j) == Slot(p, es, j)
    ensures Link(p', es, j) == Link(p, es, j)
  {
  }

  lemma LinkedKept(p: seq<byte>, p': seq<byte>, es: nat, n: nat, chain: seq<nat>, last: u32)
    requires es >= 4 && |p| == |p'| && Linked(p, es, n, chain, last)
    requires forall j: nat :: j < n && j in chain ==> HasSlot(|p|, es, j) && Slot(p', es, j) == Slot(p, es, j)
    ensures Linked(p', es, n, chain, last)
  {
    hide Slot, HasSlot;
    forall i | 0 <= i < |chain|
      ensures HasSlot(|p'|, es, chain[i])
      ensures Link(p', es, chain[i]) == After(chain, i, last)
    {
      assert chain[i] in chain;
    }
  }

  function Zeros(n: nat): (r: seq<byte>)
    ensures |r| == n
  {
    seq(n, _ => 0)
  }
}
