/**
  Pool (util/pool.h): elements constructed in allocator slots, with a bitmap of allocated indices
  and counters kept beside the free list. Elements are the bytes of their slot, so the free list
  really shares memory with them.
 */
module Pool {
  import opened Bits
  import opened Memory
  import opened PoolAllocator
  import opened Chains
  import IterableBitmap

  datatype Emplaced =
    | Full                    // {invalid, nullptr}
    | Threw                   // the element's constructor threw
    | At(index: nat)

  /** The index_type's largest value stands for "no index". */
  function Invalid(size: nat): nat {
    if size >= 0xFFFF then 0xFFFF_FFFF else 0xFFFF
  }

  lemma {:induction false} FullCount(s: set<nat>, n: nat)
    requires forall x: nat :: x < n ==> x in s
    ensures |s| >= n
  {
    if n == 0 {
    } else {
      FullCount(s - {n - 1}, n - 1);
    }
  }

  class Pool {
    const alloc: Allocator
    const inUse: IterableBitmap.Bitmap
    var elemCount: nat
    var maxElemCount: nat

    function Capacity(): nat { alloc.nElems }

    ghost predicate Valid() reads this, alloc, alloc.pool, inUse {
      && alloc.Valid() && inUse.Valid()
      && inUse.size == alloc.nElems
      && inUse.Elements() == alloc.Live()
      && elemCount == |alloc.Live()|
      && elemCount <= maxElemCount <= alloc.nElems
    }

    /** The constructed elements by index. */
    ghost function Contents(): map<nat, bytes>
      requires Valid()
      reads this, alloc, alloc.pool, inUse
    {
      SlotsOf(alloc.pool[..], alloc.elemSize, alloc.nElems, alloc.Live())
    }

    constructor (elemSize: u32, size: u32)
      requires 0 < size <= IterableBitmap.MAX_SIZE && elemSize >= 4 && (size - 1) * elemSize < TWO32
      ensures Valid() && Contents() == map[] && fresh(alloc) && fresh(alloc.pool) && fresh(inUse)
      ensures Capacity() == size && alloc.elemSize == elemSize
    {
      alloc := new Allocator(elemSize, size);
      inUse := new IterableBitmap.Bitmap(size);
      elemCount, maxElemCount := 0, 0;
    }

    lemma LiveInRange()
      requires Valid()
      ensures forall id :: id in alloc.Live() ==> id < alloc.nElems
    {
      forall id | id in alloc.Live() ensures id < alloc.nElems { alloc.Partition(id); }
    }

    /** emplace(args...): the element is `value`, unless its constructor throws. */
    method Emplace(value: bytes, throws: bool) returns (r: Emplaced)
      requires Valid() && |value| == alloc.elemSize
      modifies this, alloc, alloc.pool, inUse
      ensures Valid()
      ensures r.Full? <==> |old(Contents())| == Capacity()
      ensures r.Threw? <==> |old(Contents())| < Capacity() && throws
      ensures match r
              case At(index) =>
                && index !in old(Contents()) && index < Capacity() && index != Invalid(Capacity())
                && Contents() == old(Contents())[index := value]
              case _ => Contents() == old(Contents())
      ensures maxElemCount == if |Contents()| > old(maxElemCount) then |Contents()| else old(maxElemCount)
    {
      hide Slot, HasSlot, IsSlots, OthersKept, SlotsOf, IterableBitmap.Consistent, IterableBitmap.Marked;
      hide Linked, Distinct, FreeListIs, Adds, Keeps, Allocator.Used;
      ghost var live, p := alloc.Live(), alloc.pool[..];
      LiveInRange();
      SlotsOfKeys(p, alloc.elemSize, alloc.nElems, live);
      if elemCount == alloc.nElems { return Full; }
      if forall x: nat :: x < alloc.nElems ==> x in live { FullCount(live, alloc.nElems); }
      var index := alloc.Alloc();
      ghost var p1 := alloc.pool[..];
      if throws {
        alloc.Free(index);
        SlotsOfSame(p, p1, alloc.pool[..], alloc.elemSize, alloc.nElems, live, index);
        return Threw;
      }
      alloc.FillSlot(index, value);
      SlotInRange(|p|, alloc.elemSize, alloc.nElems, index);
      SlotsOfAdd(p, p1, alloc.pool[..], alloc.elemSize, alloc.nElems, live, index, value);
      elemCount := elemCount + 1;
      inUse.Set(index);
      maxElemCount := if maxElemCount < elemCount then elemCount else maxElemCount;
      return At(index);
    }

    /** operator[] */
    method Get(index: nat) returns (value: bytes)
      requires Valid() && index in Contents()
      ensures value == Contents()[index]
    {
      value := alloc.ReadSlot(index);
    }

    method Remove(index: nat)
      requires Valid() && index in Contents()
      modifies this, alloc, alloc.pool, inUse
      ensures Valid() && Contents() == old(Contents()) - {index} && maxElemCount == old(maxElemCount)
    {
      hide Slot, HasSlot, IsSlots, OthersKept, IterableBitmap.Consistent, IterableBitmap.Marked;
      hide Linked, Distinct, FreeListIs, Adds, Keeps, Allocator.Used;
      ghost var live, p := alloc.Live(), alloc.pool[..];
      LiveInRange();
      alloc.Free(index);
      SlotsOfRemove(p, alloc.pool[..], alloc.elemSize, alloc.nElems, live, index);
      elemCount := elemCount - 1;
      inUse.Clear(index);
    }

    method Size() returns (n: nat)
      requires Valid()
      ensures n == |Contents()| <= Capacity()
    {
      LiveInRange();
      SlotsOfKeys(alloc.pool[..], alloc.elemSize, alloc.nElems, alloc.Live());
      n := elemCount;
    }
  }

  /** The slots of the given ids. */
  ghost function SlotsOf(p: bytes, es: nat, n: nat, ids: set<nat>): map<nat, bytes>
    requires IsSlots(|p|, es, n)
  {
    map id | id in ids && id < n :: (SlotInRange(|p|, es, n, id); Slot(p, es, id))
  }

  lemma SlotsOfKeys(p: bytes, es: nat, n: nat, ids: set<nat>)
    requires IsSlots(|p|, es, n) && forall id :: id in ids ==> id < n
    ensures SlotsOf(p, es, n, ids).Keys == ids && |SlotsOf(p, es, n, ids)| == |ids|
  {
  }

  /** Filling the slot of a new id and leaving the others alone adds one element. */
  lemma SlotsOfAdd(p: bytes, p1: bytes, p': bytes, es: nat, n: nat, ids: set<nat>, id: nat, value: bytes)
    requires |p| == |p1| == |p'| && IsSlots(|p|, es, n) && id < n && id !in ids
    requires OthersKept(p, p1, es, n, id) && OthersKept(p1, p', es, n, id)
    requires HasSlot(|p'|, es, id) && Slot(p', es, id) == value
    ensures SlotsOf(p', es, n, ids + {id}) == SlotsOf(p, es, n, ids)[id := value]
  {
    hide Slot, HasSlot, IsSlots;
  }

  lemma SlotsOfSame(p: bytes, p1: bytes, p': bytes, es: nat, n: nat, ids: set<nat>, id: nat)
    requires |p| == |p1| == |p'| && IsSlots(|p|, es, n) && id !in ids
    requires OthersKept(p, p1, es, n, id) && OthersKept(p1, p', es, n, id)
    ensures SlotsOf(p', es, n, ids) == SlotsOf(p, es, n, ids)
  {
    hide Slot, HasSlot, IsSlots;
  }

  lemma SlotsOfRemove(p: bytes, p': bytes, es: nat, n: nat, ids: set<nat>, id: nat)
    requires |p| == |p'| && IsSlots(|p|, es, n)
    requires OthersKept(p, p', es, n, id)
    ensures SlotsOf(p', es, n, ids - {id}) == SlotsOf(p, es, n, ids) - {id}
  {
    hide Slot, HasSlot, IsSlots;
  }
}
