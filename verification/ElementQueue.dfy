/**
  The element queue as objects over arrays: struct element_queue with its shared block, and the
  C++ wrapper's byte copies. `Session` joins one writer and one reader of the same block and shows
  that each operation is a run of the step machine, so the FIFO theorems apply to the objects.
 */
module ElementQueueObjects {
  import opened Bits
  import opened Common
  import opened Memory
  import opened ElementQueueLayout
  import opened ElementQueueMachine
  import opened ElementQueueSafety

  /** MemElementQueueStorage: the shared indices, the length slots and the data. */
  class Storage {
    var elemHead: u32
    var bufHead: u32
    var elemTail: u32
    var bufTail: u32
    const elems: array<u32>
    const data: array<byte>

    constructor (nElems: nat, bufLen: nat)
      ensures Indices() == Shared(0, 0, 0, 0)
      ensures elems.Length == nElems && data.Length == bufLen && fresh(elems) && fresh(data)
    {
      elems := new u32[nElems](_ => 0);
      data := new byte[bufLen](_ => 0);
      elemHead, bufHead, elemTail, bufTail := 0, 0, 0, 0;
    }

    function Indices(): Shared reads this {
      Shared(elemHead, bufHead, elemTail, bufTail)
    }
  }

  class ElementQueue {
    const shared: Storage
    const elemMask: u32
    const bufMask: u32
    var elemHead: u32
    var bufHead: u32
    var elemTail: u32
    var bufTail: u32

    /** eq_init_contig after its checks. */
    constructor (storage: Storage)
      requires 0 < storage.elems.Length <= TWO32 && 0 < storage.data.Length <= TWO32
      ensures shared == storage && Sized()
      ensures View() == Queue(storage.elems.Length - 1, storage.data.Length - 1, storage.elemHead,
                              storage.bufHead, storage.elemTail, storage.bufTail)
    {
      shared := storage;
      elemMask, bufMask := storage.elems.Length - 1, storage.data.Length - 1;
      elemHead, bufHead := storage.elemHead, storage.bufHead;
      elemTail, bufTail := storage.elemTail, storage.bufTail;
    }

    function View(): Queue reads this {
      Queue(elemMask, bufMask, elemHead, bufHead, elemTail, bufTail)
    }

    predicate Sized() {
      elemMask + 1 == shared.elems.Length && bufMask + 1 == shared.data.Length
    }

    /** The writer's indices encode a state of a legal queue. */
    ghost predicate WriterSound() reads this {
      && Sized()
      && exists n: nat, h: nat, t: nat, g: nat ::
           Encodes(View(), shared.elems.Length, shared.data.Length, n, h, t, g)
    }

    /** The length in the head slot is trusted to describe a range of the buffer. */
    ghost predicate ReaderSound() reads this, shared.elems {
      && Sized()
      && var slot := And(elemHead, elemMask);
      && slot < shared.elems.Length
      && var len := shared.elems[slot];
      && match Take(View(), len)
         case Empty => true
         case Taken(offset, _) => offset + len <= shared.data.Length
    }

    method StartWriteBatch()
      modifies this
      ensures View() == old(View()).(elemHead := shared.elemHead, bufHead := shared.bufHead)
    {
      elemHead := shared.elemHead;
      bufHead := shared.bufHead;
    }

    method FinishWriteBatch()
      modifies shared
      ensures shared.Indices() == old(shared.Indices()).(bufTail := bufTail, elemTail := elemTail)
    {
      shared.bufTail := bufTail;
      shared.elemTail := elemTail;
    }

    method StartReadBatch()
      modifies this
      ensures View() == old(View()).(elemTail := shared.elemTail)
    {
      elemTail := shared.elemTail;
    }

    method FinishReadBatch()
      modifies shared
      ensures shared.Indices() == old(shared.Indices()).(bufHead := bufHead, elemHead := elemHead)
    {
      shared.bufHead := bufHead;
      shared.elemHead := elemHead;
    }

    /** eq_write: the offset to write at, or a negative error. */
    method Reserve(len: u32) returns (r: int)
      requires WriterSound() && len <= MAX_LEN
      modifies this, shared.elems
      ensures match ElementQueueMachine.Reserve(old(View()), len)
              case TooLong => r == -EINVAL && View() == old(View()) && shared.elems[..] == old(shared.elems[..])
              case NoSpace => r == -ENOSPC && View() == old(View()) && shared.elems[..] == old(shared.elems[..])
              case Reserved(slot, offset, queue) =>
                && r == offset && View() == queue
                && offset + len <= shared.data.Length
                && slot < shared.elems.Length
                && shared.elems[..] == old(shared.elems[..])[slot := len]
    {
      hide And, NextOffset, AlignedLen, Wrap32;
      ghost var before := View();
      ReservationInBounds(before, shared.elems.Length, shared.data.Length, len);
      var aligned := AlignedLen(len);
      if aligned > bufMask { return -EINVAL; }
      if Wrap32(elemTail - elemHead) >= Wrap32(elemMask + 1) { return -ENOSPC; }
      var tail := NextOffset(bufTail, bufMask, aligned);
      if Wrap32(tail + aligned - bufHead) > Wrap32(bufMask + 1) { return -ENOSPC; }
      bufTail := Wrap32(tail + aligned);
      var slot := And(elemTail, elemMask);
      elemTail := Wrap32(elemTail + 1);
      shared.elems[slot] := len;
      return And(tail, bufMask);
    }

    /** ElementQueue::write(const std::string &): 0, or a negative error. */
    method Write(elem: bytes) returns (r: int)
      requires WriterSound() && |elem| <= MAX_LEN
      modifies this, shared.elems, shared.data
      ensures match ElementQueueMachine.Reserve(old(View()), |elem|)
              case TooLong =>
                && r == -EINVAL && View() == old(View())
                && shared.elems[..] == old(shared.elems[..]) && shared.data[..] == old(shared.data[..])
              case NoSpace =>
                && r == -ENOSPC && View() == old(View())
                && shared.elems[..] == old(shared.elems[..]) && shared.data[..] == old(shared.data[..])
              case Reserved(slot, offset, queue) =>
                && r == 0 && View() == queue
                && slot < shared.elems.Length && offset + |elem| <= shared.data.Length
                && shared.elems[..] == old(shared.elems[..])[slot := |elem|]
                && shared.data[..] == Patch(old(shared.data[..]), offset, elem)
    {
      hide ElementQueueMachine.Reserve;
      var offset := Reserve(|elem|);
      if offset < 0 { return offset; }
      Memcpy(shared.data, offset, elem);
      return 0;
    }

    /** ElementQueue::read(): the head element, or nothing when the queue is empty (-EAGAIN). */
    method Read() returns (r: Option<bytes>)
      requires ReaderSound()
      modifies this
      ensures elemTail == old(elemTail)
      ensures var len := shared.elems[And(old(elemHead), elemMask)];
              match Take(old(View()), len)
              case Empty => r == None && View() == old(View())
              case Taken(offset, queue) =>
                r == Some(shared.data[offset..offset + len]) && View() == queue
    {
      hide And, NextOffset, AlignedLen, Wrap32;
      if elemTail == elemHead { return None; }
      var len := shared.elems[And(elemHead, elemMask)];
      elemHead := Wrap32(elemHead + 1);
      var aligned := AlignedLen(len);
      var offset: int := NextOffset(bufHead, bufMask, aligned);
      bufHead := Wrap32(offset + aligned);
      var at := And(offset, bufMask);
      return Some(shared.data[at..at + len]);
    }

    /** eq_peek_offset and peek(char *&): the same bytes `Read` would return, nothing consumed. */
    method Peek() returns (r: Option<bytes>)
      requires ReaderSound()
      ensures var len := shared.elems[And(elemHead, elemMask)];
              match Take(View(), len)
              case Empty => r == None
              case Taken(offset, _) => r == Some(shared.data[offset..offset + len])
    {
      hide And, NextOffset, AlignedLen, Wrap32;
      if elemTail == elemHead { return None; }
      var len := shared.elems[And(elemHead, elemMask)];
      var at := And(NextOffset(bufHead, bufMask, AlignedLen(len)), bufMask);
      return Some(shared.data[at..at + len]);
    }
  }

  /** A reservation lies inside the slot array and the buffer. */
  lemma ReservationInBounds(q: Queue, size: nat, b: nat, len: u32)
    requires len <= MAX_LEN
    requires exists n: nat, h: nat, t: nat, g: nat :: Encodes(q, size, b, n, h, t, g)
    ensures match Reserve(q, len)
            case Reserved(slot, offset, _) => slot < size && offset + len <= b
            case _ => true
  {
    hide And, NextOffset, AlignedLen, Wrap32, Reserve, IsPow2, Pow2;
    var n: nat, h: nat, t: nat, g: nat :| Encodes(q, size, b, n, h, t, g);
    ReserveExact(q, size, b, n, h, t, g, len);
  }
}
