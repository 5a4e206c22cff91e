/**
  The single-producer single-consumer element queue as a step machine.

  Writer and reader each own a private `Queue` (struct element_queue) over one shared block
  (struct element_queue_shared, `elems[]`, `data[]`). Each `Action` performs at most one load or
  store of the shared block, so a list of actions is an interleaving of the two sides. Memory is
  sequentially consistent. An action whose side is at another program point does nothing.
 */
module ElementQueueMachine {
  import opened Bits
  import opened Memory
  import opened ElementQueueLayout

  /** The private indices of struct element_queue. */
  datatype Queue = Queue(
    elemMask: u32, bufMask: u32,
    elemHead: u32, bufHead: u32, elemTail: u32, bufTail: u32)

  /** struct element_queue_shared */
  datatype Shared = Shared(elemHead: u32, bufHead: u32, elemTail: u32, bufTail: u32)

  datatype Reservation =
    | TooLong                                             // -EINVAL
    | NoSpace                                             // -ENOSPC
    | Reserved(slot: u32, offset: u32, queue: Queue)

  datatype Taken =
    | Empty                                               // -EAGAIN
    | Taken(offset: u32, queue: Queue)

  // ----- eq_write and eq_read, without their accesses to the shared arrays -----

  function Reserve(q: Queue, len: u32): (r: Reservation) {
    var aligned := AlignedLen(len);
    if aligned > q.bufMask then TooLong
    else if Wrap32(q.elemTail - q.elemHead) >= Wrap32(q.elemMask + 1) then NoSpace
    else
      var tail := NextOffset(q.bufTail, q.bufMask, aligned);
      if Wrap32(tail + aligned - q.bufHead) > Wrap32(q.bufMask + 1) then NoSpace
      else Reserved(
          And(q.elemTail, q.elemMask),
          And(tail, q.bufMask),
          q.(bufTail := Wrap32(tail + aligned), elemTail := Wrap32(q.elemTail + 1)))
  }

  /** eq_read, given the length found in the slot of the head element. */
  function Take(q: Queue, len: u32): (r: Taken) {
    if q.elemTail == q.elemHead then Empty
    else
      var aligned := AlignedLen(len);
      var offset := NextOffset(q.bufHead, q.bufMask, aligned);
      Taken(
        And(offset, q.bufMask),
        q.(elemHead := Wrap32(q.elemHead + 1), bufHead := Wrap32(offset + aligned)))
  }

  // ----- the machine -----

  datatype WriterPc =
    | WIdle                                               // outside a batch
    | WStarting                                           // elem_head loaded, buf_head not yet
    | WBatch                                              // inside a batch
    | WCopying(at: nat, elem: bytes, done: nat)           // copying an element into its range
    | WPublishing                                         // buf_tail stored, elem_tail not yet

  datatype ReaderPc =
    | RIdle
    | RBatch
    | RCopying(from: nat, len: nat, got: bytes)           // copying an element out
    | RReleasing                                          // buf_head stored, elem_head not yet

  datatype Machine = Machine(
    shared: Shared, elems: seq<u32>, data: bytes,
    w: Queue, wpc: WriterPc,
    r: Queue, rpc: ReaderPc,
    accepted: seq<bytes>,   // elements eq_write accepted, in order
    published: nat,         // how many of them the last store of elem_tail covered
    returned: seq<bytes>,   // elements the reader has returned, in order
    released: nat,          // how many of them the last store of buf_head covered
    fault: bool)            // an access fell outside elems[] or data[]

  datatype Action =
    | LoadElemHead | LoadBufHead                          // eq_start_write_batch
    | Write(elem: bytes) | CopyIn                         // ElementQueue::write
    | StoreBufTail | StoreElemTail                        // eq_finish_write_batch
    | LoadElemTail                                        // eq_start_read_batch
    | Read | CopyOut                                      // ElementQueue::read
    | StoreBufHead | StoreElemHead                        // eq_finish_read_batch

  function Exec(m: Machine, a: Action): (m': Machine) {
    match a
    case LoadElemHead =>
      if m.wpc.WIdle? then m.(w := m.w.(elemHead := m.shared.elemHead), wpc := WStarting) else m
    case LoadBufHead =>
      if m.wpc.WStarting? then m.(w := m.w.(bufHead := m.shared.bufHead), wpc := WBatch) else m
    case Write(elem) =>
      if m.wpc.WBatch? && |elem| <= MAX_LEN then ExecWrite(m, elem) else m
    case CopyIn =>
      if m.wpc.WCopying? then ExecCopyIn(m) else m
    case StoreBufTail =>
      if m.wpc.WBatch? then m.(shared := m.shared.(bufTail := m.w.bufTail), wpc := WPublishing) else m
    case StoreElemTail =>
      if m.wpc.WPublishing?
      then m.(shared := m.shared.(elemTail := m.w.elemTail), published := |m.accepted|, wpc := WIdle)
      else m
    case LoadElemTail =>
      if m.rpc.RIdle? then m.(r := m.r.(elemTail := m.shared.elemTail), rpc := RBatch) else m
    case Read =>
      if m.rpc.RBatch? then ExecRead(m) else m
    case CopyOut =>
      if m.rpc.RCopying? then ExecCopyOut(m) else m
    case StoreBufHead =>
      if m.rpc.RBatch?
      then m.(shared := m.shared.(bufHead := m.r.bufHead), released := |m.returned|, rpc := RReleasing)
      else m
    case StoreElemHead =>
      if m.rpc.RReleasing? then m.(shared := m.shared.(elemHead := m.r.elemHead), rpc := RIdle) else m
  }

  function ExecWrite(m: Machine, elem: bytes): (m': Machine)
    requires |elem| <= MAX_LEN
  {
    match Reserve(m.w, |elem|)
    case TooLong => m
    case NoSpace => m
    case Reserved(slot, offset, queue) =>
      if slot >= |m.elems| then m.(fault := true)
      else m.(elems := m.elems[slot := |elem|],
              w := queue,
              wpc := if elem == [] then WBatch else WCopying(offset, elem, 0),
              accepted := m.accepted + [elem])
  }

  function ExecCopyIn(m: Machine): (m': Machine)
    requires m.wpc.WCopying?
  {
    var WCopying(at, elem, done) := m.wpc;
    if done >= |elem| || at + done >= |m.data| then m.(fault := true)
    else m.(data := m.data[at + done := elem[done]],
            wpc := if done + 1 == |elem| then WBatch else WCopying(at, elem, done + 1))
  }

  function ExecRead(m: Machine): (m': Machine) {
    var slot := And(m.r.elemHead, m.r.elemMask);
    if m.r.elemTail == m.r.elemHead then m
    else if slot >= |m.elems| then m.(fault := true)
    else
      var len := m.elems[slot];
      match Take(m.r, len)
      case Empty => m
      case Taken(offset, queue) =>
        m.(r := queue,
           rpc := if len == 0 then RBatch else RCopying(offset, len, []),
           returned := if len == 0 then m.returned + [[]] else m.returned)
  }

  function ExecCopyOut(m: Machine): (m': Machine)
    requires m.rpc.RCopying?
  {
    var RCopying(from, len, got) := m.rpc;
    if from + |got| >= |m.data| then m.(fault := true)
    else
      var got' := got + [m.data[from + |got|]];
      if |got'| == len
      then m.(rpc := RBatch, returned := m.returned + [got'])
      else m.(rpc := RCopying(from, len, got'))
  }

  /** eq_init_shared and eq_init_contig: all indices zero, whatever `elems[]` and `data[]` hold. */
  function Init(elems: seq<u32>, data: bytes): (m: Machine)
    requires 0 < |elems| <= TWO32 && 0 < |data| <= TWO32
  {
    var q := Queue(|elems| - 1, |data| - 1, 0, 0, 0, 0);
    Machine(Shared(0, 0, 0, 0), elems, data, q, WIdle, q, RIdle, [], 0, [], 0, false)
  }

  function Run(m: Machine, acts: seq<Action>): (m': Machine)
    decreases |acts|
  {
    if acts == [] then m else Run(Exec(m, acts[0]), acts[1..])
  }

  // ----- unbounded positions of every index, and the invariant -----

  /** Unbounded element counts behind the wrapped indices. */
  datatype Counts = Counts(
    wElem: nat, wBuf: nat,   // the writer's snapshots of elem_head and buf_head
    sElem: nat,              // shared elem_head; shared buf_head is at `released`
    read: nat,               // the reader's elem_head
    seen: nat)               // the reader's snapshot of elem_tail

  /** How the counts move; nothing in `Exec` depends on them. */
  function Track(m: Machine, c: Counts, a: Action): (c': Counts) {
    match a
    case LoadElemHead => if m.wpc.WIdle? then c.(wElem := c.sElem) else c
    case LoadBufHead => if m.wpc.WStarting? then c.(wBuf := m.released) else c
    case LoadElemTail => if m.rpc.RIdle? then c.(seen := m.published) else c
    case Read => if m.rpc.RBatch? && m.r.elemTail != m.r.elemHead then c.(read := c.read + 1) else c
    case StoreElemHead => if m.rpc.RReleasing? then c.(sElem := c.read) else c
    case _ => c
  }

  ghost predicate Sized(m: Machine) {
    && Legal(|m.elems|, |m.data|)
    && m.w.elemMask == m.r.elemMask == |m.elems| - 1
    && m.w.bufMask == m.r.bufMask == |m.data| - 1
    && AllFit(m.accepted, |m.data|)
    && !m.fault
  }

  predicate Ordered(m: Machine, c: Counts) {
    && c.wElem <= c.sElem <= m.released <= c.read <= c.seen <= m.published <= |m.accepted|
    && c.wBuf <= m.released
    && (m.wpc.WCopying? ==> m.published < |m.accepted|)
    && (m.rpc.RCopying? ==> m.released < c.read)
    && (m.rpc.RReleasing? ==> m.released == c.read)
  }

  /** Position after `k` accepted elements. */
  function Pos(m: Machine, k: nat): nat
    requires k <= |m.accepted| && |m.data| > 0
  {
    End(m.accepted, k, |m.data|)
  }

  predicate Encoded(m: Machine, c: Counts)
    requires Ordered(m, c) && |m.data| > 0
  {
    var n := |m.accepted|;
    && m.w.elemTail == Wrap32(n) && m.w.bufTail == Wrap32(Pos(m, n))
    && m.w.elemHead == Wrap32(c.wElem) && m.w.bufHead == Wrap32(Pos(m, c.wBuf))
    && m.shared.elemTail == Wrap32(m.published)
    && m.shared.elemHead == Wrap32(c.sElem) && m.shared.bufHead == Wrap32(Pos(m, m.released))
    && m.r.elemTail == Wrap32(c.seen)
    && m.r.elemHead == Wrap32(c.read) && m.r.bufHead == Wrap32(Pos(m, c.read))
    && n - c.wElem <= |m.elems|
    && Pos(m, n) - Pos(m, c.wBuf) <= |m.data|
  }

  /** Bytes of element `j` that are already in the buffer. */
  function Copied(m: Machine, j: nat): nat
    requires j < |m.accepted|
  {
    if m.wpc.WCopying? && j == |m.accepted| - 1 then m.wpc.done else |m.accepted[j]|
  }

  predicate WriterAt(m: Machine)
    requires |m.data| > 0
  {
    m.wpc.WCopying? ==>
      var n := |m.accepted|;
      && n > 0
      && m.wpc.elem == m.accepted[n - 1]
      && m.wpc.done < |m.wpc.elem|
      && m.wpc.at == Start(m.accepted, n - 1, |m.data|) % |m.data|
  }

  predicate ReaderAt(m: Machine, c: Counts)
    requires Ordered(m, c) && |m.data| > 0
  {
    if m.rpc.RCopying? then
      var j := c.read - 1;
      && m.rpc.len == |m.accepted[j]|
      && |m.rpc.got| < m.rpc.len
      && m.rpc.got == m.accepted[j][..|m.rpc.got|]
      && m.rpc.from == Start(m.accepted, j, |m.data|) % |m.data|
      && m.returned == m.accepted[..j]
    else
      m.returned == m.accepted[..c.read]
  }

  predicate SlotsHold(m: Machine, c: Counts)
    requires |m.elems| > 0
  {
    forall j :: c.wElem <= j < |m.accepted| ==> m.elems[j % |m.elems|] == |m.accepted[j]|
  }

  predicate BytesHold(m: Machine, c: Counts)
    requires |m.data| > 0 && WriterAt(m)
  {
    forall j, i :: c.wBuf <= j < |m.accepted| && 0 <= i < Copied(m, j)
      ==> m.data[(Start(m.accepted, j, |m.data|) + i) % |m.data|] == m.accepted[j][i]
  }

  ghost predicate Inv(m: Machine, c: Counts) {
    && Sized(m)
    && Ordered(m, c)
    && Encoded(m, c)
    && WriterAt(m)
    && ReaderAt(m, c)
    && SlotsHold(m, c)
    && BytesHold(m, c)
  }
}
