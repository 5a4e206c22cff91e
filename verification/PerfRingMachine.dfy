/**
  The perf ring as a step machine (util/perf_ring.c, util/perf_ring.h, util/perf_ring_cpp.h).

  Writer and reader each own their buf_head and buf_tail and share data_head, data_tail and the
  ring's bytes. Each `Action` performs at most one load or store of shared memory, so a list of
  actions is an interleaving of the two sides. Memory is sequentially consistent. An action whose
  side is at another program point does nothing. Elements are shorter than 2^16 bytes; what
  longer ones do is the subject of `PerfRingNarrowing`.
 */
module PerfRingMachine {
  import opened Bits
  import opened Memory
  import opened PerfRingData
  import opened PerfRing
  import opened PerfRingSession

  /** The private buf_head and buf_tail. */
  datatype Ends = Ends(head: u32, tail: u32)

  datatype WriterPc =
    | WIdle                                             // outside a batch
    | WBatch                                            // inside a batch
    | WSizing(base: u32, size: u16, rec: Record)        // about to store the size field
    | WTyping(base: u32, rec: Record)                   // about to store the type field
    | WCopying(base: u32, rec: Record, done: nat)       // copying the payload

  datatype ReaderPc =
    | RIdle
    | RBatch
    | RTyped(typ: u32)                                  // the type is loaded
    | RCopying(typ: u32, size: u16, got: bytes)         // copying the payload out

  datatype Machine = Machine(
    dataHead: u32, dataTail: u32, data: bytes,
    w: Ends, wpc: WriterPc,
    r: Ends, rpc: ReaderPc,
    recs: seq<Record>,             // records pr_write accepted, in order
    published: nat,                // how many of them the last store of data_head covered
    returned: seq<(u32, bytes)>,   // type and padded payload of each record returned, in order
    released: nat,                 // how many of them the last store of data_tail covered
    fault: bool)                   // an access fell outside the ring

  datatype Action =
    | LoadTail                                          // pr_start_write_batch
    | Write(rec: Record) | StoreSize | StoreType        // pr_write
    | CopyIn                                            // PerfRing::write
    | StoreHead                                         // pr_finish_write_batch
    | LoadHead                                          // pr_start_read_batch
    | PeekType | PeekSize | CopyOut                     // pr_peek_type, pr_peek_size, pr_peek_copy
    | Pop                                               // pr_read
    | StoreTail                                         // pr_finish_read_batch

  /** The offset of a 32-bit position in a ring of `b` bytes. */
  function Index(b: nat, p: int): nat
    requires 0 < b <= TWO32
  {
    And(Wrap32(p), b - 1)
  }

  function Exec(m: Machine, a: Action): (m': Machine)
    requires 0 < |m.data| <= TWO32
    ensures |m'.data| == |m.data|
  {
    match a
    case LoadTail => if m.wpc.WIdle? then m.(w := m.w.(head := m.dataTail), wpc := WBatch) else m
    case Write(rec) => if m.wpc.WBatch? && |rec.payload| < 0x1_0000 then ExecWrite(m, rec) else m
    case StoreSize => if m.wpc.WSizing? then ExecStoreSize(m) else m
    case StoreType => if m.wpc.WTyping? then ExecStoreType(m) else m
    case CopyIn => if m.wpc.WCopying? then ExecCopyIn(m) else m
    case StoreHead =>
      if m.wpc.WBatch? then m.(dataHead := m.w.tail, published := |m.recs|, wpc := WIdle) else m
    case LoadHead => if m.rpc.RIdle? then m.(r := m.r.(tail := m.dataHead), rpc := RBatch) else m
    case PeekType => if m.rpc.RBatch? && m.r.head != m.r.tail then ExecPeekType(m) else m
    case PeekSize => if m.rpc.RTyped? then ExecPeekSize(m) else m
    case CopyOut => if m.rpc.RCopying? && HEADER + |m.rpc.got| < m.rpc.size then ExecCopyOut(m) else m
    case Pop => if m.rpc.RCopying? && HEADER + |m.rpc.got| >= m.rpc.size then ExecPop(m) else m
    case StoreTail =>
      if m.rpc.RBatch? then m.(dataTail := m.r.head, released := |m.returned|, rpc := RIdle) else m
  }

  /** The tests of pr_write; its private tail moves here, where nobody can see it. */
  function ExecWrite(m: Machine, rec: Record): Machine
    requires 0 < |m.data| <= TWO32
  {
    var mask := |m.data| - 1;
    var aligned := And(Wrap32(|rec.payload| + HEADER + 7), Not32(7));
    if aligned > mask || aligned >= 0x1_0000 then m
    else if Wrap32(m.w.tail + aligned - m.w.head) > Wrap32(mask + 1) then m
    else m.(w := m.w.(tail := Wrap32(m.w.tail + aligned)),
            wpc := WSizing(m.w.tail, aligned, rec),
            recs := m.recs + [rec])
  }

  function ExecStoreSize(m: Machine): (m': Machine)
    requires 0 < |m.data| <= TWO32 && m.wpc.WSizing?
    ensures |m'.data| == |m.data|
  {
    var off := Index(|m.data|, m.wpc.base);
    if off + HEADER > |m.data| then m.(fault := true)
    else m.(data := Patch(m.data, off + 6, Bytes16(m.wpc.size)), wpc := WTyping(m.wpc.base, m.wpc.rec))
  }

  function ExecStoreType(m: Machine): (m': Machine)
    requires 0 < |m.data| <= TWO32 && m.wpc.WTyping?
    ensures |m'.data| == |m.data|
  {
    var off := Index(|m.data|, m.wpc.base);
    if off + HEADER > |m.data| then m.(fault := true)
    else m.(data := Patch(m.data, off, Bytes32(m.wpc.rec.typ)),
            wpc := if m.wpc.rec.payload == [] then WBatch else WCopying(m.wpc.base, m.wpc.rec, 0))
  }

  function ExecCopyIn(m: Machine): (m': Machine)
    requires 0 < |m.data| <= TWO32 && m.wpc.WCopying?
    ensures |m'.data| == |m.data|
  {
    var WCopying(base, rec, done) := m.wpc;
    var i := Index(|m.data|, base + HEADER + done);
    if i >= |m.data| || done >= |rec.payload| then m.(fault := true)
    else m.(data := Patch(m.data, i, [rec.payload[done]]),
            wpc := if done + 1 == |rec.payload| then WBatch else WCopying(base, rec, done + 1))
  }

  function ExecPeekType(m: Machine): Machine
    requires 0 < |m.data| <= TWO32
  {
    var off := Index(|m.data|, m.r.head);
    if off + HEADER > |m.data| then m.(fault := true) else m.(rpc := RTyped(Load32(m.data[off..])))
  }

  function ExecPeekSize(m: Machine): Machine
    requires 0 < |m.data| <= TWO32 && m.rpc.RTyped?
  {
    var off := Index(|m.data|, m.r.head);
    if off + HEADER > |m.data| then m.(fault := true)
    else
      var size := Load16(m.data[off + 6..]);
      if size < HEADER then m.(fault := true) else m.(rpc := RCopying(m.rpc.typ, size, []))
  }

  function ExecCopyOut(m: Machine): Machine
    requires 0 < |m.data| <= TWO32 && m.rpc.RCopying?
  {
    var RCopying(typ, size, got) := m.rpc;
    var i := Index(|m.data|, m.r.head + HEADER + |got|);
    if i >= |m.data| then m.(fault := true) else m.(rpc := RCopying(typ, size, got + [m.data[i]]))
  }

  /** pr_read loads the size field again. */
  function ExecPop(m: Machine): Machine
    requires 0 < |m.data| <= TWO32 && m.rpc.RCopying?
  {
    var off := Index(|m.data|, m.r.head);
    if off + HEADER > |m.data| then m.(fault := true)
    else m.(r := m.r.(head := Wrap32(m.r.head + Load16(m.data[off + 6..]))),
            rpc := RBatch,
            returned := m.returned + [(m.rpc.typ, m.rpc.got)])
  }

  /** pr_init_contig on a zeroed page, whatever the ring holds. */
  function Init(data: bytes): (m: Machine) {
    Machine(0, 0, data, Ends(0, 0), WIdle, Ends(0, 0), RIdle, [], 0, [], 0, false)
  }

  function Run(m: Machine, acts: seq<Action>): (m': Machine)
    requires 0 < |m.data| <= TWO32
    ensures |m'.data| == |m.data|
    decreases |acts|
  {
    if acts == [] then m else Run(Exec(m, acts[0]), acts[1..])
  }

  // ----- unbounded positions, and the invariant -----

  /** Unbounded record counts behind the indices that are snapshots. */
  datatype Counts = Counts(
    known: nat,   // the writer's snapshot of data_tail
    seen: nat)    // the reader's snapshot of data_head

  function Track(m: Machine, c: Counts, a: Action): (c': Counts) {
    match a
    case LoadTail => if m.wpc.WIdle? then c.(known := m.released) else c
    case LoadHead => if m.rpc.RIdle? then c.(seen := m.published) else c
    case _ => c
  }

  /** The writer has accepted a record and not yet stored all of it. */
  predicate Writing(m: Machine) {
    m.wpc.WSizing? || m.wpc.WTyping? || m.wpc.WCopying?
  }

  predicate Ordered(m: Machine, c: Counts) {
    && c.known <= m.released <= |m.returned| <= c.seen <= m.published <= |m.recs|
    && (Writing(m) ==> m.published < |m.recs|)
    && (m.rpc.RTyped? || m.rpc.RCopying? ==> |m.returned| < c.seen)
  }

  ghost predicate Sized(m: Machine) {
    && Legal(|m.data|) && |m.data| % 8 == 0 && !m.fault
    && forall k :: 0 <= k < |m.recs| ==> RecordSize(|m.recs[k].payload|) < 0x1_0000
  }

  predicate Encoded(m: Machine, c: Counts)
    requires Ordered(m, c)
  {
    && m.w.head == Wrap32(Pos(m.recs, c.known)) && m.w.tail == Wrap32(Pos(m.recs, |m.recs|))
    && m.r.head == Wrap32(Pos(m.recs, |m.returned|)) && m.r.tail == Wrap32(Pos(m.recs, c.seen))
    && m.dataHead == Wrap32(Pos(m.recs, m.published))
    && m.dataTail == Wrap32(Pos(m.recs, m.released))
    && Pos(m.recs, |m.recs|) - Pos(m.recs, c.known) <= |m.data|
  }

  predicate WriterAt(m: Machine) {
    Writing(m) ==>
      && |m.recs| > 0
      && m.wpc.rec == m.recs[|m.recs| - 1]
      && m.wpc.base == Wrap32(Pos(m.recs, |m.recs| - 1))
      && (m.wpc.WSizing? ==> m.wpc.size == RecordSize(|m.wpc.rec.payload|))
      && (m.wpc.WCopying? ==> m.wpc.done < |m.wpc.rec.payload|)
  }

  /** The returned type and bytes are the record's, with padding of any value. */
  predicate Returns(v: (u32, bytes), rec: Record) {
    && v.0 == rec.typ
    && |v.1| == RecordSize(|rec.payload|) - HEADER
    && v.1[..|rec.payload|] == rec.payload
  }

  predicate ReaderAt(m: Machine, c: Counts)
    requires Ordered(m, c)
  {
    && (forall j :: 0 <= j < |m.returned| ==> Returns(m.returned[j], m.recs[j]))
    && (m.rpc.RTyped? ==> m.rpc.typ == m.recs[|m.returned|].typ)
    && (m.rpc.RCopying? ==>
          var rec := m.recs[|m.returned|];
          && m.rpc.typ == rec.typ
          && m.rpc.size == RecordSize(|rec.payload|)
          && HEADER + |m.rpc.got| <= m.rpc.size
          && forall i :: 0 <= i < |m.rpc.got| && i < |rec.payload| ==> m.rpc.got[i] == rec.payload[i])
  }

  /** Byte `i` of a record is part of its header fields or its payload. */
  predicate Meaningful(rec: Record, i: nat) {
    i < 4 || 6 <= i < HEADER + |rec.payload|
  }

  function Expected(rec: Record, i: nat): byte
    requires Meaningful(rec, i) && RecordSize(|rec.payload|) < 0x1_0000
  {
    if i < 4 then Bytes32(rec.typ)[i]
    else if i < HEADER then Bytes16(RecordSize(|rec.payload|))[i - 6]
    else rec.payload[i - HEADER]
  }

  /** Byte `i` of the newest record has been stored. */
  predicate StoredBy(pc: WriterPc, i: nat) {
    match pc
    case WSizing(_, _, _) => false
    case WTyping(_, _) => 6 <= i < HEADER
    case WCopying(_, _, done) => i < HEADER + done
    case _ => true
  }

  /** If it means anything, byte `i` of record `k` is in its place. */
  predicate ByteHeld(d: bytes, recs: seq<Record>, k: nat, i: nat)
    requires |d| > 0 && k < |recs|
  {
    Meaningful(recs[k], i) && RecordSize(|recs[k].payload|) < 0x1_0000
    ==> d[(Pos(recs, k) + i) % |d|] == Expected(recs[k], i)
  }

  /** Every stored byte of an unreleased record is in its place. */
  ghost predicate BytesHold(m: Machine, c: Counts)
    requires |m.data| > 0
  {
    forall k: nat, i: nat :: c.known <= k < |m.recs| && (k < |m.recs| - 1 || StoredBy(m.wpc, i))
      ==> ByteHeld(m.data, m.recs, k, i)
  }

  ghost predicate Inv(m: Machine, c: Counts) {
    && Sized(m)
    && Ordered(m, c)
    && Encoded(m, c)
    && WriterAt(m)
    && ReaderAt(m, c)
    && BytesHold(m, c)
  }
}
