/**
  What the element queue promises, for every interleaving of writer and reader:
  a FIFO of byte strings, disjoint ranges, nothing lost, and when a write is accepted.
 */
module ElementQueueTheorems {
  import opened Bits
  import opened Memory
  import opened ElementQueueLayout
  import opened ElementQueueMachine
  import opened ElementQueueSafety

  /** `m` is the outcome of some interleaving on a fresh queue of these sizes. */
  ghost predicate Reachable(m: Machine, size: nat, b: nat) {
    exists elems: seq<u32>, data: bytes, acts: seq<Action> ::
      IsRun(m, size, b, elems, data, acts)
  }

  ghost predicate IsRun(m: Machine, size: nat, b: nat, elems: seq<u32>, data: bytes, acts: seq<Action>) {
    && |elems| == size && |data| == b && Legal(size, b)
    && m == Run(Init(elems, data), acts)
  }

  lemma {:induction false} RunKeeps(m: Machine, c: Counts, acts: seq<Action>) returns (c': Counts)
    requires Inv(m, c)
    ensures Inv(Run(m, acts), c')
    decreases |acts|
  {
    hide Inv, Exec;
    c' := c;
    if acts == [] {
    } else {
      StepKeeps(m, c, acts[0]);
      c' := RunKeeps(Exec(m, acts[0]), Track(m, c, acts[0]), acts[1..]);
    }
  }

  lemma ReachableInv(m: Machine, size: nat, b: nat) returns (c: Counts)
    requires Reachable(m, size, b)
    ensures Inv(m, c) && |m.elems| == size && |m.data| == b
  {
    hide Inv, Exec;
    var elems: seq<u32>, data: bytes, acts: seq<Action> :| IsRun(m, size, b, elems, data, acts);
    Initially(elems, data);
    c := RunKeeps(Init(elems, data), Counts(0, 0, 0, 0, 0), acts);
    RunSizes(Init(elems, data), acts);
  }

  lemma {:induction false} RunSizes(m: Machine, acts: seq<Action>)
    ensures |Run(m, acts).elems| == |m.elems| && |Run(m, acts).data| == |m.data|
    decreases |acts|
  {
    if acts == [] {
    } else {
      RunSizes(Exec(m, acts[0]), acts[1..]);
    }
  }

  lemma {:induction false} RunAppend(m: Machine, acts: seq<Action>, a: Action)
    ensures Run(m, acts + [a]) == Exec(Run(m, acts), a)
    decreases |acts|
  {
    hide Exec;
    if acts != [] {
      assert (acts + [a])[1..] == acts[1..] + [a];
      RunAppend(Exec(m, acts[0]), acts[1..], a);
    } else {
      assert (acts + [a])[1..] == [];
    }
  }

  lemma ReachableStep(m: Machine, size: nat, b: nat, a: Action)
    requires Reachable(m, size, b)
    ensures Reachable(Exec(m, a), size, b)
  {
    hide Exec;
    var elems: seq<u32>, data: bytes, acts: seq<Action> :| IsRun(m, size, b, elems, data, acts);
    RunAppend(Init(elems, data), acts, a);
    assert IsRun(Exec(m, a), size, b, elems, data, acts + [a]);
  }

  // ----- FIFO -----

  /**
    The reader has returned a prefix of the published elements, byte for byte and in order; the
    published elements are a prefix of the accepted ones; no access left the buffers.
   */
  lemma Fifo(m: Machine, size: nat, b: nat)
    requires Reachable(m, size, b)
    ensures m.published <= |m.accepted|
    ensures m.returned <= m.accepted[..m.published]
    ensures !m.fault
  {
    var c := ReachableInv(m, size, b);
  }

  /** Reserved elements that are not released lie in pairwise disjoint contiguous ranges. */
  lemma RangesDisjoint(m: Machine, size: nat, b: nat, j: nat, k: nat)
    requires Reachable(m, size, b) && 0 < b
    requires m.released <= j < k < |m.accepted| && m.accepted[j] != [] && m.accepted[k] != []
    ensures var p, q := Offset(m.accepted, j, b), Offset(m.accepted, k, b);
            && p + |m.accepted[j]| <= b && q + |m.accepted[k]| <= b
            && (p + |m.accepted[j]| <= q || q + |m.accepted[k]| <= p)
  {
    hide Start, End, Wrap32, Place, Align8, SlotsHold, BytesHold, WriterAt, ReaderAt;
    var c := ReachableInv(m, size, b);
    var hist := m.accepted;
    EndMonotone(hist, k + 1, |hist|, b);
    Contiguous(hist, j, 0, b);
    Contiguous(hist, k, 0, b);
    RangesApart(hist, c.wBuf, j, k, b);
  }

  // ----- nothing is lost -----

  predicate IsReaderAction(a: Action) {
    a.LoadElemTail? || a.Read? || a.CopyOut? || a.StoreBufHead? || a.StoreElemHead?
  }

  /** How far the reader is from returning one more element. */
  function Phase(m: Machine): nat {
    match m.rpc
    case RCopying(_, _, _) => 0
    case RBatch => if m.r.elemTail != m.r.elemHead then 1 else 4
    case RIdle => 2
    case RReleasing => 3
  }

  function BytesLeft(m: Machine): int {
    if m.rpc.RCopying? then m.rpc.len - |m.rpc.got| else 0
  }

  /** The reader's next action when published elements remain. */
  function NextReaderAction(m: Machine): Action {
    match m.rpc
    case RCopying(_, _, _) => CopyOut
    case RBatch => if m.r.elemTail != m.r.elemHead then Read else StoreBufHead
    case RIdle => LoadElemTail
    case RReleasing => StoreElemHead
  }

  lemma ReaderAdvances(m: Machine, c: Counts)
    requires Inv(m, c) && |m.returned| < m.published
    ensures var m' := Exec(m, NextReaderAction(m));
            && m'.accepted == m.accepted && m'.published == m.published
            && (|m'.returned| == |m.returned| + 1
                || (m'.returned == m.returned && Phase(m') < Phase(m))
                || (m'.returned == m.returned && Phase(m') == Phase(m) && 0 <= BytesLeft(m') < BytesLeft(m)))
  {
    hide And, NextOffset, AlignedLen, Wrap32, Place, Align8, IsPow2, Pow2, Start, End, SlotsHold, BytesHold;
    StepKeeps(m, c, NextReaderAction(m));
    WrapDifference(m.published, c.read);
    WordIsItself(0);
  }

  lemma {:induction false} Drain(m: Machine, c: Counts) returns (acts: seq<Action>)
    requires Inv(m, c)
    ensures forall a :: a in acts ==> IsReaderAction(a)
    ensures Run(m, acts).returned == m.accepted[..m.published]
    decreases m.published - |m.returned|, Phase(m), BytesLeft(m)
  {
    hide Exec, Wrap32, Start, End, SlotsHold, BytesHold, Encoded, Sized;
    acts := [];
    if |m.returned| >= m.published {
    } else {
      var a := NextReaderAction(m);
      ReaderAdvances(m, c);
      StepKeeps(m, c, a);
      var rest := Drain(Exec(m, a), Track(m, c, a));
      acts := [a] + rest;
      assert acts[1..] == rest;
    }
  }

  /** From every reachable state the reader, running alone, can return all that is published. */
  lemma NothingLost(m: Machine, size: nat, b: nat)
    requires Reachable(m, size, b)
    ensures m.published <= |m.accepted|
    ensures exists acts: seq<Action> ::
              (forall a :: a in acts ==> IsReaderAction(a))
              && Run(m, acts).returned == m.accepted[..m.published]
  {
    hide Exec;
    var c := ReachableInv(m, size, b);
    var acts := Drain(m, c);
  }

  // ----- when a write is accepted -----

  /** The writer is in a batch and, as far as it can see, the queue is empty. */
  predicate SeesEmpty(m: Machine) {
    m.wpc.WBatch? && m.w.elemHead == m.w.elemTail && m.w.bufHead == m.w.bufTail
  }

  lemma EqualWhenWrapped(x: nat, y: nat)
    requires 0 <= x - y < TWO32 && Wrap32(x) == Wrap32(y)
    ensures x == y
  {
    WrapDifference(x, y);
  }

  /** An empty queue whose write offset is `p` has room for `a` bytes before or after the wrap. */
  predicate RoomWhenEmpty(p: nat, a: nat, b: nat) {
    a < b && (p + a <= b || a <= p)
  }

  lemma EmptyPlacement(p: nat, a: nat, b: nat)
    requires a < b
    ensures Place(p, a, b) + a - p <= b <==> RoomWhenEmpty(p % b, a, b)
  {
  }

  /** A writer that sees an empty queue is granted exactly what fits before or after the wrap. */
  lemma EmptyGrantsIff(m: Machine, c: Counts, len: nat)
    requires Inv(m, c) && SeesEmpty(m) && len <= MAX_LEN
    ensures Reserve(m.w, len).Reserved? <==> RoomWhenEmpty(m.w.bufTail % |m.data|, Align8(len), |m.data|)
    ensures Reserve(m.w, len).TooLong? <==> Align8(len) >= |m.data|
  {
    hide And, NextOffset, AlignedLen, Wrap32, Place, Align8, IsPow2, Pow2, Start, End, Reserve;
    hide SlotsHold, BytesHold, WriterAt, ReaderAt, RoomWhenEmpty;
    var n, size, b, a := |m.accepted|, |m.elems|, |m.data|, Align8(len);
    EndMonotone(m.accepted, c.wBuf, n, b);
    EqualWhenWrapped(n, c.wElem);
    EqualWhenWrapped(Pos(m, n), Pos(m, c.wBuf));
    assert m.w.bufTail % b == Pos(m, n) % b by { WrapMod(Pos(m, n), b); }
    ReserveExact(m.w, size, b, n, c.wElem, Pos(m, n), Pos(m, c.wBuf), len);
    if a < b { EmptyPlacement(Pos(m, n), a, b); } else { NoRoom(Pos(m, n) % b, a, b); }
  }

  /** Whatever the writer sees, what has no room in an empty queue is refused. */
  lemma NoRoomRefused(m: Machine, c: Counts, len: nat)
    requires Inv(m, c) && len <= MAX_LEN
    requires !RoomWhenEmpty(m.w.bufTail % |m.data|, Align8(len), |m.data|)
    ensures !Reserve(m.w, len).Reserved?
  {
    hide And, NextOffset, AlignedLen, Wrap32, Place, Align8, IsPow2, Pow2, Start, End, Reserve;
    hide SlotsHold, BytesHold, WriterAt, ReaderAt, RoomWhenEmpty;
    var n, size, b, a := |m.accepted|, |m.elems|, |m.data|, Align8(len);
    EndMonotone(m.accepted, c.wBuf, n, b);
    assert m.w.bufTail % b == Pos(m, n) % b by { WrapMod(Pos(m, n), b); }
    ReserveExact(m.w, size, b, n, c.wElem, Pos(m, n), Pos(m, c.wBuf), len);
    if a < b { EmptyPlacement(Pos(m, n), a, b); }
  }

  lemma NoRoom(p: nat, a: nat, b: nat)
    requires a >= b
    ensures !RoomWhenEmpty(p, a, b)
  {
  }

  lemma EmptyAccepts(m: Machine, c: Counts, len: nat)
    requires Inv(m, c) && SeesEmpty(m) && len <= MAX_LEN && 2 * Align8(len) <= |m.data|
    ensures Reserve(m.w, len).Reserved?
  {
    hide Inv, Reserve, Align8;
    InvSized(m, c);
    EmptyGrantsIff(m, c, len);
  }

  lemma InvSized(m: Machine, c: Counts)
    requires Inv(m, c)
    ensures |m.data| > 0
  {
  }

  /** One action, with the counts behind it. */
  lemma Do(m: Machine, c: Counts, size: nat, b: nat, a: Action) returns (m': Machine, c': Counts)
    requires Reachable(m, size, b) && Inv(m, c)
    ensures Reachable(m', size, b) && Inv(m', c')
    ensures m' == Exec(m, a) && c' == Track(m, c, a)
  {
    hide Exec, Inv;
    ReachableStep(m, size, b, a);
    StepKeeps(m, c, a);
    m', c' := Exec(m, a), Track(m, c, a);
  }

  /** The writer copies its element in, and publishes the batch. */
  lemma CopyInAndPublish(m: Machine, c: Counts, size: nat, b: nat) returns (m': Machine, c': Counts)
    requires Reachable(m, size, b) && Inv(m, c) && m.wpc.WCopying?
    ensures Reachable(m', size, b) && Inv(m', c')
    ensures m'.wpc.WIdle? && m'.accepted == m.accepted && m'.published == |m.accepted|
    ensures m'.rpc == m.rpc && m'.returned == m.returned && c' == c
  {
    hide Inv, Reachable;
    m', c' := m, c;
    while m'.wpc.WCopying?
      invariant Reachable(m', size, b) && Inv(m', c')
      invariant m'.wpc.WCopying? || m'.wpc.WBatch?
      invariant m'.accepted == m.accepted && m'.rpc == m.rpc && m'.returned == m.returned && c' == c
      decreases if m'.wpc.WCopying? then |m'.wpc.elem| - m'.wpc.done + 1 else 0
    {
      NotFaulty(m', c');
      m', c' := Do(m', c', size, b, CopyIn);
      NotFaulty(m', c');
    }
    m', c' := Do(m', c', size, b, StoreBufTail);
    m', c' := Do(m', c', size, b, StoreElemTail);
  }

  lemma NotFaulty(m: Machine, c: Counts)
    requires Inv(m, c)
    ensures !m.fault && (m.wpc.WCopying? ==> m.wpc.done < |m.wpc.elem|)
    ensures m.rpc.RCopying? ==> |m.rpc.got| < m.rpc.len
  {
  }

  /** The reader takes one element and releases it. */
  lemma ReadOne(m: Machine, c: Counts, size: nat, b: nat) returns (m': Machine, c': Counts)
    requires Reachable(m, size, b) && Inv(m, c)
    requires m.rpc.RIdle? && m.wpc.WIdle? && c.read < m.published
    ensures Reachable(m', size, b) && Inv(m', c')
    ensures m'.rpc.RIdle? && m'.wpc.WIdle? && m'.accepted == m.accepted && m'.published == m.published
    ensures c'.sElem == c.read + 1 == m'.released
  {
    hide Inv, Reachable, Take, And, Wrap32;
    m', c' := Do(m, c, size, b, LoadElemTail);
    ReadEnabled(m', c');
    m', c' := Do(m', c', size, b, Read);
    NotFaulty(m', c');
    while m'.rpc.RCopying?
      invariant Reachable(m', size, b) && Inv(m', c')
      invariant m'.rpc.RCopying? || m'.rpc.RBatch?
      invariant m'.wpc == m.wpc && m'.accepted == m.accepted && m'.published == m.published
      invariant c'.read == c.read + 1
      decreases if m'.rpc.RCopying? then m'.rpc.len - |m'.rpc.got| + 1 else 0
    {
      NotFaulty(m', c');
      m', c' := Do(m', c', size, b, CopyOut);
      NotFaulty(m', c');
    }
    AllReturned(m', c');
    m', c' := Do(m', c', size, b, StoreBufHead);
    m', c' := Do(m', c', size, b, StoreElemHead);
  }

  lemma AllReturned(m: Machine, c: Counts)
    requires Inv(m, c) && m.rpc.RBatch?
    ensures |m.returned| == c.read
  {
  }

  lemma ReadEnabled(m: Machine, c: Counts)
    requires Inv(m, c) && c.read < c.seen
    ensures m.r.elemTail != m.r.elemHead
  {
    hide Wrap32;
    WrapDifference(c.seen, c.read);
    WordIsItself(0);
  }

  /** An interleaving that leaves the queue empty with its write position in mid-buffer. */
  lemma EmptyAtMiddle(size: nat, b: nat) returns (m: Machine, c: Counts)
    requires Legal(size, b) && b >= 16
    ensures Reachable(m, size, b) && Inv(m, c) && m.wpc.WBatch?
    ensures |m.accepted| == c.wElem == c.wBuf == 1 && |m.accepted[0]| == b / 2
    ensures Align8(b / 2) == b / 2
  {
    hide Inv, Reachable, Reserve;
    SixteenDivides(b);
    m, c := Fresh(size, b);
    m, c := Do(m, c, size, b, LoadElemHead);
    m, c := Do(m, c, size, b, LoadBufHead);
    var elem: bytes := seq(b / 2, _ => 0);
    HalfIsAligned(b);
    var _ := ReachableInv(m, size, b);
    EmptyAccepts(m, c, |elem|);
    var before := m;
    m, c := Do(m, c, size, b, Write(elem));
    NotFaulty(m, c);
    assert m.accepted == before.accepted + [elem] && m.wpc.WCopying?;
    m, c := CopyInAndPublish(m, c, size, b);
    m, c := ReadOne(m, c, size, b);
    m, c := Do(m, c, size, b, LoadElemHead);
    m, c := Do(m, c, size, b, LoadBufHead);
  }

  lemma Fresh(size: nat, b: nat) returns (m: Machine, c: Counts)
    requires Legal(size, b)
    ensures Reachable(m, size, b) && Inv(m, c)
    ensures m.wpc.WIdle? && m.rpc.RIdle? && m.accepted == [] && m.returned == []
    ensures c == Counts(0, 0, 0, 0, 0)
    ensures m.w.elemTail == m.w.bufTail == m.shared.elemHead == m.shared.bufHead == 0
  {
    var elems: seq<u32>, data: bytes := seq(size, _ => 0), seq(b, _ => 0);
    m, c := Init(elems, data), Counts(0, 0, 0, 0, 0);
    Initially(elems, data);
    assert IsRun(m, size, b, elems, data, []);
  }

  lemma HalfIsAligned(b: nat)
    requires IsPow2(b) && b >= 16
    ensures Align8(b / 2) == b / 2 && b % 2 == 0
  {
    SixteenDivides(b);
  }

  lemma SixteenDivides(b: nat)
    requires IsPow2(b) && b > 8
    ensures b >= 16 && b % 16 == 0
  {
    var k: nat :| b == Pow2(k);
    assert Pow2(3) == 8 && Pow2(4) == 16;
    if k < 4 { Pow2Monotone(k, 3); }
    Pow2Add(k - 4, 4);
  }

  lemma MiddleRefuses(a: nat, b: nat)
    requires b % 2 == 0 && a < b < 2 * a
    ensures Place(b / 2, a, b) + a - b / 2 > b
  {
    ModWithin(b / 2, b);
  }

  /**
    eq_write accepts an element in every reachable state in which the writer sees an empty queue
    if and only if the aligned length is at most half the buffer.
   */
  lemma EmptyAcceptsIffHalf(size: nat, b: nat, len: nat)
    requires Legal(size, b) && len <= MAX_LEN
    ensures (forall m: Machine :: Reachable(m, size, b) && SeesEmpty(m) ==> Reserve(m.w, len).Reserved?)
            <==> 2 * Align8(len) <= b
  {
    hide Inv, Reachable, Reserve;
    var a := Align8(len);
    if 2 * a <= b {
      forall m: Machine | Reachable(m, size, b) && SeesEmpty(m) ensures Reserve(m.w, len).Reserved? {
        var c := ReachableInv(m, size, b);
        EmptyAccepts(m, c, len);
      }
    } else {
      var m := RefusedWhenEmpty(size, b, len);
      assert SeesEmpty(m);
    }
  }

  lemma RefusedWhenEmpty(size: nat, b: nat, len: nat) returns (m: Machine)
    requires Legal(size, b) && len <= MAX_LEN && 2 * Align8(len) > b
    ensures Reachable(m, size, b) && SeesEmpty(m) && !Reserve(m.w, len).Reserved?
  {
    hide And, NextOffset, AlignedLen, Wrap32, Reserve, Reachable, Inv;
    if Align8(len) >= b {
      var c: Counts;
      m, c := Fresh(size, b);
      m, c := Do(m, c, size, b, LoadElemHead);
      m, c := Do(m, c, size, b, LoadBufHead);
      WriterEncodes(m, c, size, b);
      ReserveExact(m.w, size, b, 0, 0, 0, 0, len);
    } else {
      m := RefusedAtMiddle(size, b, len);
    }
  }

  lemma RefusedAtMiddle(size: nat, b: nat, len: nat) returns (m: Machine)
    requires Legal(size, b) && len <= MAX_LEN && Align8(len) < b < 2 * Align8(len)
    ensures Reachable(m, size, b) && SeesEmpty(m) && !Reserve(m.w, len).Reserved?
  {
    hide And, NextOffset, AlignedLen, Wrap32, Place, Reserve, Reachable, Inv, Start, End;
    SixteenDivides(b);
    var c: Counts;
    m, c := EmptyAtMiddle(size, b);
    WriterEncodes(m, c, size, b);
    FirstEnd(m.accepted, b);
    MiddleRefuses(Align8(len), b);
    ReserveExact(m.w, size, b, 1, 1, Pos(m, 1), Pos(m, 1), len);
  }

  lemma FirstEnd(hist: seq<bytes>, b: nat)
    requires |hist| > 0 && Align8(|hist[0]|) <= b && b > 0
    ensures End(hist, 1, b) == Align8(|hist[0]|)
  {
    assert Start(hist, 0, b) == 0;
  }

  lemma WriterEncodes(m: Machine, c: Counts, size: nat, b: nat)
    requires Reachable(m, size, b) && Inv(m, c)
    ensures |m.data| == b > 0 && c.wBuf <= |m.accepted|
    ensures Encodes(m.w, size, b, |m.accepted|, c.wElem, Pos(m, |m.accepted|), Pos(m, c.wBuf))
  {
    hide Wrap32, Place, Align8, SlotsHold, BytesHold, Reachable, Start, End;
    var _ := ReachableInv(m, size, b);
    EndMonotone(m.accepted, c.wBuf, |m.accepted|, b);
  }
}
