/**
  What the perf ring promises, for every interleaving of writer and reader: a FIFO of typed
  records, and nothing lost. The whole operations of `PerfRing` are runs of the step machine.
 */
module PerfRingTheorems {
  import opened Bits
  import opened Memory
  import opened PerfRingData
  import opened PerfRing
  import opened PerfRingSession
  import opened PerfRingMachine
  import opened PerfRingSafety

  /** `m` is the outcome of some interleaving on a new ring of `b` bytes. */
  ghost predicate Reachable(m: Machine, b: nat) {
    exists data: bytes, acts: seq<Action> :: IsRun(m, b, data, acts)
  }

  ghost predicate IsRun(m: Machine, b: nat, data: bytes, acts: seq<Action>) {
    |data| == b && Legal(b) && m == Run(Init(data), acts)
  }

  lemma {:induction false} RunKeeps(m: Machine, c: Counts, acts: seq<Action>) returns (c': Counts)
    requires Inv(m, c) && 0 < |m.data| <= TWO32
    ensures Inv(Run(m, acts), c')
    decreases |acts|
  {
    hide Inv, Exec;
    c' := c;
    if acts == [] {
    } else {
      StepKeeps(m, c, acts[0]);
      c' := RunKeeps(Exec(m, acts[0]), Track(m, c, acts[0]), acts[1..]);
    }
  }

  lemma ReachableInv(m: Machine, b: nat) returns (c: Counts)
    requires Reachable(m, b)
    ensures Inv(m, c) && 0 < |m.data| == b <= TWO32
  {
    hide Inv, Exec, IsPow2;
    var data: bytes, acts: seq<Action> :| IsRun(m, b, data, acts);
    Initially(data);
    c := RunKeeps(Init(data), Counts(0, 0), acts);
  }

  /**
    However the loads and stores of the two sides interleave, what the reader has returned is a
    prefix of what was published, which is a prefix of what was written: type for type and byte
    for byte, in order; and no access leaves the ring.
   */
  lemma Fifo(m: Machine, b: nat)
    requires Reachable(m, b)
    ensures !m.fault
    ensures |m.returned| <= m.published <= |m.recs|
    ensures forall j :: 0 <= j < |m.returned| ==> Returns(m.returned[j], m.recs[j])
  {
    hide IsPow2, Pos, BytesHold, Encoded, WriterAt, Align8;
    var c := ReachableInv(m, b);
  }

  // ----- nothing is lost -----

  predicate OfReader(a: Action) {
    a.LoadHead? || a.PeekType? || a.PeekSize? || a.CopyOut? || a.Pop? || a.StoreTail?
  }

  /** What a reader that wants everything published does next. */
  function NextReaderAction(m: Machine): Action {
    match m.rpc
    case RIdle => LoadHead
    case RBatch => if m.r.head == m.r.tail then StoreTail else PeekType
    case RTyped(_) => PeekSize
    case RCopying(_, size, got) => if HEADER + |got| < size then CopyOut else Pop
  }

  /** Progress inside one record. */
  function Phase(m: Machine): nat {
    match m.rpc
    case RBatch => if m.r.head == m.r.tail then 5 else 3
    case RIdle => 4
    case RTyped(_) => 2
    case RCopying(_, _, _) => 1
  }

  function Left(m: Machine): nat {
    if m.rpc.RCopying? && HEADER + |m.rpc.got| < m.rpc.size then m.rpc.size - |m.rpc.got| else 0
  }

  lemma HeadMeetsTail(m: Machine, c: Counts)
    requires Inv(m, c)
    ensures m.r.head == m.r.tail <==> |m.returned| == c.seen
  {
    hide Wrap32, IsPow2, BytesHold, WriterAt, ReaderAt, Align8, Pos;
    PosMonotone(m.recs, c.known, |m.returned|);
    PosMonotone(m.recs, |m.returned|, c.seen);
    PosMonotone(m.recs, c.seen, |m.recs|);
    EmptyIff(Pos(m.recs, |m.returned|), Pos(m.recs, c.seen));
  }

  lemma ReaderAdvances(m: Machine, c: Counts)
    requires Inv(m, c) && |m.returned| < m.published && 0 < |m.data| <= TWO32
    ensures var a := NextReaderAction(m);
            var m' := Exec(m, a);
            && OfReader(a) && m'.recs == m.recs && m'.published == m.published
            && (|m'.returned| == |m.returned| + 1
                || (m'.returned == m.returned
                    && (Phase(m') < Phase(m) || (Phase(m') == Phase(m) && Left(m') < Left(m)))))
  {
    hide Inv, Load16, Load32, Index, Wrap32;
    var a := NextReaderAction(m);
    StepKeeps(m, c, a);
    var m', c' := Exec(m, a), Track(m, c, a);
    NoFault(m', c');
    HeadMeetsTail(m, c);
    HeadMeetsTail(m', c');
  }

  lemma NoFault(m: Machine, c: Counts)
    requires Inv(m, c)
    ensures !m.fault
  {
  }

  lemma {:induction false} Drain(m: Machine, c: Counts) returns (acts: seq<Action>)
    requires Inv(m, c) && 0 < |m.data| <= TWO32
    ensures forall i :: 0 <= i < |acts| ==> OfReader(acts[i])
    ensures var m' := Run(m, acts);
            m'.recs == m.recs && m'.published == m.published && |m'.returned| >= m.published
    decreases m.published - |m.returned|, Phase(m), Left(m)
  {
    hide Inv, Exec, NextReaderAction, Phase, Left;
    acts := [];
    if |m.returned| >= m.published {
    } else {
      var a := NextReaderAction(m);
      ReaderAdvances(m, c);
      StepKeeps(m, c, a);
      var rest := Drain(Exec(m, a), Track(m, c, a));
      acts := [a] + rest;
      assert acts[1..] == rest;
    }
  }

  /** From every reachable state the reader, running alone, can return everything published. */
  lemma NothingLost(m: Machine, b: nat) returns (acts: seq<Action>)
    requires Reachable(m, b)
    ensures 0 < |m.data| <= TWO32 && forall i :: 0 <= i < |acts| ==> OfReader(acts[i])
    ensures var m' := Run(m, acts);
            && m'.recs == m.recs && |m'.returned| == m.published <= |m.recs|
            && forall j :: 0 <= j < m.published ==> Returns(m'.returned[j], m.recs[j])
  {
    hide Inv, Run, Returns;
    var c := ReachableInv(m, b);
    acts := Drain(m, c);
    var c' := RunKeeps(m, c, acts);
    ReturnedPrefix(Run(m, acts), c');
  }

  lemma ReturnedPrefix(m: Machine, c: Counts)
    requires Inv(m, c)
    ensures |m.returned| <= m.published <= |m.recs|
    ensures forall j :: 0 <= j < |m.returned| ==> Returns(m.returned[j], m.recs[j])
  {
    hide IsPow2, Pos, BytesHold, Encoded, WriterAt, Align8;
  }

  // ----- whole operations as runs -----

  function Repeat(a: Action, k: nat): (r: seq<Action>)
    ensures |r| == k
  {
    if k == 0 then [] else [a] + Repeat(a, k - 1)
  }

  lemma RunFirst(m: Machine, a: Action, rest: seq<Action>)
    requires 0 < |m.data| <= TWO32
    ensures Run(m, [a] + rest) == Run(Exec(m, a), rest)
  {
    assert ([a] + rest)[1..] == rest;
  }

  lemma RunEmpty(m: Machine)
    requires 0 < |m.data| <= TWO32
    ensures Run(m, []) == m
  {
  }

  /** One more byte of a circular copy. */
  lemma RingPatchStep(d: bytes, at: nat, s: bytes, done: nat)
    requires at < |d| && |s| <= |d| && done < |s|
    ensures (at + done) % |d| < |d|
    ensures Patch(RingPatch(d, at, s[..done]), (at + done) % |d|, [s[done]]) == RingPatch(d, at, s[..done + 1])
  {
    hide Patch, RingPatch;
    var b, before, after := |d|, RingPatch(d, at, s[..done]), RingPatch(d, at, s[..done + 1]);
    var x := (at + done) % b;
    var stored := Patch(before, x, [s[done]]);
    forall y: nat | y < b ensures stored[y] == after[y] {
      // y is the j-th byte going round from `at`
      var j := if y >= at then y - at else y + b - at;
      assert (at + j) % b == y by { WrapOnce(at + j, b); }
      RingPatchAt(d, at, s[..done], j);
      RingPatchAt(d, at, s[..done + 1], j);
      PatchAt(before, x, [s[done]], y);
      if j < done { ModDistinct(at + j, at + done, b); }
      if j > done { ModDistinct(at + done, at + j, b); }
    }
  }

  lemma {:induction false} CopyInRun(m: Machine, p: nat, d: bytes)
    requires Legal(|m.data|) && m.wpc.WCopying? && m.wpc.base == Wrap32(p) && |d| == |m.data|
    requires m.wpc.done < |m.wpc.rec.payload| <= |d|
    requires m.data == RingPatch(d, (p + HEADER) % |d|, m.wpc.rec.payload[..m.wpc.done])
    ensures Run(m, Repeat(CopyIn, |m.wpc.rec.payload| - m.wpc.done))
            == m.(data := RingPatch(d, (p + HEADER) % |d|, m.wpc.rec.payload), wpc := WBatch)
    decreases |m.wpc.rec.payload| - m.wpc.done
  {
    hide Patch, RingPatch, Index, Wrap32, IsPow2, Repeat, Run;
    var WCopying(base, rec, done) := m.wpc;
    var at, left := (p + HEADER) % |d|, |rec.payload| - done;
    IndexExact(m, p, HEADER + done);
    assert (p + (HEADER + done)) % |d| == (at + done) % |d| by { ModOfSum(p + HEADER, done, |d|); }
    RingPatchStep(d, at, rec.payload, done);
    var m1 := Exec(m, CopyIn);
    RepeatFirst(CopyIn, left);
    RunFirst(m, CopyIn, Repeat(CopyIn, left - 1));
    if left == 1 {
      assert rec.payload[..done + 1] == rec.payload;
      RepeatNone(CopyIn);
      RunEmpty(m1);
    } else {
      CopyInRun(m1, p, d);
    }
  }

  lemma RepeatFirst(a: Action, k: nat)
    requires k > 0
    ensures Repeat(a, k) == [a] + Repeat(a, k - 1)
  {
  }

  lemma RepeatNone(a: Action)
    ensures Repeat(a, 0) == []
  {
  }

  function WriteActions(rec: Record): seq<Action> {
    [Write(rec)] + ([StoreSize] + ([StoreType] + Repeat(CopyIn, |rec.payload|)))
  }

  /**
    PerfRing::write as a run: an accepted record's loads and stores, one by one, leave the ring as
    the whole operation does.
   */
  lemma WriteRun(m: Machine, c: Counts, rec: Record)
    requires Inv(m, c) && m.wpc.WBatch? && |rec.payload| < 0x1_0000 && 0 < |m.data| <= TWO32
    requires |Exec(m, Write(rec)).recs| == |m.recs| + 1
    ensures var p, n := Pos(m.recs, |m.recs|), RecordSize(|rec.payload|);
            && n < 0x1_0000 && n <= |m.data| && |m.data| % 8 == 0
            && Run(m, WriteActions(rec))
               == m.(data := WriteRaw(m.data, p, rec.typ, n, rec.payload),
                     w := m.w.(tail := Wrap32(p + n)), recs := m.recs + [rec])
  {
    hide Patch, RingPatch, Exec, Wrap32, IsPow2, Repeat, Run, Align8, Bytes16, Bytes32, Inv, Pos, Legal;
    var p, n := Pos(m.recs, |m.recs|), RecordSize(|rec.payload|);
    WriterIdle(m, c);
    AcceptEffect(m, c, rec);
    StoreEffects(m.(w := m.w.(tail := Wrap32(p + n)), recs := m.recs + [rec]), p, n, rec);
    var m1 := Exec(m, Write(rec));
    var m2 := Exec(m1, StoreSize);
    var m3 := Exec(m2, StoreType);
    RunFirst(m, Write(rec), [StoreSize] + ([StoreType] + Repeat(CopyIn, |rec.payload|)));
    RunFirst(m1, StoreSize, [StoreType] + Repeat(CopyIn, |rec.payload|));
    RunFirst(m2, StoreType, Repeat(CopyIn, |rec.payload|));
    HeaderInPlace(p, |m.data|);
    HeaderCommutes(m.data, p % |m.data|, Bytes32(rec.typ), Bytes16(n));
    PatchNothingRound(m3.data, (p + HEADER) % |m.data|);
    if rec.payload == [] {
      RepeatNone(CopyIn);
      RunEmpty(m3);
    } else {
      assert rec.payload[..0] == [];
      CopyInRun(m3, p, m3.data);
    }
  }

  lemma AcceptEffect(m: Machine, c: Counts, rec: Record)
    requires Inv(m, c) && m.wpc.WBatch? && |rec.payload| < 0x1_0000 && 0 < |m.data| <= TWO32
    requires |Exec(m, Write(rec)).recs| == |m.recs| + 1
    ensures var p, n := Pos(m.recs, |m.recs|), RecordSize(|rec.payload|);
            && n < 0x1_0000 && n <= |m.data|
            && Exec(m, Write(rec))
               == m.(w := m.w.(tail := Wrap32(p + n)), wpc := WSizing(Wrap32(p), n, rec), recs := m.recs + [rec])
  {
    hide Wrap32, IsPow2, And, Align8, Inv, Pos, Legal;
    WriterIdle(m, c);
    AlignedSize(|rec.payload|);
    WrapAdd(Pos(m.recs, |m.recs|), RecordSize(|rec.payload|));
  }

  /** The two header stores. */
  lemma StoreEffects(m: Machine, p: nat, n: u16, rec: Record)
    requires Legal(|m.data|) && |m.data| % 8 == 0 && p % 8 == 0 && 0 < |m.data| <= TWO32
    ensures var off := p % |m.data|;
            && off + HEADER <= |m.data|
            && var m2 := m.(data := Patch(m.data, off + 6, Bytes16(n)), wpc := WTyping(Wrap32(p), rec));
            && Exec(m.(wpc := WSizing(Wrap32(p), n, rec)), StoreSize) == m2
            && Exec(m2, StoreType)
               == m.(data := Patch(m2.data, off, Bytes32(rec.typ)),
                     wpc := if rec.payload == [] then WBatch else WCopying(Wrap32(p), rec, 0))
  {
    hide Patch, Index, Wrap32, IsPow2, Bytes16, Bytes32;
    HeaderIndex(m, p);
  }

  lemma WriterIdle(m: Machine, c: Counts)
    requires Inv(m, c)
    ensures Legal(|m.data|) && |m.data| % 8 == 0
    ensures m.w.tail == Wrap32(Pos(m.recs, |m.recs|)) && Pos(m.recs, |m.recs|) % 8 == 0
  {
    hide Wrap32, IsPow2, BytesHold, ReaderAt, Align8;
  }

  lemma HeaderCommutes(d: bytes, off: nat, t: bytes, s: bytes)
    requires off + 8 <= |d| && |t| == 4 && |s| == 2
    ensures Patch(Patch(d, off + 6, s), off, t) == Patch(Patch(d, off, t), off + 6, s)
  {
    hide Patch;
    var l, r := Patch(Patch(d, off + 6, s), off, t), Patch(Patch(d, off, t), off + 6, s);
    forall k: nat | k < |d| ensures l[k] == r[k] {
      PatchAt(d, off + 6, s, k);
      PatchAt(d, off, t, k);
      PatchAt(Patch(d, off + 6, s), off, t, k);
      PatchAt(Patch(d, off, t), off + 6, s, k);
    }
  }

  lemma PatchNothingRound(d: bytes, at: nat)
    requires at < |d|
    ensures RingPatch(d, at, []) == d
  {
    PatchNothing(d, at);
  }

  lemma {:induction false} CopyOutRun(m: Machine, p: nat)
    requires Legal(|m.data|) && m.rpc.RCopying? && m.r.head == Wrap32(p)
    requires HEADER + |m.rpc.got| <= m.rpc.size
    ensures var left := m.rpc.size - HEADER - |m.rpc.got|;
            Run(m, Repeat(CopyOut, left))
            == m.(rpc := m.rpc.(got := m.rpc.got + RingRead(m.data, p + HEADER + |m.rpc.got|, left)))
    decreases m.rpc.size - |m.rpc.got|
  {
    hide Index, Wrap32, IsPow2, Repeat, Run, RingRead;
    var RCopying(typ, size, got) := m.rpc;
    var left := size - HEADER - |got|;
    if left == 0 {
      RepeatNone(CopyOut);
      RunEmpty(m);
      EmptyRead(m.data, p + HEADER + |got|);
      assert got + [] == got;
    } else {
      IndexExact(m, p, HEADER + |got|);
      var m1 := Exec(m, CopyOut);
      RepeatFirst(CopyOut, left);
      RunFirst(m, CopyOut, Repeat(CopyOut, left - 1));
      CopyOutRun(m1, p);
      FirstRead(m.data, p + HEADER + |got|, left);
      var x := m.data[(p + HEADER + |got|) % |m.data|];
      assert got + [x] + RingRead(m.data, p + HEADER + |got| + 1, left - 1)
             == got + ([x] + RingRead(m.data, p + HEADER + |got| + 1, left - 1));
    }
  }

  lemma FirstRead(d: bytes, p: nat, n: nat)
    requires |d| > 0 && n > 0
    ensures RingRead(d, p, n) == [d[p % |d|]] + RingRead(d, p + 1, n - 1)
  {
    var l, r := RingRead(d, p, n), [d[p % |d|]] + RingRead(d, p + 1, n - 1);
    forall i: nat | i < n ensures l[i] == r[i] {
      assert p + 1 + (i - 1) == p + i;
    }
  }

  function ReadActions(rec: Record): seq<Action> {
    [PeekType] + ([PeekSize] + (Repeat(CopyOut, RecordSize(|rec.payload|) - HEADER) + [Pop]))
  }

  /** The peeks and PerfRing::read as a run: the type and the circular read behind the header. */
  lemma ReadRun(m: Machine, c: Counts)
    requires Inv(m, c) && m.rpc.RBatch? && |m.returned| < c.seen && 0 < |m.data| <= TWO32
    ensures var j := |m.returned|;
            && j < |m.recs|
            && var rec, p := m.recs[j], Pos(m.recs, j);
            var n := RecordSize(|rec.payload|);
            Run(m, ReadActions(rec))
            == m.(r := m.r.(head := Wrap32(p + n)),
                  returned := m.returned + [(rec.typ, RingRead(m.data, p + HEADER, n - HEADER))])
  {
    hide Exec, Index, Wrap32, IsPow2, Repeat, Run, RingRead, Inv, Pos, Align8, Legal;
    ReaderIdle(m, c);
    var rec, p := m.recs[|m.returned|], Pos(m.recs, |m.returned|);
    var n := RecordSize(|rec.payload|);
    var got := RingRead(m.data, p + HEADER, n - HEADER);
    PeekEffects(m, c, got);
    var m1, m2 := m.(rpc := RTyped(rec.typ)), m.(rpc := RCopying(rec.typ, n, []));
    var copies := Repeat(CopyOut, n - HEADER);
    RunFirst(m, PeekType, [PeekSize] + (copies + [Pop]));
    RunFirst(m1, PeekSize, copies + [Pop]);
    CopyOutRun(m2, p);
    assert [] + got == got;
    RunLast(m2, copies, Pop);
  }

  /** The two header loads before the copy and the one after it. */
  lemma PeekEffects(m: Machine, c: Counts, got: bytes)
    requires Inv(m, c) && m.rpc.RBatch? && |m.returned| < c.seen && 0 < |m.data| <= TWO32
    requires |m.returned| < |m.recs| && HEADER + |got| == RecordSize(|m.recs[|m.returned|].payload|) < 0x1_0000
    ensures var rec, p := m.recs[|m.returned|], Pos(m.recs, |m.returned|);
            var n := RecordSize(|rec.payload|);
            && Exec(m, PeekType) == m.(rpc := RTyped(rec.typ))
            && Exec(m.(rpc := RTyped(rec.typ)), PeekSize) == m.(rpc := RCopying(rec.typ, n, []))
            && Exec(m.(rpc := RCopying(rec.typ, n, got)), Pop)
               == m.(r := m.r.(head := Wrap32(p + n)), returned := m.returned + [(rec.typ, got)])
  {
    hide Index, Wrap32, IsPow2, Inv, Pos, Load16, Load32, Align8, Legal;
    ReaderIdle(m, c);
    HeadMeetsTail(m, c);
    HeadWords(m, c);
    WrapAdd(Pos(m.recs, |m.returned|), RecordSize(|m.recs[|m.returned|].payload|));
  }

  lemma ReaderIdle(m: Machine, c: Counts)
    requires Inv(m, c) && |m.returned| < c.seen
    ensures Legal(|m.data|) && |m.returned| < |m.recs| && m.r.head == Wrap32(Pos(m.recs, |m.returned|))
    ensures RecordSize(|m.recs[|m.returned|].payload|) < 0x1_0000
  {
    hide Wrap32, IsPow2, BytesHold, ReaderAt, WriterAt, Align8, Pos;
  }

  lemma {:induction false} RunLast(m: Machine, acts: seq<Action>, a: Action)
    requires 0 < |m.data| <= TWO32
    ensures Run(m, acts + [a]) == Exec(Run(m, acts), a)
    decreases |acts|
  {
    hide Exec;
    if acts == [] {
      assert [] + [a] == [a] && [a][1..] == [];
      RunEmpty(Exec(m, a));
    } else {
      assert (acts + [a])[1..] == acts[1..] + [a];
      RunLast(Exec(m, acts[0]), acts[1..], a);
    }
  }
}
