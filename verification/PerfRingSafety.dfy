/**
  Safety of the perf ring over every interleaving: every action keeps the invariant `Inv`, so the
  ring is a FIFO of typed records.
 */
module PerfRingSafety {
  import opened Bits
  import opened Memory
  import opened PerfRingData
  import opened PerfRing
  import opened PerfRingSession
  import opened PerfRingMachine

  // ----- positions and offsets -----

  /** A store at position `x` of the window from `lo` on changes its own bytes and no others there. */
  lemma PatchAtPosition(d: bytes, lo: nat, x: nat, e: bytes, y: nat)
    requires |d| > 0 && e != [] && x % |d| + |e| <= |d|
    requires lo <= x && x + |e| <= lo + |d| && lo <= y < lo + |d|
    ensures Patch(d, x % |d|, e)[y % |d|] == if x <= y < x + |e| then e[y - x] else d[y % |d|]
  {
    hide Patch;
    var b := |d|;
    PatchAt(d, x % b, e, y % b);
    if x <= y < x + |e| {
      InBlock(x, y - x, b);
    } else if x % b <= y % b < x % b + |e| {
      var z := x + (y % b - x % b);
      InBlock(x, z - x, b);
      if z < y { ModDistinct(z, y, b); } else { ModDistinct(y, z, b); }
    }
  }

  lemma InBlock(x: nat, i: nat, b: nat)
    requires b > 0 && x % b + i < b
    ensures (x + i) % b == x % b + i
  {
    DivModUnique(x + i, b, x / b, x % b + i);
  }

  /** Masking a wrapped position gives the offset of the unbounded one. */
  lemma IndexExact(m: Machine, p: nat, i: nat)
    requires Legal(|m.data|)
    ensures Index(|m.data|, Wrap32(p) + i) == (p + i) % |m.data| < |m.data|
  {
    hide And, Wrap32, IsPow2;
    WrapAdd(p, i);
    WrapMod(p + i, |m.data|);
  }

  /** The header at a record's position lies in one piece. */
  lemma HeaderIndex(m: Machine, p: nat)
    requires Legal(|m.data|) && |m.data| % 8 == 0 && p % 8 == 0
    ensures Index(|m.data|, Wrap32(p)) == p % |m.data| && p % |m.data| + HEADER <= |m.data|
  {
    hide And, Wrap32, IsPow2;
    IndexExact(m, p, 0);
    HeaderInPlace(p, |m.data|);
  }

  /** Unreleased records lie in a window of the ring's size. */
  lemma InWindow(m: Machine, c: Counts, k: nat, i: nat)
    requires Ordered(m, c) && Encoded(m, c) && c.known <= k < |m.recs| && i < RecordSize(|m.recs[k].payload|)
    ensures var lo := Pos(m.recs, c.known);
            lo <= Pos(m.recs, k) + i < lo + |m.data| && Pos(m.recs, k) + i < Pos(m.recs, |m.recs|)
    ensures k < |m.recs| - 1 ==> Pos(m.recs, k) + i < Pos(m.recs, |m.recs| - 1)
  {
    hide Pos, Wrap32;
    PosMonotone(m.recs, c.known, k);
    PosMonotone(m.recs, k, |m.recs|);
    if k < |m.recs| - 1 { PosMonotone(m.recs, k, |m.recs| - 1); }
  }

  // ----- the writer -----

  /** The bytes `e` are the record's from byte `i0` on. */
  predicate Fills(rec: Record, i0: nat, e: bytes)
    requires RecordSize(|rec.payload|) < 0x1_0000
  {
    forall i :: i0 <= i < i0 + |e| ==> Meaningful(rec, i) && e[i - i0] == Expected(rec, i)
  }

  /** `m'` is `m` after `e` is stored as bytes `i0` on of the newest record. */
  ghost predicate Stores(m: Machine, i0: nat, e: bytes, m': Machine)
    requires Sized(m) && |m.recs| > 0
  {
    var rec, at := m.recs[|m.recs| - 1], (Pos(m.recs, |m.recs| - 1) + i0) % |m.data|;
    && e != [] && i0 + |e| <= RecordSize(|rec.payload|) && at + |e| <= |m.data|
    && m'.data == Patch(m.data, at, e) && m'.recs == m.recs
    && Fills(rec, i0, e)
    && forall i: nat :: Meaningful(rec, i) && StoredBy(m'.wpc, i) ==> StoredBy(m.wpc, i) || i0 <= i < i0 + |e|
  }

  /** The store and one byte of an unreleased record: it hits that byte, or misses it. */
  lemma StorePlace(m: Machine, c: Counts, i0: nat, e: bytes, k: nat, i: nat)
    requires Ordered(m, c) && Encoded(m, c) && |m.recs| > 0
    requires e != [] && i0 + |e| <= RecordSize(|m.recs[|m.recs| - 1].payload|)
    requires c.known <= k < |m.recs| && i < RecordSize(|m.recs[k].payload|)
    requires c.known <= |m.recs| - 1
    ensures var lo, x, y := Pos(m.recs, c.known), Pos(m.recs, |m.recs| - 1) + i0, Pos(m.recs, k) + i;
            && lo <= x && x + |e| <= lo + |m.data| && lo <= y < lo + |m.data|
            && (x <= y < x + |e| <==> k == |m.recs| - 1 && i0 <= i < i0 + |e|)
  {
    hide Wrap32, Pos, Align8, Encoded, Ordered;
    InWindow(m, c, |m.recs| - 1, i0);
    InWindow(m, c, |m.recs| - 1, i0 + |e| - 1);
    InWindow(m, c, k, i);
  }

  lemma StoreByte(d: bytes, lo: nat, x: nat, e: bytes, recs: seq<Record>, k: nat, i: nat)
    requires |d| > 0 && e != [] && x % |d| + |e| <= |d| && lo <= x && x + |e| <= lo + |d|
    requires k < |recs| && Meaningful(recs[k], i) && RecordSize(|recs[k].payload|) < 0x1_0000
    requires var y := Pos(recs, k) + i;
             && lo <= y < lo + |d|
             && if x <= y < x + |e| then e[y - x] == Expected(recs[k], i) else ByteHeld(d, recs, k, i)
    ensures ByteHeld(Patch(d, x % |d|, e), recs, k, i)
  {
    hide Patch, Pos, Expected, Align8;
    PatchAtPosition(d, lo, x, e, Pos(recs, k) + i);
  }

  lemma FillsAt(rec: Record, i0: nat, e: bytes, i: nat)
    requires RecordSize(|rec.payload|) < 0x1_0000 && Fills(rec, i0, e) && i0 <= i < i0 + |e|
    ensures Meaningful(rec, i) && e[i - i0] == Expected(rec, i)
  {
    hide Expected, Meaningful, Align8;
  }

  /** A store into the newest record puts its own bytes in place and no other byte out of place. */
  lemma StoreHolds(m: Machine, c: Counts, i0: nat, e: bytes, m': Machine)
    requires Sized(m) && Ordered(m, c) && Encoded(m, c) && BytesHold(m, c) && Writing(m) && |m.recs| > 0
    requires Stores(m, i0, e, m')
    ensures BytesHold(m', c)
  {
    hide Patch, Pos, Align8, Encoded, Expected, StoredBy, Fills, IsPow2, ByteHeld;
    var n, lo, x := |m.recs|, Pos(m.recs, c.known), Pos(m.recs, |m.recs| - 1) + i0;
    forall k: nat, i: nat | c.known <= k < n && (k < n - 1 || StoredBy(m'.wpc, i))
      ensures ByteHeld(m'.data, m.recs, k, i)
    {
      if Meaningful(m.recs[k], i) {
        StorePlace(m, c, i0, e, k, i);
        if k == n - 1 && i0 <= i < i0 + |e| { FillsAt(m.recs[k], i0, e, i); }
        StoreByte(m.data, lo, x, e, m.recs, k, i);
      } else {
        Meaningless(m'.data, m.recs, k, i);
      }
    }
  }

  lemma Meaningless(d: bytes, recs: seq<Record>, k: nat, i: nat)
    requires |d| > 0 && k < |recs| && !Meaningful(recs[k], i)
    ensures ByteHeld(d, recs, k, i)
  {
  }

  lemma WriteKeeps(m: Machine, c: Counts, rec: Record)
    requires Inv(m, c) && m.wpc.WBatch? && |rec.payload| < 0x1_0000
    ensures Inv(ExecWrite(m, rec), c)
  {
    hide And, Wrap32, IsPow2, Align8, ByteHeld, Pos, BytesHold;
    var m' := ExecWrite(m, rec);
    var n, h, t := |m.recs|, Pos(m.recs, c.known), Pos(m.recs, |m.recs|);
    PosMonotone(m.recs, c.known, n);
    AlignedSize(|rec.payload|);
    var size := RecordSize(|rec.payload|);
    if size <= |m.data| - 1 && size < 0x1_0000 {
      SpaceLeft(t, size, h);
      if m' != m {
        Appended(m.recs, rec);
        WrapAdd(t, size);
        AppendHolds(m, c, rec, m');
      }
    }
  }

  /** A record that has only been accepted disturbs none of the others. */
  lemma AppendHolds(m: Machine, c: Counts, rec: Record, m': Machine)
    requires |m.data| > 0 && BytesHold(m, c) && m.wpc.WBatch?
    requires m'.data == m.data && m'.recs == m.recs + [rec] && m'.wpc.WSizing?
    ensures BytesHold(m', c)
  {
    hide Pos, Expected, Align8;
    forall k: nat, i: nat | c.known <= k < |m'.recs| - 1 ensures ByteHeld(m'.data, m'.recs, k, i) {
      assert ByteHeld(m.data, m.recs, k, i);
      PosPrefix(m.recs, rec, k);
    }
  }

  /** Positions of earlier records do not move when one is appended. */
  lemma Appended(recs: seq<Record>, rec: Record)
    ensures forall k: nat :: k <= |recs| ==> Pos(recs + [rec], k) == Pos(recs, k)
    ensures Pos(recs + [rec], |recs| + 1) == Pos(recs, |recs|) + RecordSize(|rec.payload|)
  {
    forall k: nat | k <= |recs| ensures Pos(recs + [rec], k) == Pos(recs, k) {
      PosPrefix(recs, rec, k);
    }
    PosStep(recs + [rec], |recs|);
  }

  /** A step of the writer that moves no index. */
  lemma WriterMoved(m: Machine, c: Counts, m': Machine)
    requires Inv(m, c) && Writing(m) && m' == m.(data := m'.data, wpc := m'.wpc) && |m'.data| == |m.data|
    requires BytesHold(m', c) && WriterAt(m')
    ensures Inv(m', c)
  {
    hide Wrap32, IsPow2, Pos, Align8, BytesHold, WriterAt;
  }

  /** Where the record being written is. */
  lemma WriterPlace(m: Machine, c: Counts)
    requires Inv(m, c) && Writing(m)
    ensures 0 < |m.data| <= TWO32 && Legal(|m.data|) && |m.data| % 8 == 0
    ensures |m.recs| > 0 && m.wpc.rec == m.recs[|m.recs| - 1]
    ensures m.wpc.base == Wrap32(Pos(m.recs, |m.recs| - 1)) && Pos(m.recs, |m.recs| - 1) % 8 == 0
    ensures RecordSize(|m.wpc.rec.payload|) < 0x1_0000
    ensures m.wpc.WSizing? ==> m.wpc.size == RecordSize(|m.wpc.rec.payload|)
    ensures m.wpc.WCopying? ==> m.wpc.done < |m.wpc.rec.payload|
  {
    hide Wrap32, IsPow2, Align8, BytesHold, ReaderAt, Encoded;
  }

  lemma StoreSizeKeeps(m: Machine, c: Counts)
    requires Inv(m, c) && m.wpc.WSizing?
    ensures Inv(ExecStoreSize(m), c)
  {
    hide And, Wrap32, IsPow2, Pos, Bytes16, Bytes32, Patch, Align8, Index, BytesHold, ReaderAt, Encoded, WriterAt, Legal;
    WriterPlace(m, c);
    var p, m' := Pos(m.recs, |m.recs| - 1), ExecStoreSize(m);
    HeaderIndex(m, p);
    InBlock(p, 6, |m.data|);
    StoreHolds(m, c, 6, Bytes16(m.wpc.size), m');
    WriterNext(m, m');
    WriterMoved(m, c, m');
  }

  lemma StoreTypeKeeps(m: Machine, c: Counts)
    requires Inv(m, c) && m.wpc.WTyping?
    ensures Inv(ExecStoreType(m), c)
  {
    hide And, Wrap32, IsPow2, Pos, Bytes16, Bytes32, Patch, Align8, Index, BytesHold, ReaderAt, Encoded, WriterAt, Legal;
    WriterPlace(m, c);
    var p, m' := Pos(m.recs, |m.recs| - 1), ExecStoreType(m);
    HeaderIndex(m, p);
    assert p + 0 == p;
    StoreHolds(m, c, 0, Bytes32(m.wpc.rec.typ), m');
    WriterNext(m, m');
    WriterMoved(m, c, m');
  }

  lemma CopyInKeeps(m: Machine, c: Counts)
    requires Inv(m, c) && m.wpc.WCopying?
    ensures Inv(ExecCopyIn(m), c)
  {
    hide And, Wrap32, IsPow2, Pos, Bytes16, Bytes32, Patch, Align8, Index, BytesHold, ReaderAt, Encoded, WriterAt, Legal;
    WriterPlace(m, c);
    var p, done, m' := Pos(m.recs, |m.recs| - 1), m.wpc.done, ExecCopyIn(m);
    IndexExact(m, p, HEADER + done);
    var e := [m.wpc.rec.payload[done]];
    assert Fills(m.wpc.rec, HEADER + done, e);
    StoreHolds(m, c, HEADER + done, e, m');
    WriterNext(m, m');
    WriterMoved(m, c, m');
  }

  /** The next program point is about the same record, or none. */
  lemma WriterNext(m: Machine, m': Machine)
    requires WriterAt(m) && Writing(m) && m'.recs == m.recs && !m'.wpc.WSizing?
    requires Writing(m') ==> m'.wpc.base == m.wpc.base && m'.wpc.rec == m.wpc.rec
    requires m'.wpc.WCopying? ==> m'.wpc.done < |m'.wpc.rec.payload|
    ensures WriterAt(m')
  {
    hide Wrap32, Pos;
  }

  // ----- the reader -----

  /** Every meaningful byte of the record the reader is at is in its place. */
  lemma HeadBytes(m: Machine, c: Counts, i: nat)
    requires Inv(m, c) && |m.returned| < c.seen && Meaningful(m.recs[|m.returned|], i)
    ensures m.data[(Pos(m.recs, |m.returned|) + i) % |m.data|] == Expected(m.recs[|m.returned|], i)
  {
    hide Wrap32, IsPow2, Pos, Align8, Expected, Encoded, ReaderAt;
    assert ByteHeld(m.data, m.recs, |m.returned|, i);
  }

  /** The header words of the record the reader is at. */
  lemma HeadWords(m: Machine, c: Counts)
    requires Inv(m, c) && |m.returned| < c.seen
    ensures var off, rec := Index(|m.data|, m.r.head), m.recs[|m.returned|];
            && off + HEADER <= |m.data|
            && Load32(m.data[off..]) == rec.typ
            && Load16(m.data[off + 6..]) == RecordSize(|rec.payload|)
  {
    hide And, Wrap32, IsPow2, Pos, Align8, Index, BytesHold, WriterAt, Bytes16, Bytes32;
    var p, rec := Pos(m.recs, |m.returned|), m.recs[|m.returned|];
    HeaderIndex(m, p);
    var off := p % |m.data|;
    forall i: nat | i < HEADER && Meaningful(rec, i) ensures m.data[off + i] == Expected(rec, i) {
      InBlock(p, i, |m.data|);
      HeadBytes(m, c, i);
    }
    WordsFrom(m.data, off, rec);
  }

  lemma WordsFrom(d: bytes, off: nat, rec: Record)
    requires off + HEADER <= |d| && RecordSize(|rec.payload|) < 0x1_0000
    requires forall i: nat :: i < HEADER && Meaningful(rec, i) ==> d[off + i] == Expected(rec, i)
    ensures Load32(d[off..]) == rec.typ && Load16(d[off + 6..]) == RecordSize(|rec.payload|)
  {
    hide Bytes16, Bytes32, Align8;
    var t, s := Bytes32(rec.typ), Bytes16(RecordSize(|rec.payload|));
    assert d[off + 0] == Expected(rec, 0) == t[0] && d[off + 1] == Expected(rec, 1) == t[1];
    assert d[off + 2] == Expected(rec, 2) == t[2] && d[off + 3] == Expected(rec, 3) == t[3];
    assert d[off + 6] == Expected(rec, 6) == s[0] && d[off + 7] == Expected(rec, 7) == s[1];
  }

  lemma PeekKeeps(m: Machine, c: Counts)
    requires Inv(m, c)
    ensures m.rpc.RBatch? && m.r.head != m.r.tail ==> Inv(ExecPeekType(m), c)
    ensures m.rpc.RTyped? ==> Inv(ExecPeekSize(m), c)
  {
    hide And, Wrap32, IsPow2, Pos, Align8, Index, Load16, Load32, BytesHold, WriterAt;
    if m.rpc.RBatch? && m.r.head != m.r.tail { NotEmpty(m, c); }
    if |m.returned| < c.seen {
      HeadWords(m, c);
      BytesSame(m, c, m.(rpc := RBatch));
    }
    HoldsAnyReader(m, c);
  }

  /** What the reader holds does not matter to the writer's part of the invariant. */
  lemma HoldsAnyReader(m: Machine, c: Counts)
    requires Sized(m) && BytesHold(m, c) && WriterAt(m)
    ensures forall pc: ReaderPc :: Sized(m.(rpc := pc)) && BytesHold(m.(rpc := pc), c) && WriterAt(m.(rpc := pc))
  {
    hide ByteHeld, Pos, IsPow2, Align8;
  }

  lemma BytesSame(m: Machine, c: Counts, m': Machine)
    requires |m.data| > 0 && BytesHold(m, c)
    requires m'.data == m.data && m'.recs == m.recs && m'.wpc == m.wpc
    ensures BytesHold(m', c)
  {
    hide ByteHeld;
  }

  lemma NotEmpty(m: Machine, c: Counts)
    requires Ordered(m, c) && Encoded(m, c) && m.r.head != m.r.tail
    ensures |m.returned| < c.seen
  {
    hide Wrap32, Pos;
  }

  lemma CopyOutKeeps(m: Machine, c: Counts)
    requires Inv(m, c) && m.rpc.RCopying? && HEADER + |m.rpc.got| < m.rpc.size
    ensures Inv(ExecCopyOut(m), c)
  {
    hide And, Wrap32, IsPow2, Pos, Align8, Index, BytesHold, WriterAt, Bytes16, Bytes32;
    var p, rec, i := Pos(m.recs, |m.returned|), m.recs[|m.returned|], |m.rpc.got|;
    IndexExact(m, p, HEADER + i);
    if i < |rec.payload| { HeadBytes(m, c, HEADER + i); }
    HoldsAnyReader(m, c);
  }

  lemma PopKeeps(m: Machine, c: Counts)
    requires Inv(m, c) && m.rpc.RCopying? && HEADER + |m.rpc.got| >= m.rpc.size
    ensures Inv(ExecPop(m), c)
  {
    hide And, Wrap32, IsPow2, Pos, Align8, Index, Load16, BytesHold, WriterAt;
    var p, j := Pos(m.recs, |m.returned|), |m.returned|;
    HeadWords(m, c);
    PosStep(m.recs, j);
    WrapAdd(p, RecordSize(|m.recs[j].payload|));
    assert Returns((m.rpc.typ, m.rpc.got), m.recs[j]);
    var m' := ExecPop(m);
    BytesSame(m, c, m');
    WriterSame(m, m');
  }

  lemma WriterSame(m: Machine, m': Machine)
    requires WriterAt(m) && m'.wpc == m.wpc && m'.recs == m.recs
    ensures WriterAt(m')
  {
  }

  // ----- the indices -----

  lemma IndexAccessKeeps(m: Machine, c: Counts, a: Action)
    requires Inv(m, c) && (a.LoadTail? || a.StoreHead? || a.LoadHead? || a.StoreTail?)
    ensures Inv(Exec(m, a), Track(m, c, a))
  {
    hide Wrap32, IsPow2, Pos, Align8, Expected, BytesHold;
    PosMonotone(m.recs, c.known, m.released);
    PosMonotone(m.recs, m.released, |m.recs|);
    HoldsFurther(m, c, Exec(m, a), Track(m, c, a));
  }

  lemma HoldsFurther(m: Machine, c: Counts, m': Machine, c': Counts)
    requires |m.data| > 0 && BytesHold(m, c) && c.known <= c'.known
    requires m'.data == m.data && m'.recs == m.recs && (Writing(m) ==> m'.wpc == m.wpc)
    ensures BytesHold(m', c')
  {
    hide ByteHeld;
  }

  // ----- all actions -----

  lemma Initially(data: bytes)
    requires Legal(|data|)
    ensures Inv(Init(data), Counts(0, 0))
  {
    hide IsPow2;
    LegalIsAligned(|data|);
  }

  lemma StepKeeps(m: Machine, c: Counts, a: Action)
    requires Inv(m, c)
    ensures Inv(Exec(m, a), Track(m, c, a))
  {
    hide Inv, ExecWrite, ExecStoreSize, ExecStoreType, ExecCopyIn, ExecPeekType, ExecPeekSize, ExecCopyOut, ExecPop;
    InvSized(m, c);
    match a
    case Write(rec) => if m.wpc.WBatch? && |rec.payload| < 0x1_0000 { WriteKeeps(m, c, rec); }
    case StoreSize => if m.wpc.WSizing? { StoreSizeKeeps(m, c); }
    case StoreType => if m.wpc.WTyping? { StoreTypeKeeps(m, c); }
    case CopyIn => if m.wpc.WCopying? { CopyInKeeps(m, c); }
    case PeekType => PeekKeeps(m, c);
    case PeekSize => PeekKeeps(m, c);
    case CopyOut => if m.rpc.RCopying? && HEADER + |m.rpc.got| < m.rpc.size { CopyOutKeeps(m, c); }
    case Pop => if m.rpc.RCopying? && HEADER + |m.rpc.got| >= m.rpc.size { PopKeeps(m, c); }
    case _ => IndexAccessKeeps(m, c, a);
  }

  lemma InvSized(m: Machine, c: Counts)
    requires Inv(m, c)
    ensures 0 < |m.data| <= TWO32
  {
  }
}
