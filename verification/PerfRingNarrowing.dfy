/**
  PerfRing::write hands pr_write a length narrowed to 16 bits and then copies the whole element
  (util/perf_ring_cpp.h). What that does to the ring, for elements of every length.
 */
module PerfRingNarrowing {
  import opened Bits
  import opened Common
  import opened Memory
  import opened PerfRingData
  import opened PerfRing
  import opened PerfRingSession

  /** The type, size and bytes the reader finds at `p` are the record's. */
  ghost predicate ReadsBack(d: bytes, p: nat, r: Record)
    requires |d| > 0
  {
    var head := RingRead(d, p, HEADER);
    && Load32(head) == r.typ
    && Load16(head[6..]) == RecordSize(|r.payload|)
    && RingRead(d, p + HEADER, |r.payload|) == r.payload
  }

  lemma RecordReadsBack(d: bytes, p: nat, r: Record)
    requires |d| > 0 && IsRecord(RingRead(d, p, RecordSize(|r.payload|)), r)
    ensures ReadsBack(d, p, r)
  {
    hide Align8, IsRecord;
    HeadFields(d, p, r);
    PayloadRange(d, p, r, 0, |r.payload|);
    assert r.payload[0..0 + |r.payload|] == r.payload;
  }

  /**
    A write that is done makes the element readable at the tail, with every unreleased record
    intact, if and only if the element is shorter than 2^16 bytes.
   */
  lemma WriteFaithfulIff(d: bytes, recs: seq<Record>, lo: nat, typ: u32, elem: bytes)
    requires Legal(|d|) && |d| % 8 == 0 && lo <= |recs| && Intact(d, recs, lo)
    requires Verdict(|d|, Pos(recs, lo), Pos(recs, |recs|), elem) == Done
    ensures var p := Pos(recs, |recs|);
            var d' := Stored(d, p, typ, elem).value;
            ReadsBack(d', p, Record(typ, elem)) && Intact(d', recs, lo) <==> |elem| < 0x1_0000
  {
    hide WriteRaw, Copied, Align8, IsPow2, IsRecord;
    var p := Pos(recs, |recs|);
    PosMonotone(recs, lo, |recs|);
    if |elem| < 0x1_0000 {
      ShortIsClear(|d|, Pos(recs, lo), p, |elem|);
      AppendRecord(d, recs, lo, typ, elem);
      var r, d' := Record(typ, elem), Stored(d, p, typ, elem).value;
      assert elem[..Narrowed(elem)] == elem;
      assert (recs + [r])[|recs|] == r;
      PosPrefix(recs, r, |recs|);
      RecordReadsBack(d', p, r);
      IntactInit(d', recs, r, lo);
    }
  }

  lemma IntactInit(d: bytes, recs: seq<Record>, r: Record, lo: nat)
    requires |d| > 0 && Intact(d, recs + [r], lo)
    ensures Intact(d, recs, lo)
  {
    hide IsRecord;
    forall k | lo <= k < |recs|
      ensures IsRecord(RingRead(d, Pos(recs, k), RecordSize(|recs[k].payload|)), recs[k])
    {
      PosPrefix(recs, r, k);
      assert (recs + [r])[k] == recs[k];
    }
  }

  /** The bytes at positions from `h` to `t` are the same in both. */
  ghost predicate SameBytes(d: bytes, d': bytes, h: nat, t: nat)
    requires |d| == |d'| > 0
  {
    forall x :: h <= x < t ==> d'[x % |d|] == d[x % |d|]
  }

  /** The write at `t` leaves a record of the narrowed length and no byte from `h` on changed. */
  ghost predicate Harmless(d: bytes, h: nat, t: nat, typ: u32, elem: bytes)
    requires |d| > 0 && |d| % 8 == 0 && t % 8 == 0 && RecordSize(Narrowed(elem)) < 0x1_0000
  {
    var r := Stored(d, t, typ, elem);
    && r.Some?
    && ReadsBack(r.value, t, Record(typ, elem[..Narrowed(elem)]))
    && SameBytes(d, r.value, h, t)
  }

  /**
    Whatever the ring holds, a write that is done reads back as its first `Narrowed` bytes and
    changes no unreleased byte, if and only if the bytes it copies end within the ring's size of
    the oldest unreleased one.
   */
  lemma HarmlessIff(b: nat, h: nat, t: nat, elem: bytes)
    requires Legal(b) && b % 8 == 0 && t % 8 == 0 && h <= t && Verdict(b, h, t, elem) == Done
    ensures (forall d: bytes, typ: u32 :: |d| == b ==> Harmless(d, h, t, typ, elem))
            <==> Clear(b, h, t, |elem|)
  {
    hide Harmless, Align8, IsPow2, Copied;
    if Clear(b, h, t, |elem|) {
      forall d: bytes, typ: u32 | |d| == b ensures Harmless(d, h, t, typ, elem) {
        ClearIsHarmless(d, h, t, typ, elem);
      }
    } else {
      HarmfulContents(b, h, t, elem);
    }
  }

  lemma ClearIsHarmless(d: bytes, h: nat, t: nat, typ: u32, elem: bytes)
    requires Legal(|d|) && |d| % 8 == 0 && t % 8 == 0 && h <= t
    requires Verdict(|d|, h, t, elem) == Done && Clear(|d|, h, t, |elem|)
    ensures Harmless(d, h, t, typ, elem)
  {
    hide WriteRaw, Copied, Align8, IsPow2, IsRecord, ReadsBack;
    var at, len := (t + HEADER) % |d|, Narrowed(elem);
    CopiedBounds(at, |elem|, |d|);
    NarrowedCopied(at, |elem|, |d|);
    var copied := elem[..Copied(at, |elem|, |d|).value];
    var d' := Stored(d, t, typ, elem).value;
    assert copied[..len] == elem[..len];
    WriteThenRead(d, t, typ, copied, len);
    RecordReadsBack(d', t, Record(typ, elem[..len]));
    forall x | h <= x < t ensures d'[x % |d|] == d[x % |d|] {
      EarlierByteKept(d, t, typ, RecordSize(len), copied, x);
    }
  }

  /** Contents and a type that a write which is not clear damages. */
  lemma HarmfulContents(b: nat, h: nat, t: nat, elem: bytes)
    requires Legal(b) && b % 8 == 0 && t % 8 == 0 && h <= t
    requires Verdict(b, h, t, elem) == Done && !Clear(b, h, t, |elem|)
    ensures exists d: bytes, typ: u32 :: |d| == b && !Harmless(d, h, t, typ, elem)
  {
    hide WriteRaw, Copied, Align8, IsPow2, ReadsBack, SameBytes;
    var at, n := (t + HEADER) % b, RecordSize(Narrowed(elem));
    CopiedBounds(at, |elem|, b);
    var copied := elem[..Copied(at, |elem|, b).value];
    // the first byte that must not change: the oldest unreleased one, or the new header's
    var i := if h < t then h + b - t else 0;
    var j := if i >= HEADER then i - HEADER else i + b - HEADER;
    var other: byte := if copied[j] == 0 then 1 else 0;
    var d: bytes := seq(b, _ => other);
    var d' := Stored(d, t, other as int, elem).value;
    ByteAfterWrite(d, t, other as int, n, copied, i);
    assert d'[(t + i) % b] == copied[j] != other;
    if h < t {
      assert !SameBytes(d, d', h, t) by {
        ModAddMultiple(h, b, 1);
        assert t + i == h + 1 * b && d[h % b] == other;
        DiffersAt(d, d', h, t);
      }
    } else {
      assert !ReadsBack(d', t, Record(other as int, elem[..Narrowed(elem)])) by {
        WrongType(d', t, Record(other as int, elem[..Narrowed(elem)]));
      }
    }
    assert !Harmless(d, h, t, other as int, elem);
  }

  lemma DiffersAt(d: bytes, d': bytes, h: nat, t: nat)
    requires |d| == |d'| > 0 && h < t && d'[h % |d|] != d[h % |d|]
    ensures !SameBytes(d, d', h, t)
  {
  }

  lemma WrongType(d: bytes, p: nat, r: Record)
    requires |d| > 0 && r.typ < 0x100 && d[p % |d|] as int != r.typ
    ensures !ReadsBack(d, p, r)
  {
    assert RingRead(d, p, HEADER)[0] == d[(p + 0) % |d|];
  }

  function Zeros(): Record {
    Record(0, seq(32760, _ => 0))
  }

  function Ones(): bytes {
    seq(0x1_0008, _ => 1)
  }

  /**
    Two records of 32760 zeros half fill a ring of 2^17 bytes. Writing 0x1_0008 ones then reserves
    16 bytes and is done; the first record is lost and the reader finds 8 ones.
   */
  lemma NarrowingLoses(d: bytes)
    requires |d| == 0x2_0000 && Intact(d, [Zeros(), Zeros()], 0)
    ensures Pos([Zeros(), Zeros()], 2) == 0x1_0000 && Verdict(|d|, 0, 0x1_0000, Ones()) == Done
    ensures var d' := Stored(d, 0x1_0000, 0, Ones()).value;
            ReadsBack(d', 0x1_0000, Record(0, Ones()[..8])) && !Intact(d', [Zeros(), Zeros()], 0)
  {
    hide WriteRaw, Copied, Align8, IsRecord, Intact, ReadsBack;
    assert RecordSize(8) == 16 && RecordSize(32760) == 0x8000 by { Sizes(); }
    var recs, elem, b := [Zeros(), Zeros()], Ones(), |d|;
    PosStep(recs, 0);
    PosStep(recs, 1);
    CopiedBounds(0x1_0008, |elem|, b);
    assert elem[..|elem|] == elem;
    var d' := Stored(d, 0x1_0000, 0, elem).value;
    assert d' == WriteRaw(d, 0x1_0000, 0, 16, elem);
    WriteThenRead(d, 0x1_0000, 0, elem, 8);
    RecordReadsBack(d', 0x1_0000, Record(0, elem[..8]));
    ByteAfterWrite(d, 0x1_0000, 0, 16, elem, 0x1_0000);
    assert d'[0] == 1;
    WrongType(d', 0, Zeros());
    if Intact(d', recs, 0) {
      IntactAt(d', recs, 0, 0);
      RecordReadsBack(d', 0, Zeros());
    }
  }

  lemma Sizes()
    ensures RecordSize(8) == 16 && RecordSize(32760) == 0x8000
  {
  }

  /** A new ring after the two records are written. */
  method HalfFull() returns (s: Session)
    ensures fresh(s) && fresh(s.writer) && fresh(s.storage.data)
    ensures s.Valid() && s.known == 0 && s.recs == [Zeros(), Zeros()] && s.storage.data.Length == 0x2_0000
  {
    hide Intact, Copied, Align8, Wrap32, IsPow2, Load16, Load32;
    assert RecordSize(32760) == 0x8000 by { Sizes(); }
    assert Legal(0x2_0000) by { LegalSize(); }
    s := new Session(0x2_0000);
    s.StartWriteBatch();
    CopiedBounds(8, 32760, 0x2_0000);
    var r := s.Write(Zeros().payload, 0);
    PosStep(s.recs, 0);
    CopiedBounds(0x8008, 32760, 0x2_0000);
    r := s.Write(Zeros().payload, 0);
  }

  lemma LegalSize()
    ensures Legal(0x2_0000)
  {
    Pow2Values();
    assert Pow2(17) == 2 * Pow2(16);
  }

  /** The ring of `NarrowingLoses` is reached from a new one. */
  method LostRecord() returns (s: Session, r: Written)
    ensures fresh(s) && s.storage.data.Length > 0 && r == Done
    ensures s.recs == [Zeros(), Zeros()] && !Intact(s.storage.data[..], s.recs, s.known)
  {
    hide Intact, Copied, Align8, WriteRaw, Wrap32, IsPow2;
    s := HalfFull();
    NarrowingLoses(s.storage.data[..]);
    assert RecordSize(8) == 16 by { Sizes(); }
    r := s.writer.Write(Ones(), 0, 0, 0x1_0000);
  }
}
