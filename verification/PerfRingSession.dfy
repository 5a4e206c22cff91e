/** A writer and a reader of one perf ring: a FIFO of typed records. */
module PerfRingSession {
  import opened Bits
  import opened Common
  import opened Memory
  import opened PerfRingData
  import opened PerfRing

  /** Unbounded position of record `k`. */
  function Pos(recs: seq<Record>, k: nat): (r: nat)
    requires k <= |recs|
    ensures r % 8 == 0
  {
    if k == 0 then 0 else Pos(recs, k - 1) + RecordSize(|recs[k - 1].payload|)
  }

  lemma {:induction false} PosMonotone(recs: seq<Record>, j: nat, k: nat)
    requires j <= k <= |recs|
    ensures Pos(recs, j) <= Pos(recs, k)
    ensures j < k ==> Pos(recs, j) + RecordSize(|recs[j].payload|) <= Pos(recs, k)
    decreases k
  {
    if j == k {
    } else {
      PosMonotone(recs, j, k - 1);
    }
  }

  lemma PosStep(recs: seq<Record>, k: nat)
    requires k < |recs|
    ensures Pos(recs, k + 1) == Pos(recs, k) + RecordSize(|recs[k].payload|)
  {
  }

  lemma {:induction false} PosPrefix(recs: seq<Record>, r: Record, k: nat)
    requires k <= |recs|
    ensures Pos(recs + [r], k) == Pos(recs, k)
    decreases k
  {
    if k == 0 {
    } else {
      PosPrefix(recs, r, k - 1);
    }
  }

  /** Records from `lo` on are intact in the buffer. */
  ghost predicate Intact(d: bytes, recs: seq<Record>, lo: nat)
    requires |d| > 0
  {
    forall k :: lo <= k < |recs| ==>
      IsRecord(RingRead(d, Pos(recs, k), RecordSize(|recs[k].payload|)), recs[k])
  }

  /** A copy that ends within `|d|` bytes of an earlier byte leaves it alone. */
  lemma EarlierByteKept(d: bytes, p: nat, typ: u32, size: u16, payload: bytes, x: nat)
    requires |d| > 0 && |d| % 8 == 0 && p % 8 == 0 && |payload| <= |d|
    requires p + HEADER + |payload| - |d| <= x < p
    ensures WriteRaw(d, p, typ, size, payload)[x % |d|] == d[x % |d|]
  {
    hide WriteRaw;
    var i := x - p + |d|;
    ModAddMultiple(x, |d|, 1);
    assert p + i == x + 1 * |d|;
    ByteAfterWrite(d, p, typ, size, payload, i);
  }

  /** A write whose reservation and copy both stay clear of the unreleased records appends one. */
  lemma WriteKeepsIntact(d: bytes, recs: seq<Record>, lo: nat, typ: u32, payload: bytes, len: nat)
    requires |d| > 0 && |d| % 8 == 0 && lo <= |recs| && Intact(d, recs, lo)
    requires len <= |payload| && RecordSize(len) < 0x1_0000
    requires Pos(recs, |recs|) + RecordSize(len) - Pos(recs, lo) <= |d|
    requires Pos(recs, |recs|) + HEADER + |payload| - Pos(recs, lo) <= |d|
    ensures |payload| <= |d|
    ensures Intact(WriteRaw(d, Pos(recs, |recs|), typ, RecordSize(len), payload),
                   recs + [Record(typ, payload[..len])], lo)
  {
    hide WriteRaw, IsRecord;
    PosMonotone(recs, lo, |recs|);
    var r := Record(typ, payload[..len]);
    var p, recs' := Pos(recs, |recs|), recs + [r];
    var d' := WriteRaw(d, p, typ, RecordSize(len), payload);
    forall k | lo <= k < |recs'|
      ensures IsRecord(RingRead(d', Pos(recs', k), RecordSize(|recs'[k].payload|)), recs'[k])
    {
      PosPrefix(recs, r, k);
      if k == |recs| {
        WriteThenRead(d, p, typ, payload, len);
      } else {
        var q, n := Pos(recs, k), RecordSize(|recs[k].payload|);
        PosMonotone(recs, lo, k);
        PosMonotone(recs, k, |recs|);
        forall i: nat | i < n ensures RingRead(d', q, n)[i] == RingRead(d, q, n)[i] {
          EarlierByteKept(d, p, typ, RecordSize(len), payload, q + i);
        }
        assert RingRead(d', q, n) == RingRead(d, q, n);
      }
    }
  }

  // ----- elements of any length -----

  /** The copy stores at least the bytes the narrowed length promises. */
  lemma NarrowedCopied(at: nat, len: nat, b: nat)
    requires Legal(b) && at < b && len % 0x1_0000 < b && Copied(at, len, b).Some?
    ensures len % 0x1_0000 <= Copied(at, len, b).value
  {
    hide Copied;
    CopiedBounds(at, len, b);
    var c := Copied(at, len, b).value;
    if b <= 0x1_0000 {
      assert len % 0x1_0000 == len % b by { NarrowedMod(len, b); }
      LeastResidue(len, c, b);
    } else {
      Divides16(b);
      var u: nat :| b == u * 0x1_0000;
      LeastResidue(len, c, b);
      SmallResidue(len, c, u);
    }
  }

  lemma LeastResidue(x: nat, c: nat, d: nat)
    requires d > 0 && c <= x && (x - c) % d == 0
    ensures x % d == c % d <= c
  {
    var m := (x - c) / d;
    assert x == c + m * d;
    ModAddMultiple(c, d, m);
    assert c == (c / d) * d + c % d;
    MulMonotone(0, c / d, d);
  }

  lemma SmallResidue(x: nat, c: nat, u: nat)
    requires u > 0 && x % (u * 0x1_0000) == c % (u * 0x1_0000)
    ensures x % 0x1_0000 <= c
  {
    ModOfMod(x, 0x1_0000, u);
    ModOfMod(c, 0x1_0000, u);
  }

  lemma NarrowedMod(len: nat, b: nat)
    requires IsPow2(b) && 0 < b <= 0x1_0000 && len % 0x1_0000 < b
    ensures len % 0x1_0000 == len % b
  {
    Pow2Values();
    Pow2Divides(b, 16);
    var u: nat :| u > 0 && Pow2(16) == u * b;
    ModOfMod(len, b, u);
    ModWithin(len % 0x1_0000, b);
  }

  lemma Divides16(b: nat)
    requires IsPow2(b) && b > 0x1_0000
    ensures exists u: nat :: b == u * 0x1_0000
  {
    var k: nat :| b == Pow2(k);
    Pow2Values();
    if k < 16 { Pow2Monotone(k, 16); }
    Pow2Add(k - 16, 16);
    assert b == Pow2(k - 16) * 0x1_0000;
  }

  /** The bytes a write at the tail stores end before the oldest unreleased byte comes round again. */
  predicate Clear(b: nat, h: nat, t: nat, len: nat)
    requires b > 0
  {
    var c := Copied((t + HEADER) % b, len, b);
    c.Some? && t + HEADER + c.value <= h + b
  }

  /** How a write ends when the oldest unreleased byte is at `h` and the tail at `t`. */
  function Verdict(b: nat, h: nat, t: nat, elem: bytes): Written
    requires b > 0
  {
    var n := RecordSize(Narrowed(elem));
    if n >= b || n >= 0x1_0000 then Refused(-EINVAL)
    else if t + n - h > b then Refused(-ENOSPC)
    else if Copied((t + HEADER) % b, |elem|, b).None? then Overrun
    else Done
  }

  /** A granted write of fewer than 2^16 bytes is always clear. */
  lemma ShortIsClear(b: nat, h: nat, t: nat, len: nat)
    requires b > 0 && len < 0x1_0000 && h <= t && t + RecordSize(len) <= h + b
    ensures Clear(b, h, t, len)
  {
    CopiedBounds((t + HEADER) % b, len, b);
  }

  lemma AppendRecord(d: bytes, recs: seq<Record>, lo: nat, typ: u32, elem: bytes)
    requires Legal(|d|) && |d| % 8 == 0 && lo <= |recs| && Intact(d, recs, lo)
    requires RecordSize(Narrowed(elem)) < |d| && RecordSize(Narrowed(elem)) < 0x1_0000
    requires Pos(recs, |recs|) + RecordSize(Narrowed(elem)) - Pos(recs, lo) <= |d|
    requires Clear(|d|, Pos(recs, lo), Pos(recs, |recs|), |elem|)
    ensures Stored(d, Pos(recs, |recs|), typ, elem).Some?
    ensures Intact(Stored(d, Pos(recs, |recs|), typ, elem).value,
                   recs + [Record(typ, elem[..Narrowed(elem)])], lo)
  {
    hide Intact, WriteRaw, IsPow2, Align8, Pos, Copied;
    var at := (Pos(recs, |recs|) + HEADER) % |d|;
    CopiedBounds(at, |elem|, |d|);
    NarrowedCopied(at, |elem|, |d|);
    var c := Copied(at, |elem|, |d|).value;
    WriteKeepsIntact(d, recs, lo, typ, elem[..c], Narrowed(elem));
    assert elem[..c][..Narrowed(elem)] == elem[..Narrowed(elem)];
  }

  class Session {
    const storage: Storage
    const writer: PerfRing
    const reader: PerfRing
    ghost var recs: seq<Record>  // every record written, in order
    ghost var known: nat         // released records the writer knows of
    ghost var released: nat      // records released through data_tail
    ghost var read: nat          // records the reader has returned
    ghost var seen: nat          // records the reader knows of
    ghost var published: nat     // records published through data_head

    ghost predicate Valid() reads this, storage, storage.data, writer, reader {
      && writer.shared == reader.shared == storage && writer != reader
      && known <= released <= read <= seen <= published <= |recs|
      && writer.At(Pos(recs, known), Pos(recs, |recs|))
      && reader.At(Pos(recs, read), Pos(recs, seen))
      && storage.dataHead == Wrap32(Pos(recs, published))
      && storage.dataTail == Wrap32(Pos(recs, released))
      && Intact(storage.data[..], recs, known)
    }

    constructor (size: nat)
      requires Legal(size)
      ensures Valid() && recs == [] && storage.data.Length == size
      ensures known == released == read == seen == published == 0
      ensures fresh(storage) && fresh(storage.data) && fresh(writer) && fresh(reader)
    {
      var block := new Storage(size);
      storage := block;
      writer := new PerfRing(block);
      reader := new PerfRing(block);
      recs, known, released, read, seen, published := [], 0, 0, 0, 0, 0;
    }

    method StartWriteBatch()
      requires Valid()
      modifies this`known, writer
      ensures Valid() && known == released
    {
      hide Intact, Wrap32, IsPow2, Pos;
      PosMonotone(recs, known, released);
      PosMonotone(recs, released, |recs|);
      IntactFrom(storage.data[..], recs, known, released);
      writer.bufHead := storage.dataTail;
      known := released;
    }

    /** How a write of this element ends. */
    ghost function Expected(elem: bytes): Written
      requires Valid()
      reads this, storage, storage.data, writer, reader
    {
      Verdict(storage.data.Length, Pos(recs, known), Pos(recs, |recs|), elem)
    }

    /** A granted write of this element touches no unreleased record. */
    ghost predicate HasRoom(elem: bytes)
      requires Valid()
      reads this, storage, storage.data, writer, reader
    {
      Clear(storage.data.Length, Pos(recs, known), Pos(recs, |recs|), |elem|)
    }

    /**
      A record of the narrowed length is appended when the write is done. The session stays valid
      if the copy is clear, which every element of fewer than 2^16 bytes is.
     */
    method Write(elem: bytes, typ: u32) returns (r: Written)
      requires Valid()
      modifies this`recs, writer, storage.data
      ensures r == old(Expected(elem))
      ensures r.Refused? || |elem| < 0x1_0000 ==> Valid()
      ensures r.Done? && old(HasRoom(elem)) ==> Valid()
      ensures recs == if r.Done? then old(recs) + [Record(typ, elem[..Narrowed(elem)])] else old(recs)
      ensures |elem| < 0x1_0000 ==> !r.Overrun? && elem[..Narrowed(elem)] == elem
    {
      hide Intact, WriteRaw, Wrap32, IsPow2, Align8, Pos, Copied;
      ghost var d, rec := storage.data[..], Record(typ, elem[..Narrowed(elem)]);
      ghost var h, t, b := Pos(recs, known), Pos(recs, |recs|), storage.data.Length;
      r := writer.Write(elem, typ, h, t);
      if |elem| < 0x1_0000 {
        if !r.Refused? { ShortIsClear(b, h, t, |elem|); }
      }
      if r.Done? {
        if Clear(b, h, t, |elem|) { AppendRecord(d, recs, known, typ, elem); }
        forall k: nat | k <= |recs| ensures Pos(recs + [rec], k) == Pos(recs, k) { PosPrefix(recs, rec, k); }
        PosStep(recs + [rec], |recs|);
        recs := recs + [rec];
      }
    }

    method FinishWriteBatch()
      requires Valid()
      modifies this`published, storage
      ensures Valid() && published == |recs|
    {
      hide Intact, Wrap32, IsPow2, Pos;
      storage.dataHead := writer.bufTail;
      published := |recs|;
    }

    method StartReadBatch()
      requires Valid()
      modifies this`seen, reader
      ensures Valid() && seen == published
    {
      hide Intact, Wrap32, IsPow2, Pos;
      PosMonotone(recs, known, read);
      PosMonotone(recs, read, published);
      PosMonotone(recs, published, |recs|);
      reader.bufTail := storage.dataHead;
      seen := published;
    }

    /**
      pr_peek on a record whose payload holds a length at offset 4: the contents behind it, as at
      most two views. The assertions in the source are the requirements.
     */
    method Peek() returns (first: bytes, second: bytes)
      requires Valid() && read < seen && |recs[read].payload| >= 8
      requires 8 + Load32(recs[read].payload[4..8]) <= Align8(|recs[read].payload|)
      ensures var payload := recs[read].payload;
              var n := Load32(payload[4..8]);
              |first| + |second| == n && (8 + n <= |payload| ==> first + second == payload[8..8 + n])
    {
      hide Intact, IsRecord, Wrap32, IsPow2, RingRead, Align8, Pos, Load32, Load16;
      PosMonotone(recs, known, read);
      PosMonotone(recs, read, seen);
      PosMonotone(recs, seen, |recs|);
      ghost var h, payload := Pos(recs, read), recs[read].payload;
      IntactAt(storage.data[..], recs, known, read);
      PosStep(recs, read);
      PosMonotone(recs, read + 1, seen);
      PaddedLength(|payload|);
      PayloadRange(storage.data[..], h, recs[read], 4, 4);
      assert payload[4..4 + 4] == payload[4..8];
      HeadFields(storage.data[..], h, recs[read]);
      first, second := reader.Peek(h, Pos(recs, seen));
      ghost var n := Load32(payload[4..8]);
      if 8 + n <= |payload| { PayloadRange(storage.data[..], h, recs[read], 8, n); }
    }

    /**
      The next unread published record: its type, and its payload followed by padding to a
      multiple of 8; nothing when the reader has returned all it knows of.
     */
    method Read() returns (r: Option<(u32, bytes)>)
      requires Valid()
      modifies this`read, reader
      ensures Valid()
      ensures r.None? <==> old(read) == seen
      ensures r.None? ==> read == old(read)
      ensures r.Some? ==>
                && read == old(read) + 1 <= |recs|
                && var rec := recs[old(read)];
                && r.value.0 == rec.typ
                && |r.value.1| == Align8(|rec.payload|)
                && r.value.1[..|rec.payload|] == rec.payload
    {
      hide Intact, IsRecord, Wrap32, IsPow2, RingRead, Align8, Pos;
      PosMonotone(recs, known, read);
      PosMonotone(recs, read, seen);
      PosMonotone(recs, seen, |recs|);
      assert reader.bufHead == reader.bufTail <==> read == seen by {
        EmptyIff(Pos(recs, read), Pos(recs, seen));
      }
      if reader.bufTail == reader.bufHead { return None; }
      ghost var rec, h, t := recs[read], Pos(recs, read), Pos(recs, seen);
      IntactAt(storage.data[..], recs, known, read);
      PosStep(recs, read);
      PosMonotone(recs, read + 1, seen);
      var typ, _ := reader.PeekHeader(h, t, rec);
      var v := reader.Read(h, t, rec);
      PaddedLength(|rec.payload|);
      read := read + 1;
      return Some((typ, v));
    }

    method FinishReadBatch()
      requires Valid()
      modifies this`released, storage
      ensures Valid() && released == read
    {
      hide Intact, Wrap32, IsPow2, Pos;
      storage.dataTail := reader.bufHead;
      released := read;
    }
  }

  /** A part of a record's payload is a circular read behind its header. */
  lemma PayloadRange(d: bytes, p: nat, r: Record, from: nat, n: nat)
    requires |d| > 0 && from + n <= |r.payload|
    requires IsRecord(RingRead(d, p, RecordSize(|r.payload|)), r)
    ensures RingRead(d, p + HEADER + from, n) == r.payload[from..from + n]
  {
    hide Load16, Load32, Align8;
    var got := RingRead(d, p, RecordSize(|r.payload|));
    var part := RingRead(d, p + HEADER + from, n);
    forall i: nat | i < n ensures part[i] == r.payload[from..from + n][i] {
      assert got[HEADER..HEADER + |r.payload|][from + i] == got[HEADER + from + i];
      assert p + (HEADER + from + i) == (p + HEADER + from) + i;
    }
  }

  /** The header words of a record are those of its first bytes. */
  lemma HeadFields(d: bytes, p: nat, r: Record)
    requires |d| > 0 && IsRecord(RingRead(d, p, RecordSize(|r.payload|)), r)
    ensures Load32(RingRead(d, p, HEADER)) == r.typ
    ensures Load16(RingRead(d, p, HEADER)[6..]) == RecordSize(|r.payload|)
  {
    hide Align8;
    var got, head := RingRead(d, p, RecordSize(|r.payload|)), RingRead(d, p, HEADER);
    assert head == got[..HEADER];
    assert head[6..][0] == got[6..][0] && head[6..][1] == got[6..][1];
  }

  lemma PaddedLength(len: nat)
    ensures RecordSize(len) - HEADER == Align8(len)
  {
  }

  lemma IntactFrom(d: bytes, recs: seq<Record>, lo: nat, lo': nat)
    requires |d| > 0 && lo <= lo' && Intact(d, recs, lo)
    ensures Intact(d, recs, lo')
  {
  }

  lemma IntactAt(d: bytes, recs: seq<Record>, lo: nat, k: nat)
    requires |d| > 0 && lo <= k < |recs| && Intact(d, recs, lo)
    ensures IsRecord(RingRead(d, Pos(recs, k), RecordSize(|recs[k].payload|)), recs[k])
  {
  }

  lemma EmptyIff(h: nat, t: nat)
    requires h <= t <= h + 0x8000_0000
    ensures Wrap32(h) == Wrap32(t) <==> h == t
  {
    WrapDifference(t, h);
  }

  // ----- sessions from their initial state -----

  /** A record written to a new ring and published is what the reader returns. */
  method FirstRecord(size: nat, elem: bytes, typ: u32) returns (got: Option<(u32, bytes)>)
    requires Legal(size) && RecordSize(|elem|) < size && RecordSize(|elem|) < 0x1_0000
    ensures got.Some? && got.value.0 == typ && |got.value.1| == Align8(|elem|)
    ensures got.value.1[..|elem|] == elem
  {
    hide Align8, Intact;
    var s := new Session(size);
    s.StartWriteBatch();
    CopiedBounds((0 + HEADER) % size, |elem|, size);
    var r := s.Write(elem, typ);
    s.FinishWriteBatch();
    s.StartReadBatch();
    got := s.Read();
  }

  /** Two empty records fill a ring of 16 bytes, and the reader is told that nothing is left. */
  method FullRing() returns (s: Session, n: nat)
    ensures fresh(s) && s.Valid() && s.read == 0 && s.seen == 2 && n == 0
  {
    hide Intact, Copied, Align8, Wrap32, IsPow2, Narrowed, Load16, Load32;
    assert Legal(16) by { Legal16(); }
    assert RecordSize(0) == 8 by { EmptySize(); }
    s := new Session(16);
    s.StartWriteBatch();
    CopiedBounds(8, 0, 16);
    var r := s.Write([], 0);
    assert Pos(s.recs, 1) == 8;
    CopiedBounds(0, 0, 16);
    r := s.Write([], 0);
    assert Pos(s.recs, 2) == 16;
    s.FinishWriteBatch();
    s.StartReadBatch();
    n := s.reader.BytesRemaining(0, 16);
  }

  lemma Legal16()
    ensures Legal(16)
  {
    assert Pow2(4) == 16;
  }

  lemma EmptySize()
    ensures RecordSize(0) == 8
  {
  }
}
