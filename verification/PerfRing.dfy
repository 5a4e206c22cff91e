/**
  The perf ring as objects (util/perf_ring.h, util/perf_ring_cpp.h): a writer and a reader over one
  shared buffer. `Session` shows the pair to be a FIFO of typed records.
 */
module PerfRing {
  import opened Bits
  import opened Common
  import opened Memory
  import opened PerfRingData

  /** The mmapped page's indices, as 32-bit values, and the data pages. */
  class Storage {
    var dataHead: u32
    var dataTail: u32
    const data: array<byte>

    constructor (size: nat)
      ensures dataHead == dataTail == 0 && data.Length == size && fresh(data)
    {
      dataHead, dataTail := 0, 0;
      data := new byte[size](_ => 0);
    }
  }

  /** Buffer sizes pr_init_contig accepts, up to the largest for which `mask + 1` is a u32. */
  ghost predicate Legal(b: int) {
    IsPow2(b) && 8 <= b <= 0x8000_0000
  }

  lemma LegalIsAligned(b: nat)
    requires Legal(b)
    ensures b % 8 == 0
  {
    var k: nat :| b == Pow2(k);
    assert Pow2(2) == 4 && Pow2(3) == 8;
    if k < 3 { Pow2Monotone(k, 2); }
    Pow2Add(k - 3, 3);
  }

  /** How PerfRing::write ends: an error of pr_write, or a copy that stays in the ring or leaves it. */
  datatype Written = Done | Refused(error: int) | Overrun

  class PerfRing {
    const shared: Storage
    const bufMask: u32
    var bufHead: u32
    var bufTail: u32

    constructor (storage: Storage)
      requires 0 < storage.data.Length <= TWO32
      ensures shared == storage && bufMask + 1 == storage.data.Length
      ensures bufHead == storage.dataTail && bufTail == storage.dataHead
    {
      shared := storage;
      bufMask := storage.data.Length - 1;
      bufHead, bufTail := storage.dataTail, storage.dataHead;
    }

    /** The indices stand for unbounded positions `h` and `t`. */
    ghost predicate At(h: nat, t: nat) reads this {
      && bufMask + 1 == shared.data.Length && Legal(shared.data.Length)
      && bufHead == Wrap32(h) && bufTail == Wrap32(t)
      && h % 8 == 0 && t % 8 == 0 && h <= t <= h + shared.data.Length
    }

    /**
      PerfRing::write, for an element of any length: pr_write is given the length narrowed to 16
      bits, the copy the whole element. Nothing is promised about the ring after an overrun.
     */
    method Write(elem: bytes, typ: u32, ghost h: nat, ghost t: nat) returns (r: Written)
      requires At(h, t)
      modifies this, shared.data
      ensures var n, b := RecordSize(Narrowed(elem)), shared.data.Length;
              if n >= b || n >= 0x1_0000
              then r == Refused(-EINVAL) && At(h, t) && shared.data[..] == old(shared.data[..])
              else if t + n - h > b
              then r == Refused(-ENOSPC) && At(h, t) && shared.data[..] == old(shared.data[..])
              else b % 8 == 0 && match Stored(old(shared.data[..]), t, typ, elem)
                                 case None => r == Overrun
                                 case Some(d) => r == Done && At(h, t + n) && shared.data[..] == d
    {
      hide And, Wrap32, IsPow2, Align8, WriteRaw;
      ghost var b := shared.data.Length;
      LegalIsAligned(b);
      var len := Narrowed(elem);
      var aligned := And(Wrap32(len + HEADER + 7), Not32(7));
      AlignedSize(len);
      if aligned > bufMask { return Refused(-EINVAL); }
      if aligned >= 0x1_0000 { return Refused(-EINVAL); }
      SpaceLeft(t, aligned, h);
      if Wrap32(bufTail + aligned - bufHead) > Wrap32(bufMask + 1) { return Refused(-ENOSPC); }
      var ok := StoreRecord(aligned, elem, typ, t);
      WrapAdd(t, aligned);
      AlignedStep(t, aligned);
      bufTail := Wrap32(bufTail + aligned);
      return if ok then Done else Overrun;
    }

    /** The stores of a granted write: header fields, then the payload. */
    method StoreRecord(aligned: u16, elem: bytes, typ: u32, ghost t: nat) returns (ok: bool)
      requires bufMask + 1 == shared.data.Length && Legal(shared.data.Length)
      requires bufTail == Wrap32(t) && t % 8 == 0 && shared.data.Length % 8 == 0
      requires aligned == RecordSize(Narrowed(elem))
      modifies shared.data
      ensures match Stored(old(shared.data[..]), t, typ, elem)
              case None => !ok
              case Some(d) => ok && shared.data[..] == d
    {
      hide And, Wrap32, IsPow2, Align8, Patch, RingPatch, Bytes16, Bytes32, Copied;
      ghost var b := shared.data.Length;
      WrapMod(t, b);
      WrapAdd(t, HEADER);
      WrapMod(t + HEADER, b);
      HeaderInPlace(t, b);
      var off := And(bufTail, bufMask);
      var at := And(Wrap32(bufTail + HEADER), bufMask);
      Memcpy(shared.data, off, Bytes32(typ));
      Memcpy(shared.data, off + 6, Bytes16(aligned));
      ok := CopyIn(at, elem);
    }

    /**
      The payload copy of PerfRing::write: one chunk, or two when it wraps. The single chunk is
      not made when it would leave the ring.
     */
    method CopyIn(at: nat, elem: bytes) returns (ok: bool)
      requires at < shared.data.Length
      modifies shared.data
      ensures match Copied(at, |elem|, shared.data.Length)
              case None => !ok
              case Some(c) => ok && c <= |elem| && c <= shared.data.Length
                              && shared.data[..] == RingPatch(old(shared.data[..]), at, elem[..c])
    {
      hide Patch;
      var b := shared.data.Length;
      CopiedBounds(at, |elem|, b);
      if |elem| == 0 {
        PatchNothing(shared.data[..], at);
        return true;
      }
      var end := (at + |elem| - 1) % b;
      if end < at {
        var toEnd := b - at;
        ghost var stored := elem[..toEnd + end + 1];
        assert stored[..toEnd] == elem[..toEnd] && stored[toEnd..] == elem[toEnd..toEnd + end + 1];
        Memcpy(shared.data, at, elem[..toEnd]);
        Memcpy(shared.data, 0, elem[toEnd..toEnd + end + 1]);
      } else {
        if at + |elem| > b { return false; }
        assert elem[..|elem|] == elem;
        Memcpy(shared.data, at, elem);
      }
      return true;
    }

    /** The one or two chunks that hold `n` bytes from position `p`. */
    method Chunks(beginHead: u32, n: nat, ghost p: nat) returns (first: bytes, second: bytes)
      requires bufMask + 1 == shared.data.Length && Legal(shared.data.Length)
      requires beginHead == Wrap32(p) && 0 < n <= shared.data.Length
      ensures first + second == RingRead(shared.data[..], p, n)
    {
      hide And, Wrap32, IsPow2, RingRead;
      ghost var d := shared.data[..];
      assert And(beginHead, bufMask) == p % |d| by { WrapMod(p, |d|); }
      assert And(Wrap32(beginHead + n - 1), bufMask) == (p + n - 1) % |d| by {
        assert Wrap32(beginHead + (n - 1)) == Wrap32(p + (n - 1)) by { WrapAdd(p, n - 1); }
        WrapMod(p + n - 1, |d|);
      }
      ChunksRead(d, p, n);
      var begin := And(beginHead, bufMask);
      var end := And(Wrap32(beginHead + n - 1), bufMask);
      if end < begin {
        first, second := shared.data[begin..], shared.data[..end + 1];
      } else {
        first, second := shared.data[begin..begin + n], [];
        assert first + second == first;
      }
    }

    /** pr_peek_copy: `len` bytes of the head record's payload from `offset`. */
    method PeekCopy(offset: nat, len: nat, ghost h: nat, ghost t: nat) returns (r: bytes)
      requires At(h, t) && len <= shared.data.Length
      ensures r == RingRead(shared.data[..], h + HEADER + offset, len)
    {
      hide And, Wrap32, IsPow2, RingRead;
      if len == 0 {
        EmptyRead(shared.data[..], h + HEADER + offset);
        return [];
      }
      WrapAdd(h, HEADER + offset);
      var first, second := Chunks(Wrap32(bufHead + HEADER + offset), len, h + HEADER + offset);
      r := first + second;
    }

    /** The unpadded length in the head record's contents. */
    ghost function HeadLength(h: nat): u32
      requires shared.data.Length > 0
      reads shared.data
    {
      Load32(RingRead(shared.data[..], h + HEADER + 4, 4))
    }

    /** The size field in the head record's header. */
    ghost function HeadSize(h: nat): u16
      requires shared.data.Length > 0
      reads shared.data
    {
      Load16(RingRead(shared.data[..], h, HEADER)[6..])
    }

    /** What pr_peek asserts: the head record is in the ring and its contents hold the length. */
    ghost predicate CanPeek(h: nat, t: nat)
      requires shared.data.Length > 0
      reads shared.data
    {
      h + 8 <= t && (HeadLength(h) == 0 || (HEADER + 8 + HeadLength(h) <= HeadSize(h) && h + HeadSize(h) <= t))
    }

    /** pr_peek: the contents of the head record as at most two views with 16-bit lengths. */
    method Peek(ghost h: nat, ghost t: nat) returns (first: bytes, second: bytes)
      requires At(h, t) && CanPeek(h, t)
      ensures first + second == RingRead(shared.data[..], h + HEADER + 8, HeadLength(h))
      ensures |first| < 0x1_0000 && |second| < 0x1_0000
    {
      hide And, Wrap32, IsPow2, RingRead, Load32, Load16;
      var field := PeekCopy(4, 4, h, t);
      var n := Load32(field);
      if n == 0 {
        EmptyRead(shared.data[..], h + HEADER + 8);
        return [], [];
      }
      WrapAdd(h, HEADER + 8);
      first, second := Chunks(Wrap32(bufHead + HEADER + 8), n, h + HEADER + 8);
      assert |first + second| == n;
    }

    /** The two views joined are what pr_peek_copy gives at offset 8. */
    method PeekAgreesWithCopy(ghost h: nat, ghost t: nat) returns (first: bytes, second: bytes, copy: bytes)
      requires At(h, t) && CanPeek(h, t)
      ensures first + second == copy
    {
      hide And, Wrap32, IsPow2, RingRead, Load32, Load16;
      first, second := Peek(h, t);
      assert |first + second| == HeadLength(h);
      copy := PeekCopy(8, |first| + |second|, h, t);
    }

    /** The header of the head record: pr_peek_type and the size field. */
    method PeekHeader(ghost h: nat, ghost t: nat, ghost r: Record) returns (typ: u32, size: u16)
      requires At(h, t)
      requires IsRecord(RingRead(shared.data[..], h, RecordSize(|r.payload|)), r)
      ensures typ == r.typ && size == RecordSize(|r.payload|)
    {
      hide And, Wrap32, IsPow2, Align8, Load32, Load16;
      ghost var d := shared.data[..];
      LegalIsAligned(shared.data.Length);
      WrapMod(h, shared.data.Length);
      HeaderInPlace(h, shared.data.Length);
      HeaderRead(d, h, RecordSize(|r.payload|));
      var off := And(bufHead, bufMask);
      typ := Load32(shared.data[off..off + 4]);
      size := Load16(shared.data[off + 6..off + 8]);
    }

    /** PerfRing::read: the head record's payload with its padding. */
    method Read(ghost h: nat, ghost t: nat, ghost r: Record) returns (v: bytes)
      requires At(h, t) && h + RecordSize(|r.payload|) <= t
      requires IsRecord(RingRead(shared.data[..], h, RecordSize(|r.payload|)), r)
      modifies this
      ensures At(h + RecordSize(|r.payload|), t)
      ensures v == RingRead(shared.data[..], h, RecordSize(|r.payload|))[HEADER..]
      ensures |v| % 8 == 0 && |r.payload| <= |v| < |r.payload| + 8 && v[..|r.payload|] == r.payload
    {
      hide And, Wrap32, IsPow2, Align8, RingRead, Load32, Load16;
      var _, size := PeekHeader(h, t, r);
      v := PeekCopy(0, size - HEADER, h, t);
      ReadTail(shared.data[..], h, size);
      RecordBody(RingRead(shared.data[..], h, size), r);
      WrapAdd(h, size);
      AlignedStep(h, size);
      bufHead := Wrap32(bufHead + size);
    }

    /**
      pr_bytes_remaining: the pending bytes modulo the buffer size. This is the number of pending
      bytes exactly when the ring is not completely full; a full ring reports 0.
     */
    method BytesRemaining(ghost h: nat, ghost t: nat) returns (n: nat)
      requires At(h, t)
      ensures n == (t - h) % shared.data.Length
      ensures n == t - h <==> t - h < shared.data.Length
    {
      hide And, Wrap32, IsPow2;
      var b := shared.data.Length;
      WrapMod(h, b);
      WrapMod(t, b);
      var begin, end := And(bufHead, bufMask), And(bufTail, bufMask);
      ModOfSum(h, t - h, b);
      Distance(h, t, b);
      n := if end < begin then b - begin + end else end - begin;
    }
  }

  lemma AlignedStep(p: nat, n: nat)
    requires p % 8 == 0 && n % 8 == 0
    ensures (p + n) % 8 == 0
  {
  }

  lemma ReadTail(d: bytes, p: nat, n: nat)
    requires |d| > 0 && n >= HEADER
    ensures RingRead(d, p + HEADER + 0, n - HEADER) == RingRead(d, p, n)[HEADER..]
  {
  }

  lemma RecordBody(b: bytes, r: Record)
    requires IsRecord(b, r)
    ensures var v := b[HEADER..];
            |v| % 8 == 0 && |r.payload| <= |v| < |r.payload| + 8 && v[..|r.payload|] == r.payload
  {
    hide Load16, Load32;
    assert b[HEADER..][..|r.payload|] == b[HEADER..HEADER + |r.payload|];
  }

  lemma Distance(h: nat, t: nat, b: nat)
    requires b > 0 && h <= t <= h + b
    ensures (t - h) % b == if t % b < h % b then b - h % b + t % b else t % b - h % b
    ensures (t - h) % b == t - h <==> t - h < b
  {
    var x := t - h;
    ModOfSum(h, x, b);
    WrapOnce(x, b);
    WrapOnce(h % b + x % b, b);
    ModOfSum(x, h % b, b);
  }

  lemma EmptyRead(d: bytes, p: nat)
    requires |d| > 0
    ensures RingRead(d, p, 0) == []
  {
  }

  lemma AlignedSize(len: nat)
    requires len < 0x1_0000
    ensures And(Wrap32(len + HEADER + 7), Not32(7)) == RecordSize(len)
  {
    hide And;
    AlignDown(Wrap32(len + HEADER + 7));
  }

  lemma SpaceLeft(t: nat, n: nat, h: nat)
    requires h <= t <= h + 0x8000_0000 && n < 0x1_0000
    ensures Wrap32(Wrap32(t) + n - Wrap32(h)) == t + n - h
    ensures forall m: u32 :: Wrap32(m) == m
  {
    WrapDistance(t, n, h);
  }

  /** The first bytes of a circular read are where the header fields are. */
  lemma HeaderRead(d: bytes, p: nat, n: nat)
    requires |d| > 0 && p % |d| + HEADER <= |d| && n >= HEADER
    ensures var off := p % |d|;
            && Load32(RingRead(d, p, n)) == Load32(d[off..off + 4])
            && Load16(RingRead(d, p, n)[6..]) == Load16(d[off + 6..off + 8])
  {
    var off := p % |d|;
    forall i: nat | i < HEADER ensures RingRead(d, p, n)[i] == d[off + i] {
      ModOfSum(p, i, |d|);
      ModWithin(off + i, |d|);
    }
  }
}
