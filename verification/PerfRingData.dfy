/**
  The bytes of the perf ring (util/perf_ring.c): records at 8-byte aligned positions of a
  power-of-two buffer, with payloads copied in and out in one or two chunks.
 */
module PerfRingData {
  import opened Bits
  import opened Common
  import opened Memory

  /** sizeof(struct perf_event_header) */
  const HEADER: nat := 8

  datatype Record = Record(typ: u32, payload: bytes)

  /** Bytes a record with a payload of this length takes. */
  function RecordSize(len: nat): (r: nat)
    ensures len + HEADER <= r && r % 8 == 0
  {
    Align8(len + HEADER)
  }

  // ----- circular reads and writes -----

  /** `n` bytes from position `p`, wrapping at the end of the buffer. */
  function RingRead(d: bytes, p: nat, n: nat): (r: bytes)
    requires |d| > 0
    ensures |r| == n
  {
    seq(n, i requires 0 <= i => d[(p + i) % |d|])
  }

  /** The two memcpy calls of PerfRing::write. */
  function RingPatch(d: bytes, at: nat, s: bytes): (r: bytes)
    requires at < |d| && |s| <= |d|
    ensures |r| == |d|
  {
    if at + |s| <= |d| then Patch(d, at, s)
    else Patch(Patch(d, at, s[..|d| - at]), 0, s[|d| - at..])
  }

  lemma WrapOnce(x: nat, n: nat)
    requires n > 0 && x < 2 * n
    ensures x % n == if x < n then x else x - n
  {
    if x < n { ModWithin(x, n); } else { DivModUnique(x, n, 1, x - n); }
  }

  /** Every position is either the patched byte or the old one. */
  lemma RingPatchAt(d: bytes, at: nat, s: bytes, j: nat)
    requires at < |d| && |s| <= |d| && j < |d|
    ensures RingPatch(d, at, s)[(at + j) % |d|] == if j < |s| then s[j] else d[(at + j) % |d|]
  {
    hide Patch;
    WrapOnce(at + j, |d|);
    var k := (at + j) % |d|;
    if at + |s| <= |d| {
      PatchAt(d, at, s, k);
    } else {
      var first := |d| - at;
      PatchAt(d, at, s[..first], k);
      PatchAt(Patch(d, at, s[..first]), 0, s[first..], k);
    }
  }

  /** One or two chunks, as pr_peek_copy takes them, are the circular read. */
  lemma ChunksRead(d: bytes, p: nat, n: nat)
    requires 0 < n <= |d|
    ensures var begin := p % |d|;
            var end := (p + n - 1) % |d|;
            if end < begin
            then begin + n > |d| && end + 1 == n - (|d| - begin) && d[begin..] + d[..end + 1] == RingRead(d, p, n)
            else begin + n <= |d| && d[begin..begin + n] == RingRead(d, p, n)
  {
    var b := |d|;
    var begin := p % b;
    var got := RingRead(d, p, n);
    forall i: nat | i < n ensures got[i] == d[if begin + i < b then begin + i else begin + i - b] {
      ModOfSum(p, i, b);
      WrapOnce(begin + i, b);
    }
    ModOfSum(p, n - 1, b);
    WrapOnce(begin + n - 1, b);
  }

  // ----- records -----

  /** The bytes `b` are the record: header fields, payload, and padding of any value. */
  predicate IsRecord(b: bytes, r: Record) {
    && |b| == RecordSize(|r.payload|) < 0x1_0000
    && Load32(b) == r.typ
    && Load16(b[6..]) == |b|
    && b[HEADER..HEADER + |r.payload|] == r.payload
  }

  /**
    The buffer after the header stores of pr_write and a payload copy at the granted offset. The
    copy may be longer than `size` reserves, up to the whole ring.
   */
  function WriteRaw(d: bytes, p: nat, typ: u32, size: u16, payload: bytes): (d': bytes)
    requires |d| > 0 && |d| % 8 == 0 && p % 8 == 0 && |payload| <= |d|
    ensures |d'| == |d|
  {
    var off := p % |d|;
    HeaderInPlace(p, |d|);
    var d1 := Patch(d, off, Bytes32(typ));
    var d2 := Patch(d1, off + 6, Bytes16(size));
    RingPatch(d2, (p + HEADER) % |d|, payload)
  }

  /** A header never straddles the end of the buffer. */
  lemma HeaderInPlace(p: nat, b: nat)
    requires b > 0 && b % 8 == 0 && p % 8 == 0
    ensures p % b + HEADER <= b && (p % b) % 8 == 0
  {
    assert b == (b / 8) * 8;
    ModOfMod(p, 8, b / 8);
  }

  /** What byte `i` from position `p` is after a raw write there. */
  function WrittenByte(d: bytes, p: nat, typ: u32, size: u16, payload: bytes, i: nat): byte
    requires |d| >= HEADER && |payload| <= |d| && i < |d|
  {
    // byte i is byte j of the payload copy, going round from the payload's start
    var j := if i >= HEADER then i - HEADER else i + |d| - HEADER;
    if j < |payload| then payload[j]
    else if i < 4 then Bytes32(typ)[i]
    else if 6 <= i < 8 then Bytes16(size)[i - 6]
    else d[(p + i) % |d|]
  }

  /** Every byte of the ring after a raw write. */
  lemma ByteAfterWrite(d: bytes, p: nat, typ: u32, size: u16, payload: bytes, i: nat)
    requires |d| > 0 && |d| % 8 == 0 && p % 8 == 0 && |payload| <= |d| && i < |d|
    ensures WriteRaw(d, p, typ, size, payload)[(p + i) % |d|] == WrittenByte(d, p, typ, size, payload, i)
  {
    hide Patch, RingPatch, Bytes16, Bytes32;
    var b, off, k := |d|, p % |d|, (p + i) % |d|;
    HeaderInPlace(p, b);
    var d1 := Patch(d, off, Bytes32(typ));
    var d2 := Patch(d1, off + 6, Bytes16(size));
    assert k == if off + i < b then off + i else off + i - b by {
      ModOfSum(p, i, b);
      WrapOnce(off + i, b);
    }
    PatchAt(d, off, Bytes32(typ), k);
    PatchAt(d1, off + 6, Bytes16(size), k);
    var j := if i >= HEADER then i - HEADER else i + b - HEADER;
    assert ((p + HEADER) % b + j) % b == k by { PayloadIndex(p, i, j, b); }
    RingPatchAt(d2, (p + HEADER) % b, payload, j);
  }

  /**
    A copy that stops short of the header by going round makes the circular read at `p` a record
    of the type, of the reserved size and of the bytes that fit it.
   */
  lemma WriteThenRead(d: bytes, p: nat, typ: u32, payload: bytes, len: nat)
    requires |d| > 0 && |d| % 8 == 0 && p % 8 == 0
    requires len <= |payload| && HEADER + |payload| <= |d|
    requires RecordSize(len) <= |d| && RecordSize(len) < 0x1_0000
    ensures var d' := WriteRaw(d, p, typ, RecordSize(len), payload);
            IsRecord(RingRead(d', p, RecordSize(len)), Record(typ, payload[..len]))
  {
    hide WriteRaw, Bytes16, Bytes32, Align8;
    var n := RecordSize(len);
    var got := RingRead(WriteRaw(d, p, typ, n, payload), p, n);
    forall i: nat | i < n ensures got[i] == WrittenByte(d, p, typ, n, payload, i) {
      ByteAfterWrite(d, p, typ, n, payload, i);
    }
    HeaderFields(got, Bytes32(typ), Bytes16(n));
    assert got[HEADER..HEADER + len] == payload[..len];
  }

  /** The header words are read from the header's bytes. */
  lemma HeaderFields(got: bytes, typ: bytes, size: bytes)
    requires |got| >= HEADER && |typ| == 4 && |size| == 2
    requires forall i: nat :: i < 4 ==> got[i] == typ[i]
    requires forall i: nat :: 6 <= i < 8 ==> got[i] == size[i - 6]
    ensures Load32(got) == Load32(typ) && Load16(got[6..]) == Load16(size)
  {
    assert got[6..][0] == got[6] && got[6..][1] == got[7];
  }

  lemma PayloadIndex(p: nat, i: nat, j: nat, b: nat)
    requires b > 0 && i < b && (j == i - HEADER || j == i + b - HEADER)
    ensures ((p + HEADER) % b + j) % b == (p + i) % b
  {
    ModOfSum(p + HEADER, j, b);
    if j != i - HEADER { ModAddMultiple(p + i, b, 1); }
  }

  // ----- the copy of PerfRing::write, for a payload of any length -----

  /**
    How many bytes of a payload of `len` bytes the copy at offset `at` stores, going round the
    ring; nothing when it would run past the end of the ring's memory.
   */
  function Copied(at: nat, len: nat, b: nat): Option<nat>
    requires at < b
  {
    if len == 0 then Some(0) else
      var end := (at + len - 1) % b;
      if end < at then Some(b - at + end + 1)
      else if at + len <= b then Some(len)
      else None
  }

  lemma CopiedBounds(at: nat, len: nat, b: nat)
    requires at < b
    ensures Copied(at, len, b).Some? ==>
              var c := Copied(at, len, b).value;
              c <= len && c <= b && (len - c) % b == 0
    ensures len <= b ==> Copied(at, len, b) == Some(len)
  {
    if len == 0 {
      ModWithin(0, b);
    } else {
      var x := at + len - 1;
      if len <= b { WrapOnce(x, b); }
      var q := x / b;
      assert x == q * b + x % b;
      ModWithin(0, b);
      if q == 0 {
        ModWithin(x, b);
      } else {
        MulMonotone(1, q, b);
        assert (q - 1) * b == q * b - b;
        DivModUnique((q - 1) * b, b, q - 1, 0);
      }
    }
  }

  /** The 16-bit length that pr_write is given. */
  function Narrowed(elem: bytes): (r: u16)
    ensures r <= |elem| && (|elem| < 0x1_0000 ==> r == |elem|)
  {
    |elem| % 0x1_0000
  }

  /** The ring after PerfRing::write was granted position `p`; nothing when the copy leaves the ring. */
  function Stored(d: bytes, p: nat, typ: u32, elem: bytes): Option<bytes>
    requires |d| > 0 && |d| % 8 == 0 && p % 8 == 0 && RecordSize(Narrowed(elem)) < 0x1_0000
  {
    var c := Copied((p + HEADER) % |d|, |elem|, |d|);
    CopiedBounds((p + HEADER) % |d|, |elem|, |d|);
    if c.None? then None
    else Some(WriteRaw(d, p, typ, RecordSize(Narrowed(elem)), elem[..c.value]))
  }
}
