/** Byte copies into arrays. */
module Memory {
  import opened Bits

  type bytes = seq<byte>

  /** `d` with `e` copied over it at offset `at`. */
  function Patch(d: bytes, at: nat, e: bytes): (r: bytes)
    requires at + |e| <= |d|
    ensures |r| == |d|
  {
    d[..at] + e + d[at + |e|..]
  }

  /** memcpy(dst + at, src, |src|) */
  method Memcpy(dst: array<byte>, at: nat, src: bytes)
    requires at + |src| <= dst.Length
    modifies dst
    ensures dst[..] == Patch(old(dst[..]), at, src)
  {
    for i := 0 to |src|
      invariant forall k :: 0 <= k < dst.Length ==>
                  dst[k] == if at <= k < at + i then src[k - at] else old(dst[k])
    {
      dst[at + i] := src[i];
    }
  }

  lemma PatchAt(d: bytes, at: nat, e: bytes, k: nat)
    requires at + |e| <= |d| && k < |d|
    ensures Patch(d, at, e)[k] == if at <= k < at + |e| then e[k - at] else d[k]
  {
  }

  lemma PatchStep(d: bytes, at: nat, e: bytes)
    requires e != [] && at + |e| <= |d|
    ensures Patch(d[at := e[0]], at + 1, e[1..]) == Patch(d, at, e)
  {
  }

  lemma PatchNothing(d: bytes, at: nat)
    requires at <= |d|
    ensures Patch(d, at, []) == d
  {
  }

  /** A range of the same length that is the patched one, or misses it. */
  lemma PatchRange(d: bytes, at: nat, e: bytes, q: nat)
    requires at + |e| <= |d| && q + |e| <= |d|
    requires q == at || q + |e| <= at || at + |e| <= q
    ensures Patch(d, at, e)[q..q + |e|] == if q == at then e else d[q..q + |e|]
  {
  }

  // ----- little-endian words -----

  /** The u32 at the start of `b`. */
  function Load32(b: bytes): (r: u32)
    requires |b| >= 4
  {
    (b[0] as int) + 0x100 * (b[1] as int) + 0x1_0000 * (b[2] as int) + 0x100_0000 * (b[3] as int)
  }

  /** `b` with the u32 at its start replaced. */
  function Store32(b: bytes, v: u32): (r: bytes)
    requires |b| >= 4
    ensures |r| == |b| && Load32(r) == v
  {
    var v1 := v / 0x100;
    var v2 := v1 / 0x100;
    assert v == v % 0x100 + 0x100 * v1 && v1 == v1 % 0x100 + 0x100 * v2;
    assert v2 == v2 % 0x100 + 0x100 * (v2 / 0x100);
    [v % 0x100, v1 % 0x100, v2 % 0x100, v2 / 0x100] + b[4..]
  }

  /** The u16 at the start of `b`. */
  function Load16(b: bytes): (r: u16)
    requires |b| >= 2
  {
    (b[0] as int) + 0x100 * (b[1] as int)
  }

  function Bytes16(v: u16): (r: bytes)
    ensures |r| == 2 && Load16(r) == v
  {
    [v % 0x100, v / 0x100]
  }

  function Bytes32(v: u32): (r: bytes)
    ensures |r| == 4 && Load32(r) == v
  {
    Store32([0, 0, 0, 0], v)
  }
}
