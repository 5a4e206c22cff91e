/**
  Index arithmetic of the element queue (util/element_queue.c) and the layout it induces on an
  unbounded byte axis.

  The C code keeps free-running `u32` counters. Here every counter also has an unbounded
  counterpart, and the lemmas show that the wrapping tests decide as the unbounded ones do.
 */
module ElementQueueLayout {
  import opened Bits
  import opened Memory

  /** Largest length for which `len + 7` does not wrap. */
  const MAX_LEN: int := 0xFFFF_FFF8

  /** Sizes for which the queue works: see `SkipTestExact` for the bound on `b`. */
  ghost predicate Legal(n: int, b: int) {
    IsPow2(n) && IsPow2(b) && 0 < n <= 0x8000_0000 && 0 < b <= 0x4000_0000
  }

  // ----- the C arithmetic -----

  /** The size check of eq_init_contig: `n & (n - 1)` is zero. */
  predicate SizeAccepted(n: u32) {
    And(n, Wrap32(n - 1)) == 0
  }

  /** eq_init_contig accepts the powers of two, and also zero. */
  lemma SizeAcceptedIff(n: u32)
    ensures SizeAccepted(n) <==> n == 0 || IsPow2(n)
  {
    hide And;
    if n == 0 {
      assert And(0, Wrap32(-1)) == 0 by { NothingAnd(Wrap32(-1)); }
    } else {
      PowerOfTwoTest(n);
    }
  }

  lemma NothingAnd(y: nat)
    ensures And(0, y) == 0
  {
  }

  function AlignedLen(len: u32): (r: u32) {
    And(Wrap32(len + 7), Not32(7))
  }

  /** Where the next element goes: at the offset, or at the buffer's start if it would straddle its end. */
  function NextOffset(offset: u32, mask: u32, len: u32): (r: u32) {
    var last := And(Wrap32(offset + len - 1), Not32(mask));
    if Signed32(Wrap32(last - And(offset, Not32(mask)))) > 0 then last else offset
  }

  // ----- unbounded counterparts -----

  /** First position at or after `p` at which `a` bytes do not cross a multiple of `b`. */
  function Place(p: nat, a: nat, b: nat): (r: nat)
    requires b > 0
    ensures p <= r <= p + b && (a <= b ==> r % b + a <= b)
  {
    if p % b + a <= b then p else
      assert (p / b + 1) * b == p - p % b + b;
      ModAddMultiple(0, b, p / b + 1);
      p - p % b + b
  }

  lemma PlaceIsFirst(p: nat, a: nat, b: nat, q: nat)
    requires b > 0 && p <= q < Place(p, a, b)
    ensures q % b + a > b
  {
    var k := p / b;
    assert p == k * b + p % b;
    DivModUnique(q, b, k, q - k * b);
  }

  lemma AlignedLenExact(len: u32)
    ensures AlignedLen(len) >= len <==> len <= MAX_LEN
    ensures len <= MAX_LEN ==> AlignedLen(len) == Align8(len)
  {
    AlignDown(Wrap32(len + 7));
    AlignArithmetic(len, AlignedLen(len));
  }

  lemma AlignArithmetic(len: u32, r: int)
    requires r == Wrap32(len + 7) - Wrap32(len + 7) % 8
    ensures r >= len <==> len <= MAX_LEN
    ensures len <= MAX_LEN ==> r == Align8(len)
  {
  }

  lemma BlockStart(x: int, b: nat)
    requires IsPow2(b) && 0 < b <= TWO32
    ensures And(Wrap32(x), Not32(b - 1)) == Wrap32(x - x % b)
  {
    WrapMod(x, b);
    MaskIsMod(Wrap32(x), b);
    WrapSub(x, x % b);
    ModWithin(Wrap32(x) - x % b, TWO32);
  }

  /** Distance, in bytes, between the blocks holding the first and the last byte. */
  lemma BlockDistance(p: nat, a: nat, b: nat)
    requires a < b
    ensures var x := p + a - 1;
            (x - x % b) - (p - p % b) == if p % b + a == 0 then 0 - b else if p % b + a <= b then 0 else b as int
  {
    var r := p % b;
    assert p + a - 1 == p / b * b + (r + a - 1);
    if r + a == 0 {
      assert (p / b - 1) * b == p / b * b - b;
      DivModUnique(p + a - 1, b, p / b - 1, b - 1);
    } else if r + a <= b {
      DivModUnique(p + a - 1, b, p / b, r + a - 1);
    } else {
      assert (p / b + 1) * b == p / b * b + b;
      DivModUnique(p + a - 1, b, p / b + 1, r + a - 1 - b);
    }
  }

  lemma SignedDistance(delta: int, b: nat)
    requires IsPow2(b) && 0 < b <= 0x8000_0000
    requires delta == 0 - b || delta == 0 || delta == b
    ensures Signed32(Wrap32(delta)) > 0 <==> delta == b && b <= 0x4000_0000
  {
    if b > 0x4000_0000 { AtMostTwo31(b); }
    assert Wrap32(delta) == if delta < 0 then TWO32 - b else delta;
  }

  lemma SkipArithmetic(p: nat, a: nat, b: nat, first: u32, last: u32)
    requires IsPow2(b) && 0 < b <= 0x8000_0000 && a < b
    requires var x := p + a - 1; last == Wrap32(x - x % b)
    requires first == Wrap32(p - p % b)
    ensures Signed32(Wrap32(last - first)) > 0 <==> p % b + a > b && b <= 0x4000_0000
    ensures p % b + a > b ==> last == Wrap32(p - p % b + b)
  {
    var x := p + a - 1;
    BlockDistance(p, a, b);
    WrapSub(x - x % b, p - p % b);
    SignedDistance((x - x % b) - (p - p % b), b);
  }

  /** The skip decision, in terms of the unbounded position. */
  lemma NextOffsetDecides(p: nat, a: nat, b: nat)
    requires IsPow2(b) && 0 < b <= 0x8000_0000 && a < b
    ensures NextOffset(Wrap32(p), b - 1, a)
            == if p % b + a > b && b <= 0x4000_0000 then Wrap32(p - p % b + b) else Wrap32(p)
  {
    hide And, Wrap32, Signed32, Not32, IsPow2, Pow2;
    BlockStart(p, b);
    BlockStart(p + a - 1, b);
    assert Wrap32(Wrap32(p) + a - 1) == Wrap32(p + a - 1) by { WrapAdd(p, a - 1); }
    SkipArithmetic(p, a, b, And(Wrap32(p), Not32(b - 1)), And(Wrap32(Wrap32(p) + a - 1), Not32(b - 1)));
  }

  lemma AtMostTwo31(b: nat)
    requires IsPow2(b) && 0x4000_0000 < b <= 0x8000_0000
    ensures b == 0x8000_0000
  {
    Pow2Values();
    var k: nat :| b == Pow2(k);
    if k <= 30 { Pow2Monotone(k, 30); } else { Pow2Monotone(31, k); }
  }

  /** The wrapped skip-to-start computation agrees with the unbounded placement. */
  lemma NextOffsetExact(p: nat, a: nat, b: nat)
    requires IsPow2(b) && 0 < b <= 0x4000_0000 && a < b
    ensures NextOffset(Wrap32(p), b - 1, a) == Wrap32(Place(p, a, b))
  {
    NextOffsetDecides(p, a, b);
  }

  /**
    The signed comparison needs a buffer of at most 2^30 bytes: it is exact for every power of
    two up to 2^30 and wrong for 2^31.
   */
  lemma SkipTestExact(b: nat)
    requires IsPow2(b) && 0 < b <= 0x8000_0000
    ensures (forall p: nat, a: nat :: a < b ==> NextOffset(Wrap32(p), b - 1, a) == Wrap32(Place(p, a, b)))
            <==> b <= 0x4000_0000
  {
    if b <= 0x4000_0000 {
      forall p: nat, a: nat | a < b
        ensures NextOffset(Wrap32(p), b - 1, a) == Wrap32(Place(p, a, b))
      {
        NextOffsetExact(p, a, b);
      }
    } else {
      AtMostTwo31(b);
      var p, a: nat := 0x7FFF_FFF8, 16;
      NextOffsetDecides(p, a, b);
      assert Place(p, a, b) == 0x8000_0000;
    }
  }

  // ----- layout of a history of elements -----

  /** An element the queue can ever hold: its aligned length is below the buffer size. */
  predicate Fits(e: bytes, b: nat) {
    Align8(|e|) < b
  }

  predicate AllFit(hist: seq<bytes>, b: nat) {
    forall j :: 0 <= j < |hist| ==> Fits(hist[j], b)
  }

  /** Position just after the first `k` elements. */
  function End(hist: seq<bytes>, k: nat, b: nat): (r: nat)
    requires k <= |hist| && b > 0
    decreases k, 0
  {
    if k == 0 then 0 else Start(hist, k - 1, b) + Align8(|hist[k - 1]|)
  }

  /** Position of the first byte of element `j`. */
  function Start(hist: seq<bytes>, j: nat, b: nat): (r: nat)
    requires j < |hist| && b > 0
    decreases j, 1
  {
    Place(End(hist, j, b), Align8(|hist[j]|), b)
  }

  lemma {:induction false} EndMonotone(hist: seq<bytes>, j: nat, k: nat, b: nat)
    requires j <= k <= |hist| && b > 0
    ensures End(hist, j, b) <= End(hist, k, b)
    decreases k
  {
    if j == k {
    } else {
      EndMonotone(hist, j, k - 1, b);
    }
  }

  lemma {:induction false} EndPrefix(hist: seq<bytes>, more: seq<bytes>, k: nat, b: nat)
    requires k <= |hist| && b > 0
    ensures End(hist + more, k, b) == End(hist, k, b)
    decreases k
  {
    if k == 0 {
    } else {
      EndPrefix(hist, more, k - 1, b);
    }
  }

  lemma EndStep(hist: seq<bytes>, j: nat, b: nat)
    requires j < |hist| && b > 0
    ensures Start(hist, j, b) == Place(End(hist, j, b), Align8(|hist[j]|), b)
    ensures End(hist, j + 1, b) == Start(hist, j, b) + Align8(|hist[j]|)
  {
  }

  lemma StartPrefix(hist: seq<bytes>, more: seq<bytes>, j: nat, b: nat)
    requires j < |hist| && b > 0
    ensures Start(hist + more, j, b) == Start(hist, j, b)
  {
    EndPrefix(hist, more, j, b);
  }

  /** An element occupies one contiguous range of the buffer. */
  lemma Contiguous(hist: seq<bytes>, j: nat, i: nat, b: nat)
    requires j < |hist| && b > 0 && Fits(hist[j], b) && i < |hist[j]|
    ensures Start(hist, j, b) % b + |hist[j]| <= b
    ensures (Start(hist, j, b) + i) % b == Start(hist, j, b) % b + i
  {
    EndStep(hist, j, b);
    OffsetInBlock(Start(hist, j, b), i, b);
  }

  lemma OffsetInBlock(s: nat, i: nat, b: nat)
    requires b > 0 && s % b + i < b
    ensures (s + i) % b == s % b + i
  {
    DivModUnique(s + i, b, s / b, s % b + i);
  }

  /** Bytes of two elements that are both within `b` bytes of a common lower bound do not collide. */
  lemma Disjoint(hist: seq<bytes>, lo: nat, j: nat, k: nat, i: nat, l: nat, b: nat)
    requires lo <= j < k < |hist| && b > 0
    requires i < |hist[j]| && l < |hist[k]|
    requires End(hist, k + 1, b) - End(hist, lo, b) <= b
    ensures (Start(hist, j, b) + i) % b != (Start(hist, k, b) + l) % b
  {
    EndMonotone(hist, lo, j, b);
    EndMonotone(hist, j + 1, k, b);
    ModDistinct(Start(hist, j, b) + i, Start(hist, k, b) + l, b);
  }

  /** The buffer offset of element `j`. */
  function Offset(hist: seq<bytes>, j: nat, b: nat): nat
    requires j < |hist| && b > 0
  {
    Start(hist, j, b) % b
  }

  /** Elements within `b` bytes of a common lower bound occupy disjoint ranges of offsets. */
  lemma RangesApart(hist: seq<bytes>, lo: nat, j: nat, k: nat, b: nat)
    requires lo <= j < k < |hist| && b > 0
    requires |hist[j]| > 0 && |hist[k]| > 0 && Fits(hist[j], b) && Fits(hist[k], b)
    requires End(hist, k + 1, b) - End(hist, lo, b) <= b
    ensures var p, q := Offset(hist, j, b), Offset(hist, k, b);
            p + |hist[j]| <= q || q + |hist[k]| <= p
  {
    hide Start, End;
    var p, q := Offset(hist, j, b), Offset(hist, k, b);
    if p < q + |hist[k]| && q < p + |hist[j]| {
      var x := if p < q then q else p;
      Contiguous(hist, j, x - p, b);
      Contiguous(hist, k, x - q, b);
      Disjoint(hist, lo, j, k, x - p, x - q, b);
    }
  }
}
