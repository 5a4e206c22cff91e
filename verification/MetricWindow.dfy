/**
  The rotating window of MetricStore (util/metric_store.h) and the branch-free clamp it uses
  (util/histogram.h). Timeslots are 16-bit and wrap; the theorems are about the unbounded slots
  behind them.
 */
module MetricWindow {
  import opened Bits

  // ----- histogram_bin -----

  /** `x >> 31` of a signed 32-bit value, read back as unsigned: all ones if negative, else zero. */
  function SignMask(x: int): (r: u32) {
    Wrap32(x / 0x8000_0000)
  }

  function HistogramBin(nBins: u32, item: int): (r: u32)
    requires nBins > 0
  {
    var mask := nBins - 1;
    var overflowMask := SignMask(mask - item);
    var negMask := SignMask(item);
    And(Or(And(Wrap32(item), Not32(negMask)), overflowMask), mask)
  }

  function Clamp(item: int, nBins: nat): int {
    if item < 0 then 0 else if item >= nBins then nBins - 1 else item
  }

  lemma OnesAndZeros(x: u32)
    ensures And(x, 0xFFFF_FFFF) == x && And(x, 0) == 0 && Or(x, 0xFFFF_FFFF) == 0xFFFF_FFFF && Or(x, 0) == x
  {
    hide And, Or, Pow2;
    Pow2Values();
    AndMask(x, 32);
    ModWithin(x, TWO32);
    AndZero(x);
    OrOnes(x, 32);
    OrZero(x);
  }

  /** The bit tricks clamp the item to the bins, provided the signed subtraction does not overflow. */
  lemma HistogramBinClamps(nBins: u32, item: int)
    requires IsPow2(nBins) && 0 < nBins <= 0x8000_0000
    requires -0x8000_0000 <= item < 0x8000_0000 && nBins - 1 - item < 0x8000_0000
    ensures HistogramBin(nBins, item) == Clamp(item, nBins)
  {
    hide And, Or, Pow2;
    var k: nat :| nBins == Pow2(k);
    var mask := nBins - 1;
    assert SignMask(item) == if item < 0 then 0xFFFF_FFFF else 0;
    assert SignMask(mask - item) == if item > mask then 0xFFFF_FFFF else 0;
    OnesAndZeros(Wrap32(item));
    OnesAndZeros(0);
    AndMask(Wrap32(item), k);
    AndMask(0, k);
    AndMask(0xFFFF_FFFF, k);
    if 0 <= item <= mask { ModWithin(item, nBins); }
    if item < 0 { ModWithin(0, nBins); }
    if item > mask { AllOnesMod(nBins); }
  }

  lemma AllOnesMod(n: nat)
    requires IsPow2(n) && 0 < n <= TWO32
    ensures 0xFFFF_FFFF % n == n - 1
  {
    Pow2Values();
    Pow2Divides(n, 32);
    var m: nat :| m > 0 && Pow2(32) == m * n;
    assert 0xFFFF_FFFF == (m - 1) * n + (n - 1);
    DivModUnique(0xFFFF_FFFF, n, m - 1, n - 1);
  }

  // ----- the window -----

  /** Conversion of an int to a signed 16-bit value. */
  function Signed16(x: int): int {
    var y := x % 0x1_0000;
    if y < 0x8000 then y else y - 0x1_0000
  }

  /** The current queue and the timeslot assigned to it. */
  datatype Window = Window(queue: nat, slot: u16)

  /** relative_timeslot once the current timeslot is established. */
  function Relative(w: Window, timeslot: u16): int {
    Signed16(Signed16(timeslot) - w.slot)
  }

  /** The epoch a lookup at this timeslot uses. */
  function Epoch(w: Window, n: u32, timeslot: u16): nat
    requires 0 < n
  {
    And(HistogramBin(n, Relative(w, timeslot)) + w.queue, n - 1)
  }

  function Advance(w: Window, n: u32): Window
    requires 0 < n
  {
    Window(And(w.queue + 1, n - 1), (w.slot + 1) % 0x1_0000)
  }

  function AdvanceBy(w: Window, n: u32, k: nat): (w': Window)
    requires 0 < n
  {
    if k == 0 then w else Advance(AdvanceBy(w, n, k - 1), n)
  }

  /** `w` is `q` queues and unbounded timeslot `c` from the origin. */
  ghost predicate At(w: Window, n: u32, q: nat, c: int) {
    n > 0 && w.queue == q % n && w.slot == c % 0x1_0000
  }

  lemma AdvanceAt(w: Window, n: u32, q: nat, c: int)
    requires IsPow2(n) && 0 < n && At(w, n, q, c)
    ensures At(Advance(w, n), n, q + 1, c + 1)
  {
    hide And, Pow2;
    assert And(w.queue + 1, n - 1) == (w.queue + 1) % n by {
      var e: nat :| n == Pow2(e);
      AndMask(w.queue + 1, e);
    }
    assert (q % n + 1) % n == (q + 1) % n by { ModOfSum(q, 1, n); }
    assert (c % 0x1_0000 + 1) % 0x1_0000 == (c + 1) % 0x1_0000 by { ModOfSum(c, 1, 0x1_0000); }
  }

  lemma {:induction false} AdvanceByAt(w: Window, n: u32, q: nat, c: int, k: nat)
    requires IsPow2(n) && 0 < n && At(w, n, q, c)
    ensures At(AdvanceBy(w, n, k), n, q + k, c + k)
  {
    hide Advance, At;
    if k == 0 {
    } else {
      AdvanceByAt(w, n, q, c, k - 1);
      AdvanceAt(AdvanceBy(w, n, k - 1), n, q + k - 1, c + k - 1);
    }
  }

  lemma Signed16Congruent(d: int, k: int)
    ensures Signed16(d + k * 0x1_0000) == Signed16(d)
  {
    ModAddMultiple(d, 0x1_0000, k);
  }

  lemma Signed16Exact(d: int)
    ensures Signed16(d) == d <==> -0x8000 <= d < 0x8000
  {
  }

  /** Sixteen-bit differences are the unbounded ones, brought into the signed 16-bit range. */
  lemma RelativeWraps(w: Window, n: u32, q: nat, c: int, s: int)
    requires At(w, n, q, c)
    ensures Relative(w, s % 0x1_0000) == Signed16(s - c)
  {
    var t := s % 0x1_0000;
    var k := c / 0x1_0000 - s / 0x1_0000 - (if t < 0x8000 then 0 else 1);
    assert Signed16(t) - w.slot == (s - c) + k * 0x1_0000;
    Signed16Congruent(s - c, k);
  }

  /** The epoch of every slot: wrap the distance to 16 bits, clamp it to the window, then rotate. */
  lemma EpochWraps(w: Window, n: u32, q: nat, c: int, s: int)
    requires IsPow2(n) && 0 < n <= 0x4000_0000 && At(w, n, q, c)
    ensures Epoch(w, n, s % 0x1_0000) == (q + Clamp(Signed16(s - c), n)) % n
  {
    hide And, Or, Pow2, HistogramBin, Signed16;
    RelativeWraps(w, n, q, c, s);
    Signed16Range(s - c);
    HistogramBinClamps(n, Signed16(s - c));
    var e: nat :| n == Pow2(e);
    var bin := Clamp(Signed16(s - c), n);
    AndMask(bin + w.queue, e);
    ModOfSum(q, bin, n);
  }

  lemma Signed16Range(d: int)
    ensures -0x8000 <= Signed16(d) < 0x8000
  {
  }

  /** Within 2^15 slots of the current one, the epoch is the unbounded distance clamped and rotated. */
  lemma EpochExact(w: Window, n: u32, q: nat, c: int, s: int)
    requires IsPow2(n) && 0 < n <= 0x4000_0000 && At(w, n, q, c) && -0x8000 <= s - c < 0x8000
    ensures Epoch(w, n, s % 0x1_0000) == (q + Clamp(s - c, n)) % n
  {
    hide Epoch, Signed16;
    EpochWraps(w, n, q, c, s);
    Signed16Exact(s - c);
  }

  /**
    While a slot is inside the window, before and after any number of advances, lookups for it
    reach the same epoch.
   */
  lemma SameEpoch(w: Window, n: u32, q: nat, c: int, s: int, k: nat)
    requires IsPow2(n) && 0 < n <= 0x8000 && At(w, n, q, c)
    requires k <= s - c < n
    ensures Epoch(AdvanceBy(w, n, k), n, s % 0x1_0000) == Epoch(w, n, s % 0x1_0000)
  {
    hide Epoch, AdvanceBy;
    AdvanceByAt(w, n, q, c, k);
    EpochExact(w, n, q, c, s);
    EpochExact(AdvanceBy(w, n, k), n, q + k, c + k, s);
  }

  /** Distinct slots inside the window reach distinct epochs. */
  lemma DistinctEpochs(w: Window, n: u32, q: nat, c: int, s: int, s': int)
    requires IsPow2(n) && 0 < n <= 0x8000 && At(w, n, q, c)
    requires 0 <= s - c < s' - c < n
    ensures Epoch(w, n, s % 0x1_0000) != Epoch(w, n, s' % 0x1_0000)
  {
    hide Epoch;
    EpochExact(w, n, q, c, s);
    EpochExact(w, n, q, c, s');
    ModDistinct(q + (s - c), q + (s' - c), n);
  }

  /** The lookup reaches the epoch of the slot's unbounded distance, clamped to the window. */
  predicate Clamped(w: Window, n: u32, q: nat, c: int, s: int)
    requires 0 < n
  {
    Epoch(w, n, s % 0x1_0000) == (q + Clamp(s - c, n)) % n
  }

  /**
    A slot outside the window reaches its first epoch if before it, its last if behind it, if and
    only if its distance modulo 2^16 says so: a slot 2^15 or more away may be taken for one on the
    other side, or for one inside.
   */
  lemma OutsideClampsIff(w: Window, n: u32, q: nat, c: int, s: int)
    requires IsPow2(n) && 2 <= n <= 0x8000 && At(w, n, q, c)
    ensures Epoch(w, n, c % 0x1_0000) == q % n && Epoch(w, n, (c + n - 1) % 0x1_0000) == (q + n - 1) % n
    ensures s < c ==> (Clamped(w, n, q, c, s) <==> (s - c) % 0x1_0000 == 0 || (s - c) % 0x1_0000 >= 0x8000)
    ensures s >= c + n ==> (Clamped(w, n, q, c, s) <==> n - 1 <= (s - c) % 0x1_0000 < 0x8000)
  {
    hide Epoch;
    EpochExact(w, n, q, c, c);
    EpochExact(w, n, q, c, c + n - 1);
    EpochWraps(w, n, q, c, s);
    SameRotation(q, Clamp(Signed16(s - c), n), Clamp(s - c, n), n);
  }

  lemma SameRotation(q: nat, x: nat, y: nat, n: nat)
    requires x < n && y < n
    ensures (q + x) % n == (q + y) % n <==> x == y
  {
    if x < y { ModDistinct(q + x, q + y, n); }
    if y < x { ModDistinct(q + y, q + x, n); }
  }

  /**
    Every slot from `lo` before the current one up to `hi` after it is clamped as it should be if
    and only if neither distance exceeds 2^15, or there is only one epoch.
   */
  lemma ClampRangeIff(n: u32, lo: nat, hi: nat)
    requires IsPow2(n) && 0 < n <= 0x8000
    ensures (forall w: Window, q: nat, c: int, s: int ::
               At(w, n, q, c) && c - lo <= s < c + hi ==> Clamped(w, n, q, c, s))
            <==> n == 1 || (lo <= 0x8000 && hi <= 0x8000)
  {
    hide Epoch, Clamped, At;
    if n == 1 || (lo <= 0x8000 && hi <= 0x8000) {
      forall w: Window, q: nat, c: int, s: int | At(w, n, q, c) && c - lo <= s < c + hi
        ensures Clamped(w, n, q, c, s)
      {
        WithinIsClamped(w, n, q, c, s);
      }
    } else {
      var w, s := Window(0, 0), if hi > 0x8000 then 0x8000 else -0x8001;
      FarSlot(w, n, s);
      assert At(w, n, 0, 0) && !Clamped(w, n, 0, 0, s);
    }
  }

  lemma WithinIsClamped(w: Window, n: u32, q: nat, c: int, s: int)
    requires IsPow2(n) && 0 < n <= 0x8000 && At(w, n, q, c)
    requires n == 1 || -0x8000 <= s - c < 0x8000
    ensures Clamped(w, n, q, c, s)
  {
    hide Epoch;
    EpochWraps(w, n, q, c, s);
    if n > 1 { Signed16Exact(s - c); }
  }

  /** The nearest slots that reach the wrong end of the window. */
  lemma FarSlot(w: Window, n: u32, s: int)
    requires IsPow2(n) && 2 <= n <= 0x8000 && w == Window(0, 0) && (s == 0x8000 || s == -0x8001)
    ensures At(w, n, 0, 0) && !Clamped(w, n, 0, 0, s)
  {
    hide Epoch;
    ModWithin(0, n);
    assert At(w, n, 0, 0);
    OutsideClampsIff(w, n, 0, 0, s);
  }

  /** The sixteen-bit slot number covers the window exactly when it has at most 2^15 epochs. */
  lemma WindowFitsIff(n: u32)
    requires 0 < n
    ensures (forall w: Window, q: nat, c: int, s: int ::
               At(w, n, q, c) && 0 <= s - c < n ==> Relative(w, s % 0x1_0000) == s - c)
            <==> n <= 0x8000
  {
    if n <= 0x8000 {
      forall w: Window, q: nat, c: int, s: int | At(w, n, q, c) && 0 <= s - c < n
        ensures Relative(w, s % 0x1_0000) == s - c
      {
        RelativeWraps(w, n, q, c, s);
      }
    } else {
      var w := Window(0, 0);
      assert At(w, n, 0, 0);
      assert Relative(w, 0x8000 % 0x1_0000) == -0x8000;
    }
  }
}
