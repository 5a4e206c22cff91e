/**
  Fixed-width words as natural numbers, with the C operators `&`, `|`, `~`, `<<` and
  `__builtin_ctzll` defined bit by bit, and the identities the data structures rely on.
 */
module Bits {

  const TWO32: int := 0x1_0000_0000
  const TWO64: int := 0x1_0000_0000_0000_0000

  type byte = x: int | 0 <= x < 0x100
  type u16 = x: int | 0 <= x < 0x1_0000
  type u32 = x: int | 0 <= x < 0x1_0000_0000
  type u64 = x: int | 0 <= x < 0x1_0000_0000_0000_0000

  /** Conversion to `u32`: the value modulo 2^32. */
  function Wrap32(x: int): (r: u32) {
    x % TWO32
  }

  /** Conversion of a `u32` to a signed 32-bit `int` (two's complement). */
  function Signed32(x: u32): int {
    if x < 0x8000_0000 then x else x - TWO32
  }

  function Pow2(k: nat): (r: nat)
    ensures r > 0
  {
    if k == 0 then 1 else 2 * Pow2(k - 1)
  }

  ghost predicate IsPow2(n: int) {
    exists k: nat :: n == Pow2(k)
  }

  /** Bitwise and. */
  function And(x: nat, y: nat): (r: nat)
    ensures r <= x && r <= y
    decreases x
  {
    if x == 0 then 0 else 2 * And(x / 2, y / 2) + (if x % 2 == 1 && y % 2 == 1 then 1 else 0)
  }

  /** Bitwise or. */
  function Or(x: nat, y: nat): (r: nat)
    decreases x
  {
    if x == 0 then y else 2 * Or(x / 2, y / 2) + (if x % 2 == 1 then 1 else y % 2)
  }

  /** Bitwise exclusive or. */
  function Xor(x: nat, y: nat): (r: nat)
    decreases x
  {
    if x == 0 then y else 2 * Xor(x / 2, y / 2) + (if x % 2 == y % 2 then 0 else 1)
  }

  /** Bitwise complement of a word of `w` bits. */
  function Not(w: nat, x: nat): (r: nat)
    requires x < Pow2(w)
    ensures r < Pow2(w)
  {
    Pow2(w) - 1 - x
  }

  /** `~x` for a `u32`. */
  function Not32(x: u32): (r: u32) {
    0xFFFF_FFFF - x
  }

  /** Whether bit `i` of `x` is set. */
  predicate Bit(x: nat, i: nat) {
    if i == 0 then x % 2 == 1 else Bit(x / 2, i - 1)
  }

  /** Count of trailing zeros. */
  function Ctz(x: nat): (r: nat)
    requires x > 0
    ensures Bit(x, r)
    ensures forall j: nat :: j < r ==> !Bit(x, j)
  {
    if x % 2 == 1 then 0 else
      assert forall j: nat :: 0 < j ==> Bit(x, j) == Bit(x / 2, j - 1);
      1 + Ctz(x / 2)
  }

  // ----- division -----

  lemma DivModUnique(x: int, d: int, q: int, r: int)
    requires 0 <= r < d
    requires x == q * d + r
    ensures x / d == q && x % d == r
  {
    var q', r' := x / d, x % d;
    MulMonotone(q + 1, q', d);
    MulMonotone(q' + 1, q, d);
    assert x == q' * d + r';
    assert (q + 1) * d == q * d + d && (q' + 1) * d == q' * d + d;
  }

  lemma MulMonotone(a: int, b: int, d: int)
    requires 0 <= d
    ensures a <= b ==> a * d <= b * d
  {
  }

  /** Halving commutes with reduction modulo a power of two. */
  lemma ModTwice(x: nat, p: int)
    requires p > 0
    ensures x % (2 * p) == 2 * ((x / 2) % p) + x % 2
  {
    var q, r := (x / 2) / p, (x / 2) % p;
    assert x / 2 == q * p + r;
    assert q * (2 * p) == 2 * (q * p);
    DivModUnique(x, 2 * p, q, 2 * r + x % 2);
  }

  lemma ModAddMultiple(x: int, d: int, m: int)
    requires d > 0
    ensures (x + m * d) % d == x % d && (x + m * d) / d == x / d + m
  {
    assert x + m * d == (x / d + m) * d + x % d;
    DivModUnique(x + m * d, d, x / d + m, x % d);
  }

  /** Reducing modulo a multiple of `d` first does not change the residue modulo `d`. */
  lemma ModOfMod(x: int, d: int, m: int)
    requires d > 0 && m > 0
    ensures (x % (m * d)) % d == x % d
  {
    var q := x / (m * d);
    assert x == (m * d) * q + x % (m * d);
    assert (m * d) * q == (m * q) * d;
    ModAddMultiple(x % (m * d), d, m * q);
  }

  lemma ModOfSum(x: int, y: int, n: int)
    requires n > 0
    ensures (x % n + y) % n == (x + y) % n
  {
    assert x + y == (x % n + y) + (x / n) * n;
    ModAddMultiple(x % n + y, n, x / n);
  }

  lemma ModWithin(x: int, d: int)
    requires d > 0
    ensures 0 <= x < d ==> x % d == x && x / d == 0
  {
    if 0 <= x < d { DivModUnique(x, d, 0, x); }
  }

  lemma ModDistinct(x: int, y: int, d: int)
    requires 0 < y - x < d
    ensures x % d != y % d
  {
    if x % d == y % d {
      assert y - x == (y / d - x / d) * d;
      MulMonotone(y / d - x / d, 0, d);
      MulMonotone(1, y / d - x / d, d);
    }
  }

  /** Differences of wrapped counters are exact while the true difference fits a word. */
  lemma WrapDifference(x: int, y: int)
    requires 0 <= x - y < TWO32
    ensures Wrap32(Wrap32(x) - Wrap32(y)) == x - y
  {
    WrapSub(x, y);
    ModWithin(x - y, TWO32);
  }

  lemma WrapSub(x: int, y: int)
    ensures Wrap32(Wrap32(x) - Wrap32(y)) == Wrap32(x - y)
    ensures Wrap32(Wrap32(x) - y) == Wrap32(x - y)
  {
  }

  lemma WrapAdd(x: int, y: int)
    ensures Wrap32(Wrap32(x) + y) == Wrap32(x + y)
  {
  }

  /** `x + a - y` on wrapped `x` and `y` is exact while the true value fits a word. */
  lemma WrapDistance(x: int, a: int, y: int)
    requires 0 <= x + a - y < TWO32
    ensures Wrap32(Wrap32(x) + a - Wrap32(y)) == x + a - y
  {
    assert Wrap32(Wrap32(x) + (a - Wrap32(y))) == Wrap32(x + (a - Wrap32(y)));
    assert Wrap32((x + a) - Wrap32(y)) == Wrap32((x + a) - y);
  }

  // ----- powers of two -----

  lemma {:induction false} Pow2Add(a: nat, b: nat)
    ensures Pow2(a + b) == Pow2(a) * Pow2(b)
  {
    if a == 0 {
    } else {
      Pow2Add(a - 1, b);
      assert Pow2(a + b) == 2 * Pow2(a - 1 + b);
      assert 2 * (Pow2(a - 1) * Pow2(b)) == (2 * Pow2(a - 1)) * Pow2(b);
    }
  }

  lemma {:induction false} Pow2Monotone(a: nat, b: nat)
    requires a <= b
    ensures Pow2(a) <= Pow2(b)
    ensures a < b ==> 2 * Pow2(a) <= Pow2(b)
    decreases b
  {
    if a == b {
    } else {
      Pow2Monotone(a, b - 1);
    }
  }

  lemma Pow2Values()
    ensures Pow2(3) == 8 && Pow2(6) == 64 && Pow2(8) == 0x100 && Pow2(16) == 0x1_0000
    ensures Pow2(12) == 0x1000 && Pow2(18) == 0x4_0000 && Pow2(24) == 0x100_0000
    ensures Pow2(30) == 0x4000_0000 && Pow2(31) == 0x8000_0000
    ensures Pow2(32) == TWO32 && Pow2(64) == TWO64
  {
    assert Pow2(4) == 16;
    assert Pow2(8) == 0x100;
    Pow2Add(8, 8);
    Pow2Add(6, 6); Pow2Add(6, 12); Pow2Add(6, 18); Pow2Add(6, 24);
    Pow2Add(16, 16);
    Pow2Add(32, 32);
  }

  /** A power of two that is at most 2^w divides 2^w. */
  lemma Pow2Divides(n: int, w: nat)
    requires IsPow2(n) && n <= Pow2(w)
    ensures exists m: nat :: m > 0 && Pow2(w) == m * n
  {
    var k: nat :| n == Pow2(k);
    if k > w { Pow2Monotone(w, k); }
    Pow2Add(w - k, k);
    assert Pow2(w - k) > 0 && Pow2(w) == Pow2(w - k) * n;
  }

  /** `x & (2^k - 1)` is the remainder modulo 2^k. */
  lemma {:induction false} AndMask(x: nat, k: nat)
    ensures And(x, Pow2(k) - 1) == x % Pow2(k)
    decreases k
  {
    if k == 0 {
      AndZero(x);
    } else {
      var p := Pow2(k - 1);
      AndMask(x / 2, k - 1);
      assert (2 * p - 1) / 2 == p - 1 && (2 * p - 1) % 2 == 1;
      ModTwice(x, p);
      if x == 0 { ModWithin(0, 2 * p); }
    }
  }

  lemma {:induction false} AndZero(x: nat)
    ensures And(x, 0) == 0
  {
    if x == 0 {
    } else {
      AndZero(x / 2);
    }
  }

  lemma AndEven(x: nat, n: nat)
    requires n % 2 == 0
    ensures And(x, n) == 2 * And(x / 2, n / 2)
  {
    if x == 0 { assert And(0, n / 2) == 0; }
  }

  /** `x & ~(2^k - 1)`, in a word of `w` bits, rounds `x` down to a multiple of 2^k. */
  lemma {:induction false} AndNotMask(x: nat, w: nat, k: nat)
    requires k <= w && x < Pow2(w)
    ensures Pow2(k) <= Pow2(w)
    ensures And(x, Not(w, Pow2(k) - 1)) == x - x % Pow2(k)
    decreases k
  {
    hide And, Pow2;
    Pow2Monotone(k, w);
    if k == 0 {
      Pow2Zero();
      AndAllOnes(x, w);
      assert x % 1 == 0;
    } else {
      Pow2Step(w);
      Pow2Step(k);
      AndNotMask(x / 2, w - 1, k - 1);
      AndNotStep(x, Pow2(w - 1), Pow2(k - 1));
    }
  }

  lemma AndAllOnes(x: nat, w: nat)
    requires x < Pow2(w)
    ensures And(x, Pow2(w) - 1) == x
  {
    hide And, Pow2;
    AndMask(x, w);
    ModWithin(x, Pow2(w));
  }

  lemma AndNotStep(x: nat, h: nat, p: nat)
    requires 0 < p <= h && And(x / 2, h - 1 - (p - 1)) == x / 2 - (x / 2) % p
    ensures And(x, 2 * h - 1 - (2 * p - 1)) == x - x % (2 * p)
  {
    hide And;
    assert (2 * (h - p)) / 2 == h - p;
    AndEven(x, 2 * (h - p));
    ModTwice(x, p);
  }

  lemma Pow2Zero()
    ensures Pow2(0) == 1
  {
  }

  lemma Pow2Step(k: nat)
    requires k > 0
    ensures Pow2(k) == 2 * Pow2(k - 1)
  {
  }

  /** The test `(n & (n - 1)) == 0` accepts exactly the powers of two, and zero. */
  lemma {:induction false} PowerOfTwoTest(n: nat)
    requires n > 0
    ensures And(n, n - 1) == 0 <==> IsPow2(n)
  {
    if n % 2 == 1 {
      ClearLowestOdd(n);
      if n == 1 { assert n == Pow2(0); }
      if IsPow2(n) {
        var k: nat :| n == Pow2(k);
        assert k == 0;
      }
    } else {
      var h := n / 2;
      PowerOfTwoTest(h);
      assert (n - 1) / 2 == h - 1;
      if IsPow2(h) {
        var k: nat :| h == Pow2(k);
        assert n == Pow2(k + 1);
      }
      if IsPow2(n) {
        var k: nat :| n == Pow2(k);
        assert h == Pow2(k - 1);
      }
    }
  }

  lemma {:induction false} AndSelf(x: nat)
    ensures And(x, x) == x
  {
    if x == 0 {
    } else {
      AndSelf(x / 2);
    }
  }

  lemma ClearLowestOdd(n: nat)
    requires n % 2 == 1
    ensures And(n, n - 1) == n - 1
  {
    AndSelf(n / 2);
    assert (n - 1) / 2 == n / 2;
  }

  // ----- single bits -----

  lemma {:induction false} ZeroHasNoBits(i: nat)
    ensures !Bit(0, i)
  {
    if i == 0 {
    } else {
      ZeroHasNoBits(i - 1);
    }
  }

  /** A nonzero word has a set bit; all bits of a `w`-bit word are below `w`. */
  lemma {:induction false} BitBelowWidth(x: nat, w: nat, i: nat)
    requires x < Pow2(w) && Bit(x, i)
    ensures i < w && x > 0
    decreases i
  {
    if x == 0 { ZeroHasNoBits(i); }
    if i == 0 {
    } else {
      BitBelowWidth(x / 2, w - 1, i - 1);
    }
  }

  /** `x & (x - 1)` clears exactly the lowest set bit. */
  lemma {:induction false} ClearLowest(x: nat, i: nat)
    requires x > 0
    ensures Bit(And(x, x - 1), i) <==> Bit(x, i) && i != Ctz(x)
    decreases x
  {
    if x % 2 == 1 {
      ClearLowestOdd(x);
      assert (x - 1) / 2 == x / 2;
    } else {
      assert (x - 1) / 2 == x / 2 - 1;
      if i == 0 {
      } else {
        ClearLowest(x / 2, i - 1);
      }
    }
  }

  lemma {:induction false} OrBits(x: nat, y: nat, i: nat)
    ensures Bit(Or(x, y), i) <==> Bit(x, i) || Bit(y, i)
    decreases i
  {
    if x == 0 {
      ZeroHasNoBits(i);
    } else if i == 0 {
    } else {
      OrBits(x / 2, y / 2, i - 1);
    }
  }

  lemma {:induction false} AndBits(x: nat, y: nat, i: nat)
    ensures Bit(And(x, y), i) <==> Bit(x, i) && Bit(y, i)
    decreases i
  {
    if x == 0 {
      ZeroHasNoBits(i);
    } else if i == 0 {
    } else {
      AndBits(x / 2, y / 2, i - 1);
    }
  }

  lemma {:induction false} NotBits(w: nat, x: nat, i: nat)
    requires x < Pow2(w)
    ensures Bit(Not(w, x), i) <==> i < w && !Bit(x, i)
    decreases w
  {
    if w == 0 {
      ZeroHasNoBits(i);
    } else {
      assert Not(w, x) / 2 == Not(w - 1, x / 2) && Not(w, x) % 2 == 1 - x % 2;
      if i == 0 {
      } else {
        NotBits(w - 1, x / 2, i - 1);
      }
    }
  }

  /** Or-ing with all ones gives all ones. */
  lemma {:induction false} OrOnes(x: nat, w: nat)
    requires x < Pow2(w)
    ensures Or(x, Pow2(w) - 1) == Pow2(w) - 1
    decreases w
  {
    if x == 0 {
    } else {
      Pow2Step(w);
      OrOnes(x / 2, w - 1);
    }
  }

  lemma {:induction false} OrZero(x: nat)
    ensures Or(x, 0) == x
  {
    if x == 0 {
    } else {
      OrZero(x / 2);
    }
  }

  /** `x | (1 << k)` sets bit `k` and no other. */
  lemma SetBitBits(x: nat, k: nat, i: nat)
    ensures Bit(Or(x, Pow2(k)), i) <==> Bit(x, i) || i == k
  {
    hide Bit, Or, Pow2;
    OrBits(x, Pow2(k), i);
    Pow2Bits(k, i);
  }

  /** `x & ~(1 << k)` clears bit `k` and no other. */
  lemma ClearBitBits(x: nat, w: nat, k: nat, i: nat)
    requires x < Pow2(w) && k < w
    ensures Pow2(k) < Pow2(w)
    ensures Bit(And(x, Not(w, Pow2(k))), i) <==> Bit(x, i) && i != k
  {
    hide Bit, And, Pow2, Not;
    Pow2Monotone(k, w);
    AndBits(x, Not(w, Pow2(k)), i);
    NotBits(w, Pow2(k), i);
    Pow2Bits(k, i);
    if Bit(x, i) { BitBelowWidth(x, w, i); }
  }

  lemma {:induction false} Pow2Bits(k: nat, i: nat)
    ensures Bit(Pow2(k), i) <==> i == k
  {
    if i == 0 {
    } else if k == 0 {
      ZeroHasNoBits(i - 1);
    } else {
      Pow2Bits(k - 1, i - 1);
    }
  }

  lemma {:induction false} XorBound(x: nat, y: nat, w: nat)
    requires x < Pow2(w) && y < Pow2(w)
    ensures Xor(x, y) < Pow2(w)
    decreases w
  {
    if w == 0 || x == 0 {
    } else {
      XorBound(x / 2, y / 2, w - 1);
    }
  }

  lemma {:induction false} XorInverse(x: nat, y: nat)
    ensures Xor(Xor(x, y), y) == x
    decreases x
  {
    if x == 0 {
      XorSelf(y);
    } else {
      XorInverse(x / 2, y / 2);
      var z := Xor(x, y);
      assert z / 2 == Xor(x / 2, y / 2) && z % 2 == (if x % 2 == y % 2 then 0 else 1);
    }
  }

  lemma {:induction false} XorSelf(y: nat)
    ensures Xor(y, y) == 0
  {
    if y == 0 {
    } else {
      XorSelf(y / 2);
    }
  }

  lemma {:induction false} OrBound(x: nat, y: nat, w: nat)
    requires x < Pow2(w) && y < Pow2(w)
    ensures Or(x, y) < Pow2(w)
    decreases w
  {
    if w == 0 || x == 0 {
    } else {
      OrBound(x / 2, y / 2, w - 1);
    }
  }

  // ----- masking wrapped counters -----

  lemma MaskIsMod(x: u32, b: nat)
    requires IsPow2(b) && 0 < b <= TWO32
    ensures And(x, b - 1) == x % b
    ensures And(x, Not32(b - 1)) == x - x % b
  {
    Pow2Values();
    var k: nat :| b == Pow2(k);
    if k > 32 { Pow2Monotone(32, k); }
    AndMask(x, k);
    AndNotMask(x, 32, k);
    assert Not(32, b - 1) == Not32(b - 1);
  }

  /** Indexing a power-of-two array with a wrapped counter selects the unbounded counter's slot. */
  lemma WrapMod(x: int, b: nat)
    requires IsPow2(b) && 0 < b <= TWO32
    ensures Wrap32(x) % b == x % b
    ensures And(Wrap32(x), b - 1) == x % b
  {
    Pow2Values();
    Pow2Divides(b, 32);
    var m: nat :| m > 0 && Pow2(32) == m * b;
    ModOfMod(x, b, m);
    MaskIsMod(Wrap32(x), b);
  }

  /** Length rounded up to a multiple of 8. */
  function Align8(len: nat): (r: nat)
    ensures len <= r < len + 8 && r % 8 == 0
  {
    (len + 7) / 8 * 8
  }

  lemma AlignDown(x: u32)
    ensures And(x, Not32(7)) == x - x % 8
  {
    assert IsPow2(8) by { assert Pow2(3) == 8; }
    MaskIsMod(x, 8);
  }
}
