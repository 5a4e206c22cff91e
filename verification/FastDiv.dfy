/**
  fast_div (util/fast_div.h): division by a constant as one multiplication and one shift.
  The constructor's floating-point arithmetic is taken as exact, over `real`.
 */
module FastDiv {
  import opened Bits

  datatype FastDiv = FastDiv(mul: u32, shift: nat)

  /** `x / divisor`: 64-bit product, shift, truncation to 32 bits. */
  function Quotient(x: u64, d: FastDiv): (r: u32) {
    (x * d.mul) % TWO64 / Pow2(d.shift) % TWO32
  }

  /** floor(log2(amt)) */
  ghost predicate IsLog2(amt: real, k: nat) {
    Pow2(k) as real <= amt < Pow2(k + 1) as real
  }

  /** The shift chosen for a divisor with floor(log2) `k`. */
  function ShiftFor(k: nat, requiredBits: nat): nat
    requires requiredBits <= 64
  {
    if 64 - requiredBits <= 32 + k then 64 - requiredBits else 32 + k
  }

  /** The multiplier before its conversion to 32 bits. */
  function Multiplier(amt: real, shift: nat): int
    requires amt >= 1.0
  {
    (Pow2(shift) as real / amt).Floor
  }

  // ----- low bits survive the 64-bit overflow -----

  lemma DivOfMod(y: nat, a: nat, b: nat)
    requires a > 0 && b > 0
    ensures a * b > 0
    ensures y % (a * b) / a == (y / a) % b
  {
    MulMonotone(1, a, b);
    var q, r := y / (a * b), y % (a * b);
    Regroup(y, a, b, q, r, r / a, r % a);
    DivModUnique(y, a, q * b + r / a, r % a);
    DivModUnique(q * b + r / a, b, q, r / a);
  }

  /** Digits in base `a * b`, then `a`, are digits in base `a`, then `b`. */
  lemma Regroup(y: nat, a: nat, b: nat, q: nat, r: nat, u: nat, v: nat)
    requires y == q * (a * b) + r && r < a * b
    requires r == u * a + v && v < a
    ensures y == (q * b + u) * a + v && u < b
  {
    assert (q * b + u) * a == (q * b) * a + u * a;
    assert (q * b) * a == q * (a * b);
    if u >= b {
      MulMonotone(b, u, a);
    }
  }

  lemma Pow2Mod(y: nat, a: nat, b: nat)
    requires b <= a
    ensures y % Pow2(a) % Pow2(b) == y % Pow2(b)
  {
    Pow2Add(a - b, b);
    ModOfMod(y, Pow2(b), Pow2(a - b));
  }

  /** The required low bits equal those of the exact floor(x * mul / 2^shift). */
  lemma LowBitsExact(x: u64, d: FastDiv, requiredBits: nat)
    requires requiredBits <= 32 && d.shift + requiredBits <= 64
    ensures Quotient(x, d) % Pow2(requiredBits) == (x * d.mul) / Pow2(d.shift) % Pow2(requiredBits)
  {
    hide Pow2;
    var y := x * d.mul;
    assert y >= 0 by { MulMonotone(0, x, d.mul); }
    LowBits(y, d.shift, requiredBits);
  }

  lemma LowBits(y: nat, shift: nat, bits: nat)
    requires bits <= 32 && shift + bits <= 64
    ensures y % TWO64 / Pow2(shift) % TWO32 % Pow2(bits) == y / Pow2(shift) % Pow2(bits)
  {
    hide Pow2;
    var rest := 64 - shift;
    var p, r := Pow2(shift), Pow2(rest);
    assert TWO64 == p * r by { Pow2Values(); Pow2Add(shift, rest); }
    var q, z := y / p, y % TWO64 / p;
    assert z == q % r by { DivOfMod(y, p, r); }
    assert q % r % Pow2(bits) == q % Pow2(bits) by { Pow2Mod(q, rest, bits); }
    assert z % TWO32 % Pow2(bits) == z % Pow2(bits) by { Pow2Values(); Pow2Mod(z, 32, bits); }
  }

  // ----- the multiplier fits, and the quotient is close -----

  lemma MultiplierBounds(amt: real, shift: nat)
    requires amt >= 1.0
    ensures var m := Multiplier(amt, shift) as real;
            0.0 <= m && m * amt <= Pow2(shift) as real < (m + 1.0) * amt
  {
    hide Pow2;
    FloorBounds(Pow2(shift) as real, amt);
  }

  lemma FloorBounds(x: real, amt: real)
    requires amt > 0.0 && x >= 0.0
    ensures var m := (x / amt).Floor as real;
            0.0 <= m && m * amt <= x < (m + 1.0) * amt
  {
    var t := x / amt;
    assert t * amt == x;
    assert t >= 0.0 by { if t < 0.0 { RealMulStrict(t, 0.0, amt); } }
    FloorTimes(x, t, t.Floor as real, amt);
  }

  lemma FloorTimes(x: real, t: real, m: real, amt: real)
    requires m <= t < m + 1.0 && amt > 0.0 && t * amt == x
    ensures m * amt <= x < (m + 1.0) * amt
  {
    assert m * amt <= x by { RealMulMonotone(m, t, amt); }
    BelowProduct(x, t, m + 1.0, amt);
  }

  lemma BelowProduct(x: real, t: real, n: real, amt: real)
    requires t < n && amt > 0.0 && t * amt == x
    ensures x < n * amt
  {
    RealMulStrict(t, n, amt);
  }

  lemma RealMulMonotone(a: real, b: real, c: real)
    requires a <= b && 0.0 <= c
    ensures a * c <= b * c
  {
  }

  lemma RealMulStrict(a: real, b: real, c: real)
    requires a < b && 0.0 < c
    ensures a * c < b * c
  {
  }

  /**
    The multiplier fits in 32 bits except for one family: a divisor that is the power of two
    2^(shift - 32), for which it is exactly 2^32.
   */
  lemma MultiplierFits(amt: real, k: nat, requiredBits: nat)
    requires amt >= 1.0 && IsLog2(amt, k) && 1 <= requiredBits <= 32
    ensures var s := ShiftFor(k, requiredBits);
            && s >= 32
            && 0 <= Multiplier(amt, s) <= TWO32
            && (Multiplier(amt, s) < TWO32 <==> amt != Pow2(s - 32) as real)
  {
    hide Pow2;
    var s := ShiftFor(k, requiredBits);
    Pow2Values();
    Pow2Add(s - 32, 32);
    Pow2Monotone(s - 32, k);
    MultiplierBounds(amt, s);
    RatioFits(Multiplier(amt, s), Pow2(s - 32) as real, amt);
  }

  lemma RatioFits(m: int, p: real, amt: real)
    requires 0 <= m && 0.0 < p <= amt
    requires (m as real) * amt <= p * (TWO32 as real) < (m as real + 1.0) * amt
    ensures m <= TWO32 && (m < TWO32 <==> amt != p)
  {
    if m >= TWO32 {
      RealMulMonotone(TWO32 as real, m as real, amt);
      if p < amt { RealMulStrict(p, amt, TWO32 as real); }
      if m > TWO32 { RealMulMonotone((TWO32 + 1) as real, m as real, amt); }
    } else {
      RealMulMonotone((m + 1) as real, TWO32 as real, amt);
    }
  }

  /** The multiply-and-shift quotient undershoots floor(x / amt) by at most ceil(x / 2^shift). */
  lemma UndershootBound(x: u64, amt: real, shift: nat)
    requires amt >= 1.0
    ensures var m := Multiplier(amt, shift);
            var p := Pow2(shift);
            var exact := (x as real / amt).Floor;
            0 <= exact - x * m / p <= (x + p - 1) / p
  {
    hide Pow2, Multiplier;
    var m, p := Multiplier(amt, shift), Pow2(shift);
    MultiplierBounds(amt, shift);
    FloorBounds(x as real, amt);
    Undershoot(x, m, p, (x as real / amt).Floor, amt);
  }

  /**
    A constructed divisor: whenever the multiplier fits, the required low bits of the result are
    those of a quotient at most ceil(x / 2^shift) below the true one.
   */
  lemma DividesApproximately(x: u64, amt: real, k: nat, requiredBits: nat)
    requires amt >= 1.0 && IsLog2(amt, k) && 1 <= requiredBits <= 32
    requires amt != Pow2(ShiftFor(k, requiredBits) - 32) as real
    ensures var s := ShiftFor(k, requiredBits);
            var m := Multiplier(amt, s);
            && 0 <= m < TWO32
            && var q := x * m / Pow2(s);
            && Quotient(x, FastDiv(m, s)) % Pow2(requiredBits) == q % Pow2(requiredBits)
            && 0 <= (x as real / amt).Floor - q <= (x + Pow2(s) - 1) / Pow2(s)
  {
    hide Pow2, Multiplier, Quotient, IsLog2;
    MultiplierFits(amt, k, requiredBits);
    var s := ShiftFor(k, requiredBits);
    LowBitsExact(x, FastDiv(Multiplier(amt, s), s), requiredBits);
    UndershootBound(x, amt, s);
  }

  lemma Undershoot(x: nat, m: nat, p: nat, t: nat, amt: real)
    requires p > 0 && amt > 0.0
    requires (m as real) * amt <= p as real < (m as real + 1.0) * amt
    requires (t as real) * amt <= x as real < (t as real + 1.0) * amt
    ensures 0 <= t - x * m / p <= (x + p - 1) / p
  {
    var y := x * m;
    assert y >= 0 by { MulMonotone(0, x, m); }
    DivBounds(y, p);
    DivBounds(x + p - 1, p);
    var c := (x + p - 1) / p;
    assert (c + 1) * p == c * p + p;
    UndershootOf(x, m, p, t, amt, y / p, c);
  }

  lemma UndershootOf(x: nat, m: nat, p: nat, t: nat, amt: real, q: nat, c: nat)
    requires p > 0 && amt > 0.0
    requires (m as real) * amt <= p as real < (m as real + 1.0) * amt
    requires (t as real) * amt <= x as real < (t as real + 1.0) * amt
    requires q * p <= x * m < (q + 1) * p && x <= c * p
    ensures 0 <= t - q <= c
  {
    CastProducts(x, m, q, c, p);
    NotAbove(x as real, m as real, q as real, t as real, p as real, amt);
    NotFarBelow(x as real, m as real, q as real, c as real, t as real, p as real, amt);
  }

  lemma DivBounds(y: nat, p: nat)
    requires p > 0
    ensures y / p >= 0 && (y / p) * p <= y < (y / p + 1) * p
  {
    assert y == (y / p) * p + y % p;
    assert (y / p + 1) * p == (y / p) * p + p;
  }

  lemma CastProducts(x: nat, m: nat, q: nat, c: nat, p: nat)
    requires q * p <= x * m < (q + 1) * p && x <= c * p
    ensures (q as real) * (p as real) <= (x as real) * (m as real) < (q as real + 1.0) * (p as real)
    ensures x as real <= (c as real) * (p as real)
  {
    CastProduct(q, p);
    CastProduct(x, m);
    CastProduct(q + 1, p);
    CastProduct(c, p);
  }

  lemma CastProduct(a: nat, b: nat)
    ensures (a * b) as real == (a as real) * (b as real)
  {
  }

  lemma NotAbove(x: real, m: real, q: real, t: real, p: real, amt: real)
    requires x >= 0.0 && p > 0.0 && amt > 0.0
    requires q * p <= x * m && m * amt <= p && x < (t + 1.0) * amt
    ensures q < t + 1.0
  {
    assert q * amt <= x by { ScaledQuotient(x, m, q, p, amt); }
    Cancel(q, t + 1.0, amt);
  }

  // q * amt * p <= x * m * amt <= x * p, so q * amt <= x
  lemma ScaledQuotient(x: real, m: real, q: real, p: real, amt: real)
    requires x >= 0.0 && p > 0.0 && amt > 0.0
    requires q * p <= x * m && m * amt <= p
    ensures q * amt <= x
  {
    var a, b := (q * p) * amt, (x * m) * amt;
    assert a <= b by { RealMulMonotone(q * p, x * m, amt); }
    assert a == (q * amt) * p by { Rearrange(q, p, amt); }
    assert b == (m * amt) * x by { Rearrange(m, x, amt); Commute(x, m); }
    assert b <= p * x by { RealMulMonotone(m * amt, p, x); }
    Commute(p, x);
    CancelLe(q * amt, x, p);
  }

  lemma Rearrange(a: real, b: real, c: real)
    ensures (a * b) * c == (a * c) * b
  {
  }

  lemma Commute(a: real, b: real)
    ensures a * b == b * a
  {
  }

  lemma Cancel(a: real, b: real, c: real)
    requires c > 0.0 && a * c < b * c
    ensures a < b
  {
    if b <= a { RealMulMonotone(b, a, c); }
  }

  lemma CancelLe(a: real, b: real, c: real)
    requires c > 0.0 && a * c <= b * c
    ensures a <= b
  {
    if b < a { RealMulStrict(b, a, c); }
  }

  lemma NotFarBelow(x: real, m: real, q: real, c: real, t: real, p: real, amt: real)
    requires x >= 0.0 && p > 0.0 && amt > 0.0 && m >= 0.0 && q >= 0.0 && c >= 0.0
    requires x * m < (q + 1.0) * p && x <= c * p && p < (m + 1.0) * amt && t * amt <= x
    ensures t < q + 1.0 + c
  {
    var n := q + 1.0 + c;
    assert x < n * amt by { ScaledBound(x, m, n, p, amt, q, c); }
    Cancel(t, n, amt);
  }

  // x * (m + 1) < n * p <= n * amt * (m + 1), so x < n * amt
  lemma ScaledBound(x: real, m: real, n: real, p: real, amt: real, q: real, c: real)
    requires p > 0.0 && amt > 0.0 && m >= 0.0 && n > 0.0 && n == q + 1.0 + c
    requires x * m < (q + 1.0) * p && x <= c * p && p < (m + 1.0) * amt
    ensures x < n * amt
  {
    var k := m + 1.0;
    assert x * k == x * m + x by { Distribute(m, x); Commute(x, k); Commute(x, m); }
    assert (q + 1.0) * p + c * p == n * p by { DistributeSum(q + 1.0, c, p); }
    var a, b := p * n, (k * amt) * n;
    assert a < b by { RealMulStrict(p, k * amt, n); }
    assert b == (n * amt) * k by { Rearrange(k, amt, n); Commute(k, n); Rearrange(n, k, amt); }
    Commute(p, n);
    Cancel(x, n * amt, k);
  }

  lemma Distribute(m: real, x: real)
    ensures (m + 1.0) * x == m * x + x
  {
  }

  lemma DistributeSum(a: real, b: real, p: real)
    ensures a * p + b * p == (a + b) * p
  {
  }
}
