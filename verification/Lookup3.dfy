/**
  Bob Jenkins' lookup3 hash (util/lookup3.c) on a little-endian layout. The three ways of reading
  the key (aligned words, half-words, bytes) are shown to compute one hash of the key's bytes.
 */
module Lookup3 {
  import opened Bits
  import opened Memory

  datatype State = State(a: u32, b: u32, c: u32)

  // ----- 32-bit arithmetic -----

  function Add(x: int, y: int): (r: u32) {
    Wrap32(x + y)
  }

  function Sub(x: int, y: int): (r: u32) {
    Wrap32(x - y)
  }

  function Xor32(x: u32, y: u32): (r: u32) {
    Word32();
    XorBound(x, y, 32);
    Xor(x, y)
  }

  function Rot(x: u32, k: nat): (r: u32)
    requires 0 < k < 32
  {
    var low := x / Pow2(32 - k);
    QuotientBelow(x, Pow2(32 - k));
    Word32();
    OrBound(Wrap32(x * Pow2(k)), low, 32);
    Or(Wrap32(x * Pow2(k)), low)
  }

  lemma Word32()
    ensures Pow2(32) == TWO32
  {
    Pow2Values();
  }

  lemma QuotientBelow(x: nat, p: nat)
    requires p > 0
    ensures 0 <= x / p <= x
  {
    MulMonotone(1, p, x / p);
    assert x == p * (x / p) + x % p;
  }

  /** One line group of mix(): x -= z; x ^= rot(z, k); z += y. */
  function Round(x: u32, z: u32, y: u32, k: nat): (r: (u32, u32))
    requires 0 < k < 32
  {
    (Xor32(Sub(x, z), Rot(z, k)), Add(z, y))
  }

  function Mix(s: State): (r: State) {
    var (a, c) := Round(s.a, s.c, s.b, 4);
    var (b, a) := Round(s.b, a, c, 6);
    var (c, b) := Round(c, b, a, 8);
    var (a, c) := Round(a, c, b, 16);
    var (b, a) := Round(b, a, c, 19);
    var (c, b) := Round(c, b, a, 4);
    State(a, b, c)
  }

  function Unround(x: u32, z: u32, y: u32, k: nat): (r: (u32, u32))
    requires 0 < k < 32
  {
    var z := Sub(z, y);
    (Add(Xor32(x, Rot(z, k)), z), z)
  }

  function Unmix(s: State): (r: State) {
    var (c, b) := Unround(s.c, s.b, s.a, 4);
    var (b, a) := Unround(b, s.a, c, 19);
    var (a, c) := Unround(a, c, b, 16);
    var (c, b) := Unround(c, b, a, 8);
    var (b, a) := Unround(b, a, c, 6);
    var (a, c) := Unround(a, c, b, 4);
    State(a, b, c)
  }

  lemma RoundReversible(x: u32, z: u32, y: u32, k: nat)
    requires 0 < k < 32
    ensures var r := Round(x, z, y, k); Unround(r.0, r.1, y, k) == (x, z)
  {
    hide Xor, Rot;
    XorInverse(Sub(x, z), Rot(z, k));
    assert Sub(Add(z, y), y) == z;
    assert Add(Sub(x, z), z) == x;
  }

  /** mix() is reversible: it loses no information. */
  lemma MixReversible(s: State)
    ensures Unmix(Mix(s)) == s
  {
    hide Round, Unround;
    var (a1, c1) := Round(s.a, s.c, s.b, 4);
    var (b1, a2) := Round(s.b, a1, c1, 6);
    var (c2, b2) := Round(c1, b1, a2, 8);
    var (a3, c3) := Round(a2, c2, b2, 16);
    var (b3, a4) := Round(b2, a3, c3, 19);
    RoundReversible(c3, b3, a4, 4);
    RoundReversible(b2, a3, c3, 19);
    RoundReversible(a2, c2, b2, 16);
    RoundReversible(c1, b1, a2, 8);
    RoundReversible(s.b, a1, c1, 6);
    RoundReversible(s.a, s.c, s.b, 4);
  }

  /** One line pair of final(): x ^= y; x -= rot(y, k). */
  function FinalRound(x: u32, y: u32, k: nat): (r: u32)
    requires 0 < k < 32
  {
    Sub(Xor32(x, y), Rot(y, k))
  }

  function Final(s: State): (r: State) {
    var c := FinalRound(s.c, s.b, 14);
    var a := FinalRound(s.a, c, 11);
    var b := FinalRound(s.b, a, 25);
    var c := FinalRound(c, b, 16);
    var a := FinalRound(a, c, 4);
    var b := FinalRound(b, a, 14);
    var c := FinalRound(c, b, 24);
    State(a, b, c)
  }

  function UnfinalRound(x: u32, y: u32, k: nat): (r: u32)
    requires 0 < k < 32
  {
    Xor32(Add(x, Rot(y, k)), y)
  }

  function Unfinal(s: State): (r: State) {
    var c := UnfinalRound(s.c, s.b, 24);
    var b := UnfinalRound(s.b, s.a, 14);
    var a := UnfinalRound(s.a, c, 4);
    var c := UnfinalRound(c, b, 16);
    var b := UnfinalRound(b, a, 25);
    var a := UnfinalRound(a, c, 11);
    var c := UnfinalRound(c, b, 14);
    State(a, b, c)
  }

  lemma FinalRoundReversible(x: u32, y: u32, k: nat)
    requires 0 < k < 32
    ensures UnfinalRound(FinalRound(x, y, k), y, k) == x
  {
    hide Xor, Rot;
    XorInverse(x, y);
    assert Add(Sub(Xor32(x, y), Rot(y, k)), Rot(y, k)) == Xor32(x, y);
  }

  /** final() loses no information either. */
  lemma FinalReversible(s: State)
    ensures Unfinal(Final(s)) == s
  {
    hide FinalRound, UnfinalRound;
    var c1 := FinalRound(s.c, s.b, 14);
    var a1 := FinalRound(s.a, c1, 11);
    var b1 := FinalRound(s.b, a1, 25);
    var c2 := FinalRound(c1, b1, 16);
    var a2 := FinalRound(a1, c2, 4);
    var b2 := FinalRound(b1, a2, 14);
    FinalRoundReversible(c2, b2, 24);
    FinalRoundReversible(b1, a2, 14);
    FinalRoundReversible(a1, c2, 4);
    FinalRoundReversible(c1, b1, 16);
    FinalRoundReversible(s.b, a1, 25);
    FinalRoundReversible(s.a, c1, 11);
    FinalRoundReversible(s.c, s.b, 14);
  }

  // ----- the hash of a byte string -----

  /** Byte `i` of the key, or zero past its end. */
  function ByteAt(key: bytes, i: nat): byte {
    if i < |key| then key[i] else 0
  }

  /** The little-endian word at `i`, bytes past the key's end counting as zero. */
  function WordAt(key: bytes, i: nat): (r: u32) {
    (ByteAt(key, i) as int) + 0x100 * (ByteAt(key, i + 1) as int)
    + 0x1_0000 * (ByteAt(key, i + 2) as int) + 0x100_0000 * (ByteAt(key, i + 3) as int)
  }

  /** Adds up to twelve bytes of key to the state. */
  function Absorb(key: bytes, s: State): (r: State) {
    State(Add(s.a, WordAt(key, 0)), Add(s.b, WordAt(key, 4)), Add(s.c, WordAt(key, 8)))
  }

  /** The whole hash: blocks of twelve bytes, then the rest; an empty rest needs no final mix. */
  function Hash(key: bytes, s: State): (r: State)
    decreases |key|
  {
    if |key| > 12 then Hash(key[12..], Mix(Absorb(key[..12], s)))
    else if key == [] then s
    else Final(Absorb(key, s))
  }

  /** The initial state for a key of this length and two seeds. */
  function Seed(length: nat, pc: u32, pb: u32): State {
    var x := Add(0xdeadbeef, Wrap32(length) + pc);
    State(x, x, Add(x, pb))
  }

  // ----- reading the key in different widths -----

  /** What the partial words of the last block contribute. */
  lemma WordOfSlice(mem: bytes, p: nat, n: nat, i: nat)
    requires p + n <= |mem|
    ensures i + 4 <= n ==> WordAt(mem[p..p + n], i) == Load32(mem[p + i..])
    ensures n <= i ==> WordAt(mem[p..p + n], i) == 0
  {
  }

  lemma MaskedWord(mem: bytes, p: nat, n: nat, i: nat)
    requires p + n <= |mem| && i < n < i + 4 && p + i + 4 <= |mem|
    ensures var w := Load32(mem[p + i..]);
            WordAt(mem[p..p + n], i) == And(w, if n == i + 1 then 0xff else if n == i + 2 then 0xffff else 0xffffff)
  {
    hide And;
    var w := Load32(mem[p + i..]);
    var k := 8 * (n - i);
    Pow2Values();
    assert Pow2(24) == 0x100_0000;
    AndMask(w, k);
    LowBytes(mem[p + i], mem[p + i + 1], mem[p + i + 2], mem[p + i + 3]);
  }

  lemma LowBytes(b0: byte, b1: byte, b2: byte, b3: byte)
    ensures var w := b0 as int + 0x100 * (b1 as int) + 0x1_0000 * (b2 as int) + 0x100_0000 * (b3 as int);
            && w % 0x100 == b0
            && w % 0x1_0000 == b0 as int + 0x100 * (b1 as int)
            && w % 0x100_0000 == b0 as int + 0x100 * (b1 as int) + 0x1_0000 * (b2 as int)
  {
  }

  function RoundUp4(n: nat): nat {
    (n + 3) / 4 * 4
  }

  /** The last block of the aligned path: whole words, masked where the key ends inside one. */
  method TailWords(mem: bytes, p: nat, n: nat, s: State) returns (r: State)
    requires n <= 12 && p + RoundUp4(n) <= |mem|
    ensures r == Absorb(mem[p..p + n], s)
  {
    hide And, Load32, WordAt, Wrap32;
    ghost var key := mem[p..p + n];
    assert forall x: u32 :: Add(x, 0) == x by { AddZero(); }
    WordOfSlice(mem, p, n, 0);
    WordOfSlice(mem, p, n, 4);
    WordOfSlice(mem, p, n, 8);
    if 0 < n < 4 { MaskedWord(mem, p, n, 0); }
    if 4 < n < 8 { MaskedWord(mem, p, n, 4); }
    if 8 < n < 12 { MaskedWord(mem, p, n, 8); }
    var a, b, c := s.a, s.b, s.c;
    if n == 12 { c := Add(c, Load32(mem[p + 8..])); }
    if n == 11 { c := Add(c, And(Load32(mem[p + 8..]), 0xffffff)); }
    if n == 10 { c := Add(c, And(Load32(mem[p + 8..]), 0xffff)); }
    if n == 9 { c := Add(c, And(Load32(mem[p + 8..]), 0xff)); }
    assert c == Add(s.c, WordAt(key, 8));
    if n >= 8 { b := Add(b, Load32(mem[p + 4..])); }
    if n == 7 { b := Add(b, And(Load32(mem[p + 4..]), 0xffffff)); }
    if n == 6 { b := Add(b, And(Load32(mem[p + 4..]), 0xffff)); }
    if n == 5 { b := Add(b, And(Load32(mem[p + 4..]), 0xff)); }
    assert b == Add(s.b, WordAt(key, 4));
    if n >= 4 { a := Add(a, Load32(mem[p..])); }
    if n == 3 { a := Add(a, And(Load32(mem[p..]), 0xffffff)); }
    if n == 2 { a := Add(a, And(Load32(mem[p..]), 0xffff)); }
    if n == 1 { a := Add(a, And(Load32(mem[p..]), 0xff)); }
    r := State(a, b, c);
  }

  lemma AddZero()
    ensures forall x: u32 :: Add(x, 0) == x
  {
  }

  /** Adding a word piecewise is adding it whole. */
  lemma AddPieces(x: u32, p0: nat, p1: nat, p2: nat, p3: nat)
    ensures Add(Add(Add(Add(x, p0), p1), p2), p3) == Add(x, p0 + p1 + p2 + p3)
    ensures Add(Add(Add(Add(x, p3), p2), p1), p0) == Add(x, p0 + p1 + p2 + p3)
  {
    hide Wrap32;
    WrapAdd(x + p0, p1);
    WrapAdd(x + p0 + p1, p2);
    WrapAdd(x + p0 + p1 + p2, p3);
    WrapAdd(x + p3, p2);
    WrapAdd(x + p3 + p2, p1);
    WrapAdd(x + p3 + p2 + p1, p0);
  }

  /** A block of twelve bytes read as six half-words. */
  function HalfAt(mem: bytes, i: nat): (r: u32)
    requires i + 2 <= |mem|
  {
    Load16(mem[i..])
  }

  /** The last block of the half-word path. */
  method TailHalves(mem: bytes, p: nat, n: nat, s: State) returns (r: State)
    requires n <= 12 && p + n <= |mem|
    ensures r == Absorb(mem[p..p + n], s)
  {
    hide Wrap32;
    ghost var key := mem[p..p + n];
    var a, b, c := s.a, s.b, s.c;
    if n == 12 { c := Add(c, HalfAt(mem, p + 8) + HalfAt(mem, p + 10) * 0x1_0000); }
    if n == 11 { c := Add(c, mem[p + 10] as int * 0x1_0000); }
    if n == 11 || n == 10 { c := Add(c, HalfAt(mem, p + 8)); }
    if n == 9 { c := Add(c, mem[p + 8]); }
    assert c == Add(s.c, WordAt(key, 8)) by { TailHalf(s.c, key, 8); }
    if n >= 8 { b := Add(b, HalfAt(mem, p + 4) + HalfAt(mem, p + 6) * 0x1_0000); }
    if n == 7 { b := Add(b, mem[p + 6] as int * 0x1_0000); }
    if n == 7 || n == 6 { b := Add(b, HalfAt(mem, p + 4)); }
    if n == 5 { b := Add(b, mem[p + 4]); }
    assert b == Add(s.b, WordAt(key, 4)) by { TailHalf(s.b, key, 4); }
    if n >= 4 { a := Add(a, HalfAt(mem, p) + HalfAt(mem, p + 2) * 0x1_0000); }
    if n == 3 { a := Add(a, mem[p + 2] as int * 0x1_0000); }
    if n == 3 || n == 2 { a := Add(a, HalfAt(mem, p)); }
    if n == 1 { a := Add(a, mem[p]); }
    assert a == Add(s.a, WordAt(key, 0)) by { TailHalf(s.a, key, 0); }
    r := State(a, b, c);
  }

  lemma TailHalf(x: u32, key: bytes, i: nat)
    ensures Add(x, 0) == x
    ensures i + 3 == |key| ==>
              Add(Add(x, key[i + 2] as int * 0x1_0000), Load16(key[i..])) == Add(x, WordAt(key, i))
  {
    hide Wrap32;
    AddZero();
    if i + 3 == |key| {
      AddTwo(x, key[i + 2] as int * 0x1_0000, Load16(key[i..]));
    }
  }

  lemma AddTwo(x: u32, p: nat, q: nat)
    ensures Add(Add(x, p), q) == Add(x, p + q)
  {
    WrapAdd(x + p, q);
  }

  /** One byte, shifted to its place in the word. */
  function Piece(key: bytes, i: nat, k: nat): (r: nat)
    requires k < 4
  {
    (ByteAt(key, i + k) as int)
    * (if k == 0 then 1 else if k == 1 then 0x100 else if k == 2 then 0x1_0000 else 0x100_0000)
  }

  /** The last block of the byte path; its cases fall through. */
  method TailBytes(key: bytes, s: State) returns (r: State)
    requires |key| <= 12
    ensures r == Absorb(key, s)
  {
    hide Wrap32;
    var n := |key|;
    var a, b, c := s.a, s.b, s.c;
    if n >= 12 { c := Add(c, key[11] as int * 0x100_0000); }
    if n >= 11 { c := Add(c, key[10] as int * 0x1_0000); }
    if n >= 10 { c := Add(c, key[9] as int * 0x100); }
    if n >= 9 { c := Add(c, key[8]); }
    assert c == Add(s.c, WordAt(key, 8)) by { Pieces(s.c, key, 8); }
    if n >= 8 { b := Add(b, key[7] as int * 0x100_0000); }
    if n >= 7 { b := Add(b, key[6] as int * 0x1_0000); }
    if n >= 6 { b := Add(b, key[5] as int * 0x100); }
    if n >= 5 { b := Add(b, key[4]); }
    assert b == Add(s.b, WordAt(key, 4)) by { Pieces(s.b, key, 4); }
    if n >= 4 { a := Add(a, key[3] as int * 0x100_0000); }
    if n >= 3 { a := Add(a, key[2] as int * 0x1_0000); }
    if n >= 2 { a := Add(a, key[1] as int * 0x100); }
    if n >= 1 { a := Add(a, key[0]); }
    assert a == Add(s.a, WordAt(key, 0)) by { Pieces(s.a, key, 0); }
    r := State(a, b, c);
  }

  lemma Pieces(x: u32, key: bytes, i: nat)
    ensures forall y: u32 :: Add(y, 0) == y
    ensures Add(Add(Add(Add(x, Piece(key, i, 3)), Piece(key, i, 2)), Piece(key, i, 1)), Piece(key, i, 0))
            == Add(x, WordAt(key, i))
    ensures Add(Add(Add(Add(x, Piece(key, i, 0)), Piece(key, i, 1)), Piece(key, i, 2)), Piece(key, i, 3))
            == Add(x, WordAt(key, i))
  {
    AddZero();
    AddPieces(x, Piece(key, i, 0), Piece(key, i, 1), Piece(key, i, 2), Piece(key, i, 3));
  }

  // ----- the three paths -----

  lemma HashStep(mem: bytes, p: nat, length: nat, s: State)
    requires p + 12 < length <= |mem|
    ensures Hash(mem[p..length], s) == Hash(mem[p + 12..length], Mix(Absorb(mem[p..p + 12], s)))
  {
    assert mem[p..length][12..] == mem[p + 12..length];
    assert mem[p..length][..12] == mem[p..p + 12];
  }

  /**
    The key at a 4-byte aligned address. The last word may be read past the key's end; the result
    depends on the key alone.
   */
  method HashAligned(mem: bytes, length: nat, s0: State) returns (s: State)
    requires length <= RoundUp4(length) <= |mem|
    ensures s == Hash(mem[..length], s0)
  {
    hide Mix, Final, Wrap32, Load32, WordAt, Hash, RoundUp4;
    s := s0;
    var p := 0;
    assert mem[..length] == mem[0..length];
    while length - p > 12
      invariant 0 <= p <= length && p % 4 == 0
      invariant Hash(mem[..length], s0) == Hash(mem[p..length], s)
    {
      HashStep(mem, p, length, s);
      WordOfSlice(mem, p, 12, 0);
      WordOfSlice(mem, p, 12, 4);
      WordOfSlice(mem, p, 12, 8);
      s := Mix(State(Add(s.a, Load32(mem[p..])), Add(s.b, Load32(mem[p + 4..])), Add(s.c, Load32(mem[p + 8..]))));
      p := p + 12;
    }
    LastBlock(mem[p..length], s);
    if length == p { return; }
    RoundUpRest(length, p);
    assert mem[p..p + (length - p)] == mem[p..length];
    s := TailWords(mem, p, length - p, s);
    s := Final(s);
  }

  lemma RoundUpRest(n: nat, p: nat)
    requires p <= n && p % 4 == 0
    ensures p + RoundUp4(n - p) == RoundUp4(n)
  {
  }

  /** The key at an even address. */
  method HashHalves(mem: bytes, length: nat, s0: State) returns (s: State)
    requires length <= |mem|
    ensures s == Hash(mem[..length], s0)
  {
    hide Mix, Final, Wrap32;
    s := s0;
    var p := 0;
    assert mem[..length] == mem[0..length];
    while length - p > 12
      invariant 0 <= p <= length
      invariant Hash(mem[..length], s0) == Hash(mem[p..length], s)
    {
      HashStep(mem, p, length, s);
      s := Mix(State(
          Add(s.a, HalfAt(mem, p) + HalfAt(mem, p + 2) * 0x1_0000),
          Add(s.b, HalfAt(mem, p + 4) + HalfAt(mem, p + 6) * 0x1_0000),
          Add(s.c, HalfAt(mem, p + 8) + HalfAt(mem, p + 10) * 0x1_0000)));
      p := p + 12;
    }
    if length == p { return; }
    s := TailHalves(mem, p, length - p, s);
    s := Final(s);
  }

  /** The key at any address. */
  method HashBytes(key: bytes, s0: State) returns (s: State)
    ensures s == Hash(key, s0)
  {
    hide Mix, Final, Wrap32, WordAt, Hash;
    s := s0;
    var p := 0;
    assert key[0..] == key;
    while |key| - p > 12
      invariant 0 <= p <= |key|
      invariant Hash(key, s0) == Hash(key[p..], s)
    {
      var k := key[p..p + 12];
      assert key[p..|key|] == key[p..] && key[p + 12..|key|] == key[p + 12..];
      HashStep(key, p, |key|, s);
      s := Mix(BlockBytes(k, s));
      p := p + 12;
    }
    LastBlock(key[p..], s);
    if |key| == p { return; }
    s := TailBytes(key[p..], s);
    s := Final(s);
  }

  /** Twelve bytes added one at a time. */
  function BlockBytes(k: bytes, s: State): (r: State)
    requires |k| == 12
    ensures r == Absorb(k, s)
  {
    Pieces(s.a, k, 0);
    Pieces(s.b, k, 4);
    Pieces(s.c, k, 8);
    var add4 := (x: u32, i: nat) =>
      Add(Add(Add(Add(x, Piece(k, i, 0)), Piece(k, i, 1)), Piece(k, i, 2)), Piece(k, i, 3));
    State(add4(s.a, 0), add4(s.b, 4), add4(s.c, 8))
  }

  lemma LastBlock(key: bytes, s: State)
    requires |key| <= 12
    ensures Hash(key, s) == if key == [] then s else Final(Absorb(key, s))
  {
  }

  // ----- the entry points -----

  /** lookup3_hashlittle2 on a key whose address is `align` modulo 4: primary and secondary hash. */
  method HashLittle2(mem: bytes, length: nat, align: nat, pc: u32, pb: u32) returns (primary: u32, secondary: u32)
    requires align < 4 && length <= |mem| && (align == 0 ==> RoundUp4(length) <= |mem|)
    ensures var s := Hash(mem[..length], Seed(length, pc, pb));
            primary == s.c && secondary == s.b
  {
    hide Hash, Seed;
    var s := Seed(length, pc, pb);
    if align == 0 {
      s := HashAligned(mem, length, s);
    } else if align % 2 == 0 {
      s := HashHalves(mem, length, s);
    } else {
      s := HashBytes(mem[..length], s);
    }
    return s.c, s.b;
  }

  /** lookup3_hashlittle: one seed, primary hash only. */
  method HashLittle(mem: bytes, length: nat, align: nat, initval: u32) returns (r: u32)
    requires align < 4 && length <= |mem| && (align == 0 ==> RoundUp4(length) <= |mem|)
    ensures r == Hash(mem[..length], Seed(length, initval, 0)).c
  {
    hide Hash;
    var x := Add(0xdeadbeef, Wrap32(length) + initval);
    var s := State(x, x, x);
    if align == 0 {
      s := HashAligned(mem, length, s);
    } else if align % 2 == 0 {
      s := HashHalves(mem, length, s);
    } else {
      s := HashBytes(mem[..length], s);
    }
    return s.c;
  }

  /** The bytes of an array of words. */
  function WordBytes(k: seq<u32>): (r: bytes)
    ensures |r| == 4 * |k|
  {
    if k == [] then [] else Bytes32(k[0]) + WordBytes(k[1..])
  }

  lemma {:induction false} WordBytesAt(k: seq<u32>, i: nat)
    requires i < |k|
    ensures WordAt(WordBytes(k), 4 * i) == k[i]
  {
    hide Bytes32;
    if i == 0 {
    } else {
      WordBytesAt(k[1..], i - 1);
      assert forall j: nat :: ByteAt(WordBytes(k), 4 + j) == ByteAt(WordBytes(k[1..]), j);
    }
  }

  lemma {:induction false} WordBytesDrop(k: seq<u32>, i: nat)
    requires i <= |k|
    ensures WordBytes(k)[4 * i..] == WordBytes(k[i..])
    ensures WordBytes(k)[..4 * i] == WordBytes(k[..i])
  {
    hide Bytes32;
    if i == 0 {
    } else {
      WordBytesDrop(k[1..], i - 1);
      assert k[1..][i - 1..] == k[i..] && k[..i][1..] == k[1..][..i - 1];
      assert WordBytes(k)[4 * i..] == WordBytes(k[1..])[4 * (i - 1)..];
      assert WordBytes(k)[..4 * i] == Bytes32(k[0]) + WordBytes(k[1..])[..4 * (i - 1)];
    }
  }

  lemma WordSeed(n: nat, initval: u32)
    ensures var x := Add(0xdeadbeef, Wrap32(Wrap32(n) * 4) + initval);
            Seed(4 * n, initval, 0) == State(x, x, x)
  {
    hide Wrap32;
    assert Wrap32(Wrap32(n) * 4) == Wrap32(4 * n) by { WrapTimesFour(n); }
    AddZero();
  }

  lemma WrapTimesFour(n: nat)
    ensures Wrap32(Wrap32(n) * 4) == Wrap32(4 * n)
  {
    var q := n / TWO32;
    assert Wrap32(n) * 4 == 4 * n + (-4 * q) * TWO32;
    ModAddMultiple(4 * n, TWO32, -4 * q);
  }

  /** The loop and the fall-through cases of lookup3_hashword and lookup3_hashword2. */
  method HashWords(k: seq<u32>, s0: State) returns (s: State)
    ensures s == Hash(WordBytes(k), s0)
  {
    hide Mix, Final, WordAt, Hash, WordBytes, Wrap32;
    s := s0;
    var p := 0;
    assert k[0..] == k;
    while |k| - p > 3
      invariant 0 <= p <= |k|
      invariant Hash(WordBytes(k), s0) == Hash(WordBytes(k[p..]), s)
    {
      WordBlock(k[p..], s);
      assert k[p..][3..] == k[p + 3..];
      s := Mix(State(Add(s.a, k[p]), Add(s.b, k[p + 1]), Add(s.c, k[p + 2])));
      p := p + 3;
    }
    WordTail(k[p..], s);
    var a, b, c := s.a, s.b, s.c;
    if |k| - p == 3 { c := Add(c, k[p + 2]); }
    if |k| - p >= 2 { b := Add(b, k[p + 1]); }
    if |k| - p >= 1 {
      a := Add(a, k[p]);
      s := Final(State(a, b, c));
    }
  }

  /** lookup3_hashword: the primary hash of the words' bytes. */
  method HashWord(k: seq<u32>, initval: u32) returns (r: u32)
    ensures r == Hash(WordBytes(k), Seed(4 * |k|, initval, 0)).c
  {
    hide Hash, WordBytes, Wrap32, Seed;
    var x := Add(0xdeadbeef, Wrap32(Wrap32(|k|) * 4) + initval);
    assert State(x, x, x) == Seed(4 * |k|, initval, 0) by { WordSeed(|k|, initval); }
    var s := HashWords(k, State(x, x, x));
    return s.c;
  }

  /** lookup3_hashword2: both hashes of the words' bytes, with two seeds. */
  method HashWord2(k: seq<u32>, pc: u32, pb: u32) returns (primary: u32, secondary: u32)
    ensures var s := Hash(WordBytes(k), Seed(4 * |k|, pc, pb));
            primary == s.c && secondary == s.b
  {
    hide Hash, WordBytes;
    var x := Add(0xdeadbeef, Wrap32(|k| * 4) + pc);
    var s := HashWords(k, State(x, x, Add(x, pb)));
    return s.c, s.b;
  }

  /** On words, lookup3_hashword2 and lookup3_hashlittle2 agree for every pair of seeds and alignment. */
  method WordsAgree(k: seq<u32>, align: nat, pc: u32, pb: u32) returns (h: (u32, u32), h': (u32, u32))
    requires align < 4
    ensures h == h'
  {
    hide Hash, Seed, WordBytes;
    var p, q := HashWord2(k, pc, pb);
    var mem := WordBytes(k);
    assert mem[..4 * |k|] == mem;
    var p', q' := HashLittle2(mem, 4 * |k|, align, pc, pb);
    return (p, q), (p', q');
  }

  lemma WordBlock(k: seq<u32>, s: State)
    requires |k| > 3
    ensures Hash(WordBytes(k), s)
            == Hash(WordBytes(k[3..]), Mix(State(Add(s.a, k[0]), Add(s.b, k[1]), Add(s.c, k[2]))))
  {
    hide Mix, Final, WordBytes, WordAt, Wrap32, Hash;
    var key, block := WordBytes(k), WordBytes(k[..3]);
    LongHash(key, s);
    assert key[12..] == WordBytes(k[3..]) && key[..12] == block by { WordBytesDrop(k, 3); }
    assert WordAt(block, 0) == k[0] by { WordBytesAt(k[..3], 0); }
    assert WordAt(block, 4) == k[1] by { WordBytesAt(k[..3], 1); }
    assert WordAt(block, 8) == k[2] by { WordBytesAt(k[..3], 2); }
  }

  lemma LongHash(key: bytes, s: State)
    requires |key| > 12
    ensures Hash(key, s) == Hash(key[12..], Mix(Absorb(key[..12], s)))
  {
  }

  function WordOrZero(k: seq<u32>, i: nat): u32 {
    if i < |k| then k[i] else 0
  }

  lemma WordTail(k: seq<u32>, s: State)
    requires |k| <= 3
    ensures Hash(WordBytes(k), s)
            == if k == [] then s
               else Final(State(Add(s.a, WordOrZero(k, 0)), Add(s.b, WordOrZero(k, 1)), Add(s.c, WordOrZero(k, 2))))
    ensures forall y: u32 :: Add(y, 0) == y
  {
    hide Mix, Final, WordBytes, WordAt, Wrap32, Hash;
    AddZero();
    LastBlock(WordBytes(k), s);
    forall i: nat | i < 3 ensures WordAt(WordBytes(k), 4 * i) == WordOrZero(k, i) {
      if i < |k| { WordBytesAt(k, i); } else { PastTheEnd(WordBytes(k), 4 * i); }
    }
    assert WordAt(WordBytes(k), 4 * 0) == WordOrZero(k, 0);
    assert WordAt(WordBytes(k), 4 * 1) == WordOrZero(k, 1);
    assert WordAt(WordBytes(k), 4 * 2) == WordOrZero(k, 2);
  }

  lemma PastTheEnd(key: bytes, i: nat)
    requires |key| <= i
    ensures WordAt(key, i) == 0
  {
  }

  /** With a zero secondary seed, hashlittle2's primary hash is hashlittle's, whatever the alignments. */
  method PathsAgree(mem: bytes, length: nat, align: nat, align': nat, initval: u32)
    returns (h: u32, h2: u32)
    requires align < 4 && align' < 4 && RoundUp4(length) <= |mem| && length <= |mem|
    ensures h == h2
  {
    hide Hash, Seed;
    h := HashLittle(mem, length, align, initval);
    var secondary: u32;
    h2, secondary := HashLittle2(mem, length, align', initval, 0);
  }
}
