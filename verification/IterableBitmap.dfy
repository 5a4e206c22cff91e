/**
  IterableBitmap (util/iterable_bitmap.h): up to five levels of 64-bit words, where bit `j` of a
  level says whether word `j` of the level below is nonzero. The template's five hand-unrolled
  copies of each level's code are written here once, by level number.
 */
module IterableBitmap {
  import opened Bits

  const LEVELS: nat := 5
  const MAX_SIZE: nat := 0x4000_0000

  type Row = seq<u64>

  // ----- level sizes -----

  /** Words at level `k`: l0 to l4. */
  function RowSize(size: nat, k: nat): nat {
    if k == 0 then (size + 63) / 64
    else if RowSize(size, k - 1) == 1 then 0 else (RowSize(size, k - 1) + 63) / 64
  }

  /** Number of levels in use. */
  function Levels(size: nat): (r: nat)
    ensures 1 <= r <= LEVELS
  {
    if RowSize(size, 4) > 0 then 5
    else if RowSize(size, 3) > 0 then 4
    else if RowSize(size, 2) > 0 then 3
    else if RowSize(size, 1) > 0 then 2
    else 1
  }

  /** The levels in use shrink 64-fold up to a single root word. */
  lemma LevelSizes(size: nat, k: nat)
    requires 0 < size <= MAX_SIZE && k < LEVELS
    ensures RowSize(size, k) > 0 <==> k < Levels(size)
    ensures k + 1 < Levels(size) ==> RowSize(size, k + 1) == (RowSize(size, k) + 63) / 64
    ensures k + 1 == Levels(size) ==> RowSize(size, k) == 1
  {
    assert RowSize(size, 0) <= 0x100_0000;
    assert RowSize(size, 1) <= 0x4_0000;
    assert RowSize(size, 2) <= 0x1000;
    assert RowSize(size, 3) <= 64;
    assert RowSize(size, 4) <= 1;
  }

  // ----- single rows -----

  predicate BitAt(row: Row, j: nat) {
    j / 64 < |row| && Bit(row[j / 64], j % 64)
  }

  /** __set_bit64 */
  function SetBit64(row: Row, j: nat): (r: Row)
    requires j / 64 < |row|
    ensures |r| == |row|
  {
    Word64();
    Pow2Monotone(j % 64, 64);
    OrBound(row[j / 64], Pow2(j % 64), 64);
    row[j / 64 := Or(row[j / 64], Pow2(j % 64))]
  }

  /** __clear_bit64 */
  function ClearBit64(row: Row, j: nat): (r: Row)
    requires j / 64 < |row|
    ensures |r| == |row|
  {
    Word64();
    Pow2Monotone(j % 64, 64);
    row[j / 64 := And(row[j / 64], Not(64, Pow2(j % 64)))]
  }

  lemma Word64()
    ensures Pow2(64) == TWO64
  {
    Pow2Values();
  }

  lemma SetBit64Bits(row: Row, j: nat, x: nat)
    requires j / 64 < |row|
    ensures BitAt(SetBit64(row, j), x) <==> BitAt(row, x) || x == j
  {
    hide Or, Bit, Pow2;
    if x / 64 == j / 64 { SetBitBits(row[j / 64], j % 64, x % 64); }
  }

  lemma ClearBit64Bits(row: Row, j: nat, x: nat)
    requires j / 64 < |row|
    ensures BitAt(ClearBit64(row, j), x) <==> BitAt(row, x) && x != j
  {
    hide And, Not, Bit, Pow2;
    Word64();
    if x / 64 == j / 64 { ClearBitBits(row[j / 64], 64, j % 64, x % 64); }
  }

  /** A word is zero exactly when it has no bits. */
  lemma WordNonzero(w: u64, t: nat)
    requires Bit(w, t)
    ensures t < 64 && w != 0
  {
    Word64();
    BitBelowWidth(w, 64, t);
  }

  // ----- all rows -----

  predicate Shaped(rows: seq<Row>, size: nat) {
    && 0 < size <= MAX_SIZE
    && |rows| == LEVELS
    && forall k :: 0 <= k < LEVELS ==> |rows[k]| == RowSize(size, k)
  }

  /** Bit `x` of level `k + 1` summarises word `x` of level `k`. */
  predicate Summarises(rows: seq<Row>, k: nat, x: nat)
    requires k + 1 < |rows|
  {
    BitAt(rows[k + 1], x) <==> x < |rows[k]| && rows[k][x] != 0
  }

  ghost predicate Consistent(rows: seq<Row>, size: nat) {
    && Shaped(rows, size)
    && (forall x: nat :: BitAt(rows[0], x) ==> x < size)
    && (forall k: nat, x: nat :: k + 1 < Levels(size) ==> Summarises(rows, k, x))
  }

  function Marked(rows: seq<Row>, size: nat): set<nat>
    requires Shaped(rows, size)
  {
    set x | 0 <= x < size && BitAt(rows[0], x)
  }

  // ----- set and clear, level by level -----

  /**
    All levels below `k` are consistent and so are all above; between levels `k - 1` and `k` the
    summary may only be wrong at bit `j`, and there only with the bit clear (`lag`) or only with
    the bit set (`!lag`).
   */
  ghost predicate ConsistentBut(rows: seq<Row>, size: nat, k: nat, j: nat, lag: bool) {
    && Shaped(rows, size)
    && (forall x: nat :: BitAt(rows[0], x) ==> x < size)
    && (forall l: nat, x: nat :: l + 1 < Levels(size) && !(l + 1 == k && x == j) ==> Summarises(rows, l, x))
    && (0 < k < Levels(size) ==>
          && j < |rows[k - 1]|
          && if lag then rows[k - 1][j] != 0 else rows[k - 1][j] != 0 ==> BitAt(rows[k], j))
  }

  /** The bit at `j` of a level lies in a word of the level above it. */
  lemma ParentInRange(size: nat, k: nat, j: nat)
    requires 0 < size <= MAX_SIZE && k + 1 < Levels(size) && j < RowSize(size, k)
    ensures j / 64 < RowSize(size, k + 1)
  {
    LevelSizes(size, k);
  }

  lemma LeafInRange(size: nat, j: nat)
    requires 0 < size <= MAX_SIZE && j < size
    ensures j / 64 < RowSize(size, 0)
  {
  }

  lemma SetStep(rows: seq<Row>, size: nat, k: nat, j: nat)
    requires 0 < k < Levels(size) && ConsistentBut(rows, size, k, j, true)
    ensures j < RowSize(size, k - 1) && j / 64 < |rows[k]|
    ensures ConsistentBut(rows[k := SetBit64(rows[k], j)], size, k + 1, j / 64, true)
  {
    hide SetBit64, BitAt;
    ParentInRange(size, k - 1, j);
    SetRowEffect(rows, size, k, j);
    var rows' := rows[k := SetBit64(rows[k], j)];
    forall l: nat, x: nat | l + 1 < Levels(size) && !(l == k && x == j / 64)
      ensures Summarises(rows', l, x)
    {
      if !(l + 1 == k && x == j) { assert Summarises(rows, l, x); }
    }
  }

  /** What setting bit `j` of level `k` does to the summaries around it. */
  lemma SetRowEffect(rows: seq<Row>, size: nat, k: nat, j: nat)
    requires Shaped(rows, size) && k < Levels(size) && j / 64 < |rows[k]|
    ensures var rows' := rows[k := SetBit64(rows[k], j)];
            && Shaped(rows', size)
            && (forall x: nat :: BitAt(rows'[k], x) <==> BitAt(rows[k], x) || x == j)
            && rows'[k][j / 64] != 0
            && (forall x: nat :: x < |rows[k]| && x != j / 64 ==> rows'[k][x] == rows[k][x])
  {
    var row' := SetBit64(rows[k], j);
    forall x: nat ensures BitAt(row', x) <==> BitAt(rows[k], x) || x == j { SetBit64Bits(rows[k], j, x); }
    assert BitAt(row', j);
    WordNonzero(row'[j / 64], j % 64);
  }

  lemma ClearStep(rows: seq<Row>, size: nat, k: nat, j: nat)
    requires 0 < k < Levels(size) && ConsistentBut(rows, size, k, j, false)
    ensures j < RowSize(size, k - 1) && j / 64 < |rows[k]|
    ensures var rows' := if rows[k - 1][j] == 0 then rows[k := ClearBit64(rows[k], j)] else rows;
            ConsistentBut(rows', size, k + 1, j / 64, false)
  {
    hide ClearBit64, BitAt;
    ParentInRange(size, k - 1, j);
    ClearRowEffect(rows, size, k, j);
    var rows' := if rows[k - 1][j] == 0 then rows[k := ClearBit64(rows[k], j)] else rows;
    forall l: nat, x: nat | l + 1 < Levels(size) && !(l == k && x == j / 64)
      ensures Summarises(rows', l, x)
    {
      if !(l + 1 == k && x == j) { assert Summarises(rows, l, x); }
    }
    if k + 1 < Levels(size) { assert Summarises(rows, k, j / 64); }
  }

  /** What clearing bit `j` of level `k` does to the summaries around it. */
  lemma ClearRowEffect(rows: seq<Row>, size: nat, k: nat, j: nat)
    requires Shaped(rows, size) && k < Levels(size) && j / 64 < |rows[k]|
    ensures var rows' := rows[k := ClearBit64(rows[k], j)];
            && Shaped(rows', size)
            && (forall x: nat :: BitAt(rows'[k], x) <==> BitAt(rows[k], x) && x != j)
            && (rows'[k][j / 64] != 0 ==> rows[k][j / 64] != 0)
            && (forall x: nat :: x < |rows[k]| && x != j / 64 ==> rows'[k][x] == rows[k][x])
  {
    var row' := ClearBit64(rows[k], j);
    forall x: nat ensures BitAt(row', x) <==> BitAt(rows[k], x) && x != j { ClearBit64Bits(rows[k], j, x); }
  }

  // ----- positions in a row -----

  /** `q` is the first set bit of the row after `p`. */
  ghost predicate NextBit(row: Row, p: int, q: nat) {
    p < q && BitAt(row, q) && forall x: nat :: p < x < q ==> !BitAt(row, x)
  }

  ghost predicate NoneAfter(row: Row, p: int) {
    forall x: nat :: p < x ==> !BitAt(row, x)
  }

  /** `mask` holds the bits of `word` from `t` on. */
  ghost predicate Tail(mask: u64, word: u64, t: int) {
    forall x: nat :: Bit(mask, x) <==> Bit(word, x) && x >= t
  }

  lemma CtzBelow64(mask: u64)
    requires mask > 0
    ensures Ctz(mask) < 64
  {
    WordNonzero(mask, Ctz(mask));
  }

  /** The set bits of a row that lie in word `w` are those of the word. */
  lemma BitOfWord(row: Row, w: nat, t: nat)
    requires t < 64
    ensures BitAt(row, 64 * w + t) <==> w < |row| && Bit(row[w], t)
  {
    assert (64 * w + t) / 64 == w && (64 * w + t) % 64 == t;
  }

  /** Moving to the lowest bit of a nonempty tail of the current word finds the next set bit. */
  lemma NextInWord(row: Row, w: nat, mask: u64, t: nat, p: int)
    requires w < |row| && mask > 0 && Tail(mask, row[w], t)
    requires forall x: nat :: p < x < 64 * w + t ==> !BitAt(row, x)
    requires p < 64 * w + t
    ensures Ctz(mask) < 64 && NextBit(row, p, 64 * w + Ctz(mask))
    ensures Tail(mask, row[w], Ctz(mask))
  {
    hide Bit, BitAt, Ctz;
    var c := Ctz(mask);
    CtzBelow64(mask);
    assert Bit(mask, c);
    BitOfWord(row, w, c);
    forall x: nat | p < x < 64 * w + c ensures !BitAt(row, x) {
      if x >= 64 * w + t {
        BitOfWord(row, w, x - 64 * w);
        assert !Bit(mask, x - 64 * w);
      }
    }
  }

  /** Words between two consecutive bits of the summary are empty. */
  lemma SkipEmptyWords(rows: seq<Row>, size: nat, k: nat, x: nat)
    requires Consistent(rows, size) && k + 1 < Levels(size)
    requires !BitAt(rows[k + 1], x / 64)
    ensures !BitAt(rows[k], x)
  {
    assert Summarises(rows, k, x / 64);
    if BitAt(rows[k], x) { WordNonzero(rows[k][x / 64], x % 64); }
  }

  // ----- the iterator's position -----

  /** From level `k` up, the iterator's masks and indices describe bit `p` of level `k`. */
  ghost predicate On(rows: seq<Row>, size: nat, i: seq<nat>, mask: seq<u64>, k: nat, p: nat)
    requires Shaped(rows, size) && |i| == |mask| == LEVELS && k < Levels(size)
    decreases Levels(size) - k
  {
    && BitAt(rows[k], p)
    && Tail(mask[k], rows[k][p / 64], p % 64)
    && i[k] == (if k == 0 then p else 64 * p)
    && (k + 1 < Levels(size) ==> On(rows, size, i, mask, k + 1, p / 64))
  }

  lemma {:induction false} OnFrame(rows: seq<Row>, size: nat, i: seq<nat>, mask: seq<u64>,
                                   i': seq<nat>, mask': seq<u64>, k: nat, p: nat)
    requires Shaped(rows, size) && |i| == |mask| == |i'| == |mask'| == LEVELS && k < Levels(size)
    requires forall l :: k <= l < LEVELS ==> i'[l] == i[l] && mask'[l] == mask[l]
    requires On(rows, size, i, mask, k, p)
    ensures On(rows, size, i', mask', k, p)
    decreases Levels(size) - k
  {
    if k + 1 >= Levels(size) {
    } else {
      OnFrame(rows, size, i, mask, i', mask', k + 1, p / 64);
    }
  }

  class Bitmap {
    const size: nat
    var rows: seq<Row>

    ghost predicate Valid() reads this {
      Consistent(rows, size)
    }

    ghost function Elements(): set<nat>
      requires Valid()
      reads this
    {
      Marked(rows, size)
    }

    constructor (size: nat)
      requires 0 < size <= MAX_SIZE
      ensures Valid() && this.size == size && Elements() == {}
    {
      this.size := size;
      rows := seq(LEVELS, k requires 0 <= k => seq(RowSize(size, k), _ => 0));
      new;
      forall k: nat, x: nat | k < LEVELS ensures !BitAt(rows[k], x) {
        if x / 64 < |rows[k]| { ZeroHasNoBits(x % 64); }
      }
    }

    method Set(index: nat)
      requires Valid() && index < size
      modifies this
      ensures Valid() && Elements() == old(Elements()) + {index}
    {
      hide SetBit64, BitAt, RowSize;
      LeafInRange(size, index);
      SetRowEffect(rows, size, 0, index);
      ghost var before := rows;
      rows := rows[0 := SetBit64(rows[0], index)];
      forall l: nat, x: nat | l + 1 < Levels(size) && !(l == 0 && x == index / 64)
        ensures Summarises(rows, l, x)
      {
        assert Summarises(before, l, x);
      }
      var k: nat, j: nat := 1, index / 64;
      while k < Levels(size)
        invariant 1 <= k <= Levels(size)
        invariant ConsistentBut(rows, size, k, j, true)
        invariant forall x: nat :: BitAt(rows[0], x) <==> BitAt(before[0], x) || x == index
      {
        SetStep(rows, size, k, j);
        rows := rows[k := SetBit64(rows[k], j)];
        k, j := k + 1, j / 64;
      }
    }

    method Clear(index: nat)
      requires Valid() && index < size
      modifies this
      ensures Valid() && Elements() == old(Elements()) - {index}
    {
      hide ClearBit64, BitAt, RowSize;
      LeafInRange(size, index);
      ClearRowEffect(rows, size, 0, index);
      ghost var before := rows;
      rows := rows[0 := ClearBit64(rows[0], index)];
      forall l: nat, x: nat | l + 1 < Levels(size) && !(l == 0 && x == index / 64)
        ensures Summarises(rows, l, x)
      {
        assert Summarises(before, l, x);
      }
      if 1 < Levels(size) { assert Summarises(before, 0, index / 64); }
      var k: nat, j: nat := 1, index / 64;
      while k < Levels(size)
        invariant 1 <= k <= Levels(size)
        invariant ConsistentBut(rows, size, k, j, false)
        invariant forall x: nat :: BitAt(rows[0], x) <==> BitAt(before[0], x) && x != index
      {
        ClearStep(rows, size, k, j);
        if rows[k - 1][j] == 0 {
          rows := rows[k := ClearBit64(rows[k], j)];
        }
        k, j := k + 1, j / 64;
      }
    }

    method Get(index: nat) returns (r: bool)
      requires Valid() && index < size
      ensures r == (index in Elements())
    {
      LeafInRange(size, index);
      r := Bit(rows[0][index / 64], index % 64);
    }
  }

  /** The first bit of level `k` after `p` is in the word named by the next bit of level `k + 1`. */
  lemma NextThroughParent(rows: seq<Row>, size: nat, k: nat, p: int, w: nat)
    requires Consistent(rows, size) && k + 1 < Levels(size) && -1 <= p
    requires forall x: nat :: p < x && x / 64 == p / 64 ==> !BitAt(rows[k], x)
    requires NextBit(rows[k + 1], p / 64, w)
    ensures w < |rows[k]| && rows[k][w] != 0 && p < 64 * w
    ensures forall x: nat :: p < x < 64 * w ==> !BitAt(rows[k], x)
  {
    hide BitAt;
    assert Summarises(rows, k, w);
    forall x: nat | p < x < 64 * w ensures !BitAt(rows[k], x) {
      if x / 64 != p / 64 { SkipEmptyWords(rows, size, k, x); }
    }
  }

  lemma NoneThroughParent(rows: seq<Row>, size: nat, k: nat, p: int)
    requires Consistent(rows, size) && k + 1 < Levels(size) && -1 <= p
    requires forall x: nat :: p < x && x / 64 == p / 64 ==> !BitAt(rows[k], x)
    requires NoneAfter(rows[k + 1], p / 64)
    ensures NoneAfter(rows[k], p)
  {
    hide BitAt;
    forall x: nat | p < x ensures !BitAt(rows[k], x) {
      if x / 64 != p / 64 { SkipEmptyWords(rows, size, k, x); }
    }
  }

  /** Clearing the lowest bit of the current tail leaves the bits after `p`. */
  lemma AfterCurrent(row: Row, mask: u64, p: nat)
    requires BitAt(row, p) && Tail(mask, row[p / 64], p % 64)
    ensures p / 64 < |row| && mask > 0 && Tail(And(mask, mask - 1), row[p / 64], p % 64 + 1)
  {
    hide And, Bit, Ctz;
    var t := p % 64;
    assert Bit(mask, t);
    WordNonzero(mask, t);
    assert Ctz(mask) == t by { assert Bit(mask, Ctz(mask)); }
    var rest := And(mask, mask - 1);
    forall x: nat ensures Bit(rest, x) <==> Bit(row[p / 64], x) && x >= t + 1 {
      ClearLowest(mask, x);
      assert Bit(mask, x) <==> Bit(row[p / 64], x) && x >= t;
    }
    assert Tail(rest, row[p / 64], t + 1);
  }

  lemma NothingLeftInWord(row: Row, p: nat)
    requires BitAt(row, p) && Tail(0, row[p / 64], p % 64 + 1)
    ensures forall x: nat :: p < x && x / 64 == p / 64 ==> !BitAt(row, x)
  {
    hide Bit;
    forall x: nat | p < x && x / 64 == p / 64 ensures !BitAt(row, x) {
      ZeroHasNoBits(x % 64);
    }
  }

  /** The root level is one word. */
  lemma RootIsOneWord(rows: seq<Row>, size: nat, x: nat)
    requires Shaped(rows, size)
    ensures |rows[Levels(size) - 1]| == 1
    ensures BitAt(rows[Levels(size) - 1], x) ==> x < 64
  {
    LevelSizes(size, Levels(size) - 1);
  }

  class Iterator {
    const bitmap: Bitmap
    var i: seq<nat>
    var mask: seq<u64>

    ghost predicate Ready() reads this, bitmap {
      bitmap.Valid() && |i| == |mask| == LEVELS
    }

    /** operator!= against end(). */
    predicate AtEnd()
      requires |mask| == LEVELS
      reads this
    {
      mask[Levels(bitmap.size) - 1] == 0
    }

    /** The iterator stands on the marked index `p`. */
    ghost predicate At(p: nat) reads this, bitmap {
      Ready() && !AtEnd() && On(bitmap.rows, bitmap.size, i, mask, 0, p)
    }

    function Current(): nat
      requires |i| == LEVELS
      reads this
    {
      i[0]
    }

    /** Index the lowest bit of level `k`'s mask and load the word below it. */
    method Settle(k: nat, ghost w: nat, ghost t: nat, ghost p: int) returns (ghost q: nat)
      requires Ready() && k < Levels(bitmap.size)
      requires mask[k] > 0 && w < |bitmap.rows[k]| && Tail(mask[k], bitmap.rows[k][w], t)
      requires k + 1 < Levels(bitmap.size) ==> On(bitmap.rows, bitmap.size, i, mask, k + 1, w)
      requires p < 64 * w + t && forall x: nat :: p < x < 64 * w + t ==> !BitAt(bitmap.rows[k], x)
      requires !AtEnd()
      modifies this
      ensures Ready() && !AtEnd()
      ensures NextBit(bitmap.rows[k], p, q)
      ensures On(bitmap.rows, bitmap.size, i, mask, k, q)
      ensures k > 0 ==> q < |bitmap.rows[k - 1]| && mask[k - 1] == bitmap.rows[k - 1][q] != 0
    {
      hide BitAt, Tail, Ctz, RowSize;
      ghost var rows, size, i0, mask0 := bitmap.rows, bitmap.size, i, mask;
      NextInWord(rows[k], w, mask[k], t, p);
      q := 64 * w + Ctz(mask[k]);
      assert q / 64 == w && q % 64 == Ctz(mask[k]);
      RootIsOneWord(rows, size, q);
      i := i[k := Ctz(mask[k]) + (if k + 1 < Levels(bitmap.size) then i[k + 1] else 0)];
      assert i[k] == q;
      if k > 0 {
        assert Summarises(rows, k - 1, q);
        mask := mask[k - 1 := bitmap.rows[k - 1][i[k]]];
        i := i[k := 64 * i[k]];
      }
      if k + 1 < Levels(bitmap.size) { OnFrame(rows, size, i0, mask0, i, mask, k + 1, w); }
    }

    /** begin(): on the lowest marked index, or at the end when there is none. */
    constructor (b: Bitmap)
      requires b.Valid()
      ensures bitmap == b && Ready()
      ensures AtEnd() <==> b.Elements() == {}
      ensures !AtEnd() ==> At(Current()) && Current() in b.Elements()
      ensures !AtEnd() ==> forall x :: x in b.Elements() ==> Current() <= x
    {
      bitmap := b;
      i, mask := seq(LEVELS, _ => 0), seq(LEVELS, _ => 0);
      new;
      hide Tail, Ctz, RowSize, BitAt, Summarises;
      ghost var rows, size := bitmap.rows, bitmap.size;
      var top := Levels(b.size) - 1;
      RootIsOneWord(rows, size, 0);
      mask := mask[top := b.rows[top][0]];
      if mask[top] == 0 {
        NoRootNoElements(rows, size);
        return;
      }
      var k := top;
      ghost var w: nat := 0;
      TailOfWord(rows[top][0]);
      w := Settle(top, 0, 0, -1);
      while k > 0
        invariant 0 <= k <= top
        invariant Ready() && !AtEnd() && bitmap.rows == rows
        invariant NextBit(rows[k], -1, w) && On(rows, size, i, mask, k, w)
        invariant k > 0 ==> w < |rows[k - 1]| && mask[k - 1] == rows[k - 1][w] != 0
      {
        k := k - 1;
        NextThroughParent(rows, size, k, -1, w);
        TailOfWord(rows[k][w]);
        w := Settle(k, w, 0, -1);
      }
      FirstElement(rows, size, w);
    }

    /** One level of the nest in operator++: to the next bit of level `k` after `p`. */
    method Advance(k: nat, ghost p: nat) returns (ghost q: nat)
      requires Ready() && k < Levels(bitmap.size) && !AtEnd()
      requires On(bitmap.rows, bitmap.size, i, mask, k, p)
      modifies this
      ensures Ready()
      ensures AtEnd() ==> NoneAfter(bitmap.rows[k], p)
      ensures !AtEnd() ==>
                && NextBit(bitmap.rows[k], p, q)
                && On(bitmap.rows, bitmap.size, i, mask, k, q)
                && (k > 0 ==> q < |bitmap.rows[k - 1]| && mask[k - 1] == bitmap.rows[k - 1][q] != 0)
      decreases Levels(bitmap.size) - k
    {
      hide BitAt, Tail, And, Ctz, RowSize, Summarises;
      ghost var rows, size, i0, mask0 := bitmap.rows, bitmap.size, i, mask;
      var top := Levels(bitmap.size) - 1;
      RootIsOneWord(rows, size, p);
      AfterCurrent(rows[k], mask[k], p);
      mask := mask[k := And(mask[k], mask[k] - 1)];
      ghost var w: nat, t: nat := p / 64, p % 64 + 1;
      if k < top { OnFrame(rows, size, i0, mask0, i, mask, k + 1, p / 64); }
      if mask[k] == 0 {
        NothingLeftInWord(rows[k], p);
        q := 0;
        if k == top {
          NoneAfterRoot(rows, size, p);
          return;
        }
        w := Advance(k + 1, p / 64);
        if mask[top] == 0 {
          NoneThroughParent(rows, size, k, p);
          return;
        }
        NextThroughParent(rows, size, k, p, w);
        TailOfWord(rows[k][w]);
        t := 0;
      }
      q := Settle(k, w, t, p);
    }

    /** operator++: to the next marked index, or to the end when there is none. */
    method Next()
      requires |i| == LEVELS && At(Current())
      modifies this
      ensures Ready()
      ensures AtEnd() <==> forall x :: x in bitmap.Elements() ==> x <= old(Current())
      ensures !AtEnd() ==>
                && At(Current())
                && Current() in bitmap.Elements()
                && old(Current()) < Current()
                && forall x :: x in bitmap.Elements() && old(Current()) < x ==> Current() <= x
    {
      hide BitAt, Tail, RowSize, Summarises;
      ghost var q := Advance(0, Current());
      if !AtEnd() { assert q in bitmap.Elements(); }
    }
  }

  lemma TailOfWord(w: u64)
    ensures Tail(w, w, 0)
  {
  }

  lemma NoneAfterRoot(rows: seq<Row>, size: nat, p: nat)
    requires Shaped(rows, size) && BitAt(rows[Levels(size) - 1], p)
    requires forall x: nat :: p < x && x / 64 == p / 64 ==> !BitAt(rows[Levels(size) - 1], x)
    ensures NoneAfter(rows[Levels(size) - 1], p)
  {
    hide BitAt;
    var root := rows[Levels(size) - 1];
    RootIsOneWord(rows, size, p);
    forall x: nat | p < x ensures !BitAt(root, x) {
      RootIsOneWord(rows, size, x);
      if x < 64 { assert x / 64 == p / 64; }
    }
  }

  /** An empty root word means an empty set. */
  lemma NoRootNoElements(rows: seq<Row>, size: nat)
    requires Consistent(rows, size) && |rows[Levels(size) - 1]| == 1 && rows[Levels(size) - 1][0] == 0
    ensures Marked(rows, size) == {}
  {
    var root := rows[Levels(size) - 1];
    forall x: nat ensures !BitAt(root, x) { ZeroHasNoBits(x % 64); }
    EmptyBelow(rows, size, Levels(size) - 1);
  }

  lemma {:induction false} EmptyBelow(rows: seq<Row>, size: nat, k: nat)
    requires Consistent(rows, size) && k < Levels(size)
    requires forall x: nat :: !BitAt(rows[k], x)
    ensures forall x: nat :: !BitAt(rows[0], x)
  {
    hide BitAt;
    if k == 0 {
    } else {
      var below := rows[k - 1];
      forall x: nat ensures !BitAt(below, x) { SkipEmptyWords(rows, size, k - 1, x); }
      EmptyBelow(rows, size, k - 1);
    }
  }

  lemma FirstElement(rows: seq<Row>, size: nat, w: nat)
    requires Consistent(rows, size) && NextBit(rows[0], -1, w)
    ensures w in Marked(rows, size) && forall x :: x in Marked(rows, size) ==> w <= x
  {
  }

  /** A range-for over the bitmap visits exactly the marked indices, ascending, each once. */
  method Collect(b: Bitmap) returns (xs: seq<nat>)
    requires b.Valid()
    ensures forall j, k :: 0 <= j < k < |xs| ==> xs[j] < xs[k]
    ensures (set x | x in xs) == b.Elements()
  {
    var it := new Iterator(b);
    xs := [];
    while !it.AtEnd()
      invariant it.Ready() && it.bitmap == b
      invariant !it.AtEnd() ==> it.At(it.Current()) && it.Current() in b.Elements()
      invariant forall j, k :: 0 <= j < k < |xs| ==> xs[j] < xs[k]
      invariant !it.AtEnd() ==> forall j :: 0 <= j < |xs| ==> xs[j] < it.Current()
      invariant forall x :: x in xs ==> x in b.Elements()
      invariant forall x :: x in b.Elements() ==> x in xs || (!it.AtEnd() && it.Current() <= x)
      decreases if it.AtEnd() then 0 else b.size + 1 - it.Current()
    {
      hide On, Consistent;
      xs := xs + [it.Current()];
      it.Next();
    }
  }

  // ----- histories -----

  datatype Op = SetOp(index: nat) | ClearOp(index: nat)

  /** The set of indices whose last operation was a set. */
  function Replay(ops: seq<Op>): set<nat> {
    if ops == [] then {} else
      var before := Replay(ops[..|ops| - 1]);
      match ops[|ops| - 1]
      case SetOp(index) => before + {index}
      case ClearOp(index) => before - {index}
  }

  /** After any history, iteration lists the indices whose last operation was a set. */
  method IterateAfter(size: nat, ops: seq<Op>) returns (xs: seq<nat>)
    requires 0 < size <= MAX_SIZE && forall k :: 0 <= k < |ops| ==> ops[k].index < size
    ensures forall j, k :: 0 <= j < k < |xs| ==> xs[j] < xs[k]
    ensures (set x | x in xs) == Replay(ops)
  {
    var b := new Bitmap(size);
    for n := 0 to |ops|
      invariant b.Valid() && b.size == size && fresh(b)
      invariant b.Elements() == Replay(ops[..n])
    {
      hide Consistent;
      assert ops[..n + 1][..n] == ops[..n];
      match ops[n] {
        case SetOp(index) => b.Set(index);
        case ClearOp(index) => b.Clear(index);
      }
    }
    assert ops[..|ops|] == ops;
    xs := Collect(b);
  }
}
