/**
  Message layout in jitbuf (jitbuf/descriptor.h, jitbuf/descriptor_reader.cc), for descriptors
  without VAR fields: field sizes, and the positions compute_positions assigns.
 */
module JitbufLayout {
  import opened Bits

  datatype FType = INT8 | INT16 | INT32 | INT64 | INT128

  datatype Field = Field(id: u16, ftype: FType, nElems: u16, pos: u16)

  /** Field::size: the size of one element. */
  function ElemSize(t: FType): (r: nat)
    ensures r == 1 || r == 2 || r == 4 || r == 8 || r == 16
  {
    match t
    case INT8 => 1
    case INT16 => 2
    case INT32 => 4
    case INT64 => 8
    case INT128 => 16
  }

  /** Bytes the field takes. */
  function Length(f: Field): nat {
    ElemSize(f.ftype) * f.nElems
  }

  function Wrap16(x: int): (r: u16) {
    x % 0x1_0000
  }

  // ----- positions without a bound -----

  /** `p` rounded up to a multiple of `a`. */
  function RoundUp(p: nat, a: nat): (r: nat)
    requires a > 0
    ensures p <= r < p + a && r % a == 0
  {
    var q := p + a - 1;
    DivModUnique(q - q % a, a, q / a, 0);
    q - q % a
  }

  /** End of the first `k` fields; the message starts with two bytes of rpc id. */
  function End(fields: seq<Field>, k: nat): (r: nat)
    requires k <= |fields|
    decreases k, 0
  {
    if k == 0 then 2 else Start(fields, k - 1) + Length(fields[k - 1])
  }

  function Start(fields: seq<Field>, k: nat): (r: nat)
    requires k < |fields|
    decreases k, 1
  {
    RoundUp(End(fields, k), ElemSize(fields[k].ftype))
  }

  lemma {:induction false} EndMonotone(fields: seq<Field>, j: nat, k: nat)
    requires j <= k <= |fields|
    ensures 2 <= End(fields, j) <= End(fields, k)
    decreases k
  {
    assert forall f: Field :: Length(f) >= 0;
    if j < k {
      EndMonotone(fields, j, k - 1);
    } else if j > 0 {
      EndMonotone(fields, j - 1, j - 1);
    } else {
      assert j == k == 0;
    }
  }

  // ----- compute_positions -----

  /** The fields carry the positions compute_positions gives them, and the total fits 16 bits. */
  ghost predicate Positioned(fields: seq<Field>) {
    && End(fields, |fields|) < 0x1_0000
    && forall k :: 0 <= k < |fields| ==> fields[k].pos == Start(fields, k)
  }

  /** Layouts do not depend on the positions stored in the fields. */
  ghost predicate SameShapes(a: seq<Field>, b: seq<Field>) {
    |a| == |b| && forall k :: 0 <= k < |a| ==> a[k] == b[k].(pos := a[k].pos)
  }

  lemma {:induction false} EndOfShapes(a: seq<Field>, b: seq<Field>, k: nat)
    requires SameShapes(a, b) && k <= |a|
    ensures End(a, k) == End(b, k)
    ensures k < |a| ==> Start(a, k) == Start(b, k)
    decreases k
  {
    if k == 0 {
    } else {
      EndOfShapes(a, b, k - 1);
    }
  }

  lemma AlignedUp(pos: u16, a: nat)
    requires a == 1 || a == 2 || a == 4 || a == 8 || a == 16
    ensures And(pos + a - 1, Not32(a - 1)) == RoundUp(pos, a)
  {
    hide And;
    assert IsPow2(a) by {
      assert Pow2(0) == 1 && Pow2(1) == 2 && Pow2(2) == 4 && Pow2(3) == 8 && Pow2(4) == 16;
    }
    MaskIsMod(pos + a - 1, a);
  }

  lemma EndNone(fields: seq<Field>)
    ensures End(fields, 0) == 2
  {
  }

  lemma EndStep(fields: seq<Field>, k: nat)
    requires k < |fields|
    ensures Start(fields, k) == RoundUp(End(fields, k), ElemSize(fields[k].ftype))
    ensures End(fields, k + 1) == Start(fields, k) + Length(fields[k])
  {
  }

  /** One field's turn of the loop, when nothing up to the end of the field overflows. */
  lemma PlaceField(fields: seq<Field>, k: nat, pos: u16)
    requires k < |fields| && pos == End(fields, k) && End(fields, k + 1) < 0x1_0000
    ensures var f := fields[k];
            var a := ElemSize(f.ftype);
            var start := Wrap16(And(pos + a - 1, Not32(a - 1)));
            start == Start(fields, k) && Wrap16(start + a * f.nElems) == End(fields, k + 1)
  {
    hide And, Start, End, RoundUp;
    EndStep(fields, k);
    AlignedUp(pos, ElemSize(fields[k].ftype));
    assert Length(fields[k]) >= 0;
  }

  class Descriptor {
    var fields: seq<Field>
    var size: u16

    constructor (fields: seq<Field>)
      ensures this.fields == fields
    {
      this.fields, size := fields, 0;
    }

    /**
      compute_positions, in 16-bit arithmetic. When the total fits 16 bits, every field gets its
      unbounded position and the descriptor its total size.
     */
    method ComputePositions()
      modifies this
      ensures SameShapes(fields, old(fields))
      ensures End(fields, |fields|) < 0x1_0000 ==> Positioned(fields)
      ensures size == End(fields, |fields|) <==> End(fields, |fields|) < 0x1_0000
    {
      hide And, Start, End, Length;
      assert End(fields, 0) == 2 by { EndNone(fields); }
      var pos: u16 := 2;
      ghost var before := fields;
      ghost var total := End(before, |before|);
      for i := 0 to |fields|
        invariant SameShapes(fields, before)
        invariant total < 0x1_0000 ==> pos == End(before, i)
        invariant total < 0x1_0000 ==> forall k :: 0 <= k < i ==> fields[k].pos == Start(before, k)
      {
        var f := fields[i];
        var align := ElemSize(f.ftype);
        EndMonotone(before, i + 1, |before|);
        if total < 0x1_0000 { PlaceField(before, i, pos); }
        pos := Wrap16(And(pos + align - 1, Not32(align - 1)));
        fields := fields[i := f.(pos := pos)];
        pos := Wrap16(pos + align * f.nElems);
      }
      forall k: nat | k <= |fields| ensures End(fields, k) == End(before, k) { EndOfShapes(fields, before, k); }
      forall k | 0 <= k < |fields| ensures Start(fields, k) == Start(before, k) { EndOfShapes(fields, before, k); }
      size := pos;
    }
  }

  // ----- what the positions promise -----

  /** Every field is naturally aligned and lies after the rpc id and inside the message. */
  lemma FieldInside(fields: seq<Field>, k: nat)
    requires Positioned(fields) && k < |fields|
    ensures fields[k].pos % ElemSize(fields[k].ftype) == 0
    ensures 2 <= fields[k].pos && fields[k].pos + Length(fields[k]) <= End(fields, |fields|)
  {
    EndMonotone(fields, k, k);
    EndMonotone(fields, k + 1, |fields|);
  }

  /** Fields do not overlap. */
  lemma FieldsDisjoint(fields: seq<Field>, j: nat, k: nat)
    requires Positioned(fields) && j < k < |fields|
    ensures fields[j].pos + Length(fields[j]) <= fields[k].pos
  {
    EndMonotone(fields, j + 1, k);
  }
}
