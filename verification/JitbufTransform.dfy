/**
  Field-copy compilation in jitbuf (jitbuf/transform_builder.cc) and the effect of the compiled
  copies (jitbuf/transformer.cc), between two VAR-free layouts.
 */
module JitbufTransform {
  import opened Bits
  import opened Common
  import opened Memory
  import opened JitbufLayout

  /** One compiled field copy. */
  datatype Copy = Copy(src: nat, dst: nat, len: nat)

  /** Field `i` is the one its id stands for: no later field has the same id. */
  predicate Named(fields: seq<Field>, i: nat)
    requires i < |fields|
  {
    forall j :: i < j < |fields| ==> fields[j].id != fields[i].id
  }

  /** Fields with the same id have the same type and number of elements. */
  ghost predicate Compatible(from: seq<Field>, to: seq<Field>) {
    forall j, k :: 0 <= j < |from| && 0 <= k < |to| && from[j].id == to[k].id
      ==> from[j].ftype == to[k].ftype && from[j].nElems == to[k].nElems
  }

  /** The map from id to position; a later field with the same id wins. */
  function Positions(fields: seq<Field>): map<u16, u16> {
    if fields == [] then map[] else
      var last := fields[|fields| - 1];
      Positions(fields[..|fields| - 1])[last.id := last.pos]
  }

  lemma {:induction false} PositionsHas(fields: seq<Field>, id: u16)
    ensures id in Positions(fields) <==> exists j :: 0 <= j < |fields| && fields[j].id == id
    ensures id in Positions(fields) ==>
              exists j :: 0 <= j < |fields| && fields[j].id == id && Named(fields, j)
                          && fields[j].pos == Positions(fields)[id]
  {
    if fields == [] {
    } else {
      var init, n := fields[..|fields| - 1], |fields| - 1;
      PositionsHas(init, id);
      if fields[n].id == id {
        assert Named(fields, n);
      } else if id in Positions(init) {
        var j :| 0 <= j < |init| && init[j].id == id && Named(init, j) && init[j].pos == Positions(init)[id];
        assert fields[j] == init[j] && forall x :: j < x < n ==> fields[x] == init[x];
        assert Named(fields, j);
      }
      if exists j :: 0 <= j < |fields| && fields[j].id == id {
        var j :| 0 <= j < |fields| && fields[j].id == id;
        if j < n { assert init[j] == fields[j]; }
      }
    }
  }

  /** The map holds the position of the field that the id stands for. */
  lemma {:induction false} PositionsNamed(fields: seq<Field>, i: nat)
    requires i < |fields| && Named(fields, i)
    ensures fields[i].id in Positions(fields) && Positions(fields)[fields[i].id] == fields[i].pos
  {
    var init, n := fields[..|fields| - 1], |fields| - 1;
    if i == n {
    } else {
      assert forall j :: i < j < n ==> init[j] == fields[j];
      PositionsNamed(init, i);
    }
  }

  // ----- the plan -----

  function CopyFor(m: map<u16, u16>, f: Field): seq<Copy> {
    if f.id in m then [Copy(m[f.id], f.pos, Length(f))] else []
  }

  /** The copies for the first `k` destination fields. */
  function Plan(m: map<u16, u16>, to: seq<Field>, k: nat): seq<Copy>
    requires k <= |to|
  {
    if k == 0 then [] else Plan(m, to, k - 1) + CopyFor(m, to[k - 1])
  }

  /** The largest source offset a plan reads, exclusive. */
  function MinSize(plan: seq<Copy>): nat {
    if plan == [] then 0 else
      var c := plan[|plan| - 1];
      var before := MinSize(plan[..|plan| - 1]);
      if before < c.src + c.len then c.src + c.len else before
  }

  lemma {:induction false} MinSizeAppend(plan: seq<Copy>, c: Copy)
    ensures MinSize(plan + [c]) == if MinSize(plan) < c.src + c.len then c.src + c.len else MinSize(plan)
  {
    assert (plan + [c])[..|plan|] == plan;
  }

  /** get_xform_to, non-VAR pass: the plan, or nothing when it would read past the source. */
  method GetXform(from: seq<Field>, srcSize: nat, to: seq<Field>) returns (r: Option<seq<Copy>>)
    ensures var plan := Plan(Positions(from), to, |to|);
            r == if MinSize(plan) > srcSize then None else Some(plan)
  {
    hide CopyFor, MinSize, Plan;
    assert MinSize([]) == 0 && Plan(Positions(from), to, 0) == [] by { NoBounds(Positions(from), to, 0, 0); }
    var m: map<u16, u16> := map[];
    assert from[..0] == [];
    for i := 0 to |from|
      invariant m == Positions(from[..i])
    {
      assert from[..i + 1][..i] == from[..i];
      m := m[from[i].id := from[i].pos];
    }
    assert from[..|from|] == from;
    var plan, minSize := [], 0;
    for k := 0 to |to|
      invariant plan == Plan(m, to, k) && minSize == MinSize(plan)
    {
      PlanStep(m, to, k);
      if to[k].id in m {
        var c := Copy(m[to[k].id], to[k].pos, ElemSize(to[k].ftype) * to[k].nElems);
        MinSizeAppend(plan, c);
        plan := plan + [c];
        minSize := if minSize < c.src + c.len then c.src + c.len else minSize;
      }
    }
    if minSize > srcSize { return None; }
    return Some(plan);
  }

  lemma PlanStep(m: map<u16, u16>, to: seq<Field>, k: nat)
    requires k < |to|
    ensures Plan(m, to, k + 1)
            == if to[k].id in m
               then Plan(m, to, k) + [Copy(m[to[k].id], to[k].pos, ElemSize(to[k].ftype) * to[k].nElems)]
               else Plan(m, to, k)
  {
  }

  // ----- running the plan -----

  /** Every copy reads inside the source and writes inside the destination. */
  predicate InBounds(plan: seq<Copy>, srcLen: nat, dstLen: nat) {
    forall i :: 0 <= i < |plan| ==> plan[i].src + plan[i].len <= srcLen && plan[i].dst + plan[i].len <= dstLen
  }

  /** The destination after the copies, in order. */
  function Apply(plan: seq<Copy>, src: bytes, dst: bytes): (r: bytes)
    requires InBounds(plan, |src|, |dst|)
    ensures |r| == |dst|
  {
    if plan == [] then dst else
      var c := plan[|plan| - 1];
      var d := Apply(plan[..|plan| - 1], src, dst);
      Patch(d, c.dst, src[c.src..c.src + c.len])
  }

  /** The compiled function's field copies. */
  method RunXform(plan: seq<Copy>, src: bytes, dst: array<byte>)
    requires InBounds(plan, |src|, dst.Length)
    modifies dst
    ensures dst[..] == Apply(plan, src, old(dst[..]))
  {
    hide Patch;
    assert plan[..0] == [];
    for i := 0 to |plan|
      invariant dst[..] == Apply(plan[..i], src, old(dst[..]))
    {
      assert plan[..i + 1][..i] == plan[..i];
      Memcpy(dst, plan[i].dst, src[plan[i].src..plan[i].src + plan[i].len]);
    }
    assert plan[..|plan|] == plan;
  }

  // ----- the transformation is correct -----

  /** What is copied for each of the first `k` destination fields lies in `size` source bytes. */
  ghost predicate SourceFits(m: map<u16, u16>, to: seq<Field>, k: nat, size: nat)
    requires k <= |to|
  {
    forall j :: 0 <= j < k && to[j].id in m ==> m[to[j].id] + Length(to[j]) <= size
  }

  /** The size check passes exactly when every copy reads inside the source. */
  lemma {:induction false} MinSizeIff(m: map<u16, u16>, to: seq<Field>, k: nat, size: nat)
    requires k <= |to|
    ensures MinSize(Plan(m, to, k)) <= size <==> SourceFits(m, to, k, size)
    decreases k
  {
    hide MinSize, Plan, Length;
    if k == 0 {
      NoBounds(m, to, 0, 0);
    } else {
      MinSizeIff(m, to, k - 1, size);
      PlanStep(m, to, k - 1);
      if to[k - 1].id in m {
        LengthIs(to[k - 1]);
        MinSizeAppend(Plan(m, to, k - 1), Copy(m[to[k - 1].id], to[k - 1].pos, Length(to[k - 1])));
      }
    }
  }

  /** Copies that pass the size check stay in both buffers. */
  lemma {:induction false} PlanInside(m: map<u16, u16>, to: seq<Field>, k: nat, size: nat)
    requires Positioned(to) && k <= |to| && SourceFits(m, to, k, size)
    ensures InBounds(Plan(m, to, k), size, End(to, |to|))
    decreases k
  {
    hide End, Start, Length, InBounds, MinSize, Plan, Positioned;
    if k == 0 {
      NoBounds(m, to, size, End(to, |to|));
    } else {
      PlanInside(m, to, k - 1, size);
      PlanStep(m, to, k - 1);
      if to[k - 1].id in m {
        FieldInside(to, k - 1);
        LengthIs(to[k - 1]);
        var c := Copy(m[to[k - 1].id], to[k - 1].pos, Length(to[k - 1]));
        BoundsAppend(Plan(m, to, k - 1), c, size, End(to, |to|));
      }
    }
  }

  lemma NoBounds(m: map<u16, u16>, to: seq<Field>, a: nat, b: nat)
    ensures Plan(m, to, 0) == [] && InBounds([], a, b) && MinSize([]) == 0
  {
  }

  lemma BoundsAppend(plan: seq<Copy>, c: Copy, a: nat, b: nat)
    requires InBounds(plan, a, b) && c.src + c.len <= a && c.dst + c.len <= b
    ensures InBounds(plan + [c], a, b)
    ensures MinSize(plan) <= a ==> MinSize(plan + [c]) <= a
  {
    MinSizeAppend(plan, c);
  }

  /** Running the plan for the first `k` destination fields. */
  ghost predicate Transformed(m: map<u16, u16>, to: seq<Field>, k: nat, src: bytes, dst: bytes, d: bytes)
    requires |d| == |dst| && k <= |to|
  {
    && (forall j :: 0 <= j < k && to[j].id in m ==>
          && to[j].pos + Length(to[j]) <= |d| && m[to[j].id] + Length(to[j]) <= |src|
          && d[to[j].pos..to[j].pos + Length(to[j])] == src[m[to[j].id]..m[to[j].id] + Length(to[j])])
    && (forall x: nat :: x < |d| && (forall j :: 0 <= j < k && to[j].id in m ==> !Covers(to[j], x)) ==> d[x] == dst[x])
  }

  predicate Covers(f: Field, x: nat) {
    f.pos <= x < f.pos + Length(f)
  }

  lemma {:induction false} PlanTransforms(m: map<u16, u16>, to: seq<Field>, k: nat, src: bytes, dst: bytes)
    requires Positioned(to) && k <= |to| && SourceFits(m, to, k, |src|) && End(to, |to|) <= |dst|
    ensures var plan := Plan(m, to, k);
            InBounds(plan, |src|, |dst|) && Transformed(m, to, k, src, dst, Apply(plan, src, dst))
    decreases k
  {
    hide End, Start, Length, Patch, Transformed, InBounds, Apply, Plan, MinSize, Positioned;
    PlanInside(m, to, k, |src|);
    BoundsGrow(Plan(m, to, k), |src|, End(to, |to|), |src|, |dst|);
    if k == 0 {
      PlanNone(m, to, src, dst);
    } else {
      var f, before := to[k - 1], Plan(m, to, k - 1);
      PlanTransforms(m, to, k - 1, src, dst);
      PlanStep(m, to, k - 1);
      var d := Apply(before, src, dst);
      if f.id in m {
        FieldInside(to, k - 1);
        LengthIs(f);
        ApplyAppend(before, Copy(m[f.id], f.pos, Length(f)), src, dst);
        CopyKeeps(m, to, k, src, dst, d);
      } else {
        TransformedSkip(m, to, k, src, dst, d);
      }
    }
  }

  lemma LengthIs(f: Field)
    ensures Length(f) == ElemSize(f.ftype) * f.nElems
  {
  }

  lemma BoundsGrow(plan: seq<Copy>, a: nat, b: nat, a': nat, b': nat)
    requires InBounds(plan, a, b) && a <= a' && b <= b'
    ensures InBounds(plan, a', b')
  {
  }

  lemma PlanNone(m: map<u16, u16>, to: seq<Field>, src: bytes, dst: bytes)
    ensures InBounds(Plan(m, to, 0), |src|, |dst|)
    ensures Transformed(m, to, 0, src, dst, Apply(Plan(m, to, 0), src, dst))
  {
  }

  lemma {:induction false} ApplyAppend(before: seq<Copy>, c: Copy, src: bytes, dst: bytes)
    requires InBounds(before + [c], |src|, |dst|) && InBounds(before, |src|, |dst|)
    ensures c.src + c.len <= |src| && c.dst + c.len <= |dst|
    ensures Apply(before + [c], src, dst) == Patch(Apply(before, src, dst), c.dst, src[c.src..c.src + c.len])
  {
    hide Patch;
    assert (before + [c])[|before|] == c;
    assert (before + [c])[..|before|] == before;
  }

  lemma TransformedSkip(m: map<u16, u16>, to: seq<Field>, k: nat, src: bytes, dst: bytes, d: bytes)
    requires 0 < k <= |to| && |d| == |dst| && to[k - 1].id !in m
    requires Transformed(m, to, k - 1, src, dst, d)
    ensures Transformed(m, to, k, src, dst, d)
  {
    forall x: nat | x < |d| && (forall j :: 0 <= j < k && to[j].id in m ==> !Covers(to[j], x))
      ensures d[x] == dst[x]
    {
      assert forall j :: 0 <= j < k - 1 && to[j].id in m ==> !Covers(to[j], x);
    }
  }

  lemma CopyKeeps(m: map<u16, u16>, to: seq<Field>, k: nat, src: bytes, dst: bytes, d: bytes)
    requires 0 < k <= |to| && |d| == |dst| && Positioned(to) && to[k - 1].id in m
    requires to[k - 1].pos + Length(to[k - 1]) <= |d| && m[to[k - 1].id] + Length(to[k - 1]) <= |src|
    requires Transformed(m, to, k - 1, src, dst, d)
    ensures var f := to[k - 1];
            Transformed(m, to, k, src, dst, Patch(d, f.pos, src[m[f.id]..m[f.id] + Length(f)]))
  {
    hide End, Start, Length, Patch, Positioned;
    var f := to[k - 1];
    var v := src[m[f.id]..m[f.id] + Length(f)];
    var d' := Patch(d, f.pos, v);
    forall x: nat | x < |d| ensures d'[x] == if Covers(f, x) then v[x - f.pos] else d[x] {
      PatchAt(d, f.pos, v, x);
    }
    forall j | 0 <= j < k && to[j].id in m
      ensures to[j].pos + Length(to[j]) <= |d| && m[to[j].id] + Length(to[j]) <= |src|
      ensures d'[to[j].pos..to[j].pos + Length(to[j])] == src[m[to[j].id]..m[to[j].id] + Length(to[j])]
    {
      if j < k - 1 {
        FieldsDisjoint(to, j, k - 1);
        assert d'[to[j].pos..to[j].pos + Length(to[j])] == d[to[j].pos..to[j].pos + Length(to[j])];
      } else {
        assert d'[f.pos..f.pos + Length(f)] == v;
      }
    }
    forall x: nat | x < |d'| && (forall j :: 0 <= j < k && to[j].id in m ==> !Covers(to[j], x))
      ensures d'[x] == dst[x]
    {
      assert !Covers(to[k - 1], x);
    }
  }

  /** A destination field whose id the source has too. */
  ghost predicate Shared(from: seq<Field>, f: Field) {
    exists i :: 0 <= i < |from| && from[i].id == f.id
  }

  /** Each shared field, at its destination length, lies inside `size` bytes of the source. */
  ghost predicate ShapesFit(from: seq<Field>, to: seq<Field>, size: nat) {
    forall i, k :: 0 <= i < |from| && 0 <= k < |to| && from[i].id == to[k].id && Named(from, i)
      ==> from[i].pos + Length(to[k]) <= size
  }

  lemma ShapesFitIff(from: seq<Field>, to: seq<Field>, size: nat)
    ensures ShapesFit(from, to, size) <==> SourceFits(Positions(from), to, |to|, size)
  {
    hide Positions, Length;
    var m := Positions(from);
    if ShapesFit(from, to, size) {
      forall k | 0 <= k < |to| && to[k].id in m ensures m[to[k].id] + Length(to[k]) <= size {
        PositionsHas(from, to[k].id);
      }
    }
    if SourceFits(m, to, |to|, size) {
      forall i, k | 0 <= i < |from| && 0 <= k < |to| && from[i].id == to[k].id && Named(from, i)
        ensures from[i].pos + Length(to[k]) <= size
      {
        PositionsNamed(from, i);
      }
    }
  }

  /** Fields of the same shape always fit. */
  lemma CompatibleFits(from: seq<Field>, to: seq<Field>)
    requires Positioned(from) && Compatible(from, to)
    ensures ShapesFit(from, to, End(from, |from|))
  {
    hide End, Start, Positioned;
    forall i, k | 0 <= i < |from| && 0 <= k < |to| && from[i].id == to[k].id && Named(from, i)
      ensures from[i].pos + Length(to[k]) <= End(from, |from|)
    {
      FieldInside(from, i);
    }
  }

  /**
    Each destination field with the id of a source field holds as many bytes as it is long from
    that field's position on, and every byte outside such fields is the old one.
   */
  ghost predicate FieldsCopied(from: seq<Field>, to: seq<Field>, src: bytes, dst: bytes, d: bytes)
    requires |d| == |dst|
  {
    && (forall i, k :: 0 <= i < |from| && 0 <= k < |to| && from[i].id == to[k].id && Named(from, i) ==>
          && to[k].pos + Length(to[k]) <= |d| && from[i].pos + Length(to[k]) <= |src|
          && d[to[k].pos..to[k].pos + Length(to[k])] == src[from[i].pos..from[i].pos + Length(to[k])])
    && (forall x: nat :: x < |d| && (forall k :: 0 <= k < |to| && Shared(from, to[k]) ==> !Covers(to[k], x))
          ==> d[x] == dst[x])
  }

  lemma TransformCopies(from: seq<Field>, to: seq<Field>, src: bytes, dst: bytes, d: bytes)
    requires |d| == |dst| && Transformed(Positions(from), to, |to|, src, dst, d)
    ensures FieldsCopied(from, to, src, dst, d)
  {
    hide Positions, Length;
    var m := Positions(from);
    forall i, k | 0 <= i < |from| && 0 <= k < |to| && from[i].id == to[k].id && Named(from, i)
      ensures to[k].pos + Length(to[k]) <= |d| && from[i].pos + Length(to[k]) <= |src|
      ensures d[to[k].pos..to[k].pos + Length(to[k])] == src[from[i].pos..from[i].pos + Length(to[k])]
    {
      PositionsNamed(from, i);
    }
    forall x: nat | x < |d| && (forall k :: 0 <= k < |to| && Shared(from, to[k]) ==> !Covers(to[k], x))
      ensures d[x] == dst[x]
    {
      forall k | 0 <= k < |to| && to[k].id in m ensures !Covers(to[k], x) {
        PositionsHas(from, to[k].id);
        assert Shared(from, to[k]);
      }
    }
  }

  /** Copies that pass the size check transform every message field by field. */
  lemma PlanCopies(from: seq<Field>, to: seq<Field>, src: bytes, dst: bytes)
    requires Positioned(to) && ShapesFit(from, to, |src|) && End(to, |to|) <= |dst|
    ensures var plan := Plan(Positions(from), to, |to|);
            InBounds(plan, |src|, |dst|) && FieldsCopied(from, to, src, dst, Apply(plan, src, dst))
  {
    hide Positions, Plan, Transformed, End, FieldsCopied, InBounds, Apply, Positioned, ShapesFit, SourceFits;
    ShapesFitIff(from, to, |src|);
    PlanTransforms(Positions(from), to, |to|, src, dst);
    TransformCopies(from, to, src, dst, Apply(Plan(Positions(from), to, |to|), src, dst));
  }

  /** When ids are unique every field is the one its id stands for. */
  lemma UniqueAreNamed(fields: seq<Field>)
    ensures (forall i, j :: 0 <= i < j < |fields| ==> fields[i].id != fields[j].id)
            <==> forall i :: 0 <= i < |fields| ==> Named(fields, i)
  {
    if forall i :: 0 <= i < |fields| ==> Named(fields, i) {
      forall i, j | 0 <= i < j < |fields| ensures fields[i].id != fields[j].id {
        assert Named(fields, i);
      }
    }
  }

  /** The destination field holds the source field's bytes. */
  ghost predicate ValueKept(from: seq<Field>, to: seq<Field>, i: nat, k: nat, src: bytes, dst: bytes)
    requires i < |from| && k < |to|
  {
    var plan := Plan(Positions(from), to, |to|);
    && InBounds(plan, |src|, |dst|)
    && to[k].pos + Length(to[k]) <= |dst| && from[i].pos + Length(from[i]) <= |src|
    && Apply(plan, src, dst)[to[k].pos..to[k].pos + Length(to[k])]
       == src[from[i].pos..from[i].pos + Length(from[i])]
  }

  /** With unique ids and equal shapes, every field with a shared id keeps its value. */
  lemma UniqueFieldsKept(from: seq<Field>, to: seq<Field>, src: bytes, dst: bytes, i: nat, k: nat)
    requires Positioned(from) && Positioned(to) && Compatible(from, to)
    requires End(from, |from|) <= |src| && End(to, |to|) <= |dst|
    requires forall i, j :: 0 <= i < j < |from| ==> from[i].id != from[j].id
    requires i < |from| && k < |to| && from[i].id == to[k].id
    ensures ValueKept(from, to, i, k, src, dst)
  {
    hide Positions, Plan, End, InBounds, Apply, Positioned;
    CompatibleFits(from, to);
    UniqueAreNamed(from);
    PlanCopies(from, to, src, dst);
  }

  /**
    Shapes are never compared. A shared field keeps its value, for every message and destination,
    if and only if it takes as many bytes in both layouts.
   */
  lemma ValueKeptIff(from: seq<Field>, to: seq<Field>, i: nat, k: nat)
    requires Positioned(from) && Positioned(to) && ShapesFit(from, to, End(from, |from|))
    requires i < |from| && k < |to| && from[i].id == to[k].id && Named(from, i)
    ensures (forall src: bytes, dst: bytes :: End(from, |from|) <= |src| && End(to, |to|) <= |dst|
               ==> ValueKept(from, to, i, k, src, dst))
            <==> Length(from[i]) == Length(to[k])
  {
    hide Positions, Plan, End, InBounds, Apply, Positioned, Length;
    FieldInside(from, i);
    if Length(from[i]) == Length(to[k]) {
      forall src: bytes, dst: bytes | End(from, |from|) <= |src| && End(to, |to|) <= |dst|
        ensures ValueKept(from, to, i, k, src, dst)
      {
        PlanCopies(from, to, src, dst);
      }
    } else {
      var src: bytes, dst: bytes := seq(End(from, |from|), _ => 0), seq(End(to, |to|), _ => 0);
      assert !ValueKept(from, to, i, k, src, dst);
    }
  }

  /**
    get_xform_to succeeds if and only if every shared field, at its destination length, lies
    inside the source message, as it always does between fields of the same shape. The compiled
    copies then put each shared field's bytes in its destination and touch nothing else.
   */
  method Transform(from: seq<Field>, to: seq<Field>, src: bytes, dst: array<byte>) returns (ok: bool)
    requires Positioned(from) && Positioned(to) && End(from, |from|) <= |src| && End(to, |to|) <= dst.Length
    modifies dst
    ensures ok <==> ShapesFit(from, to, End(from, |from|))
    ensures Compatible(from, to) ==> ok
    ensures !ok ==> dst[..] == old(dst[..])
    ensures ok ==> FieldsCopied(from, to, src, old(dst[..]), dst[..])
  {
    hide Positions, Plan, End, FieldsCopied, Positioned, ShapesFit, SourceFits, Compatible;
    var total := End(from, |from|);
    ShapesFitIff(from, to, total);
    MinSizeIff(Positions(from), to, |to|, total);
    if Compatible(from, to) { CompatibleFits(from, to); }
    var plan := GetXform(from, total, to);
    if plan == None { return false; }
    ShapesFitMore(from, to, total, |src|);
    PlanCopies(from, to, src, dst[..]);
    RunXform(plan.value, src, dst);
    ok := true;
  }

  lemma ShapesFitMore(from: seq<Field>, to: seq<Field>, size: nat, size': nat)
    requires ShapesFit(from, to, size) && size <= size'
    ensures ShapesFit(from, to, size')
  {
  }
}
