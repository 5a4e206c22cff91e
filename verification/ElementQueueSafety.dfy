/**
  Safety of the element queue over every interleaving: every action keeps the invariant `Inv`.
 */
module ElementQueueSafety {
  import opened Bits
  import opened Memory
  import opened ElementQueueLayout
  import opened ElementQueueMachine

  // ----- the wrapping tests decide as the unbounded ones -----

  /**
    `q` encodes `n` elements written and `h` released, with the write position at `t` and the
    released position at `g`.
   */
  ghost predicate Encodes(q: Queue, size: nat, b: nat, n: nat, h: nat, t: nat, g: nat) {
    && Legal(size, b)
    && q.elemMask == size - 1 && q.bufMask == b - 1
    && q.elemTail == Wrap32(n) && q.elemHead == Wrap32(h)
    && q.bufTail == Wrap32(t) && q.bufHead == Wrap32(g)
    && 0 <= n - h <= size && 0 <= t - g <= b
  }

  lemma SpaceTestExact(t: nat, g: nat, a: nat, b: nat)
    requires IsPow2(b) && 0 < b <= 0x4000_0000 && a < b && 0 <= t - g <= b
    ensures var tail := NextOffset(Wrap32(t), b - 1, a);
            && tail == Wrap32(Place(t, a, b))
            && Wrap32(tail + a) == Wrap32(Place(t, a, b) + a)
            && Wrap32(tail + a - Wrap32(g)) == Place(t, a, b) + a - g
            && And(tail, b - 1) == Place(t, a, b) % b
  {
    hide And, NextOffset, Wrap32, Place, IsPow2, Pow2;
    var p := Place(t, a, b);
    NextOffsetExact(t, a, b);
    WrapMod(p, b);
    WrapAdd(p, a);
    WrapDistance(p, a, g);
  }

  lemma WordIsItself(x: u32)
    ensures Wrap32(x) == x
  {
  }

  /** eq_write succeeds, refuses and places exactly as it would with unbounded counters. */
  lemma ReserveExact(q: Queue, size: nat, b: nat, n: nat, h: nat, t: nat, g: nat, len: nat)
    requires Encodes(q, size, b, n, h, t, g) && len <= MAX_LEN
    ensures var a := Align8(len);
            Reserve(q, len) ==
              if a >= b then TooLong
              else if n - h >= size || Place(t, a, b) + a - g > b then NoSpace
              else Reserved(n % size, Place(t, a, b) % b,
                            q.(elemTail := Wrap32(n + 1), bufTail := Wrap32(Place(t, a, b) + a)))
  {
    hide And, NextOffset, AlignedLen, Wrap32, Place, Align8, IsPow2, Pow2;
    var a := Align8(len);
    AlignedLenExact(len);
    if a < b {
      SpaceTestExact(t, g, a, b);
      WrapDifference(n, h);
      WrapMod(n, size);
      WrapAdd(n, 1);
      WordIsItself(size);
      WordIsItself(b);
    }
  }

  /** eq_read recomputes the position at which the element was placed. */
  lemma TakeExact(q: Queue, size: nat, b: nat, n: nat, h: nat, g: nat, len: nat)
    requires Legal(size, b) && q.elemMask == size - 1 && q.bufMask == b - 1
    requires q.elemTail == Wrap32(n) && q.elemHead == Wrap32(h) && q.bufHead == Wrap32(g)
    requires 0 <= n - h <= size && Align8(len) < b
    ensures And(q.elemHead, q.elemMask) == h % size
    ensures q.elemTail == q.elemHead <==> n == h
    ensures var a := Align8(len);
            Take(q, len) ==
              if n == h then Empty
              else Taken(Place(g, a, b) % b,
                         q.(elemHead := Wrap32(h + 1), bufHead := Wrap32(Place(g, a, b) + a)))
  {
    hide And, NextOffset, AlignedLen, Wrap32, Place, Align8, IsPow2, Pow2;
    AlignedLenExact(len);
    SpaceTestExact(g, g, Align8(len), b);
    WrapDifference(n, h);
    WordIsItself(0);
    WrapMod(h, size);
    WrapAdd(h, 1);
  }

  // ----- each action keeps the invariant -----

  lemma Initially(elems: seq<u32>, data: bytes)
    requires Legal(|elems|, |data|)
    ensures Inv(Init(elems, data), Counts(0, 0, 0, 0, 0))
  {
  }

  /** The effect of an accepted eq_write, in unbounded terms. */
  ghost predicate Accepts(m: Machine, c: Counts, elem: bytes, m': Machine)
    requires Sized(m) && Ordered(m, c)
  {
    var n, size, b, a := |m.accepted|, |m.elems|, |m.data|, Align8(|elem|);
    var at := Place(Pos(m, n), a, b);
    && |elem| <= MAX_LEN && Fits(elem, b)
    && n - c.wElem < size
    && at + a - Pos(m, c.wBuf) <= b
    && m' == m.(elems := m.elems[n % size := |elem|],
                w := m.w.(elemTail := Wrap32(n + 1), bufTail := Wrap32(at + a)),
                wpc := if elem == [] then WBatch else WCopying(at % b, elem, 0),
                accepted := m.accepted + [elem])
  }

  lemma WriteEffect(m: Machine, c: Counts, elem: bytes)
    requires Inv(m, c) && m.wpc.WBatch? && |elem| <= MAX_LEN
    ensures ExecWrite(m, elem) == m || Accepts(m, c, elem, ExecWrite(m, elem))
  {
    hide And, NextOffset, AlignedLen, Reserve, Wrap32, Place, Align8, IsPow2, Pow2;
    var n := |m.accepted|;
    EndMonotone(m.accepted, c.wBuf, n, |m.data|);
    ReserveExact(m.w, |m.elems|, |m.data|, n, c.wElem, Pos(m, n), Pos(m, c.wBuf), |elem|);
  }

  /** Positions of earlier elements do not move when one is appended. */
  lemma Appended(m: Machine, elem: bytes, m': Machine)
    requires m'.accepted == m.accepted + [elem] && |m'.data| == |m.data| > 0
    ensures forall k: nat :: k <= |m.accepted| ==> Pos(m', k) == Pos(m, k)
    ensures forall j: nat :: j < |m.accepted| ==>
              Start(m'.accepted, j, |m.data|) == Start(m.accepted, j, |m.data|)
  {
    forall k: nat | k <= |m.accepted| ensures Pos(m', k) == Pos(m, k) {
      EndPrefix(m.accepted, [elem], k, |m.data|);
    }
    forall j: nat | j < |m.accepted|
      ensures Start(m'.accepted, j, |m.data|) == Start(m.accepted, j, |m.data|)
    {
      StartPrefix(m.accepted, [elem], j, |m.data|);
    }
  }

  lemma WriteKeeps(m: Machine, c: Counts, elem: bytes, m': Machine)
    requires Inv(m, c) && m.wpc.WBatch? && Accepts(m, c, elem, m')
    ensures Inv(m', c)
  {
    hide Wrap32, Place, Align8, IsPow2, Pow2, Start, End, SlotsHold, BytesHold, Encoded;
    Appended(m, elem, m');
    EndStep(m'.accepted, |m.accepted|, |m.data|);
    assert Sized(m') && Ordered(m', c);
    WriteEncoded(m, c, m', elem);
    WriteSlots(m, c, m', elem);
    WriteBytes(m, c, m', elem);
  }

  lemma WriteEncoded(m: Machine, c: Counts, m': Machine, elem: bytes)
    requires Sized(m) && Ordered(m, c) && Ordered(m', c) && Encoded(m, c) && Accepts(m, c, elem, m')
    ensures Encoded(m', c)
  {
    hide Wrap32, Place, Align8, IsPow2, Pow2, Start, End;
    Appended(m, elem, m');
    EndStep(m'.accepted, |m.accepted|, |m.data|);
  }

  lemma WriteBytes(m: Machine, c: Counts, m': Machine, elem: bytes)
    requires |m.data| > 0 && m'.data == m.data && WriterAt(m) && WriterAt(m') && BytesHold(m, c)
    requires m.wpc.WBatch? && m'.accepted == m.accepted + [elem]
    requires m'.wpc == WBatch ==> elem == []
    requires m'.wpc == WBatch || (m'.wpc.WCopying? && m'.wpc.done == 0)
    ensures BytesHold(m', c)
  {
    hide Start, End;
    Appended(m, elem, m');
    forall j, i | c.wBuf <= j < |m'.accepted| && 0 <= i < Copied(m', j)
      ensures m'.data[(Start(m'.accepted, j, |m'.data|) + i) % |m'.data|] == m'.accepted[j][i]
    {
      assert j < |m.accepted| && i < Copied(m, j);
    }
  }

  lemma WriteSlots(m: Machine, c: Counts, m': Machine, elem: bytes)
    requires |m.elems| > 0 && SlotsHold(m, c)
    requires |m.accepted| - c.wElem < |m.elems| && |elem| <= MAX_LEN
    requires m'.elems == m.elems[|m.accepted| % |m.elems| := |elem|]
    requires m'.accepted == m.accepted + [elem]
    ensures SlotsHold(m', c)
  {
    var n, size := |m.accepted|, |m.elems|;
    forall j | c.wElem <= j < n + 1
      ensures m'.elems[j % size] == |m'.accepted[j]|
    {
      if j < n { ModDistinct(j, n, size); }
    }
  }

  lemma CopyInKeeps(m: Machine, c: Counts)
    requires Inv(m, c) && m.wpc.WCopying?
    ensures Inv(ExecCopyIn(m), c)
  {
    hide Wrap32, Place, Align8, IsPow2, Pow2, Start, End;
    var n, b := |m.accepted|, |m.data|;
    var done, elem := m.wpc.done, m.wpc.elem;
    var s := Start(m.accepted, n - 1, b);
    Contiguous(m.accepted, n - 1, done, b);
    var m' := ExecCopyIn(m);
    assert m'.data == m.data[(s + done) % b := elem[done]];
    assert BytesHold(m', c) by {
      forall j, i | c.wBuf <= j < n && 0 <= i < Copied(m', j)
        ensures m'.data[(Start(m.accepted, j, b) + i) % b] == m.accepted[j][i]
      {
        if j < n - 1 {
          Disjoint(m.accepted, c.wBuf, j, n - 1, i, done, b);
        } else if i < done {
          Contiguous(m.accepted, n - 1, i, b);
        }
      }
    }
  }

  lemma ReadKeeps(m: Machine, c: Counts)
    requires Inv(m, c) && m.rpc.RBatch?
    ensures Inv(ExecRead(m), Track(m, c, Read))
  {
    hide And, NextOffset, AlignedLen, Take, Wrap32, Place, Align8, IsPow2, Pow2, Start, End;
    var size, b := |m.elems|, |m.data|;
    var c' := Track(m, c, Read);
    if c.read < c.seen {
      var len := |m.accepted[c.read]|;
      TakeExact(m.r, size, b, c.seen, c.read, Pos(m, c.read), len);
      EndStep(m.accepted, c.read, b);
      assert m.elems[c.read % size] == len;
      assert c' == c.(read := c.read + 1);
      assert ReaderAt(ExecRead(m), c');
    } else {
      TakeExact(m.r, size, b, c.seen, c.read, Pos(m, c.read), 0);
    }
  }

  /** What is in `elems[]` and `data[]` stays valid when neither changes and no head moves back. */
  lemma MemoryKept(m: Machine, c: Counts, m': Machine, c': Counts)
    requires |m.elems| > 0 && |m.data| > 0 && WriterAt(m) && SlotsHold(m, c) && BytesHold(m, c)
    requires m'.elems == m.elems && m'.data == m.data && m'.accepted == m.accepted
    requires m'.wpc == m.wpc || (!m.wpc.WCopying? && !m'.wpc.WCopying?)
    requires c.wElem <= c'.wElem && c.wBuf <= c'.wBuf
    ensures WriterAt(m') && SlotsHold(m', c') && BytesHold(m', c')
  {
    hide Start, End;
    forall j, i | c'.wBuf <= j < |m'.accepted| && 0 <= i < Copied(m', j)
      ensures m'.data[(Start(m'.accepted, j, |m'.data|) + i) % |m'.data|] == m'.accepted[j][i]
    {
      assert i < Copied(m, j);
    }
  }

  /** A published element that has not been released is intact in the buffer. */
  lemma ByteInPlace(m: Machine, c: Counts, j: nat, i: nat)
    requires Inv(m, c) && c.wBuf <= j < m.published && i < |m.accepted[j]|
    ensures var at := Start(m.accepted, j, |m.data|) % |m.data| + i;
            at < |m.data| && m.data[at] == m.accepted[j][i]
  {
    hide Start, End;
    Contiguous(m.accepted, j, i, |m.data|);
    assert i < Copied(m, j);
  }

  lemma CopyOutKeeps(m: Machine, c: Counts)
    requires Inv(m, c) && m.rpc.RCopying?
    ensures Inv(ExecCopyOut(m), c)
  {
    hide Wrap32, Place, Align8, IsPow2, Pow2, Start, End, SlotsHold, BytesHold;
    var j, i := c.read - 1, |m.rpc.got|;
    ByteInPlace(m, c, j, i);
    MemoryKept(m, c, ExecCopyOut(m), c);
    var e := m.accepted[j];
    assert e[..i] + [e[i]] == e[..i + 1];
    if i + 1 == |e| {
      assert e[..i + 1] == e;
      assert m.accepted[..j] + [e] == m.accepted[..j + 1];
    }
  }

  /** Loads and stores of the shared indices. */
  lemma IndexAccessKeeps(m: Machine, c: Counts, a: Action)
    requires Inv(m, c)
    requires !a.Write? && !a.CopyIn? && !a.Read? && !a.CopyOut?
    ensures Inv(Exec(m, a), Track(m, c, a))
  {
    hide Wrap32, Place, Align8, IsPow2, Pow2, Start, End, SlotsHold, BytesHold;
    MemoryKept(m, c, Exec(m, a), Track(m, c, a));
    if a.LoadBufHead? && m.wpc.WStarting? {
      EndMonotone(m.accepted, c.wBuf, m.released, |m.data|);
    }
  }

  /** Every action of either side keeps the invariant. */
  lemma StepKeeps(m: Machine, c: Counts, a: Action)
    requires Inv(m, c)
    ensures Inv(Exec(m, a), Track(m, c, a))
  {
    hide Inv, ExecWrite, ExecCopyIn, ExecRead, ExecCopyOut;
    match a
    case Write(elem) =>
      if m.wpc.WBatch? && |elem| <= MAX_LEN { WriteStepKeeps(m, c, elem); }
    case CopyIn => if m.wpc.WCopying? { CopyInKeeps(m, c); }
    case Read => if m.rpc.RBatch? { ReadKeeps(m, c); }
    case CopyOut => if m.rpc.RCopying? { CopyOutKeeps(m, c); }
    case _ => IndexAccessKeeps(m, c, a);
  }

  lemma WriteStepKeeps(m: Machine, c: Counts, elem: bytes)
    requires Inv(m, c) && m.wpc.WBatch? && |elem| <= MAX_LEN
    ensures Inv(ExecWrite(m, elem), c)
  {
    hide ExecWrite, Accepts;
    WriteEffect(m, c, elem);
    if ExecWrite(m, elem) != m { WriteKeeps(m, c, elem, ExecWrite(m, elem)); }
  }
}
