/**
  One writer and one reader object over the same storage. Every operation is shown to be a run of
  the step machine on the objects' fields and arrays, which gives it its FIFO contract.
 */
module ElementQueueSession {
  import opened Bits
  import opened Common
  import opened Memory
  import opened ElementQueueLayout
  import opened ElementQueueMachine
  import opened ElementQueueSafety
  import opened ElementQueueTheorems
  import opened ElementQueueObjects

  // ----- byte copies as runs of single-byte actions -----

  function Repeat(a: Action, k: nat): (r: seq<Action>)
    ensures |r| == k
  {
    if k == 0 then [] else [a] + Repeat(a, k - 1)
  }

  lemma {:induction false} CopyInRun(m: Machine, at: nat, elem: bytes, done: nat)
    requires m.wpc == WCopying(at, elem, done) && done < |elem| && at + |elem| <= |m.data|
    ensures Run(m, Repeat(CopyIn, |elem| - done))
            == m.(data := Patch(m.data, at + done, elem[done..]), wpc := WBatch)
    decreases |elem| - done
  {
    hide Patch;
    var m1 := Exec(m, CopyIn);
    var left := elem[done..];
    assert Repeat(CopyIn, |left|)[1..] == Repeat(CopyIn, |left| - 1);
    assert elem[done + 1..] == left[1..];
    PatchStep(m.data, at + done, left);
    if |left| == 1 {
      PatchNothing(m1.data, at + done + 1);
    } else {
      CopyInRun(m1, at, elem, done + 1);
    }
  }

  lemma {:induction false} CopyInIdle(m: Machine, k: nat)
    requires !m.wpc.WCopying?
    ensures Run(m, Repeat(CopyIn, k)) == m
  {
    if k == 0 {
    } else {
      assert Repeat(CopyIn, k)[1..] == Repeat(CopyIn, k - 1);
      CopyInIdle(m, k - 1);
    }
  }

  lemma {:induction false} CopyOutRun(m: Machine, from: nat, len: nat, got: bytes)
    requires m.rpc == RCopying(from, len, got) && |got| < len && from + len <= |m.data|
    ensures Run(m, Repeat(CopyOut, len - |got|))
            == m.(rpc := RBatch, returned := m.returned + [got + m.data[from + |got|..from + len]])
    decreases len - |got|
  {
    var m1 := Exec(m, CopyOut);
    var rest := Repeat(CopyOut, len - |got| - 1);
    var got1 := got + [m.data[from + |got|]];
    assert Repeat(CopyOut, len - |got|)[1..] == rest;
    assert got1 + m.data[from + |got1|..from + len] == got + m.data[from + |got|..from + len];
    if |got1| == len {
      RunEmpty(m1);
      assert rest == [] && got1 == got + m.data[from + |got|..from + len];
    } else {
      CopyOutRun(m1, from, len, got1);
    }
  }

  function WriteActions(elem: bytes): seq<Action> {
    [Write(elem)] + Repeat(CopyIn, |elem|)
  }

  function ReadActions(len: nat): seq<Action> {
    [Read] + Repeat(CopyOut, len)
  }

  lemma RunFirst(m: Machine, a: Action, rest: seq<Action>)
    ensures Run(m, [a] + rest) == Run(Exec(m, a), rest)
  {
    assert ([a] + rest)[1..] == rest;
  }

  lemma RunTwo(m: Machine, a: Action, a': Action)
    ensures Run(m, [a, a']) == Exec(Exec(m, a), a')
  {
    assert [a, a'] == [a] + [a'] && [a'] == [a'] + [];
    RunFirst(m, a, [a']);
    RunFirst(Exec(m, a), a', []);
    RunEmpty(Exec(Exec(m, a), a'));
  }

  /** ElementQueue::write as a run of the machine. */
  lemma WriteRun(m: Machine, c: Counts, elem: bytes)
    requires Inv(m, c) && m.wpc.WBatch? && |elem| <= MAX_LEN
    ensures match Reserve(m.w, |elem|)
            case Reserved(slot, offset, queue) =>
              && slot < |m.elems| && offset + |elem| <= |m.data|
              && Run(m, WriteActions(elem))
                 == m.(elems := m.elems[slot := |elem|], data := Patch(m.data, offset, elem),
                       w := queue, accepted := m.accepted + [elem])
            case _ => Run(m, WriteActions(elem)) == m
  {
    hide Run, And, NextOffset, AlignedLen, Wrap32, Reserve, SlotsHold, BytesHold;
    RunFirst(m, Write(elem), Repeat(CopyIn, |elem|));
    WriterInBounds(m, c, |elem|);
    var m1 := Exec(m, Write(elem));
    match Reserve(m.w, |elem|)
    case Reserved(slot, offset, queue) =>
      if elem == [] {
        CopyInIdle(m1, 0);
        assert Patch(m.data, offset, elem) == m.data;
      } else {
        CopyInRun(m1, offset, elem, 0);
        assert elem[0..] == elem;
      }
    case _ => CopyInIdle(m1, |elem|);
  }

  lemma WriterInBounds(m: Machine, c: Counts, len: u32)
    requires Inv(m, c) && len <= MAX_LEN
    ensures exists n: nat, h: nat, t: nat, g: nat :: Encodes(m.w, |m.elems|, |m.data|, n, h, t, g)
    ensures match Reserve(m.w, len)
            case Reserved(slot, offset, _) => slot < |m.elems| && offset + len <= |m.data|
            case _ => true
  {
    hide Wrap32, Reserve, SlotsHold, BytesHold;
    EndMonotone(m.accepted, c.wBuf, |m.accepted|, |m.data|);
    assert Encodes(m.w, |m.elems|, |m.data|, |m.accepted|, c.wElem, Pos(m, |m.accepted|), Pos(m, c.wBuf));
    ReservationInBounds(m.w, |m.elems|, |m.data|, len);
  }

  /** The head element as the reader finds it. */
  lemma HeadElement(m: Machine, c: Counts)
    requires Inv(m, c) && m.rpc.RBatch?
    ensures var slot := And(m.r.elemHead, m.r.elemMask);
            && slot < |m.elems|
            && (m.r.elemTail == m.r.elemHead <==> c.read == c.seen)
            && match Take(m.r, m.elems[slot])
               case Empty => c.read == c.seen
               case Taken(offset, _) =>
                 && c.read < c.seen
                 && m.elems[slot] == |m.accepted[c.read]|
                 && offset + m.elems[slot] <= |m.data|
  {
    hide And, NextOffset, AlignedLen, Wrap32, Place, Align8, IsPow2, Pow2, Start, End, BytesHold;
    var size, b := |m.elems|, |m.data|;
    if c.read < c.seen {
      var len := |m.accepted[c.read]|;
      TakeExact(m.r, size, b, c.seen, c.read, Pos(m, c.read), len);
      assert m.elems[c.read % size] == len;
    } else {
      TakeExact(m.r, size, b, c.seen, c.read, Pos(m, c.read), 0);
    }
  }

  /** ElementQueue::read as a run of the machine. */
  lemma ReadRun(m: Machine, c: Counts)
    requires Inv(m, c) && m.rpc.RBatch?
    ensures var slot := And(m.r.elemHead, m.r.elemMask);
            && slot < |m.elems|
            && match Take(m.r, m.elems[slot])
               case Empty => Run(m, [Read]) == m
               case Taken(offset, queue) =>
                 && offset + m.elems[slot] <= |m.data|
                 && Run(m, ReadActions(m.elems[slot]))
                    == m.(r := queue, returned := m.returned + [m.data[offset..offset + m.elems[slot]]])
  {
    hide Run, And, Take, Inv;
    HeadElement(m, c);
    var slot := And(m.r.elemHead, m.r.elemMask);
    var len := m.elems[slot];
    RunFirst(m, Read, Repeat(CopyOut, len));
    RunFirst(m, Read, []);
    assert [Read] + [] == [Read];
    var m1 := Exec(m, Read);
    RunEmpty(m1);
    match Take(m.r, len)
    case Empty =>
    case Taken(offset, queue) =>
      if len == 0 {
        assert m.data[offset..offset + 0] == [];
      } else {
        CopyOutRun(m1, offset, len, []);
        assert [] + m.data[offset..offset + len] == m.data[offset..offset + len];
      }
  }

  lemma RunEmpty(m: Machine)
    ensures Run(m, []) == m
  {
  }

  // ----- the objects -----

  class Session {
    const storage: Storage
    const writer: ElementQueue
    const reader: ElementQueue
    ghost var wpc: WriterPc
    ghost var rpc: ReaderPc
    ghost var accepted: seq<bytes>
    ghost var published: nat
    ghost var returned: seq<bytes>
    ghost var released: nat
    ghost var counts: Counts

    ghost predicate Separate() {
      && writer.shared == reader.shared == storage
      && writer != reader
      && writer.Sized() && reader.Sized()
    }

    /** The state of the step machine these objects are in. */
    ghost function View(): Machine
      reads this, storage, storage.elems, storage.data, writer, reader
    {
      Machine(storage.Indices(), storage.elems[..], storage.data[..], writer.View(), wpc,
              reader.View(), rpc, accepted, published, returned, released, false)
    }

    ghost predicate Valid()
      reads this, storage, storage.elems, storage.data, writer, reader
    {
      && Separate()
      && (wpc.WIdle? || wpc.WBatch?) && (rpc.RIdle? || rpc.RBatch?)
      && Inv(View(), counts)
    }

    constructor (nElems: nat, bufLen: nat)
      requires Legal(nElems, bufLen)
      ensures Valid() && wpc.WIdle? && rpc.RIdle? && accepted == returned == []
      ensures storage.elems.Length == nElems && storage.data.Length == bufLen
      ensures fresh(storage) && fresh(storage.elems) && fresh(storage.data) && fresh(writer) && fresh(reader)
      ensures writer.View() == reader.View() == Queue(nElems - 1, bufLen - 1, 0, 0, 0, 0)
      ensures storage.Indices() == Shared(0, 0, 0, 0)
    {
      var block := new Storage(nElems, bufLen);
      storage := block;
      writer := new ElementQueue(block);
      reader := new ElementQueue(block);
      wpc, rpc := WIdle, RIdle;
      accepted, published, returned, released := [], 0, [], 0;
      counts := Counts(0, 0, 0, 0, 0);
      new;
      assert View() == Init(storage.elems[..], storage.data[..]);
      Initially(storage.elems[..], storage.data[..]);
    }

    method StartWriteBatch()
      requires Valid() && wpc.WIdle?
      modifies this, writer
      ensures Valid() && wpc.WBatch?
      ensures View() == Run(old(View()), [LoadElemHead, LoadBufHead])
      ensures writer.View() == old(writer.View()).(elemHead := storage.elemHead, bufHead := storage.bufHead)
      ensures accepted == old(accepted) && returned == old(returned) && rpc == old(rpc)
    {
      hide Inv;
      ghost var m := View();
      StepKeeps(m, counts, LoadElemHead);
      StepKeeps(Exec(m, LoadElemHead), Track(m, counts, LoadElemHead), LoadBufHead);
      RunTwo(m, LoadElemHead, LoadBufHead);
      writer.StartWriteBatch();
      wpc := WBatch;
      counts := Track(Exec(m, LoadElemHead), Track(m, counts, LoadElemHead), LoadBufHead);
    }

    /** Returns 0 exactly when the element joins the accepted ones; otherwise nothing changes. */
    method Write(elem: bytes) returns (r: int)
      requires Valid() && wpc.WBatch? && |elem| <= MAX_LEN
      modifies this, writer, storage.elems, storage.data
      ensures Valid() && wpc.WBatch?
      ensures View() == Run(old(View()), WriteActions(elem))
      ensures r == match Reserve(old(writer.View()), |elem|)
                   case TooLong => -EINVAL
                   case NoSpace => -ENOSPC
                   case Reserved(_, _, _) => 0
      ensures accepted == if r == 0 then old(accepted) + [elem] else old(accepted)
      ensures r != 0 ==> View() == old(View())
      ensures published == old(published) && returned == old(returned) && rpc == old(rpc)
    {
      hide Inv, Reserve, Run, Repeat;
      ghost var m := View();
      WriterInBounds(m, counts, |elem|);
      WriteRun(m, counts, elem);
      ghost var c' := RunKeeps(m, counts, WriteActions(elem));
      r := writer.Write(elem);
      if r == 0 { accepted := accepted + [elem]; }
      counts := c';
    }

    method FinishWriteBatch()
      requires Valid() && wpc.WBatch?
      modifies this, storage
      ensures Valid() && wpc.WIdle?
      ensures View() == Run(old(View()), [StoreBufTail, StoreElemTail])
      ensures accepted == old(accepted) && published == |accepted| && returned == old(returned)
      ensures rpc == old(rpc)
    {
      hide Inv;
      ghost var m := View();
      StepKeeps(m, counts, StoreBufTail);
      StepKeeps(Exec(m, StoreBufTail), counts, StoreElemTail);
      RunTwo(m, StoreBufTail, StoreElemTail);
      writer.FinishWriteBatch();
      wpc, published := WIdle, |accepted|;
    }

    method StartReadBatch()
      requires Valid() && rpc.RIdle?
      modifies this, reader
      ensures Valid() && rpc.RBatch?
      ensures View() == Run(old(View()), [LoadElemTail])
      ensures reader.elemTail == storage.elemTail && wpc == old(wpc)
      ensures accepted == old(accepted) && published == old(published) && returned == old(returned)
    {
      hide Inv;
      ghost var m := View();
      StepKeeps(m, counts, LoadElemTail);
      RunFirst(m, LoadElemTail, []);
      assert [LoadElemTail] + [] == [LoadElemTail];
      reader.StartReadBatch();
      counts := Track(m, counts, LoadElemTail);
      rpc := RBatch;
    }

    /** Returns the next published element in order, or nothing. */
    method Read() returns (r: Option<bytes>)
      requires Valid() && rpc.RBatch?
      modifies this, reader
      ensures Valid() && rpc.RBatch?
      ensures accepted == old(accepted) && published == old(published) <= |accepted|
      ensures wpc == old(wpc) && reader.elemTail == old(reader.elemTail)
      ensures match r
              case None => View() == old(View()) && reader.elemTail == reader.elemHead
              case Some(e) =>
                && |old(returned)| < published && old(reader.elemTail != reader.elemHead)
                && e == accepted[|old(returned)|]
                && returned == old(returned) + [e]
                && View() == Run(old(View()), ReadActions(|e|))
    {
      hide Run, And, Take, Repeat, Inv;
      ghost var m := View();
      HeadElement(m, counts);
      ReadRun(m, counts);
      ghost var len := m.elems[And(m.r.elemHead, m.r.elemMask)];
      ghost var c' := RunKeeps(m, counts, ReadActions(len));
      assert reader.ReaderSound();
      r := reader.Read();
      if r.Some? {
        returned := returned + [r.value];
        counts := c';
        assert View() == Run(m, ReadActions(len));
        ReturnedPrefix(View(), counts);
        assert View().returned[|m.returned|] == r.value;
      } else {
        ReturnedPrefix(m, counts);
      }
    }

    /** The element `Read` would return, without consuming it. */
    method Peek() returns (r: Option<bytes>)
      requires Valid() && rpc.RBatch?
      ensures published <= |accepted|
      ensures match r
              case None => reader.elemTail == reader.elemHead
              case Some(e) => |returned| < published && e == accepted[|returned|] && reader.elemTail != reader.elemHead
    {
      hide Run, And, Take, Repeat, Inv;
      ghost var m := View();
      HeadElement(m, counts);
      ReadRun(m, counts);
      ghost var len := m.elems[And(m.r.elemHead, m.r.elemMask)];
      ghost var c' := RunKeeps(m, counts, ReadActions(len));
      assert reader.ReaderSound();
      r := reader.Peek();
      ReturnedPrefix(m, counts);
      if r.Some? {
        ghost var m' := Run(m, ReadActions(len));
        ReturnedPrefix(m', c');
        assert m'.returned[|m.returned|] == r.value;
      }
    }

    method FinishReadBatch()
      requires Valid() && rpc.RBatch?
      modifies this, storage
      ensures Valid() && rpc.RIdle?
      ensures View() == Run(old(View()), [StoreBufHead, StoreElemHead])
      ensures accepted == old(accepted) && returned == old(returned) && released == |returned|
      ensures published == old(published) && wpc == old(wpc)
      ensures storage.elemHead == reader.elemHead && storage.bufHead == reader.bufHead
    {
      hide Inv;
      ghost var m := View();
      StepKeeps(m, counts, StoreBufHead);
      StepKeeps(Exec(m, StoreBufHead), counts, StoreElemHead);
      RunTwo(m, StoreBufHead, StoreElemHead);
      reader.FinishReadBatch();
      rpc, released := RIdle, |returned|;
      counts := Track(Exec(m, StoreBufHead), counts, StoreElemHead);
    }
  }

  ghost function Footprint(s: Session): set<object> {
    {s, s.storage, s.storage.elems, s.storage.data, s.writer, s.reader}
  }

  /** eq_move: either one element leaves `from` and joins `to` unchanged, or nothing happens. */
  method Move(to: Session, from: Session) returns (r: int)
    requires to.Valid() && from.Valid() && to.wpc.WBatch? && from.rpc.RBatch?
    requires Footprint(to) !! Footprint(from)
    modifies Footprint(to), Footprint(from)
    ensures to.Valid() && from.Valid() && to.wpc.WBatch? && from.rpc.RBatch?
    ensures r < 0 ==> to.View() == old(to.View()) && from.View() == old(from.View())
    ensures r == -ENOENT <==> old(from.reader.elemTail == from.reader.elemHead)
    ensures r != -ENOENT ==>
              && |old(from.returned)| < |from.accepted|
              && var len := |from.accepted[|old(from.returned)|]|;
              && (r == -ENOSYS <==> Align8(len) >= to.storage.data.Length)
              && (r == -ENOSPC <==> len <= MAX_LEN && Reserve(old(to.writer.View()), len).NoSpace?)
              && (r < 0 ==> r == -ENOSYS || r == -ENOSPC)
    ensures from.accepted == old(from.accepted)
    ensures r >= 0 ==>
              && var e := from.accepted[|old(from.returned)|];
              && r == |e|
              && from.returned == old(from.returned) + [e]
              && to.accepted == old(to.accepted) + [e]
  {
    hide Run, Inv;
    var head := from.Peek();
    if head == None { return -ENOENT; }
    assert |head.value| <= MAX_LEN by { ElementsFit(from.View(), from.counts); }
    WriterTooLong(to.View(), to.counts, |head.value|);
    var w := to.Write(head.value);
    if w == -ENOSPC { return -ENOSPC; }
    if w < 0 { return -ENOSYS; }
    var e := from.Read();
    return |head.value|;
  }

  lemma WriterTooLong(m: Machine, c: Counts, len: nat)
    requires Inv(m, c) && len <= MAX_LEN
    ensures Reserve(m.w, len).TooLong? <==> Align8(len) >= |m.data|
  {
    hide And, NextOffset, AlignedLen, Wrap32;
    AlignedLenExact(len);
  }

  /** An element written to a new queue and published is what the reader returns. */
  method FirstElement(nElems: nat, bufLen: nat, elem: bytes) returns (got: Option<bytes>)
    requires Legal(nElems, bufLen) && Align8(|elem|) < bufLen
    ensures got == Some(elem)
  {
    hide Inv, Run, Reserve, Align8, IsPow2;
    var s := new Session(nElems, bufLen);
    s.StartWriteBatch();
    EmptyGrantsIff(s.View(), s.counts, |elem|);
    var w := s.Write(elem);
    s.FinishWriteBatch();
    s.StartReadBatch();
    LooksEmpty(s.View(), s.counts);
    got := s.Read();
    assert s.accepted == [elem];
  }

  /** A reader outside a copy that sees no element has returned all it knows of. */
  lemma LooksEmpty(m: Machine, c: Counts)
    requires Inv(m, c) && !m.rpc.RCopying?
    ensures |m.returned| == c.read
    ensures m.r.elemTail == m.r.elemHead && m.r.elemTail == m.shared.elemTail ==> |m.returned| == m.published
  {
    hide Wrap32;
    if m.r.elemTail == m.r.elemHead && m.r.elemTail == m.shared.elemTail {
      EqualWhenWrapped(m.published, c.read);
    }
  }

  lemma ElementsFit(m: Machine, c: Counts)
    requires Inv(m, c)
    ensures forall j :: 0 <= j < |m.accepted| ==> |m.accepted[j]| <= MAX_LEN
  {
    assert forall j :: 0 <= j < |m.accepted| ==> Fits(m.accepted[j], |m.data|);
  }

  lemma ReturnedPrefix(m: Machine, c: Counts)
    requires Inv(m, c)
    ensures m.published <= |m.accepted| && m.returned <= m.accepted[..m.published]
  {
  }
}
