/**
  ElementQueueWriter (util/element_queue_writer.cc): a write that waits for space. The reader runs
  while the writer sleeps; `sleeps[i]` is the number of elements it may take during sleep `i`.
 */
module ElementQueueWriter {
  import opened Bits
  import opened Common
  import opened Memory
  import opened ElementQueueLayout
  import opened ElementQueueMachine
  import opened ElementQueueSafety
  import opened ElementQueueTheorems
  import opened ElementQueueObjects
  import opened ElementQueueSession

  const RETRY_BACKOFF_RATIO: nat := 2
  const RETRY_BACKOFF_LIMIT: nat := 512

  /** The reader has released everything that was accepted. */
  predicate Drained(m: Machine) {
    && m.shared.elemHead == m.r.elemHead && m.shared.bufHead == m.r.bufHead
    && m.returned == m.accepted
  }

  lemma DrainedHeads(m: Machine, c: Counts)
    requires Inv(m, c) && Drained(m) && !m.rpc.RCopying?
    ensures |m.returned| == |m.accepted|
    ensures m.shared.elemHead == m.w.elemTail && m.shared.bufHead == m.w.bufTail
  {
  }

  function Sum(s: seq<nat>): nat {
    if s == [] then 0 else Sum(s[..|s| - 1]) + s[|s| - 1]
  }

  function Min(x: nat, y: nat): nat {
    if x < y then x else y
  }

  lemma ReturnedAreFirst(m: Machine, c: Counts)
    requires Inv(m, c) && !m.rpc.RCopying?
    ensures |m.returned| <= m.published <= |m.accepted| && m.returned == m.accepted[..|m.returned|]
  {
  }

  /** The reader takes up to `k` elements and releases them; a batch it was in is released first. */
  method ReadUpTo(s: Session, k: nat, inBatch: bool)
    requires s.Valid() && inBatch == s.rpc.RBatch? && s.published == |s.accepted|
    modifies s, s.reader, s.storage
    ensures s.Valid() && s.rpc.RIdle? && s.wpc == old(s.wpc)
    ensures s.accepted == old(s.accepted) && s.published == old(s.published)
    ensures |s.returned| == Min(|s.accepted|, |old(s.returned)| + k)
    ensures |s.returned| == |s.accepted| ==> Drained(s.View())
  {
    hide Inv, Run;
    if inBatch { s.FinishReadBatch(); }
    s.StartReadBatch();
    ReturnedAreFirst(s.View(), s.counts);
    ghost var start := |s.returned|;
    var i := 0;
    var more := true;
    while i < k && more
      invariant 0 <= i <= k
      invariant s.Valid() && s.rpc.RBatch? && s.wpc == old(s.wpc)
      invariant s.accepted == old(s.accepted) && s.published == old(s.published)
      invariant s.reader.elemTail == s.storage.elemTail
      invariant |s.returned| == start + i <= |s.accepted|
      invariant !more ==> |s.returned| == |s.accepted|
      decreases k - i, more
    {
      LooksEmpty(s.View(), s.counts);
      var e := s.Read();
      if e == None {
        more := false;
      } else {
        i := i + 1;
      }
    }
    ReturnedAreFirst(s.View(), s.counts);
    s.FinishReadBatch();
  }

  /** Publish, sleep while the reader takes up to `k` elements, and start a new batch. */
  method Wait(s: Session, k: nat, inBatch: bool)
    requires s.Valid() && inBatch == s.rpc.RBatch? && s.wpc.WBatch?
    modifies Footprint(s)
    ensures s.Valid() && s.wpc.WBatch? && s.rpc.RIdle? && s.accepted == old(s.accepted)
    ensures s.writer.bufTail == old(s.writer.bufTail)
    ensures |s.returned| == Min(|s.accepted|, |old(s.returned)| + k)
    ensures |s.returned| == |s.accepted| ==> SeesEmpty(s.View())
  {
    hide Inv, Run;
    s.FinishWriteBatch();
    ReadUpTo(s, k, inBatch);
    if Drained(s.View()) { DrainedHeads(s.View(), s.counts); }
    s.StartWriteBatch();
  }

  /** The first batch of the waiting writer. */
  method Begin(s: Session)
    requires s.Valid() && s.wpc.WIdle?
    modifies s, s.writer
    ensures s.Valid() && s.wpc.WBatch? && s.rpc == old(s.rpc)
    ensures s.accepted == old(s.accepted) && s.returned == old(s.returned) && |s.returned| <= |s.accepted|
    ensures s.writer.bufTail == old(s.writer.bufTail)
    ensures old(Drained(s.View())) ==> SeesEmpty(s.View()) && |s.returned| == |s.accepted|
  {
    hide Inv, Run;
    ReturnedAreFirst(s.View(), s.counts);
    if Drained(s.View()) { DrainedHeads(s.View(), s.counts); }
    s.StartWriteBatch();
  }

  /** One call of eq_write by the waiting writer. */
  method Attempt(s: Session, elem: bytes) returns (r: int)
    requires s.Valid() && s.wpc.WBatch? && |elem| <= MAX_LEN
    modifies s, s.writer, s.storage.elems, s.storage.data
    ensures s.Valid() && s.wpc.WBatch? && s.rpc == old(s.rpc) && s.returned == old(s.returned)
    ensures r == 0 || r == -EINVAL || r == -ENOSPC
    ensures r == -EINVAL <==> Align8(|elem|) >= s.storage.data.Length
    ensures s.accepted == if r == 0 then old(s.accepted) + [elem] else old(s.accepted)
    ensures r != 0 ==> s.writer.bufTail == old(s.writer.bufTail)
    ensures HasRoom(old(s.writer.bufTail), elem, s.storage.data.Length) ==> r != -EINVAL
    ensures r == 0 ==> HasRoom(old(s.writer.bufTail), elem, s.storage.data.Length)
    ensures old(SeesEmpty(s.View())) && HasRoom(old(s.writer.bufTail), elem, s.storage.data.Length) ==> r == 0
  {
    hide Inv, Run, Reserve, Align8;
    ghost var m := s.View();
    if SeesEmpty(m) { EmptyGrantsIff(m, s.counts, |elem|); }
    WriterTooLong(m, s.counts, |elem|);
    InvSized(m, s.counts);
    if !HasRoom(s.writer.bufTail, elem, s.storage.data.Length) { NoRoomRefused(m, s.counts, |elem|); }
    r := s.Write(elem);
  }

  /** The element fits an empty queue of `b` bytes whose writer is at `tail`. */
  predicate HasRoom(tail: u32, elem: bytes, b: nat) {
    b > 0 && RoomWhenEmpty(tail % b, Align8(|elem|), b)
  }

  /** An element of at most half the buffer always does. */
  lemma HalfHasRoom(tail: u32, elem: bytes, b: nat)
    requires 2 * Align8(|elem|) <= b && b > 0
    ensures HasRoom(tail, elem, b)
  {
  }

  class Writer {
    const session: Session
    var numWriteStalls: nat

    constructor (s: Session)
      ensures session == s && numWriteStalls == 0
    {
      session := s;
      numWriteStalls := 0;
    }

    /**
      start_write, with the caller's bytes filled in. The result is 0 once the element is
      accepted, -EINVAL when it can never fit, and -ENOSPC when `sleeps` ran out first. The reader
      may be inside a batch at the start.
     */
    method StartWrite(elem: bytes, sleeps: seq<nat>, inBatch: bool) returns (r: int)
      requires session.Valid() && session.wpc.WIdle? && |elem| <= MAX_LEN && inBatch == session.rpc.RBatch?
      modifies this, Footprint(session)
      ensures session.Valid() && session.wpc.WBatch?
      ensures session.accepted == if r == 0 then old(session.accepted) + [elem] else old(session.accepted)
      ensures r == 0 || r == -EINVAL || r == -ENOSPC
      ensures r == -EINVAL <==> Align8(|elem|) >= session.storage.data.Length
      ensures numWriteStalls <= old(numWriteStalls) + |sleeps|
      ensures r == -ENOSPC ==> numWriteStalls == old(numWriteStalls) + |sleeps|
      // an element with room in the drained queue is accepted no later than the first sleep by
      // which the reader could have taken every element that was pending
      ensures HasRoom(old(session.writer.bufTail), elem, session.storage.data.Length) ==>
                forall j :: 0 < j <= |sleeps|
                  && Sum(sleeps[..j]) >= |old(session.accepted)| - |old(session.returned)|
                  ==> r == 0 && numWriteStalls <= old(numWriteStalls) + j
      ensures HasRoom(old(session.writer.bufTail), elem, session.storage.data.Length) && old(Drained(session.View()))
              ==> r == 0 && numWriteStalls == old(numWriteStalls)
      // without room it is refused for ever, whatever the reader does
      ensures !HasRoom(old(session.writer.bufTail), elem, session.storage.data.Length) ==> r != 0
    {
      hide Inv, Run, Align8, Sum, HasRoom, Drained, SeesEmpty, Session.Valid, Session.View;
      var s := session;
      ghost var tail, n, taken := s.writer.bufTail, |s.accepted|, |s.returned|;
      ghost var drained, room := Drained(s.View()), HasRoom(tail, elem, s.storage.data.Length);
      Begin(s);
      assert Sum(sleeps[..0]) == 0 by { SumNone(sleeps); }
      var backoff := 1;
      var slept := 0;
      while true
        invariant 0 <= slept <= |sleeps| && 1 <= backoff <= RETRY_BACKOFF_LIMIT
        invariant s.Valid() && s.wpc.WBatch? && (inBatch && slept == 0) == s.rpc.RBatch?
        invariant s.accepted == old(s.accepted) && s.writer.bufTail == tail
        invariant numWriteStalls == old(numWriteStalls) + slept
        invariant |s.returned| == Min(n, taken + Sum(sleeps[..slept]))
        invariant (slept > 0 && |s.returned| == n) || drained ==> SeesEmpty(s.View())
        invariant drained ==> taken == n && (room ==> slept == 0)
        invariant room ==> forall j :: 0 < j < slept ==> Sum(sleeps[..j]) < n - taken
        decreases |sleeps| - slept
      {
        r := Attempt(s, elem);
        if r != -ENOSPC || slept == |sleeps| { return; }
        SumNext(sleeps, slept);
        Wait(s, sleeps[slept], inBatch && slept == 0);
        backoff := backoff * RETRY_BACKOFF_RATIO;
        if backoff > RETRY_BACKOFF_LIMIT { backoff := RETRY_BACKOFF_LIMIT; }
        numWriteStalls := numWriteStalls + 1;
        slept := slept + 1;
      }
    }
  }

  lemma SumNone(s: seq<nat>)
    ensures Sum(s[..0]) == 0
  {
  }

  lemma SumNext(s: seq<nat>, k: nat)
    requires k < |s|
    ensures Sum(s[..k + 1]) == Sum(s[..k]) + s[k]
  {
    assert s[..k + 1][..k] == s[..k];
  }
}
