/**
  BufferedWriter (channel/buffered_writer.cc) and write_as_chunks (channel/ibuffered_writer.h).
  What the channel does on each flush is given in advance by the channel's `plan`.
 */
module BufferedWriter {
  import opened Bits
  import opened Memory

  /** What a flush meets: a closed channel, a send that fails, or a send that succeeds. */
  datatype Outcome = Closed | Fails | Accepts

  class Channel {
    var plan: seq<Outcome>
    var sent: bytes

    constructor (plan: seq<Outcome>)
      ensures this.plan == plan && sent == []
    {
      this.plan, sent := plan, [];
    }

    function Upcoming(): Outcome reads this {
      if plan == [] then Accepts else plan[0]
    }

    /** is_open() and then send(): the outcome, which appends the bytes only when it is Accepts. */
    method Offer(data: bytes) returns (o: Outcome)
      modifies this
      ensures o == old(Upcoming())
      ensures plan == if old(plan) == [] then [] else old(plan)[1..]
      ensures sent == if o.Accepts? then old(sent) + data else old(sent)
    {
      o := Upcoming();
      if plan != [] { plan := plan[1..]; }
      if o.Accepts? { sent := sent + data; }
    }
  }

  /** A buffer's worth of finished bytes that left the writer: sent, or discarded. */
  datatype Batch = Batch(data: bytes, sent: bool)

  function All(bs: seq<Batch>): bytes {
    if bs == [] then [] else All(bs[..|bs| - 1]) + bs[|bs| - 1].data
  }

  function Sent(bs: seq<Batch>): bytes {
    if bs == [] then [] else Sent(bs[..|bs| - 1]) + (if bs[|bs| - 1].sent then bs[|bs| - 1].data else [])
  }

  lemma AppendBatch(bs: seq<Batch>, b: Batch)
    ensures All(bs + [b]) == All(bs) + b.data
    ensures Sent(bs + [b]) == Sent(bs) + (if b.sent then b.data else [])
  {
    assert (bs + [b])[..|bs|] == bs;
  }

  datatype Started = TooLarge | FlushFailed | At(offset: nat)

  class Writer {
    const channel: Channel
    const buf: array<byte>
    var startLoc: nat
    var finishLoc: nat
    ghost var finished: bytes       // the bytes of all finished writes, in order
    ghost var batches: seq<Batch>   // what left the buffer, in order

    /** Every finished byte is in a batch or in the buffer; the sent batches are what the channel has. */
    ghost predicate Valid() reads this, channel, buf {
      && startLoc <= finishLoc <= buf.Length < TWO32
      && finished == All(batches) + buf[..startLoc]
      && channel.sent == Sent(batches)
    }

    constructor (channel: Channel, size: nat)
      requires size < TWO32 && channel.sent == []
      ensures Valid() && this.channel == channel && buf.Length == size && fresh(buf)
      ensures finished == [] && batches == [] && startLoc == finishLoc == 0
    {
      this.channel := channel;
      buf := new byte[size];
      startLoc, finishLoc := 0, 0;
      finished, batches := [], [];
    }

    /** The buffered bytes leave as one batch, unless there are none or the send fails. */
    method Flush() returns (ok: bool)
      requires Valid() && startLoc == finishLoc
      modifies this`startLoc, this`finishLoc, this`batches, channel
      ensures Valid() && startLoc == finishLoc && finished == old(finished)
      ensures ok <==> old(startLoc) == 0 || old(channel.Upcoming()) != Fails
      ensures ok ==> startLoc == 0
      ensures !ok ==> startLoc == old(startLoc)
      ensures batches == if !ok || old(startLoc) == 0 then old(batches)
                         else old(batches) + [Batch(buf[..old(startLoc)], old(channel.Upcoming()).Accepts?)]
    {
      hide All, Sent;
      if startLoc == 0 { return true; }
      var o := channel.Offer(buf[..startLoc]);
      if o == Fails { return false; }
      ghost var b := Batch(buf[..startLoc], o.Accepts?);
      AppendBatch(batches, b);
      batches := batches + [b];
      startLoc, finishLoc := 0, 0;
      return true;
    }

    /** Opens a write of `length` bytes, flushing first if they do not fit behind the buffered ones. */
    method StartWrite(length: nat) returns (r: Started)
      requires Valid() && startLoc == finishLoc
      modifies this`startLoc, this`finishLoc, this`batches, channel
      ensures Valid() && finished == old(finished)
      ensures r.TooLarge? <==> length > buf.Length
      ensures r.FlushFailed? <==>
                length <= buf.Length && length > buf.Length - old(startLoc) && old(channel.Upcoming()) == Fails
      ensures r.At? ==> r.offset == startLoc && finishLoc == startLoc + length
      ensures !r.At? ==> startLoc == finishLoc == old(startLoc) && batches == old(batches)
    {
      if length > buf.Length { return TooLarge; }
      if buf.Length - startLoc < length {
        var ok := Flush();
        if !ok { return FlushFailed; }
      }
      finishLoc := startLoc + length;
      return At(startLoc);
    }

    /** The caller fills the space it was given. */
    method Fill(data: bytes)
      requires Valid() && |data| == finishLoc - startLoc
      modifies buf
      ensures Valid() && buf[startLoc..finishLoc] == data
    {
      Memcpy(buf, startLoc, data);
      assert buf[..startLoc] == old(buf[..startLoc]);
    }

    method FinishWrite()
      requires Valid()
      modifies this`startLoc, this`finished
      ensures Valid() && startLoc == finishLoc
      ensures finished == old(finished) + buf[old(startLoc)..finishLoc]
    {
      assert buf[..finishLoc] == buf[..startLoc] + buf[startLoc..finishLoc];
      finished := finished + buf[startLoc..finishLoc];
      startLoc := finishLoc;
    }

    /** Abandons the buffered bytes, and any write in progress. */
    method Reset()
      requires Valid()
      modifies this`startLoc, this`finishLoc, this`batches
      ensures Valid() && startLoc == finishLoc == 0 && finished == old(finished)
      ensures batches == old(batches) + [Batch(buf[..old(startLoc)], false)]
    {
      hide All, Sent;
      ghost var b := Batch(buf[..startLoc], false);
      AppendBatch(batches, b);
      batches := batches + [b];
      startLoc, finishLoc := 0, 0;
    }

    /** One chunk of write_as_chunks: as much of the payload as fits the buffer. */
    method WriteChunk(chunk: bytes) returns (ok: bool)
      requires Valid() && startLoc == finishLoc && |chunk| <= buf.Length
      modifies this, buf, channel
      ensures Valid() && startLoc == finishLoc
      ensures !ok <==> |chunk| > buf.Length - old(startLoc) && old(channel.Upcoming()) == Fails
      ensures chunk == [] ==> ok
      ensures finished == if ok then old(finished) + chunk else old(finished)
    {
      hide All, Sent;
      var r := StartWrite(|chunk|);
      if !r.At? { return false; }
      Fill(chunk);
      FinishWrite();
      return true;
    }

    /**
      write_as_chunks, cut off after `turns` turns of its loop. It stops early only on an error;
      with a nonzero buffer size, as many turns as the payload has bytes are enough. With buffer
      size zero no turn fails and none makes progress: see `ChunksEndIff`.
     */
    method WriteAsChunks(payload: bytes, turns: nat) returns (ok: bool, rest: bytes)
      requires Valid() && startLoc == finishLoc
      modifies this, buf, channel
      ensures Valid() && startLoc == finishLoc
      ensures |rest| <= |payload| && rest == payload[|payload| - |rest|..]
      ensures finished == old(finished) + payload[..|payload| - |rest|]
      ensures !ok ==> rest != []
      ensures ok ==> |rest| == Remaining(buf.Length, |payload|, turns)
      ensures buf.Length > 0 && turns >= |payload| ==> (ok <==> rest == [])
      ensures buf.Length == 0 ==> ok && rest == payload
    {
      hide All, Sent, Remaining, ChunkSize, Writer.Valid;
      rest := payload;
      var turn := 0;
      assert Remaining(buf.Length, |payload|, 0) == |payload| by { RemainingExact(buf.Length, |payload|, 0); }
      while rest != [] && turn < turns
        invariant Valid() && startLoc == finishLoc && turn <= turns
        invariant |rest| <= |payload| && rest == payload[|payload| - |rest|..]
        invariant finished == old(finished) + payload[..|payload| - |rest|]
        invariant |rest| == Remaining(buf.Length, |payload|, turn)
        invariant buf.Length == 0 ==> rest == payload
        decreases turns - turn
      {
        var size := ChunkSize(buf.Length, |rest|);
        var chunk := rest[..size];
        ghost var done := |payload| - |rest|;
        ok := WriteChunk(chunk);
        if !ok { return; }
        ChunkText(payload, done, size);
        NextTurn(buf.Length, |payload|, turn);
        rest := rest[size..];
        turn := turn + 1;
      }
      if rest == [] { AtEnd(buf.Length, |payload|, turn, turns); }
      EndsInTime(buf.Length, |payload|, turns);
      ok := true;
    }
  }

  lemma ChunkText(payload: bytes, done: nat, size: nat)
    requires done + size <= |payload|
    ensures payload[..done] + payload[done..][..size] == payload[..done + size]
    ensures payload[done..][size..] == payload[done + size..]
  {
  }

  function ChunkSize(max: nat, rest: nat): (r: nat)
    ensures r <= rest && r <= max
  {
    if max <= rest then max else rest
  }

  /** Bytes left after `k` turns of the loop without an error. */
  function Remaining(max: nat, rest: nat, k: nat): nat {
    if k == 0 then rest else Remaining(max, rest - ChunkSize(max, rest), k - 1)
  }

  lemma {:induction false} RemainingExact(max: nat, rest: nat, k: nat)
    ensures Remaining(max, rest, k) == if k * max >= rest then 0 else rest - k * max
    decreases k
  {
    if k == 0 {
    } else {
      RemainingExact(max, rest - ChunkSize(max, rest), k - 1);
      assert (k - 1) * max == k * max - max;
      MulMonotone(0, k - 1, max);
    }
  }

  lemma NextTurn(max: nat, rest: nat, k: nat)
    ensures Remaining(max, rest, k + 1) == Remaining(max, rest, k) - ChunkSize(max, Remaining(max, rest, k))
  {
    hide Remaining;
    RemainingExact(max, rest, k);
    RemainingExact(max, rest, k + 1);
    assert (k + 1) * max == k * max + max;
  }

  lemma AtEnd(max: nat, rest: nat, k: nat, k': nat)
    requires Remaining(max, rest, k) == 0 && k <= k'
    ensures Remaining(max, rest, k') == 0
  {
    hide Remaining;
    RemainingExact(max, rest, k);
    RemainingExact(max, rest, k');
    MulMonotone(k, k', max);
  }

  lemma EndsInTime(max: nat, rest: nat, k: nat)
    ensures max > 0 && k >= rest ==> Remaining(max, rest, k) == 0
    ensures max == 0 ==> Remaining(max, rest, k) == rest
  {
    hide Remaining;
    RemainingExact(max, rest, k);
    MulMonotone(1, max, k);
  }

  /** The loop of write_as_chunks ends on this payload, if no turn fails. */
  ghost predicate Ends(max: nat, rest: nat) {
    exists k: nat :: Remaining(max, rest, k) == 0
  }

  /** The loop ends on every payload if and only if the buffer size is nonzero. */
  lemma ChunksEndIff(max: nat)
    ensures (forall rest: nat :: Ends(max, rest)) <==> max > 0
  {
    if max > 0 {
      forall rest: nat ensures Ends(max, rest) {
        EndsInTime(max, rest, rest);
      }
    } else {
      forall k: nat ensures Remaining(max, 1, k) == 1 {
        EndsInTime(max, 1, k);
      }
      assert !Ends(max, 1);
    }
  }
}
