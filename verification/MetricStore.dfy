/**
  MetricStore (util/metric_store.h): per epoch, an intrusive queue of changed entries threaded
  through the entries' own `next` links, over a rotating window of epochs.
 */
module MetricStore {
  import opened Bits
  import opened Common
  import opened Chains
  import opened FastDiv
  import opened LazyArray
  import opened MetricWindow
  import IterableBitmap

  /** An entry: one metric and one link per epoch. */
  datatype Element<+M> = Element(m: seq<M>, next: seq<nat>)

  // ----- one epoch's queue -----

  /** The epoch's links, one per entry. */
  ghost function Column<M>(c: seq<Element<M>>, e: nat): (s: seq<nat>)
    requires forall i :: 0 <= i < |c| ==> e < |c[i].next|
    ensures |s| == |c|
  {
    seq(|c|, i requires 0 <= i < |c| => c[i].next[e])
  }

  /**
    The chain from the head is acyclic, ends at `listEnd`, and holds exactly the entries whose
    link is not `invalid`.
   */
  ghost predicate Queued(col: seq<nat>, head: nat, chain: seq<nat>, listEnd: nat, invalid: nat) {
    && Distinct(chain)
    && head == First(chain, listEnd)
    && (forall i :: 0 <= i < |chain| ==> chain[i] < |col| && col[chain[i]] == After(chain, i, listEnd))
    && (forall x: nat :: x < |col| ==> (col[x] != invalid <==> x in chain))
  }

  lemma PushQueued(col: seq<nat>, head: nat, chain: seq<nat>, listEnd: nat, invalid: nat, x: nat)
    requires Queued(col, head, chain, listEnd, invalid)
    requires |col| <= listEnd < invalid && x < |col| && x !in chain
    ensures Queued(col[x := head], x, [x] + chain, listEnd, invalid)
  {
    PushDistinct(chain, x);
    var chain' := [x] + chain;
    forall i | 0 <= i < |chain'|
      ensures chain'[i] < |col| && col[x := head][chain'[i]] == After(chain', i, listEnd)
    {
      if i > 0 { assert chain'[i] == chain[i - 1]; }
    }
    assert head != invalid;
  }

  lemma PopQueued(col: seq<nat>, head: nat, chain: seq<nat>, listEnd: nat, invalid: nat)
    requires Queued(col, head, chain, listEnd, invalid)
    requires |col| <= listEnd < invalid && chain != []
    ensures head < |col| && Queued(col[head := invalid], col[head], chain[1..], listEnd, invalid)
  {
    PopDistinct(chain);
    var chain' := chain[1..];
    forall i | 0 <= i < |chain'|
      ensures chain'[i] < |col| && col[head := invalid][chain'[i]] == After(chain', i, listEnd)
    {
      assert chain'[i] == chain[i + 1];
    }
  }

  // ----- the store -----

  class MetricStore<M(0)> {
    const size: nat
    const nEpochs: u32
    const invalid: nat
    const listEnd: nat
    const arr: LazyArray<Element<M>>
    const tToTimeslot: FastDiv
    var heads: seq<nat>
    var currentQueue: nat
    var currentTimeslot: Option<u16>
    ghost var chains: seq<seq<nat>>

    ghost predicate Shaped() reads this, arr, arr.constructed, arr.arr {
      && arr.Valid() && arr.arr.Length == size <= listEnd < invalid
      && IsPow2(nEpochs) && nEpochs > 0
      && |heads| == |chains| == nEpochs && currentQueue < nEpochs
      && forall i :: 0 <= i < size ==> |arr.Contents()[i].m| == |arr.Contents()[i].next| == nEpochs
    }

    ghost predicate Valid() reads this, arr, arr.constructed, arr.arr {
      && Shaped()
      && forall e :: 0 <= e < nEpochs ==>
           Queued(Column(arr.Contents(), e), heads[e], chains[e], listEnd, invalid)
    }

    constructor (size: nat, nEpochs: u32, tToTimeslot: FastDiv, metric: M)
      requires 0 < size <= IterableBitmap.MAX_SIZE && IsPow2(nEpochs) && nEpochs > 0
      ensures Valid() && this.size == size && this.nEpochs == nEpochs
      ensures fresh(arr) && fresh(arr.constructed) && fresh(arr.arr)
      ensures forall e :: 0 <= e < nEpochs ==> chains[e] == []
      ensures currentTimeslot == None && currentQueue == 0
    {
      this.size, this.nEpochs, this.tToTimeslot := size, nEpochs, tToTimeslot;
      var maxIndex := if size >= 0x1_0000 - 2 then 0xFFFF_FFFF else 0xFFFF;
      invalid, listEnd := maxIndex, maxIndex - 1;
      arr := new LazyArray(size, Element(seq(nEpochs, _ => metric), seq(nEpochs, _ => maxIndex)));
      heads := seq(nEpochs, _ => maxIndex - 1);
      chains := seq(nEpochs, _ => []);
      currentQueue, currentTimeslot := 0, None;
    }

    /** The window lookups see; before the first lookup, the one it will establish. */
    ghost function WindowFor(timeslot: u16): Window reads this {
      Window(currentQueue, if currentTimeslot.Some? then currentTimeslot.value else timeslot)
    }

    /**
      lookup_relative: whether the entry was queued in the epoch, and which epoch's metric is
      meant. The entry joins the epoch's queue if asked to and not already there.
     */
    method LookupRelative(index: nat, bin: nat, enqueue: bool) returns (wasQueued: bool, epoch: nat)
      requires Valid() && index < size && bin < nEpochs
      modifies this`heads, this`chains, arr.constructed, arr.arr
      ensures Valid()
      ensures epoch == (bin + currentQueue) % nEpochs
      ensures wasQueued == (index in old(chains)[epoch])
      ensures chains == if enqueue && !wasQueued
                        then old(chains)[epoch := [index] + old(chains)[epoch]] else old(chains)
      ensures forall i :: 0 <= i < size ==> arr.Contents()[i].m == old(arr.Contents()[i].m)
    {
      hide Queued, IterableBitmap.Consistent, IterableBitmap.Marked, And;
      MaskEpoch(bin + currentQueue, nEpochs);
      epoch := And(bin + currentQueue, nEpochs - 1);
      ghost var before := arr.Contents();
      var elem := arr.Get(index);
      wasQueued := elem.next[epoch] != invalid;
      ghost var chain := chains[epoch];
      QueuedAt(Column(before, epoch), heads[epoch], chain, listEnd, invalid, index);
      if enqueue && !wasQueued {
        PushQueued(Column(before, epoch), heads[epoch], chain, listEnd, invalid, index);
        var elem' := elem.(next := elem.next[epoch := heads[epoch]]);
        arr.Put(index, elem');
        ColumnUpdate(before, arr.Contents(), index, epoch, heads[epoch], nEpochs);
        heads := heads[epoch := index];
        chains := chains[epoch := [index] + chain];
      }
    }

    /** Writing through the metric reference a lookup returned leaves every queue alone. */
    method Update(index: nat, epoch: nat, value: M)
      requires Valid() && index < size && epoch < nEpochs
      modifies arr.constructed, arr.arr
      ensures Valid()
      ensures arr.Contents()[index].m == old(arr.Contents()[index].m)[epoch := value]
      ensures forall i :: 0 <= i < size && i != index ==> arr.Contents()[i] == old(arr.Contents()[i])
    {
      hide Queued, IterableBitmap.Consistent, IterableBitmap.Marked;
      ghost var before := arr.Contents();
      var elem := arr.Get(index);
      arr.Put(index, elem.(m := elem.m[epoch := value]));
      forall e | 0 <= e < nEpochs ensures Column(arr.Contents(), e) == Column(before, e) {
      }
    }

    /** queue_type::pop of epoch `e`: the head entry leaves the queue. */
    method Pop(e: nat)
      requires Valid() && e < nEpochs && heads[e] != listEnd
      modifies this`heads, this`chains, arr.constructed, arr.arr
      ensures Valid()
      ensures old(chains)[e] != [] && old(heads)[e] == old(chains)[e][0]
      ensures chains == old(chains)[e := old(chains)[e][1..]]
      ensures forall i :: 0 <= i < size ==> arr.Contents()[i].m == old(arr.Contents()[i].m)
    {
      hide Queued, IterableBitmap.Consistent, IterableBitmap.Marked;
      ghost var before, chain := arr.Contents(), chains[e];
      HeadQueued(Column(before, e), heads[e], chain, listEnd, invalid);
      PopQueued(Column(before, e), heads[e], chain, listEnd, invalid);
      var dequeued := heads[e];
      var elem := arr.Get(dequeued);
      var next := elem.next[e];
      arr.Put(dequeued, elem.(next := elem.next[e := invalid]));
      ColumnUpdate(before, arr.Contents(), dequeued, e, invalid, nEpochs);
      heads := heads[e := next];
      chains := chains[e := chain[1..]];
    }

    /** Popping until empty visits every pending entry of the current queue once, and stops. */
    method Drain() returns (visited: seq<nat>)
      requires Valid()
      modifies this`heads, this`chains, arr.constructed, arr.arr
      ensures Valid()
      ensures visited == old(chains)[currentQueue] && Distinct(visited)
      ensures chains == old(chains)[currentQueue := []]
    {
      hide Queued, IterableBitmap.Consistent, IterableBitmap.Marked;
      var e := currentQueue;
      visited := [];
      ghost var n := 0;
      QueuedDistinct(Column(arr.Contents(), e), heads[e], chains[e], listEnd, invalid);
      while heads[e] != listEnd
        invariant Valid() && 0 <= n <= |old(chains)[e]|
        invariant visited == old(chains)[e][..n]
        invariant chains == old(chains)[e := old(chains)[e][n..]]
        decreases |chains[e]|
      {
        visited := visited + [heads[e]];
        Pop(e);
        n := n + 1;
      }
      EmptyQueued(Column(arr.Contents(), e), heads[e], chains[e], listEnd, invalid);
    }

    /** advance(): the window moves by one timeslot. */
    method Advance()
      requires Valid()
      modifies this`currentQueue, this`currentTimeslot
      ensures Valid() && currentTimeslot.Some? == old(currentTimeslot.Some?)
      ensures forall s: u16 :: old(currentTimeslot.Some?) ==>
                WindowFor(s) == MetricWindow.Advance(old(WindowFor(s)), nEpochs)
      ensures currentQueue == (old(currentQueue) + 1) % nEpochs
    {
      hide Queued, IterableBitmap.Consistent, IterableBitmap.Marked, And;
      MaskEpoch(currentQueue + 1, nEpochs);
      currentQueue := And(currentQueue + 1, nEpochs - 1);
      if currentTimeslot.Some? {
        currentTimeslot := Some((currentTimeslot.value + 1) % 0x1_0000);
      }
    }

    /** lookup: the epoch is the window's, clamped. */
    method Lookup(index: nat, t: u64, enqueue: bool) returns (wasQueued: bool, epoch: nat)
      requires Valid() && index < size && nEpochs <= 0x4000_0000
      modifies this`heads, this`chains, this`currentTimeslot, arr.constructed, arr.arr
      ensures Valid()
      ensures epoch < nEpochs && wasQueued == (index in old(chains)[epoch])
      ensures chains == if enqueue && !wasQueued
                        then old(chains)[epoch := [index] + old(chains)[epoch]] else old(chains)
      ensures var timeslot := Quotient(t, tToTimeslot) % 0x1_0000;
              && epoch == Epoch(old(WindowFor(timeslot)), nEpochs, timeslot)
              && currentTimeslot == Some(old(WindowFor(timeslot)).slot)
    {
      hide Queued, IterableBitmap.Consistent, IterableBitmap.Marked, And, HistogramBin, Signed16, Quotient, Column;
      var timeslot := Quotient(t, tToTimeslot) % 0x1_0000;
      if currentTimeslot.None? { currentTimeslot := Some(timeslot); }
      var rel := Signed16(Signed16(timeslot) - currentTimeslot.value);
      Signed16Range(Signed16(timeslot) - currentTimeslot.value);
      HistogramBinClamps(nEpochs, rel);
      var bin := HistogramBin(nEpochs, rel);
      MaskEpoch(bin + currentQueue, nEpochs);
      wasQueued, epoch := LookupRelative(index, bin, enqueue);
    }

    /**
      A lookup, `k` advances and a lookup of the same slot: while the slot stays inside the window
      they reach the same epoch, and the second finds the entry queued by the first.
     */
    method Revisit(index: nat, t: u64, k: nat) returns (first: nat, wasQueued: bool, second: nat)
      requires Valid() && index < size && nEpochs <= 0x8000
      requires var timeslot := Quotient(t, tToTimeslot) % 0x1_0000;
               k <= Relative(WindowFor(timeslot), timeslot) < nEpochs
      modifies this`heads, this`chains, this`currentTimeslot, this`currentQueue, arr.constructed, arr.arr
      ensures Valid()
      ensures first == second < nEpochs && wasQueued && index in chains[second]
    {
      hide Queued, IterableBitmap.Consistent, IterableBitmap.Marked, Epoch, Relative, Quotient;
      hide MetricWindow.Advance;
      ghost var timeslot := Quotient(t, tToTimeslot) % 0x1_0000;
      ghost var w := WindowFor(timeslot);
      var _, e := Lookup(index, t, true);
      first := e;
      ghost var queued := chains;
      for i := 0 to k
        invariant Valid() && currentTimeslot.Some? && chains == queued
        invariant WindowFor(timeslot) == AdvanceBy(w, nEpochs, i)
      {
        Advance();
      }
      SameSlot(w, nEpochs, timeslot, k);
      wasQueued, second := Lookup(index, t, true);
    }
  }

  lemma SameSlot(w: Window, n: u32, timeslot: u16, k: nat)
    requires IsPow2(n) && 0 < n <= 0x8000 && w.queue < n && k <= Relative(w, timeslot) < n
    ensures Epoch(AdvanceBy(w, n, k), n, timeslot) == Epoch(w, n, timeslot)
  {
    hide Epoch, AdvanceBy;
    var s := w.slot + Relative(w, timeslot);
    assert s % 0x1_0000 == timeslot;
    ModWithin(w.queue, n);
    SameEpoch(w, n, w.queue, w.slot, s, k);
  }

  lemma MaskEpoch(x: nat, n: u32)
    requires IsPow2(n) && n > 0
    ensures And(x, n - 1) == x % n < n
  {
    var e: nat :| n == Pow2(e);
    AndMask(x, e);
  }

  lemma QueuedAt(col: seq<nat>, head: nat, chain: seq<nat>, listEnd: nat, invalid: nat, x: nat)
    requires Queued(col, head, chain, listEnd, invalid) && x < |col|
    ensures col[x] != invalid <==> x in chain
  {
  }

  lemma HeadQueued(col: seq<nat>, head: nat, chain: seq<nat>, listEnd: nat, invalid: nat)
    requires Queued(col, head, chain, listEnd, invalid) && |col| <= listEnd && head != listEnd
    ensures chain != [] && head == chain[0] && head < |col|
  {
  }

  lemma EmptyQueued(col: seq<nat>, head: nat, chain: seq<nat>, listEnd: nat, invalid: nat)
    requires Queued(col, head, chain, listEnd, invalid) && |col| <= listEnd && head == listEnd
    ensures chain == []
  {
  }

  lemma QueuedDistinct(col: seq<nat>, head: nat, chain: seq<nat>, listEnd: nat, invalid: nat)
    requires Queued(col, head, chain, listEnd, invalid)
    ensures Distinct(chain)
  {
  }

  /** Replacing one entry's link of one epoch changes that place of that epoch's column only. */
  lemma ColumnUpdate<M>(c: seq<Element<M>>, c': seq<Element<M>>, i: nat, e: nat, v: nat, n: nat)
    requires i < |c| == |c'| && e < n
    requires forall j :: 0 <= j < |c| ==> |c[j].next| == n
    requires c' == c[i := c[i].(next := c[i].next[e := v])]
    ensures forall j :: 0 <= j < |c'| ==> |c'[j].next| == n && c'[j].m == c[j].m
    ensures Column(c', e) == Column(c, e)[i := v]
    ensures forall d :: 0 <= d < n && d != e ==> Column(c', d) == Column(c, d)
  {
  }
}
