# Data-plane structures of the eBPF collector: a verified model

This project models, in Dafny, the structures that move and hold telemetry in the collector, and
proves what each of them promises. Every structure is related to a much simpler object: a FIFO of
byte strings, a set of indices, a finite map, a stream of bytes, a field-by-field copy.

`dafny verify dfyconfig.toml` checks the whole project.

## What is modelled

**Element queue** (`ElementQueue*.dfy`). Two models of one protocol.
`ElementQueueMachine` is a step machine in which every action performs at most one load or store
of the shared block, so a list of actions is an interleaving of writer and reader; memory is
sequentially consistent. `ElementQueueSafety` shows that every action keeps one invariant, and
`ElementQueueTheorems` draws the consequences for every reachable state. `ElementQueue`,
`ElementQueueSession` and `ElementQueueWriter` are the same code as objects over arrays; each
operation is shown to be a run of the step machine, which gives it its FIFO contract. All indices
are wrapping 32-bit words; the unbounded counters behind them exist only in the proofs.

**Iterable bitmap, pool, hash and metric store** (`IterableBitmap`, `PoolAllocator`, `Pool`,
`FixedHash`, `LazyArray`, `MetricWindow`, `MetricStore`). The bitmap is its level rows and its
iterator the per-level masks and indices. The pool is one byte array whose free slots hold the
links of the free list. The metric store keeps per-epoch queues threaded through the entries.

**Perf ring** (`PerfRing*.dfy`). Typed records that wrap round the end of the buffer, again in two
models: objects for elements of any length, whose operations are whole (`PerfRing`,
`PerfRingSession`, `PerfRingNarrowing`), and a step machine of single loads, stores and byte copies
with its invariant and theorems (`PerfRingMachine`, `PerfRingSafety`, `PerfRingTheorems`).

**Fast forms** (`Lookup3`, `FastDiv`, `MetricWindow.HistogramBin`). Bit tricks and unrolled code
against plain definitions. Bitwise operators are defined bit by bit on natural numbers in `Bits`.

**Layouts, text and buffers** (`JitbufLayout`, `JitbufTransform`, `RawJson`, `CGroupParser`,
`CGroupParserObject`, `BufferedWriter`).

Invariants are not assumed to hold anywhere: the two lemmas `Initially` establish the step
machines', `ElementQueueTheorems.EmptyAtMiddle` exhibits a nontrivial run, and the constructor of
every class establishes its `Valid`. `FirstElement`, `FirstRecord` and `FullRing` take the two
sessions from their initial state.

## Where code and documentation differ

The model follows the code in each case.

- The element queue's size check accepts zero as well as the powers of two (`SizeAcceptedIff`).
- Its signed skip test is right for buffers of at most 2^30 bytes and wrong for 2^31
  (`SkipTestExact`); lengths above 2^32 - 8 wrap to a short reservation (`AlignedLenExact`).
- An empty element queue accepts every length up to half the buffer, and for each longer length
  there is an interleaving that leaves it empty and refusing (`EmptyAcceptsIffHalf`).
- More precisely, whether an empty queue grants a length depends on its write position
  (`EmptyGrantsIff`). What an empty queue would refuse, no queue grants (`NoRoomRefused`), so a
  blocking writer of such an element waits for ever (`StartWrite`).
- `PerfRing::write` narrows the length to 16 bits and copies the whole element. A write that
  succeeds stores the element if and only if it is shorter than 2^16 bytes (`WriteFaithfulIff`);
  longer ones are cut to the narrowed length, overwrite unreleased records (`HarmlessIff`,
  `NarrowingLoses`, `LostRecord`) or leave the ring's memory (`Write`).
- `pr_bytes_remaining` reports 0 for a completely full ring (`BytesRemaining`, `FullRing`).
- The metric window is exact up to 2^15 epochs and not beyond (`WindowFitsIff`), and slots outside
  the window are clamped to its ends only up to 2^15 slots away (`OutsideClampsIff`,
  `ClampRangeIff`).
- `pool_allocator_free` accepts every id in range. The free list stays sound and keeps the ids it
  had if and only if the id is live, or is the first never-used one while no other id is free
  (`FreeIff`).
- 32-bit slot offsets keep the slots apart if and only if the last slot begins below 2^32
  (`OffsetsApartIff`).
- The field copies of jitbuf never compare shapes; a shared field keeps its value if and only if it
  takes as many bytes in both layouts (`ValueKeptIff`).
- The `fast_div` multiplier is 2^32, one more than fits, for one family of divisors
  (`MultiplierFits`).
- `write_as_chunks` does not end when the buffer size is zero (`ChunksEndIff`, `WriteAsChunks`),
  which is what `ElementQueueWriter::buf_size` returns.
- A cgroup name keeps fields of alternatives that failed. Exactly when it does is told from its
  text (`Survivors`); `ServiceWithRuntime` is one family.

## Model

| member | source | states |
|---|---|---|
| ElementQueueLayout.SizeAcceptedIff | util/element_queue.c:33-36 | the size check accepts exactly zero and the powers of two |
| ElementQueueLayout.AlignedLenExact | util/element_queue.c:65 | the aligned length covers the length if and only if adding 7 does not wrap, and is then the length rounded up to 8 |
| ElementQueueLayout.NextOffsetExact | util/element_queue.c:12-19 | on wrapped offsets the skip computation gives the first unbounded position at which the element does not straddle the buffer's end |
| ElementQueueLayout.PlaceIsFirst | util/element_queue.c:12-19 | no earlier position would do |
| ElementQueueLayout.SkipTestExact | util/element_queue.c:15-16 | for powers of two up to 2^31, the skip computation is exact on all positions and lengths if and only if the buffer is at most 2^30 bytes |
| ElementQueueSafety.ReserveExact | util/element_queue.c:61-88 | for counters of any size, the wrapped element-full, byte-full and too-long tests decide as on unbounded counters, and the slot, offset and new tails are the unbounded ones |
| ElementQueueSafety.TakeExact | util/element_queue.c:121-142 | the reader's wrapped recomputation finds the slot and the position at which the writer placed the element |
| ElementQueueSafety.WriteKeeps | util/element_queue.c:61-88 | an accepted reservation keeps the invariant although the writer's snapshots of the heads are stale |
| ElementQueueSafety.CopyInKeeps | util/element_queue_cpp.h:197-207 | storing one byte of a new element damages no byte of an element not yet released |
| ElementQueueSafety.ReadKeeps | util/element_queue.c:121-142 | taking an element keeps the invariant |
| ElementQueueSafety.CopyOutKeeps | util/element_queue_cpp.h:265-279 | every byte loaded is the byte that was written |
| ElementQueueSafety.IndexAccessKeeps | util/element_queue.h:84-173 | the separate loads and stores of the four shared indices, in the code's order, keep the invariant |
| ElementQueueSafety.StepKeeps | util/element_queue.h:84-173 | every action of either side keeps the invariant |
| ElementQueueTheorems.Fifo | util/element_queue.h:22-34 | for every interleaving the elements returned are a prefix of those published, byte for byte and in order, those published a prefix of those accepted, and no access leaves the arrays |
| ElementQueueTheorems.RangesDisjoint | util/element_queue.c:61-88 | in every reachable state reserved elements that are not released lie in contiguous, pairwise disjoint ranges of the buffer |
| ElementQueueTheorems.NothingLost | util/element_queue.h:128-173 | from every reachable state the reader running alone can return everything published |
| ElementQueueTheorems.EmptyGrantsIff | util/element_queue.c:65-82 | a writer that sees an empty queue is granted a length if and only if it fits the buffer before the end or before the write offset |
| ElementQueueTheorems.NoRoomRefused | util/element_queue.c:65-82 | in every state, a length without room in an empty queue at the write offset is refused |
| ElementQueueTheorems.EmptyAccepts | util/element_queue.c:70-87 | a writer that sees an empty queue is granted any length of at most half the buffer |
| ElementQueueTheorems.EmptyAcceptsIffHalf | util/element_queue.c:70-87 | a length is granted in every reachable state in which the writer sees an empty queue if and only if it is at most half the buffer |
| ElementQueueObjects.ElementQueue.Reserve | util/element_queue.c:61-88 | result, new indices and slot contents for each outcome; a granted range is inside the buffer |
| ElementQueueObjects.ElementQueue.Write | util/element_queue_cpp.h:197-207 | as Reserve, and the data array with the element copied in at the granted offset |
| ElementQueueObjects.ElementQueue.Read | util/element_queue_cpp.h:265-279 | the bytes at the recomputed offset, and the new heads; nothing when empty |
| ElementQueueObjects.ElementQueue.Peek | util/element_queue.c:99-119 | the bytes Read would return, with nothing consumed |
| ElementQueueSession.Session.constructor | util/element_queue.c:21-51 | a new queue with nothing accepted, in memory of its own |
| ElementQueueSession.Session.StartWriteBatch | util/element_queue.h:84-91 | a run of the two head loads |
| ElementQueueSession.Session.Write | util/element_queue_cpp.h:197-207 | a run of the machine; the element joins the accepted ones exactly when the result is 0, otherwise nothing changes |
| ElementQueueSession.Session.FinishWriteBatch | util/element_queue.h:110-120 | a run of the two tail stores; everything accepted is published |
| ElementQueueSession.Session.StartReadBatch | util/element_queue.h:128-137 | a run of the tail load |
| ElementQueueSession.Session.Read | util/element_queue_cpp.h:265-279 | a run of the machine; the result is the next published element not yet returned |
| ElementQueueSession.Session.FinishReadBatch | util/element_queue.h:165-173 | a run of the two head stores; everything returned is released |
| ElementQueueSession.WriteRun | util/element_queue_cpp.h:197-207 | a reservation followed by byte-by-byte copying is one patch of the data array |
| ElementQueueSession.ReadRun | util/element_queue_cpp.h:265-279 | taking an element and copying it out byte by byte returns one slice of the data array |
| ElementQueueSession.Move | util/element_queue.c:144-176 | one element leaves the source queue and joins the destination unchanged, or neither queue changes; -ENOENT exactly when the source looks empty, -ENOSYS exactly when the element can never fit the destination, -ENOSPC exactly when it has no room now |
| ElementQueueSession.FirstElement | util/element_queue_cpp.h:197-279 | an element written to a new queue and published is read back |
| ElementQueueWriter.Writer.StartWrite | util/element_queue_writer.cc:22-56 | the outcome of the blocking loop: an element with room in the drained queue is accepted no later than the first sleep by which the reader could have taken all that was pending, over any number of sleeps and also from inside a batch; one without room is refused for ever, whatever the reader does |
| ElementQueueWriter.HalfHasRoom | util/element_queue_writer.cc:22-56 | elements of at most half the buffer always have room |
| ElementQueueWriter.ReadUpTo | util/element_queue_writer.cc:33-37 | what the reader may do during one sleep: take up to a number of elements and release them |
| IterableBitmap.LevelSizes | util/iterable_bitmap.h:17-27 | the levels in use shrink 64-fold up to a root of one word, for every legal size |
| IterableBitmap.SetBit64Bits | platform/generic.h:253-257 | setting a bit changes that bit of the row and no other |
| IterableBitmap.ClearBit64Bits | platform/generic.h:259-263 | clearing a bit changes that bit of the row and no other |
| IterableBitmap.Bitmap.Set | util/iterable_bitmap.h:98-109 | the index joins the set; every summary bit still says whether its child word is nonzero |
| IterableBitmap.Bitmap.Clear | util/iterable_bitmap.h:115-126 | the index leaves the set; every summary bit still says whether its child word is nonzero |
| IterableBitmap.Bitmap.Get | util/iterable_bitmap.h:128 | membership in the set |
| IterableBitmap.Iterator.constructor | util/iterable_bitmap.h:130-178 | begin is at the end exactly for the empty set, otherwise on the least element |
| IterableBitmap.Iterator.Next | util/iterable_bitmap.h:42-85 | increment moves to the next larger element, or to the end exactly when there is none |
| IterableBitmap.Collect | util/iterable_bitmap.h:35-92 | a loop over the bitmap ends and lists exactly the marked indices, strictly ascending |
| IterableBitmap.IterateAfter | util/iterable_bitmap.h:94-180 | after any history of sets and clears, iteration lists exactly the indices whose last operation was a set |
| PoolAllocator.Allocator.Partition | util/pool_allocator.h:17-23 | live ids, the free chain and the never-used tail partition the ids |
| PoolAllocator.Allocator.FreeListBelowEnd | util/pool_allocator.h:54 | the assertion at the head of alloc holds in every valid state |
| PoolAllocator.Allocator.constructor | util/pool_allocator.c:8-21 | initially nothing is live |
| PoolAllocator.Allocator.Alloc | util/pool_allocator.h:48-76 | an id that was not live, its slot zeroed and no other slot changed; the null id exactly when all ids are live |
| PoolAllocator.Allocator.Free | util/pool_allocator.h:81-87 | a live id stops being live and no other slot changes although the link is written into memory; the free list gains the id and keeps what it had if and only if the id was live, and keeps what it had if and only if the id was live or was the first never-used one with nothing else free, when the allocator stays as it was |
| PoolAllocator.FreeIff | util/pool_allocator.h:81-87 | linking an id in front gives a sound list of it and the old ids if and only if it is live, and a sound list that keeps the old ids if and only if it is live, or there are none and it is the first never-used slot |
| PoolAllocator.OffsetsApartIff | util/pool_allocator.h:35-39 | the 32-bit offsets keep all slots apart if and only if the last slot begins below 2^32 |
| PoolAllocator.Allocator.FillSlot | util/pool_allocator.h:17-23 | an owner writing its whole slot disturbs neither the free list nor another slot |
| Pool.Pool.Emplace | util/pool.h:117-139 | adds one element at a new index exactly when there is room and construction does not throw, and otherwise leaves the contents alone; bitmap, count and free list agree |
| Pool.Pool.Remove | util/pool.h:145-157 | removes exactly that element; bitmap, count and free list agree |
| Pool.Pool.Get | util/pool.h:85-90 | the element last emplaced at the index |
| FixedHash.FixedHash.Find | util/fixed_hash.h:59-68 | lookup in the finite map, with the key's pool index |
| FixedHash.FixedHash.Insert | util/fixed_hash.h:75-96 | adds the pair exactly when the map is below capacity, the key is new and construction does not throw; the key-to-index map stays one to one and holds the returned index |
| FixedHash.FixedHash.Erase | util/fixed_hash.h:102-117 | removes the key, reporting whether it was there |
| LazyArray.LazyArray.Touch | util/lazy_array.h:51-59 | construction on first access is not observable |
| MetricWindow.HistogramBinClamps | util/histogram.h:13-24 | the branch-free expression clamps the item to the bins |
| MetricWindow.SameEpoch | util/metric_store.h:78-134 | a slot inside the window before and after any number of advances keeps its epoch, also when the 16-bit slot number wraps |
| MetricWindow.DistinctEpochs | util/metric_store.h:78-103 | distinct slots inside the window have distinct epochs |
| MetricWindow.EpochWraps | util/metric_store.h:78-82 | the epoch of every slot, however far away: its distance wrapped to 16 bits, clamped to the window and rotated |
| MetricWindow.OutsideClampsIff | util/metric_store.h:78-82 | a slot before or behind the window reaches its first or last epoch if and only if its distance modulo 2^16 lies on that side |
| MetricWindow.ClampRangeIff | util/metric_store.h:78-82 | all slots from lo before to hi after the current one are clamped correctly if and only if lo and hi are at most 2^15, or there is one epoch |
| MetricWindow.WindowFitsIff | util/metric_store.h:125-134 | 16-bit relative slots cover the window if and only if it has at most 2^15 epochs |
| MetricStore.PushQueued | util/metric_store.h:97-101 | linking an entry in at the head keeps the chain acyclic, ended by list_end and equal to the entries with a valid link |
| MetricStore.PopQueued | util/metric_store.h:37-49 | unlinking the head keeps the same |
| MetricStore.MetricStore.LookupRelative | util/metric_store.h:90-103 | was_queued is membership in the epoch's queue; the entry is queued at most once; no other queue and no metric changes |
| MetricStore.MetricStore.Lookup | util/metric_store.h:78-82 | the epoch is the window's clamped one, and the first lookup fixes the window |
| MetricStore.MetricStore.Pop | util/metric_store.h:37-49 | the head entry leaves its queue; nothing else changes |
| MetricStore.MetricStore.Drain | util/metric_store.h:27-56 | popping until empty stops and visits each pending entry exactly once, in queue order |
| MetricStore.MetricStore.Advance | util/metric_store.h:113-120 | the window moves by one queue and one timeslot |
| MetricStore.MetricStore.Revisit | util/metric_store.h:78-120 | a lookup, any number of advances and a lookup of a slot still in the window reach the same epoch, and the second finds the entry queued |
| MetricStore.MetricStore.Update | util/metric_store.h:102 | writing through the returned reference changes one cell and no queue |
| FastDiv.LowBitsExact | util/fast_div.h:144-147 | the required low bits are those of the exact shifted product in spite of the 64-bit overflow |
| FastDiv.MultiplierFits | util/fast_div.h:125-137 | the multiplier is at most 2^32, and fits 32 bits if and only if the divisor is not 2 to the shift minus 32 |
| FastDiv.UndershootBound | util/fast_div.h:125-147 | the exact shifted product undershoots the true quotient by at least 0 and at most the dividend over 2 to the shift, rounded up |
| FastDiv.DividesApproximately | util/fast_div.h:125-147 | for every dividend, divisor of at least 1 whose multiplier fits, and 1 to 32 required bits, the low bits of the result are those of a quotient within that bound of the true one |
| PerfRingData.WriteThenRead | util/perf_ring.c:30-58 | after a write the ring reads back the type, the reserved size and that much of the payload at the record's position, wherever it wraps |
| PerfRingData.ByteAfterWrite | util/perf_ring_cpp.h:271-295 | every byte of the ring after a write: payload byte, header field, or the old byte |
| PerfRingData.CopiedBounds | util/perf_ring_cpp.h:285-294 | how much of an element of any length the copy stores: all of it up to the ring's size, otherwise what is left of it modulo that size |
| PerfRingData.ChunksRead | util/perf_ring.c:121-146 | the one-chunk and two-chunk copies are the circular read |
| PerfRing.PerfRing.Write | util/perf_ring_cpp.h:271-295 | for elements of any length: the error cases exactly, when the copy leaves the ring, and otherwise the ring with the narrowed header and the copied bytes at the unbounded tail |
| PerfRing.PerfRing.PeekCopy | util/perf_ring.c:121-146 | the circular read at the head, header and offset |
| PerfRing.PerfRing.Peek | util/perf_ring.c:148-179 | under the source's assertions, two views with 16-bit lengths whose join is the circular read of the unpadded length |
| PerfRing.PerfRing.PeekAgreesWithCopy | util/perf_ring.c:148-179 | the two views joined equal the copy at offset 8 |
| PerfRing.PerfRing.PeekHeader | util/perf_ring.c:60-83 | the type and the aligned size of the head record |
| PerfRing.PerfRing.Read | util/perf_ring_cpp.h:348-367 | the payload followed by padding to a multiple of 8; the head moves past the record |
| PerfRing.PerfRing.BytesRemaining | util/perf_ring.c:209-227 | the pending bytes modulo the ring size, which is their number if and only if the ring is not full |
| PerfRingSession.Session.constructor | util/perf_ring.c:8-28 | a new ring with no record, in memory of its own |
| PerfRingSession.WriteKeepsIntact | util/perf_ring.c:48-58 | a write whose reservation and copy stay clear of the unreleased records leaves them intact and appends one |
| PerfRingSession.NarrowedCopied | util/perf_ring_cpp.h:271-295 | the copy stores at least the bytes that the narrowed length promises |
| PerfRingSession.Session.Write | util/perf_ring_cpp.h:271-295 | the outcome for every element; a record of the narrowed length joins the sequence exactly when the write is done, and all records stay intact if the copy is clear, as it is for every element below 2^16 bytes |
| PerfRingSession.Session.Peek | util/perf_ring.c:148-179 | for a record that holds a length at offset 4, the two views joined are that many payload bytes from offset 8 |
| PerfRingSession.FirstRecord | util/perf_ring_cpp.h:271-367 | a record written to a new ring and published is read back |
| PerfRingSession.FullRing | util/perf_ring.c:209-227 | two empty records fill a ring of 16 bytes, and the reader is told that 0 bytes are left |
| PerfRingSafety.WriteKeeps | util/perf_ring.c:30-58 | an accepted pr_write keeps the invariant although the writer's snapshot of data_tail is stale |
| PerfRingSafety.StoreHolds | util/perf_ring.c:53-58 | a store into the newest record damages no byte of an unreleased one |
| PerfRingSafety.CopyInKeeps | util/perf_ring_cpp.h:285-294 | one byte store of the payload copy |
| PerfRingSafety.HeadWords | util/perf_ring.c:60-83 | the header loads give the type and size that were written |
| PerfRingSafety.CopyOutKeeps | util/perf_ring.c:133-145 | every payload byte loaded is the byte that was written |
| PerfRingSafety.PopKeeps | util/perf_ring.c:181-207 | moving the head past the record keeps the invariant |
| PerfRingSafety.IndexAccessKeeps | util/perf_ring.h:83-132 | the loads and stores of data_head and data_tail keep the invariant |
| PerfRingSafety.StepKeeps | util/perf_ring.h:83-230 | every action of either side keeps the invariant |
| PerfRingTheorems.Fifo | util/perf_ring.h:16-42 | for every interleaving of single loads, stores and byte copies, the records returned are a prefix of those published, type for type and byte for byte, those published a prefix of those written, and no access leaves the ring |
| PerfRingTheorems.NothingLost | util/perf_ring.h:123-230 | from every reachable state the reader running alone can return everything published |
| PerfRingTheorems.WriteRun | util/perf_ring_cpp.h:271-295 | the header stores and the byte copies of an accepted record leave the ring as the whole write does |
| PerfRingTheorems.ReadRun | util/perf_ring_cpp.h:348-367 | the header loads, byte copies and pop return the type and the circular read behind the header |
| PerfRingNarrowing.WriteFaithfulIff | util/perf_ring_cpp.h:271-295 | a write that is done makes the element readable at the tail with every unreleased record intact if and only if it is shorter than 2^16 bytes |
| PerfRingNarrowing.HarmlessIff | util/perf_ring_cpp.h:271-295 | whatever the ring holds, a write that is done reads back cut to the narrowed length and changes no unreleased byte, if and only if the copied bytes end before the oldest of them comes round |
| PerfRingNarrowing.NarrowingLoses | util/perf_ring_cpp.h:271-295 | 0x1_0008 bytes written to a half full ring of 2^17 bytes destroy a record and read back as 8 bytes |
| PerfRingNarrowing.LostRecord | util/perf_ring_cpp.h:271-295 | that ring is reached from a new one |
| PerfRingSession.Session.Read | util/perf_ring_cpp.h:348-367 | the next record in order: its type, and its payload padded to a multiple of 8; nothing exactly when all known records were returned |
| PerfRingSession.Session.StartWriteBatch | util/perf_ring.h:83-88 | the writer learns what was released, and every record from there on is intact |
| PerfRingSession.Session.FinishWriteBatch | util/perf_ring.h:107-115 | every record written is published |
| PerfRingSession.Session.StartReadBatch | util/perf_ring.h:123-132 | the reader learns of every published record |
| PerfRingSession.Session.FinishReadBatch | util/perf_ring.h:223-230 | everything returned is released |
| Lookup3.MixReversible | util/lookup3.c:75-137 | mix loses no information: it has an inverse |
| Lookup3.FinalReversible | util/lookup3.c:164-180 | final has an inverse as well |
| Lookup3.TailWords | util/lookup3.c:344-395 | the masked word reads add the key's last bytes, zero-padded, whatever follows the key in memory |
| Lookup3.TailHalves | util/lookup3.c:453-494 | the half-word cases add the same |
| Lookup3.TailBytes | util/lookup3.c:519-548 | the byte cases add the same |
| Lookup3.HashAligned | util/lookup3.c:319-395 | the aligned path computes the hash of the key's bytes alone |
| Lookup3.HashHalves | util/lookup3.c:438-494 | the half-word path computes the same hash |
| Lookup3.HashBytes | util/lookup3.c:496-548 | the byte path computes the same hash |
| Lookup3.HashLittle | util/lookup3.c:307-553 | for every alignment, the primary hash of the key's bytes |
| Lookup3.HashLittle2 | util/lookup3.c:565-825 | for every alignment and two seeds, both hashes of the key's bytes |
| Lookup3.PathsAgree | util/lookup3.c:565-825 | with a zero secondary seed the two entry points agree at any two alignments |
| Lookup3.HashWord | util/lookup3.c:195-230 | hashing words equals hashing their little-endian bytes |
| Lookup3.HashWord2 | util/lookup3.c:240-278 | the same with two seeds and both hashes |
| Lookup3.WordsAgree | util/lookup3.c:240-278 | on words, the word and byte entry points with two seeds agree at any alignment |
| JitbufLayout.Descriptor.ComputePositions | jitbuf/descriptor_reader.cc:93-135 | when the total fits 16 bits, every field gets its unbounded position in spite of 16-bit arithmetic, and size is the total |
| JitbufLayout.FieldInside | jitbuf/descriptor_reader.cc:111-134 | every field is naturally aligned, after the rpc id and inside the message |
| JitbufLayout.FieldsDisjoint | jitbuf/descriptor_reader.cc:111-134 | fields do not overlap |
| JitbufTransform.GetXform | jitbuf/transform_builder.cc:86-117 | the plan for the shared fields, or the error exactly when it would read past the source |
| JitbufTransform.RunXform | jitbuf/transformer.cc:81-144 | the destination after the copies in order |
| JitbufTransform.PlanInside | jitbuf/transform_builder.cc:98-117 | copies that pass the size check stay in both buffers |
| JitbufTransform.MinSizeIff | jitbuf/transform_builder.cc:112-117 | the size check passes if and only if every copy reads inside the source |
| JitbufTransform.PositionsNamed | jitbuf/transform_builder.cc:86-90 | the id map holds the position of the last source field with the id |
| JitbufTransform.PlanCopies | jitbuf/transform_builder.cc:98-113 | the plan's effect for any two layouts: each destination field holds as many bytes as it is long from the source field its id stands for, every byte outside shared fields is untouched |
| JitbufTransform.UniqueFieldsKept | jitbuf/transform_builder.cc:98-113 | with unique ids and equal shapes every shared field keeps its value |
| JitbufTransform.ValueKeptIff | jitbuf/transform_builder.cc:98-113 | a shared field keeps its value for every message if and only if its length is the same in both layouts |
| JitbufTransform.Transform | jitbuf/transform_builder.cc:86-117 | compiling succeeds if and only if every shared field at its destination length lies inside the source message, as it does between equal shapes; running the copies then has that effect, and otherwise nothing changes |
| RawJson.EscapeTurn | util/raw_json.h:35-94 | one turn of the loop consumes at least one byte and emits its escaped text |
| RawJson.PrintEscaped | util/raw_json.h:29-102 | the printer ends and emits the escape of every byte in order |
| RawJson.EscapedIsPrintable | util/raw_json.h:18-27 | only printable ASCII is emitted |
| RawJson.RoundTrip | util/raw_json.h:29-102 | a decoder following section 7 of RFC 8259 recovers one code point per byte, with the byte's value |
| CGroupParser.ContainerIdWhole | util/cgroup_parser.cc:47-139 | for every input the container id ends empty or exactly 64 hex digits |
| CGroupParser.Survivors | util/cgroup_parser.cc:47-58 | for every input: which form it has, that a runtime or part of a uid is left by failed alternatives exactly when the text at their positions says so, and that no field but the form's own is set if and only if neither is left |
| CGroupParser.ServiceWithRuntime | util/cgroup_parser.cc:47-58 | a service named like a cri scope is valid and keeps that runtime |
| CGroupParser.ParsePrinted | util/cgroup_parser.cc:60-104 | printing QoS class, pod uid in any of three separator styles, colon-free runtime and container id, then parsing, recovers all four, the uid in canonical form |
| CGroupParser.ParsePrintedCri | util/cgroup_parser.cc:106-126 | the cri form recovers runtime and container id, whatever follows |
| CGroupParser.ParsePrintedPod | util/cgroup_parser.cc:141-217 | the pod form recovers the uid in canonical form from any of the three separator styles |
| CGroupParser.ParsePrintedContainer | util/cgroup_parser.cc:128-139 | a bare container id is recovered, whatever follows |
| CGroupParserObject.Parser.constructor | util/cgroup_parser.cc:23-58 | the object ends with the verdict and fields of the grammar, the container id whole and fields left by failures exactly as the text says |
| CGroupParserObject.Parser.ParseMatch | util/parser_utils.h:54-117 | a match moves the head past the text, a mismatch leaves it |
| CGroupParserObject.Parser.ParseToken | util/parser_utils.h:140-154 | the text before the next token, and the head past it or at the end |
| CGroupParserObject.Parser.ParseUid | util/cgroup_parser.cc:187-228 | the five groups with optional separators, in the grammar's terms |
| CGroupParserObject.Parser.ParseContainerId | util/cgroup_parser.cc:128-139 | 64 digits or none |
| CGroupParserObject.Parser.ParseSystemd | util/cgroup_parser.cc:60-104 | the systemd alternative, with the read head left where it stopped |
| BufferedWriter.Writer.Flush | channel/buffered_writer.cc:69-91 | the buffered bytes leave as one batch, sent or discarded, unless there are none or the send fails |
| BufferedWriter.Writer.StartWrite | channel/buffered_writer.cc:30-62 | the two errors exactly; otherwise room for the length, with no finished byte lost |
| BufferedWriter.Writer.FinishWrite | channel/buffered_writer.cc:64-67 | the write's bytes join the finished ones |
| BufferedWriter.Writer.Reset | channel/buffered_writer.cc:93-96 | exactly the buffered bytes are discarded |
| BufferedWriter.Writer.WriteAsChunks | channel/ibuffered_writer.h:33-49 | after any number of turns, the finished prefix and what remains; with a nonzero buffer size enough turns finish the whole payload unless one fails; with size zero no turn fails and none makes progress |
| BufferedWriter.ChunksEndIff | channel/ibuffered_writer.h:35-46 | the loop ends on every payload if and only if the buffer size is nonzero |

## Left out

- LRU eviction: it erases by a reference to a key inside the slot being destroyed, which a model with keys as values cannot express.
- VAR fields and blobs in jitbuf: builder and transformer place a blob's length at different offsets, so there is no single layout to state.
- DescriptorReader::read, the unpacking of the wire descriptor; LLVM code generation, whose typed load and store is taken as a byte copy.
- Weak memory and the barriers of the element queue and the perf ring; the 64-bit kernel side of the perf ring's indices. Memory is sequentially consistent and indices are the 32-bit user-space view.
- Floating-point rounding in `fast_div` and the metric averages; the constructor is taken over the reals.
- `ElementQueue::peek_value` and `pr_peek_aligned_*`: single typed loads at positions already covered by the peeks.
- Sleeping in `ElementQueueWriter::start_write`: how many elements the reader takes during each sleep is a parameter, and it ends its batch before the writer wakes; the back-off only affects timing.
- PerfRingTheorems.Fifo: is about elements shorter than 2^16 bytes; that longer ones break the order of the ring, and exactly when, is `WriteFaithfulIff` and `HarmlessIff`.
- PerfRing.PerfRing.Write: promises nothing about memory after a copy that leaves the ring.
- Network, TLS, compression, gRPC, Prometheus, cloud metadata, configuration and logging: input and output plumbing or tables.
- ElementQueueObjects.ElementQueue.Read: assumes the head slot's length describes a range of the buffer, as the source's comment on the read batch does; the session discharges it.
- BufferedWriter.Writer.Flush: an exception thrown by the channel is the same as a failed send.
- IterableBitmap.Iterator.Next: the unrolled copies of each level's code are one method over the level number; the rows are sequences, so their update in place is by reassignment.
