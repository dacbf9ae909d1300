# Verified models of SketchLearn, MV-Sketch, SpreadSketch, INT_DETECT and SPINE

This project models five parts of the repository in Dafny and proves what they
are for.

1. **The ring buffer and the pipeline of SketchLearn** (`RingMachine`,
   `RingSafety`, `RingProgress`, `RingBuffer`, `PipelineSpec`, `Pipeline`,
   `PipelineProgress`, `PipelineStall`).  One writer and one reader share a
   record of indices without a lock.  Every load and store that the other
   thread can see is a step of its own, and a fact about every schedule is a
   fact about every interleaving.  On top sits the interval protocol of
   `dp_simulate.c`, with its punctuation tuples and its semaphore.
2. **MV-Sketch** (`MVSketchSpec`, `MVSketch`, `HeavyChanger`): a weighted
   majority vote per bucket, estimates, the merge of any number of sketches, and
   the change detector over two epochs.
3. **SpreadSketch** (`Bits`, `Bitmap`, `SpreadSketchSpec`, `SpreadSketch`):
   unaligned bit loops over packed bitmaps, the merge, and the filter in front.
4. **SketchLearn's counters, key enumeration and hash table**
   (`SketchCountersSpec`, `SketchLearn`, `KeyEnumeration`, `Prime`, `HashTable`).
5. **The Clos tables of INT_DETECT and the key rotation of SPINE**
   (`ClosTopology`, `FlowTable`, `ClosProbe`, `KeyRotation`).

Code that updates objects in place is a class or a method over arrays here, and
each method is proved equal to a function on values; the theorems are about
those functions.  `Arith` holds the few facts about division that the modules
share.

## Main results

- *First in, first out* (`RingSafety.Fifo`): in every interleaving, with the
  accesses of a flush taken apart, what has been read is a prefix of what has
  been written.  The wrapped index comparisons decide full and empty exactly.
- *No mutual waiting* (`RingProgress.DeadlockFreeIff`): with whole flushes, the
  two threads never both find themselves blocked if and only if the batch is
  smaller than the ring.  The load and the store of `flush_ringbuffer`'s second
  line, taken apart, break this for every size (`SplitFlushBlocks`): the store
  can take `readIndex` back.  `OnlyStaleFlushLags` and `BlockedMeansLagging` say
  that nothing else can.  The picture in `ringbuffer.h:26-34` (at most one batch
  between the published and the next read index) therefore fails after such a
  flush; the code is followed.
- *The pipeline emits the sequential sketches* (`Pipeline.EmitsIntervals`), and
  *it finishes* (`PipelineProgress.FairRunsFinish`): if no consumer step falls
  between a flush's load and store, every schedule in which both threads keep
  taking steps has stopped the consumer within 540 n + 413 rounds for n packets.
  Such schedules can always be finished exactly when the batch is smaller than
  the ring (`PipelineStall.AlwaysFinishesIff`).  Without the proviso the pipeline
  can stall for good, for every ring and batch (`PipelineStall.PipelineCanStall`).
- *One interval per sketch* (`PipelineSpec.SegmentsPureIff`): for every trace,
  each emitted sketch covers a single interval number exactly when the packets
  are in time order and do not start in interval 0 and leave it.  A packet out
  of order is not cut off, and `last_interval == 0` doubles as "no packet yet",
  so the first rise from interval 0 is not cut.
- *MV-Sketch brackets* (`EstimatesBracket`, `MergeBrackets`): for every stream of
  non-negative sizes, Low_estimate is at most every key's total, and Up_estimate
  at least that of every key that does not begin with a zero byte, the code's
  marker of an empty bucket.  For the upper estimate, for Query's recall and for
  the change detector this first byte is the exact condition (`UpperBoundIff`,
  `RecallIff`, `ChangerRecallIff`): a second update of a marker key forgets the
  first.  From the other side, `EstimateErrors` bounds both estimates by the
  weight of the key's bucket in every row, `MergedAnswers` says exactly what a
  merged bucket answers, and `ChangerPrecision` bounds the reported change.
- *SpreadSketch* merges to the sketch of the concatenated streams although
  `Mergebmp` spills past each bucket (`MergeIsConcat`), its unaligned loops are
  bit-by-bit copy and AND (`Copybmp`, `Intersec`), and its filter is transparent
  for all streams over a set of edges exactly when the zero edge is not among
  them (`TransparentIff`); `GuardedIs` says what the guarded sketch is for every
  stream.
- *Probes* (`ClosProbe.ProbeCovers`): for every network size and every pair of
  hosts, the generated tables deliver exactly the promised number of copies, and
  no route goes up after coming down or passes more than five switches.
- *Keys* (`KeyRotation.PacketDecrypts`, `WindowIsExact`): for any number of
  routers and every interleaving of table writes, rotations and packets.

## Model

| member | source | states |
|---|---|---|
| RingMachine.WrappedNext | SketchLearn/ringbuffer.h:62 | the wrap-around successor of a wrapped position is the wrapped successor, for every size |
| RingMachine.WrappedEqual | SketchLearn/ringbuffer.c:223-225 | two positions at most one lap apart have the same index only if they are equal or a full lap apart |
| RingMachine.ExecConcat | SketchLearn/ringbuffer.c:202-276 | schedules compose |
| RingSafety.InitInv | SketchLearn/ringbuffer.h:37-50 | the zeroed record satisfies the invariant |
| RingSafety.FullTest | SketchLearn/ringbuffer.c:223-225 | each of the writer's two index comparisons holds if and only if the unwrapped positions leave no room |
| RingSafety.EmptyTest | SketchLearn/ringbuffer.c:261-262 | each of the reader's two comparisons holds if and only if nothing is known, or published, beyond what was read |
| RingSafety.WriterStepKeeps | SketchLearn/ringbuffer.c:222-238 | every single access of a write call and of a flush keeps the order of the six positions, their wrapped indices and the unread slots' contents |
| RingSafety.ReaderStepKeeps | SketchLearn/ringbuffer.c:260-276 | every single access of a read call keeps them |
| RingSafety.FlushStepKeeps | SketchLearn/ringbuffer.c:202-205 | so does each of the three accesses of a flush, whatever happened between them |
| RingSafety.RunKeeps | SketchLearn/ringbuffer.c:202-276 | every schedule keeps the invariant |
| RingSafety.Fifo | SketchLearn/ringbuffer.c:202-276 | in every interleaving, the delivered tuples are a prefix of the written ones |
| RingSafety.CopiesNeverMeet | SketchLearn/ringbuffer.c:230-268 | a writer and a reader inside their memcpy are never in the same slot |
| RingProgress.WriteUninterrupted | SketchLearn/ringbuffer.c:222-238 | a write call followed by the writer's own steps alone amounts to the whole-call function, in either path |
| RingProgress.ReadUninterrupted | SketchLearn/ringbuffer.c:260-276 | the same for a read call and the reader's own steps |
| RingProgress.FlushUninterrupted | SketchLearn/ringbuffer.c:202-205 | the same for a flush |
| RingProgress.WriteOpOnMeta | SketchLearn/ringbuffer.c:222-238 | on the stored fields and the result, the whole write call of the machine is the function that the method is proved against |
| RingProgress.ReadOpOnMeta | SketchLearn/ringbuffer.c:260-276 | the same for a read call |
| RingProgress.ActKeepsBatches | SketchLearn/ringbuffer.c:232-236 | every step keeps the batch counts below the batch size, the last completed batches at multiples of it, and the writer's last batch published |
| RingProgress.OnlyStaleFlushLags | SketchLearn/ringbuffer.c:202-205 | a step makes readIndex fall behind the reader's last complete batch if and only if it is a flush storing an older loaded index |
| RingProgress.WholeFlushesNeverLag | SketchLearn/ringbuffer.c:202-205 | with whole flushes, readIndex never falls behind, over every schedule |
| RingProgress.FullAndEmptyMeansLagging | SketchLearn/ringbuffer.c:222-276 | with a batch smaller than the ring, a ring that is full to the writer and empty to the reader has a stale readIndex |
| RingProgress.BlockedMeansLagging | SketchLearn/ringbuffer.c:222-276 | so two blocked threads imply a stale readIndex |
| RingProgress.NeverBothBlocked | SketchLearn/ringbuffer.c:222-276 | with whole flushes and a batch smaller than the ring, no schedule blocks both threads |
| RingProgress.LargeBatchBlocks | SketchLearn/ringbuffer.c:233-236 | a batch of at least the ring's size blocks both threads after the ring is filled |
| RingProgress.DeadlockFreeIff | SketchLearn/ringbuffer.c:202-276 | with whole flushes, no schedule blocks both threads if and only if the batch is smaller than the ring |
| RingProgress.SplitFlushBlocks | SketchLearn/ringbuffer.c:202-205 | for every size and batch, a flush whose load and store are separated has a schedule that blocks both threads |
| RingProgress.DrainRun | SketchLearn/ringbuffer.c:260-276 | read calls and reader steps alone deliver everything published and disturb nothing of the writer's |
| RingProgress.FlushLosesNothing | SketchLearn/ringbuffer.c:202-205 | from every reachable state with idle threads, one flush and then read calls and reader steps alone deliver every written tuple |
| RingProgress.SizeIsCachedCount | SketchLearn/ringbuffer.c:212-219 | ringbuffer_size counts the tuples written since the writer's cached read position: never fewer than are unread, never above size - 1 |
| RingBuffer.ShippedSizesNeverBlock | SketchLearn/ringbuffer.h:14-15 | with 2000 slots, batches of 50 and whole flushes, no schedule blocks both threads |
| RingBuffer.PutChangesOneSlot | SketchLearn/ringbuffer.c:230 | overwriting one slot's bytes of the flat data area changes that slot and no other |
| RingBuffer.RingBuffer.constructor | SketchLearn/ringbuffer.h:37-58 | the new buffer is the machine's initial record |
| RingBuffer.RingBuffer.Write | SketchLearn/ringbuffer.c:222-238 | the in-place call does to fields and bytes what the machine's uninterrupted write does, and returns 0 exactly when it accepts |
| RingBuffer.RingBuffer.Read | SketchLearn/ringbuffer.c:260-276 | the same for the read; on -1 the caller's buffer is untouched |
| RingBuffer.RingBuffer.Flush | SketchLearn/ringbuffer.c:202-205 | both published indices become the next ones, nothing else changes |
| RingBuffer.RingBuffer.Size | SketchLearn/ringbuffer.c:212-219 | the returned number is the one that SizeIsCachedCount explains |
| PipelineSpec.SegmentsConserve | SketchLearn/dp_simulate.c:163-196 | cutting a trace into intervals loses and reorders no packet |
| PipelineSpec.FlagIsNotData | SketchLearn/dp_simulate.c:180-186 | setting a tuple's flag does not change the key and the size that are counted |
| PipelineSpec.HeaderDecides | SketchLearn/dp_simulate.c:85 | packets that agree in key and size bytes count the same, whatever their flags and timestamps; the counted key is the key bytes |
| PipelineSpec.ConsumeScript | SketchLearn/dp_simulate.c:64-88 | after the tuples sent for the first n packets, the consumer holds the open interval's sketch and has emitted those of the closed ones |
| PipelineSpec.WholeTrace | SketchLearn/dp_simulate.c:64-96 | after the whole message and its TERM tuple, exactly the intervals' completed sketches have been emitted, in order |
| PipelineSpec.EmittedGrows | SketchLearn/dp_simulate.c:70-83 | what has been emitted stays and is only added to |
| PipelineSpec.CutsCountSegments | SketchLearn/dp_simulate.c:173-189 | there is one more interval than there are cuts |
| PipelineSpec.RiseCuts | SketchLearn/dp_simulate.c:169-189 | in a non-decreasing trace, of two packets whose interval numbers rise from a number other than 0, the later one is behind at least one more cut |
| PipelineSpec.SegmentsPureIff | SketchLearn/dp_simulate.c:169-189 | for every trace, packets of one segment have one interval number if and only if the trace is in time order and does not start in interval 0 and leave it |
| PipelineSpec.SegmentHolds | SketchLearn/dp_simulate.c:169-192 | segment c holds exactly the items of the packets behind c cuts, in order |
| Pipeline.ProducerKeeps | SketchLearn/dp_simulate.c:163-203 | every step of the producer's loop keeps the invariant that ties ring, trace position, consumer and semaphore together |
| Pipeline.ConsumerKeeps | SketchLearn/dp_simulate.c:63-88 | so does every step of the consumer's loop |
| Pipeline.WrittenPrefix | SketchLearn/dp_simulate.c:163-203 | at every moment, what was written is a prefix of the trace's whole message |
| Pipeline.EmitsIntervals | SketchLearn/dp_simulate.c:64-96 | in every interleaving, the emitted sketches are the first of those of the sequential cut, and all of them once the consumer has stopped |
| Pipeline.EmittedCounters | SketchLearn/dp_simulate.c:64-96 | in every interleaving, the counters of the c-th emitted sketch are the totals of exactly the packets behind c cuts, bit by bit |
| Pipeline.PuncIsBarrier | SketchLearn/dp_simulate.c:179-186 | whenever the producer can pass a punctuation, the consumer has processed everything that was written |
| PipelineProgress.CalmIsSteady | SketchLearn/dp_simulate.c:179-203 | in schedules that keep a flush's load and store together, readIndex never lags, and while the producer waits after a flush everything written is published |
| PipelineProgress.ProducerPays | SketchLearn/dp_simulate.c:163-203 | a producer step never raises the measure of what is left, lowers it unless the producer waits, and a waiting producer shows the consumer nothing new |
| PipelineProgress.NotBothWait | SketchLearn/dp_simulate.c:64-192 | whenever the producer waits, at a full ring, at the semaphore or at its end, a consumer that has not stopped has something to do |
| PipelineProgress.ConsumerPays | SketchLearn/dp_simulate.c:64-88 | a consumer step never raises the measure, lowers it unless the consumer waits, and never makes the producer wait |
| PipelineProgress.RoundPays | SketchLearn/dp_simulate.c:64-203 | any stretch of a schedule in which both threads take a step lowers the measure |
| PipelineProgress.FairRunsFinish | SketchLearn/dp_simulate.c:40-203 | for every batch smaller than the ring, every such schedule with more than 540 n + 412 rounds in which both threads take a step has stopped the consumer, with exactly the sketches of the n packets' intervals |
| PipelineProgress.CanAlwaysFinish | SketchLearn/dp_simulate.c:40-203 | from every such schedule some continuation finishes, whatever has happened before |
| PipelineStall.LargeBatchNeverFinishes | SketchLearn/ringbuffer.c:232-236 | with a batch of at least the ring's size, no schedule finishes a trace of one interval that is as long as the ring |
| PipelineStall.AlwaysFinishesIff | SketchLearn/dp_simulate.c:40-203 | schedules that leave a flush's load and store together can always be finished if and only if the batch is smaller than the ring |
| PipelineStall.StuckForever | SketchLearn/dp_simulate.c:65-192 | from a state where the ring is full to the writer and empty to the reader, no schedule changes what the consumer has |
| PipelineStall.PipelineCanStall | SketchLearn/dp_simulate.c:179-192 | for every ring and batch and every two packets of rising intervals, some trace and schedule leave a pipeline that no continuation finishes |
| MVSketchSpec.FeedSound | MV-Sketch(×)/mvsketch.cpp:51-63 | one update of any key keeps a bucket sound: count at most the stored key's total, and twice the total of any key without the marker at most sum + count or sum - count |
| MVSketchSpec.KeyGivesWay | MV-Sketch(×)/mvsketch.cpp:57-62 | a stored key gives way to another exactly when the update exceeds its count |
| MVSketchSpec.StreamSound | MV-Sketch(×)/mvsketch.cpp:43-65 | every stream of non-negative sizes leaves every bucket sound |
| MVSketchSpec.StreamEven | MV-Sketch(×)/mvsketch.cpp:43-65 | without marker keys, sum - count is always even |
| MVSketchSpec.HalvesExact | MV-Sketch(×)/mvsketch.cpp:131-133 | where it is even, halving loses nothing: twice the estimate is sum + count or sum - count |
| MVSketchSpec.EstimatesBracket | MV-Sketch(×)/mvsketch.cpp:111-138 | for every stream of non-negative sizes, Low_estimate is at most every key's total, and Up_estimate at least that of every key that does not begin with the marker |
| MVSketchSpec.UpIsLeast | MV-Sketch(×)/mvsketch.cpp:125-138 | the upper estimate is the least of the rows' estimates |
| MVSketchSpec.LowIsGreatest | MV-Sketch(×)/mvsketch.cpp:111-123 | the lower estimate is the greatest of the rows' estimates, or 0 |
| MVSketchSpec.EstimateErrors | MV-Sketch(×)/mvsketch.cpp:111-138 | over all streams and in every row, the upper estimate is at most the mean of the key's total and its bucket's weight, and the lower one falls short by at most the weight of the other keys |
| MVSketchSpec.UpperBoundIff | MV-Sketch(×)/mvsketch.cpp:51-54 | over all streams, a key's upper estimate is at least its total if and only if the key does not begin with the marker |
| MVSketchSpec.SumIsWeight | MV-Sketch(×)/mvsketch.cpp:50 | a bucket's sum is the total size of all items that reach it |
| MVSketchSpec.MajorityStored | MV-Sketch(×)/mvsketch.cpp:51-63 | a key without the marker and with a strict majority of a bucket's sum is the key stored there |
| MVSketchSpec.QueryRecall | MV-Sketch(×)/mvsketch.cpp:68-103 | a key without the marker, above the threshold and with a strict majority in one of its buckets, is reported |
| MVSketchSpec.QueryPrecision | MV-Sketch(×)/mvsketch.cpp:68-103 | a reported key is stored in a bucket heavier than the threshold, and in every row the mean of its total and its bucket's weight exceeds the threshold |
| MVSketchSpec.RecallIff | MV-Sketch(×)/mvsketch.cpp:51-103 | over all streams and thresholds, a key is sure to be reported in that case if and only if it does not begin with the marker |
| MVSketchSpec.MergedKeys | MV-Sketch(×)/mvsketch.cpp:159-164 | a merged table has the right shape, and each of its keys was stored at that position by one of the inputs |
| MVSketchSpec.MergedBucketSound | MV-Sketch(×)/mvsketch.cpp:190-209 | the merged bucket is sound for the concatenated streams, in the positive-count case and in the case that stores sum = 2 * est |
| MVSketchSpec.MergedAnswers | MV-Sketch(×)/mvsketch.cpp:190-209 | the merged bucket stores the first key with the largest sum u of upper estimates over the inputs; that key's upper estimate is u, any other key's the lesser of u and the rest of the sums, and the lower one the excess of u over that rest |
| MVSketchSpec.MergeSound | MV-Sketch(×)/mvsketch.cpp:170-212 | merging any number of sound tables gives a table that is sound for all their streams together |
| MVSketchSpec.MergeBrackets | MV-Sketch(×)/mvsketch.cpp:170-212 | the merged estimates bracket the totals over all input streams, with the same condition on the key as for one sketch |
| MVSketchSpec.MergeKeepsMajority | MV-Sketch(×)/mvsketch.cpp:190-209 | a key with a strict majority of the inputs' sums is stored after the merge, and the sum is then exact |
| MVSketch.MVSketch.constructor | MV-Sketch(×)/mvsketch.cpp:3-14 | a new sketch is the table of the empty stream |
| MVSketch.MVSketch.Update | MV-Sketch(×)/mvsketch.cpp:43-65 | every bucket that the key reaches is fed, no other changes, and the total grows by the size |
| MVSketch.MVSketch.LowEstimate | MV-Sketch(×)/mvsketch.cpp:111-123 | the loop returns the lower estimate of the bracket theorems |
| MVSketch.MVSketch.UpEstimate | MV-Sketch(×)/mvsketch.cpp:125-138 | the loop returns the upper estimate of the bracket theorems |
| MVSketch.MVSketch.Query | MV-Sketch(×)/mvsketch.cpp:68-103 | the result holds a pair if and only if its key is stored in a bucket whose sum exceeds the threshold, its upper estimate does too, and the number is that estimate; no key twice |
| MVSketch.MVSketch.Reset | MV-Sketch(×)/mvsketch.cpp:150-157 | the table becomes that of the empty stream and the total 0 |
| MVSketch.MVSketch.MergeBucket | MV-Sketch(×)/mvsketch.cpp:178-209 | the loops over the inputs compute the merged bucket of the soundness theorem |
| MVSketch.MVSketch.MergeAll | MV-Sketch(×)/mvsketch.cpp:170-212 | the receiver's table becomes the merge of the inputs' tables, also when it is one of the inputs |
| HeavyChanger.ChangeCoversGap | MV-Sketch(×)/heavy_changer.hpp:69-75 | the computed change of a key without the marker is at least its true change between the epochs |
| HeavyChanger.ChangeIsWidest | MV-Sketch(×)/heavy_changer.hpp:69-75 | the change is the widest that the two epochs' estimates allow |
| HeavyChanger.ChangeWithin | MV-Sketch(×)/heavy_changer.hpp:69-75 | it exceeds the true change by at most the widths of the two brackets |
| HeavyChanger.ChangerPrecision | MV-Sketch(×)/heavy_changer.hpp:47-94 | over all histories it lies within those bounds, and with exact estimates it is the true change, so a key that did not move is not reported |
| HeavyChanger.ChangeCoversIff | MV-Sketch(×)/heavy_changer.hpp:69-75 | over all pairs of epochs, it is if and only if the key does not begin with the marker |
| HeavyChanger.TablesTrackEpochs | MV-Sketch(×)/heavy_changer.hpp:47-94 | over every sequence of updates and resets, the two sketches are those of the last two epochs' streams |
| HeavyChanger.ChangerRecall | MV-Sketch(×)/heavy_changer.hpp:53-85 | a key without the marker whose true change exceeds the threshold and that is a strict majority of a bucket in its larger epoch is examined, with a change no lower than the true one |
| HeavyChanger.ChangerRecallIff | MV-Sketch(×)/heavy_changer.hpp:47-94 | over all histories and thresholds, that is so if and only if the key does not begin with the marker |
| HeavyChanger.HeavyChanger.Update | MV-Sketch(×)/heavy_changer.hpp:47-50 | only the current sketch takes the update |
| HeavyChanger.HeavyChanger.Reset | MV-Sketch(×)/heavy_changer.hpp:88-94 | the current sketch becomes the old one and an emptied one takes its place |
| HeavyChanger.HeavyChanger.ChangeOf | MV-Sketch(×)/heavy_changer.hpp:69-75 | the four estimates give the change of the theorems |
| HeavyChanger.HeavyChanger.Query | MV-Sketch(×)/heavy_changer.hpp:52-85 | the result holds a pair if and only if the key is reported by one of the sketches, its change exceeds the threshold, and the number is that change; no key twice |
| Bitmap.Setbit | spreadsketch-1.1.0/spreadsketch.cpp:140-143 | exactly one position is added to the set of ones |
| Bitmap.StepFits | spreadsketch-1.1.0/spreadsketch.cpp:271-288 | after every step of the unaligned loops, source or destination is at a byte boundary, and no step leaves either buffer |
| Bitmap.Copybmp | spreadsketch-1.1.0/spreadsketch.cpp:268-289 | for every start offset, exactly the bits up to the first byte boundary of source or destination from len on are ORed with the source bit by bit; into a zeroed buffer the first len are a copy |
| Bitmap.Intersec | spreadsketch-1.1.0/spreadsketch.cpp:292-315 | for every start offset, exactly the bits up to that boundary are ANDed with the source bit by bit |
| Bitmap.Mergebmp | spreadsketch-1.1.0/spreadsketch.cpp:382-396 | exactly the bits from start to the end of the region's last byte are ORed, also when both bitmaps are one |
| SpreadSketchSpec.RightmostZero | spreadsketch-1.1.0/spreadsketch.cpp:130-138 | the level is the position of the lowest zero bit of the hash |
| SpreadSketchSpec.PosInRange | spreadsketch-1.1.0/spreadsketch.cpp:173-180 | the position of every edge lies inside a bucket's region |
| SpreadSketchSpec.PosIsPlace | spreadsketch-1.1.0/spreadsketch.cpp:173-180 | the bit of an edge lies in the component of its level, the last one for all higher levels, at the place that its hash picks there |
| SpreadSketchSpec.ColIsPlace | spreadsketch-1.1.0/spreadsketch.cpp:182-195 | a source goes to the bucket that its hash picks when the buckets divide the 32-bit range evenly |
| SpreadSketchSpec.RegionInRange | spreadsketch-1.1.0/spreadsketch.cpp:92-95 | every bucket's region lies inside its row's bytes |
| SpreadSketchSpec.BitsRemember | spreadsketch-1.1.0/spreadsketch.cpp:182-200 | a bit of a row is set if and only if some edge of the stream has that bucket and position |
| SpreadSketchSpec.ComponentRemembers | spreadsketch-1.1.0/spreadsketch.cpp:168-200 | a bit at a place of a component is set if and only if an edge of that level reached the bucket at that place |
| SpreadSketchSpec.CellsRemember | spreadsketch-1.1.0/spreadsketch.cpp:184-187 | a bucket's level is the highest of its edges', its key that of the first edge at that level, and 0 while the level is 0 |
| SpreadSketchSpec.MergeIsConcat | spreadsketch-1.1.0/spreadsketch.cpp:398-412 | merging b's sketch into a's gives the sketch of b's stream followed by a's |
| SpreadSketchSpec.OwnEdgesSurvive | spreadsketch-1.1.0/spreadsketch.cpp:318-339 | the bits of a key's own edges are in all of its row bitmaps |
| SpreadSketchSpec.OtherBitsCollide | spreadsketch-1.1.0/spreadsketch.cpp:318-339 | any other bit found there comes, in every row, from an edge of a colliding key |
| SpreadSketchSpec.ReapplyIsNoOp | spreadsketch-1.1.0/spreadsketch.cpp:182-200 | applying an edge that the stream already holds changes nothing |
| SpreadSketchSpec.FilterHoldsSeen | spreadsketch-1.1.0/spreadsketch.cpp:154-167 | every non-zero edge code in the filter is that of an edge already seen |
| SpreadSketchSpec.FilterVotes | spreadsketch-1.1.0/spreadsketch.cpp:154-167 | the indicator of a slot is a majority vote among the edges that go there |
| SpreadSketchSpec.MajorityIsHeld | spreadsketch-1.1.0/spreadsketch.cpp:154-167 | an edge that is more than half of what goes to its slot is held |
| SpreadSketchSpec.GuardedIs | spreadsketch-1.1.0/spreadsketch.cpp:147-203 | for every stream, the filtered build ends as the sketch of the stream without the zero edges that come before the first one to find its slot taken |
| SpreadSketchSpec.FilterIsTransparent | spreadsketch-1.1.0/spreadsketch.cpp:147-203 | for every stream without the zero edge, the filtered build ends with the same bitmaps, levels and keys |
| SpreadSketchSpec.TransparentIff | spreadsketch-1.1.0/spreadsketch.cpp:147-203 | over any set of edges, all streams are passed unchanged if and only if the zero edge is not among them |
| SpreadSketchSpec.FirstEdgeThrough | spreadsketch-1.1.0/spreadsketch.cpp:154-160 | a first edge reaches the sketch if and only if its code is not zero |
| SpreadSketch.Loghash | spreadsketch-1.1.0/spreadsketch.cpp:131-138 | the shifting loop counts the trailing ones |
| SpreadSketch.DetectorSS.constructor | spreadsketch-1.1.0/spreadsketch.cpp:62-110 | a new detector is the sketch of the empty stream |
| SpreadSketch.DetectorSS.Update | spreadsketch-1.1.0/spreadsketch.cpp:168-200 | every row takes the edge: its bit, and level and key if the level is higher |
| SpreadSketch.DetectorSS.Merge | spreadsketch-1.1.0/spreadsketch.cpp:398-412 | the receiver becomes the merge of the two sketches, also with itself; what a bucket's loop spills past its end is what the later buckets add anyway |
| SpreadSketch.DetectorSS.PointQueryMerge | spreadsketch-1.1.0/spreadsketch.cpp:318-335 | the bitmap built is exactly the AND of the key's row bitmaps |
| SpreadSketch.GuardedDetector.CheckHeld | spreadsketch-1.1.0/spreadsketch.cpp:154-167 | the filter answers whether it holds the edge and moves on as the filter function says |
| SpreadSketch.GuardedDetector.Update | spreadsketch-1.1.0/spreadsketch.cpp:147-203 | the sketch takes the edge exactly when the filter does not hold it |
| SketchCountersSpec.CounterMeaning | SketchLearn/alg_sketchlearn.c:602-608 | after any signed updates and completion, counter pos + 1 (pos + 1 + lgn) of a bucket is the signed total of its keys whose bit pos is 1 (0) |
| SketchCountersSpec.CountersAre | SketchLearn/alg_sketchlearn.c:602-608 | the same by place in the row: the bucket's total, and the totals of its items with a one and with a zero at each bit position |
| SketchCountersSpec.MergeIsConcat | SketchLearn/alg_sketchlearn.c:1081-1091 | adding two completed sketches gives that of the concatenated streams |
| SketchCountersSpec.DiffUndoesMerge | SketchLearn/alg_sketchlearn.c:1093-1103 | subtracting what was added restores every counter |
| SketchCountersSpec.NetsDecide | SketchLearn/alg_sketchlearn.c:514-533 | two streams with the same net total for every key have the same counters, whatever their order and amounts |
| SketchCountersSpec.RemovalLeavesRest | SketchLearn/controller.c:37-42 | removing a list of flows leaves the sketch of any stream with the remaining net totals |
| SketchCountersSpec.EstimateUnique | SketchLearn/alg_sketchlearn.c:945-971 | there is one full-key minimum, so the two ways to compute it agree |
| SketchCountersSpec.EstimateIs | SketchLearn/alg_sketchlearn.c:704-734 | the full-key estimate is the least, over all rows, of the bucket's total and of the totals of its items that have the same bit as the key at a position |
| SketchCountersSpec.EstimateAtIs | SketchLearn/alg_sketchlearn.c:945-971 | the same over any list of positions |
| SketchCountersSpec.CoveringListGivesEstimate | SketchLearn/alg_sketchlearn.c:945-971 | a list that names every position, in any order, gives that minimum |
| SketchCountersSpec.NeverUnderestimates | SketchLearn/alg_sketchlearn.c:945-971 | for streams with non-negative net totals, the minimum is never below the key's total |
| SketchLearn.GetBit | SketchLearn/alg_sketchlearn.c:57-66 | the mask picks the bit at that position |
| SketchLearn.SketchLearn.LogInsert | SketchLearn/alg_sketchlearn.c:68-80 | the shifting loops add to counter 0 and to the counters of the key's one bits, and to no other bucket |
| SketchLearn.SketchLearn.Update | SketchLearn/alg_sketchlearn.c:514-533 | the whole table takes the signed update |
| SketchLearn.SketchLearn.CompleteZeroes | SketchLearn/alg_sketchlearn.c:602-608 | the upper counters become total minus lower ones |
| SketchLearn.SketchLearn.Merge | SketchLearn/alg_sketchlearn.c:1081-1091 | counters add up, also onto itself; a size mismatch is reported and changes nothing |
| SketchLearn.SketchLearn.Diff | SketchLearn/alg_sketchlearn.c:1093-1103 | counters are subtracted; a size mismatch is reported and changes nothing |
| SketchLearn.SketchLearn.RemoveLarge | SketchLearn/controller.c:37-42 | the table is that of the negated list applied and completed |
| SketchLearn.SketchLearn.EstOld | SketchLearn/alg_sketchlearn.c:945-971 | the least counter over all rows at the listed positions; 0 without rows |
| SketchLearn.SketchLearn.InlineEst | SketchLearn/alg_sketchlearn.c:704-734 | the shifting version returns the full-key minimum over all bits |
| KeyEnumeration.SetBit | SketchLearn/alg_sketchlearn.c:46-55 | one position joins or leaves the set of ones |
| KeyEnumeration.EnumerateKeysSearch | SketchLearn/alg_sketchlearn.c:612-623 | the 2^n keys are written in order from the given place, what was written before stays, and the template differs at most at the positions |
| KeyEnumeration.EnumSound | SketchLearn/alg_sketchlearn.c:612-623 | every key written agrees with the template outside the positions |
| KeyEnumeration.EnumComplete | SketchLearn/alg_sketchlearn.c:612-623 | every key that agrees with the template outside the positions is among them |
| KeyEnumeration.EnumDistinct | SketchLearn/alg_sketchlearn.c:612-623 | for distinct positions, the keys are pairwise distinct |
| KeyEnumeration.EveryKeyWritten | SketchLearn/alg_sketchlearn.c:612-616 | in the filled buffer, each such key has a place of its own bytes |
| Prime.IsPrimeTest | SketchLearn/hash.c:146-157 | 1 if and only if the number is prime, for every integer |
| Prime.PrimeAbove | SketchLearn/hash.c:159-164 | there is a prime at or above every integer |
| Prime.CalcNextPrime | SketchLearn/hash.c:159-164 | the loop ends for every integer and returns the least prime at or above it |
| HashTable.LinkFrontKeeps | SketchLearn/hash_table.c:49-67 | linking a filled free entry at the front of its row keeps rows acyclic and doubly linked, every used entry on the row of its hash, and keys distinct |
| HashTable.MakeEntries | SketchLearn/hash_table.c:188-199 | the new entries are distinct and chained in order |
| HashTable.HashTable.constructor | SketchLearn/hash_table.c:172-214 | a new table is the empty map, with seven times the least prime from max_size on as its number of rows |
| HashTable.HashTable.FindEntry | SketchLearn/hash_table.c:128-146 | the walk returns a used entry with the key, or none if and only if no used entry has it |
| HashTable.HashTable.LinkNode | SketchLearn/hash_table.c:49-67 | the entry becomes the head of its row, before the old head; an entry of no row changes nothing |
| HashTable.HashTable.GetFreeNode | SketchLearn/hash_table.c:115-126 | the first free entry is taken, wiped; without one, none is returned |
| HashTable.HashTable.Find | SketchLearn/hash_table.c:154-170 | a known key is found and nothing changes; a new one is missed, appended to the map with a zero value, or met with exhaustion, by the flag and the free entries |
| HashTable.HashTable.Reset | SketchLearn/hash_table.c:240-258 | the table becomes the empty map again |
| HashTable.HashTable.GetAll | SketchLearn/hash_table.c:260-275 | one copy of every used entry, newest first |
| HashTable.HashTable.KeysDistinct | SketchLearn/hash_table.c:154-170 | no key is in the table twice |
| ClosTopology.PeerIsSymmetric | INT_DETECT/topology/clos.py:97-110 | following a link twice leads back, for every size |
| ClosTopology.Topo.AddLink | INT_DETECT/topology/clos.py:97-110 | a link between any two nodes takes the next free port at either end and touches no other node |
| ClosTopology.Topo.Connect | INT_DETECT/topology/clos.py:97-110 | a link added where the closed form has its next one keeps all ports as the closed form says |
| ClosTopology.Topo.Build | INT_DETECT/topology/clos.py:97-110 | after the three loops every node has its degree, and every port leads to the node and port of the closed form |
| FlowTable.GenSpine | INT_DETECT/flow_table/flow_table_gen.py:22-39 | a spine loaded with the generated commands copies a probe from a port to all its other ports |
| FlowTable.GenUpDown | INT_DETECT/flow_table/flow_table_gen.py:48-86 | a leaf or tor copies from above to every lower port, and from below to every other port |
| FlowTable.FlowTableGen | INT_DETECT/flow_table/flow_table_gen.py:18-134 | for every switch of every size, the generated file gives that forwarding and the switch number |
| FlowTable.SwitchIdsDistinct | INT_DETECT/flow_table/flow_table_gen.py:36-134 | no two switches get the same number |
| FlowTable.SwitchIdsInOrder | INT_DETECT/flow_table/flow_table_gen.py:36-134 | numbers follow the order in which the switches are created |
| FlowTable.SwitchIdsUsed | INT_DETECT/flow_table/flow_table_gen.py:36-134 | every number below the count of switches is used |
| ClosProbe.StepsTowardHost | INT_DETECT/flow_table/flow_table_gen.py:18-134 | every copy is nearer to its end, and goes down once the probe has come down |
| ClosProbe.NeverUpAgain | INT_DETECT/flow_table/flow_table_gen.py:18-134 | on every route, a probe that has come down keeps coming down |
| ClosProbe.FiveSwitches | INT_DETECT/flow_table/flow_table_gen.py:18-134 | every route passes at most five switches |
| ClosProbe.ProbeCovers | INT_DETECT/flow_table/flow_table_gen.py:18-134 | between any two hosts of any network, exactly leaf * spine copies arrive across pods, leaf copies across tors of a pod, one under the same tor, none at the sender |
| KeyRotation.RotatedPicks | spine-code/controller.py:378-385 | a round sets the version and replaces exactly the slot that the next round will use |
| KeyRotation.SlotStable | spine-code/controller.py:374-389 | the slot that a round encrypts with holds the same keys in the round before and the round after |
| KeyRotation.RunKeeps | spine-code/controller.py:374-389 | every run keeps each entry at the controller's round or the one before, by its place in the list |
| KeyRotation.EntriesStayClose | spine-code/controller.py:22-67 | no decrypt entry is more than one round away from any encrypt entry |
| KeyRotation.PacketDecrypts | spine-code/controller.py:22-67 | a packet of round r finds its four keys at every router whose decrypt entry is from round r - 1 to r + 1, and meets no older entry |
| KeyRotation.WindowIsExact | spine-code/controller.py:379-385 | if new keys never repeat old ones, it finds them if and only if the entry has not reached round r + 2 |
| KeyRotation.UpdateKeysAndVersionNumber | spine-code/controller.py:22-67 | the loop writes the key list into both entries of every router |
| KeyRotation.NextRound | spine-code/controller.py:378-385 | the in-place updates of the key list are one rotation |
| KeyRotation.RoundCompletes | spine-code/controller.py:388 | in the machine, the same writes bring every entry to the current round |

## Left out

- RingBuffer.RingBuffer.Write: the size argument is taken to be the tuple size, as in every call.
- SketchLearn.SketchLearn.EstOld: only the full-key branch is modelled; the partial-key branch uses floating-point probabilities.
- SketchLearn.SketchLearn.CompleteZeroes: `compute_bit_dists`, which it calls last, is floating point and changes no counter.
- HashTable.HashTable.Find: the program exit on an exhausted table is a returned value here.
- HashTable.HashTable.GetFreeNode: the same.
- SketchLearn.SketchLearn.Merge: the program exit on a size mismatch is a returned flag here; key lengths are taken to be equal, as the loop assumes.
- SketchLearn.SketchLearn.Diff: the same.
- KeyRotation.WindowIsExact: that keys never repeat is a premise, because the keys are random 64-bit numbers.
- Weak memory: all interleavings are under sequential consistency; `volatile` and compiler reordering are not modelled.
- Machine integers: counters, sizes and indices are mathematical integers, so 32-bit and 64-bit overflow is not modelled; hash values are reduced to 32 bits where the code does so.
- Hash functions and their seeds are arbitrary fixed functions; random keys, timestamps and packet traces are inputs.
- The two loops of dp_simulate.c are step functions of a state machine rather than loops, because their interleaving is the point; output is taken to be on, and one consumer thread is modelled, as `num_thread` is 1.
- Shared memory, semaphore set-up, pcap readers, file output and command-line handling.
- `write_ringbuffer_block`, which repeats `write_ringbuffer`, and `read_complete_ringbuffer`, `hashtable_unlink_node`, `hashtable_glink_node` and `hashtable_gunlink_node`, which nothing calls.
- Floating-point estimation: the logarithms in SpreadSketch's Estimate, its Query, and SketchLearn's inference of key bits.
- The vectorised MV-Sketch, DeepMatch, Blink, AquaFlow, INVEST and the other projects of the repository.
- The command shell's own behaviour is a small model: multicast nodes get handles in the order of their creation, a missing entry drops a probe, and switch numbers are not cut to the width of their field.
- Mininet is modelled only in how it numbers ports: switches from 1, hosts from 0, in the order of their links.
- The packet rewriting of SPINE is reduced to which four keys an entry picks by version.
