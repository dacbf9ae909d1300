/**
 Progress of the ring buffer: what an uninterrupted call does, when the two
 threads can wait for each other forever, and that a flush loses nothing.
 */
module RingProgress {
  import opened Bits
  import opened Arith
  import opened RingMachine
  import opened RingSafety

  // ---- whole calls ----

  function PutSlot(data: seq<Tuple>, slot: int, x: Tuple): seq<Tuple> {
    if 0 <= slot < |data| then data[slot := x] else data
  }

  function SlotAt(data: seq<Tuple>, slot: int, default: Tuple): Tuple {
    if 0 <= slot < |data| then data[slot] else default
  }

  /** write_ringbuffer on the stored fields; the flag is "returned 0". */
  function WriteMeta(p: Params, m: Meta, x: Tuple): (Meta, bool) {
    var after := NextVal(p, m.nextWriteIndex);
    if after == m.localReadIndex && after == m.readIndex then (m, false) else
    var m1 := if after == m.localReadIndex then m.(localReadIndex := m.readIndex) else m;
    var m2 := m1.(data := PutSlot(m1.data, m1.nextWriteIndex, x), nextWriteIndex := after,
                  wBatchCount := m1.wBatchCount + 1);
    if m2.wBatchCount >= p.batch then (m2.(writeIndex := after, wBatchCount := 0), true) else (m2, true)
  }

  /** read_ringbuffer on the stored fields and the caller's buffer. */
  function ReadMeta(p: Params, m: Meta, buf: Tuple): (Meta, Tuple, bool) {
    if m.nextReadIndex == m.localWriteIndex && m.nextReadIndex == m.writeIndex then (m, buf, false) else
    var m1 := if m.nextReadIndex == m.localWriteIndex then m.(localWriteIndex := m.writeIndex) else m;
    var out := SlotAt(m1.data, m1.nextReadIndex, buf);
    var m2 := m1.(nextReadIndex := NextVal(p, m1.nextReadIndex), rBatchCount := m1.rBatchCount + 1);
    if m2.rBatchCount >= p.batch then (m2.(readIndex := m2.nextReadIndex, rBatchCount := 0), out, true)
    else (m2, out, true)
  }

  /** flush_ringbuffer on the stored fields. */
  function FlushMeta(m: Meta): Meta {
    m.(writeIndex := m.nextWriteIndex, readIndex := m.nextReadIndex)
  }

  /** The state after the writer's memcpy, advance, count and publish. */
  function AfterCopy(p: Params, s: State, x: Tuple): State {
    var t := s.(m := s.m.(data := PutSlot(s.m.data, s.m.nextWriteIndex, x),
                          nextWriteIndex := NextVal(p, s.m.nextWriteIndex),
                          wBatchCount := s.m.wBatchCount + 1),
                wpc := WIdle, wrote := true, h := s.h.(written := s.h.written + [x]));
    if t.m.wBatchCount >= p.batch
    then t.(m := t.m.(writeIndex := t.m.nextWriteIndex, wBatchCount := 0), h := t.h.(write := |t.h.written|))
    else t
  }

  function WriteOp(p: Params, s: State, x: Tuple): State {
    var after := NextVal(p, s.m.nextWriteIndex);
    if after != s.m.localReadIndex then AfterCopy(p, s, x)
    else if after == s.m.readIndex then s.(wpc := WIdle, wrote := false)
    else AfterCopy(p, s.(m := s.m.(localReadIndex := s.m.readIndex), h := s.h.(localRead := s.h.read)), x)
  }

  function AfterCopyOut(p: Params, s: State): State {
    var out := SlotAt(s.m.data, s.m.nextReadIndex, s.buf);
    var t := s.(m := s.m.(nextReadIndex := NextVal(p, s.m.nextReadIndex),
                          rBatchCount := s.m.rBatchCount + 1),
                rpc := RIdle, got := true, buf := out, h := s.h.(delivered := s.h.delivered + [out]));
    if t.m.rBatchCount >= p.batch
    then t.(m := t.m.(readIndex := t.m.nextReadIndex, rBatchCount := 0), h := t.h.(read := |t.h.delivered|))
    else t
  }

  function ReadOp(p: Params, s: State): State {
    if s.m.nextReadIndex != s.m.localWriteIndex then AfterCopyOut(p, s)
    else if s.m.nextReadIndex == s.m.writeIndex then s.(rpc := RIdle, got := false)
    else AfterCopyOut(p, s.(m := s.m.(localWriteIndex := s.m.writeIndex), h := s.h.(localWrite := s.h.write)))
  }

  /** On the stored fields, the whole calls are the functions above. */
  lemma WriteOpOnMeta(p: Params, s: State, x: Tuple)
    ensures (WriteOp(p, s, x).m, WriteOp(p, s, x).wrote) == WriteMeta(p, s.m, x)
  {
  }

  lemma ReadOpOnMeta(p: Params, s: State)
    ensures (ReadOp(p, s).m, ReadOp(p, s).buf, ReadOp(p, s).got) == ReadMeta(p, s.m, s.buf)
  {
  }

  function Times(n: nat, a: Action): seq<Action> {
    seq(n, _ => a)
  }

  lemma UnrollTimes(p: Params, s: State, n: nat, a: Action)
    requires n > 0
    ensures Exec(p, s, Times(n, a)) == Exec(p, Act(p, s, a), Times(n - 1, a))
  {
    assert Times(n, a)[1..] == Times(n - 1, a);
  }

  lemma {:induction false} IdleWriterStays(p: Params, s: State, n: nat)
    requires s.wpc.WIdle?
    ensures Exec(p, s, Times(n, WriterStep)) == s
    decreases n
  {
    if n > 0 {
      UnrollTimes(p, s, n, WriterStep);
      IdleWriterStays(p, s, n - 1);
    }
  }

  lemma {:induction false} IdleReaderStays(p: Params, s: State, n: nat)
    requires s.rpc.RIdle?
    ensures Exec(p, s, Times(n, ReaderStep)) == s
    decreases n
  {
    if n > 0 {
      UnrollTimes(p, s, n, ReaderStep);
      IdleReaderStays(p, s, n - 1);
    }
  }

  lemma WriterFinishes(p: Params, s: State, x: Tuple, n: nat)
    requires s.wpc == WCopy(x, |x|) && n >= 3
    requires 0 <= s.m.nextWriteIndex < |s.m.data| && s.m.data[s.m.nextWriteIndex] == x
    ensures Exec(p, s, Times(n, WriterStep)) == AfterCopy(p, s, x)
  {
    assert s.m.data == PutSlot(s.m.data, s.m.nextWriteIndex, x);
    UnrollTimes(p, s, n, WriterStep);
    var s1 := WriterStepOf(p, s);
    UnrollTimes(p, s1, n - 1, WriterStep);
    var s2 := WriterStepOf(p, s1);
    UnrollTimes(p, s2, n - 2, WriterStep);
    IdleWriterStays(p, WriterStepOf(p, s2), n - 3);
  }

  lemma {:induction false} WriterCopies(p: Params, s: State, x: Tuple, k: nat, n: nat)
    requires Inv(p, s) && s.wpc == WCopy(x, k) && n >= p.width - k + 3
    ensures Exec(p, s, Times(n, WriterStep)) == AfterCopy(p, s, x)
    decreases p.width - k
  {
    if k < p.width {
      UnrollTimes(p, s, n, WriterStep);
      WriterStepKeeps(p, s);
      WriterCopies(p, WriterStepOf(p, s), x, k + 1, n - 1);
    } else {
      assert s.m.data[s.m.nextWriteIndex] == x;
      WriterFinishes(p, s, x, n);
    }
  }

  /** The slow path of a write call: check the shared index, refresh the cache, copy. */
  lemma WriterChecks(p: Params, s: State, x: Tuple)
    requires Inv(p, s) && s.wpc == WCheck(x)
    ensures
      Exec(p, s, Times(p.width + 5, WriterStep)) ==
      if NextVal(p, s.m.nextWriteIndex) == s.m.readIndex then s.(wpc := WIdle, wrote := false)
      else AfterCopy(p, s.(m := s.m.(localReadIndex := s.m.readIndex), h := s.h.(localRead := s.h.read)), x)
  {
    UnrollTimes(p, s, p.width + 5, WriterStep);
    if NextVal(p, s.m.nextWriteIndex) == s.m.readIndex {
      IdleWriterStays(p, WriterStepOf(p, s), p.width + 4);
    } else {
      WriterStepKeeps(p, s);
      WriterRefreshes(p, WriterStepOf(p, s), x);
    }
  }

  lemma WriterRefreshes(p: Params, s: State, x: Tuple)
    requires Inv(p, s) && s.wpc == WRefresh(x)
    ensures
      Exec(p, s, Times(p.width + 4, WriterStep)) ==
      AfterCopy(p, s.(m := s.m.(localReadIndex := s.m.readIndex), h := s.h.(localRead := s.h.read)), x)
  {
    UnrollTimes(p, s, p.width + 4, WriterStep);
    WriterStepKeeps(p, s);
    WriterCopies(p, WriterStepOf(p, s), x, 0, p.width + 3);
  }

  lemma WriterRuns(p: Params, s: State, x: Tuple)
    requires Inv(p, s) && s.wpc.WIdle? && |x| == p.width
    ensures Exec(p, Act(p, s, WriteCall(x)), Times(p.width + 5, WriterStep)) == WriteOp(p, s, x)
  {
    var s0 := Act(p, s, WriteCall(x));
    ActKeeps(p, s, WriteCall(x));
    if s0.wpc.WCopy? {
      WriterCopies(p, s0, x, 0, p.width + 5);
    } else {
      WriterChecks(p, s0, x);
    }
  }

  /** An uninterrupted write call is `WriteOp`. */
  lemma WriteUninterrupted(p: Params, s: State, x: Tuple) returns (run: seq<Action>)
    requires Inv(p, s) && s.wpc.WIdle? && |x| == p.width
    ensures run == [WriteCall(x)] + Times(p.width + 5, WriterStep)
    ensures Exec(p, s, run) == WriteOp(p, s, x)
    ensures Inv(p, WriteOp(p, s, x))
  {
    run := [WriteCall(x)] + Times(p.width + 5, WriterStep);
    assert run[1..] == Times(p.width + 5, WriterStep);
    WriterRuns(p, s, x);
    RunKeeps(p, s, run);
  }

  lemma ReaderFinishes(p: Params, s: State, n: nat)
    requires s.rpc == RCopy(|s.buf|) && n >= 3
    requires 0 <= s.m.nextReadIndex < |s.m.data| && s.m.data[s.m.nextReadIndex] == s.buf
    ensures Exec(p, s, Times(n, ReaderStep)) == AfterCopyOut(p, s)
  {
    UnrollTimes(p, s, n, ReaderStep);
    var s1 := ReaderStepOf(p, s);
    UnrollTimes(p, s1, n - 1, ReaderStep);
    var s2 := ReaderStepOf(p, s1);
    UnrollTimes(p, s2, n - 2, ReaderStep);
    IdleReaderStays(p, ReaderStepOf(p, s2), n - 3);
  }

  lemma {:induction false} ReaderCopies(p: Params, s: State, k: nat, n: nat)
    requires Inv(p, s) && s.rpc == RCopy(k) && n >= p.width - k + 3
    ensures Exec(p, s, Times(n, ReaderStep)) == AfterCopyOut(p, s)
    decreases p.width - k
  {
    if k < p.width {
      UnrollTimes(p, s, n, ReaderStep);
      ReaderStepKeeps(p, s);
      ReaderCopies(p, ReaderStepOf(p, s), k + 1, n - 1);
    } else {
      assert s.buf == s.m.data[s.m.nextReadIndex];
      ReaderFinishes(p, s, n);
    }
  }

  lemma ReaderChecks(p: Params, s: State)
    requires Inv(p, s) && s.rpc == RCheck
    ensures
      Exec(p, s, Times(p.width + 5, ReaderStep)) ==
      if s.m.nextReadIndex == s.m.writeIndex then s.(rpc := RIdle, got := false)
      else AfterCopyOut(p, s.(m := s.m.(localWriteIndex := s.m.writeIndex), h := s.h.(localWrite := s.h.write)))
  {
    UnrollTimes(p, s, p.width + 5, ReaderStep);
    if s.m.nextReadIndex == s.m.writeIndex {
      IdleReaderStays(p, ReaderStepOf(p, s), p.width + 4);
    } else {
      ReaderStepKeeps(p, s);
      ReaderRefreshes(p, ReaderStepOf(p, s));
    }
  }

  lemma ReaderRefreshes(p: Params, s: State)
    requires Inv(p, s) && s.rpc == RRefresh
    ensures
      Exec(p, s, Times(p.width + 4, ReaderStep)) ==
      AfterCopyOut(p, s.(m := s.m.(localWriteIndex := s.m.writeIndex), h := s.h.(localWrite := s.h.write)))
  {
    UnrollTimes(p, s, p.width + 4, ReaderStep);
    ReaderStepKeeps(p, s);
    ReaderCopies(p, ReaderStepOf(p, s), 0, p.width + 3);
  }

  lemma ReaderRuns(p: Params, s: State)
    requires Inv(p, s) && s.rpc.RIdle?
    ensures Exec(p, Act(p, s, ReadCall), Times(p.width + 5, ReaderStep)) == ReadOp(p, s)
  {
    var s0 := Act(p, s, ReadCall);
    ActKeeps(p, s, ReadCall);
    if s0.rpc.RCopy? {
      ReaderCopies(p, s0, 0, p.width + 5);
    } else {
      ReaderChecks(p, s0);
    }
  }

  /** An uninterrupted read call is `ReadOp`. */
  lemma ReadUninterrupted(p: Params, s: State) returns (run: seq<Action>)
    requires Inv(p, s) && s.rpc.RIdle?
    ensures run == [ReadCall] + Times(p.width + 5, ReaderStep)
    ensures Exec(p, s, run) == ReadOp(p, s)
    ensures Inv(p, ReadOp(p, s))
  {
    run := [ReadCall] + Times(p.width + 5, ReaderStep);
    assert run[1..] == Times(p.width + 5, ReaderStep);
    ReaderRuns(p, s);
    RunKeeps(p, s, run);
  }

  /** An uninterrupted flush is `FlushOp`. */
  lemma FlushUninterrupted(p: Params, s: State)
    requires s.wpc.WIdle?
    ensures Exec(p, s, [FlushCall, WriterStep, WriterStep, WriterStep]) == FlushOp(s)
    ensures FlushOp(s).m == FlushMeta(s.m)
  {
    var s1 := s.(wpc := FPublish);
    var s2 := WriterStepOf(p, s1);
    var s3 := WriterStepOf(p, s2);
    assert [FlushCall, WriterStep, WriterStep, WriterStep][1..] == [WriterStep, WriterStep, WriterStep];
    assert [WriterStep, WriterStep, WriterStep][1..] == [WriterStep, WriterStep];
    assert [WriterStep, WriterStep][1..] == [WriterStep];
    assert Exec(p, s3, [WriterStep]) == FlushOp(s);
    assert Exec(p, s2, [WriterStep, WriterStep]) == FlushOp(s);
    assert Exec(p, s1, [WriterStep, WriterStep, WriterStep]) == FlushOp(s);
  }

  // ---- batches ----

  /** Where the writer last completed a batch. */
  function LastW(s: State): int {
    |s.h.written| - s.m.wBatchCount - if s.wpc.WCount? then 1 else 0
  }

  function LastR(s: State): int {
    |s.h.delivered| - s.m.rBatchCount - if s.rpc.RCount? then 1 else 0
  }

  ghost predicate WriterBatch(p: Params, s: State)
    requires p.Ok()
  {
    && 0 <= s.m.wBatchCount
    && (if s.wpc.WPublish? then s.m.wBatchCount == p.batch else s.m.wBatchCount < p.batch)
    && 0 <= LastW(s) <= s.h.write && LastW(s) % p.batch == 0
  }

  ghost predicate ReaderBatch(p: Params, s: State)
    requires p.Ok()
  {
    && 0 <= s.m.rBatchCount
    && (if s.rpc.RPublish? then s.m.rBatchCount == p.batch else s.m.rBatchCount < p.batch)
    && 0 <= LastR(s) && LastR(s) % p.batch == 0
  }

  ghost predicate Batches(p: Params, s: State)
    requires p.Ok()
  {
    WriterBatch(p, s) && ReaderBatch(p, s)
  }

  /** readIndex is behind the reader's last complete batch. */
  ghost predicate Lagging(s: State) {
    s.h.read < LastR(s)
  }

  lemma NextBatch(b: nat, n: nat)
    requires b > 0 && n % b == 0
    ensures (n + b) % b == 0
  {
    WrappedEqual(b, n, n + b);
  }

  lemma WriterStepKeepsBatch(p: Params, s: State)
    requires p.Ok() && WriterBatch(p, s)
    ensures WriterBatch(p, WriterStepOf(p, s))
  {
    if s.wpc.WPublish? {
      NextBatch(p.batch, LastW(s));
    }
  }

  lemma ReaderStepKeepsBatch(p: Params, s: State)
    requires p.Ok() && ReaderBatch(p, s)
    ensures ReaderBatch(p, ReaderStepOf(p, s))
  {
    if s.rpc.RPublish? {
      NextBatch(p.batch, LastR(s));
    }
  }

  /** Neither thread's step moves the other's batch. */
  lemma StepsKeepApart(p: Params, s: State)
    ensures var t := WriterStepOf(p, s);
            t.rpc == s.rpc && t.m.rBatchCount == s.m.rBatchCount && t.h.delivered == s.h.delivered
    ensures var t := ReaderStepOf(p, s);
            t.wpc == s.wpc && t.m.wBatchCount == s.m.wBatchCount && t.h.written == s.h.written
            && t.h.write == s.h.write
  {
  }

  lemma ActKeepsBatches(p: Params, s: State, a: Action)
    requires p.Ok() && Batches(p, s)
    ensures Batches(p, Act(p, s, a))
  {
    if a.WriterStep? {
      StepsKeepApart(p, s);
      WriterStepKeepsBatch(p, s);
    } else if a.ReaderStep? {
      StepsKeepApart(p, s);
      ReaderStepKeepsBatch(p, s);
    } else {
      var t := Act(p, s, a);
      assert LastW(t) == LastW(s) && LastR(t) == LastR(s);
    }
  }

  /** Only a flush that stores an index older than the reader's last batch makes readIndex lag. */
  lemma OnlyStaleFlushLags(p: Params, s: State, a: Action)
    requires p.Ok() && Batches(p, s) && !Lagging(s)
    ensures Lagging(Act(p, s, a)) <==> a.WriterStep? && s.wpc.FStore? && s.h.flushed < LastR(s)
  {
    if a.ReaderStep? {
      ReaderStepDoesNotLag(p, s);
    } else if a.WriterStep? {
      StepsKeepApart(p, s);
    }
  }

  lemma ReaderStepDoesNotLag(p: Params, s: State)
    requires !Lagging(s) && s.m.rBatchCount >= 0
    ensures !Lagging(ReaderStepOf(p, s))
  {
  }

  predicate Flushing(s: State) {
    s.wpc.FPublish? || s.wpc.FLoad? || s.wpc.FStore?
  }

  lemma NoFlushBegins(p: Params, s: State, a: Action)
    requires !Flushing(s) && a != FlushCall
    ensures !Flushing(Act(p, s, a))
  {
  }

  lemma {:induction false} WholeFlushesNeverLag(p: Params, s: State, run: seq<Action>)
    requires Inv(p, s) && Batches(p, s) && !Lagging(s) && FlushCall !in run
    requires !Flushing(s)
    ensures var t := Exec(p, s, run); Inv(p, t) && Batches(p, t) && !Lagging(t)
    decreases |run|
  {
    if run != [] {
      var s1 := Act(p, s, run[0]);
      ActKeeps(p, s, run[0]);
      ActKeepsBatches(p, s, run[0]);
      NoFlushBegins(p, s, run[0]);
      OnlyStaleFlushLags(p, s, run[0]);
      assert run[0] in run;
      WholeFlushesNeverLag(p, s1, run[1..]);
    }
  }

  // ---- waiting for each other ----

  /** A write call started here would return -1. */
  predicate WriterBlocked(p: Params, s: State) {
    && s.wpc.WIdle?
    && NextVal(p, s.m.nextWriteIndex) == s.m.localReadIndex
    && NextVal(p, s.m.nextWriteIndex) == s.m.readIndex
  }

  /** A read call started here would return -1. */
  predicate ReaderBlocked(s: State) {
    && s.rpc.RIdle?
    && s.m.nextReadIndex == s.m.localWriteIndex
    && s.m.nextReadIndex == s.m.writeIndex
  }

  predicate BothBlocked(p: Params, s: State) {
    WriterBlocked(p, s) && ReaderBlocked(s)
  }

  lemma MultipleBelow(b: nat, lo: nat, hi: nat, r: nat)
    requires b > 0 && lo % b == 0 && hi % b == 0 && lo <= r && hi <= r < hi + b
    ensures lo <= hi
  {
    if lo > hi {
      WrappedEqual(b, hi, lo);
    }
  }

  /** With a batch smaller than the ring, a ring that is full to the writer and empty to the reader has a stale readIndex. */
  lemma FullAndEmptyMeansLagging(p: Params, s: State)
    requires Inv(p, s) && Batches(p, s) && p.batch < p.size
    requires !s.wpc.WCount? && !s.wpc.WPublish? && !s.rpc.RCount? && !s.rpc.RPublish?
    requires |s.h.written| + 1 - s.h.read == p.size && |s.h.delivered| == s.h.write
    ensures Lagging(s)
  {
    MultipleBelow(p.batch, LastW(s), LastR(s), |s.h.delivered|);
  }

  /** So mutual waiting needs one. */
  lemma BlockedMeansLagging(p: Params, s: State)
    requires Inv(p, s) && Batches(p, s) && p.batch < p.size && BothBlocked(p, s)
    ensures Lagging(s)
  {
    FullTest(p, s);
    EmptyTest(p, s);
    FullAndEmptyMeansLagging(p, s);
  }

  lemma NeverBothBlocked(p: Params, run: seq<Action>)
    requires p.Ok() && p.batch < p.size && FlushCall !in run
    ensures !BothBlocked(p, Exec(p, Init(p), run))
  {
    InitInv(p);
    WholeFlushesNeverLag(p, Init(p), run);
    var s := Exec(p, Init(p), run);
    if BothBlocked(p, s) {
      BlockedMeansLagging(p, s);
    }
  }

  // ---- runs that do block ----

  /** The writer has put n tuples into an untouched ring. */
  ghost predicate Filled(p: Params, s: State, n: nat) {
    && Inv(p, s) && s.wpc.WIdle? && s.rpc.RIdle? && |s.h.written| == n
    && s.h.delivered == [] && s.h.read == s.h.localRead == s.h.localWrite == 0
    && (n < p.batch ==> s.h.write == 0 && s.m.wBatchCount == n)
  }

  lemma {:induction false} FillRun(p: Params, n: nat) returns (run: seq<Action>)
    requires p.Ok() && n <= p.size - 1
    ensures FlushCall !in run
    ensures Filled(p, Exec(p, Init(p), run), n)
    decreases n
  {
    if n == 0 {
      run := [];
      InitInv(p);
    } else {
      var r1 := FillRun(p, n - 1);
      var s := Exec(p, Init(p), r1);
      var r2 := WriteUninterrupted(p, s, Zeros(p.width));
      FullTest(p, s);
      run := r1 + r2;
      ExecConcat(p, Init(p), r1, r2);
    }
  }

  /** A batch that the ring cannot hold is never published. */
  lemma LargeBatchBlocks(p: Params) returns (run: seq<Action>)
    requires p.Ok() && p.batch >= p.size
    ensures FlushCall !in run
    ensures BothBlocked(p, Exec(p, Init(p), run))
  {
    run := FillRun(p, p.size - 1);
    var s := Exec(p, Init(p), run);
    FullTest(p, s);
    EmptyTest(p, s);
  }

  /** Whole flushes: the threads never wait for each other exactly when RB_BATCH < RB_SIZE. */
  lemma DeadlockFreeIff(p: Params)
    requires p.Ok()
    ensures (forall run | FlushCall !in run :: !BothBlocked(p, Exec(p, Init(p), run))) <==> p.batch < p.size
  {
    if p.batch < p.size {
      forall run | FlushCall !in run
        ensures !BothBlocked(p, Exec(p, Init(p), run))
      {
        NeverBothBlocked(p, run);
      }
    } else {
      var run := LargeBatchBlocks(p);
    }
  }

  /** What reading touches: not the writer, not what was written or published. */
  ghost predicate SameWriter(s: State, t: State) {
    && t.wpc == s.wpc && t.m.nextWriteIndex == s.m.nextWriteIndex && t.m.localReadIndex == s.m.localReadIndex
    && t.m.writeIndex == s.m.writeIndex && t.h.written == s.h.written && t.h.write == s.h.write
    && t.h.localRead == s.h.localRead && t.h.flushed == s.h.flushed
  }

  lemma ReadAdvances(p: Params, s: State)
    requires Inv(p, s) && s.rpc.RIdle? && |s.h.delivered| < s.h.write
    ensures
      var t := ReadOp(p, s);
      t.rpc.RIdle? && SameWriter(s, t) && |t.h.delivered| == |s.h.delivered| + 1
  {
    EmptyTest(p, s);
  }

  /** Read calls and steps of the reader alone. */
  ghost predicate OnlyReads(run: seq<Action>) {
    forall i :: 0 <= i < |run| ==> run[i].ReadCall? || run[i].ReaderStep?
  }

  /** An idle reader, left alone, delivers everything that is published. */
  lemma {:induction false} DrainRun(p: Params, s: State) returns (run: seq<Action>)
    requires Inv(p, s) && s.rpc.RIdle?
    ensures OnlyReads(run)
    ensures
      var t := Exec(p, s, run);
      Inv(p, t) && t.rpc.RIdle? && SameWriter(s, t) && |t.h.delivered| == t.h.write
    decreases s.h.write - |s.h.delivered|
  {
    if |s.h.delivered| == s.h.write {
      run := [];
    } else {
      var r1 := ReadUninterrupted(p, s);
      ReadAdvances(p, s);
      var r2 := DrainRun(p, ReadOp(p, s));
      run := r1 + r2;
      ExecConcat(p, s, r1, r2);
    }
  }

  /**
   A flush whose load and store of the read index are separated can end in
   mutual waiting, for every ring size and batch: a full ring is drained
   between the two accesses and the store then takes readIndex back.
   */
  lemma SplitFlushBlocks(p: Params) returns (run: seq<Action>)
    requires p.Ok()
    ensures BothBlocked(p, Exec(p, Init(p), run))
  {
    var fill := FillRun(p, p.size - 1);
    var full := Exec(p, Init(p), fill);
    var flush := [FlushCall, WriterStep, WriterStep];
    var loaded := Exec(p, full, flush);
    RunKeeps(p, full, flush);
    FlushLoads(p, full);
    var drain := DrainRun(p, loaded);
    var drained := Exec(p, loaded, drain);
    StaleStoreBlocks(p, drained);
    run := fill + (flush + (drain + [WriterStep]));
    ExecConcat(p, Init(p), fill, flush + (drain + [WriterStep]));
    ExecConcat(p, full, flush, drain + [WriterStep]);
    ExecConcat(p, loaded, drain, [WriterStep]);
    assert Exec(p, drained, [WriterStep]) == WriterStepOf(p, drained);
  }

  /** The first two accesses of a flush: everything is published, the read index is loaded. */
  lemma FlushLoads(p: Params, s: State)
    requires s.wpc.WIdle?
    ensures
      var t := Exec(p, s, [FlushCall, WriterStep, WriterStep]);
      && t.wpc == FStore(s.m.nextReadIndex) && t.rpc == s.rpc
      && t.h == s.h.(write := |s.h.written|, flushed := |s.h.delivered|)
  {
    var a1 := s.(wpc := FPublish);
    var a2 := WriterStepOf(p, a1);
    assert [FlushCall, WriterStep, WriterStep][1..] == [WriterStep, WriterStep];
    assert [WriterStep, WriterStep][1..] == [WriterStep];
    assert Exec(p, a2, [WriterStep]) == WriterStepOf(p, a2);
    assert Exec(p, a1, [WriterStep, WriterStep]) == WriterStepOf(p, a2);
  }

  /** A full ring was drained while the flush held on to position 0. */
  lemma StaleStoreBlocks(p: Params, s: State)
    requires Inv(p, s) && s.wpc.FStore? && s.rpc.RIdle? && s.h.flushed == s.h.localRead == 0
    requires |s.h.delivered| == s.h.write == |s.h.written| == p.size - 1
    ensures BothBlocked(p, WriterStepOf(p, s))
  {
    WriterStepKeeps(p, s);
    var last := WriterStepOf(p, s);
    FullTest(p, last);
    EmptyTest(p, last);
  }

  /** From any reachable state with both threads idle, a flush and then reads alone deliver every tuple. */
  lemma FlushLosesNothing(p: Params, before: seq<Action>) returns (after: seq<Action>)
    requires p.Ok()
    requires var s := Exec(p, Init(p), before); s.wpc.WIdle? && s.rpc.RIdle?
    ensures |after| > 0 && after[0] == FlushAtomic && OnlyReads(after[1..])
    ensures
      var s, t := Exec(p, Init(p), before), Exec(p, Init(p), before + after);
      t.h.written == s.h.written == t.h.delivered
  {
    InitInv(p);
    RunKeeps(p, Init(p), before);
    var s := Exec(p, Init(p), before);
    ActKeeps(p, s, FlushAtomic);
    var f := Act(p, s, FlushAtomic);
    var drain := DrainRun(p, f);
    after := [FlushAtomic] + drain;
    assert after[1..] == drain;
    ExecConcat(p, Init(p), before, after);
  }

  // ---- ringbuffer_size ----

  /** ringbuffer_size, taken between writer steps, counts from the cached index: never too few, never over capacity. */
  lemma SizeIsCachedCount(p: Params, s: State)
    requires Inv(p, s)
    ensures SizeMeta(p, s.m) == |s.h.written| - s.h.localRead
    ensures |s.h.written| - |s.h.delivered| <= SizeMeta(p, s.m) <= p.size - 1
  {
    var a, b := s.h.localRead, |s.h.written|;
    WrapShift(p.size, a, b);
  }

  function SizeMeta(p: Params, m: Meta): int {
    if m.nextWriteIndex < m.localReadIndex then m.nextWriteIndex - m.localReadIndex + p.size
    else m.nextWriteIndex - m.localReadIndex
  }

  lemma WrapShift(m: nat, a: nat, b: nat)
    requires 0 < m && a <= b < a + m
    ensures b % m == if a % m + (b - a) < m then a % m + (b - a) else a % m + (b - a) - m
  {
    var q, r := a / m, a % m;
    assert a == q * m + r;
    if r + (b - a) < m {
      DivModUnique(m, b, q, r + (b - a));
    } else {
      DivModUnique(m, b, q + 1, r + (b - a) - m);
    }
  }
}
