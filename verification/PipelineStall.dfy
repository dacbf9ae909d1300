/**
 The other side of PipelineProgress.  With a batch that the ring cannot hold, a
 trace of one interval is never finished.  With any smaller batch, a flush whose
 load and store are separated by the consumer can stall the pipeline for good.
 */
module PipelineStall {
  import opened RingMachine
  import opened Bits
  import opened PipelineSpec
  import opened Pipeline
  import opened PipelineProgress
  import RingSafety
  import RingProgress

  // ---- a batch that the ring cannot hold ----

  /** One packet, as many times as the ring has slots. */
  function OneInterval(p: Params, a: Tuple): seq<Tuple> {
    seq(p.size, _ => a)
  }

  lemma {:induction false} OneIntervalCuts(env: Env, p: Params, a: Tuple, n: nat)
    requires IsTrace(OneInterval(p, a)) && n <= p.size
    ensures
      var trace := OneInterval(p, a);
      && Highest(env, trace, n) == (if n == 0 then 0 else env.interval(a))
      && (n < p.size ==> !CutBefore(env, trace, n)) && |Script(env, trace, n)| == n
    decreases n
  {
    if n > 0 {
      OneIntervalCuts(env, p, a, n - 1);
    }
  }

  /** Nothing has been published, and the producer is still at its packets. */
  ghost predicate Dry(w: World) {
    && w.ring.h.write == 0 && RingProgress.LastW(w.ring) == 0 && !w.ring.wpc.WPublish?
    && (w.prod.phase.Begin? || w.prod.phase.Fetch? || w.prod.phase.Send?)
  }

  lemma DryWriter(p: Params, s: State)
    requires RingSafety.Inv(p, s) && p.batch >= p.size
    requires s.h.write == 0 && RingProgress.LastW(s) == 0
    requires !s.wpc.WPublish? && !s.wpc.FPublish? && !s.wpc.FLoad? && !s.wpc.FStore?
    ensures var t := WriterStepOf(p, s); t.h.write == 0 && RingProgress.LastW(t) == 0 && !t.wpc.WPublish?
  {
  }

  lemma DryProducer(env: Env, p: Params, a: Tuple, w: World)
    requires IsTrace(OneInterval(p, a)) && Pipeline.Inv(env, p, OneInterval(p, a), w) && p.batch >= p.size && Dry(w)
    ensures Dry(ProducerStep(env, p, OneInterval(p, a), w))
  {
    if !w.ring.wpc.WIdle? {
      DryWriter(p, w.ring);
    } else if w.prod.phase.Fetch? {
      OneIntervalCuts(env, p, a, w.prod.idx);
    }
  }

  lemma DryNext(env: Env, p: Params, a: Tuple, run: seq<Thread>, th: Thread)
    requires env.Ok() && p.Ok() && p.width == TUPLE_BYTES && IsTrace(OneInterval(p, a)) && p.batch >= p.size
    requires Dry(Pipeline.Exec(env, p, OneInterval(p, a), run))
    ensures Dry(Pipeline.Exec(env, p, OneInterval(p, a), run + [th]))
  {
    var trace := OneInterval(p, a);
    var w := Pipeline.Exec(env, p, trace, run);
    ExecSnoc(env, p, trace, run, th);
    match th
    case ProducerRuns => DryProducer(env, p, a, w);
    case ConsumerRuns =>
      ConsumerFrame(env, p, w);
      RingProgress.StepsKeepApart(p, w.ring);
  }

  lemma {:induction false} StaysDry(env: Env, p: Params, a: Tuple, run: seq<Thread>)
    requires env.Ok() && p.Ok() && p.width == TUPLE_BYTES && IsTrace(OneInterval(p, a)) && p.batch >= p.size
    ensures Dry(Pipeline.Exec(env, p, OneInterval(p, a), run))
    decreases |run|
  {
    if run != [] {
      var before, th := run[..|run| - 1], run[|run| - 1];
      StaysDry(env, p, a, before);
      assert run == before + [th];
      DryNext(env, p, a, before, th);
    }
  }

  /** With a batch of at least the ring's size, no schedule at all finishes that trace. */
  lemma LargeBatchNeverFinishes(env: Env, p: Params, a: Tuple, run: seq<Thread>)
    requires env.Ok() && p.Ok() && p.width == TUPLE_BYTES && IsTrace(OneInterval(p, a)) && p.batch >= p.size
    ensures !Pipeline.Exec(env, p, OneInterval(p, a), run).cons.c.over
  {
    StaysDry(env, p, a, run);
    var w := Pipeline.Exec(env, p, OneInterval(p, a), run);
    assert w.ring.h.delivered[..w.cons.seen] == [];
  }

  ghost predicate CanFinish(env: Env, p: Params, trace: seq<Tuple>, run: seq<Thread>)
    requires env.Ok() && p.Ok() && p.width == TUPLE_BYTES && IsTrace(trace)
  {
    exists more :: Pipeline.Exec(env, p, trace, run + more).cons.c.over
  }

  /** Schedules that leave a flush's load and store together can always be finished exactly when the batch is smaller than the ring. */
  lemma AlwaysFinishesIff(env: Env, p: Params)
    requires env.Ok() && p.Ok() && p.width == TUPLE_BYTES
    ensures (forall trace, run | IsTrace(trace) && Calm(env, p, trace, run) :: CanFinish(env, p, trace, run))
            <==> p.batch < p.size
  {
    if p.batch < p.size {
      forall trace, run | IsTrace(trace) && Calm(env, p, trace, run)
        ensures CanFinish(env, p, trace, run)
      {
        var more := CanAlwaysFinish(env, p, trace, run);
      }
    } else {
      var trace := OneInterval(p, Zeros(TUPLE_BYTES));
      forall more
        ensures !Pipeline.Exec(env, p, trace, [] + more).cons.c.over
      {
        LargeBatchNeverFinishes(env, p, Zeros(TUPLE_BYTES), [] + more);
      }
      assert Calm(env, p, trace, []) && !CanFinish(env, p, trace, []);
    }
  }

  // ---- a state from which nothing follows ----

  /** The writer finds the ring full and the reader finds it empty, wherever each is in its failing call. */
  ghost predicate Stuck(p: Params, w: World) {
    var m := w.ring.m;
    && w.prod.phase.Send? && NextVal(p, m.nextWriteIndex) == m.localReadIndex == m.readIndex
    && (if w.prod.called then w.ring.wpc.WCheck? || (w.ring.wpc.WIdle? && !w.ring.wrote) else w.ring.wpc.WIdle?)
    && w.cons.ready && !w.cons.c.over && m.nextReadIndex == m.localWriteIndex == m.writeIndex
    && (if w.cons.called then w.ring.rpc.RCheck? || (w.ring.rpc.RIdle? && !w.ring.got) else w.ring.rpc.RIdle?)
  }

  lemma StuckStays(env: Env, p: Params, trace: seq<Tuple>, w: World, th: Thread)
    requires Pipeline.Inv(env, p, trace, w) && Stuck(p, w)
    ensures var v := Step(env, p, trace, w, th); Stuck(p, v) && v.cons.c == w.cons.c
  {
  }

  lemma {:induction false} StuckForever(env: Env, p: Params, trace: seq<Tuple>, run: seq<Thread>, more: seq<Thread>)
    requires env.Ok() && p.Ok() && p.width == TUPLE_BYTES && IsTrace(trace)
    requires Stuck(p, Pipeline.Exec(env, p, trace, run))
    ensures
      var w, v := Pipeline.Exec(env, p, trace, run), Pipeline.Exec(env, p, trace, run + more);
      Stuck(p, v) && v.cons.c == w.cons.c
    decreases |more|
  {
    if more == [] {
      assert run + more == run;
    } else {
      StuckNext(env, p, trace, run, more[0]);
      StuckForever(env, p, trace, run + [more[0]], more[1..]);
      HeadFirst(run, more);
    }
  }

  lemma StuckNext(env: Env, p: Params, trace: seq<Tuple>, run: seq<Thread>, th: Thread)
    requires env.Ok() && p.Ok() && p.width == TUPLE_BYTES && IsTrace(trace)
    requires Stuck(p, Pipeline.Exec(env, p, trace, run))
    ensures
      var w, v := Pipeline.Exec(env, p, trace, run), Pipeline.Exec(env, p, trace, run + [th]);
      Stuck(p, v) && v.cons.c == w.cons.c
  {
    ExecSnoc(env, p, trace, run, th);
    StuckStays(env, p, trace, Pipeline.Exec(env, p, trace, run), th);
  }

  // ---- the trace ----

  ghost predicate Rises(env: Env, p: Params, a: Tuple, b: Tuple) {
    && env.Ok() && p.Ok() && p.width == TUPLE_BYTES && IsTrace([a, b])
    && 0 < env.interval(a) < env.interval(b)
  }

  /** m packets of one interval and one of the next. */
  function StallTrace(a: Tuple, b: Tuple, m: nat): seq<Tuple> {
    seq(m, _ => a) + [b]
  }

  lemma StallTraceOk(env: Env, p: Params, a: Tuple, b: Tuple, m: nat)
    requires Rises(env, p, a, b)
    ensures IsTrace(StallTrace(a, b, m)) && IsTrace(OneInterval(p, a))
  {
    assert [a, b][0] == a && [a, b][1] == b;
  }

  /** Only its last packet is preceded by a cut. */
  lemma {:induction false} StallCuts(env: Env, p: Params, a: Tuple, b: Tuple, m: nat, n: nat)
    requires Rises(env, p, a, b) && IsTrace(StallTrace(a, b, m)) && n <= m && m > 0
    ensures
      var trace := StallTrace(a, b, m);
      && Highest(env, trace, n) == (if n == 0 then 0 else env.interval(a))
      && CutBefore(env, trace, n) == (n == m) && |Script(env, trace, n)| == n
    decreases n
  {
    if n > 0 {
      StallCuts(env, p, a, b, m, n - 1);
    }
  }

  // ---- the producer alone, up to the store of its flush ----

  /** The consumer stands before tuple d, and has published that. */
  ghost predicate ReaderAt(w: World, d: nat) {
    && w.cons.ready && !w.cons.called && w.cons.seen == d && w.ring.rpc.RIdle?
    && |w.ring.h.delivered| == w.ring.h.read == d && (w.prod.phase.Begin? ==> w.sem > 0)
  }

  /** The producer has not yet finished the flush after its one punctuation. */
  ghost predicate BeforeStore(w: World, m: nat) {
    match w.prod.phase
    case Begin => true
    case Fetch => w.prod.idx <= m
    case Send => w.prod.idx <= m
    case SendPunc(_) => w.prod.idx == m + 1
    case FlushPunc(_) => w.prod.idx == m + 1 && (w.prod.called ==> !w.ring.wpc.WIdle?)
    case _ => false
  }

  /** With d tuples read, d + size - 1 tuples up to the punctuation, the last of which fills the ring. */
  ghost predicate OnTheWay(p: Params, w: World, m: nat, d: nat) {
    && m > 0 && m == d + p.size - 2 && ReaderAt(w, d) && BeforeStore(w, m) && Published(w)
    && (w.ring.wpc.FStore? ==> w.ring.h.flushed == d)
  }

  lemma NotFull(env: Env, p: Params, a: Tuple, b: Tuple, w: World, m: nat, d: nat)
    requires Rises(env, p, a, b) && Pipeline.Inv(env, p, StallTrace(a, b, m), w) && OnTheWay(p, w, m, d)
    ensures !ProducerWaits(p, w)
  {
    var q := w.prod;
    if WriterTrying(q, w.ring) {
      StallCuts(env, p, a, b, m, if q.phase.Send? then q.idx else q.idx - 1);
      RingSafety.FullTest(p, w.ring);
    }
  }

  lemma ReaderStaysAt(env: Env, p: Params, trace: seq<Tuple>, w: World, d: nat)
    requires IsTrace(trace) && IsTuple(w.prod.t) && ReaderAt(w, d) && !w.ring.wpc.FStore?
    ensures ReaderAt(ProducerStep(env, p, trace, w), d)
  {
    ProducerFrame(env, p, trace, w);
  }

  lemma StaysBeforeStore(env: Env, p: Params, a: Tuple, b: Tuple, w: World, m: nat)
    requires Rises(env, p, a, b) && IsTrace(StallTrace(a, b, m)) && m > 0 && !w.ring.wpc.FStore?
    requires OnTrack(env, StallTrace(a, b, m), w.prod) && CallMatches(w.prod, w.ring.wpc) && BeforeStore(w, m)
    ensures BeforeStore(ProducerStep(env, p, StallTrace(a, b, m), w), m)
  {
    if w.prod.phase.Fetch? {
      StallCuts(env, p, a, b, m, w.prod.idx);
    }
  }

  lemma StaysOnTheWay(env: Env, p: Params, a: Tuple, b: Tuple, w: World, m: nat, d: nat)
    requires Rises(env, p, a, b) && Pipeline.Inv(env, p, StallTrace(a, b, m), w)
    requires OnTheWay(p, w, m, d) && !w.ring.wpc.FStore?
    ensures OnTheWay(p, ProducerStep(env, p, StallTrace(a, b, m), w), m, d)
  {
    ReaderStaysAt(env, p, StallTrace(a, b, m), w, d);
    StaysBeforeStore(env, p, a, b, w, m);
    ProducerPublishes(env, p, StallTrace(a, b, m), w);
  }

  lemma StoreNext(env: Env, p: Params, a: Tuple, b: Tuple, run: seq<Thread>, m: nat, d: nat)
    requires Rises(env, p, a, b) && IsTrace(StallTrace(a, b, m))
    requires
      var w := Pipeline.Exec(env, p, StallTrace(a, b, m), run);
      OnTheWay(p, w, m, d) && !w.ring.wpc.FStore?
    ensures
      var trace := StallTrace(a, b, m);
      var w, v := Pipeline.Exec(env, p, trace, run), Pipeline.Exec(env, p, trace, run + [ProducerRuns]);
      OnTheWay(p, v, m, d) && Measure(env, p, trace, v) < Measure(env, p, trace, w)
  {
    var trace := StallTrace(a, b, m);
    var w := Pipeline.Exec(env, p, trace, run);
    NotFull(env, p, a, b, w, m, d);
    StaysOnTheWay(env, p, a, b, w, m, d);
    ProducerPays(env, p, trace, w);
    ExecSnoc(env, p, trace, run, ProducerRuns);
  }

  lemma {:induction false} ToStore(env: Env, p: Params, a: Tuple, b: Tuple, run: seq<Thread>, m: nat, d: nat, left: nat)
    returns (more: seq<Thread>)
    requires Rises(env, p, a, b) && IsTrace(StallTrace(a, b, m))
    requires
      var w := Pipeline.Exec(env, p, StallTrace(a, b, m), run);
      OnTheWay(p, w, m, d) && left == Measure(env, p, StallTrace(a, b, m), w)
    ensures
      var v := Pipeline.Exec(env, p, StallTrace(a, b, m), run + more);
      OnTheWay(p, v, m, d) && v.ring.wpc.FStore?
    decreases left
  {
    var trace := StallTrace(a, b, m);
    more := [];
    NothingMore(run);
    if !Pipeline.Exec(env, p, trace, run).ring.wpc.FStore? {
      var next := run + [ProducerRuns];
      StoreNext(env, p, a, b, run, m, d);
      var rest := ToStore(env, p, a, b, next, m, d, Measure(env, p, trace, Pipeline.Exec(env, p, trace, next)));
      more := [ProducerRuns] + rest;
      HeadFirst(run, more);
    }
  }

  // ---- the consumer alone, until nothing is left to read ----

  /** The flush has loaded position d and is about to store it; everything written is published. */
  ghost predicate Held(p: Params, trace: seq<Tuple>, w: World, d: nat) {
    var h := w.ring.h;
    && w.ring.wpc.FStore? && h.flushed == d && w.cons.ready
    && w.prod.phase.FlushPunc? && w.prod.called && w.prod.idx == |trace|
    && h.write == |h.written| == d + p.size - 1 && (w.cons.seen == |h.written| ==> !w.cons.called)
  }

  lemma StoreIsHeld(env: Env, p: Params, a: Tuple, b: Tuple, w: World, m: nat, d: nat)
    requires Rises(env, p, a, b) && Pipeline.Inv(env, p, StallTrace(a, b, m), w)
    requires OnTheWay(p, w, m, d) && w.ring.wpc.FStore?
    ensures Held(p, StallTrace(a, b, m), w, d)
  {
    StallCuts(env, p, a, b, m, m);
  }

  /** What was written ends with a punctuation, so the consumer has not stopped. */
  lemma NotOver(env: Env, p: Params, trace: seq<Tuple>, w: World, d: nat)
    requires Pipeline.Inv(env, p, trace, w) && Held(p, trace, w, d)
    ensures !w.cons.c.over
  {
    PuncDoesNotStop(env, trace, w.prod.idx - 1, w.prod.t, w.ring.h.delivered, w.cons.seen);
  }

  lemma PuncDoesNotStop(env: Env, trace: seq<Tuple>, n: nat, t: Tuple, d: seq<Tuple>, k: nat)
    requires env.Ok() && IsTrace(trace) && n <= |trace| && IsTuple(t) && Flag(t) == PUNC
    requires d <= Script(env, trace, n) + [t] && k <= |d| && AreTuples(d[..k])
    ensures !Consume(env, d[..k]).over
  {
    var all := Script(env, trace, n) + [t];
    ConsumeScript(env, trace, n);
    ConsumeSnoc(env, Script(env, trace, n), t);
    assert d[..k] == all[..k];
    if Consume(env, all[..k]).over {
      OverStays(env, all, k);
    }
  }

  lemma HeldStays(env: Env, p: Params, trace: seq<Tuple>, w: World, d: nat)
    requires Pipeline.Inv(env, p, trace, w) && Held(p, trace, w, d) && w.cons.seen < |w.ring.h.written|
    ensures Held(p, trace, ConsumerStep(env, p, w), d) && !ConsumerWaits(w)
  {
    ConsumerFrame(env, p, w);
    RingProgress.StepsKeepApart(p, w.ring);
  }

  lemma HeldNext(env: Env, p: Params, trace: seq<Tuple>, run: seq<Thread>, d: nat)
    requires env.Ok() && p.Ok() && p.width == TUPLE_BYTES && IsTrace(trace)
    requires
      var w := Pipeline.Exec(env, p, trace, run);
      Held(p, trace, w, d) && w.cons.seen < |w.ring.h.written|
    ensures
      var w, v := Pipeline.Exec(env, p, trace, run), Pipeline.Exec(env, p, trace, run + [ConsumerRuns]);
      Held(p, trace, v, d) && Measure(env, p, trace, v) < Measure(env, p, trace, w)
  {
    var w := Pipeline.Exec(env, p, trace, run);
    NotOver(env, p, trace, w, d);
    HeldStays(env, p, trace, w, d);
    ConsumerPays(env, p, trace, w);
    ExecSnoc(env, p, trace, run, ConsumerRuns);
  }

  lemma {:induction false} Drain(env: Env, p: Params, trace: seq<Tuple>, run: seq<Thread>, d: nat, left: nat)
    returns (more: seq<Thread>)
    requires env.Ok() && p.Ok() && p.width == TUPLE_BYTES && IsTrace(trace)
    requires var w := Pipeline.Exec(env, p, trace, run); Held(p, trace, w, d) && left == Measure(env, p, trace, w)
    ensures
      var v := Pipeline.Exec(env, p, trace, run + more);
      Held(p, trace, v, d) && v.cons.seen == |v.ring.h.written|
    decreases left
  {
    more := [];
    NothingMore(run);
    var w := Pipeline.Exec(env, p, trace, run);
    if w.cons.seen < |w.ring.h.written| {
      var next := run + [ConsumerRuns];
      HeldNext(env, p, trace, run, d);
      var rest := Drain(env, p, trace, next, d, Measure(env, p, trace, Pipeline.Exec(env, p, trace, next)));
      more := [ConsumerRuns] + rest;
      HeadFirst(run, more);
    }
  }

  // ---- the store, the semaphore, and the end ----

  /** The consumer has posted the semaphore for the punctuation. */
  lemma Posted(env: Env, p: Params, trace: seq<Tuple>, w: World, d: nat)
    requires Pipeline.Inv(env, p, trace, w) && Held(p, trace, w, d) && w.cons.seen == |w.ring.h.written|
    ensures w.sem > 0 && !w.cons.c.over
  {
    NotOver(env, p, trace, w, d);
    PuncIsPosted(env, trace, w.prod, w.cons, w.ring.h.delivered, w.sem);
  }

  lemma PuncIsPosted(env: Env, trace: seq<Tuple>, q: Producer, k: Consumer, got: seq<Tuple>, sem: nat)
    requires env.Ok() && IsTrace(trace) && OnTrack(env, trace, q) && q.phase.FlushPunc? && k.ready
    requires got == Script(env, trace, q.idx - 1) + [q.t] && k.seen == |got| && AreTuples(got[..k.seen])
    requires SemInv(env, trace, q, k, got, sem)
    ensures sem > 0
  {
    assert got[..k.seen] == got;
    ScriptPuncs(env, trace, q.idx - 1);
    PuncsSnoc(Script(env, trace, q.idx - 1), q.t);
  }

  lemma EndsStuck(env: Env, p: Params, trace: seq<Tuple>, w: World, d: nat)
    requires Pipeline.Inv(env, p, trace, w) && Held(p, trace, w, d) && w.cons.seen == |w.ring.h.written|
    ensures
      var w1 := ProducerStep(env, p, trace, w);
      IsTuple(w1.prod.t)
      && var w2 := ProducerStep(env, p, trace, w1);
      IsTuple(w2.prod.t) && Stuck(p, ProducerStep(env, p, trace, w2))
  {
    Posted(env, p, trace, w, d);
    ProducerKeeps(env, p, trace, w);
    var w1 := ProducerStep(env, p, trace, w);
    RingSafety.FullTest(p, w1.ring);
    RingSafety.EmptyTest(p, w1.ring);
  }

  lemma ThreeMore(env: Env, p: Params, trace: seq<Tuple>, run: seq<Thread>)
    requires env.Ok() && p.Ok() && p.width == TUPLE_BYTES && IsTrace(trace)
    ensures
      var w1 := ProducerStep(env, p, trace, Pipeline.Exec(env, p, trace, run));
      IsTuple(w1.prod.t)
      && var w2 := ProducerStep(env, p, trace, w1);
      IsTuple(w2.prod.t)
      && Pipeline.Exec(env, p, trace, ((run + [ProducerRuns]) + [ProducerRuns]) + [ProducerRuns]) ==
         ProducerStep(env, p, trace, w2)
  {
    ExecSnoc(env, p, trace, run, ProducerRuns);
    ExecSnoc(env, p, trace, run + [ProducerRuns], ProducerRuns);
    ExecSnoc(env, p, trace, (run + [ProducerRuns]) + [ProducerRuns], ProducerRuns);
  }

  /** From a state on the way, the flush, the drain between its load and its store, and three more steps. */
  lemma StallFrom(env: Env, p: Params, a: Tuple, b: Tuple, begin: seq<Thread>, m: nat, d: nat)
    returns (run: seq<Thread>)
    requires Rises(env, p, a, b) && IsTrace(StallTrace(a, b, m))
    requires OnTheWay(p, Pipeline.Exec(env, p, StallTrace(a, b, m), begin), m, d)
    ensures Stuck(p, Pipeline.Exec(env, p, StallTrace(a, b, m), run))
  {
    var trace := StallTrace(a, b, m);
    var fill := ToStore(env, p, a, b, begin, m, d, Measure(env, p, trace, Pipeline.Exec(env, p, trace, begin)));
    run := begin + fill;
    StoreIsHeld(env, p, a, b, Pipeline.Exec(env, p, trace, run), m, d);
    var drain := Drain(env, p, trace, run, d, Measure(env, p, trace, Pipeline.Exec(env, p, trace, run)));
    run := run + drain;
    EndsStuck(env, p, trace, Pipeline.Exec(env, p, trace, run), d);
    ThreeMore(env, p, trace, run);
    run := ((run + [ProducerRuns]) + [ProducerRuns]) + [ProducerRuns];
  }

  // ---- two slots: one packet has to pass first ----

  /** The first packet is on its way into a ring of two slots with batches of one. */
  ghost predicate FirstPacket(w: World) {
    && ReaderAt(w, 0) && w.prod.idx <= 1
    && (w.prod.phase.Begin? || w.prod.phase.Fetch? || (w.prod.phase.Send? && w.prod.idx == 1))
  }

  lemma FirstPacketStays(env: Env, p: Params, a: Tuple, b: Tuple, w: World)
    requires Rises(env, p, a, b) && Pipeline.Inv(env, p, StallTrace(a, b, 1), w) && p.size == 2
    requires FirstPacket(w) && !(w.prod.phase.Fetch? && w.prod.idx == 1)
    ensures FirstPacket(ProducerStep(env, p, StallTrace(a, b, 1), w)) && !ProducerWaits(p, w)
  {
    StallCuts(env, p, a, b, 1, 1);
    RingSafety.FullTest(p, w.ring);
    ReaderStaysAt(env, p, StallTrace(a, b, 1), w, 0);
  }

  lemma FirstPacketNext(env: Env, p: Params, a: Tuple, b: Tuple, run: seq<Thread>)
    requires Rises(env, p, a, b) && IsTrace(StallTrace(a, b, 1)) && p.size == 2
    requires Calm(env, p, StallTrace(a, b, 1), run)
    requires
      var w := Pipeline.Exec(env, p, StallTrace(a, b, 1), run);
      FirstPacket(w) && !(w.prod.phase.Fetch? && w.prod.idx == 1)
    ensures
      var trace, next := StallTrace(a, b, 1), run + [ProducerRuns];
      var w, v := Pipeline.Exec(env, p, trace, run), Pipeline.Exec(env, p, trace, next);
      Calm(env, p, trace, next) && FirstPacket(v) && Measure(env, p, trace, v) < Measure(env, p, trace, w)
  {
    var trace := StallTrace(a, b, 1);
    var w := Pipeline.Exec(env, p, trace, run);
    FirstPacketStays(env, p, a, b, w);
    ProducerPays(env, p, trace, w);
    ExecSnoc(env, p, trace, run, ProducerRuns);
    CalmSnoc(env, p, trace, run, ProducerRuns);
  }

  lemma {:induction false} SendFirst(env: Env, p: Params, a: Tuple, b: Tuple, run: seq<Thread>, left: nat)
    returns (more: seq<Thread>)
    requires Rises(env, p, a, b) && IsTrace(StallTrace(a, b, 1)) && p.size == 2
    requires Calm(env, p, StallTrace(a, b, 1), run)
    requires
      var w := Pipeline.Exec(env, p, StallTrace(a, b, 1), run);
      FirstPacket(w) && left == Measure(env, p, StallTrace(a, b, 1), w)
    ensures Calm(env, p, StallTrace(a, b, 1), run + more)
    ensures
      var v := Pipeline.Exec(env, p, StallTrace(a, b, 1), run + more);
      FirstPacket(v) && v.prod.phase.Fetch? && v.prod.idx == 1
    decreases left
  {
    var trace := StallTrace(a, b, 1);
    var w := Pipeline.Exec(env, p, trace, run);
    more := [];
    NothingMore(run);
    if !(w.prod.phase.Fetch? && w.prod.idx == 1) {
      var next := run + [ProducerRuns];
      FirstPacketNext(env, p, a, b, run);
      var rest := SendFirst(env, p, a, b, next, Measure(env, p, trace, Pipeline.Exec(env, p, trace, next)));
      more := [ProducerRuns] + rest;
      HeadFirst(run, more);
    }
  }

  /** The producer stands between its first packet and the next; the consumer reads it. */
  ghost predicate FirstRead(w: World) {
    && w.prod.phase.Fetch? && w.prod.idx == 1 && w.ring.wpc.WIdle? && w.cons.ready && w.cons.seen <= 1
    && w.ring.h.write == |w.ring.h.written| == 1 && (w.cons.seen == 1 ==> !w.cons.called)
  }

  lemma FirstIsPublished(env: Env, p: Params, a: Tuple, b: Tuple, w: World)
    requires Rises(env, p, a, b) && Pipeline.Inv(env, p, StallTrace(a, b, 1), w) && p.size == 2 && p.batch == 1
    requires Steady(p, w) && FirstPacket(w) && w.prod.phase.Fetch? && w.prod.idx == 1
    ensures FirstRead(w)
  {
    StallCuts(env, p, a, b, 1, 1);
  }

  lemma FirstNotOver(env: Env, p: Params, a: Tuple, b: Tuple, w: World)
    requires Rises(env, p, a, b) && Pipeline.Inv(env, p, StallTrace(a, b, 1), w) && FirstRead(w)
    ensures !w.cons.c.over
  {
    var trace := StallTrace(a, b, 1);
    var sent := Script(env, trace, 1);
    ConsumeScript(env, trace, 1);
    assert w.ring.h.delivered[..w.cons.seen] == sent[..w.cons.seen];
    if w.cons.c.over {
      OverStays(env, sent, w.cons.seen);
    }
  }

  lemma FirstReadNext(env: Env, p: Params, a: Tuple, b: Tuple, run: seq<Thread>)
    requires Rises(env, p, a, b) && IsTrace(StallTrace(a, b, 1)) && Calm(env, p, StallTrace(a, b, 1), run)
    requires var w := Pipeline.Exec(env, p, StallTrace(a, b, 1), run); FirstRead(w) && w.cons.seen == 0
    ensures
      var trace, next := StallTrace(a, b, 1), run + [ConsumerRuns];
      var w, v := Pipeline.Exec(env, p, trace, run), Pipeline.Exec(env, p, trace, next);
      Calm(env, p, trace, next) && FirstRead(v) && Measure(env, p, trace, v) < Measure(env, p, trace, w)
  {
    var trace := StallTrace(a, b, 1);
    var w := Pipeline.Exec(env, p, trace, run);
    FirstNotOver(env, p, a, b, w);
    ConsumerFrame(env, p, w);
    RingProgress.StepsKeepApart(p, w.ring);
    ConsumerPays(env, p, trace, w);
    ExecSnoc(env, p, trace, run, ConsumerRuns);
    CalmSnoc(env, p, trace, run, ConsumerRuns);
  }

  lemma {:induction false} ReadFirst(env: Env, p: Params, a: Tuple, b: Tuple, run: seq<Thread>, left: nat)
    returns (more: seq<Thread>)
    requires Rises(env, p, a, b) && IsTrace(StallTrace(a, b, 1)) && Calm(env, p, StallTrace(a, b, 1), run)
    requires
      var w := Pipeline.Exec(env, p, StallTrace(a, b, 1), run);
      FirstRead(w) && left == Measure(env, p, StallTrace(a, b, 1), w)
    ensures Calm(env, p, StallTrace(a, b, 1), run + more)
    ensures var v := Pipeline.Exec(env, p, StallTrace(a, b, 1), run + more); FirstRead(v) && v.cons.seen == 1
    decreases left
  {
    var trace := StallTrace(a, b, 1);
    more := [];
    NothingMore(run);
    if Pipeline.Exec(env, p, trace, run).cons.seen == 0 {
      var next := run + [ConsumerRuns];
      FirstReadNext(env, p, a, b, run);
      var rest := ReadFirst(env, p, a, b, next, Measure(env, p, trace, Pipeline.Exec(env, p, trace, next)));
      more := [ConsumerRuns] + rest;
      HeadFirst(run, more);
    }
  }

  lemma FirstIsRead(env: Env, p: Params, a: Tuple, b: Tuple, w: World)
    requires Rises(env, p, a, b) && Pipeline.Inv(env, p, StallTrace(a, b, 1), w) && p.size == 2 && p.batch == 1
    requires Steady(p, w) && FirstRead(w) && w.cons.seen == 1
    ensures OnTheWay(p, w, 1, 1)
  {
  }

  lemma WarmUp(env: Env, p: Params, a: Tuple, b: Tuple) returns (run: seq<Thread>)
    requires Rises(env, p, a, b) && IsTrace(StallTrace(a, b, 1)) && p.size == 2 && p.batch == 1
    ensures OnTheWay(p, Pipeline.Exec(env, p, StallTrace(a, b, 1), run), 1, 1)
  {
    var trace := StallTrace(a, b, 1);
    run := [ConsumerRuns];
    ReadyFirst(env, p, trace);
    var send := SendFirst(env, p, a, b, run, Measure(env, p, trace, Pipeline.Exec(env, p, trace, run)));
    run := run + send;
    CalmIsSteady(env, p, trace, run);
    FirstIsPublished(env, p, a, b, Pipeline.Exec(env, p, trace, run));
    var read := ReadFirst(env, p, a, b, run, Measure(env, p, trace, Pipeline.Exec(env, p, trace, run)));
    run := run + read;
    CalmIsSteady(env, p, trace, run);
    FirstIsRead(env, p, a, b, Pipeline.Exec(env, p, trace, run));
  }

  /** The consumer thread reports ready before anything else happens. */
  lemma ReadyFirst(env: Env, p: Params, trace: seq<Tuple>)
    requires env.Ok() && p.Ok() && p.width == TUPLE_BYTES && IsTrace(trace)
    ensures Calm(env, p, trace, [ConsumerRuns])
    ensures
      var w := Pipeline.Exec(env, p, trace, [ConsumerRuns]);
      ReaderAt(w, 0) && w.prod.phase.Begin? && w.prod.idx == 0 && Published(w) && w.ring.wpc.WIdle?
  {
    assert [ConsumerRuns][..0] == [];
    assert Pipeline.Exec(env, p, trace, []) == Start(env, p);
  }

  /**
   For every ring and every batch, and any two packets of rising intervals, some
   trace and some schedule leave a pipeline that no continuation finishes.
   */
  lemma PipelineCanStall(env: Env, p: Params, a: Tuple, b: Tuple) returns (trace: seq<Tuple>, run: seq<Thread>)
    requires Rises(env, p, a, b)
    ensures IsTrace(trace)
    ensures forall more :: !Pipeline.Exec(env, p, trace, run + more).cons.c.over
  {
    var m := if p.size == 2 then 1 else if p.size > 2 then p.size - 2 else 0;
    StallTraceOk(env, p, a, b, m);
    if p.batch >= p.size {
      trace, run := OneInterval(p, a), [];
      forall more
        ensures !Pipeline.Exec(env, p, trace, run + more).cons.c.over
      {
        LargeBatchNeverFinishes(env, p, a, run + more);
      }
    } else {
      trace := StallTrace(a, b, m);
      ReadyFirst(env, p, trace);
      var begin, d := [ConsumerRuns], 0;
      if p.size == 2 {
        begin := WarmUp(env, p, a, b);
        d := 1;
      }
      run := StallFrom(env, p, a, b, begin, m, d);
      forall more
        ensures !Pipeline.Exec(env, p, trace, run + more).cons.c.over
      {
        StuckForever(env, p, trace, run, more);
      }
    }
  }
}
