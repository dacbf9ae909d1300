/**
 Progress of the whole pipeline.  As long as no consumer step falls between a
 flush's load of nextReadIndex and its store to readIndex, every schedule in
 which both threads keep taking steps finishes, after a number of rounds that is
 linear in the trace; and every reachable state can be continued to the end.
 */
module PipelineProgress {
  import opened RingMachine
  import opened PipelineSpec
  import opened Pipeline
  import RingSafety
  import RingProgress

  // ---- schedules that leave a flush's load and store together ----

  ghost predicate Calm(env: Env, p: Params, trace: seq<Tuple>, run: seq<Thread>)
    requires env.Ok() && p.Ok() && p.width == TUPLE_BYTES && IsTrace(trace)
  {
    run == [] ||
    (Calm(env, p, trace, run[..|run| - 1])
     && (run[|run| - 1].ConsumerRuns? ==> !Pipeline.Exec(env, p, trace, run[..|run| - 1]).ring.wpc.FStore?))
  }

  /** The ring's batches are in order, readIndex does not lag, and a flush stores what is still current. */
  ghost predicate SteadyRing(p: Params, s: State)
    requires p.Ok()
  {
    && RingProgress.Batches(p, s) && !RingProgress.Lagging(s)
    && (s.wpc.FStore? ==> s.h.flushed == |s.h.delivered|)
  }

  /** Once a flush has stored writeIndex, everything written is published until the producer goes on. */
  ghost predicate Published(w: World) {
    w.prod.phase.Await? || w.prod.phase.Over? || (Flushing(w.prod) && w.prod.called && !w.ring.wpc.FPublish?) ==>
      w.ring.h.write == |w.ring.h.written|
  }

  ghost predicate Steady(p: Params, w: World)
    requires p.Ok()
  {
    SteadyRing(p, w.ring) && Published(w)
  }

  lemma RingStaysSteady(p: Params, s: State, a: Action)
    requires p.Ok() && SteadyRing(p, s) && (s.wpc.FStore? ==> a != ReaderStep)
    ensures SteadyRing(p, Act(p, s, a))
  {
    RingProgress.ActKeepsBatches(p, s, a);
    RingProgress.OnlyStaleFlushLags(p, s, a);
    if a.ReaderStep? {
      RingProgress.StepsKeepApart(p, s);
    }
  }

  lemma ProducerStaysSteady(env: Env, p: Params, trace: seq<Tuple>, w: World)
    requires Pipeline.Inv(env, p, trace, w) && Steady(p, w)
    ensures var v := ProducerStep(env, p, trace, w); Steady(p, v)
  {
    ProducerRing(env, p, trace, w);
    RingStaysSteady(p, w.ring, WriterStep);
    RingStaysSteady(p, w.ring, FlushCall);
    RingStaysSteady(p, w.ring, WriteCall(w.prod.t));
    ProducerPublishes(env, p, trace, w);
  }

  lemma ProducerPublishes(env: Env, p: Params, trace: seq<Tuple>, w: World)
    requires IsTrace(trace) && IsTuple(w.prod.t) && CallMatches(w.prod, w.ring.wpc) && Published(w)
    ensures Published(ProducerStep(env, p, trace, w))
  {
  }

  lemma ConsumerStaysSteady(env: Env, p: Params, trace: seq<Tuple>, w: World)
    requires Pipeline.Inv(env, p, trace, w) && Steady(p, w) && !w.ring.wpc.FStore?
    ensures var v := ConsumerStep(env, p, w); Steady(p, v)
  {
    ConsumerRing(env, p, w);
    ConsumerFrame(env, p, w);
    RingStaysSteady(p, w.ring, ReaderStep);
    RingStaysSteady(p, w.ring, ReadCall);
    RingProgress.StepsKeepApart(p, w.ring);
  }

  lemma StaysSteady(env: Env, p: Params, trace: seq<Tuple>, w: World, th: Thread)
    requires Pipeline.Inv(env, p, trace, w) && Steady(p, w) && (th.ConsumerRuns? ==> !w.ring.wpc.FStore?)
    ensures Steady(p, Step(env, p, trace, w, th))
  {
    match th
    case ProducerRuns => ProducerStaysSteady(env, p, trace, w);
    case ConsumerRuns => ConsumerStaysSteady(env, p, trace, w);
  }

  lemma StartIsSteady(env: Env, p: Params)
    requires env.Ok() && p.Ok()
    ensures Steady(p, Start(env, p))
  {
  }

  lemma {:induction false} CalmIsSteady(env: Env, p: Params, trace: seq<Tuple>, run: seq<Thread>)
    requires env.Ok() && p.Ok() && p.width == TUPLE_BYTES && IsTrace(trace) && Calm(env, p, trace, run)
    ensures Steady(p, Pipeline.Exec(env, p, trace, run))
    decreases |run|
  {
    if run == [] {
      StartIsSteady(env, p);
    } else {
      var before, th := run[..|run| - 1], run[|run| - 1];
      CalmIsSteady(env, p, trace, before);
      StaysSteady(env, p, trace, Pipeline.Exec(env, p, trace, before), th);
    }
  }

  // ---- waiting ----

  /** The current attempt to write has not been accepted: not started, at its check, or refused. */
  predicate WriterTrying(q: Producer, s: State) {
    Sending(q) && (!q.called || s.wpc.WCheck? || (s.wpc.WIdle? && !s.wrote))
  }

  predicate ReaderTrying(k: Consumer, s: State) {
    k.ready && !k.c.over && (!k.called || s.rpc.RCheck? || (s.rpc.RIdle? && !s.got))
  }

  /** Full by the writer's cached index and by the shared one. */
  predicate RingFull(p: Params, s: State) {
    NextVal(p, s.m.nextWriteIndex) == s.m.localReadIndex && NextVal(p, s.m.nextWriteIndex) == s.m.readIndex
  }

  /** The producer cannot get on by itself: its writes are refused, or it stands at the semaphore, or it is done. */
  predicate ProducerWaits(p: Params, w: World) {
    || (WriterTrying(w.prod, w.ring) && RingFull(p, w.ring))
    || ((w.prod.phase.Begin? || w.prod.phase.Await?) && w.sem == 0)
    || w.prod.phase.Over?
  }

  /** The consumer cannot get on by itself: its reads find nothing published. */
  predicate ConsumerWaits(w: World) {
    ReaderTrying(w.cons, w.ring) && |w.ring.h.delivered| == w.ring.h.write
  }

  // ---- what is left to do, as one number ----

  function Minus(a: int, b: int): nat {
    if a >= b then a - b else 0
  }

  /** Accesses left in the producer's call once it is accepted; a tuple has TUPLE_BYTES = 26 bytes. */
  function CallRank(q: Producer, s: State): nat {
    if Sending(q) then
      if WriterTrying(q, s) then 31
      else
        match s.wpc
        case WRefresh(_) => 30
        case WCopy(_, k) => Minus(26, k) + 3
        case WCount => 2
        case WPublish => 1
        case _ => 0
    else if Flushing(q) then
      if !q.called then 4
      else if s.wpc.FPublish? then 3
      else if s.wpc.FLoad? then 2
      else if s.wpc.FStore? then 1
      else 0
    else 0
  }

  /** What the rest of the producer's loop costs after the current call. */
  function PhaseRank(f: Phase): nat {
    match f
    case SendPunc(_) => 77
    case FlushPunc(_) => 72
    case Await(_) => 71
    case Send => 39
    case Begin => 39
    case Fetch => 38
    case SendTerm => 6
    case FlushTerm => 1
    case Over => 0
  }

  function ReadRank(k: Consumer, s: State): nat {
    if !k.ready then 32
    else if ReaderTrying(k, s) then 31
    else
      match s.rpc
      case RRefresh => 30
      case RCopy(n) => Minus(26, n) + 3
      case RCount => 2
      case RPublish => 1
      case _ => 0
  }

  /** Steps from an attempt that would now succeed to its acceptance. */
  function TryRank(called: bool, idle: bool): nat {
    if !called then 2 else if idle then 3 else 1
  }

  function WriteTry(p: Params, q: Producer, s: State): nat {
    if WriterTrying(q, s) && !RingFull(p, s) then TryRank(q.called, s.wpc.WIdle?) else 0
  }

  function ReadTry(k: Consumer, s: State): nat {
    if ReaderTrying(k, s) && |s.h.delivered| != s.h.write then TryRank(k.called, s.rpc.RIdle?) else 0
  }

  function ProducerCost(trace: seq<Tuple>, w: World): nat {
    71 * Minus(|trace|, w.prod.idx) + PhaseRank(w.prod.phase) + CallRank(w.prod, w.ring)
  }

  function ConsumerCost(env: Env, trace: seq<Tuple>, w: World): nat
    requires IsTrace(trace)
  {
    32 * Minus(|Script(env, trace, |trace|)| + 1, w.cons.seen) + ReadRank(w.cons, w.ring)
  }

  /**
   The measure.  A step of one thread that leads somewhere lowers the cost of
   that thread; it may end the other's waiting, whose attempt then needs up to
   three steps, so costs weigh four times as much as attempts.
   */
  function Measure(env: Env, p: Params, trace: seq<Tuple>, w: World): nat
    requires IsTrace(trace)
  {
    4 * (ProducerCost(trace, w) + ConsumerCost(env, trace, w))
    + WriteTry(p, w.prod, w.ring) + ReadTry(w.cons, w.ring)
  }

  // ---- a producer step ----

  /** The producer either only repeats a refused attempt, or gets on. */
  ghost predicate ProducerMoved(p: Params, trace: seq<Tuple>, w: World, v: World) {
    if ProducerWaits(p, w) then
      ProducerWaits(p, v) && v.ring.h == w.ring.h && ProducerCost(trace, v) == ProducerCost(trace, w)
    else
      || ProducerCost(trace, v) < ProducerCost(trace, w)
      || (ProducerCost(trace, v) == ProducerCost(trace, w) && v.ring.h == w.ring.h
          && WriteTry(p, v.prod, v.ring) < WriteTry(p, w.prod, w.ring))
  }

  lemma WriterStepMoves(p: Params, q: Producer, s: State)
    requires CallMatches(q, s.wpc) && !s.wpc.WIdle?
    requires s.wpc.WCheck? ==> NextVal(p, s.m.nextWriteIndex) == s.m.localReadIndex
    requires s.wpc.WCopy? ==> |s.wpc.tuple| == 26
    ensures
      var t := WriterStepOf(p, s);
      if WriterTrying(q, s) && RingFull(p, s) then WriterTrying(q, t) && RingFull(p, t) && t.h == s.h
      else CallRank(q, t) < CallRank(q, s) && !WriterTrying(q, t)
  {
  }

  lemma RingStepMoves(env: Env, p: Params, trace: seq<Tuple>, w: World)
    requires Pipeline.Inv(env, p, trace, w) && !w.ring.wpc.WIdle?
    ensures ProducerMoved(p, trace, w, ProducerStep(env, p, trace, w))
  {
    RingSafety.FullTest(p, w.ring);
    WriterStepMoves(p, w.prod, w.ring);
  }

  /** The same for the steps between ring calls. */
  lemma LoopStepMoves(env: Env, p: Params, trace: seq<Tuple>, w: World)
    requires IsTrace(trace) && OnTrack(env, trace, w.prod) && CallMatches(w.prod, w.ring.wpc) && w.ring.wpc.WIdle?
    ensures ProducerMoved(p, trace, w, ProducerStep(env, p, trace, w))
  {
  }

  /** What a producer step costs or saves the consumer. */
  lemma ReaderSees(env: Env, p: Params, trace: seq<Tuple>, w: World)
    requires IsTrace(trace) && IsTuple(w.prod.t)
    ensures
      var v := ProducerStep(env, p, trace, w);
      && v.cons == w.cons && ConsumerCost(env, trace, v) == ConsumerCost(env, trace, w)
      && ReadTry(v.cons, v.ring) <= ReadTry(w.cons, w.ring) + 3
      && (v.ring.h == w.ring.h ==> ReadTry(v.cons, v.ring) == ReadTry(w.cons, w.ring))
  {
    ProducerFrame(env, p, trace, w);
  }

  lemma ProducerMoves(env: Env, p: Params, trace: seq<Tuple>, w: World)
    requires Pipeline.Inv(env, p, trace, w)
    ensures ProducerMoved(p, trace, w, ProducerStep(env, p, trace, w))
  {
    if w.ring.wpc.WIdle? {
      LoopStepMoves(env, p, trace, w);
    } else {
      RingStepMoves(env, p, trace, w);
    }
  }

  /** A producer step raises the measure never, and lowers it unless the producer waits. */
  lemma ProducerPays(env: Env, p: Params, trace: seq<Tuple>, w: World)
    requires Pipeline.Inv(env, p, trace, w)
    ensures
      var v := ProducerStep(env, p, trace, w);
      && v.cons == w.cons && (ProducerWaits(p, w) ==> ConsumerWaits(v) == ConsumerWaits(w))
      && if ProducerWaits(p, w) then Measure(env, p, trace, v) == Measure(env, p, trace, w)
         else Measure(env, p, trace, v) < Measure(env, p, trace, w)
  {
    ProducerMoves(env, p, trace, w);
    ReaderSees(env, p, trace, w);
    MovedPays(env, p, trace, w, ProducerStep(env, p, trace, w));
  }

  lemma MovedPays(env: Env, p: Params, trace: seq<Tuple>, w: World, v: World)
    requires IsTrace(trace) && ProducerMoved(p, trace, w, v)
    requires ConsumerCost(env, trace, v) == ConsumerCost(env, trace, w)
    requires ReadTry(v.cons, v.ring) <= ReadTry(w.cons, w.ring) + 3
    requires v.ring.h == w.ring.h ==> ReadTry(v.cons, v.ring) == ReadTry(w.cons, w.ring)
    requires WriterTrying(v.prod, v.ring) && !WriterTrying(w.prod, w.ring) ==> v.ring.h == w.ring.h
    ensures if ProducerWaits(p, w) then Measure(env, p, trace, v) == Measure(env, p, trace, w)
            else Measure(env, p, trace, v) < Measure(env, p, trace, w)
  {
  }

  // ---- a consumer step ----

  /** The consumer either only repeats a read that finds nothing, or gets on. */
  ghost predicate ConsumerMoved(env: Env, trace: seq<Tuple>, w: World, v: World)
    requires IsTrace(trace)
  {
    if ConsumerWaits(w) then
      v.ring.m == w.ring.m && v.ring.h == w.ring.h && ConsumerCost(env, trace, v) == ConsumerCost(env, trace, w)
      && ConsumerWaits(v)
    else
      || ConsumerCost(env, trace, v) < ConsumerCost(env, trace, w)
      || (ConsumerCost(env, trace, v) == ConsumerCost(env, trace, w) && v.ring.m == w.ring.m
          && ReadTry(v.cons, v.ring) < ReadTry(w.cons, w.ring))
  }

  lemma ReaderStepMoves(p: Params, k: Consumer, s: State)
    requires k.ready && !k.c.over && k.called && !s.rpc.RIdle? && |s.buf| == 26
    requires s.rpc.RCheck? ==> (s.m.nextReadIndex == s.m.writeIndex <==> |s.h.delivered| == s.h.write)
    ensures
      var t := ReaderStepOf(p, s);
      if ReaderTrying(k, s) && |s.h.delivered| == s.h.write then ReaderTrying(k, t) && t.m == s.m && t.h == s.h
      else ReadRank(k, t) < ReadRank(k, s) && !ReaderTrying(k, t)
  {
  }

  lemma RingReadMoves(env: Env, p: Params, trace: seq<Tuple>, w: World)
    requires Pipeline.Inv(env, p, trace, w) && w.cons.ready && !w.cons.c.over && !w.ring.rpc.RIdle?
    ensures ConsumerMoved(env, trace, w, ConsumerStep(env, p, w))
  {
    RingSafety.EmptyTest(p, w.ring);
    ReaderStepMoves(p, w.cons, w.ring);
  }

  lemma ReadLoopMoves(env: Env, p: Params, trace: seq<Tuple>, w: World)
    requires env.Ok() && IsTrace(trace) && w.ring.rpc.RIdle? && !w.cons.c.over
    requires SketchCountersSpec.Shaped(env.sh, w.cons.c.sk) && IsTuple(w.ring.buf)
    requires |w.ring.h.delivered| == w.ring.h.write ==> w.ring.m.nextReadIndex == w.ring.m.localWriteIndex
    requires w.cons.seen + (if w.cons.called && w.ring.got then 1 else 0) <= |Script(env, trace, |trace|)| + 1
    requires !w.cons.ready ==> !w.cons.called
    ensures ConsumerMoved(env, trace, w, ConsumerStep(env, p, w))
  {
  }

  lemma SeenWithinWhole(env: Env, p: Params, trace: seq<Tuple>, w: World)
    requires Pipeline.Inv(env, p, trace, w)
    ensures |w.ring.h.delivered| <= |Script(env, trace, |trace|)| + 1
  {
    var final := WrittenPrefix(env, p, trace, w);
  }

  lemma ConsumerMoves(env: Env, p: Params, trace: seq<Tuple>, w: World)
    requires Pipeline.Inv(env, p, trace, w) && !w.cons.c.over
    ensures ConsumerMoved(env, trace, w, ConsumerStep(env, p, w))
  {
    if w.ring.rpc.RIdle? {
      RingSafety.EmptyTest(p, w.ring);
      SeenWithinWhole(env, p, trace, w);
      ReadLoopMoves(env, p, trace, w);
    } else {
      RingReadMoves(env, p, trace, w);
    }
  }

  /** Reading never fills the ring. */
  lemma ReaderNeverFills(p: Params, s: State)
    requires RingSafety.Inv(p, s) && !RingFull(p, s)
    ensures !RingFull(p, ReaderStepOf(p, s))
  {
    RingSafety.FullTest(p, s);
    RingSafety.ReaderStepKeeps(p, s);
    RingSafety.FullTest(p, ReaderStepOf(p, s));
    RingProgress.StepsKeepApart(p, s);
  }

  /** What a consumer step costs or saves the producer. */
  lemma WriterSees(env: Env, p: Params, trace: seq<Tuple>, w: World)
    requires Pipeline.Inv(env, p, trace, w)
    ensures
      var v := ConsumerStep(env, p, w);
      && ProducerCost(trace, v) == ProducerCost(trace, w) && (!ProducerWaits(p, w) ==> !ProducerWaits(p, v))
      && WriteTry(p, v.prod, v.ring) <= WriteTry(p, w.prod, w.ring) + 3
      && (v.ring.m == w.ring.m ==> WriteTry(p, v.prod, v.ring) == WriteTry(p, w.prod, w.ring))
  {
    ConsumerFrame(env, p, w);
    if !RingFull(p, w.ring) {
      ReaderNeverFills(p, w.ring);
    }
  }

  /** A consumer step raises the measure never, and lowers it unless the consumer waits or has stopped. */
  lemma ConsumerPays(env: Env, p: Params, trace: seq<Tuple>, w: World)
    requires Pipeline.Inv(env, p, trace, w) && !w.cons.c.over
    ensures
      var v := ConsumerStep(env, p, w);
      && (!ProducerWaits(p, w) ==> !ProducerWaits(p, v))
      && if ConsumerWaits(w) then Measure(env, p, trace, v) == Measure(env, p, trace, w)
         else Measure(env, p, trace, v) < Measure(env, p, trace, w)
  {
    ConsumerMoves(env, p, trace, w);
    WriterSees(env, p, trace, w);
  }

  // ---- one of the two can always get on ----

  /** The producer waits at a punctuation that the consumer has not processed. */
  lemma AwaitMeansUnread(env: Env, trace: seq<Tuple>, q: Producer, k: Consumer, delivered: seq<Tuple>)
    requires env.Ok() && IsTrace(trace) && OnTrack(env, trace, q) && q.phase.Await? && k.ready
    requires k.seen == |delivered| && AreTuples(delivered[..k.seen])
    requires SemInv(env, trace, q, k, delivered, 0)
    ensures delivered != Script(env, trace, q.idx - 1) + [q.t]
  {
    var before := Script(env, trace, q.idx - 1);
    ScriptPuncs(env, trace, q.idx - 1);
    PuncsSnoc(before, q.t);
    assert delivered[..k.seen] == delivered;
  }

  lemma OverMeansUnread(env: Env, trace: seq<Tuple>, final: Tuple, delivered: seq<Tuple>)
    requires env.Ok() && IsTrace(trace) && IsTuple(final) && Flag(final) == TERM
    requires AreTuples(delivered) && !Consume(env, delivered).over
    ensures delivered != Script(env, trace, |trace|) + [final]
  {
    WholeTrace(env, trace, final);
  }

  /** Whenever the producer waits and the consumer has not stopped, the consumer has something to read. */
  lemma NotBothWait(env: Env, p: Params, trace: seq<Tuple>, w: World)
    requires Pipeline.Inv(env, p, trace, w) && Steady(p, w) && p.batch < p.size && ProducerWaits(p, w)
    ensures !ConsumerWaits(w)
  {
    if ConsumerWaits(w) {
      var d := w.ring.h.delivered;
      assert d[..w.cons.seen] == d;
      if w.prod.phase.Await? {
        AwaitMeansUnread(env, trace, w.prod, w.cons, d);
      } else if w.prod.phase.Over? {
        OverMeansUnread(env, trace, w.prod.t, d);
      } else if Sending(w.prod) {
        RingSafety.FullTest(p, w.ring);
        RingProgress.FullAndEmptyMeansLagging(p, w.ring);
      }
    }
  }

  // ---- runs ----

  lemma ExecSnoc(env: Env, p: Params, trace: seq<Tuple>, run: seq<Thread>, th: Thread)
    requires env.Ok() && p.Ok() && p.width == TUPLE_BYTES && IsTrace(trace)
    ensures Pipeline.Exec(env, p, trace, run + [th]) == Step(env, p, trace, Pipeline.Exec(env, p, trace, run), th)
  {
    assert (run + [th])[..|run|] == run;
  }

  lemma HeadFirst(run: seq<Thread>, more: seq<Thread>)
    requires more != []
    ensures run + more == (run + [more[0]]) + more[1..]
  {
  }

  lemma NothingMore(run: seq<Thread>)
    ensures run + [] == run
  {
  }

  lemma {:induction false} OverStaysOver(env: Env, p: Params, trace: seq<Tuple>, run: seq<Thread>, more: seq<Thread>)
    requires env.Ok() && p.Ok() && p.width == TUPLE_BYTES && IsTrace(trace)
    requires Pipeline.Exec(env, p, trace, run).cons.c.over
    ensures Pipeline.Exec(env, p, trace, run + more).cons.c.over
    decreases |more|
  {
    if more == [] {
      NothingMore(run);
    } else {
      OverOneMore(env, p, trace, run, more[0]);
      OverStaysOver(env, p, trace, run + [more[0]], more[1..]);
      HeadFirst(run, more);
    }
  }

  lemma OverOneMore(env: Env, p: Params, trace: seq<Tuple>, run: seq<Thread>, th: Thread)
    requires env.Ok() && p.Ok() && p.width == TUPLE_BYTES && IsTrace(trace)
    requires Pipeline.Exec(env, p, trace, run).cons.c.over
    ensures Pipeline.Exec(env, p, trace, run + [th]).cons.c.over
  {
    ExecSnoc(env, p, trace, run, th);
    ProducerFrame(env, p, trace, Pipeline.Exec(env, p, trace, run));
  }

  /** What the next step does to the measure and to the waiting of the thread that does not take it. */
  ghost predicate Paid(env: Env, p: Params, trace: seq<Tuple>, w: World, v: World, th: Thread)
    requires IsTrace(trace)
  {
    && Measure(env, p, trace, v) <= Measure(env, p, trace, w)
    && match th
       case ProducerRuns =>
         (!ProducerWaits(p, w) ==> Measure(env, p, trace, v) < Measure(env, p, trace, w))
         && (ProducerWaits(p, w) && !ConsumerWaits(w) ==> !ConsumerWaits(v))
       case ConsumerRuns =>
         (!ConsumerWaits(w) ==> Measure(env, p, trace, v) < Measure(env, p, trace, w))
         && (!ProducerWaits(p, w) ==> !ProducerWaits(p, v))
  }

  lemma StepPays(env: Env, p: Params, trace: seq<Tuple>, run: seq<Thread>, th: Thread)
    requires env.Ok() && p.Ok() && p.width == TUPLE_BYTES && IsTrace(trace)
    requires !Pipeline.Exec(env, p, trace, run).cons.c.over
    ensures Paid(env, p, trace, Pipeline.Exec(env, p, trace, run), Pipeline.Exec(env, p, trace, run + [th]), th)
  {
    ExecSnoc(env, p, trace, run, th);
    match th
    case ProducerRuns => ProducerPays(env, p, trace, Pipeline.Exec(env, p, trace, run));
    case ConsumerRuns => ConsumerPays(env, p, trace, Pipeline.Exec(env, p, trace, run));
  }

  /** A stretch of a run raises the measure never, and lowers it if it has a step of a thread that does not wait at its beginning. */
  lemma {:induction false} StretchPays(env: Env, p: Params, trace: seq<Tuple>, run: seq<Thread>, more: seq<Thread>)
    requires env.Ok() && p.Ok() && p.width == TUPLE_BYTES && IsTrace(trace)
    requires !Pipeline.Exec(env, p, trace, run + more).cons.c.over
    ensures
      var w, v := Pipeline.Exec(env, p, trace, run), Pipeline.Exec(env, p, trace, run + more);
      && Measure(env, p, trace, v) <= Measure(env, p, trace, w)
      && ((ProducerRuns in more && !ProducerWaits(p, w)) || (ConsumerRuns in more && !ConsumerWaits(w)) ==>
            Measure(env, p, trace, v) < Measure(env, p, trace, w))
    decreases |more|
  {
    if more == [] {
      NothingMore(run);
    } else {
      if Pipeline.Exec(env, p, trace, run).cons.c.over {
        OverStaysOver(env, p, trace, run, more);
      }
      StepPays(env, p, trace, run, more[0]);
      HeadFirst(run, more);
      StretchPays(env, p, trace, run + [more[0]], more[1..]);
    }
  }

  // ---- every fair schedule finishes ----

  ghost predicate Both(round: seq<Thread>) {
    ProducerRuns in round && ConsumerRuns in round
  }

  /** The rounds of a schedule, one after the other. */
  function Flat(rounds: seq<seq<Thread>>): seq<Thread> {
    if rounds == [] then [] else Flat(rounds[..|rounds| - 1]) + rounds[|rounds| - 1]
  }

  lemma {:induction false} CalmPrefix(env: Env, p: Params, trace: seq<Tuple>, run: seq<Thread>, more: seq<Thread>)
    requires env.Ok() && p.Ok() && p.width == TUPLE_BYTES && IsTrace(trace) && Calm(env, p, trace, run + more)
    ensures Calm(env, p, trace, run)
    decreases |more|
  {
    if more == [] {
      NothingMore(run);
    } else {
      assert (run + more)[..|run + more| - 1] == run + more[..|more| - 1];
      CalmPrefix(env, p, trace, run, more[..|more| - 1]);
    }
  }

  lemma SomeoneMoves(env: Env, p: Params, trace: seq<Tuple>, run: seq<Thread>)
    requires env.Ok() && p.Ok() && p.width == TUPLE_BYTES && IsTrace(trace) && p.batch < p.size
    requires Calm(env, p, trace, run)
    ensures var w := Pipeline.Exec(env, p, trace, run); !ProducerWaits(p, w) || !ConsumerWaits(w)
  {
    CalmIsSteady(env, p, trace, run);
    var w := Pipeline.Exec(env, p, trace, run);
    if ProducerWaits(p, w) {
      NotBothWait(env, p, trace, w);
    }
  }

  /** A round in which both threads take a step lowers the measure. */
  lemma RoundPays(env: Env, p: Params, trace: seq<Tuple>, run: seq<Thread>, round: seq<Thread>)
    requires env.Ok() && p.Ok() && p.width == TUPLE_BYTES && IsTrace(trace) && p.batch < p.size
    requires Calm(env, p, trace, run) && Both(round) && !Pipeline.Exec(env, p, trace, run + round).cons.c.over
    ensures Measure(env, p, trace, Pipeline.Exec(env, p, trace, run + round)) <
            Measure(env, p, trace, Pipeline.Exec(env, p, trace, run))
  {
    SomeoneMoves(env, p, trace, run);
    StretchPays(env, p, trace, run, round);
  }

  lemma {:induction false} RoundsPay(env: Env, p: Params, trace: seq<Tuple>, rounds: seq<seq<Thread>>)
    requires env.Ok() && p.Ok() && p.width == TUPLE_BYTES && IsTrace(trace) && p.batch < p.size
    requires Calm(env, p, trace, Flat(rounds)) && forall i :: 0 <= i < |rounds| ==> Both(rounds[i])
    ensures
      var w := Pipeline.Exec(env, p, trace, Flat(rounds));
      w.cons.c.over || Measure(env, p, trace, w) + |rounds| <= Measure(env, p, trace, Start(env, p))
    decreases |rounds|
  {
    if rounds != [] {
      var before, last := rounds[..|rounds| - 1], rounds[|rounds| - 1];
      CalmPrefix(env, p, trace, Flat(before), last);
      RoundsPay(env, p, trace, before);
      if Pipeline.Exec(env, p, trace, Flat(before)).cons.c.over {
        OverStaysOver(env, p, trace, Flat(before), last);
      } else if !Pipeline.Exec(env, p, trace, Flat(rounds)).cons.c.over {
        RoundPays(env, p, trace, Flat(before), last);
      }
    }
  }

  lemma {:induction false} ScriptLength(env: Env, trace: seq<Tuple>, n: nat)
    requires IsTrace(trace) && n <= |trace|
    ensures |Script(env, trace, n)| <= 2 * n
    decreases n
  {
    if n > 0 {
      ScriptLength(env, trace, n - 1);
    }
  }

  lemma MeasureAtStart(env: Env, p: Params, trace: seq<Tuple>)
    requires env.Ok() && IsTrace(trace)
    ensures Measure(env, p, trace, Start(env, p)) <= 540 * |trace| + 412
  {
    ScriptLength(env, trace, |trace|);
  }

  /**
   For every batch smaller than the ring: a schedule that leaves a flush's load
   and store together, and in which both threads keep taking steps, has stopped
   the consumer after a number of rounds that is linear in the trace, with
   exactly the sketches of the trace's intervals emitted.
   */
  lemma FairRunsFinish(env: Env, p: Params, trace: seq<Tuple>, rounds: seq<seq<Thread>>)
    requires env.Ok() && p.Ok() && p.width == TUPLE_BYTES && IsTrace(trace) && p.batch < p.size
    requires Calm(env, p, trace, Flat(rounds)) && forall i :: 0 <= i < |rounds| ==> Both(rounds[i])
    requires |rounds| > 540 * |trace| + 412
    ensures AllGood(env, Segments(env, trace, |trace|))
    ensures
      var c := Pipeline.Exec(env, p, trace, Flat(rounds)).cons.c;
      c.over && c.emitted == SketchesOf(env, Segments(env, trace, |trace|))
  {
    MeasureAtStart(env, p, trace);
    RoundsPay(env, p, trace, rounds);
    EmitsIntervals(env, p, trace, Flat(rounds));
  }

  // ---- and every calm schedule can be continued to the end ----

  /** The thread that a helpful scheduler runs next. */
  function Choice(p: Params, w: World): Thread {
    if ProducerWaits(p, w) then ConsumerRuns else ProducerRuns
  }

  lemma ChoicePays(env: Env, p: Params, trace: seq<Tuple>, run: seq<Thread>)
    requires env.Ok() && p.Ok() && p.width == TUPLE_BYTES && IsTrace(trace) && p.batch < p.size
    requires Calm(env, p, trace, run) && !Pipeline.Exec(env, p, trace, run).cons.c.over
    ensures
      var w := Pipeline.Exec(env, p, trace, run);
      var next := run + [Choice(p, w)];
      Calm(env, p, trace, next)
      && Measure(env, p, trace, Pipeline.Exec(env, p, trace, next)) < Measure(env, p, trace, w)
  {
    var w := Pipeline.Exec(env, p, trace, run);
    SomeoneMoves(env, p, trace, run);
    StepPays(env, p, trace, run, Choice(p, w));
    if ProducerWaits(p, w) {
      WaitingIsCalm(p, w);
    }
    CalmSnoc(env, p, trace, run, Choice(p, w));
  }

  lemma WaitingIsCalm(p: Params, w: World)
    requires CallMatches(w.prod, w.ring.wpc) && ProducerWaits(p, w)
    ensures !w.ring.wpc.FStore?
  {
  }

  lemma CalmSnoc(env: Env, p: Params, trace: seq<Tuple>, run: seq<Thread>, th: Thread)
    requires env.Ok() && p.Ok() && p.width == TUPLE_BYTES && IsTrace(trace) && Calm(env, p, trace, run)
    requires th.ConsumerRuns? ==> !Pipeline.Exec(env, p, trace, run).ring.wpc.FStore?
    ensures Calm(env, p, trace, run + [th])
  {
    assert (run + [th])[..|run|] == run;
  }

  lemma {:induction false} Finish(env: Env, p: Params, trace: seq<Tuple>, run: seq<Thread>, m: nat)
    returns (more: seq<Thread>)
    requires env.Ok() && p.Ok() && p.width == TUPLE_BYTES && IsTrace(trace) && p.batch < p.size
    requires Calm(env, p, trace, run) && m == Measure(env, p, trace, Pipeline.Exec(env, p, trace, run))
    ensures Pipeline.Exec(env, p, trace, run + more).cons.c.over
    decreases m
  {
    more := [];
    NothingMore(run);
    if !Pipeline.Exec(env, p, trace, run).cons.c.over {
      var th := Choice(p, Pipeline.Exec(env, p, trace, run));
      ChoicePays(env, p, trace, run);
      var rest := Finish(env, p, trace, run + [th], Measure(env, p, trace, Pipeline.Exec(env, p, trace, run + [th])));
      more := [th] + rest;
      HeadFirst(run, more);
    }
  }

  /** Whatever the two threads have done so far in such a schedule, they can go on until the consumer has stopped. */
  lemma CanAlwaysFinish(env: Env, p: Params, trace: seq<Tuple>, run: seq<Thread>) returns (more: seq<Thread>)
    requires env.Ok() && p.Ok() && p.width == TUPLE_BYTES && IsTrace(trace) && p.batch < p.size
    requires Calm(env, p, trace, run)
    ensures AllGood(env, Segments(env, trace, |trace|))
    ensures
      var c := Pipeline.Exec(env, p, trace, run + more).cons.c;
      c.over && c.emitted == SketchesOf(env, Segments(env, trace, |trace|))
  {
    more := Finish(env, p, trace, run, Measure(env, p, trace, Pipeline.Exec(env, p, trace, run)));
    EmitsIntervals(env, p, trace, run + more);
  }
}
