/**
 The two threads of dp_simulate.c on the ring buffer.  The producer's loop and
 the consumer's loop advance one observable access at a time, in any order; the
 semaphore holds the producer at each punctuation until the consumer has
 finished the interval.
 */
module Pipeline {
  import opened Bits
  import opened RingMachine
  import opened RingSafety
  import opened PipelineSpec

  /** Where the producer's loop is.  `cur` is the interval that a cut opens. */
  datatype Phase =
    | Begin                      // waits for the consumer thread to be ready
    | Fetch
    | Send
    | SendPunc(cur: nat)
    | FlushPunc(cur: nat)
    | Await(cur: nat)            // sem_wait after a punctuation
    | SendTerm
    | FlushTerm
    | Over

  /** `called` says that a ring call of this phase has been started. */
  datatype Producer = Producer(idx: nat, last: nat, t: Tuple, phase: Phase, called: bool)

  /** `seen` counts the tuples that have been processed. */
  datatype Consumer = Consumer(ready: bool, called: bool, seen: nat, c: Consumed)

  datatype World = World(ring: State, prod: Producer, cons: Consumer, sem: nat)

  datatype Thread = ProducerRuns | ConsumerRuns

  function Start(env: Env, p: Params): World
    requires env.Ok()
  {
    World(Init(p), Producer(0, 0, Zeros(TUPLE_BYTES), Begin, false), Consumer(false, false, 0, Fresh(env)), 0)
  }

  // ---- the producer ----

  function FetchStep(env: Env, trace: seq<Tuple>, q: Producer): Producer
    requires IsTuple(q.t) && forall i :: 0 <= i < |trace| ==> IsTuple(trace[i])
  {
    if q.idx >= |trace| then q.(t := WithFlag(q.t, TERM), phase := SendTerm)
    else
      var t := trace[q.idx];
      var cur := env.interval(t);
      if q.last == 0 then q.(idx := q.idx + 1, t := t, last := cur, phase := Send)
      else if cur > q.last then q.(idx := q.idx + 1, t := WithFlag(t, PUNC), phase := SendPunc(cur))
      else q.(idx := q.idx + 1, t := t, phase := Send)
  }

  /** while (write_ringbuffer(...) < 0) {}: start a call, or act on the result of the one that ended. */
  function SendStep(p: Params, w: World, then_: Phase): World {
    if !w.prod.called then
      w.(ring := WriteCallStep(p, w.ring, w.prod.t), prod := w.prod.(called := true))
    else if w.ring.wrote then w.(prod := w.prod.(called := false, phase := then_))
    else w.(prod := w.prod.(called := false))
  }

  function FlushStep(w: World, then_: Phase): World {
    if !w.prod.called then w.(ring := w.ring.(wpc := FPublish), prod := w.prod.(called := true))
    else w.(prod := w.prod.(called := false, phase := then_))
  }

  function ProducerStep(env: Env, p: Params, trace: seq<Tuple>, w: World): World
    requires IsTuple(w.prod.t) && forall i :: 0 <= i < |trace| ==> IsTuple(trace[i])
  {
    if !w.ring.wpc.WIdle? then w.(ring := WriterStepOf(p, w.ring))
    else
      match w.prod.phase
      case Begin => if w.sem > 0 then w.(sem := w.sem - 1, prod := w.prod.(phase := Fetch)) else w
      case Fetch => w.(prod := FetchStep(env, trace, w.prod))
      case Send => SendStep(p, w, Fetch)
      case SendPunc(cur) => SendStep(p, w, FlushPunc(cur))
      case FlushPunc(cur) => FlushStep(w, Await(cur))
      case Await(cur) =>
        if w.sem > 0 then
          w.(sem := w.sem - 1, prod := w.prod.(t := WithFlag(w.prod.t, NORMAL), last := cur, phase := Send))
        else w
      case SendTerm => SendStep(p, w, FlushTerm)
      case FlushTerm => FlushStep(w, Over)
      case Over => w
  }

  // ---- the consumer ----

  /** A tuple has been read: process it; a punctuation also posts the semaphore. */
  function ProcessStep(env: Env, w: World): World
    requires env.Ok() && SketchCountersSpec.Shaped(env.sh, w.cons.c.sk) && IsTuple(w.ring.buf)
  {
    var t := w.ring.buf;
    w.(cons := w.cons.(called := false, seen := w.cons.seen + 1, c := Consume1(env, w.cons.c, t)),
       sem := if Flag(t) == PUNC then w.sem + 1 else w.sem)
  }

  function ConsumerStep(env: Env, p: Params, w: World): World
    requires env.Ok() && SketchCountersSpec.Shaped(env.sh, w.cons.c.sk) && IsTuple(w.ring.buf)
  {
    if !w.cons.ready then w.(cons := w.cons.(ready := true), sem := w.sem + 1)
    else if w.cons.c.over then w
    else if !w.ring.rpc.RIdle? then w.(ring := ReaderStepOf(p, w.ring))
    else if !w.cons.called then w.(ring := ReadCallStep(w.ring), cons := w.cons.(called := true))
    else if !w.ring.got then w.(cons := w.cons.(called := false))
    else ProcessStep(env, w)
  }

  // ---- what a ring step shows to the thread that takes it ----

  /** The writer's program counter, last result and written tuples, before and after one of its steps. */
  ghost predicate WriterMove(a: WriterPc, r: bool, ts: seq<Tuple>, a': WriterPc, r': bool, ts': seq<Tuple>) {
    match a
    case WIdle => a' == a && r' == r && ts' == ts
    case WCheck(x) => ts' == ts && ((a' == WIdle && !r') || (a' == WRefresh(x) && r' == r))
    case WRefresh(x) => a' == WCopy(x, 0) && r' == r && ts' == ts
    case WCopy(x, k) =>
      if k < |x| then a' == WCopy(x, k + 1) && r' == r && ts' == ts
      else a' == WCount && r' == r && ts' == ts + [x]
    case WCount => ts' == ts && ((a' == WPublish && r' == r) || (a' == WIdle && r'))
    case WPublish => a' == WIdle && r' && ts' == ts
    case FPublish => a' == FLoad && r' == r && ts' == ts
    case FLoad => a'.FStore? && r' == r && ts' == ts
    case FStore(_) => a' == WIdle && r' == r && ts' == ts
  }

  lemma WriterMoves(p: Params, s: State)
    ensures
      var t := WriterStepOf(p, s);
      && WriterMove(s.wpc, s.wrote, s.h.written, t.wpc, t.wrote, t.h.written)
      && t.rpc == s.rpc && t.got == s.got && t.buf == s.buf && t.h.delivered == s.h.delivered
  {
  }

  /** The same for the reader, with the caller's buffer. */
  ghost predicate ReaderMove(a: ReaderPc, r: bool, b: Tuple, ts: seq<Tuple>,
                             a': ReaderPc, r': bool, b': Tuple, ts': seq<Tuple>) {
    match a
    case RIdle => a' == a && r' == r && b' == b && ts' == ts
    case RCheck => b' == b && ts' == ts && ((a' == RIdle && !r') || (a' == RRefresh && r' == r))
    case RRefresh => a' == RCopy(0) && r' == r && b' == b && ts' == ts
    case RCopy(k) =>
      if k < |b| then a' == RCopy(k + 1) && r' == r && |b'| == |b| && ts' == ts
      else a' == RCount && r' == r && b' == b && ts' == ts + [b]
    case RCount => b' == b && ts' == ts && ((a' == RPublish && r' == r) || (a' == RIdle && r'))
    case RPublish => a' == RIdle && r' && b' == b && ts' == ts
  }

  lemma ReaderMoves(p: Params, s: State)
    ensures
      var t := ReaderStepOf(p, s);
      && ReaderMove(s.rpc, s.got, s.buf, s.h.delivered, t.rpc, t.got, t.buf, t.h.delivered)
      && t.wpc == s.wpc && t.wrote == s.wrote && t.h.written == s.h.written
  {
  }

  // ---- what every step keeps: the producer ----

  predicate Sending(q: Producer) {
    q.phase.Send? || q.phase.SendPunc? || q.phase.SendTerm?
  }

  predicate Flushing(q: Producer) {
    q.phase.FlushPunc? || q.phase.FlushTerm?
  }

  /** The tuple being sent is already in the ring. */
  predicate Appended(q: Producer, a: WriterPc, wrote: bool) {
    q.called && (a.WCount? || a.WPublish? || (a.WIdle? && wrote))
  }

  /** What will have been written once the current send is over; otherwise what has been written. */
  ghost function Target(env: Env, trace: seq<Tuple>, q: Producer): seq<Tuple>
    requires IsTrace(trace) && q.idx <= |trace|
  {
    if q.phase.SendPunc? || q.phase.FlushPunc? || q.phase.Await? then
      if q.idx == 0 then [] else Script(env, trace, q.idx - 1) + [q.t]
    else if q.phase.SendTerm? || q.phase.FlushTerm? || q.phase.Over? then
      Script(env, trace, q.idx) + [q.t]
    else Script(env, trace, q.idx)
  }

  /** The writer's program counter is that of the producer's current call. */
  ghost predicate CallMatches(q: Producer, a: WriterPc) {
    if !q.called then a.WIdle?
    else if Sending(q) then
      match a
      case WCheck(x) => x == q.t
      case WRefresh(x) => x == q.t
      case WCopy(x, _) => x == q.t
      case FPublish => false
      case FLoad => false
      case FStore(_) => false
      case _ => true
    else Flushing(q) && (a.WIdle? || a.FPublish? || a.FLoad? || a.FStore?)
  }

  /** The packet just fetched opens interval cur, and t is its punctuation. */
  ghost predicate PuncDue(env: Env, trace: seq<Tuple>, q: Producer, cur: nat)
    requires IsTrace(trace) && q.idx <= |trace|
  {
    && q.idx > 0 && CutBefore(env, trace, q.idx - 1) && cur == env.interval(trace[q.idx - 1])
    && q.t == WithFlag(trace[q.idx - 1], PUNC)
  }

  /** The producer's variables agree with the trace; in particular last_interval is the highest so far. */
  ghost predicate OnTrack(env: Env, trace: seq<Tuple>, q: Producer)
    requires IsTrace(trace)
  {
    && IsTuple(q.t) && q.idx <= |trace|
    && match q.phase
       case Begin => q.idx == 0 && q.last == 0
       case Fetch => q.last == Highest(env, trace, q.idx)
       case Send => q.last == Highest(env, trace, q.idx)
       case SendPunc(cur) => PuncDue(env, trace, q, cur)
       case FlushPunc(cur) => PuncDue(env, trace, q, cur)
       case Await(cur) => PuncDue(env, trace, q, cur)
       case _ => q.idx == |trace| && Flag(q.t) == TERM
  }

  ghost predicate ProducerInv(env: Env, trace: seq<Tuple>, q: Producer, a: WriterPc, wrote: bool, written: seq<Tuple>)
    requires IsTrace(trace)
  {
    && OnTrack(env, trace, q) && CallMatches(q, a)
    && if Sending(q) && !Appended(q, a, wrote) then Target(env, trace, q) == written + [q.t]
       else Target(env, trace, q) == written
  }

  lemma WriterStepKeepsProducer(env: Env, trace: seq<Tuple>, q: Producer,
                                a: WriterPc, r: bool, ts: seq<Tuple>, a': WriterPc, r': bool, ts': seq<Tuple>)
    requires IsTrace(trace) && ProducerInv(env, trace, q, a, r, ts) && !a.WIdle? && WriterMove(a, r, ts, a', r', ts')
    ensures ProducerInv(env, trace, q, a', r', ts')
  {
  }

  lemma FetchKeepsProducer(env: Env, trace: seq<Tuple>, q: Producer, r: bool, ts: seq<Tuple>)
    requires IsTrace(trace) && ProducerInv(env, trace, q, WIdle, r, ts) && q.phase.Fetch? && !q.called
    ensures ProducerInv(env, trace, FetchStep(env, trace, q), WIdle, r, ts)
  {
  }

  lemma AwaitKeepsProducer(env: Env, trace: seq<Tuple>, q: Producer, r: bool, ts: seq<Tuple>)
    requires IsTrace(trace) && ProducerInv(env, trace, q, WIdle, r, ts) && q.phase.Await?
    ensures ProducerInv(env, trace, q.(t := WithFlag(q.t, NORMAL), last := q.phase.cur, phase := Send), WIdle, r, ts)
  {
    var t := trace[q.idx - 1];
    assert WithFlag(q.t, NORMAL) == WithFlag(t, NORMAL);
    assert Script(env, trace, q.idx) == (Script(env, trace, q.idx - 1) + [q.t]) + [WithFlag(t, NORMAL)];
  }

  /** The phase after a tuple has been sent, or a flush has returned. */
  function NextPhase(f: Phase): Phase {
    match f
    case Send => Fetch
    case SendPunc(cur) => FlushPunc(cur)
    case FlushPunc(cur) => Await(cur)
    case SendTerm => FlushTerm
    case FlushTerm => Over
    case _ => f
  }

  lemma CallKeepsProducer(env: Env, trace: seq<Tuple>, q: Producer, r: bool, ts: seq<Tuple>, a': WriterPc)
    requires IsTrace(trace) && ProducerInv(env, trace, q, WIdle, r, ts) && !q.called
    requires if Sending(q) then a' == WCheck(q.t) || a' == WCopy(q.t, 0) else Flushing(q) && a' == FPublish
    ensures ProducerInv(env, trace, q.(called := true), a', r, ts)
  {
  }

  lemma ReturnKeepsProducer(env: Env, trace: seq<Tuple>, q: Producer, r: bool, ts: seq<Tuple>)
    requires IsTrace(trace) && ProducerInv(env, trace, q, WIdle, r, ts) && q.called
    ensures ProducerInv(env, trace,
                        if Sending(q) && !r then q.(called := false)
                        else q.(called := false, phase := NextPhase(q.phase)), WIdle, r, ts)
  {
  }

  /** What the producer's part sees of its own step. */
  lemma ProducerKeepsProducer(env: Env, p: Params, trace: seq<Tuple>, w: World)
    requires IsTrace(trace) && ProducerInv(env, trace, w.prod, w.ring.wpc, w.ring.wrote, w.ring.h.written)
    ensures
      var v := ProducerStep(env, p, trace, w);
      ProducerInv(env, trace, v.prod, v.ring.wpc, v.ring.wrote, v.ring.h.written)
  {
    var q := w.prod;
    if !w.ring.wpc.WIdle? {
      WriterMoves(p, w.ring);
      var s := WriterStepOf(p, w.ring);
      WriterStepKeepsProducer(env, trace, q, w.ring.wpc, w.ring.wrote, w.ring.h.written, s.wpc, s.wrote, s.h.written);
    } else if q.phase.Fetch? {
      FetchKeepsProducer(env, trace, q, w.ring.wrote, w.ring.h.written);
    } else if q.phase.Await? {
      AwaitKeepsProducer(env, trace, q, w.ring.wrote, w.ring.h.written);
    } else if q.called {
      ReturnKeepsProducer(env, trace, q, w.ring.wrote, w.ring.h.written);
    } else if Sending(q) || Flushing(q) {
      var s := ProducerStep(env, p, trace, w).ring;
      CallKeepsProducer(env, trace, q, w.ring.wrote, w.ring.h.written, s.wpc);
    }
  }

  // ---- what every step keeps: the consumer ----

  /** A tuple has been delivered into the buffer and not yet been processed. */
  predicate Pending(k: Consumer, a: ReaderPc, got: bool) {
    k.called && (a.RCount? || a.RPublish? || (a.RIdle? && got))
  }

  ghost predicate ConsumerInv(env: Env, k: Consumer, a: ReaderPc, got: bool, buf: Tuple, delivered: seq<Tuple>)
    requires env.Ok()
  {
    && (!k.called ==> a.RIdle?) && (!k.ready ==> !k.called && k.seen == 0) && (k.c.over ==> !k.called)
    && IsTuple(buf)
    && (if Pending(k, a, got) then |delivered| == k.seen + 1 && buf == delivered[k.seen] else |delivered| == k.seen)
    && AreTuples(delivered[..k.seen]) && k.c == Consume(env, delivered[..k.seen])
  }

  lemma ReaderStepKeepsConsumer(env: Env, k: Consumer, a: ReaderPc, r: bool, b: Tuple, ts: seq<Tuple>,
                                a': ReaderPc, r': bool, b': Tuple, ts': seq<Tuple>)
    requires env.Ok() && ConsumerInv(env, k, a, r, b, ts) && !a.RIdle? && ReaderMove(a, r, b, ts, a', r', b', ts')
    ensures ConsumerInv(env, k, a', r', b', ts')
  {
    assert ts'[..k.seen] == ts[..k.seen];
  }

  lemma ProcessKeepsConsumer(env: Env, k: Consumer, r: bool, b: Tuple, ts: seq<Tuple>)
    requires env.Ok() && ConsumerInv(env, k, RIdle, r, b, ts) && k.called && r
    ensures ConsumerInv(env, k.(called := false, seen := k.seen + 1, c := Consume1(env, k.c, b)), RIdle, r, b, ts)
  {
    assert ts[..k.seen + 1] == ts[..k.seen] + [b];
    ConsumeSnoc(env, ts[..k.seen], b);
  }

  lemma ConsumerKeepsConsumer(env: Env, p: Params, w: World)
    requires env.Ok() && ConsumerInv(env, w.cons, w.ring.rpc, w.ring.got, w.ring.buf, w.ring.h.delivered)
    ensures
      var v := ConsumerStep(env, p, w);
      ConsumerInv(env, v.cons, v.ring.rpc, v.ring.got, v.ring.buf, v.ring.h.delivered)
  {
    var s := w.ring;
    if w.cons.ready && !w.cons.c.over {
      if !s.rpc.RIdle? {
        ReaderMoves(p, s);
        var t := ReaderStepOf(p, s);
        ReaderStepKeepsConsumer(env, w.cons, s.rpc, s.got, s.buf, s.h.delivered, t.rpc, t.got, t.buf, t.h.delivered);
      } else if w.cons.called && s.got {
        ProcessKeepsConsumer(env, w.cons, s.got, s.buf, s.h.delivered);
      }
    }
  }

  // ---- each thread leaves the other's part alone ----

  lemma ProducerFrame(env: Env, p: Params, trace: seq<Tuple>, w: World)
    requires IsTuple(w.prod.t) && forall i :: 0 <= i < |trace| ==> IsTuple(trace[i])
    ensures
      var v := ProducerStep(env, p, trace, w);
      && v.cons == w.cons && v.ring.rpc == w.ring.rpc && v.ring.got == w.ring.got
      && v.ring.buf == w.ring.buf && v.ring.h.delivered == w.ring.h.delivered
  {
    WriterMoves(p, w.ring);
  }

  lemma ConsumerFrame(env: Env, p: Params, w: World)
    requires env.Ok() && SketchCountersSpec.Shaped(env.sh, w.cons.c.sk) && IsTuple(w.ring.buf)
    ensures
      var v := ConsumerStep(env, p, w);
      && v.prod == w.prod && v.ring.wpc == w.ring.wpc && v.ring.wrote == w.ring.wrote
      && v.ring.h.written == w.ring.h.written
  {
    ReaderMoves(p, w.ring);
  }

  /** The ring sees only calls and steps of the two threads. */
  lemma ProducerRing(env: Env, p: Params, trace: seq<Tuple>, w: World)
    requires IsTuple(w.prod.t) && p.width == TUPLE_BYTES && forall i :: 0 <= i < |trace| ==> IsTuple(trace[i])
    ensures
      var s := ProducerStep(env, p, trace, w).ring;
      s == w.ring || s == Act(p, w.ring, WriterStep) || s == Act(p, w.ring, FlushCall)
      || s == Act(p, w.ring, WriteCall(w.prod.t))
  {
  }

  lemma ConsumerRing(env: Env, p: Params, w: World)
    requires env.Ok() && SketchCountersSpec.Shaped(env.sh, w.cons.c.sk) && IsTuple(w.ring.buf)
    ensures
      var s := ConsumerStep(env, p, w).ring;
      s == w.ring || s == Act(p, w.ring, ReaderStep) || s == Act(p, w.ring, ReadCall)
  {
  }

  // ---- the semaphore ----

  function Puncs(ts: seq<Tuple>): nat
    requires AreTuples(ts)
  {
    if ts == [] then 0 else Puncs(ts[..|ts| - 1]) + if Flag(ts[|ts| - 1]) == PUNC then 1 else 0
  }

  /** How often the producer has passed sem_wait: once at the start and once per cut that is behind it. */
  ghost function Waits(env: Env, trace: seq<Tuple>, q: Producer): nat
    requires q.idx <= |trace|
  {
    if q.phase.Begin? then 0
    else if q.phase.SendPunc? || q.phase.FlushPunc? || q.phase.Await? then
      if q.idx == 0 then 1 else 1 + Cuts(env, trace, q.idx - 1)
    else 1 + Cuts(env, trace, q.idx)
  }

  /** Posts minus waits. */
  ghost predicate SemInv(env: Env, trace: seq<Tuple>, q: Producer, k: Consumer, delivered: seq<Tuple>, sem: nat)
    requires q.idx <= |trace| && k.seen <= |delivered| && AreTuples(delivered[..k.seen])
  {
    sem + Waits(env, trace, q) == (if k.ready then 1 else 0) + Puncs(delivered[..k.seen])
  }

  lemma {:induction false} PuncsPrefix(ts: seq<Tuple>, n: nat)
    requires AreTuples(ts) && n <= |ts| && AreTuples(ts[..n])
    ensures Puncs(ts[..n]) <= Puncs(ts)
    decreases |ts|
  {
    if n == |ts| {
      assert ts[..n] == ts;
    } else {
      assert ts[..|ts| - 1][..n] == ts[..n];
      PuncsPrefix(ts[..|ts| - 1], n);
    }
  }

  lemma PuncsSnoc(ts: seq<Tuple>, t: Tuple)
    requires AreTuples(ts) && IsTuple(t)
    ensures AreTuples(ts + [t]) && Puncs(ts + [t]) == Puncs(ts) + if Flag(t) == PUNC then 1 else 0
  {
    assert (ts + [t])[..|ts|] == ts;
  }

  /** The script has one punctuation per cut. */
  lemma {:induction false} ScriptPuncs(env: Env, trace: seq<Tuple>, n: nat)
    requires IsTrace(trace) && n <= |trace|
    ensures AreTuples(Script(env, trace, n)) && Puncs(Script(env, trace, n)) == Cuts(env, trace, n)
    decreases n
  {
    ScriptTuples(env, trace, n);
    if n > 0 {
      ScriptPuncs(env, trace, n - 1);
      var t, before := trace[n - 1], Script(env, trace, n - 1);
      if CutBefore(env, trace, n - 1) {
        PuncsSnoc(before, WithFlag(t, PUNC));
        PuncsSnoc(before + [WithFlag(t, PUNC)], WithFlag(t, NORMAL));
        assert Script(env, trace, n) == (before + [WithFlag(t, PUNC)]) + [WithFlag(t, NORMAL)];
      } else {
        PuncsSnoc(before, t);
      }
    }
  }

  /** Everything that holds between steps. */
  ghost predicate Inv(env: Env, p: Params, trace: seq<Tuple>, w: World) {
    && env.Ok() && p.width == TUPLE_BYTES && IsTrace(trace)
    && RingSafety.Inv(p, w.ring)
    && ProducerInv(env, trace, w.prod, w.ring.wpc, w.ring.wrote, w.ring.h.written)
    && ConsumerInv(env, w.cons, w.ring.rpc, w.ring.got, w.ring.buf, w.ring.h.delivered)
    && SemInv(env, trace, w.prod, w.cons, w.ring.h.delivered, w.sem)
  }

  lemma ProducerKeepsSem(env: Env, p: Params, trace: seq<Tuple>, w: World)
    requires IsTrace(trace) && ProducerInv(env, trace, w.prod, w.ring.wpc, w.ring.wrote, w.ring.h.written)
    requires w.cons.seen <= |w.ring.h.delivered| && AreTuples(w.ring.h.delivered[..w.cons.seen])
    requires SemInv(env, trace, w.prod, w.cons, w.ring.h.delivered, w.sem)
    ensures
      var v := ProducerStep(env, p, trace, w);
      v.prod.idx <= |trace| && SemInv(env, trace, v.prod, w.cons, w.ring.h.delivered, v.sem)
  {
    if w.ring.wpc.WIdle? && w.prod.phase.Fetch? {
      FetchKeepsWaits(env, trace, w.prod);
    } else if w.ring.wpc.WIdle? && w.prod.phase.Await? {
      assert CutBefore(env, trace, w.prod.idx - 1);
    } else {
      WaitsUnmoved(env, p, trace, w);
    }
  }

  lemma FetchKeepsWaits(env: Env, trace: seq<Tuple>, q: Producer)
    requires IsTrace(trace) && OnTrack(env, trace, q) && q.phase.Fetch?
    ensures FetchStep(env, trace, q).idx <= |trace|
    ensures Waits(env, trace, FetchStep(env, trace, q)) == Waits(env, trace, q)
  {
  }

  /** Sending and flushing leave the semaphore and the count of waits alone. */
  lemma WaitsUnmoved(env: Env, p: Params, trace: seq<Tuple>, w: World)
    requires IsTrace(trace) && OnTrack(env, trace, w.prod)
    requires w.ring.wpc.WIdle? ==> !w.prod.phase.Fetch? && !w.prod.phase.Await?
    ensures
      var v := ProducerStep(env, p, trace, w);
      v.prod.idx == w.prod.idx && v.sem + Waits(env, trace, v.prod) == w.sem + Waits(env, trace, w.prod)
  {
  }

  lemma ConsumerKeepsSem(env: Env, p: Params, trace: seq<Tuple>, w: World)
    requires env.Ok() && IsTrace(trace) && w.prod.idx <= |trace|
    requires ConsumerInv(env, w.cons, w.ring.rpc, w.ring.got, w.ring.buf, w.ring.h.delivered)
    requires SemInv(env, trace, w.prod, w.cons, w.ring.h.delivered, w.sem)
    ensures
      var v := ConsumerStep(env, p, w);
      v.cons.seen <= |v.ring.h.delivered| && AreTuples(v.ring.h.delivered[..v.cons.seen])
      && SemInv(env, trace, w.prod, v.cons, v.ring.h.delivered, v.sem)
  {
    ReaderMoves(p, w.ring);
    ConsumerKeepsConsumer(env, p, w);
    var v := ConsumerStep(env, p, w);
    var d, d', k := w.ring.h.delivered, v.ring.h.delivered, w.cons.seen;
    assert d'[..k] == d[..k];
    if v.cons.seen == k + 1 {
      assert d'[..k + 1] == d[..k] + [w.ring.buf];
      PuncsSnoc(d[..k], w.ring.buf);
    }
  }

  function Step(env: Env, p: Params, trace: seq<Tuple>, w: World, th: Thread): World
    requires env.Ok() && IsTuple(w.prod.t) && (forall i :: 0 <= i < |trace| ==> IsTuple(trace[i]))
    requires SketchCountersSpec.Shaped(env.sh, w.cons.c.sk) && IsTuple(w.ring.buf)
  {
    match th
    case ProducerRuns => ProducerStep(env, p, trace, w)
    case ConsumerRuns => ConsumerStep(env, p, w)
  }

  lemma ProducerKeeps(env: Env, p: Params, trace: seq<Tuple>, w: World)
    requires Inv(env, p, trace, w)
    ensures Inv(env, p, trace, ProducerStep(env, p, trace, w))
  {
    ProducerRing(env, p, trace, w);
    ActKeeps(p, w.ring, WriterStep);
    ActKeeps(p, w.ring, FlushCall);
    ActKeeps(p, w.ring, WriteCall(w.prod.t));
    ProducerKeepsProducer(env, p, trace, w);
    ProducerFrame(env, p, trace, w);
    ProducerKeepsSem(env, p, trace, w);
  }

  lemma ConsumerKeeps(env: Env, p: Params, trace: seq<Tuple>, w: World)
    requires Inv(env, p, trace, w)
    ensures Inv(env, p, trace, ConsumerStep(env, p, w))
  {
    ConsumerRing(env, p, w);
    ActKeeps(p, w.ring, ReaderStep);
    ActKeeps(p, w.ring, ReadCall);
    ConsumerKeepsConsumer(env, p, w);
    ConsumerFrame(env, p, w);
    ConsumerKeepsSem(env, p, trace, w);
  }

  // ---- runs ----

  lemma StartInv(env: Env, p: Params, trace: seq<Tuple>)
    requires env.Ok() && p.Ok() && p.width == TUPLE_BYTES && IsTrace(trace)
    ensures Inv(env, p, trace, Start(env, p))
  {
    InitInv(p);
  }

  /** The world after a schedule, together with the fact that the invariant holds there. */
  ghost function Exec(env: Env, p: Params, trace: seq<Tuple>, run: seq<Thread>): (w: World)
    requires env.Ok() && p.Ok() && p.width == TUPLE_BYTES && IsTrace(trace)
    ensures Inv(env, p, trace, w)
  {
    if run == [] then StartInv(env, p, trace); Start(env, p)
    else
      var w := Exec(env, p, trace, run[..|run| - 1]);
      StepKeeps(env, p, trace, w, run[|run| - 1]);
      Step(env, p, trace, w, run[|run| - 1])
  }

  lemma StepKeeps(env: Env, p: Params, trace: seq<Tuple>, w: World, th: Thread)
    requires Inv(env, p, trace, w)
    ensures Inv(env, p, trace, Step(env, p, trace, w, th))
  {
    match th
    case ProducerRuns => ProducerKeeps(env, p, trace, w);
    case ConsumerRuns => ConsumerKeeps(env, p, trace, w);
  }

  // ---- what has been written is a prefix of the whole message ----

  lemma {:induction false} ScriptPrefix(env: Env, trace: seq<Tuple>, n: nat, m: nat)
    requires IsTrace(trace) && n <= m <= |trace|
    ensures Script(env, trace, n) <= Script(env, trace, m)
    decreases m
  {
    if n < m {
      ScriptPrefix(env, trace, n, m - 1);
    }
  }

  lemma WrittenPrefix(env: Env, p: Params, trace: seq<Tuple>, w: World) returns (final: Tuple)
    requires IsTrace(trace) && ProducerInv(env, trace, w.prod, w.ring.wpc, w.ring.wrote, w.ring.h.written)
    ensures IsTuple(final) && Flag(final) == TERM
    ensures w.ring.h.written <= Script(env, trace, |trace|) + [final]
  {
    var q := w.prod;
    final := if q.phase.SendTerm? || q.phase.FlushTerm? || q.phase.Over? then q.t
             else WithFlag(Zeros(TUPLE_BYTES), TERM);
    ScriptPrefix(env, trace, q.idx, |trace|);
    assert w.ring.h.written <= Target(env, trace, q);
    if q.phase.SendPunc? || q.phase.FlushPunc? || q.phase.Await? {
      assert Target(env, trace, q) <= Script(env, trace, q.idx);
    }
  }

  // ---- the theorems ----

  lemma {:induction false} OverStays(env: Env, ts: seq<Tuple>, n: nat)
    requires env.Ok() && AreTuples(ts) && n <= |ts| && AreTuples(ts[..n]) && Consume(env, ts[..n]).over
    ensures Consume(env, ts) == Consume(env, ts[..n])
    decreases |ts|
  {
    if n == |ts| {
      assert ts[..n] == ts;
    } else {
      assert ts[..|ts| - 1][..n] == ts[..n];
      OverStays(env, ts[..|ts| - 1], n);
    }
  }

  /**
   In every interleaving, the sketches emitted so far are the first of those of
   the trace's intervals; once the consumer has stopped, they are all of them.
   */
  lemma EmitsIntervals(env: Env, p: Params, trace: seq<Tuple>, run: seq<Thread>)
    requires env.Ok() && p.Ok() && p.width == TUPLE_BYTES && IsTrace(trace)
    ensures AllGood(env, Segments(env, trace, |trace|))
    ensures
      var c := Exec(env, p, trace, run).cons.c;
      var all := SketchesOf(env, Segments(env, trace, |trace|));
      c.emitted <= all && (c.over ==> c.emitted == all)
  {
    var w := Exec(env, p, trace, run);
    var final := WrittenPrefix(env, p, trace, w);
    WholeTrace(env, trace, final);
    EmitsPrefix(env, Script(env, trace, |trace|) + [final], w.ring.h.delivered, w.cons.seen);
  }

  /**
   So, in every interleaving, counter by counter: the sketch emitted for
   interval c holds the totals of exactly the packets behind c cuts.
   */
  lemma EmittedCounters(env: Env, p: Params, trace: seq<Tuple>, run: seq<Thread>, c: nat, x: nat, pos: nat)
    requires env.Ok() && p.Ok() && p.width == TUPLE_BYTES && IsTrace(trace)
    requires x < env.sh.Size() && pos < env.sh.Lgn() && c < |Exec(env, p, trace, run).cons.c.emitted|
    ensures c <= Cuts(env, trace, |trace|)
    ensures
      var own, row := Members(env, trace, |trace|, c), Exec(env, p, trace, run).cons.c.emitted[c];
      && SketchCountersSpec.GoodKeys(env.sh, own) && |row| == env.sh.Size() && |row[x]| == 1 + 2 * env.sh.Lgn()
      && row[x][0] == SketchCountersSpec.BucketTotal(env.sh, own, x)
      && row[x][pos + 1] == SketchCountersSpec.BitTotal(env.sh, own, x, pos, true)
      && row[x][pos + 1 + env.sh.Lgn()] == SketchCountersSpec.BitTotal(env.sh, own, x, pos, false)
  {
    EmitsIntervals(env, p, trace, run);
    CutsCountSegments(env, trace, |trace|);
    SegmentHolds(env, trace, |trace|, c);
    SketchCountersSpec.CountersAre(env.sh, Segments(env, trace, |trace|)[c], x, pos);
  }

  /** A consumer that has processed a prefix of a whole message has emitted a prefix of its sketches. */
  lemma EmitsPrefix(env: Env, whole: seq<Tuple>, delivered: seq<Tuple>, k: nat)
    requires env.Ok() && AreTuples(whole) && delivered <= whole && k <= |delivered| && AreTuples(delivered[..k])
    ensures
      var c, all := Consume(env, delivered[..k]), Consume(env, whole);
      c.emitted <= all.emitted && (c.over ==> c == all)
  {
    assert delivered[..k] == whole[..k];
    EmittedGrows(env, whole, k);
    if Consume(env, whole[..k]).over {
      OverStays(env, whole, k);
    }
  }

  lemma BarrierHolds(env: Env, trace: seq<Tuple>, q: Producer, k: Consumer, delivered: seq<Tuple>, sem: nat)
    requires IsTrace(trace) && OnTrack(env, trace, q) && q.phase.Await?
    requires delivered <= Script(env, trace, q.idx - 1) + [q.t]
    requires k.seen <= |delivered| && AreTuples(delivered[..k.seen])
    requires SemInv(env, trace, q, k, delivered, sem) && sem > 0
    ensures k.seen == |Script(env, trace, q.idx - 1)| + 1
  {
    ScriptPuncs(env, trace, q.idx - 1);
    SeenTheLast(Script(env, trace, q.idx - 1), q.t, delivered, k.seen);
  }

  /** With one more punctuation than `before` has, a prefix of before + [t] is all of it. */
  lemma SeenTheLast(before: seq<Tuple>, t: Tuple, delivered: seq<Tuple>, n: nat)
    requires AreTuples(before) && delivered <= before + [t] && n <= |delivered| && AreTuples(delivered[..n])
    requires Puncs(delivered[..n]) > Puncs(before)
    ensures n == |before| + 1
  {
    if n <= |before| {
      assert delivered[..n] == before[..n];
      PuncsPrefix(before, n);
    }
  }

  lemma BarrierInWorld(env: Env, trace: seq<Tuple>, w: World)
    requires env.Ok() && IsTrace(trace) && w.prod.phase.Await? && w.sem > 0
    requires ProducerInv(env, trace, w.prod, w.ring.wpc, w.ring.wrote, w.ring.h.written)
    requires w.ring.h.delivered <= w.ring.h.written && w.cons.seen <= |w.ring.h.delivered|
    requires AreTuples(w.ring.h.delivered[..w.cons.seen])
    requires SemInv(env, trace, w.prod, w.cons, w.ring.h.delivered, w.sem)
    ensures w.cons.seen == |w.ring.h.written|
  {
    BarrierHolds(env, trace, w.prod, w.cons, w.ring.h.delivered, w.sem);
  }

  /** Whenever the producer can pass a punctuation, the consumer has processed everything that was written. */
  lemma PuncIsBarrier(env: Env, p: Params, trace: seq<Tuple>, run: seq<Thread>)
    requires env.Ok() && p.Ok() && p.width == TUPLE_BYTES && IsTrace(trace)
    ensures
      var w := Exec(env, p, trace, run);
      w.prod.phase.Await? && w.sem > 0 ==> w.cons.seen == |w.ring.h.written|
  {
    var w := Exec(env, p, trace, run);
    if w.prod.phase.Await? && w.sem > 0 {
      BarrierInWorld(env, trace, w);
    }
  }
}
