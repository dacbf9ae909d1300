/**
 The shared-memory ring buffer as a state machine.

 One writer thread and one reader thread share an RBMeta record and a byte
 buffer without a lock.  Every load or store that the other thread can observe
 is a step of its own: the full/empty checks, the second load that refreshes a
 cached index, each byte of a memcpy, the index advance, the batched publish,
 and the three accesses of a flush.  A schedule is any sequence of actions, so
 a fact about `Exec(p, Init(p), run)` for every `run` holds of every
 interleaving, under sequential consistency.

 Alongside the wrapped indices that the code stores, a state carries a history
 record with the unwrapped positions behind them.  No step consults it.
 */
module RingMachine {
  import opened Arith
  import opened Bits

  type Tuple = seq<bv8>

  /** RB_SIZE, RB_BATCH and tuple_size. */
  datatype Params = Params(size: nat, batch: nat, width: nat) {
    predicate Ok() {
      size >= 1 && batch >= 1
    }
  }

  /** nextVal of ringbuffer.h. */
  function NextVal(p: Params, x: int): int {
    if x + 1 >= p.size then 0 else x + 1
  }

  /** The fields of struct RBMeta, and the data area cut into its slots. */
  datatype Meta = Meta(
    readIndex: int, writeIndex: int,
    localWriteIndex: int, nextReadIndex: int, rBatchCount: int,
    localReadIndex: int, nextWriteIndex: int, wBatchCount: int,
    data: seq<Tuple>)

  datatype WriterPc =
    | WIdle
    | WCheck(tuple: Tuple)           // cached index says full: load readIndex
    | WRefresh(tuple: Tuple)         // not full after all: load it again into the cache
    | WCopy(tuple: Tuple, done: nat) // inside memcpy
    | WCount                         // advanced; wBatchCount not yet incremented
    | WPublish                       // batch complete: store writeIndex
    | FPublish                       // flush: store writeIndex
    | FLoad                          // flush: load nextReadIndex
    | FStore(loaded: int)            // flush: store what was loaded into readIndex

  datatype ReaderPc =
    | RIdle
    | RCheck
    | RRefresh
    | RCopy(done: nat)
    | RCount
    | RPublish

  /** Unwrapped positions.  Those of nextWriteIndex and nextReadIndex are the two lengths. */
  datatype History = History(
    written: seq<Tuple>, delivered: seq<Tuple>,
    read: nat, write: nat, localRead: nat, localWrite: nat, flushed: nat)

  datatype State = State(
    m: Meta, wpc: WriterPc, rpc: ReaderPc,
    wrote: bool, got: bool,   // results of the last write and read call
    buf: Tuple,               // the caller's buffer that a read fills
    h: History)

  datatype Action =
    | WriteCall(tuple: Tuple)
    | FlushCall
    | FlushAtomic             // a flush that no other step interrupts
    | ReadCall
    | WriterStep
    | ReaderStep

  /** create_ringbuffer_shm. */
  function Init(p: Params): State {
    State(Meta(0, 0, 0, 0, 0, 0, 0, 0, seq(p.size, _ => Zeros(p.width))),
          WIdle, RIdle, false, false, Zeros(p.width),
          History([], [], 0, 0, 0, 0, 0))
  }

  // ---- the writer ----

  function WriteCallStep(p: Params, s: State, x: Tuple): State {
    if NextVal(p, s.m.nextWriteIndex) == s.m.localReadIndex
    then s.(wpc := WCheck(x))
    else s.(wpc := WCopy(x, 0))
  }

  function PutByte(data: seq<Tuple>, slot: int, k: nat, b: bv8): seq<Tuple> {
    if 0 <= slot < |data| && k < |data[slot]| then data[slot := data[slot][k := b]] else data
  }

  function WriterCopyStep(p: Params, s: State, x: Tuple, k: nat): State {
    if k < |x| then
      s.(m := s.m.(data := PutByte(s.m.data, s.m.nextWriteIndex, k, x[k])), wpc := WCopy(x, k + 1))
    else
      s.(m := s.m.(nextWriteIndex := NextVal(p, s.m.nextWriteIndex)), wpc := WCount,
         h := s.h.(written := s.h.written + [x]))
  }

  function WriterCountStep(p: Params, s: State): State {
    var t := s.(m := s.m.(wBatchCount := s.m.wBatchCount + 1));
    if t.m.wBatchCount >= p.batch then t.(wpc := WPublish) else t.(wpc := WIdle, wrote := true)
  }

  function PublishWrites(s: State): State {
    s.(m := s.m.(writeIndex := s.m.nextWriteIndex), h := s.h.(write := |s.h.written|))
  }

  function WriterStepOf(p: Params, s: State): State {
    match s.wpc
    case WIdle => s
    case WCheck(x) =>
      if NextVal(p, s.m.nextWriteIndex) == s.m.readIndex
      then s.(wpc := WIdle, wrote := false)
      else s.(wpc := WRefresh(x))
    case WRefresh(x) =>
      s.(m := s.m.(localReadIndex := s.m.readIndex), wpc := WCopy(x, 0),
         h := s.h.(localRead := s.h.read))
    case WCopy(x, k) => WriterCopyStep(p, s, x, k)
    case WCount => WriterCountStep(p, s)
    case WPublish =>
      var t := PublishWrites(s);
      t.(m := t.m.(wBatchCount := 0), wpc := WIdle, wrote := true)
    case FPublish => PublishWrites(s).(wpc := FLoad)
    case FLoad => s.(wpc := FStore(s.m.nextReadIndex), h := s.h.(flushed := |s.h.delivered|))
    case FStore(v) => s.(m := s.m.(readIndex := v), wpc := WIdle, h := s.h.(read := s.h.flushed))
  }

  /** flush_ringbuffer without interruption. */
  function FlushOp(s: State): State {
    s.(m := s.m.(writeIndex := s.m.nextWriteIndex, readIndex := s.m.nextReadIndex),
       h := s.h.(write := |s.h.written|, read := |s.h.delivered|, flushed := |s.h.delivered|))
  }

  // ---- the reader ----

  function ReadCallStep(s: State): State {
    if s.m.nextReadIndex == s.m.localWriteIndex then s.(rpc := RCheck) else s.(rpc := RCopy(0))
  }

  function ByteAt(data: seq<Tuple>, slot: int, k: nat): bv8 {
    if 0 <= slot < |data| && k < |data[slot]| then data[slot][k] else 0
  }

  function ReaderCopyStep(p: Params, s: State, k: nat): State {
    if k < |s.buf| then
      s.(buf := s.buf[k := ByteAt(s.m.data, s.m.nextReadIndex, k)], rpc := RCopy(k + 1))
    else
      s.(m := s.m.(nextReadIndex := NextVal(p, s.m.nextReadIndex)), rpc := RCount,
         h := s.h.(delivered := s.h.delivered + [s.buf]))
  }

  function ReaderCountStep(p: Params, s: State): State {
    var t := s.(m := s.m.(rBatchCount := s.m.rBatchCount + 1));
    if t.m.rBatchCount >= p.batch then t.(rpc := RPublish) else t.(rpc := RIdle, got := true)
  }

  function ReaderStepOf(p: Params, s: State): State {
    match s.rpc
    case RIdle => s
    case RCheck =>
      if s.m.nextReadIndex == s.m.writeIndex then s.(rpc := RIdle, got := false) else s.(rpc := RRefresh)
    case RRefresh =>
      s.(m := s.m.(localWriteIndex := s.m.writeIndex), rpc := RCopy(0),
         h := s.h.(localWrite := s.h.write))
    case RCopy(k) => ReaderCopyStep(p, s, k)
    case RCount => ReaderCountStep(p, s)
    case RPublish =>
      s.(m := s.m.(readIndex := s.m.nextReadIndex, rBatchCount := 0), rpc := RIdle, got := true,
         h := s.h.(read := |s.h.delivered|))
  }

  // ---- schedules ----

  /** A call on a thread that is not idle, or a write of the wrong size, is not a step. */
  function Act(p: Params, s: State, a: Action): State {
    match a
    case WriteCall(x) => if s.wpc.WIdle? && |x| == p.width then WriteCallStep(p, s, x) else s
    case FlushCall => if s.wpc.WIdle? then s.(wpc := FPublish) else s
    case FlushAtomic =>
      if s.wpc.WIdle? then FlushOp(s) else s
    case ReadCall => if s.rpc.RIdle? then ReadCallStep(s) else s
    case WriterStep => WriterStepOf(p, s)
    case ReaderStep => ReaderStepOf(p, s)
  }

  function Exec(p: Params, s: State, run: seq<Action>): State
    decreases |run|
  {
    if run == [] then s else Exec(p, Act(p, s, run[0]), run[1..])
  }

  lemma {:induction false} ExecConcat(p: Params, s: State, r1: seq<Action>, r2: seq<Action>)
    ensures Exec(p, s, r1 + r2) == Exec(p, Exec(p, s, r1), r2)
    decreases |r1|
  {
    if r1 == [] {
      assert r1 + r2 == r2;
    } else {
      assert (r1 + r2)[1..] == r1[1..] + r2;
      ExecConcat(p, Act(p, s, r1[0]), r1[1..], r2);
    }
  }

  // ---- wrapped and unwrapped positions ----

  /** nextVal on a wrapped index is the wrapped successor. */
  lemma WrappedNext(p: Params, n: nat)
    requires p.Ok()
    ensures NextVal(p, n % p.size) == (n + 1) % p.size
  {
    var q, r := n / p.size, n % p.size;
    assert n == q * p.size + r;
    if r + 1 == p.size {
      assert n + 1 == (q + 1) * p.size;
      DivModUnique(p.size, n + 1, q + 1, 0);
    } else {
      DivModUnique(p.size, n + 1, q, r + 1);
    }
  }

  /** Within one lap, two wrapped positions agree only at the two ends. */
  lemma WrappedEqual(m: nat, a: nat, b: nat)
    requires 0 < m && a <= b <= a + m
    ensures a % m == b % m <==> b == a || b == a + m
  {
    var q, r := a / m, a % m;
    assert a == q * m + r;
    if b == a + m {
      DivModUnique(m, b, q + 1, r);
    } else if r + (b - a) < m {
      DivModUnique(m, b, q, r + (b - a));
    } else {
      DivModUnique(m, b, q + 1, r + (b - a) - m);
    }
  }
}
