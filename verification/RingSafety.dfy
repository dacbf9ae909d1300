/**
 What every interleaving of the ring buffer keeps: the tuples delivered so far
 are a prefix of the tuples written so far, and the wrapped index tests decide
 full and empty exactly.
 */
module RingSafety {
  import opened RingMachine

  ghost predicate Order(p: Params, s: State) {
    && s.h.localRead <= s.h.read <= |s.h.delivered| <= s.h.localWrite <= s.h.write <= |s.h.written|
    && |s.h.written| - s.h.localRead <= p.size - 1
  }

  ghost predicate Wrapped(p: Params, s: State)
    requires p.Ok()
  {
    && s.m.readIndex == s.h.read % p.size
    && s.m.writeIndex == s.h.write % p.size
    && s.m.localReadIndex == s.h.localRead % p.size
    && s.m.localWriteIndex == s.h.localWrite % p.size
    && s.m.nextReadIndex == |s.h.delivered| % p.size
    && s.m.nextWriteIndex == |s.h.written| % p.size
  }

  /** Unread tuples sit unharmed in their slots; what was read is what was written. */
  ghost predicate Contents(p: Params, s: State)
    requires p.Ok()
  {
    && |s.m.data| == p.size
    && (forall j :: 0 <= j < p.size ==> |s.m.data[j]| == p.width)
    && (forall i :: |s.h.delivered| <= i < |s.h.written| ==> s.m.data[i % p.size] == s.h.written[i])
    && s.h.delivered <= s.h.written
    && |s.buf| == p.width
  }

  /** One more tuple fits without touching a slot that the reader may still want. */
  ghost predicate Room(p: Params, s: State) {
    |s.h.written| + 1 - s.h.localRead <= p.size - 1
  }

  ghost predicate WriterAt(p: Params, s: State)
    requires p.Ok() && Order(p, s) && Contents(p, s)
  {
    match s.wpc
    case WCheck(x) => |x| == p.width && |s.h.written| + 1 - s.h.localRead == p.size
    case WRefresh(x) => |x| == p.width && |s.h.written| + 1 - s.h.read <= p.size - 1
    case WCopy(x, k) =>
      |x| == p.width && Room(p, s) && k <= p.width && s.m.data[|s.h.written| % p.size][..k] == x[..k]
    case FStore(v) => s.h.localRead <= s.h.flushed <= |s.h.delivered| && v == s.h.flushed % p.size
    case _ => true
  }

  ghost predicate ReaderAt(p: Params, s: State)
    requires p.Ok() && Order(p, s) && Contents(p, s)
  {
    match s.rpc
    case RCheck => |s.h.delivered| == s.h.localWrite
    case RRefresh => |s.h.delivered| == s.h.localWrite < s.h.write
    case RCopy(k) =>
      |s.h.delivered| < s.h.localWrite && k <= p.width && s.buf[..k] == s.h.written[|s.h.delivered|][..k]
    case _ => true
  }

  ghost predicate Inv(p: Params, s: State) {
    p.Ok() && Order(p, s) && Wrapped(p, s) && Contents(p, s) && WriterAt(p, s) && ReaderAt(p, s)
  }

  lemma InitInv(p: Params)
    requires p.Ok()
    ensures Inv(p, Init(p))
  {
  }

  // ---- each action keeps the invariant ----

  /** The writer's first test, on the cached index: equality means exactly "no room yet". */
  lemma FullTest(p: Params, s: State)
    requires Inv(p, s)
    ensures NextVal(p, s.m.nextWriteIndex) == s.m.localReadIndex <==> |s.h.written| + 1 - s.h.localRead == p.size
    ensures NextVal(p, s.m.nextWriteIndex) == s.m.readIndex <==> |s.h.written| + 1 - s.h.read == p.size
  {
    WrappedNext(p, |s.h.written|);
    WrappedEqual(p.size, s.h.localRead, |s.h.written| + 1);
    WrappedEqual(p.size, s.h.read, |s.h.written| + 1);
  }

  /** The reader's tests: equality means exactly "nothing known" and "nothing published". */
  lemma EmptyTest(p: Params, s: State)
    requires Inv(p, s)
    ensures s.m.nextReadIndex == s.m.localWriteIndex <==> |s.h.delivered| == s.h.localWrite
    ensures s.m.nextReadIndex == s.m.writeIndex <==> |s.h.delivered| == s.h.write
  {
    WrappedEqual(p.size, |s.h.delivered|, s.h.localWrite);
    WrappedEqual(p.size, |s.h.delivered|, s.h.write);
  }

  lemma WriterCopyKeeps(p: Params, s: State, x: Tuple, k: nat)
    requires Inv(p, s) && s.wpc == WCopy(x, k)
    ensures Inv(p, WriterCopyStep(p, s, x, k))
  {
    var n := |s.h.written|;
    if k < |x| {
      var s' := WriterCopyStep(p, s, x, k);
      var slot := n % p.size;
      forall i | |s.h.delivered| <= i < n
        ensures s'.m.data[i % p.size] == s.h.written[i]
      {
        WrappedEqual(p.size, i, n);
      }
      assert s'.m.data[slot][..k + 1] == x[..k + 1];
    } else {
      WrappedNext(p, n);
      assert s.m.data[n % p.size] == x;
    }
  }

  lemma WriterCheckKeeps(p: Params, s: State)
    requires Inv(p, s) && (s.wpc.WCheck? || s.wpc.WRefresh?)
    ensures Inv(p, WriterStepOf(p, s))
  {
    FullTest(p, s);
  }

  lemma WriterPublishKeeps(p: Params, s: State)
    requires Inv(p, s) && (s.wpc.WCount? || s.wpc.WPublish?)
    ensures Inv(p, WriterStepOf(p, s))
  {
  }

  lemma FlushStepKeeps(p: Params, s: State)
    requires Inv(p, s) && (s.wpc.FPublish? || s.wpc.FLoad? || s.wpc.FStore?)
    ensures Inv(p, WriterStepOf(p, s))
  {
  }

  lemma WriterStepKeeps(p: Params, s: State)
    requires Inv(p, s)
    ensures Inv(p, WriterStepOf(p, s))
  {
    match s.wpc
    case WIdle =>
    case WCheck(_) => WriterCheckKeeps(p, s);
    case WRefresh(_) => WriterCheckKeeps(p, s);
    case WCopy(x, k) => WriterCopyKeeps(p, s, x, k);
    case WCount => WriterPublishKeeps(p, s);
    case WPublish => WriterPublishKeeps(p, s);
    case _ => FlushStepKeeps(p, s);
  }

  lemma ReaderCopyKeeps(p: Params, s: State, k: nat)
    requires Inv(p, s) && s.rpc == RCopy(k)
    ensures Inv(p, ReaderCopyStep(p, s, k))
  {
    var r := |s.h.delivered|;
    assert s.m.data[r % p.size] == s.h.written[r];
    if k < |s.buf| {
      var s' := ReaderCopyStep(p, s, k);
      assert s'.buf[..k + 1] == s.buf[..k] + [s.h.written[r][k]] == s.h.written[r][..k + 1];
    } else {
      assert s.buf == s.h.written[r];
      WrappedNext(p, r);
    }
  }

  lemma ReaderCheckKeeps(p: Params, s: State)
    requires Inv(p, s) && (s.rpc.RCheck? || s.rpc.RRefresh?)
    ensures Inv(p, ReaderStepOf(p, s))
  {
    EmptyTest(p, s);
  }

  lemma ReaderCountKeeps(p: Params, s: State)
    requires Inv(p, s) && s.rpc.RCount?
    ensures Inv(p, ReaderCountStep(p, s))
  {
  }

  lemma ReaderPublishKeeps(p: Params, s: State)
    requires Inv(p, s) && s.rpc.RPublish?
    ensures Inv(p, ReaderStepOf(p, s))
  {
  }

  lemma ReaderStepKeeps(p: Params, s: State)
    requires Inv(p, s)
    ensures Inv(p, ReaderStepOf(p, s))
  {
    match s.rpc
    case RIdle =>
    case RCheck => ReaderCheckKeeps(p, s);
    case RRefresh => ReaderCheckKeeps(p, s);
    case RCopy(k) => ReaderCopyKeeps(p, s, k);
    case RCount => ReaderCountKeeps(p, s);
    case RPublish => ReaderPublishKeeps(p, s);
  }

  lemma ActKeeps(p: Params, s: State, a: Action)
    requires Inv(p, s)
    ensures Inv(p, Act(p, s, a))
  {
    match a
    case WriteCall(x) => FullTest(p, s);
    case ReadCall => EmptyTest(p, s);
    case WriterStep => WriterStepKeeps(p, s);
    case ReaderStep => ReaderStepKeeps(p, s);
    case FlushAtomic =>
    case FlushCall =>
  }

  lemma {:induction false} RunKeeps(p: Params, s: State, run: seq<Action>)
    requires Inv(p, s)
    ensures Inv(p, Exec(p, s, run))
    decreases |run|
  {
    if run != [] {
      ActKeeps(p, s, run[0]);
      RunKeeps(p, Act(p, s, run[0]), run[1..]);
    }
  }

  // ---- the safety theorem ----

  /** In every interleaving, what has been delivered is a prefix of what has been written. */
  lemma Fifo(p: Params, run: seq<Action>)
    requires p.Ok()
    ensures var h := Exec(p, Init(p), run).h; h.delivered <= h.written
  {
    InitInv(p);
    RunKeeps(p, Init(p), run);
  }

  /** The memory that a reader is copying out and the memory a writer is copying in never meet. */
  lemma CopiesNeverMeet(p: Params, run: seq<Action>)
    requires p.Ok()
    ensures
      var s := Exec(p, Init(p), run);
      s.wpc.WCopy? && s.rpc.RCopy? ==> s.m.nextWriteIndex != s.m.nextReadIndex
  {
    InitInv(p);
    RunKeeps(p, Init(p), run);
    var s := Exec(p, Init(p), run);
    if s.wpc.WCopy? && s.rpc.RCopy? {
      WrappedEqual(p.size, |s.h.delivered|, |s.h.written|);
    }
  }
}
