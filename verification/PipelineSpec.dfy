/**
 The interval protocol of dp_simulate.c, apart from the threads: what the
 producer sends for a trace, what the consumer makes of what it reads, and the
 intervals that the trace is cut into.
 */
module PipelineSpec {
  import opened SketchCountersSpec

  /** struct Tuple, packed: 13 key bytes, 4 size bytes, the flag, 8 timestamp bytes. */
  type Tuple = seq<bv8>

  const TUPLE_BYTES: nat := 26
  const FLAG_AT: nat := 17
  const NORMAL: bv8 := 0
  const PUNC: bv8 := 1
  const TERM: bv8 := 2

  /** How a timestamp gives an interval number, how four bytes give a size, and the sketch's shape. */
  datatype Env = Env(interval: Tuple -> nat, size: seq<bv8> -> int, sh: Shape) {
    ghost predicate Ok() {
      sh.width > 0 && sh.keyLen == 13
    }
  }

  ghost predicate IsTuple(t: Tuple) {
    |t| == TUPLE_BYTES
  }

  function Flag(t: Tuple): bv8
    requires IsTuple(t)
  {
    t[FLAG_AT]
  }

  function WithFlag(t: Tuple, f: bv8): (r: Tuple)
    requires IsTuple(t)
    ensures IsTuple(r) && Flag(r) == f
  {
    t[FLAG_AT := f]
  }

  function ItemOf(env: Env, t: Tuple): Item
    requires IsTuple(t)
  {
    (t[..13], env.size(t[13..17]))
  }

  lemma FlagIsNotData(env: Env, t: Tuple, f: bv8)
    requires IsTuple(t)
    ensures ItemOf(env, WithFlag(t, f)) == ItemOf(env, t)
  {
    assert WithFlag(t, f)[..13] == t[..13] && WithFlag(t, f)[13..17] == t[13..17];
  }

  /** Only the first 17 bytes are counted: the key, and the four bytes of the size. */
  lemma HeaderDecides(env: Env, t: Tuple, u: Tuple)
    requires IsTuple(t) && IsTuple(u)
    ensures t[..17] == u[..17] ==> ItemOf(env, t) == ItemOf(env, u)
    ensures ItemOf(env, t).0 == ItemOf(env, u).0 <==> t[..13] == u[..13]
  {
    assert t[..17][..13] == t[..13] && t[..17][13..] == t[13..17];
    assert u[..17][..13] == u[..13] && u[..17][13..] == u[13..17];
  }

  /** Recorded packets carry no control flag. */
  ghost predicate IsTrace(trace: seq<Tuple>) {
    forall i :: 0 <= i < |trace| ==> IsTuple(trace[i]) && Flag(trace[i]) != PUNC && Flag(trace[i]) != TERM
  }

  // ---- where the trace is cut ----

  /** The highest interval number among the first n packets. */
  function Highest(env: Env, trace: seq<Tuple>, n: nat): nat
    requires n <= |trace|
  {
    if n == 0 then 0
    else if env.interval(trace[n - 1]) > Highest(env, trace, n - 1) then env.interval(trace[n - 1])
    else Highest(env, trace, n - 1)
  }

  /** Packet n opens a new interval: its number rises above all before it, and they were not all 0. */
  predicate CutBefore(env: Env, trace: seq<Tuple>, n: nat)
    requires n < |trace|
  {
    Highest(env, trace, n) != 0 && env.interval(trace[n]) > Highest(env, trace, n)
  }

  /** The first n packets, cut into the streams of their intervals; the last one is still open. */
  function Segments(env: Env, trace: seq<Tuple>, n: nat): (r: seq<Stream>)
    requires n <= |trace| && IsTrace(trace)
    ensures |r| > 0
  {
    if n == 0 then [[]]
    else
      var segs, item := Segments(env, trace, n - 1), ItemOf(env, trace[n - 1]);
      if CutBefore(env, trace, n - 1) then segs + [[item]]
      else segs[..|segs| - 1] + [segs[|segs| - 1] + [item]]
  }

  function Flatten(segs: seq<Stream>): Stream {
    if segs == [] then [] else Flatten(segs[..|segs| - 1]) + segs[|segs| - 1]
  }

  function Items(env: Env, trace: seq<Tuple>, n: nat): Stream
    requires n <= |trace| && IsTrace(trace)
  {
    if n == 0 then [] else Items(env, trace, n - 1) + [ItemOf(env, trace[n - 1])]
  }

  /** Cutting loses nothing and reorders nothing. */
  lemma {:induction false} SegmentsConserve(env: Env, trace: seq<Tuple>, n: nat)
    requires IsTrace(trace) && n <= |trace|
    ensures Flatten(Segments(env, trace, n)) == Items(env, trace, n)
    decreases n
  {
    if n == 0 {
      var none: seq<Stream> := [[]];
      assert none[..0] == [] && Flatten([]) + none[0] == [];
    } else {
      SegmentsConserve(env, trace, n - 1);
      var segs, item := Segments(env, trace, n - 1), ItemOf(env, trace[n - 1]);
      var now := Segments(env, trace, n);
      var last := |segs| - 1;
      if CutBefore(env, trace, n - 1) {
        assert now[..|segs|] == segs && now[|segs|] == [item];
      } else {
        assert now[..last] == segs[..last] && now[last] == segs[last] + [item];
        assert Flatten(segs) == Flatten(segs[..last]) + segs[last];
      }
    }
  }

  // ---- what the producer sends ----

  /** Everything written for the first n packets: a cut sends the packet twice, first as punctuation. */
  function Script(env: Env, trace: seq<Tuple>, n: nat): seq<Tuple>
    requires n <= |trace| && IsTrace(trace)
  {
    if n == 0 then []
    else
      var t := trace[n - 1];
      Script(env, trace, n - 1) +
      (if CutBefore(env, trace, n - 1) then [WithFlag(t, PUNC), WithFlag(t, NORMAL)] else [t])
  }

  // ---- what the consumer makes of it ----

  datatype Consumed = Consumed(sk: Table, emitted: seq<Table>, over: bool)

  function Fresh(env: Env): Consumed
    requires env.Ok()
  {
    Consumed(SketchOf(env.sh, []), [], false)
  }

  function Consume1(env: Env, c: Consumed, t: Tuple): (d: Consumed)
    requires env.Ok() && Shaped(env.sh, c.sk) && IsTuple(t)
    ensures Shaped(env.sh, d.sk)
  {
    if c.over then c
    else if Flag(t) == TERM then Consumed(c.sk, c.emitted + [Complete(env.sh, c.sk)], true)
    else if Flag(t) == PUNC then Consumed(SketchOf(env.sh, []), c.emitted + [Complete(env.sh, c.sk)], false)
    else c.(sk := Update(env.sh, c.sk, ItemOf(env, t).0, ItemOf(env, t).1))
  }

  ghost predicate AreTuples(ts: seq<Tuple>) {
    forall i :: 0 <= i < |ts| ==> IsTuple(ts[i])
  }

  function Consume(env: Env, ts: seq<Tuple>): (d: Consumed)
    requires env.Ok() && AreTuples(ts)
    ensures Shaped(env.sh, d.sk)
  {
    if ts == [] then Fresh(env) else Consume1(env, Consume(env, ts[..|ts| - 1]), ts[|ts| - 1])
  }

  lemma ConsumeSnoc(env: Env, ts: seq<Tuple>, t: Tuple)
    requires env.Ok() && AreTuples(ts) && IsTuple(t)
    ensures Consume(env, ts + [t]) == Consume1(env, Consume(env, ts), t)
  {
    assert (ts + [t])[..|ts|] == ts;
  }

  /** The completed sketch of one interval's packets. */
  function SketchOfSegment(env: Env, s: Stream): Table
    requires env.Ok() && GoodKeys(env.sh, s)
  {
    Complete(env.sh, SketchOf(env.sh, s))
  }

  ghost predicate AllGood(env: Env, segs: seq<Stream>) {
    forall i :: 0 <= i < |segs| ==> GoodKeys(env.sh, segs[i])
  }

  function SketchesOf(env: Env, segs: seq<Stream>): (r: seq<Table>)
    requires env.Ok() && AllGood(env, segs)
    ensures |r| == |segs|
  {
    seq(|segs|, i requires 0 <= i < |segs| => SketchOfSegment(env, segs[i]))
  }

  lemma ScriptTuples(env: Env, trace: seq<Tuple>, n: nat)
    requires IsTrace(trace) && n <= |trace|
    ensures AreTuples(Script(env, trace, n))
  {
    if n > 0 {
      ScriptTuples(env, trace, n - 1);
    }
  }

  lemma SketchSnoc(env: Env, s: Stream, item: Item)
    requires env.Ok() && GoodKeys(env.sh, s) && GoodKeys(env.sh, s + [item]) && |item.0| == env.sh.keyLen
    ensures SketchOf(env.sh, s + [item]) == Update(env.sh, SketchOf(env.sh, s), item.0, item.1)
  {
    assert (s + [item])[..|s|] == s;
  }

  /** The consumer holds the open segment's sketch and has emitted those of the others. */
  ghost predicate Holds(env: Env, c: Consumed, segs: seq<Stream>)
    requires env.Ok() && segs != [] && AllGood(env, segs)
  {
    !c.over && c.sk == SketchOf(env.sh, segs[|segs| - 1]) && c.emitted == SketchesOf(env, segs[..|segs| - 1])
  }

  /** Consuming the script leaves the open interval's sketch and has emitted those of the closed ones. */
  lemma {:induction false} ConsumeScript(env: Env, trace: seq<Tuple>, n: nat)
    requires env.Ok() && IsTrace(trace) && n <= |trace|
    ensures AreTuples(Script(env, trace, n)) && AllGood(env, Segments(env, trace, n))
    ensures Holds(env, Consume(env, Script(env, trace, n)), Segments(env, trace, n))
    decreases n
  {
    if n > 0 {
      ConsumeScript(env, trace, n - 1);
      ConsumePacket(env, trace, n);
    } else {
      var none: seq<Stream> := [[]];
      assert none[..0] == [];
    }
  }

  lemma ConsumePacket(env: Env, trace: seq<Tuple>, n: nat)
    requires env.Ok() && IsTrace(trace) && 0 < n <= |trace|
    requires AreTuples(Script(env, trace, n - 1)) && AllGood(env, Segments(env, trace, n - 1))
    requires Holds(env, Consume(env, Script(env, trace, n - 1)), Segments(env, trace, n - 1))
    ensures AreTuples(Script(env, trace, n)) && AllGood(env, Segments(env, trace, n))
    ensures Holds(env, Consume(env, Script(env, trace, n)), Segments(env, trace, n))
  {
    var t, sent := trace[n - 1], Script(env, trace, n - 1);
    if CutBefore(env, trace, n - 1) {
      ConsumeCut(env, sent, Segments(env, trace, n - 1), t);
      assert Script(env, trace, n) == (sent + [WithFlag(t, PUNC)]) + [WithFlag(t, NORMAL)];
    } else {
      ConsumePlain(env, sent, Segments(env, trace, n - 1), t);
    }
  }

  lemma SketchesSnoc(env: Env, segs: seq<Stream>)
    requires env.Ok() && segs != [] && AllGood(env, segs)
    ensures
      var last := |segs| - 1;
      SketchesOf(env, segs) == SketchesOf(env, segs[..last]) + [SketchOfSegment(env, segs[last])]
  {
  }

  /** A punctuation and the packet behind it: one more segment. */
  lemma ConsumeCut(env: Env, sent: seq<Tuple>, segs: seq<Stream>, t: Tuple)
    requires env.Ok() && AreTuples(sent) && IsTuple(t) && segs != [] && AllGood(env, segs)
    requires Holds(env, Consume(env, sent), segs)
    ensures
      var p, q := WithFlag(t, PUNC), WithFlag(t, NORMAL);
      var now := segs + [[ItemOf(env, t)]];
      AreTuples((sent + [p]) + [q]) && AllGood(env, now) && Holds(env, Consume(env, (sent + [p]) + [q]), now)
  {
    var p, q, item := WithFlag(t, PUNC), WithFlag(t, NORMAL), ItemOf(env, t);
    ConsumeSnoc(env, sent, p);
    ConsumeSnoc(env, sent + [p], q);
    FlagIsNotData(env, t, NORMAL);
    SketchSnoc(env, [], item);
    assert [] + [item] == [item];
    assert (segs + [[item]])[..|segs|] == segs;
    SketchesSnoc(env, segs);
  }

  /** Any other packet: the open segment grows. */
  lemma ConsumePlain(env: Env, sent: seq<Tuple>, segs: seq<Stream>, t: Tuple)
    requires env.Ok() && AreTuples(sent) && IsTuple(t) && Flag(t) != PUNC && Flag(t) != TERM
    requires segs != [] && AllGood(env, segs) && Holds(env, Consume(env, sent), segs)
    ensures
      var last := |segs| - 1;
      var now := segs[..last] + [segs[last] + [ItemOf(env, t)]];
      AreTuples(sent + [t]) && AllGood(env, now) && Holds(env, Consume(env, sent + [t]), now)
  {
    var last := |segs| - 1;
    ConsumeSnoc(env, sent, t);
    SketchSnoc(env, segs[last], ItemOf(env, t));
    assert (segs[..last] + [segs[last] + [ItemOf(env, t)]])[..last] == segs[..last];
  }

  /** After the script and the final tuple, exactly the intervals' sketches have been emitted, in order. */
  lemma WholeTrace(env: Env, trace: seq<Tuple>, final: Tuple)
    requires env.Ok() && IsTrace(trace) && IsTuple(final) && Flag(final) == TERM
    ensures AreTuples(Script(env, trace, |trace|) + [final]) && AllGood(env, Segments(env, trace, |trace|))
    ensures
      var c := Consume(env, Script(env, trace, |trace|) + [final]);
      c.over && c.emitted == SketchesOf(env, Segments(env, trace, |trace|))
  {
    ConsumeScript(env, trace, |trace|);
    ConsumeSnoc(env, Script(env, trace, |trace|), final);
    SketchesSnoc(env, Segments(env, trace, |trace|));
  }

  /** What has been emitted for a prefix stays and is only added to. */
  lemma {:induction false} EmittedGrows(env: Env, ts: seq<Tuple>, n: nat)
    requires env.Ok() && AreTuples(ts) && n <= |ts| && AreTuples(ts[..n])
    ensures Consume(env, ts[..n]).emitted <= Consume(env, ts).emitted
    decreases |ts|
  {
    if n == |ts| {
      assert ts[..n] == ts;
    } else {
      assert ts[..|ts| - 1][..n] == ts[..n];
      EmittedGrows(env, ts[..|ts| - 1], n);
    }
  }

  // ---- does every sketch cover a single interval? ----

  /** How many cuts there are before packet n. */
  function Cuts(env: Env, trace: seq<Tuple>, n: nat): nat
    requires n <= |trace|
  {
    if n == 0 then 0 else Cuts(env, trace, n - 1) + if CutBefore(env, trace, n - 1) then 1 else 0
  }

  lemma {:induction false} CutsCountSegments(env: Env, trace: seq<Tuple>, n: nat)
    requires IsTrace(trace) && n <= |trace|
    ensures |Segments(env, trace, n)| == Cuts(env, trace, n) + 1
    decreases n
  {
    if n > 0 {
      CutsCountSegments(env, trace, n - 1);
    }
  }

  /** Packets in the same segment are of the same interval. */
  ghost predicate SegmentsPure(env: Env, trace: seq<Tuple>) {
    forall i, j :: 0 <= i < j < |trace| && Cuts(env, trace, i + 1) == Cuts(env, trace, j + 1) ==>
      env.interval(trace[i]) == env.interval(trace[j])
  }

  ghost predicate InTimeOrder(env: Env, trace: seq<Tuple>) {
    forall i, j :: 0 <= i < j < |trace| ==> env.interval(trace[i]) <= env.interval(trace[j])
  }

  lemma {:induction false} HighestIsLatest(env: Env, trace: seq<Tuple>, n: nat)
    requires InTimeOrder(env, trace) && 0 < n <= |trace|
    ensures Highest(env, trace, n) == env.interval(trace[n - 1])
    decreases n
  {
    if n > 1 {
      HighestIsLatest(env, trace, n - 1);
      assert env.interval(trace[n - 2]) <= env.interval(trace[n - 1]);
    }
  }

  lemma {:induction false} RiseCuts(env: Env, trace: seq<Tuple>, i: nat, j: nat)
    requires InTimeOrder(env, trace) && i < j < |trace| && env.interval(trace[i]) != 0
    ensures Cuts(env, trace, i + 1) <= Cuts(env, trace, j + 1)
    ensures env.interval(trace[i]) < env.interval(trace[j]) ==> Cuts(env, trace, i + 1) < Cuts(env, trace, j + 1)
    decreases j
  {
    HighestIsLatest(env, trace, j);
    assert env.interval(trace[i]) <= env.interval(trace[j]);
    if i < j - 1 {
      RiseCuts(env, trace, i, j - 1);
      assert env.interval(trace[i]) <= env.interval(trace[j - 1]);
    }
  }

  /** While every packet so far is of interval 0 there has been no cut, nor is there one before the next packet. */
  lemma {:induction false} ZeroesDoNotCut(env: Env, trace: seq<Tuple>, n: nat)
    requires InTimeOrder(env, trace) && n < |trace| && (n == 0 || env.interval(trace[n - 1]) == 0)
    ensures Cuts(env, trace, n + 1) == 0
    decreases n
  {
    if n > 0 {
      if n > 1 {
        assert env.interval(trace[n - 2]) <= env.interval(trace[n - 1]);
      }
      ZeroesDoNotCut(env, trace, n - 1);
      HighestIsLatest(env, trace, n);
    }
  }

  lemma {:induction false} FirstRise(env: Env, trace: seq<Tuple>, n: nat) returns (m: nat)
    requires 0 < n < |trace| && env.interval(trace[0]) == 0 && env.interval(trace[n]) > 0
    ensures 0 < m <= n && env.interval(trace[m - 1]) == 0 && env.interval(trace[m]) > 0
    decreases n
  {
    if env.interval(trace[n - 1]) == 0 {
      m := n;
    } else {
      m := FirstRise(env, trace, n - 1);
    }
  }

  lemma SegmentsPureInOrder(env: Env, trace: seq<Tuple>)
    requires IsTrace(trace) && InTimeOrder(env, trace)
    ensures SegmentsPure(env, trace) <==> !LeavesZero(env, trace)
  {
    if LeavesZero(env, trace) {
      var m := FirstRise(env, trace, |trace| - 1);
      ZeroesDoNotCut(env, trace, 0);
      ZeroesDoNotCut(env, trace, m);
      assert Cuts(env, trace, 0 + 1) == Cuts(env, trace, m + 1);
    } else {
      forall i, j | 0 <= i < j < |trace| && Cuts(env, trace, i + 1) == Cuts(env, trace, j + 1)
        ensures env.interval(trace[i]) == env.interval(trace[j])
      {
        assert env.interval(trace[i]) <= env.interval(trace[j]);
        if env.interval(trace[i]) != 0 {
          RiseCuts(env, trace, i, j);
        } else {
          assert i > 0 ==> env.interval(trace[0]) <= env.interval(trace[i]);
          assert j < |trace| - 1 ==> env.interval(trace[j]) <= env.interval(trace[|trace| - 1]);
        }
      }
    }
  }

  /** The trace starts in interval 0 and ends in a later one. */
  ghost predicate LeavesZero(env: Env, trace: seq<Tuple>) {
    |trace| > 0 && env.interval(trace[0]) == 0 && env.interval(trace[|trace| - 1]) > 0
  }

  /** Where packets are out of order, some packet is of an earlier interval than the one just before it. */
  lemma {:induction false} FirstDescent(env: Env, trace: seq<Tuple>, i: nat, j: nat) returns (m: nat)
    requires i < j < |trace| && env.interval(trace[i]) > env.interval(trace[j])
    ensures 0 < m < |trace| && env.interval(trace[m - 1]) > env.interval(trace[m])
    decreases j
  {
    if env.interval(trace[j - 1]) > env.interval(trace[j]) {
      m := j;
    } else {
      m := FirstDescent(env, trace, i, j - 1);
    }
  }

  /**
   For every trace, each emitted sketch covers a single interval exactly when
   the packets are in time order and do not start in interval 0 and leave it.
   A packet of an earlier interval is not cut off from the later one; and the
   marker for "no interval yet" is the number 0, so the first rise from 0 is
   not cut either.
   */
  lemma SegmentsPureIff(env: Env, trace: seq<Tuple>)
    requires IsTrace(trace)
    ensures SegmentsPure(env, trace) <==> InTimeOrder(env, trace) && !LeavesZero(env, trace)
  {
    if InTimeOrder(env, trace) {
      SegmentsPureInOrder(env, trace);
    } else {
      var i, j :| 0 <= i < j < |trace| && env.interval(trace[i]) > env.interval(trace[j]);
      var m := FirstDescent(env, trace, i, j);
      assert !CutBefore(env, trace, m);
      assert Cuts(env, trace, (m - 1) + 1) == Cuts(env, trace, m + 1);
    }
  }

  // ---- the segments, packet by packet ----

  /** The items of those of the first n packets that are behind exactly c cuts. */
  function Members(env: Env, trace: seq<Tuple>, n: nat, c: nat): Stream
    requires n <= |trace| && IsTrace(trace)
  {
    if n == 0 then []
    else Members(env, trace, n - 1, c) + if Cuts(env, trace, n) == c then [ItemOf(env, trace[n - 1])] else []
  }

  lemma {:induction false} MembersBeyond(env: Env, trace: seq<Tuple>, n: nat, c: nat)
    requires n <= |trace| && IsTrace(trace) && c > Cuts(env, trace, n)
    ensures Members(env, trace, n, c) == []
    decreases n
  {
    if n > 0 {
      MembersBeyond(env, trace, n - 1, c);
    }
  }

  /** Segment c holds exactly the items of the packets behind c cuts, in order. */
  lemma {:induction false} SegmentHolds(env: Env, trace: seq<Tuple>, n: nat, c: nat)
    requires n <= |trace| && IsTrace(trace) && c <= Cuts(env, trace, n)
    ensures |Segments(env, trace, n)| == Cuts(env, trace, n) + 1
    ensures Segments(env, trace, n)[c] == Members(env, trace, n, c)
    decreases n
  {
    CutsCountSegments(env, trace, n);
    if n > 0 {
      CutsCountSegments(env, trace, n - 1);
      if c <= Cuts(env, trace, n - 1) {
        SegmentHolds(env, trace, n - 1, c);
      } else {
        MembersBeyond(env, trace, n - 1, c);
      }
    }
  }
}
