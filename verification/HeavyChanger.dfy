/**
 heavy_changer.hpp: two MV-Sketches, one per epoch, swapped at each Reset.
 */
module HeavyChanger {
  import opened Arith
  import opened MVSketchSpec
  import opened MVSketch

  /** The change that Query reports for a key: the wider of the two estimate gaps. */
  function Change(sh: Shape, older: Table, newer: Table, k: Key): int
    requires sh.width > 0 && |older| == |newer| == sh.depth * sh.width
  {
    var oldLow, oldUp := Low(sh, older, k, sh.depth), Up(sh, older, k, sh.depth);
    var newLow, newUp := Low(sh, newer, k, sh.depth), Up(sh, newer, k, sh.depth);
    var diff1 := if newUp > oldLow then newUp - oldLow else oldLow - newUp;
    var diff2 := if newLow > oldUp then newLow - oldUp else oldUp - newLow;
    if diff1 > diff2 then diff1 else diff2
  }

  ghost predicate Examined(sh: Shape, older: Table, newer: Table, thresh: int, k: Key)
    requires sh.width > 0 && |older| == |newer| == sh.depth * sh.width
  {
    Reported(sh, newer, thresh, k) || Reported(sh, older, thresh, k)
  }

  function Gap(s: Stream, u: Stream, k: Key): int {
    if Total(s, k) <= Total(u, k) then Total(u, k) - Total(s, k) else Total(s, k) - Total(u, k)
  }

  /** The reported change of a key that does not begin with the empty marker is at least its true change. */
  lemma ChangeCoversGap(sh: Shape, so: Stream, sn: Stream, older: Table, newer: Table, k: Key)
    requires SoundTable(sh, so, older) && SoundTable(sh, sn, newer) && Good(sh, so) && Good(sh, sn)
    requires sh.depth > 0 && !Unset(k)
    ensures Change(sh, older, newer, k) >= Gap(so, sn, k)
  {
    RowsBracket(sh, so, older, k, sh.depth);
    RowsBracket(sh, sn, newer, k, sh.depth);
  }

  function Distance(a: int, b: int): nat {
    if a <= b then b - a else a - b
  }

  /** The change is the widest one that the two pairs of estimates allow. */
  lemma ChangeIsWidest(sh: Shape, older: Table, newer: Table, k: Key)
    requires sh.width > 0 && |older| == |newer| == sh.depth * sh.width
    requires Low(sh, older, k, sh.depth) <= Up(sh, older, k, sh.depth)
    requires Low(sh, newer, k, sh.depth) <= Up(sh, newer, k, sh.depth)
    ensures
      var (oldLow, oldUp) := (Low(sh, older, k, sh.depth), Up(sh, older, k, sh.depth));
      var (newLow, newUp) := (Low(sh, newer, k, sh.depth), Up(sh, newer, k, sh.depth));
      var change := Change(sh, older, newer, k);
      && (forall a, b | oldLow <= a <= oldUp && newLow <= b <= newUp :: Distance(a, b) <= change)
      && (change == Distance(oldLow, newUp) || change == Distance(oldUp, newLow))
  {
  }

  /** It exceeds the true change by no more than the two brackets are wide. */
  lemma ChangeWithin(sh: Shape, so: Stream, sn: Stream, older: Table, newer: Table, k: Key)
    requires SoundTable(sh, so, older) && SoundTable(sh, sn, newer) && Good(sh, so) && Good(sh, sn)
    requires sh.depth > 0 && !Unset(k)
    ensures Change(sh, older, newer, k) <= Gap(so, sn, k)
              + (Up(sh, older, k, sh.depth) - Low(sh, older, k, sh.depth))
              + (Up(sh, newer, k, sh.depth) - Low(sh, newer, k, sh.depth))
  {
    RowsBracket(sh, so, older, k, sh.depth);
    RowsBracket(sh, sn, newer, k, sh.depth);
  }

  // ---- whole histories ----

  datatype Op = Put(key: Key, val: int) | NewEpoch

  /** The stream of the previous epoch and of the current one after a history of calls. */
  function Epochs(ops: seq<Op>): (Stream, Stream) {
    if ops == [] then ([], [])
    else
      var (so, sn) := Epochs(ops[..|ops| - 1]);
      match ops[|ops| - 1]
      case Put(k, v) => (so, sn + [(k, v)])
      case NewEpoch => (sn, [])
  }

  /** The tables that the two sketches hold after the same history. */
  function Tables(sh: Shape, ops: seq<Op>): (Table, Table)
    requires sh.width > 0
  {
    if ops == [] then (EmptyTable(sh), EmptyTable(sh))
    else StepTables(sh, Tables(sh, ops[..|ops| - 1]), ops[|ops| - 1])
  }

  function StepTables(sh: Shape, ts: (Table, Table), op: Op): (Table, Table)
    requires sh.width > 0
  {
    match op
    case Put(k, v) => (ts.0, FeedTable(sh, ts.1, k, v))
    case NewEpoch => (ts.1, EmptyTable(sh))
  }

  ghost predicate GoodOps(sh: Shape, ops: seq<Op>) {
    forall n :: 0 <= n < |ops| && ops[n].Put? ==>
      |ops[n].key| == sh.keyLen && ops[n].val >= 0
  }

  /** The two tables are those of fresh sketches fed the two epochs' streams. */
  lemma {:induction false} TablesTrackEpochs(sh: Shape, ops: seq<Op>)
    requires sh.Ok() && GoodOps(sh, ops)
    ensures
      var (so, sn) := Epochs(ops);
      Good(sh, so) && Good(sh, sn) && Tables(sh, ops) == (TableOf(sh, so), TableOf(sh, sn))
    decreases |ops|
  {
    if ops != [] {
      var before := ops[..|ops| - 1];
      TablesTrackEpochs(sh, before);
      var (so, sn) := Epochs(before);
      match ops[|ops| - 1] {
        case Put(k, v) =>
          assert (sn + [(k, v)])[..|sn|] == sn;
        case NewEpoch =>
      }
    }
  }

  /** k is a strict majority of one of its buckets in the epoch where it is larger. */
  ghost predicate MajorityInLarger(sh: Shape, ops: seq<Op>, k: Key, i: nat)
    requires sh.Ok() && GoodOps(sh, ops) && i < sh.depth
  {
    TablesTrackEpochs(sh, ops);
    var ((so, sn), (older, newer)) := (Epochs(ops), Tables(sh, ops));
    StreamSound(sh, so);
    StreamSound(sh, sn);
    if Total(so, k) <= Total(sn, k) then MajorityIn(sh, sn, newer, k, i) else MajorityIn(sh, so, older, k, i)
  }

  /**
   After any history of updates and resets, a key whose true change exceeds the
   threshold and that is such a majority is examined, and the change reported
   for it is above the threshold and no less than the true one.
   */
  lemma ChangerRecall(sh: Shape, ops: seq<Op>, thresh: int, k: Key, i: nat)
    requires sh.Ok() && GoodOps(sh, ops) && i < sh.depth
    requires var (so, sn) := Epochs(ops); Gap(so, sn, k) > thresh
    requires MajorityInLarger(sh, ops, k, i) && !Unset(k)
    ensures
      var ((so, sn), (older, newer)) := (Epochs(ops), Tables(sh, ops));
      |older| == |newer| == sh.depth * sh.width
      && Examined(sh, older, newer, thresh, k)
      && Change(sh, older, newer, k) >= Gap(so, sn, k) > thresh
  {
    TablesTrackEpochs(sh, ops);
    var (so, sn) := Epochs(ops);
    StreamSound(sh, so);
    StreamSound(sh, sn);
    TotalNonNegative(sh, so, k);
    TotalNonNegative(sh, sn, k);
    ChangeCoversGap(sh, so, sn, TableOf(sh, so), TableOf(sh, sn), k);
    if Total(so, k) <= Total(sn, k) {
      QueryRecall(sh, sn, TableOf(sh, sn), thresh, k, i);
    } else {
      QueryRecall(sh, so, TableOf(sh, so), thresh, k, i);
    }
  }

  /**
   After any history, the change of a key without the marker lies between the
   true change and that plus the widths of the two brackets; with exact
   estimates it is the true change, so a key that did not move is not reported.
   */
  lemma ChangerPrecision(sh: Shape, ops: seq<Op>, k: Key)
    requires sh.Ok() && GoodOps(sh, ops) && sh.depth > 0 && !Unset(k)
    ensures
      var ((so, sn), (older, newer)) := (Epochs(ops), Tables(sh, ops));
      |older| == |newer| == sh.depth * sh.width
      && var wide := (Up(sh, older, k, sh.depth) - Low(sh, older, k, sh.depth))
                     + (Up(sh, newer, k, sh.depth) - Low(sh, newer, k, sh.depth));
      Gap(so, sn, k) <= Change(sh, older, newer, k) <= Gap(so, sn, k) + wide
      && (wide == 0 ==> Change(sh, older, newer, k) == Gap(so, sn, k))
  {
    TablesTrackEpochs(sh, ops);
    var (so, sn) := Epochs(ops);
    StreamSound(sh, so);
    StreamSound(sh, sn);
    ChangeCoversGap(sh, so, sn, TableOf(sh, so), TableOf(sh, sn), k);
    ChangeWithin(sh, so, sn, TableOf(sh, so), TableOf(sh, sn), k);
  }

  /** Over all histories, the change covers the true change of a key exactly when it does not begin with the marker. */
  lemma ChangeCoversIff(sh: Shape, k: Key)
    requires sh.Ok() && sh.depth > 0 && |k| == sh.keyLen
    ensures (forall so, sn | Good(sh, so) && Good(sh, sn) ::
               Change(sh, TableOf(sh, so), TableOf(sh, sn), k) >= Gap(so, sn, k)) <==> !Unset(k)
  {
    if Unset(k) {
      TwiceCountsOnce(sh, k, sh.depth);
      EmptyEstimates(sh, k, sh.depth);
      assert Change(sh, TableOf(sh, []), TableOf(sh, Twice(k)), k) == 1 < Gap([], Twice(k), k);
    } else {
      forall so, sn | Good(sh, so) && Good(sh, sn)
        ensures Change(sh, TableOf(sh, so), TableOf(sh, sn), k) >= Gap(so, sn, k)
      {
        StreamSound(sh, so);
        StreamSound(sh, sn);
        ChangeCoversGap(sh, so, sn, TableOf(sh, so), TableOf(sh, sn), k);
      }
    }
  }

  /** The history is answered as ChangerRecall promises. */
  ghost predicate Recalled(sh: Shape, ops: seq<Op>, thresh: int, k: Key)
    requires sh.Ok() && GoodOps(sh, ops)
  {
    TablesTrackEpochs(sh, ops);
    var ((so, sn), (older, newer)) := (Epochs(ops), Tables(sh, ops));
    Examined(sh, older, newer, thresh, k) && Change(sh, older, newer, k) >= Gap(so, sn, k)
  }

  /** The premises of ChangerRecall about the history and the threshold. */
  ghost predicate Promised(sh: Shape, ops: seq<Op>, thresh: int, k: Key, i: nat)
    requires sh.Ok() && GoodOps(sh, ops) && i < sh.depth
  {
    Gap(Epochs(ops).0, Epochs(ops).1, k) > thresh && MajorityInLarger(sh, ops, k, i)
  }

  lemma EpochsSnoc(ops: seq<Op>, op: Op)
    ensures Epochs(ops + [op]) == match op
                                  case Put(k, v) => (Epochs(ops).0, Epochs(ops).1 + [(k, v)])
                                  case NewEpoch => (Epochs(ops).1, [])
  {
    assert (ops + [op])[..|ops|] == ops;
  }

  /** Two updates of a marker key: a change of 2 is promised above threshold 1 and seen as 1. */
  lemma TwoPutsMissed(sh: Shape, k: Key)
    requires sh.Ok() && sh.depth > 0 && |k| == sh.keyLen && Unset(k)
    ensures
      var ops := [] + [Put(k, 1)] + [Put(k, 1)];
      GoodOps(sh, ops) && Promised(sh, ops, 1, k, 0) && !Recalled(sh, ops, 1, k)
  {
    var ops := [] + [Put(k, 1)] + [Put(k, 1)];
    EpochsSnoc([], Put(k, 1));
    EpochsSnoc([] + [Put(k, 1)], Put(k, 1));
    TablesTrackEpochs(sh, ops);
    TwiceCountsOnce(sh, k, sh.depth);
    EmptyEstimates(sh, k, sh.depth);
    FlatIndex(sh.depth, sh.width, 0, sh.Col(0, k));
    SecondForgetsFirst(sh, k, 0 * sh.width + sh.Col(0, k));
    assert MajorityIn(sh, Twice(k), TableOf(sh, Twice(k)), k, 0);
  }

  /** Over all histories, thresholds and rows, the promise is kept exactly for keys that do not begin with the marker. */
  lemma ChangerRecallIff(sh: Shape, k: Key)
    requires sh.Ok() && sh.depth > 0 && |k| == sh.keyLen
    ensures (forall ops, thresh, i | GoodOps(sh, ops) && 0 <= i < sh.depth && Promised(sh, ops, thresh, k, i) ::
               Recalled(sh, ops, thresh, k)) <==> !Unset(k)
  {
    if Unset(k) {
      TwoPutsMissed(sh, k);
    } else {
      forall ops, thresh, i | GoodOps(sh, ops) && 0 <= i < sh.depth && Promised(sh, ops, thresh, k, i)
        ensures Recalled(sh, ops, thresh, k)
      {
        ChangerRecall(sh, ops, thresh, k, i);
      }
    }
  }

  lemma {:induction false} EmptyEstimates(sh: Shape, k: Key, n: nat)
    requires sh.Ok() && n <= sh.depth
    ensures Low(sh, TableOf(sh, []), k, n) == Up(sh, TableOf(sh, []), k, n) == 0
    decreases n
  {
    if n > 0 {
      EmptyEstimates(sh, k, n - 1);
      FlatIndex(sh.depth, sh.width, n - 1, sh.Col(n - 1, k));
    }
  }

  // ---- the object ----

  class HeavyChanger {
    const sh: Shape
    var oldSk: MVSketch
    var curSk: MVSketch

    ghost predicate Valid()
      reads this, oldSk, oldSk.counts, curSk, curSk.counts
    {
      && oldSk != curSk && oldSk.counts != curSk.counts
      && oldSk.sh == sh && curSk.sh == sh && oldSk.Valid() && curSk.Valid()
    }

    ghost function View(): (Table, Table)
      reads this, oldSk, oldSk.counts, curSk, curSk.counts
    {
      (oldSk.T(), curSk.T())
    }

    constructor (sh: Shape)
      requires sh.Ok()
      ensures this.sh == sh && Valid() && fresh(oldSk) && fresh(curSk) && fresh(oldSk.counts) && fresh(curSk.counts)
      ensures View() == Tables(sh, [])
    {
      this.sh := sh;
      oldSk := new MVSketch(sh);
      curSk := new MVSketch(sh);
    }

    method Update(key: Key, val: int)
      requires Valid() && |key| == sh.keyLen
      modifies curSk, curSk.counts
      ensures Valid() && View() == StepTables(sh, old(View()), Put(key, val))
      ensures oldSk == old(oldSk) && curSk == old(curSk)
    {
      curSk.Update(key, val);
    }

    method Reset()
      requires Valid()
      modifies this, oldSk, oldSk.counts
      ensures Valid() && View() == StepTables(sh, old(View()), NewEpoch)
      ensures oldSk == old(curSk) && curSk == old(oldSk)
    {
      oldSk.Reset();
      var temp := oldSk;
      oldSk := curSk;
      curSk := temp;
    }

    /** The change of one key, from the four estimates. */
    method ChangeOf(key: Key) returns (change: int)
      requires Valid()
      ensures change == Change(sh, View().0, View().1, key)
    {
      var oldLow := oldSk.LowEstimate(key);
      var oldUp := oldSk.UpEstimate(key);
      var newLow := curSk.LowEstimate(key);
      var newUp := curSk.UpEstimate(key);
      var diff1 := if newUp > oldLow then newUp - oldLow else oldLow - newUp;
      var diff2 := if newLow > oldUp then newLow - oldUp else oldUp - newLow;
      change := if diff1 > diff2 then diff1 else diff2;
    }

    /** The keys that either sketch reports. */
    method ReportedKeys(thresh: int) returns (keys: set<Key>)
      requires Valid()
      ensures forall k :: k in keys <==> Examined(sh, View().0, View().1, thresh, k)
    {
      var res1 := curSk.Query(thresh);
      var res2 := oldSk.Query(thresh);
      keys := {};
      for i := 0 to |res1|
        invariant forall k :: k in keys <==> exists a :: 0 <= a < i && res1[a].0 == k
      {
        keys := keys + {res1[i].0};
      }
      ghost var first := keys;
      assert forall k :: k in first <==> Reported(sh, curSk.T(), thresh, k) by {
        forall k
          ensures k in first <==> Reported(sh, curSk.T(), thresh, k)
        {
          FirstOf(res1, k, Up(sh, curSk.T(), k, sh.depth));
        }
      }
      for i := 0 to |res2|
        invariant forall k :: k in keys <==> k in first || exists a :: 0 <= a < i && res2[a].0 == k
      {
        keys := keys + {res2[i].0};
      }
      forall k
        ensures k in keys <==> k in first || Reported(sh, oldSk.T(), thresh, k)
      {
        FirstOf(res2, k, Up(sh, oldSk.T(), k, sh.depth));
      }
    }

    method Query(thresh: int) returns (result: seq<(Key, int)>)
      requires Valid()
      ensures forall k, c :: (k, c) in result <==>
                Examined(sh, View().0, View().1, thresh, k)
                && c == Change(sh, View().0, View().1, k) && c > thresh
      ensures forall a, b :: 0 <= a < b < |result| ==> result[a].0 != result[b].0
    {
      var keys := ReportedKeys(thresh);
      result := [];
      var todo := keys;
      while todo != {}
        invariant todo <= keys
        invariant forall k, c :: (k, c) in result <==>
                    k in keys - todo && c == Change(sh, View().0, View().1, k) && c > thresh
        invariant forall a, b :: 0 <= a < b < |result| ==> result[a].0 != result[b].0
        decreases todo
      {
        var it :| it in todo;
        var change := ChangeOf(it);
        if change > thresh {
          forall a | 0 <= a < |result|
            ensures result[a].0 != it
          {
            var (k, c) := result[a];
            assert (k, c) in result;
          }
          result := result + [(it, change)];
        }
        todo := todo - {it};
      }
    }
  }

  /** A key heads some result pair exactly when its pair with the expected estimate is there. */
  lemma FirstOf(res: seq<(Key, int)>, k: Key, e: int)
    requires forall x :: (k, x) in res ==> x == e
    ensures (exists a :: 0 <= a < |res| && res[a].0 == k) <==> (k, e) in res
  {
    if a :| 0 <= a < |res| && res[a].0 == k {
      var (k', x) := res[a];
      assert (k, x) in res;
    }
  }
}
