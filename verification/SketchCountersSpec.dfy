/**
 SketchLearn's bit counters on values.  Every bucket has a total, one counter
 per key bit that is one and, once completed, one per key bit that is zero.
 Counters are unbounded integers, amounts are signed, and the row hashes are
 arbitrary functions.
 */
module SketchCountersSpec {
  import opened Arith
  import opened Bits

  type Key = seq<bv8>
  type Item = (Key, int)
  type Stream = seq<Item>
  type Table = seq<seq<int>>

  /** Rows, buckets per row, key length in bytes, and the row hashes before `% width`. */
  datatype Shape = Shape(depth: nat, width: nat, keyLen: nat, hash: (nat, Key) -> nat) {
    function Lgn(): nat {
      8 * keyLen
    }

    function Size(): nat {
      depth * width
    }

    function Col(i: nat, k: Key): nat
      requires width > 0
    {
      hash(i, k) % width
    }
  }

  predicate Reaches(sh: Shape, k: Key, x: nat)
    requires sh.width > 0
  {
    sh.Col(x / sh.width, k) == x % sh.width
  }

  /** Does counter c of a bucket count key k?  0 is the total, pos + 1 the ones, pos + 1 + lgn the zeroes. */
  predicate Counts(sh: Shape, k: Key, c: nat)
    requires |k| == sh.keyLen
  {
    c == 0 || (1 <= c <= sh.Lgn() && BitAt(k, c - 1)) || (sh.Lgn() < c <= 2 * sh.Lgn() && !BitAt(k, c - 1 - sh.Lgn()))
  }

  ghost predicate GoodKeys(sh: Shape, s: Stream) {
    forall n :: 0 <= n < |s| ==> |s[n].0| == sh.keyLen
  }

  ghost predicate Shaped(sh: Shape, t: Table) {
    sh.width > 0 && |t| == sh.Size() && forall x :: 0 <= x < |t| ==> |t[x]| == 1 + 2 * sh.Lgn()
  }

  // ---- the operations ----

  /** SKL_Update: the total and the one-counters move, the zero-counters do not. */
  function Update(sh: Shape, t: Table, k: Key, diff: int): (r: Table)
    requires Shaped(sh, t) && |k| == sh.keyLen
    ensures Shaped(sh, r)
  {
    seq(|t|, x requires 0 <= x < |t| => if Reaches(sh, k, x) then InsertRow(sh, t[x], k, diff, 0) else t[x])
  }

  /** loginsert once it has worked its way down to `length`: the total and the one-counters above it have moved. */
  function InsertRow(sh: Shape, row: seq<int>, k: Key, diff: int, length: int): (r: seq<int>)
    requires |row| == 1 + 2 * sh.Lgn() && |k| == sh.keyLen
    ensures |r| == |row|
  {
    seq(|row|, c requires 0 <= c < |row| =>
      if (c == 0 || length < c <= sh.Lgn()) && Counts(sh, k, c) then row[c] + diff else row[c])
  }

  /** The integer part of SKL_CompleteZeroes. */
  function Complete(sh: Shape, t: Table): (r: Table)
    requires Shaped(sh, t)
    ensures Shaped(sh, r)
  {
    seq(|t|, x requires 0 <= x < |t| =>
      seq(|t[x]|, c requires 0 <= c < |t[x]| => if c <= sh.Lgn() then t[x][c] else t[x][0] - t[x][c - sh.Lgn()]))
  }

  /** SKL_Merge. */
  function Add(sh: Shape, t: Table, u: Table): (r: Table)
    requires Shaped(sh, t) && Shaped(sh, u)
    ensures Shaped(sh, r)
  {
    seq(|t|, x requires 0 <= x < |t| => seq(|t[x]|, c requires 0 <= c < |t[x]| => t[x][c] + u[x][c]))
  }

  /** SKL_Diff. */
  function Subtract(sh: Shape, t: Table, u: Table): (r: Table)
    requires Shaped(sh, t) && Shaped(sh, u)
    ensures Shaped(sh, r)
  {
    seq(|t|, x requires 0 <= x < |t| => seq(|t[x]|, c requires 0 <= c < |t[x]| => t[x][c] - u[x][c]))
  }

  function EmptyTable(sh: Shape): (r: Table)
    requires sh.width > 0
    ensures Shaped(sh, r)
  {
    seq(sh.Size(), _ => seq(1 + 2 * sh.Lgn(), _ => 0))
  }

  /** Any table after a whole stream of updates. */
  function UpdateAll(sh: Shape, t: Table, s: Stream): (r: Table)
    requires Shaped(sh, t) && GoodKeys(sh, s)
    ensures Shaped(sh, r)
  {
    if s == [] then t else Update(sh, UpdateAll(sh, t, s[..|s| - 1]), s[|s| - 1].0, s[|s| - 1].1)
  }

  function SketchOf(sh: Shape, s: Stream): (r: Table)
    requires sh.width > 0 && GoodKeys(sh, s)
    ensures Shaped(sh, r)
  {
    UpdateAll(sh, EmptyTable(sh), s)
  }

  // ---- what a counter means ----

  /** The signed total of the stream's keys that reach bucket x and that counter c counts. */
  function Tally(sh: Shape, s: Stream, x: nat, c: nat): int
    requires sh.width > 0 && GoodKeys(sh, s)
  {
    if s == [] then 0
    else Tally(sh, s[..|s| - 1], x, c) + Share(sh, s[|s| - 1], x, c)
  }

  function Share(sh: Shape, item: Item, x: nat, c: nat): int
    requires sh.width > 0 && |item.0| == sh.keyLen
  {
    if Reaches(sh, item.0, x) && Counts(sh, item.0, c) then item.1 else 0
  }

  lemma {:induction false} UpdatesAddTally(sh: Shape, t: Table, s: Stream, x: nat, c: nat)
    requires Shaped(sh, t) && GoodKeys(sh, s) && x < sh.Size() && c <= 2 * sh.Lgn()
    ensures UpdateAll(sh, t, s)[x][c] == t[x][c] + if c <= sh.Lgn() then Tally(sh, s, x, c) else 0
    decreases |s|
  {
    if s != [] {
      UpdatesAddTally(sh, t, s[..|s| - 1], x, c);
    }
  }

  /** The ones and the zeroes at a position split the total. */
  lemma {:induction false} TallySplits(sh: Shape, s: Stream, x: nat, pos: nat)
    requires sh.width > 0 && GoodKeys(sh, s) && pos < sh.Lgn()
    ensures Tally(sh, s, x, pos + 1) + Tally(sh, s, x, pos + 1 + sh.Lgn()) == Tally(sh, s, x, 0)
    decreases |s|
  {
    if s != [] {
      TallySplits(sh, s[..|s| - 1], x, pos);
    }
  }

  /** After any updates and completion, each counter is the signed total of the keys it stands for. */
  lemma {:induction false} CounterMeaning(sh: Shape, s: Stream, x: nat, c: nat)
    requires sh.width > 0 && GoodKeys(sh, s) && x < sh.Size() && c <= 2 * sh.Lgn()
    ensures Complete(sh, SketchOf(sh, s))[x][c] == Tally(sh, s, x, c)
  {
    var t := EmptyTable(sh);
    UpdatesAddTally(sh, t, s, x, 0);
    if c <= sh.Lgn() {
      UpdatesAddTally(sh, t, s, x, c);
    } else {
      UpdatesAddTally(sh, t, s, x, c - sh.Lgn());
      TallySplits(sh, s, x, c - 1 - sh.Lgn());
    }
  }

  // ---- linearity ----

  lemma GoodConcat(sh: Shape, s: Stream, u: Stream)
    requires GoodKeys(sh, s) && GoodKeys(sh, u)
    ensures GoodKeys(sh, s + u)
  {
  }

  lemma {:induction false} TallyConcat(sh: Shape, s: Stream, u: Stream, x: nat, c: nat)
    requires sh.width > 0 && GoodKeys(sh, s) && GoodKeys(sh, u) && GoodKeys(sh, s + u)
    ensures Tally(sh, s + u, x, c) == Tally(sh, s, x, c) + Tally(sh, u, x, c)
    decreases |u|
  {
    if u == [] {
      assert s + u == s;
    } else {
      var u0 := u[..|u| - 1];
      assert (s + u)[..|s + u| - 1] == s + u0;
      GoodConcat(sh, s, u0);
      TallyConcat(sh, s, u0, x, c);
    }
  }

  lemma TablesEqual(sh: Shape, t: Table, u: Table)
    requires Shaped(sh, t) && Shaped(sh, u)
    requires forall x, c :: 0 <= x < sh.Size() && 0 <= c <= 2 * sh.Lgn() ==> t[x][c] == u[x][c]
    ensures t == u
  {
    forall x | 0 <= x < sh.Size()
      ensures t[x] == u[x]
    {
      assert forall c :: 0 <= c < |t[x]| ==> t[x][c] == u[x][c];
    }
  }

  /** Merging two completed sketches is the completed sketch of the streams one after the other. */
  lemma MergeIsConcat(sh: Shape, s: Stream, u: Stream)
    requires sh.width > 0 && GoodKeys(sh, s) && GoodKeys(sh, u) && GoodKeys(sh, s + u)
    ensures Add(sh, Complete(sh, SketchOf(sh, s)), Complete(sh, SketchOf(sh, u))) == Complete(sh, SketchOf(sh, s + u))
  {
    var l := Add(sh, Complete(sh, SketchOf(sh, s)), Complete(sh, SketchOf(sh, u)));
    var r := Complete(sh, SketchOf(sh, s + u));
    forall x, c | 0 <= x < sh.Size() && 0 <= c <= 2 * sh.Lgn()
      ensures l[x][c] == r[x][c]
    {
      CounterMeaning(sh, s, x, c);
      CounterMeaning(sh, u, x, c);
      CounterMeaning(sh, s + u, x, c);
      TallyConcat(sh, s, u, x, c);
    }
    TablesEqual(sh, l, r);
  }

  /** SKL_Diff undoes SKL_Merge on every table. */
  lemma DiffUndoesMerge(sh: Shape, t: Table, u: Table)
    requires Shaped(sh, t) && Shaped(sh, u)
    ensures Subtract(sh, Add(sh, t, u), u) == t
  {
    TablesEqual(sh, Subtract(sh, Add(sh, t, u), u), t);
  }

  // ---- a sketch depends only on the net amount of each key ----

  function Net(s: Stream, k: Key): int {
    if s == [] then 0 else Net(s[..|s| - 1], k) + if s[|s| - 1].0 == k then s[|s| - 1].1 else 0
  }

  function Without(s: Stream, k: Key): (r: Stream)
    ensures |r| <= |s|
  {
    if s == [] then []
    else if s[|s| - 1].0 == k then Without(s[..|s| - 1], k)
    else Without(s[..|s| - 1], k) + [s[|s| - 1]]
  }

  lemma {:induction false} WithoutFacts(sh: Shape, s: Stream, k: Key, j: Key)
    requires GoodKeys(sh, s)
    ensures GoodKeys(sh, Without(s, k))
    ensures Net(Without(s, k), j) == if j == k then 0 else Net(s, j)
    decreases |s|
  {
    if s != [] {
      var s0, e := s[..|s| - 1], s[|s| - 1];
      WithoutFacts(sh, s0, k, j);
      if e.0 != k {
        assert (Without(s0, k) + [e])[..|Without(s0, k)|] == Without(s0, k);
      }
    }
  }

  lemma {:induction false} WithoutShrinks(s: Stream, k: Key)
    requires exists n :: 0 <= n < |s| && s[n].0 == k
    ensures |Without(s, k)| < |s|
    decreases |s|
  {
    var s0 := s[..|s| - 1];
    if s[|s| - 1].0 != k {
      var n :| 0 <= n < |s| && s[n].0 == k;
      assert s0[n].0 == k;
      WithoutShrinks(s0, k);
    }
  }

  /** Taking one key out of the stream takes its net amount out of the counters that count it. */
  lemma {:induction false} TallyWithout(sh: Shape, s: Stream, k: Key, x: nat, c: nat)
    requires sh.width > 0 && GoodKeys(sh, s) && |k| == sh.keyLen && GoodKeys(sh, Without(s, k))
    ensures Tally(sh, s, x, c) == Tally(sh, Without(s, k), x, c) + Share(sh, (k, Net(s, k)), x, c)
    decreases |s|
  {
    if s != [] {
      var s0, e := s[..|s| - 1], s[|s| - 1];
      WithoutFacts(sh, s0, k, k);
      TallyWithout(sh, s0, k, x, c);
      if e.0 != k {
        assert (Without(s0, k) + [e])[..|Without(s0, k)|] == Without(s0, k);
      }
    }
  }

  ghost predicate SameNets(s: Stream, u: Stream) {
    forall k :: Net(s, k) == Net(u, k)
  }

  lemma {:induction false} NetsDecide(sh: Shape, s: Stream, u: Stream, x: nat, c: nat)
    requires sh.width > 0 && GoodKeys(sh, s) && GoodKeys(sh, u) && SameNets(s, u)
    ensures Tally(sh, s, x, c) == Tally(sh, u, x, c)
    decreases |s| + |u|
  {
    if s != [] || u != [] {
      var k := if s != [] then s[0].0 else u[0].0;
      var s1, u1 := Without(s, k), Without(u, k);
      WithoutFacts(sh, s, k, k);
      WithoutFacts(sh, u, k, k);
      forall j
        ensures Net(s1, j) == Net(u1, j)
      {
        WithoutFacts(sh, s, k, j);
        WithoutFacts(sh, u, k, j);
      }
      if s != [] {
        WithoutShrinks(s, k);
      } else {
        WithoutShrinks(u, k);
      }
      TallyWithout(sh, s, k, x, c);
      TallyWithout(sh, u, k, x, c);
      NetsDecide(sh, s1, u1, x, c);
    }
  }

  function Negated(list: Stream): Stream {
    seq(|list|, n requires 0 <= n < |list| => (list[n].0, -list[n].1))
  }

  lemma {:induction false} NetConcat(s: Stream, u: Stream, k: Key)
    ensures Net(s + u, k) == Net(s, k) + Net(u, k)
    decreases |u|
  {
    if u == [] {
      assert s + u == s;
    } else {
      assert (s + u)[..|s + u| - 1] == s + u[..|u| - 1];
      NetConcat(s, u[..|u| - 1], k);
    }
  }

  lemma {:induction false} NetNegated(list: Stream, k: Key)
    ensures Net(Negated(list), k) == -Net(list, k)
    decreases |list|
  {
    if list != [] {
      assert Negated(list)[..|list| - 1] == Negated(list[..|list| - 1]);
      NetNegated(list[..|list| - 1], k);
    }
  }

  lemma {:induction false} UpdateAllConcat(sh: Shape, t: Table, s: Stream, u: Stream)
    requires Shaped(sh, t) && GoodKeys(sh, s) && GoodKeys(sh, u) && GoodKeys(sh, s + u)
    ensures UpdateAll(sh, t, s + u) == UpdateAll(sh, UpdateAll(sh, t, s), u)
    decreases |u|
  {
    if u == [] {
      assert s + u == s;
    } else {
      var u0 := u[..|u| - 1];
      assert (s + u)[..|s + u| - 1] == s + u0;
      GoodConcat(sh, s, u0);
      UpdateAllConcat(sh, t, s, u0);
    }
  }

  /**
   remove_large: subtracting a list of flows from a completed sketch leaves
   exactly the completed sketch of any stream whose net amounts are the old
   ones minus the list's.
   */
  lemma RemovalLeavesRest(sh: Shape, s: Stream, list: Stream, rest: Stream)
    requires sh.width > 0 && GoodKeys(sh, s) && GoodKeys(sh, list) && GoodKeys(sh, rest)
    requires forall k :: Net(rest, k) == Net(s, k) - Net(list, k)
    ensures GoodKeys(sh, Negated(list))
    ensures Complete(sh, UpdateAll(sh, Complete(sh, SketchOf(sh, s)), Negated(list))) == Complete(sh, SketchOf(sh, rest))
  {
    var neg := Negated(list);
    GoodConcat(sh, s, neg);
    forall k
      ensures Net(s + neg, k) == Net(rest, k)
    {
      NetConcat(s, neg, k);
      NetNegated(list, k);
    }
    var l := Complete(sh, UpdateAll(sh, Complete(sh, SketchOf(sh, s)), neg));
    var r := Complete(sh, SketchOf(sh, rest));
    forall x, c | 0 <= x < sh.Size() && 0 <= c <= 2 * sh.Lgn()
      ensures l[x][c] == r[x][c]
    {
      RemovedCounter(sh, s, neg, x, c);
      NetsDecide(sh, s + neg, rest, x, c);
      CounterMeaning(sh, rest, x, c);
    }
    TablesEqual(sh, l, r);
  }

  lemma RemovedCounter(sh: Shape, s: Stream, u: Stream, x: nat, c: nat)
    requires sh.width > 0 && GoodKeys(sh, s) && GoodKeys(sh, u) && GoodKeys(sh, s + u)
    requires x < sh.Size() && c <= 2 * sh.Lgn()
    ensures Complete(sh, UpdateAll(sh, Complete(sh, SketchOf(sh, s)), u))[x][c] == Tally(sh, s + u, x, c)
  {
    var t := Complete(sh, SketchOf(sh, s));
    var low := if c <= sh.Lgn() then c else c - sh.Lgn();
    UpdatesAddTally(sh, t, u, x, 0);
    UpdatesAddTally(sh, t, u, x, low);
    CounterMeaning(sh, s, x, 0);
    CounterMeaning(sh, s, x, low);
    TallyConcat(sh, s, u, x, 0);
    TallyConcat(sh, s, u, x, low);
    if c > sh.Lgn() {
      TallySplits(sh, s + u, x, low - 1);
    }
  }

  // ---- estimates ----

  /** The counter that agrees with the key at a bit position. */
  function KeyCounter(sh: Shape, k: Key, pos: nat): nat
    requires |k| == sh.keyLen && pos < sh.Lgn()
  {
    if BitAt(k, pos) then pos + 1 else pos + 1 + sh.Lgn()
  }

  /** The flat index of the key's bucket in row i. */
  function BucketOf(sh: Shape, i: nat, k: Key): (x: nat)
    requires sh.width > 0 && i < sh.depth
    ensures x < sh.Size() && x / sh.width == i && x % sh.width == sh.Col(i, k) && Reaches(sh, k, x)
  {
    FlatIndex(sh.depth, sh.width, i, sh.Col(i, k));
    i * sh.width + sh.Col(i, k)
  }

  /** v is the least of a bucket's total and the key's counters at the positions listed. */
  ghost predicate IsMinAt(sh: Shape, row: seq<int>, k: Key, bits: seq<nat>, v: int)
    requires |row| == 1 + 2 * sh.Lgn() && |k| == sh.keyLen
    requires forall n :: 0 <= n < |bits| ==> bits[n] < sh.Lgn()
  {
    && v <= row[0]
    && (forall n :: 0 <= n < |bits| ==> v <= row[KeyCounter(sh, k, bits[n])])
    && (v == row[0] || exists n :: 0 <= n < |bits| && v == row[KeyCounter(sh, k, bits[n])])
  }

  /** v is the least of a bucket's total and the key's counters at all positions from `length` on. */
  ghost predicate IsMinFrom(sh: Shape, row: seq<int>, k: Key, length: nat, v: int)
    requires |row| == 1 + 2 * sh.Lgn() && |k| == sh.keyLen
  {
    && v <= row[0]
    && (forall pos :: length <= pos < sh.Lgn() ==> v <= row[KeyCounter(sh, k, pos)])
    && (v == row[0] || exists pos :: length <= pos < sh.Lgn() && v == row[KeyCounter(sh, k, pos)])
  }

  ghost predicate IsBucketMin(sh: Shape, row: seq<int>, k: Key, v: int)
    requires |row| == 1 + 2 * sh.Lgn() && |k| == sh.keyLen
  {
    IsMinFrom(sh, row, k, 0, v)
  }

  /** Every key position is in the list. */
  ghost predicate Covers(sh: Shape, bits: seq<nat>) {
    forall pos :: 0 <= pos < sh.Lgn() ==> pos in bits
  }

  lemma CoveringListGivesMin(sh: Shape, row: seq<int>, k: Key, bits: seq<nat>, v: int)
    requires |row| == 1 + 2 * sh.Lgn() && |k| == sh.keyLen
    requires forall n :: 0 <= n < |bits| ==> bits[n] < sh.Lgn()
    requires Covers(sh, bits) && IsMinAt(sh, row, k, bits, v)
    ensures IsBucketMin(sh, row, k, v)
  {
    forall pos | 0 <= pos < sh.Lgn()
      ensures v <= row[KeyCounter(sh, k, pos)]
    {
      assert pos in bits;
    }
    if v != row[0] {
      var n :| 0 <= n < |bits| && v == row[KeyCounter(sh, k, bits[n])];
      assert v == row[KeyCounter(sh, k, bits[n])];
    }
  }

  lemma BucketMinUnique(sh: Shape, row: seq<int>, k: Key, v: int, w: int)
    requires |row| == 1 + 2 * sh.Lgn() && |k| == sh.keyLen
    requires IsBucketMin(sh, row, k, v) && IsBucketMin(sh, row, k, w)
    ensures v == w
  {
  }

  /** v is the least over the first n rows of the key's bucket minimum. */
  ghost predicate IsEstimate(sh: Shape, t: Table, k: Key, n: nat, v: int)
    requires Shaped(sh, t) && |k| == sh.keyLen && n <= sh.depth
  {
    && (forall i, m :: 0 <= i < n && IsBucketMin(sh, t[BucketOf(sh, i, k)], k, m) ==> v <= m)
    && (exists i :: 0 <= i < n && IsBucketMin(sh, t[BucketOf(sh, i, k)], k, v))
  }

  /** There is at most one such value, so any two ways to compute it agree. */
  lemma EstimateUnique(sh: Shape, t: Table, k: Key, n: nat, v: int, w: int)
    requires Shaped(sh, t) && |k| == sh.keyLen && n <= sh.depth
    requires IsEstimate(sh, t, k, n, v) && IsEstimate(sh, t, k, n, w)
    ensures v == w
  {
    var i :| 0 <= i < n && IsBucketMin(sh, t[BucketOf(sh, i, k)], k, v);
    var j :| 0 <= j < n && IsBucketMin(sh, t[BucketOf(sh, j, k)], k, w);
    assert v <= w && w <= v;
  }

  lemma MinAtUnique(sh: Shape, row: seq<int>, k: Key, bits: seq<nat>, v: int, w: int)
    requires |row| == 1 + 2 * sh.Lgn() && |k| == sh.keyLen
    requires forall n :: 0 <= n < |bits| ==> bits[n] < sh.Lgn()
    requires IsMinAt(sh, row, k, bits, v) && IsMinAt(sh, row, k, bits, w)
    ensures v == w
  {
  }

  /** v is the least over all rows of the key's bucket minimum at the listed positions. */
  ghost predicate IsEstimateAt(sh: Shape, t: Table, k: Key, bits: seq<nat>, v: int)
    requires Shaped(sh, t) && |k| == sh.keyLen
    requires forall n :: 0 <= n < |bits| ==> bits[n] < sh.Lgn()
  {
    && (forall i, m :: 0 <= i < sh.depth && IsMinAt(sh, t[BucketOf(sh, i, k)], k, bits, m) ==> v <= m)
    && (exists i :: 0 <= i < sh.depth && IsMinAt(sh, t[BucketOf(sh, i, k)], k, bits, v))
  }

  lemma MinsGiveEstimateAt(sh: Shape, t: Table, k: Key, bits: seq<nat>, mins: seq<int>, v: int)
    requires Shaped(sh, t) && |k| == sh.keyLen && |mins| == sh.depth
    requires forall n :: 0 <= n < |bits| ==> bits[n] < sh.Lgn()
    requires forall i :: 0 <= i < |mins| ==> IsMinAt(sh, t[BucketOf(sh, i, k)], k, bits, mins[i])
    requires v in mins && forall i :: 0 <= i < |mins| ==> v <= mins[i]
    ensures IsEstimateAt(sh, t, k, bits, v)
  {
    forall i, m | 0 <= i < sh.depth && IsMinAt(sh, t[BucketOf(sh, i, k)], k, bits, m)
      ensures v <= m
    {
      MinAtUnique(sh, t[BucketOf(sh, i, k)], k, bits, m, mins[i]);
    }
  }

  /** A list that names every position gives the estimate over all of them. */
  lemma CoveringListGivesEstimate(sh: Shape, t: Table, k: Key, bits: seq<nat>, v: int)
    requires Shaped(sh, t) && |k| == sh.keyLen && Covers(sh, bits)
    requires forall n :: 0 <= n < |bits| ==> bits[n] < sh.Lgn()
    requires IsEstimateAt(sh, t, k, bits, v)
    ensures IsEstimate(sh, t, k, sh.depth, v)
  {
    var i :| 0 <= i < sh.depth && IsMinAt(sh, t[BucketOf(sh, i, k)], k, bits, v);
    CoveringListGivesMin(sh, t[BucketOf(sh, i, k)], k, bits, v);
    forall j, m | 0 <= j < sh.depth && IsBucketMin(sh, t[BucketOf(sh, j, k)], k, m)
      ensures v <= m
    {
      MinIsAtList(sh, t[BucketOf(sh, j, k)], k, bits, m);
    }
  }

  lemma MinIsAtList(sh: Shape, row: seq<int>, k: Key, bits: seq<nat>, v: int)
    requires |row| == 1 + 2 * sh.Lgn() && |k| == sh.keyLen
    requires forall n :: 0 <= n < |bits| ==> bits[n] < sh.Lgn()
    requires Covers(sh, bits) && IsBucketMin(sh, row, k, v)
    ensures IsMinAt(sh, row, k, bits, v)
  {
    if v != row[0] {
      var pos :| 0 <= pos < sh.Lgn() && v == row[KeyCounter(sh, k, pos)];
      assert pos in bits;
    }
  }

  /** The least of the bucket minima of the first n rows is the estimate. */
  lemma MinsGiveEstimate(sh: Shape, t: Table, k: Key, mins: seq<int>, v: int)
    requires Shaped(sh, t) && |k| == sh.keyLen && |mins| <= sh.depth
    requires forall i :: 0 <= i < |mins| ==> IsBucketMin(sh, t[BucketOf(sh, i, k)], k, mins[i])
    requires v in mins && forall i :: 0 <= i < |mins| ==> v <= mins[i]
    ensures IsEstimate(sh, t, k, |mins|, v)
  {
    forall i, m | 0 <= i < |mins| && IsBucketMin(sh, t[BucketOf(sh, i, k)], k, m)
      ensures v <= m
    {
      BucketMinUnique(sh, t[BucketOf(sh, i, k)], k, m, mins[i]);
    }
  }

  ghost predicate NonNegativeNets(s: Stream) {
    forall k :: Net(s, k) >= 0
  }

  lemma {:induction false} TallyNonNegative(sh: Shape, s: Stream, x: nat, c: nat)
    requires sh.width > 0 && GoodKeys(sh, s) && NonNegativeNets(s)
    ensures Tally(sh, s, x, c) >= 0
    decreases |s|
  {
    if s != [] {
      var k := s[0].0;
      var s1 := Without(s, k);
      WithoutFacts(sh, s, k, k);
      forall j
        ensures Net(s1, j) >= 0
      {
        WithoutFacts(sh, s, k, j);
      }
      WithoutShrinks(s, k);
      TallyWithout(sh, s, k, x, c);
      TallyNonNegative(sh, s1, x, c);
    }
  }

  /** A counter that counts a key is at least the key's net amount. */
  lemma TallyCoversKey(sh: Shape, s: Stream, k: Key, x: nat, c: nat)
    requires sh.width > 0 && GoodKeys(sh, s) && NonNegativeNets(s) && |k| == sh.keyLen
    requires Reaches(sh, k, x) && Counts(sh, k, c)
    ensures Tally(sh, s, x, c) >= Net(s, k)
  {
    var s1 := Without(s, k);
    WithoutFacts(sh, s, k, k);
    forall j
      ensures Net(s1, j) >= 0
    {
      WithoutFacts(sh, s, k, j);
    }
    TallyWithout(sh, s, k, x, c);
    TallyNonNegative(sh, s1, x, c);
  }

  lemma CounterCoversKey(sh: Shape, s: Stream, k: Key, x: nat, c: nat)
    requires sh.width > 0 && GoodKeys(sh, s) && NonNegativeNets(s) && |k| == sh.keyLen
    requires x < sh.Size() && Reaches(sh, k, x) && c <= 2 * sh.Lgn() && Counts(sh, k, c)
    ensures Complete(sh, SketchOf(sh, s))[x][c] >= Net(s, k)
  {
    CounterMeaning(sh, s, x, c);
    TallyCoversKey(sh, s, k, x, c);
  }

  lemma BucketMinCovers(sh: Shape, s: Stream, k: Key, x: nat, v: int)
    requires sh.width > 0 && GoodKeys(sh, s) && NonNegativeNets(s) && |k| == sh.keyLen
    requires x < sh.Size() && Reaches(sh, k, x) && IsBucketMin(sh, Complete(sh, SketchOf(sh, s))[x], k, v)
    ensures v >= Net(s, k)
  {
    var row := Complete(sh, SketchOf(sh, s))[x];
    if v == row[0] {
      CounterCoversKey(sh, s, k, x, 0);
    } else {
      var pos :| 0 <= pos < sh.Lgn() && v == row[KeyCounter(sh, k, pos)];
      CounterCoversKey(sh, s, k, x, KeyCounter(sh, k, pos));
    }
  }

  /** With non-negative net amounts, the estimate of a key is never below its net amount. */
  lemma NeverUnderestimates(sh: Shape, s: Stream, k: Key, n: nat, v: int)
    requires sh.width > 0 && GoodKeys(sh, s) && NonNegativeNets(s) && |k| == sh.keyLen && n <= sh.depth
    requires IsEstimate(sh, Complete(sh, SketchOf(sh, s)), k, n, v)
    ensures v >= Net(s, k)
  {
    var t := Complete(sh, SketchOf(sh, s));
    var i :| 0 <= i < n && IsBucketMin(sh, t[BucketOf(sh, i, k)], k, v);
    BucketMinCovers(sh, s, k, BucketOf(sh, i, k), v);
  }

  // ---- what an estimate is, told by the stream alone ----

  /** The signed total of the items that reach bucket x. */
  function BucketTotal(sh: Shape, s: Stream, x: nat): int
    requires sh.width > 0
  {
    if s == [] then 0
    else BucketTotal(sh, s[..|s| - 1], x) + if Reaches(sh, s[|s| - 1].0, x) then s[|s| - 1].1 else 0
  }

  /** The signed total of those among them whose key has the given bit at a position. */
  function BitTotal(sh: Shape, s: Stream, x: nat, pos: nat, one: bool): int
    requires sh.width > 0 && GoodKeys(sh, s) && pos < sh.Lgn()
  {
    if s == [] then 0
    else
      var (k, v) := s[|s| - 1];
      BitTotal(sh, s[..|s| - 1], x, pos, one) + if Reaches(sh, k, x) && BitAt(k, pos) == one then v else 0
  }

  /** The signed total of those that have the same bit there as k. */
  function AgreeTotal(sh: Shape, s: Stream, k: Key, x: nat, pos: nat): int
    requires sh.width > 0 && GoodKeys(sh, s) && |k| == sh.keyLen && pos < sh.Lgn()
  {
    BitTotal(sh, s, x, pos, BitAt(k, pos))
  }

  lemma {:induction false} TallyIsBucketTotal(sh: Shape, s: Stream, x: nat)
    requires sh.width > 0 && GoodKeys(sh, s)
    ensures Tally(sh, s, x, 0) == BucketTotal(sh, s, x)
    decreases |s|
  {
    if s != [] {
      TallyIsBucketTotal(sh, s[..|s| - 1], x);
    }
  }

  lemma {:induction false} TallyIsBitTotal(sh: Shape, s: Stream, x: nat, pos: nat, one: bool)
    requires sh.width > 0 && GoodKeys(sh, s) && pos < sh.Lgn()
    ensures Tally(sh, s, x, if one then pos + 1 else pos + 1 + sh.Lgn()) == BitTotal(sh, s, x, pos, one)
    decreases |s|
  {
    if s != [] {
      TallyIsBitTotal(sh, s[..|s| - 1], x, pos, one);
    }
  }

  /** The counters of a completed sketch, by their places. */
  lemma CountersAre(sh: Shape, s: Stream, x: nat, pos: nat)
    requires sh.width > 0 && GoodKeys(sh, s) && x < sh.Size() && pos < sh.Lgn()
    ensures
      var row := Complete(sh, SketchOf(sh, s))[x];
      && row[0] == BucketTotal(sh, s, x)
      && row[pos + 1] == BitTotal(sh, s, x, pos, true) && row[pos + 1 + sh.Lgn()] == BitTotal(sh, s, x, pos, false)
  {
    CounterMeaning(sh, s, x, 0);
    CounterMeaning(sh, s, x, pos + 1);
    CounterMeaning(sh, s, x, pos + 1 + sh.Lgn());
    TallyIsBucketTotal(sh, s, x);
    TallyIsBitTotal(sh, s, x, pos, true);
    TallyIsBitTotal(sh, s, x, pos, false);
  }

  /** v is the total of bucket x or the total of its items that agree with k at one of the positions. */
  ghost predicate IsOneOf(sh: Shape, s: Stream, k: Key, x: nat, bits: seq<nat>, v: int)
    requires sh.width > 0 && GoodKeys(sh, s) && |k| == sh.keyLen
    requires forall n :: 0 <= n < |bits| ==> bits[n] < sh.Lgn()
  {
    v == BucketTotal(sh, s, x)
    || exists n :: 0 <= n < |bits| && v == AgreeTotal(sh, s, k, x, bits[n])
  }

  ghost predicate IsBelowAll(sh: Shape, s: Stream, k: Key, x: nat, bits: seq<nat>, v: int)
    requires sh.width > 0 && GoodKeys(sh, s) && |k| == sh.keyLen
    requires forall n :: 0 <= n < |bits| ==> bits[n] < sh.Lgn()
  {
    v <= BucketTotal(sh, s, x)
    && forall n :: 0 <= n < |bits| ==> v <= AgreeTotal(sh, s, k, x, bits[n])
  }

  lemma MinAtIs(sh: Shape, s: Stream, k: Key, x: nat, bits: seq<nat>, v: int)
    requires sh.width > 0 && GoodKeys(sh, s) && |k| == sh.keyLen && x < sh.Size()
    requires forall n :: 0 <= n < |bits| ==> bits[n] < sh.Lgn()
    ensures IsMinAt(sh, Complete(sh, SketchOf(sh, s))[x], k, bits, v)
            <==> IsBelowAll(sh, s, k, x, bits, v) && IsOneOf(sh, s, k, x, bits, v)
  {
    var row := Complete(sh, SketchOf(sh, s))[x];
    CounterMeaning(sh, s, x, 0);
    TallyIsBucketTotal(sh, s, x);
    forall n | 0 <= n < |bits|
      ensures row[KeyCounter(sh, k, bits[n])] == AgreeTotal(sh, s, k, x, bits[n])
    {
      CountersAre(sh, s, x, bits[n]);
    }
  }

  lemma LeastSnoc(sh: Shape, row: seq<int>, k: Key, bits: seq<nat>, pos: nat, v: int)
    requires |row| == 1 + 2 * sh.Lgn() && |k| == sh.keyLen && pos < sh.Lgn()
    requires forall n :: 0 <= n < |bits| ==> bits[n] < sh.Lgn()
    requires IsMinAt(sh, row, k, bits, v)
    ensures
      var w := row[KeyCounter(sh, k, pos)];
      IsMinAt(sh, row, k, bits + [pos], if w < v then w else v)
  {
    var all := bits + [pos];
    assert all[|bits|] == pos;
    if v != row[0] {
      var n :| 0 <= n < |bits| && v == row[KeyCounter(sh, k, bits[n])];
      assert all[n] == bits[n];
    }
  }

  /** Every finite list of positions has a least counter. */
  lemma {:induction false} MinAtExists(sh: Shape, row: seq<int>, k: Key, bits: seq<nat>) returns (v: int)
    requires |row| == 1 + 2 * sh.Lgn() && |k| == sh.keyLen
    requires forall n :: 0 <= n < |bits| ==> bits[n] < sh.Lgn()
    ensures IsMinAt(sh, row, k, bits, v)
    decreases |bits|
  {
    if bits == [] {
      v := row[0];
    } else {
      var most, pos := bits[..|bits| - 1], bits[|bits| - 1];
      v := MinAtExists(sh, row, k, most);
      LeastSnoc(sh, row, k, most, pos, v);
      assert bits == most + [pos];
      v := if row[KeyCounter(sh, k, pos)] < v then row[KeyCounter(sh, k, pos)] else v;
    }
  }

  /**
   The estimate over a list of positions is the least, over all rows, of the
   bucket's total and the totals of the items that agree with the key at one of
   the positions.
   */
  lemma EstimateAtIs(sh: Shape, s: Stream, k: Key, bits: seq<nat>, v: int)
    requires sh.width > 0 && GoodKeys(sh, s) && |k| == sh.keyLen
    requires forall n :: 0 <= n < |bits| ==> bits[n] < sh.Lgn()
    requires IsEstimateAt(sh, Complete(sh, SketchOf(sh, s)), k, bits, v)
    ensures forall i :: 0 <= i < sh.depth ==> IsBelowAll(sh, s, k, BucketOf(sh, i, k), bits, v)
    ensures exists i :: 0 <= i < sh.depth && IsOneOf(sh, s, k, BucketOf(sh, i, k), bits, v)
  {
    var t := Complete(sh, SketchOf(sh, s));
    forall i | 0 <= i < sh.depth
      ensures IsBelowAll(sh, s, k, BucketOf(sh, i, k), bits, v)
    {
      var m := MinAtExists(sh, t[BucketOf(sh, i, k)], k, bits);
      MinAtIs(sh, s, k, BucketOf(sh, i, k), bits, m);
    }
    var i :| 0 <= i < sh.depth && IsMinAt(sh, t[BucketOf(sh, i, k)], k, bits, v);
    MinAtIs(sh, s, k, BucketOf(sh, i, k), bits, v);
  }

  /** All positions of a key. */
  function Positions(sh: Shape): (bits: seq<nat>)
    ensures Covers(sh, bits) && |bits| == sh.Lgn() && forall n :: 0 <= n < |bits| ==> bits[n] == n
  {
    var bits := seq(sh.Lgn(), n => n);
    assert Covers(sh, bits) by {
      forall pos | 0 <= pos < sh.Lgn()
        ensures pos in bits
      {
        assert bits[pos] == pos;
      }
    }
    bits
  }

  /** The full-key estimate is that least over all positions. */
  lemma EstimateIs(sh: Shape, s: Stream, k: Key, v: int)
    requires sh.width > 0 && GoodKeys(sh, s) && |k| == sh.keyLen
    requires IsEstimate(sh, Complete(sh, SketchOf(sh, s)), k, sh.depth, v)
    ensures forall i, pos :: 0 <= i < sh.depth && 0 <= pos < sh.Lgn() ==>
              v <= AgreeTotal(sh, s, k, BucketOf(sh, i, k), pos)
    ensures forall i :: 0 <= i < sh.depth ==> v <= BucketTotal(sh, s, BucketOf(sh, i, k))
    ensures exists i :: 0 <= i < sh.depth && IsOneOf(sh, s, k, BucketOf(sh, i, k), Positions(sh), v)
  {
    var t, bits := Complete(sh, SketchOf(sh, s)), Positions(sh);
    EstimateIsAtPositions(sh, t, k, bits, v);
    EstimateAtIs(sh, s, k, bits, v);
    forall i, pos | 0 <= i < sh.depth && 0 <= pos < sh.Lgn()
      ensures v <= AgreeTotal(sh, s, k, BucketOf(sh, i, k), pos)
    {
      assert IsBelowAll(sh, s, k, BucketOf(sh, i, k), bits, v) && bits[pos] == pos;
    }
    forall i | 0 <= i < sh.depth
      ensures v <= BucketTotal(sh, s, BucketOf(sh, i, k))
    {
      assert IsBelowAll(sh, s, k, BucketOf(sh, i, k), bits, v);
    }
  }

  lemma EstimateIsAtPositions(sh: Shape, t: Table, k: Key, bits: seq<nat>, v: int)
    requires Shaped(sh, t) && |k| == sh.keyLen && Covers(sh, bits)
    requires forall n :: 0 <= n < |bits| ==> bits[n] < sh.Lgn()
    requires IsEstimate(sh, t, k, sh.depth, v)
    ensures IsEstimateAt(sh, t, k, bits, v)
  {
    var i :| 0 <= i < sh.depth && IsBucketMin(sh, t[BucketOf(sh, i, k)], k, v);
    MinIsAtList(sh, t[BucketOf(sh, i, k)], k, bits, v);
    forall j, m | 0 <= j < sh.depth && IsMinAt(sh, t[BucketOf(sh, j, k)], k, bits, m)
      ensures v <= m
    {
      CoveringListGivesMin(sh, t[BucketOf(sh, j, k)], k, bits, m);
    }
  }
}
