/**
 MV-Sketch on values: one weighted majority vote per bucket, the estimates read
 off a row of buckets, and the merge of several sketches.  Counters are
 unbounded integers and the row hashes are arbitrary functions.
 */
module MVSketchSpec {
  import opened Arith
  import opened Bits

  type Key = seq<bv8>
  type Item = (Key, int)
  type Stream = seq<Item>

  datatype Bucket = Bucket(sum: int, count: int, key: Key)
  type Table = seq<Bucket>

  /** depth, width, key length in bytes, and the hash of each row before `% width`. */
  datatype Shape = Shape(depth: nat, width: nat, keyLen: nat, hash: (nat, Key) -> nat) {
    ghost predicate Ok() {
      width > 0 && keyLen > 0
    }

    function Col(i: nat, k: Key): nat
      requires width > 0
    {
      hash(i, k) % width
    }
  }

  /** The code's test for a bucket that holds no key. */
  predicate Unset(k: Key) {
    |k| > 0 && k[0] == 0
  }

  /** C division by two, which truncates toward zero. */
  function Half(x: int): int {
    if x >= 0 then x / 2 else -((-x) / 2)
  }

  // ---- updating ----

  /** What one update does to the one bucket it reaches in a row. */
  function Feed(b: Bucket, k: Key, v: int): Bucket {
    if Unset(b.key) then Bucket(b.sum + v, v, k)
    else if k == b.key then Bucket(b.sum + v, b.count + v, b.key)
    else if b.count - v < 0 then Bucket(b.sum + v, -(b.count - v), k)
    else Bucket(b.sum + v, b.count - v, b.key)
  }

  /** A bucket with a key gives it up to another exactly when the update exceeds its count. */
  lemma KeyGivesWay(b: Bucket, k: Key, v: int)
    requires !Unset(b.key) && k != b.key
    ensures (Feed(b, k, v).key == k <==> v > b.count) && (Feed(b, k, v).key != k ==> Feed(b, k, v).key == b.key)
  {
  }

  ghost predicate TableOk(sh: Shape, t: Table) {
    sh.Ok() && |t| == sh.depth * sh.width && forall x :: 0 <= x < |t| ==> |t[x].key| == sh.keyLen
  }

  /** Does key k reach flat position x? */
  predicate Reaches(sh: Shape, k: Key, x: nat)
    requires sh.width > 0
  {
    sh.Col(x / sh.width, k) == x % sh.width
  }

  function FeedTable(sh: Shape, t: Table, k: Key, v: int): (r: Table)
    requires sh.width > 0
    ensures |r| == |t|
  {
    seq(|t|, x requires 0 <= x < |t| => if Reaches(sh, k, x) then Feed(t[x], k, v) else t[x])
  }

  function EmptyTable(sh: Shape): Table {
    seq(sh.depth * sh.width, _ => Bucket(0, 0, Zeros(sh.keyLen)))
  }

  /** The table of a fresh sketch fed a whole stream. */
  function TableOf(sh: Shape, s: Stream): (t: Table)
    requires sh.width > 0
    ensures |t| == sh.depth * sh.width
  {
    if s == [] then EmptyTable(sh)
    else
      var last := s[|s| - 1];
      FeedTable(sh, TableOf(sh, s[..|s| - 1]), last.0, last.1)
  }

  // ---- the truth that the sketch estimates ----

  function Total(s: Stream, k: Key): int {
    if s == [] then 0
    else Total(s[..|s| - 1], k) + (if s[|s| - 1].0 == k then s[|s| - 1].1 else 0)
  }

  /** Keys have the sketch's length and sizes are not negative. */
  ghost predicate Good(sh: Shape, s: Stream) {
    forall n :: 0 <= n < |s| ==> |s[n].0| == sh.keyLen && s[n].1 >= 0
  }

  lemma {:induction false} TotalNonNegative(sh: Shape, s: Stream, k: Key)
    requires Good(sh, s)
    ensures Total(s, k) >= 0
    decreases |s|
  {
    if s != [] {
      TotalNonNegative(sh, s[..|s| - 1], k);
    }
  }

  lemma TotalSnoc(s: Stream, item: Item, k: Key)
    ensures Total(s + [item], k) == Total(s, k) + (if item.0 == k then item.1 else 0)
  {
    assert (s + [item])[..|s|] == s;
  }

  lemma {:induction false} TotalConcat(s: Stream, u: Stream, k: Key)
    ensures Total(s + u, k) == Total(s, k) + Total(u, k)
    decreases |u|
  {
    if u == [] {
      assert s + u == s;
    } else {
      assert s + u == (s + u[..|u| - 1]) + [u[|u| - 1]];
      TotalConcat(s, u[..|u| - 1], k);
      TotalSnoc(s + u[..|u| - 1], u[|u| - 1], k);
    }
  }

  // ---- what every bucket keeps ----

  /**
   What the bucket at flat position x says about the stream: count is at most
   the stored key's total, and for every key that reaches x and does not begin
   with the empty marker, twice the total is at most sum + count if it is the
   stored key and at most sum - count if not.
   */
  ghost predicate SoundBucket(sh: Shape, s: Stream, x: nat, b: Bucket)
    requires sh.width > 0
  {
    && 0 <= b.count <= b.sum && b.count <= Total(s, b.key)
    && forall k :: Reaches(sh, k, x) && !Unset(k) ==>
         2 * Total(s, k) <= if k == b.key then b.sum + b.count else b.sum - b.count
  }

  ghost predicate SoundTable(sh: Shape, s: Stream, t: Table) {
    TableOk(sh, t) && forall x :: 0 <= x < |t| ==> SoundBucket(sh, s, x, t[x])
  }

  lemma FeedSound(sh: Shape, s: Stream, x: nat, b: Bucket, k: Key, v: int)
    requires sh.width > 0 && Good(sh, s) && v >= 0
    requires SoundBucket(sh, s, x, b) && Reaches(sh, k, x)
    ensures SoundBucket(sh, s + [(k, v)], x, Feed(b, k, v))
  {
    var s', b' := s + [(k, v)], Feed(b, k, v);
    TotalNonNegative(sh, s, b.key);
    TotalNonNegative(sh, s, k);
    TotalSnoc(s, (k, v), b'.key);
    forall k' | Reaches(sh, k', x) && !Unset(k')
      ensures 2 * Total(s', k') <= if k' == b'.key then b'.sum + b'.count else b'.sum - b'.count
    {
      FeedCovers(sh, s, x, b, k, v, k');
    }
  }

  lemma FeedCovers(sh: Shape, s: Stream, x: nat, b: Bucket, k: Key, v: int, k': Key)
    requires sh.width > 0 && Good(sh, s) && v >= 0
    requires SoundBucket(sh, s, x, b) && Reaches(sh, k, x) && Reaches(sh, k', x) && !Unset(k')
    ensures
      var b' := Feed(b, k, v);
      2 * Total(s + [(k, v)], k') <= if k' == b'.key then b'.sum + b'.count else b'.sum - b'.count
  {
    TotalNonNegative(sh, s, b.key);
    TotalSnoc(s, (k, v), k');
  }

  lemma MissSound(sh: Shape, s: Stream, x: nat, b: Bucket, k: Key, v: int)
    requires sh.width > 0 && v >= 0
    requires SoundBucket(sh, s, x, b) && !Reaches(sh, k, x)
    ensures SoundBucket(sh, s + [(k, v)], x, b)
  {
    TotalSnoc(s, (k, v), b.key);
    forall k' | Reaches(sh, k', x)
      ensures Total(s + [(k, v)], k') == Total(s, k')
    {
      TotalSnoc(s, (k, v), k');
    }
  }

  /** One update keeps a table sound for the longer stream. */
  lemma UpdateSound(sh: Shape, s: Stream, t: Table, k: Key, v: int)
    requires SoundTable(sh, s, t) && Good(sh, s + [(k, v)])
    ensures SoundTable(sh, s + [(k, v)], FeedTable(sh, t, k, v))
  {
    assert (s + [(k, v)])[|s|] == (k, v);
    assert Good(sh, s) by {
      assert forall n :: 0 <= n < |s| ==> (s + [(k, v)])[n] == s[n];
    }
    forall x | 0 <= x < |t|
      ensures SoundBucket(sh, s + [(k, v)], x, FeedTable(sh, t, k, v)[x])
    {
      if Reaches(sh, k, x) {
        FeedSound(sh, s, x, t[x], k, v);
      } else {
        MissSound(sh, s, x, t[x], k, v);
      }
    }
  }

  /** Every good stream leaves a sound table. */
  lemma {:induction false} StreamSound(sh: Shape, s: Stream)
    requires sh.Ok() && Good(sh, s)
    ensures SoundTable(sh, s, TableOf(sh, s))
    decreases |s|
  {
    if s != [] {
      var s0 := s[..|s| - 1];
      assert s == s0 + [s[|s| - 1]];
      StreamSound(sh, s0);
      UpdateSound(sh, s0, TableOf(sh, s0), s[|s| - 1].0, s[|s| - 1].1);
    } else {
      forall x | 0 <= x < |EmptyTable(sh)|
        ensures SoundBucket(sh, s, x, EmptyTable(sh)[x])
      {
      }
    }
  }

  // ---- estimates ----

  function LowOf(b: Bucket, k: Key): int {
    if k == b.key then b.count else 0
  }

  function UpOf(b: Bucket, k: Key): int {
    if k == b.key then Half(b.sum - b.count) + b.count else Half(b.sum - b.count)
  }

  function BucketOf(sh: Shape, t: Table, i: nat, k: Key): Bucket
    requires sh.width > 0 && |t| == sh.depth * sh.width && i < sh.depth
  {
    FlatIndex(sh.depth, sh.width, i, sh.Col(i, k));
    t[i * sh.width + sh.Col(i, k)]
  }

  function Max(a: int, b: int): int {
    if a < b then b else a
  }

  function Min(a: int, b: int): int {
    if b < a then b else a
  }

  /** Low_estimate over the first n rows. */
  function Low(sh: Shape, t: Table, k: Key, n: nat): int
    requires sh.width > 0 && |t| == sh.depth * sh.width && n <= sh.depth
  {
    if n == 0 then 0 else Max(Low(sh, t, k, n - 1), LowOf(BucketOf(sh, t, n - 1, k), k))
  }

  /** Up_estimate over the first n rows. */
  function Up(sh: Shape, t: Table, k: Key, n: nat): int
    requires sh.width > 0 && |t| == sh.depth * sh.width && n <= sh.depth
  {
    if n == 0 then 0
    else if n == 1 then UpOf(BucketOf(sh, t, 0, k), k)
    else Min(Up(sh, t, k, n - 1), UpOf(BucketOf(sh, t, n - 1, k), k))
  }

  lemma RowBrackets(sh: Shape, s: Stream, t: Table, k: Key, i: nat)
    requires SoundTable(sh, s, t) && Good(sh, s) && i < sh.depth
    ensures LowOf(BucketOf(sh, t, i, k), k) <= Total(s, k)
    ensures !Unset(k) ==> Total(s, k) <= UpOf(BucketOf(sh, t, i, k), k)
  {
    var c := sh.Col(i, k);
    FlatIndex(sh.depth, sh.width, i, c);
    TotalNonNegative(sh, s, k);
    assert Reaches(sh, k, i * sh.width + c);
    assert SoundBucket(sh, s, i * sh.width + c, t[i * sh.width + c]);
  }

  lemma {:induction false} RowsBracket(sh: Shape, s: Stream, t: Table, k: Key, n: nat)
    requires SoundTable(sh, s, t) && Good(sh, s) && n <= sh.depth
    ensures 0 <= Low(sh, t, k, n) <= Total(s, k)
    ensures n > 0 && !Unset(k) ==> Total(s, k) <= Up(sh, t, k, n)
    decreases n
  {
    TotalNonNegative(sh, s, k);
    if n > 0 {
      RowBrackets(sh, s, t, k, n - 1);
      RowsBracket(sh, s, t, k, n - 1);
    }
  }

  /**
   For every stream of non-negative sizes, Low_estimate is at most the true
   total of every key, and Up_estimate at least that of every key that does not
   begin with the empty marker, whatever the other keys are.
   */
  lemma EstimatesBracket(sh: Shape, s: Stream, k: Key)
    requires sh.Ok() && Good(sh, s)
    ensures
      var t := TableOf(sh, s);
      && SoundTable(sh, s, t) && Low(sh, t, k, sh.depth) <= Total(s, k)
      && (sh.depth > 0 && !Unset(k) ==> Total(s, k) <= Up(sh, t, k, sh.depth))
  {
    StreamSound(sh, s);
    RowsBracket(sh, s, TableOf(sh, s), k, sh.depth);
  }

  // ---- how far off the estimates can be ----

  /** Everything that a stream sends to flat position x. */
  function Weight(sh: Shape, s: Stream, x: nat): int
    requires sh.width > 0
  {
    if s == [] then 0
    else Weight(sh, s[..|s| - 1], x) + if Reaches(sh, s[|s| - 1].0, x) then s[|s| - 1].1 else 0
  }

  /** The sum of a bucket is what it was sent, so a majority of the sum is a majority of that. */
  lemma {:induction false} SumIsWeight(sh: Shape, s: Stream, x: nat)
    requires sh.width > 0 && x < sh.depth * sh.width
    ensures TableOf(sh, s)[x].sum == Weight(sh, s, x)
    decreases |s|
  {
    if s != [] {
      SumIsWeight(sh, s[..|s| - 1], x);
    }
  }

  lemma {:induction false} UpIsLeast(sh: Shape, t: Table, k: Key, n: nat)
    requires sh.width > 0 && |t| == sh.depth * sh.width && 0 < n <= sh.depth
    ensures forall i :: 0 <= i < n ==> Up(sh, t, k, n) <= UpOf(BucketOf(sh, t, i, k), k)
    ensures exists i :: 0 <= i < n && Up(sh, t, k, n) == UpOf(BucketOf(sh, t, i, k), k)
    decreases n
  {
    var last := UpOf(BucketOf(sh, t, n - 1, k), k);
    if n > 1 {
      UpIsLeast(sh, t, k, n - 1);
    }
    assert Up(sh, t, k, n) <= last;
  }

  lemma {:induction false} LowIsGreatest(sh: Shape, t: Table, k: Key, n: nat)
    requires sh.width > 0 && |t| == sh.depth * sh.width && n <= sh.depth
    ensures Low(sh, t, k, n) >= 0 && forall i :: 0 <= i < n ==> Low(sh, t, k, n) >= LowOf(BucketOf(sh, t, i, k), k)
    ensures Low(sh, t, k, n) == 0 || exists i :: 0 <= i < n && Low(sh, t, k, n) == LowOf(BucketOf(sh, t, i, k), k)
    decreases n
  {
    if n > 0 {
      LowIsGreatest(sh, t, k, n - 1);
    }
  }

  /**
   In every row i, with weight the size of all items in the key's bucket: the
   upper estimate is at most the mean of that weight and the key's total, and
   the lower one falls short of the total by at most the weight of the others.
   */
  lemma EstimateErrors(sh: Shape, s: Stream, k: Key, i: nat)
    requires sh.Ok() && Good(sh, s) && i < sh.depth
    ensures
      var t, weight := TableOf(sh, s), Weight(sh, s, i * sh.width + sh.Col(i, k));
      && 2 * Up(sh, t, k, sh.depth) <= weight + Total(s, k)
      && (!Unset(k) ==> Low(sh, t, k, sh.depth) >= Total(s, k) - (weight - Total(s, k)))
  {
    var t := TableOf(sh, s);
    RowErrors(sh, s, k, i);
    UpIsLeast(sh, t, k, sh.depth);
    LowIsGreatest(sh, t, k, sh.depth);
    assert Up(sh, t, k, sh.depth) <= UpOf(BucketOf(sh, t, i, k), k);
    assert Low(sh, t, k, sh.depth) >= LowOf(BucketOf(sh, t, i, k), k);
  }

  lemma RowErrors(sh: Shape, s: Stream, k: Key, i: nat)
    requires sh.Ok() && Good(sh, s) && i < sh.depth
    ensures
      var b, weight := BucketOf(sh, TableOf(sh, s), i, k), Weight(sh, s, i * sh.width + sh.Col(i, k));
      2 * UpOf(b, k) <= weight + Total(s, k) && (!Unset(k) ==> LowOf(b, k) >= 2 * Total(s, k) - weight)
  {
    var x := i * sh.width + sh.Col(i, k);
    FlatIndex(sh.depth, sh.width, i, sh.Col(i, k));
    StreamSound(sh, s);
    SumIsWeight(sh, s, x);
    TotalNonNegative(sh, s, k);
    assert SoundBucket(sh, s, x, TableOf(sh, s)[x]) && Reaches(sh, k, x);
    BucketErrors(TableOf(sh, s)[x], k, Total(s, k));
  }

  lemma BucketErrors(b: Bucket, k: Key, total: nat)
    requires 0 <= b.count <= b.sum && (k == b.key ==> b.count <= total)
    ensures 2 * UpOf(b, k) <= b.sum + total
    ensures 2 * total <= (if k == b.key then b.sum + b.count else b.sum - b.count) ==>
              LowOf(b, k) >= 2 * total - b.sum
  {
  }

  // ---- keys that begin with the empty marker ----

  lemma TableSnoc(sh: Shape, s: Stream, k: Key, v: int)
    requires sh.width > 0
    ensures TableOf(sh, s + [(k, v)]) == FeedTable(sh, TableOf(sh, s), k, v)
  {
    assert (s + [(k, v)])[..|s|] == s;
  }

  /** The same key twice. */
  function Twice(z: Key): Stream {
    [] + [(z, 1)] + [(z, 1)]
  }

  /** The second update finds a bucket of z marked empty and starts its count anew. */
  lemma SecondForgetsFirst(sh: Shape, z: Key, x: nat)
    requires sh.Ok() && |z| == sh.keyLen && Unset(z) && x < sh.depth * sh.width && Reaches(sh, z, x)
    ensures TableOf(sh, Twice(z))[x] == Bucket(2, 1, z)
  {
    TableSnoc(sh, [], z, 1);
    TableSnoc(sh, [] + [(z, 1)], z, 1);
  }

  lemma {:induction false} TwiceCountsOnce(sh: Shape, z: Key, n: nat)
    requires sh.Ok() && |z| == sh.keyLen && Unset(z) && n <= sh.depth
    ensures Good(sh, Twice(z)) && Total(Twice(z), z) == 2
    ensures n > 0 ==> Up(sh, TableOf(sh, Twice(z)), z, n) == Low(sh, TableOf(sh, Twice(z)), z, n) == 1
    decreases n
  {
    TotalSnoc([], (z, 1), z);
    TotalSnoc([] + [(z, 1)], (z, 1), z);
    if n > 0 {
      TwiceCountsOnce(sh, z, n - 1);
      FlatIndex(sh.depth, sh.width, n - 1, sh.Col(n - 1, z));
      SecondForgetsFirst(sh, z, (n - 1) * sh.width + sh.Col(n - 1, z));
    }
  }

  /** The upper estimate of a key is at least its total, over all streams, exactly when the key does not begin with the marker. */
  lemma UpperBoundIff(sh: Shape, k: Key)
    requires sh.Ok() && sh.depth > 0 && |k| == sh.keyLen
    ensures (forall s | Good(sh, s) :: Total(s, k) <= Up(sh, TableOf(sh, s), k, sh.depth)) <==> !Unset(k)
  {
    if Unset(k) {
      TwiceCountsOnce(sh, k, sh.depth);
    } else {
      forall s | Good(sh, s)
        ensures Total(s, k) <= Up(sh, TableOf(sh, s), k, sh.depth)
      {
        EstimatesBracket(sh, s, k);
      }
    }
  }

  // ---- nothing is lost by halving ----

  ghost predicate MarkerFree(s: Stream) {
    forall n :: 0 <= n < |s| ==> !Unset(s[n].0)
  }

  /** sum - count is even, and a bucket marked empty is empty. */
  ghost predicate Even(b: Bucket) {
    (b.sum - b.count) % 2 == 0 && (Unset(b.key) ==> b.sum == b.count == 0)
  }

  lemma FeedEven(b: Bucket, k: Key, v: int)
    requires Even(b) && !Unset(k)
    ensures Even(Feed(b, k, v))
  {
  }

  /** Without marker keys, every bucket's sum - count is even. */
  lemma {:induction false} StreamEven(sh: Shape, s: Stream, x: nat)
    requires sh.Ok() && MarkerFree(s) && x < sh.depth * sh.width
    ensures Even(TableOf(sh, s)[x])
    decreases |s|
  {
    if s != [] {
      StreamEven(sh, s[..|s| - 1], x);
      FeedEven(TableOf(sh, s[..|s| - 1])[x], s[|s| - 1].0, s[|s| - 1].1);
    }
  }

  /** Where sum - count is even, the halves of the upper estimate are exact. */
  lemma HalvesExact(b: Bucket, k: Key)
    requires Even(b) && 0 <= b.count <= b.sum
    ensures 2 * UpOf(b, k) == if k == b.key then b.sum + b.count else b.sum - b.count
  {
  }

  // ---- recall ----

  /** Keys that Query looks at: those stored where the bucket's sum is above the threshold. */
  ghost predicate Candidate(t: Table, thresh: int, k: Key) {
    exists x :: 0 <= x < |t| && t[x].sum > thresh && t[x].key == k
  }

  ghost predicate Reported(sh: Shape, t: Table, thresh: int, k: Key)
    requires sh.width > 0 && |t| == sh.depth * sh.width
  {
    Candidate(t, thresh, k) && Up(sh, t, k, sh.depth) > thresh
  }

  /** k is more than half of what the bucket at row i counts. */
  ghost predicate MajorityIn(sh: Shape, s: Stream, t: Table, k: Key, i: nat)
    requires sh.width > 0 && |t| == sh.depth * sh.width && i < sh.depth
  {
    2 * Total(s, k) > BucketOf(sh, t, i, k).sum
  }

  /** A strict majority is the key its bucket stores. */
  lemma MajorityStored(sh: Shape, s: Stream, t: Table, k: Key, i: nat)
    requires SoundTable(sh, s, t) && Good(sh, s) && i < sh.depth && MajorityIn(sh, s, t, k, i) && !Unset(k)
    ensures BucketOf(sh, t, i, k).key == k && Total(s, k) <= BucketOf(sh, t, i, k).sum
  {
    var x := i * sh.width + sh.Col(i, k);
    FlatIndex(sh.depth, sh.width, i, sh.Col(i, k));
    assert Reaches(sh, k, x);
    assert SoundBucket(sh, s, x, t[x]);
  }

  /** Every key above the threshold that is a strict majority of one of its buckets is reported. */
  lemma QueryRecall(sh: Shape, s: Stream, t: Table, thresh: int, k: Key, i: nat)
    requires SoundTable(sh, s, t) && Good(sh, s) && i < sh.depth
    requires Total(s, k) > thresh && MajorityIn(sh, s, t, k, i) && !Unset(k)
    ensures Reported(sh, t, thresh, k)
  {
    MajorityStored(sh, s, t, k, i);
    FlatIndex(sh.depth, sh.width, i, sh.Col(i, k));
    RowsBracket(sh, s, t, k, sh.depth);
  }

  /** A reported key is stored in a bucket, and in every row the mean of its total and its bucket's weight exceeds the threshold. */
  lemma QueryPrecision(sh: Shape, s: Stream, thresh: int, k: Key, i: nat)
    requires sh.Ok() && Good(sh, s) && i < sh.depth && Reported(sh, TableOf(sh, s), thresh, k)
    ensures 2 * thresh < Weight(sh, s, i * sh.width + sh.Col(i, k)) + Total(s, k)
    ensures exists x :: 0 <= x < sh.depth * sh.width && TableOf(sh, s)[x].key == k && Weight(sh, s, x) > thresh
  {
    EstimateErrors(sh, s, k, i);
    var x :| 0 <= x < sh.depth * sh.width && TableOf(sh, s)[x].sum > thresh && TableOf(sh, s)[x].key == k;
    SumIsWeight(sh, s, x);
  }

  /** Over all streams and thresholds, a key is sure to be reported in that case exactly when it does not begin with the marker. */
  lemma RecallIff(sh: Shape, k: Key)
    requires sh.Ok() && sh.depth > 0 && |k| == sh.keyLen
    ensures (forall s, thresh, i | Good(sh, s) && 0 <= i < sh.depth && Total(s, k) > thresh
                                   && MajorityIn(sh, s, TableOf(sh, s), k, i) ::
               Reported(sh, TableOf(sh, s), thresh, k)) <==> !Unset(k)
  {
    if Unset(k) {
      TwiceCountsOnce(sh, k, sh.depth);
      FlatIndex(sh.depth, sh.width, 0, sh.Col(0, k));
      SecondForgetsFirst(sh, k, 0 * sh.width + sh.Col(0, k));
      assert MajorityIn(sh, Twice(k), TableOf(sh, Twice(k)), k, 0);
      assert !Reported(sh, TableOf(sh, Twice(k)), 1, k);
    } else {
      forall s, thresh, i | Good(sh, s) && 0 <= i < sh.depth && Total(s, k) > thresh
                            && MajorityIn(sh, s, TableOf(sh, s), k, i)
        ensures Reported(sh, TableOf(sh, s), thresh, k)
      {
        StreamSound(sh, s);
        QueryRecall(sh, s, TableOf(sh, s), thresh, k, i);
      }
    }
  }

  // ---- merging ----

  /** The upper estimate that the buckets bs[..n] give key k together. */
  function Est(bs: seq<Bucket>, k: Key, n: nat): int
    requires n <= |bs|
  {
    if n == 0 then 0
    else Est(bs, k, n - 1) + (if k == bs[n - 1].key then Half(bs[n - 1].sum + bs[n - 1].count)
                              else Half(bs[n - 1].sum - bs[n - 1].count))
  }

  function SumOf(bs: seq<Bucket>, n: nat): int
    requires n <= |bs|
  {
    if n == 0 then 0 else SumOf(bs, n - 1) + bs[n - 1].sum
  }

  /** First of the first n buckets whose key has the largest estimate. */
  function Best(bs: seq<Bucket>, n: nat): (p: nat)
    requires 0 < n <= |bs|
    ensures p < n
    ensures forall j :: 0 <= j < n ==> Est(bs, bs[j].key, |bs|) <= Est(bs, bs[p].key, |bs|)
  {
    if n == 1 then 0
    else
      var p := Best(bs, n - 1);
      if Est(bs, bs[n - 1].key, |bs|) > Est(bs, bs[p].key, |bs|) then n - 1 else p
  }

  function MergedBucket(bs: seq<Bucket>): Bucket
    requires |bs| > 0
  {
    var key := bs[Best(bs, |bs|)].key;
    var est := Est(bs, key, |bs|);
    var count := 2 * est - SumOf(bs, |bs|);
    if count > 0 then Bucket(SumOf(bs, |bs|), count, key) else Bucket(2 * est, 0, key)
  }

  /** The upper estimates of key k in the first n buckets, added up. */
  function UpSum(bs: seq<Bucket>, k: Key, n: nat): int
    requires n <= |bs|
  {
    if n == 0 then 0 else UpSum(bs, k, n - 1) + UpOf(bs[n - 1], k)
  }

  ghost predicate Plain(bs: seq<Bucket>) {
    forall j :: 0 <= j < |bs| ==> 0 <= bs[j].count <= bs[j].sum
  }

  lemma {:induction false} EstIsUpSum(bs: seq<Bucket>, k: Key, n: nat)
    requires Plain(bs) && n <= |bs|
    ensures Est(bs, k, n) == UpSum(bs, k, n)
    decreases n
  {
    if n > 0 {
      EstIsUpSum(bs, k, n - 1);
      HalvesAgree(bs[n - 1]);
    }
  }

  lemma HalvesAgree(b: Bucket)
    requires 0 <= b.count <= b.sum
    ensures Half(b.sum + b.count) == Half(b.sum - b.count) + b.count
  {
  }

  /** Input p is the first whose stored key has the largest sum of upper estimates over all inputs. */
  ghost predicate Wins(bs: seq<Bucket>, p: nat)
    requires p < |bs|
  {
    && (forall j :: 0 <= j < |bs| ==> UpSum(bs, bs[j].key, |bs|) <= UpSum(bs, bs[p].key, |bs|))
    && (forall j :: 0 <= j < p ==> UpSum(bs, bs[j].key, |bs|) < UpSum(bs, bs[p].key, |bs|))
  }

  lemma {:induction false} BestIsFirst(bs: seq<Bucket>, n: nat)
    requires 0 < n <= |bs|
    ensures forall j :: 0 <= j < Best(bs, n) ==> Est(bs, bs[j].key, |bs|) < Est(bs, bs[Best(bs, n)].key, |bs|)
    decreases n
  {
    if n > 1 {
      BestIsFirst(bs, n - 1);
    }
  }

  lemma BestWins(bs: seq<Bucket>)
    requires |bs| > 0 && Plain(bs)
    ensures Wins(bs, Best(bs, |bs|))
  {
    BestIsFirst(bs, |bs|);
    forall j | 0 <= j < |bs|
      ensures Est(bs, bs[j].key, |bs|) == UpSum(bs, bs[j].key, |bs|)
    {
      EstIsUpSum(bs, bs[j].key, |bs|);
    }
  }

  /**
   What a merged bucket answers: it stores the winner; the winner's upper
   estimate is the sum u of its upper estimates in the inputs, any other key's
   is u or what u leaves of the inputs' sums, whichever is less, and the
   winner's lower estimate is by how much u exceeds that rest, if at all.
   */
  lemma MergedAnswers(bs: seq<Bucket>, k: Key) returns (p: nat)
    requires |bs| > 0 && Plain(bs)
    ensures p < |bs| && Wins(bs, p) && MergedBucket(bs).key == bs[p].key
    ensures
      var b, u, rest := MergedBucket(bs), UpSum(bs, bs[p].key, |bs|), SumOf(bs, |bs|) - UpSum(bs, bs[p].key, |bs|);
      && UpOf(b, bs[p].key) == u && LowOf(b, bs[p].key) == Max(0, u - rest)
      && (k != bs[p].key ==> UpOf(b, k) == Min(u, rest))
  {
    p := Best(bs, |bs|);
    BestWins(bs);
    EstIsUpSum(bs, bs[p].key, |bs|);
    UpSumBounds(bs, bs[p].key, |bs|);
  }

  lemma {:induction false} UpSumBounds(bs: seq<Bucket>, k: Key, n: nat)
    requires Plain(bs) && n <= |bs|
    ensures 0 <= UpSum(bs, k, n) <= SumOf(bs, n)
    decreases n
  {
    if n > 0 {
      UpSumBounds(bs, k, n - 1);
    }
  }

  function Column(ts: seq<Table>, x: nat): (bs: seq<Bucket>)
    requires forall j :: 0 <= j < |ts| ==> x < |ts[j]|
    ensures |bs| == |ts|
  {
    seq(|ts|, j requires 0 <= j < |ts| => ts[j][x])
  }

  ghost predicate Shaped(sh: Shape, ts: seq<Table>) {
    forall j :: 0 <= j < |ts| ==> |ts[j]| == sh.depth * sh.width
  }

  function MergedTable(sh: Shape, ts: seq<Table>): (r: Table)
    requires |ts| > 0 && Shaped(sh, ts)
    ensures |r| == sh.depth * sh.width
  {
    seq(sh.depth * sh.width, x requires 0 <= x < sh.depth * sh.width => MergedBucket(Column(ts, x)))
  }

  /** Every key stored by a merge was stored at the same position by one of the inputs. */
  lemma MergedKeys(sh: Shape, ts: seq<Table>)
    requires sh.Ok() && |ts| > 0 && Shaped(sh, ts)
    requires forall j, x :: 0 <= j < |ts| && 0 <= x < |ts[j]| ==> |ts[j][x].key| == sh.keyLen
    ensures TableOk(sh, MergedTable(sh, ts))
    ensures forall x :: 0 <= x < sh.depth * sh.width ==> StoredBy(ts, x, MergedTable(sh, ts)[x].key)
  {
    forall x | 0 <= x < sh.depth * sh.width
      ensures StoredBy(ts, x, MergedTable(sh, ts)[x].key) && |MergedTable(sh, ts)[x].key| == sh.keyLen
    {
      var bs := Column(ts, x);
      assert bs[Best(bs, |bs|)] == ts[Best(bs, |bs|)][x];
    }
  }

  ghost predicate StoredBy(ts: seq<Table>, x: nat, k: Key)
    requires forall j :: 0 <= j < |ts| ==> x < |ts[j]|
  {
    exists j :: 0 <= j < |ts| && ts[j][x].key == k
  }

  function Concat(ss: seq<Stream>): Stream {
    if ss == [] then [] else Concat(ss[..|ss| - 1]) + ss[|ss| - 1]
  }

  ghost predicate AllGood(sh: Shape, ss: seq<Stream>) {
    forall j :: 0 <= j < |ss| ==> Good(sh, ss[j])
  }

  lemma {:induction false} ConcatGood(sh: Shape, ss: seq<Stream>)
    requires AllGood(sh, ss)
    ensures Good(sh, Concat(ss))
    decreases |ss|
  {
    if ss != [] {
      ConcatGood(sh, ss[..|ss| - 1]);
    }
  }

  ghost predicate SoundAll(sh: Shape, ss: seq<Stream>, x: nat, bs: seq<Bucket>)
    requires sh.width > 0
  {
    |ss| == |bs| && forall j :: 0 <= j < |bs| ==> SoundBucket(sh, ss[j], x, bs[j])
  }

  /**
   What the first n buckets say together about a key k, and about k next to
   the merge winner w.
   */
  lemma {:induction false} EstBounds(sh: Shape, ss: seq<Stream>, x: nat, bs: seq<Bucket>, w: Key, n: nat)
    requires sh.width > 0 && AllGood(sh, ss) && SoundAll(sh, ss, x, bs) && n <= |bs|
    ensures 0 <= Est(bs, w, n) <= SumOf(bs, n)
    ensures 2 * Est(bs, w, n) - SumOf(bs, n) <= Total(Concat(ss[..n]), w)
    decreases n
  {
    if n > 0 {
      EstBounds(sh, ss, x, bs, w, n - 1);
      ConcatStep(ss, w, n);
      TotalNonNegative(sh, ss[n - 1], w);
      assert SoundBucket(sh, ss[n - 1], x, bs[n - 1]);
    }
  }

  lemma ConcatStep(ss: seq<Stream>, k: Key, n: nat)
    requires 0 < n <= |ss|
    ensures Total(Concat(ss[..n]), k) == Total(Concat(ss[..n - 1]), k) + Total(ss[n - 1], k)
  {
    assert ss[..n][..n - 1] == ss[..n - 1];
    TotalConcat(Concat(ss[..n - 1]), ss[n - 1], k);
  }

  lemma {:induction false} EstCovers(sh: Shape, ss: seq<Stream>, x: nat, bs: seq<Bucket>, k: Key, w: Key, n: nat)
    requires sh.width > 0 && SoundAll(sh, ss, x, bs) && n <= |bs| && Reaches(sh, k, x) && !Unset(k)
    ensures Total(Concat(ss[..n]), k) <= Est(bs, k, n)
    ensures k != w ==> Total(Concat(ss[..n]), k) + Est(bs, w, n) <= SumOf(bs, n)
    ensures (forall j :: 0 <= j < n ==> bs[j].key != k) ==> Total(Concat(ss[..n]), k) <= Est(bs, w, n)
    decreases n
  {
    if n > 0 {
      EstCovers(sh, ss, x, bs, k, w, n - 1);
      ConcatStep(ss, k, n);
      assert SoundBucket(sh, ss[n - 1], x, bs[n - 1]);
    }
  }

  lemma MergedCovers(sh: Shape, ss: seq<Stream>, x: nat, bs: seq<Bucket>, k: Key)
    requires sh.width > 0 && |bs| > 0 && AllGood(sh, ss) && SoundAll(sh, ss, x, bs)
    requires Reaches(sh, k, x) && !Unset(k)
    ensures
      var b := MergedBucket(bs);
      2 * Total(Concat(ss), k) <= if k == b.key then b.sum + b.count else b.sum - b.count
  {
    var n := |bs|;
    var w := bs[Best(bs, n)].key;
    assert ss[..n] == ss;
    EstCovers(sh, ss, x, bs, k, w, n);
    if j :| 0 <= j < n && bs[j].key == k {
      assert Est(bs, k, n) <= Est(bs, w, n);
    }
  }

  /** Merging sound buckets gives a bucket that is sound for all the streams together. */
  lemma MergedBucketSound(sh: Shape, ss: seq<Stream>, x: nat, bs: seq<Bucket>)
    requires sh.width > 0 && |bs| > 0 && AllGood(sh, ss) && SoundAll(sh, ss, x, bs)
    ensures SoundBucket(sh, Concat(ss), x, MergedBucket(bs))
  {
    var w := bs[Best(bs, |bs|)].key;
    assert ss[..|bs|] == ss;
    EstBounds(sh, ss, x, bs, w, |bs|);
    ConcatGood(sh, ss);
    TotalNonNegative(sh, Concat(ss), w);
    forall k | Reaches(sh, k, x) && !Unset(k)
      ensures
        var b := MergedBucket(bs);
        2 * Total(Concat(ss), k) <= if k == b.key then b.sum + b.count else b.sum - b.count
    {
      MergedCovers(sh, ss, x, bs, k);
    }
  }

  ghost predicate SoundTables(sh: Shape, ss: seq<Stream>, ts: seq<Table>) {
    |ss| == |ts| > 0 && Shaped(sh, ts) && forall j :: 0 <= j < |ts| ==> SoundTable(sh, ss[j], ts[j])
  }

  lemma ColumnSound(sh: Shape, ss: seq<Stream>, ts: seq<Table>, x: nat)
    requires SoundTables(sh, ss, ts) && x < sh.depth * sh.width
    ensures SoundAll(sh, ss, x, Column(ts, x))
    ensures |MergedBucket(Column(ts, x)).key| == sh.keyLen
  {
    var bs := Column(ts, x);
    forall j | 0 <= j < |bs|
      ensures SoundBucket(sh, ss[j], x, bs[j])
    {
      assert SoundTable(sh, ss[j], ts[j]);
    }
    assert SoundTable(sh, ss[Best(bs, |bs|)], ts[Best(bs, |bs|)]);
  }

  /** MergeAll of sound tables is sound for the concatenation of their streams. */
  lemma MergeSound(sh: Shape, ss: seq<Stream>, ts: seq<Table>)
    requires sh.Ok() && AllGood(sh, ss) && SoundTables(sh, ss, ts)
    ensures SoundTable(sh, Concat(ss), MergedTable(sh, ts)) && Good(sh, Concat(ss))
  {
    ConcatGood(sh, ss);
    forall x | 0 <= x < sh.depth * sh.width
      ensures SoundBucket(sh, Concat(ss), x, MergedTable(sh, ts)[x])
      ensures |MergedTable(sh, ts)[x].key| == sh.keyLen
    {
      ColumnSound(sh, ss, ts, x);
      MergedBucketSound(sh, ss, x, Column(ts, x));
    }
  }

  /** The merged estimates bracket the totals over all the streams, as those of a single sketch do. */
  lemma MergeBrackets(sh: Shape, ss: seq<Stream>, ts: seq<Table>, k: Key)
    requires sh.Ok() && AllGood(sh, ss) && SoundTables(sh, ss, ts)
    ensures
      var t := MergedTable(sh, ts);
      Low(sh, t, k, sh.depth) <= Total(Concat(ss), k)
      && (sh.depth > 0 && !Unset(k) ==> Total(Concat(ss), k) <= Up(sh, t, k, sh.depth))
  {
    MergeSound(sh, ss, ts);
    RowsBracket(sh, Concat(ss), MergedTable(sh, ts), k, sh.depth);
  }

  /** A key that is a strict majority of the inputs' sums at a position is the key stored there after the merge. */
  lemma MergeKeepsMajority(sh: Shape, ss: seq<Stream>, x: nat, bs: seq<Bucket>, k: Key)
    requires sh.width > 0 && |bs| > 0 && AllGood(sh, ss) && SoundAll(sh, ss, x, bs)
    requires Reaches(sh, k, x) && !Unset(k) && 2 * Total(Concat(ss), k) > SumOf(bs, |bs|)
    ensures MergedBucket(bs).key == k && MergedBucket(bs).sum == SumOf(bs, |bs|)
  {
    var n := |bs|;
    var w := bs[Best(bs, n)].key;
    assert ss[..n] == ss;
    EstBounds(sh, ss, x, bs, w, n);
    EstCovers(sh, ss, x, bs, k, w, n);
    if j :| 0 <= j < n && bs[j].key == k {
      assert Est(bs, k, n) <= Est(bs, w, n);
    }
  }
}
