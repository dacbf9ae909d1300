/**
 mvsketch.cpp: the sketch object with its table updated in place.
 */
module MVSketch {
  import opened Bits
  import opened Arith
  import opened MVSketchSpec

  class MVSketch {
    const sh: Shape
    const counts: array<Bucket>
    var sum: int

    ghost predicate Valid()
      reads this, counts
    {
      TableOk(sh, counts[..])
    }

    ghost function T(): Table
      reads this, counts
    {
      counts[..]
    }

    constructor (sh: Shape)
      requires sh.Ok()
      ensures this.sh == sh && Valid() && fresh(counts)
      ensures T() == EmptyTable(sh) && sum == 0
    {
      this.sh := sh;
      counts := new Bucket[sh.depth * sh.width](_ => Bucket(0, 0, Zeros(sh.keyLen)));
      sum := 0;
      new;
      assert counts[..] == EmptyTable(sh);
    }

    method Update(key: Key, val: int)
      requires Valid() && |key| == sh.keyLen
      modifies this, counts
      ensures Valid() && sum == old(sum) + val
      ensures T() == FeedTable(sh, old(T()), key, val)
    {
      sum := sum + val;
      for i := 0 to sh.depth
        modifies counts
        invariant forall x :: 0 <= x < counts.Length ==>
                    counts[x] == if x / sh.width < i && Reaches(sh, key, x) then Feed(old(counts[x]), key, val)
                                 else old(counts[x])
      {
        var bucket := sh.hash(i, key) % sh.width;
        FlatIndex(sh.depth, sh.width, i, bucket);
        var index := i * sh.width + bucket;
        ghost var before := counts[index];
        counts[index] := counts[index].(sum := counts[index].sum + val);
        if counts[index].key[0] == 0 {
          counts[index] := counts[index].(key := key, count := val);
        } else if key == counts[index].key {
          counts[index] := counts[index].(count := counts[index].count + val);
        } else {
          counts[index] := counts[index].(count := counts[index].count - val);
          if counts[index].count < 0 {
            counts[index] := counts[index].(key := key, count := -counts[index].count);
          }
        }
        assert counts[index] == Feed(before, key, val);
        forall x | 0 <= x < counts.Length && x / sh.width == i && x != index
          ensures !Reaches(sh, key, x)
        {
          FlatSplit(sh.depth, sh.width, x);
        }
      }
      forall x | 0 <= x < counts.Length
        ensures x / sh.width < sh.depth
      {
        FlatSplit(sh.depth, sh.width, x);
      }
      assert counts[..] == FeedTable(sh, old(T()), key, val);
    }

    method LowEstimate(key: Key) returns (ret: int)
      requires Valid()
      ensures ret == Low(sh, T(), key, sh.depth)
    {
      ret := 0;
      for i := 0 to sh.depth
        invariant ret == Low(sh, T(), key, i)
      {
        var bucket := sh.hash(i, key) % sh.width;
        FlatIndex(sh.depth, sh.width, i, bucket);
        var index := i * sh.width + bucket;
        var lowest := 0;
        if key == counts[index].key {
          lowest := counts[index].count;
        }
        if ret < lowest {
          ret := lowest;
        }
      }
    }

    method UpEstimate(key: Key) returns (ret: int)
      requires Valid()
      ensures ret == Up(sh, T(), key, sh.depth)
    {
      ret := 0;
      for i := 0 to sh.depth
        invariant ret == Up(sh, T(), key, i)
      {
        var bucket := sh.hash(i, key) % sh.width;
        FlatIndex(sh.depth, sh.width, i, bucket);
        var index := i * sh.width + bucket;
        var upest := Half(counts[index].sum - counts[index].count);
        if key == counts[index].key {
          upest := upest + counts[index].count;
        }
        if i == 0 || upest < ret {
          ret := upest;
        }
      }
    }

    /** The keys of all buckets whose sum is above the threshold. */
    method Candidates(thresh: int) returns (res: set<Key>)
      requires Valid()
      ensures forall k :: k in res <==> Candidate(T(), thresh, k)
    {
      res := {};
      for i := 0 to counts.Length
        invariant forall k :: k in res <==> Candidate(counts[..i], thresh, k)
      {
        assert counts[..i + 1] == counts[..i] + [counts[i]];
        if counts[i].sum > thresh {
          res := res + {counts[i].key};
          assert counts[..i + 1][i] == counts[i];
        }
        forall k | Candidate(counts[..i], thresh, k)
          ensures Candidate(counts[..i + 1], thresh, k)
        {
          var x :| 0 <= x < i && counts[..i][x].sum > thresh && counts[..i][x].key == k;
          assert counts[..i + 1][x] == counts[x];
        }
      }
      assert counts[..counts.Length] == counts[..];
    }

    /** Each reported key once, in no particular order, with its upper estimate. */
    method Query(thresh: int) returns (results: seq<(Key, int)>)
      requires Valid()
      ensures forall k, e :: (k, e) in results <==> Reported(sh, T(), thresh, k) && e == Up(sh, T(), k, sh.depth)
      ensures forall a, b :: 0 <= a < b < |results| ==> results[a].0 != results[b].0
    {
      var res := Candidates(thresh);
      results := [];
      var todo := res;
      while todo != {}
        invariant todo <= res
        invariant forall k, e :: (k, e) in results <==>
                    k in res - todo && e == Up(sh, T(), k, sh.depth) && e > thresh
        invariant forall a, b :: 0 <= a < b < |results| ==> results[a].0 != results[b].0
        decreases todo
      {
        var it :| it in todo;
        var resval := UpEstimate(it);
        if resval > thresh {
          forall a | 0 <= a < |results|
            ensures results[a].0 != it
          {
            var (k, e) := results[a];
            assert (k, e) in results;
          }
          results := results + [(it, resval)];
        }
        todo := todo - {it};
      }
    }

    method Reset()
      requires Valid()
      modifies this, counts
      ensures Valid() && T() == EmptyTable(sh) && sum == 0
    {
      sum := 0;
      for i := 0 to counts.Length
        modifies counts
        invariant forall x :: 0 <= x < i ==> counts[x] == Bucket(0, 0, Zeros(sh.keyLen))
      {
        counts[i] := Bucket(0, 0, Zeros(sh.keyLen));
      }
      assert counts[..] == EmptyTable(sh);
    }

    /** One key's estimate over the buckets that are merged. */
    static method EstimateOf(bs: seq<Bucket>, key: Key) returns (est: int)
      ensures est == Est(bs, key, |bs|)
    {
      est := 0;
      for j := 0 to |bs|
        invariant est == Est(bs, key, j)
      {
        if key == bs[j].key {
          est := est + Half(bs[j].sum + bs[j].count);
        } else {
          est := est + Half(bs[j].sum - bs[j].count);
        }
      }
    }

    /** The inner loops of MergeAll, for one position. */
    static method MergeBucket(bs: seq<Bucket>) returns (r: Bucket)
      requires |bs| > 0
      ensures r == MergedBucket(bs)
    {
      var size := |bs|;
      var total := 0;
      for i := 0 to size
        invariant total == SumOf(bs, i)
      {
        total := total + bs[i].sum;
      }
      var est := new int[size];
      var pointer := 0;
      for i := 0 to size
        invariant i > 0 ==> pointer == Best(bs, i)
        invariant i == 0 ==> pointer == 0
        invariant forall j :: 0 <= j < i ==> est[j] == Est(bs, bs[j].key, size)
      {
        est[i] := EstimateOf(bs, bs[i].key);
        if est[i] > est[pointer] {
          pointer := i;
        }
      }
      var counttmp := 2 * est[pointer] - total;
      counttmp := if counttmp > 0 then counttmp else 0;
      if counttmp == 0 {
        r := Bucket(2 * est[pointer], counttmp, bs[pointer].key);
      } else {
        r := Bucket(total, counttmp, bs[pointer].key);
      }
    }

    /**
     MergeAll; the receiver may be one of the sketches merged.  `ts` names the
     tables of the inputs.  The receiver's own `sum` is left as it was.
     */
    method MergeAll(arr: seq<MVSketch>, ghost ts: seq<Table>)
      requires Valid() && |arr| == |ts| > 0 && Shaped(sh, ts)
      requires forall j :: 0 <= j < |arr| ==> arr[j].sh.keyLen == sh.keyLen && arr[j].Valid() && arr[j].T() == ts[j]
      modifies counts
      ensures Valid() && T() == MergedTable(sh, ts)
    {
      KeysSized(arr, ts);
      MergeColumns(arr, ts);
      assert counts[..] == MergedTable(sh, ts);
      MergedKeys(sh, ts);
    }

    /** The outer loops of MergeAll: every position in turn. */
    method MergeColumns(arr: seq<MVSketch>, ghost ts: seq<Table>)
      requires |arr| == |ts| > 0 && forall j :: 0 <= j < |arr| ==> |ts[j]| == counts.Length && arr[j].counts[..] == ts[j]
      modifies counts
      ensures forall x :: 0 <= x < counts.Length ==> counts[x] == MergedBucket(Column(ts, x))
    {
      for x := 0 to counts.Length
        invariant forall y :: 0 <= y < x ==> counts[y] == MergedBucket(Column(ts, y))
        invariant forall j, y :: 0 <= j < |arr| && x <= y < counts.Length ==> arr[j].counts[y] == ts[j][y]
      {
        var bs := Gather(arr, ts, x);
        var b := MergeBucket(bs);
        counts[x] := b;
      }
    }

    lemma KeysSized(arr: seq<MVSketch>, ts: seq<Table>)
      requires |arr| == |ts|
      requires forall j :: 0 <= j < |arr| ==> arr[j].sh.keyLen == sh.keyLen && arr[j].Valid() && arr[j].T() == ts[j]
      ensures forall j, x :: 0 <= j < |ts| && 0 <= x < |ts[j]| ==> |ts[j][x].key| == sh.keyLen
    {
      forall j, x | 0 <= j < |ts| && 0 <= x < |ts[j]|
        ensures |ts[j][x].key| == sh.keyLen
      {
        assert arr[j].T()[x] == arr[j].counts[x];
      }
    }

    /** The first inner loop of MergeAll: the buckets at one position. */
    static method Gather(arr: seq<MVSketch>, ghost ts: seq<Table>, x: nat) returns (bs: seq<Bucket>)
      requires |arr| == |ts| && forall j :: 0 <= j < |arr| ==> x < |ts[j]| == arr[j].counts.Length
      requires forall j :: 0 <= j < |arr| ==> arr[j].counts[x] == ts[j][x]
      ensures bs == Column(ts, x)
    {
      bs := [];
      for i := 0 to |arr|
        invariant |bs| == i && forall j :: 0 <= j < i ==> bs[j] == ts[j][x]
      {
        bs := bs + [arr[i].counts[x]];
      }
    }
  }
}
