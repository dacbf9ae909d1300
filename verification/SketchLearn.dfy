/**
 alg_sketchlearn.c and remove_large of controller.c: the counter tables updated
 in place, and the two ways the code computes a full-key estimate.
 */
module SketchLearn {
  import opened Arith
  import opened Bits
  import opened Bitmap
  import opened SketchCountersSpec

  lemma MaskIsBit(b: bv8, p: nat)
    requires p < 8
    ensures b & (1 << (7 - p)) != 0 <==> Bit(b, p)
    ensures (b & 1 == 1) <==> Bit(b, 7)
  {
    Eight(p);
  }

  method GetBit(a: Key, pos: nat) returns (r: int)
    requires pos < 8 * |a|
    ensures r == if BitAt(a, pos) then 1 else 0
  {
    var byte := pos / 8;
    var bit := pos % 8;
    MaskIsBit(a[byte], bit);
    if a[byte] & (1 << (7 - bit)) == 0 {
      return 0;
    } else {
      return 1;
    }
  }

  /** v is b shifted right by k. */
  ghost predicate Shifted(v: bv8, b: bv8, k: nat) {
    forall p :: 0 <= p < 8 ==> (Bit(v, p) <==> p >= k && Bit(b, p - k))
  }

  /** One turn of the bit loop: test the low bit, then shift it out. */
  method NextBit(val: bv8, ghost b: bv8, ghost k: nat) returns (one: bool, next: bv8)
    requires k < 8 && Shifted(val, b, k)
    ensures (one <==> Bit(b, 7 - k)) && Shifted(next, b, k + 1)
  {
    MaskIsBit(val, 7);
    one := val & 1 == 1;
    next := ShiftRight(val, 1);
  }

  lemma InsertStep(sh: Shape, was: seq<int>, key: Key, diff: int, length: nat)
    requires |was| == 1 + 2 * sh.Lgn() && |key| == sh.keyLen && 0 < length <= sh.Lgn()
    ensures
      var row := InsertRow(sh, was, key, diff, length);
      InsertRow(sh, was, key, diff, length - 1) ==
      if BitAt(key, length - 1) then row[length := row[length] + diff] else row
  {
  }

  class SketchLearn {
    const sh: Shape
    const counts: array2<int>

    ghost predicate Valid() {
      sh.width > 0 && counts.Length0 == sh.Size() && counts.Length1 == 1 + 2 * sh.Lgn()
    }

    ghost function RowAt(x: nat): (r: seq<int>)
      requires Valid() && x < sh.Size()
      reads counts
      ensures |r| == 1 + 2 * sh.Lgn()
    {
      seq(counts.Length1, c requires Valid() && 0 <= c < counts.Length1 reads counts => counts[x, c])
    }

    ghost function View(): (t: Table)
      requires Valid()
      reads counts
      ensures Shaped(sh, t)
    {
      seq(counts.Length0, x requires Valid() && 0 <= x < counts.Length0 reads counts => RowAt(x))
    }

    constructor (sh: Shape)
      requires sh.width > 0
      ensures this.sh == sh && Valid() && fresh(counts)
      ensures View() == SketchOf(sh, [])
    {
      this.sh := sh;
      counts := new int[sh.Size(), 1 + 2 * sh.Lgn()]((_, _) => 0);
      new;
      forall x | 0 <= x < sh.Size()
        ensures RowAt(x) == EmptyTable(sh)[x]
      {
      }
    }

    /** The inner loop of loginsert: byte i of the key, low bit first. */
    method InsertByte(x: nat, key: Key, i: nat, diff: int, ghost was: seq<int>)
      requires Valid() && x < sh.Size() && |key| == sh.keyLen && i < sh.keyLen && |was| == 1 + 2 * sh.Lgn()
      requires RowAt(x) == InsertRow(sh, was, key, diff, 8 * i + 8)
      modifies counts
      ensures RowAt(x) == InsertRow(sh, was, key, diff, 8 * i)
      ensures forall y :: 0 <= y < sh.Size() && y != x ==> RowAt(y) == old(RowAt(y))
    {
      var length := 8 * i + 8;
      var val := key[i];
      var j := 7;
      while j >= 0
        invariant -1 <= j <= 7 && length == 8 * i + j + 1 && Shifted(val, key[i], 7 - j)
        invariant RowAt(x) == InsertRow(sh, was, key, diff, length)
        invariant forall y :: 0 <= y < sh.Size() && y != x ==> RowAt(y) == old(RowAt(y))
      {
        var one, next := NextBit(val, key[i], 7 - j);
        assert one == BitAt(key, length - 1) by {
          assert (length - 1) / 8 == i && (length - 1) % 8 == j;
        }
        InsertBit(x, key, diff, length, one, was);
        length := length - 1;
        val := next;
        j := j - 1;
      }
    }

    method InsertBit(x: nat, key: Key, diff: int, length: nat, one: bool, ghost was: seq<int>)
      requires Valid() && x < sh.Size() && |key| == sh.keyLen && |was| == 1 + 2 * sh.Lgn()
      requires 0 < length <= sh.Lgn() && one == BitAt(key, length - 1)
      requires RowAt(x) == InsertRow(sh, was, key, diff, length)
      modifies counts
      ensures RowAt(x) == InsertRow(sh, was, key, diff, length - 1)
      ensures forall y :: 0 <= y < sh.Size() && y != x ==> RowAt(y) == old(RowAt(y))
    {
      InsertStep(sh, was, key, diff, length);
      if one {
        Bump(x, length, diff);
      }
    }

    /** lists[c] += diff, on bucket x. */
    method Bump(x: nat, c: nat, diff: int)
      requires Valid() && x < sh.Size() && c < counts.Length1
      modifies counts
      ensures RowAt(x) == old(RowAt(x))[c := old(RowAt(x))[c] + diff]
      ensures forall y :: 0 <= y < sh.Size() && y != x ==> RowAt(y) == old(RowAt(y))
    {
      counts[x, c] := counts[x, c] + diff;
    }

    /** loginsert on bucket x: from the last byte of the key to the first. */
    method LogInsert(x: nat, key: Key, diff: int)
      requires Valid() && x < sh.Size() && |key| == sh.keyLen
      modifies counts
      ensures RowAt(x) == InsertRow(sh, old(RowAt(x)), key, diff, 0)
      ensures forall y :: 0 <= y < sh.Size() && y != x ==> RowAt(y) == old(RowAt(y))
    {
      ghost var was := RowAt(x);
      Bump(x, 0, diff);
      assert RowAt(x) == InsertRow(sh, was, key, diff, sh.Lgn());
      var i := sh.keyLen - 1;
      while i >= 0
        invariant -1 <= i < sh.keyLen
        invariant RowAt(x) == InsertRow(sh, was, key, diff, 8 * i + 8)
        invariant forall y :: 0 <= y < sh.Size() && y != x ==> RowAt(y) == old(RowAt(y))
      {
        InsertByte(x, key, i, diff, was);
        i := i - 1;
      }
    }

    /** SKL_Update. */
    method Update(key: Key, diff: int)
      requires Valid() && |key| == sh.keyLen
      modifies counts
      ensures View() == SketchCountersSpec.Update(sh, old(View()), key, diff)
    {
      for i := 0 to sh.depth
        invariant forall x :: 0 <= x < sh.Size() ==>
                    RowAt(x) == if x / sh.width < i && Reaches(sh, key, x) then InsertRow(sh, old(RowAt(x)), key, diff, 0)
                                else old(RowAt(x))
      {
        var hash := sh.hash(i, key) % sh.width;
        FlatIndex(sh.depth, sh.width, i, hash);
        var index := i * sh.width + hash;
        forall x | 0 <= x < sh.Size() && x / sh.width == i && x != index
          ensures !Reaches(sh, key, x)
        {
          FlatSplit(sh.depth, sh.width, x);
        }
        LogInsert(index, key, diff);
      }
      forall x | 0 <= x < sh.Size()
        ensures x / sh.width < sh.depth
      {
        FlatSplit(sh.depth, sh.width, x);
      }
    }

    /** The integer part of SKL_CompleteZeroes. */
    method CompleteZeroes()
      requires Valid()
      modifies counts
      ensures View() == Complete(sh, old(View()))
    {
      for x := 0 to sh.Size()
        invariant forall y :: 0 <= y < sh.Size() ==>
                    RowAt(y) == if y < x then Complete(sh, old(View()))[y] else old(RowAt(y))
      {
        CompleteRow(x);
      }
    }

    method CompleteRow(x: nat)
      requires Valid() && x < sh.Size()
      modifies counts
      ensures forall c :: 0 <= c < counts.Length1 ==>
                RowAt(x)[c] == if c <= sh.Lgn() then old(RowAt(x))[c] else old(RowAt(x))[0] - old(RowAt(x))[c - sh.Lgn()]
      ensures forall y :: 0 <= y < sh.Size() && y != x ==> RowAt(y) == old(RowAt(y))
    {
      var lgn := sh.Lgn();
      var v := counts[x, 0];
      for k := 1 to lgn + 1
        invariant forall c :: 0 <= c < counts.Length1 ==>
                    counts[x, c] == if lgn < c < k + lgn then old(counts[x, 0]) - old(counts[x, c - lgn])
                                    else old(counts[x, c])
        invariant forall y, c :: 0 <= y < counts.Length0 && y != x && 0 <= c < counts.Length1 ==>
                    counts[y, c] == old(counts[y, c])
      {
        counts[x, k + lgn] := v - counts[x, k];
      }
    }

    /** SKL_Merge; a size mismatch ends the program, here reported as false with nothing changed. */
    method Merge(src: SketchLearn) returns (ok: bool)
      requires Valid() && src.Valid() && src.sh.keyLen == sh.keyLen
      modifies counts
      ensures ok == (src.sh.width == sh.width && src.sh.depth == sh.depth)
      ensures ok ==> Shaped(sh, old(src.View())) && View() == Add(sh, old(View()), old(src.View()))
      ensures !ok ==> View() == old(View())
    {
      if sh.width != src.sh.width || sh.depth != src.sh.depth {
        return false;
      }
      ok := true;
      for x := 0 to sh.Size()
        invariant forall y, c :: 0 <= y < counts.Length0 && 0 <= c < counts.Length1 ==>
                    counts[y, c] == old(counts[y, c]) + (if y < x then old(src.counts[y, c]) else 0)
        invariant src.counts != counts ==> forall y, c :: 0 <= y < counts.Length0 && 0 <= c < counts.Length1 ==>
                    src.counts[y, c] == old(src.counts[y, c])
      {
        for c := 0 to 2 * sh.Lgn() + 1
          invariant forall y, d :: 0 <= y < counts.Length0 && 0 <= d < counts.Length1 ==>
                      counts[y, d] == old(counts[y, d]) + (if y < x || (y == x && d < c) then old(src.counts[y, d]) else 0)
          invariant src.counts != counts ==> forall y, d :: 0 <= y < counts.Length0 && 0 <= d < counts.Length1 ==>
                      src.counts[y, d] == old(src.counts[y, d])
        {
          counts[x, c] := counts[x, c] + src.counts[x, c];
        }
      }
      TablesEqual(sh, View(), Add(sh, old(View()), old(src.View())));
    }

    /** SKL_Diff, with the same treatment of a mismatch. */
    method Diff(src: SketchLearn) returns (ok: bool)
      requires Valid() && src.Valid() && src.sh.keyLen == sh.keyLen
      modifies counts
      ensures ok == (src.sh.width == sh.width && src.sh.depth == sh.depth)
      ensures ok ==> Shaped(sh, old(src.View())) && View() == Subtract(sh, old(View()), old(src.View()))
      ensures !ok ==> View() == old(View())
    {
      if sh.width != src.sh.width || sh.depth != src.sh.depth {
        return false;
      }
      ok := true;
      for x := 0 to sh.Size()
        invariant forall y, c :: 0 <= y < counts.Length0 && 0 <= c < counts.Length1 ==>
                    counts[y, c] == old(counts[y, c]) - (if y < x then old(src.counts[y, c]) else 0)
        invariant src.counts != counts ==> forall y, c :: 0 <= y < counts.Length0 && 0 <= c < counts.Length1 ==>
                    src.counts[y, c] == old(src.counts[y, c])
      {
        for c := 0 to 2 * sh.Lgn() + 1
          invariant forall y, d :: 0 <= y < counts.Length0 && 0 <= d < counts.Length1 ==>
                      counts[y, d] == old(counts[y, d]) - (if y < x || (y == x && d < c) then old(src.counts[y, d]) else 0)
          invariant src.counts != counts ==> forall y, d :: 0 <= y < counts.Length0 && 0 <= d < counts.Length1 ==>
                      src.counts[y, d] == old(src.counts[y, d])
        {
          counts[x, c] := counts[x, c] - src.counts[x, c];
        }
      }
      TablesEqual(sh, View(), Subtract(sh, old(View()), old(src.View())));
    }

    /** remove_large: a negative update per listed flow, then completion. */
    method RemoveLarge(list: Stream)
      requires Valid() && GoodKeys(sh, list)
      modifies counts
      ensures GoodKeys(sh, Negated(list)) && View() == Complete(sh, UpdateAll(sh, old(View()), Negated(list)))
    {
      ghost var neg := Negated(list);
      for i := 0 to |list|
        invariant View() == UpdateAll(sh, old(View()), neg[..i])
      {
        assert neg[..i + 1][..i] == neg[..i] && neg[..i + 1][i] == (list[i].0, -list[i].1);
        Update(list[i].0, -list[i].1);
      }
      assert neg[..|list|] == neg;
      CompleteZeroes();
    }

    /** One bucket in SKL_Est_old: the least counter at the listed positions. */
    method LeastAt(x: nat, key: Key, bits: seq<nat>) returns (est: int)
      requires Valid() && x < sh.Size() && |key| == sh.keyLen
      requires forall n :: 0 <= n < |bits| ==> bits[n] < sh.Lgn()
      ensures IsMinAt(sh, RowAt(x), key, bits, est)
    {
      est := counts[x, 0];
      for i := 0 to |bits|
        invariant IsMinAt(sh, RowAt(x), key, bits[..i], est)
      {
        var pos := bits[i];
        var bit := GetBit(key, pos);
        var v;
        if bit == 1 {
          v := counts[x, pos + 1];
        } else {
          v := counts[x, pos + 1 + sh.Lgn()];
        }
        ghost var before := est;
        if v < est {
          est := v;
        }
        assert bits[..i + 1] == bits[..i] + [pos];
        assert v == RowAt(x)[KeyCounter(sh, key, pos)];
        LeastSnoc(sh, RowAt(x), key, bits[..i], pos, before);
      }
      assert bits[..|bits|] == bits;
    }

    /** The full-key branch of SKL_Est_old: bits lists as many positions as the key has. */
    method EstOld(key: Key, bits: seq<nat>) returns (ret: int)
      requires Valid() && |key| == sh.keyLen && |bits| == sh.Lgn()
      requires forall n :: 0 <= n < |bits| ==> bits[n] < sh.Lgn()
      ensures if sh.depth == 0 then ret == 0 else IsEstimateAt(sh, View(), key, bits, ret)
    {
      ret := 0;
      ghost var mins := [];
      for k := 0 to sh.depth
        invariant |mins| == k && (if k == 0 then ret == 0 else ret in mins)
        invariant forall i :: 0 <= i < k ==> ret <= mins[i]
        invariant forall i :: 0 <= i < k ==> IsMinAt(sh, RowAt(BucketOf(sh, i, key)), key, bits, mins[i])
      {
        var bucket := k * sh.width + sh.hash(k, key) % sh.width;
        assert bucket == BucketOf(sh, k, key);
        var est := LeastAt(bucket, key, bits);
        if k == 0 || est < ret {
          ret := est;
        }
        mins := mins + [est];
      }
      if sh.depth > 0 {
        MinsGiveEstimateAt(sh, View(), key, bits, mins, ret);
      }
    }

    method LeastStep(x: nat, key: Key, length: nat, one: bool, least: int) returns (est: int)
      requires Valid() && x < sh.Size() && |key| == sh.keyLen && 0 < length <= sh.Lgn()
      requires one == BitAt(key, length - 1) && IsMinFrom(sh, RowAt(x), key, length, least)
      ensures IsMinFrom(sh, RowAt(x), key, length - 1, est)
    {
      est := least;
      var v;
      if one {
        v := counts[x, length];
      } else {
        v := counts[x, length + sh.Lgn()];
      }
      assert v == RowAt(x)[KeyCounter(sh, key, length - 1)];
      LeastDown(sh, RowAt(x), key, length, est);
      if v < est {
        est := v;
      }
    }

    /** One bucket of the estimate inside SKL_Identify_Thresh, byte i of the key. */
    method LeastInByte(x: nat, key: Key, i: nat, least: int) returns (est: int)
      requires Valid() && x < sh.Size() && |key| == sh.keyLen && i < sh.keyLen
      requires IsMinFrom(sh, RowAt(x), key, 8 * i + 8, least)
      ensures IsMinFrom(sh, RowAt(x), key, 8 * i, est)
    {
      est := least;
      var length := 8 * i + 8;
      var val := key[i];
      var j := 7;
      while j >= 0
        invariant -1 <= j <= 7 && length == 8 * i + j + 1 && Shifted(val, key[i], 7 - j)
        invariant IsMinFrom(sh, RowAt(x), key, length, est)
      {
        var one, next := NextBit(val, key[i], 7 - j);
        assert one == BitAt(key, length - 1) by {
          assert (length - 1) / 8 == i && (length - 1) % 8 == j;
        }
        est := LeastStep(x, key, length, one, est);
        length := length - 1;
        val := next;
        j := j - 1;
      }
    }

    method LeastOf(x: nat, key: Key) returns (est: int)
      requires Valid() && x < sh.Size() && |key| == sh.keyLen
      ensures IsBucketMin(sh, RowAt(x), key, est)
    {
      est := counts[x, 0];
      var i := sh.keyLen - 1;
      while i >= 0
        invariant -1 <= i < sh.keyLen
        invariant IsMinFrom(sh, RowAt(x), key, 8 * i + 8, est)
      {
        est := LeastInByte(x, key, i, est);
        i := i - 1;
      }
    }

    /** The estimate inside SKL_Identify_Thresh, for a guess found in its own bucket of row i. */
    method InlineEst(i: nat, guess: Key) returns (ret: int)
      requires Valid() && i < sh.depth && |guess| == sh.keyLen
      ensures IsEstimate(sh, View(), guess, sh.depth, ret)
    {
      ghost var total := RowAt(BucketOf(sh, i, guess))[0];
      ret := counts[BucketOf(sh, i, guess), 0];
      ghost var mins := [];
      for k := 0 to sh.depth
        invariant |mins| == k && ret <= total && (ret == total || ret in mins)
        invariant forall m :: 0 <= m < k ==> ret <= mins[m]
        invariant forall m :: 0 <= m < k ==> IsBucketMin(sh, RowAt(BucketOf(sh, m, guess)), guess, mins[m])
      {
        var bucket := k * sh.width + sh.hash(k, guess) % sh.width;
        assert bucket == BucketOf(sh, k, guess);
        var est := LeastOf(bucket, guess);
        if est < ret {
          ret := est;
        }
        mins := mins + [est];
      }
      assert mins[i] <= total;
      assert ret in mins;
      MinsGiveEstimate(sh, View(), guess, mins, ret);
    }
  }

  lemma LeastDown(sh: Shape, row: seq<int>, k: Key, length: nat, v: int)
    requires |row| == 1 + 2 * sh.Lgn() && |k| == sh.keyLen && 0 < length <= sh.Lgn()
    requires IsMinFrom(sh, row, k, length, v)
    ensures
      var w := row[KeyCounter(sh, k, length - 1)];
      IsMinFrom(sh, row, k, length - 1, if w < v then w else v)
  {
  }
}
