/**
 spreadsketch.cpp: the detector object.  Each row keeps its bitmaps packed into
 one byte buffer; levels and keys are tables beside it.
 */
module SpreadSketch {
  import opened Bits
  import opened Bitmap
  import opened SpreadSketchSpec

  /** loghash: the number of ones to the right of the rightmost zero. */
  method Loghash(p: nat) returns (ret: nat)
    ensures ret == TrailingOnes(p)
  {
    var q := p;
    ret := 0;
    while q % 2 == 1
      invariant ret + TrailingOnes(q) == TrailingOnes(p)
      decreases q
    {
      q := q / 2;
      ret := ret + 1;
    }
  }

  class DetectorSS {
    const sh: Shape
    const counts: seq<array<bv8>>
    const level: array2<nat>
    const skey: array2<Key>

    /** Sizes, and rows kept in separate buffers. */
    ghost predicate Layout() {
      && sh.Ok()
      && |counts| == sh.depth
      && (forall i :: 0 <= i < sh.depth ==> counts[i].Length == sh.RowBytes())
      && (forall i, j :: 0 <= i < j < sh.depth ==> counts[i] != counts[j])
      && level.Length0 == skey.Length0 == sh.depth && level.Length1 == skey.Length1 == sh.width
    }

    ghost function Repr(): set<object> {
      (set i | 0 <= i < |counts| :: counts[i] as object) + {level as object, skey as object}
    }

    ghost function RowAt(i: nat): (r: Row)
      requires Layout() && i < sh.depth
      reads this, counts[i], level, skey
      ensures |r.cells| == sh.width
    {
      Row(Ones(counts[i][..]),
          seq(sh.width, j requires 0 <= j < sh.width reads this, level, skey
                          requires level.Length0 == skey.Length0 == sh.depth > i
                          requires level.Length1 == skey.Length1 == sh.width
                          => Cell(level[i, j], skey[i, j])))
    }

    /** The object's whole value. */
    ghost function View(): (sk: Sketch)
      requires Layout()
      reads this, Repr()
      ensures Shaped(sh, sk)
    {
      seq(sh.depth, i requires Layout() && 0 <= i < sh.depth reads this, Repr() => RowAt(i))
    }

    ghost predicate Valid()
      reads this, Repr()
    {
      Layout() && forall i :: 0 <= i < sh.depth ==> CleanRow(sh, RowAt(i))
    }

    constructor (sh: Shape)
      requires sh.Ok()
      ensures this.sh == sh && Valid() && fresh(Repr())
      ensures View() == SketchOf(sh, [])
    {
      this.sh := sh;
      var rows: seq<array<bv8>> := [];
      for i := 0 to sh.depth
        invariant |rows| == i
        invariant forall m :: 0 <= m < i ==> fresh(rows[m]) && rows[m].Length == sh.RowBytes()
        invariant forall m :: 0 <= m < i ==> forall x :: 0 <= x < rows[m].Length ==> rows[m][x] == 0
        invariant forall m, n :: 0 <= m < n < i ==> rows[m] != rows[n]
      {
        var row := new bv8[sh.RowBytes()](_ => 0);
        rows := rows + [row];
      }
      counts := rows;
      level := new nat[sh.depth, sh.width]((_, _) => 0);
      skey := new Key[sh.depth, sh.width]((_, _) => 0);
      new;
      forall i | 0 <= i < sh.depth
        ensures RowAt(i) == EmptyRow(sh)
      {
        forall t: nat | t < 8 * counts[i].Length
          ensures !BitAt(counts[i][..], t)
        {
          assert counts[i][..][t / 8] == 0;
          ZeroByte(t % 8);
        }
      }
    }

    /** The loop body of Update, for one row. */
    method UpdateRow(i: nat, e: Edge, tmplevel: nat, pos: nat)
      requires Layout() && i < sh.depth && tmplevel == sh.Level(e) && pos == sh.Pos(e)
      modifies counts[i], level, skey
      ensures RowAt(i) == ApplyRow(sh, old(RowAt(i)), i, e)
      ensures forall m :: 0 <= m < sh.depth && m != i ==> RowAt(m) == old(RowAt(m))
    {
      ColInRange(sh, i, e.0);
      var bucket := sh.rowHash(i, e.0) % TWO32 * sh.width / TWO32;
      if level[i, bucket] < tmplevel {
        level[i, bucket] := tmplevel;
        skey[i, bucket] := e.0;
      }
      PosInRange(sh, e);
      RegionInRange(sh, bucket);
      Setbit(pos + bucket * sh.Bits(), counts[i]);
      assert RowAt(i).cells == ApplyRow(sh, old(RowAt(i)), i, e).cells;
      forall m | 0 <= m < sh.depth && m != i
        ensures RowAt(m) == old(RowAt(m))
      {
        assert counts[m] != counts[i];
        assert RowAt(m).cells == old(RowAt(m)).cells;
      }
    }

    /** The level of an edge and the position of its bit inside a bucket. */
    method Locate(e: Edge) returns (tmplevel: nat, pos: nat)
      requires Layout()
      ensures tmplevel == sh.Level(e) && pos == sh.Pos(e)
    {
      var p := sh.edgeHash(e);
      tmplevel := Loghash(p);
      if tmplevel < sh.c - 1 {
        pos := p % TWO32 * sh.b / TWO32;
        pos := pos + sh.Offset(tmplevel);
      } else {
        pos := p % TWO32 * sh.lastb / TWO32;
        pos := pos + sh.Offset(sh.c - 1);
      }
    }

    /** Update in the build without the filter: four rows by one hash call, the rest by their own. */
    method Update(e: Edge)
      requires Valid()
      modifies Repr()
      ensures Valid() && View() == Apply(sh, old(View()), e)
    {
      var tmplevel, pos := Locate(e);
      var tdepth := if sh.depth > 4 then 4 else sh.depth;
      for i := 0 to tdepth
        invariant forall m :: 0 <= m < i ==> RowAt(m) == ApplyRow(sh, old(RowAt(m)), m, e)
        invariant forall m :: i <= m < sh.depth ==> RowAt(m) == old(RowAt(m))
      {
        assert counts[i] in Repr();
        UpdateRow(i, e, tmplevel, pos);
      }
      var i := 4;
      while i < sh.depth
        invariant forall m :: 0 <= m < i && m < sh.depth ==> RowAt(m) == ApplyRow(sh, old(RowAt(m)), m, e)
        invariant forall m :: i <= m < sh.depth ==> RowAt(m) == old(RowAt(m))
      {
        assert counts[i] in Repr();
        UpdateRow(i, e, tmplevel, pos);
        i := i + 1;
      }
      forall m | 0 <= m < sh.depth
        ensures CleanRow(sh, RowAt(m))
      {
        ApplyClean(sh, old(RowAt(m)), m, e);
      }
    }

    /** The loop body of Merge, for bucket j of row i. */
    method MergeBucket(other: DetectorSS, i: nat, j: nat)
      requires Layout() && other.Layout() && other.sh == sh && i < sh.depth && j < sh.width
      requires other == this || other.Repr() !! Repr()
      modifies counts[i], level, skey
      ensures old(RowAt(i)).ones <= RowAt(i).ones <= old(RowAt(i)).ones + old(other.RowAt(i)).ones
      ensures forall t :: j * sh.Bits() <= t < (j + 1) * sh.Bits() && t in old(other.RowAt(i)).ones ==> t in RowAt(i).ones
      ensures RowAt(i).cells ==
              old(RowAt(i)).cells[j := MergeCell(old(RowAt(i)).cells[j], old(other.RowAt(i)).cells[j])]
      ensures forall m :: 0 <= m < sh.depth && m != i ==> RowAt(m) == old(RowAt(m))
    {
      RegionInRange(sh, j);
      assert (j + 1) * sh.Bits() == j * sh.Bits() + sh.Bits();
      Mergebmp(counts[i], other.counts[i], j * sh.Bits(), sh.Bits());
      MergedOnes(old(counts[i][..]), old(other.counts[i][..]), counts[i][..], j * sh.Bits(), sh.Bits());
      if level[i, j] <= other.level[i, j] {
        skey[i, j] := other.skey[i, j];
        level[i, j] := other.level[i, j];
      }
      forall m | 0 <= m < sh.depth && m != i
        ensures RowAt(m) == old(RowAt(m))
      {
        assert counts[m] != counts[i];
        assert RowAt(m).cells == old(RowAt(m)).cells;
      }
    }

    /** The inner loop of Merge: all buckets of row i. */
    method MergeRowFrom(other: DetectorSS, i: nat)
      requires Layout() && other.Layout() && other.sh == sh && i < sh.depth
      requires other == this || other.Repr() !! Repr()
      requires CleanRow(sh, other.RowAt(i))
      modifies counts[i], level, skey
      ensures RowAt(i) == MergeRow(sh, old(RowAt(i)), old(other.RowAt(i)))
      ensures forall m :: 0 <= m < sh.depth && m != i ==> RowAt(m) == old(RowAt(m))
    {
      ghost var mine, theirs := RowAt(i), other.RowAt(i);
      for j := 0 to sh.width
        invariant mine.ones <= RowAt(i).ones <= mine.ones + theirs.ones
        invariant forall t :: t < j * sh.Bits() && t in theirs.ones ==> t in RowAt(i).ones
        invariant forall n :: 0 <= n < sh.width ==>
                    RowAt(i).cells[n] == if n < j then MergeCell(mine.cells[n], theirs.cells[n]) else mine.cells[n]
        invariant other.RowAt(i) == if other == this then RowAt(i) else theirs
        invariant forall m :: 0 <= m < sh.depth && m != i ==> RowAt(m) == old(RowAt(m))
      {
        MergeBucket(other, i, j);
      }
      assert RowAt(i).ones == mine.ones + theirs.ones;
      assert RowAt(i).cells == MergeRow(sh, mine, theirs).cells;
    }

    /** Merge; the argument may be the receiver itself. */
    method Merge(other: DetectorSS)
      requires Valid() && other.Valid() && other.sh == sh
      requires other == this || other.Repr() !! Repr()
      modifies Repr()
      ensures Valid() && View() == SpreadSketchSpec.Merge(sh, old(View()), old(other.View()))
    {
      for i := 0 to sh.depth
        invariant forall m :: 0 <= m < i ==> RowAt(m) == MergeRow(sh, old(RowAt(m)), old(other.RowAt(m)))
        invariant forall m :: i <= m < sh.depth ==> RowAt(m) == old(RowAt(m))
        invariant forall m :: i <= m < sh.depth ==> other.RowAt(m) == old(other.RowAt(m))
      {
        assert counts[i] in Repr();
        MergeRowFrom(other, i);
      }
    }

    /** Bit t is set in the key's bucket of each of the first n rows. */
    ghost predicate InRows(key: Key, t: nat, n: nat)
      requires Layout() && n <= sh.depth
      reads this, Repr()
    {
      forall m :: 0 <= m < n ==> sh.Col(m, key) * sh.Bits() + t in RowAt(m).ones
    }

    /** The loop body of PointQueryMerge: row 0 is copied, later rows are ANDed in. */
    method AddRow(mcount: array<bv8>, i: nat, key: Key)
      requires Layout() && i < sh.depth && mcount !in Repr() && 8 * mcount.Length >= sh.Bits()
      modifies mcount
      ensures forall t: nat :: t < sh.Bits() ==>
                (BitAt(mcount[..], t) <==>
                 if i == 0 then BitAt(old(mcount[..]), t) || sh.Col(i, key) * sh.Bits() + t in RowAt(i).ones
                 else BitAt(old(mcount[..]), t) && sh.Col(i, key) * sh.Bits() + t in RowAt(i).ones)
    {
      assert counts[i] in Repr();
      ColInRange(sh, i, key);
      var bucket := sh.rowHash(i, key) % TWO32 * sh.width / TWO32;
      RegionInRange(sh, bucket);
      if i == 0 {
        Copybmp(mcount, counts[i], bucket * sh.Bits(), sh.Bits());
      } else {
        Intersec(mcount, counts[i], bucket * sh.Bits(), sh.Bits());
      }
    }

    /** PointQueryMerge up to its estimate: the AND of the key's bitmaps, in its first offsets[c] bits. */
    method PointQueryMerge(key: Key) returns (mcount: array<bv8>)
      requires Layout()
      ensures fresh(mcount) && 8 * mcount.Length >= sh.Bits()
      ensures forall t: nat :: t < sh.Bits() ==> (BitAt(mcount[..], t) <==> InAllRows(sh, View(), key, t))
    {
      mcount := new bv8[(sh.Bits() + 7) / 8](_ => 0);
      forall t: nat | t < sh.Bits()
        ensures !BitAt(mcount[..], t)
      {
        assert mcount[..][t / 8] == 0;
        ZeroByte(t % 8);
      }
      for i := 0 to sh.depth
        invariant forall t: nat :: t < sh.Bits() ==> (BitAt(mcount[..], t) <==> i > 0 && InRows(key, t, i))
      {
        AddRow(mcount, i, key);
      }
      forall t: nat | t < sh.Bits()
        ensures InAllRows(sh, View(), key, t) <==> sh.depth > 0 && InRows(key, t, sh.depth)
      {
      }
    }
  }

  /** The filter build: the same detector behind a small table of frequent edges. */
  class GuardedDetector {
    const ss: DetectorSS
    const len: nat
    const slot: Edge -> nat
    const key: array<nat>
    const indicator: array<int>

    ghost predicate Valid()
      reads this, ss, ss.Repr(), key, indicator
    {
      && ss.Valid() && key.Length == indicator.Length == len && (forall e :: slot(e) < len)
      && key !in ss.Repr() && indicator !in ss.Repr() && key as object != indicator as object
    }

    ghost function View(): Guarded
      requires Valid()
      reads this, ss, ss.Repr(), key, indicator
    {
      Guarded(Filter(key[..], indicator[..]), ss.View())
    }

    constructor (sh: Shape, len: nat, slot: Edge -> nat)
      requires sh.Ok() && forall e :: slot(e) < len
      ensures ss.sh == sh && this.len == len && this.slot == slot && Valid()
      ensures View() == GuardedOf(sh, len, slot, [])
    {
      ss := new DetectorSS(sh);
      this.len, this.slot := len, slot;
      key := new nat[len](_ => 0);
      indicator := new int[len](_ => 0);
      new;
      assert key[..] == EmptyFilter(len).keys && indicator[..] == EmptyFilter(len).indicator;
    }

    /** The filter's part of Update: is the edge held, and if not, does it take the slot over? */
    method CheckHeld(e: Edge) returns (held: bool)
      requires Valid()
      modifies key, indicator
      ensures held == Held(Filter(old(key[..]), old(indicator[..])), slot(e), e)
      ensures Filter(key[..], indicator[..]) == FilterStep(Filter(old(key[..]), old(indicator[..])), slot(e), e)
      ensures ss.Valid() && ss.View() == old(ss.View())
    {
      var edge := e.0 * TWO32 + e.1;
      var index := slot(e);
      if key[index] == edge {
        indicator[index] := indicator[index] + 1;
        return true;
      }
      indicator[index] := indicator[index] - 1;
      if indicator[index] < 0 {
        key[index] := edge;
        indicator[index] := 1;
      }
      held := false;
    }

    /** Update in the build with the filter. */
    method Update(e: Edge)
      requires Valid()
      modifies ss.Repr(), key, indicator
      ensures Valid() && View() == GuardedApply(ss.sh, slot, old(View()), e)
    {
      var held := CheckHeld(e);
      if held {
        return;
      }
      ss.Update(e);
    }
  }

  lemma ZeroByte(p: nat)
    requires p < 8
    ensures !Bit(0, p)
  {
  }
}
