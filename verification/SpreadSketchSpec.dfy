/**
 SpreadSketch on values.  A row is the set of positions of its bits that are set
 and, per bucket, the highest level seen with the source that reached it first.
 The hash functions are arbitrary.
 */
module SpreadSketchSpec {
  import opened Arith

  const TWO32: nat := 0x1_0000_0000
  type Key = x: nat | x < TWO32
  type Edge = (Key, Key)
  type Stream = seq<Edge>

  datatype Cell = Cell(level: nat, key: Key)
  datatype Row = Row(ones: set<nat>, cells: seq<Cell>)
  type Sketch = seq<Row>

  /**
   Outer depth and width; b bits in each of the first c - 1 components and
   lastb bits in the last; the edge hash and the row hashes before scaling.
   */
  datatype Shape = Shape(depth: nat, width: nat, b: nat, c: nat, lastb: nat,
                         edgeHash: Edge -> nat, rowHash: (nat, Key) -> nat) {
    ghost predicate Ok() {
      width > 0 && b > 0 && c > 0 && lastb >= 2 * b
    }

    /** Where component i begins, for i < c; offsets[c] is `Bits()`. */
    function Offset(i: nat): nat {
      i * b
    }

    /** Bits per bucket. */
    function Bits(): nat
      requires c > 0
    {
      Offset(c - 1) + lastb
    }

    /** Bytes per row. */
    function RowBytes(): nat
      requires c > 0
    {
      (Bits() + 7) / 8 * width
    }

    function Col(i: nat, k: Key): nat {
      rowHash(i, k) % TWO32 * width / TWO32
    }

    function Level(e: Edge): nat {
      TrailingOnes(edgeHash(e))
    }

    function Pos(e: Edge): nat
      requires c > 0
    {
      var low := edgeHash(e) % TWO32;
      if Level(e) < c - 1 then low * b / TWO32 + Offset(Level(e))
      else low * lastb / TWO32 + Offset(c - 1)
    }
  }

  /** The edge as the 64-bit word that is hashed and kept in the filter. */
  function Code(e: Edge): nat {
    e.0 * TWO32 + e.1
  }

  lemma CodeInjective(e: Edge, f: Edge)
    requires Code(e) == Code(f)
    ensures e == f
  {
    DivModUnique(TWO32, Code(e), e.0, e.1);
    DivModUnique(TWO32, Code(f), f.0, f.1);
  }

  // ---- loghash ----

  function TrailingOnes(p: nat): nat {
    if p % 2 == 1 then 1 + TrailingOnes(p / 2) else 0
  }

  /** Below its result every bit of the word is one, and at its result the bit is zero. */
  lemma {:induction false} RightmostZero(p: nat)
    ensures p % Pow2(TrailingOnes(p) + 1) == Pow2(TrailingOnes(p)) - 1
    decreases p
  {
    if p % 2 == 1 {
      var r := TrailingOnes(p / 2);
      RightmostZero(p / 2);
      OddStep(p / 2, Pow2(r + 1), Pow2(r) - 1);
    }
  }

  /** One more low bit that is set: the modulus doubles and so does the remainder, plus one. */
  lemma OddStep(h: nat, m: nat, r: nat)
    requires m > 0 && h % m == r
    ensures (2 * h + 1) % (2 * m) == 2 * r + 1
  {
    var q := h / m;
    assert h == m * q + r;
    assert 2 * h + 1 == q * (2 * m) + (2 * r + 1);
    DivModUnique(2 * m, 2 * h + 1, q, 2 * r + 1);
  }

  // ---- positions stay in range ----

  lemma ScaledBelow(x: nat, n: nat)
    requires x < TWO32 && n > 0
    ensures x * n / TWO32 < n
  {
    assert x * n < TWO32 * n by {
      Distribute(TWO32, x, n);
      AtLeastOnce(TWO32 - x, n);
    }
  }

  lemma ColInRange(sh: Shape, i: nat, k: Key)
    requires sh.Ok()
    ensures sh.Col(i, k) < sh.width
  {
    ScaledBelow(sh.rowHash(i, k) % TWO32, sh.width);
  }

  lemma PosInRange(sh: Shape, e: Edge)
    requires sh.Ok()
    ensures sh.Pos(e) < sh.Bits()
  {
    var low := sh.edgeHash(e) % TWO32;
    ScaledBelow(low, sh.b);
    ScaledBelow(low, sh.lastb);
    if sh.Level(e) < sh.c - 1 {
      ComponentFits(sh.b, sh.c, sh.Level(e), low * sh.b / TWO32);
    }
  }

  lemma ComponentFits(b: nat, c: nat, l: nat, off: nat)
    requires l < c - 1 && off < b
    ensures off + l * b < (c - 1) * b
  {
    AtLeastOnce(c - 1 - l, b);
    Distribute(c - 1, l, b);
  }

  /** off is the place of a 32-bit word when n places divide its range evenly. */
  ghost predicate AtPlace(word: nat, n: nat, off: nat) {
    off * TWO32 <= word * n < (off + 1) * TWO32
  }

  lemma ScaledIsPlace(word: nat, n: nat)
    requires word < TWO32 && n > 0
    ensures AtPlace(word, n, word * n / TWO32) && word * n / TWO32 < n
  {
    ScaledBelow(word, n);
    ProductNonNegative(word, n);
    PlaceOf(word * n);
  }

  lemma PlaceOf(x: nat)
    ensures x / TWO32 * TWO32 <= x < (x / TWO32 + 1) * TWO32
  {
  }

  lemma PlaceUnique(word: nat, n: nat, a: nat, b: nat)
    requires AtPlace(word, n, a) && AtPlace(word, n, b)
    ensures a == b
  {
  }

  /** A source goes to the bucket that its hash picks when the buckets divide the hash's range evenly. */
  lemma ColIsPlace(sh: Shape, i: nat, k: Key)
    requires sh.Ok()
    ensures AtPlace(sh.rowHash(i, k) % TWO32, sh.width, sh.Col(i, k)) && sh.Col(i, k) < sh.width
  {
    ScaledIsPlace(sh.rowHash(i, k) % TWO32, sh.width);
  }

  /** The component of an edge's level; the last one takes all higher levels. */
  function Component(sh: Shape, e: Edge): nat
    requires sh.c > 0
  {
    if sh.Level(e) < sh.c - 1 then sh.Level(e) else sh.c - 1
  }

  function ComponentBits(sh: Shape, l: nat): nat
    requires sh.c > 0
  {
    if l < sh.c - 1 then sh.b else sh.lastb
  }

  /** The bit of an edge lies in the component of its level, at the place that its hash picks there. */
  lemma PosIsPlace(sh: Shape, e: Edge) returns (off: nat)
    requires sh.Ok()
    ensures
      var l := Component(sh, e);
      && sh.Pos(e) == l * sh.b + off && off < ComponentBits(sh, l)
      && AtPlace(sh.edgeHash(e) % TWO32, ComponentBits(sh, l), off)
  {
    var l := Component(sh, e);
    off := sh.edgeHash(e) % TWO32 * ComponentBits(sh, l) / TWO32;
    ScaledIsPlace(sh.edgeHash(e) % TWO32, ComponentBits(sh, l));
  }

  /** Component and place are determined by the position. */
  lemma PlacesApart(sh: Shape, l: nat, off: nat, m: nat, at: nat)
    requires sh.Ok() && l < sh.c && m < sh.c && off < ComponentBits(sh, l) && at < ComponentBits(sh, m)
    requires l * sh.b + off == m * sh.b + at
    ensures l == m && off == at
  {
    if l < m {
      ComponentFits(sh.b, m + 1, l, off);
    } else if m < l {
      ComponentFits(sh.b, l + 1, m, at);
    }
  }

  /** Every bucket's region lies inside the row's bytes. */
  lemma RegionInRange(sh: Shape, j: nat)
    requires sh.Ok() && j < sh.width
    ensures 0 <= j * sh.Bits() && j * sh.Bits() + sh.Bits() <= sh.width * sh.Bits() <= 8 * sh.RowBytes()
  {
    var l, w := sh.Bits(), sh.width;
    AtLeastOnce(w - j, l);
    Distribute(w, j, l);
    ProductNonNegative(j, l);
    BytesHold(l, w, (l + 7) / 8);
  }

  lemma BytesHold(l: nat, w: nat, bytes: nat)
    requires 8 * bytes >= l
    ensures w * l <= 8 * (bytes * w)
  {
    var spare := 8 * bytes - l;
    ProductNonNegative(spare, w);
    Distribute(8 * bytes, l, w);
  }

  // ---- one edge ----

  function Bump(cell: Cell, level: nat, src: Key): Cell {
    if cell.level < level then Cell(level, src) else cell
  }

  /** The position of edge e's bit in row i. */
  function BitOf(sh: Shape, i: nat, e: Edge): nat
    requires sh.c > 0
  {
    sh.Col(i, e.0) * sh.Bits() + sh.Pos(e)
  }

  function ApplyRow(sh: Shape, row: Row, i: nat, e: Edge): (r: Row)
    requires sh.Ok() && |row.cells| == sh.width
    ensures |r.cells| == sh.width
  {
    ColInRange(sh, i, e.0);
    var j := sh.Col(i, e.0);
    Row(row.ones + {BitOf(sh, i, e)}, row.cells[j := Bump(row.cells[j], sh.Level(e), e.0)])
  }

  function EmptyRow(sh: Shape): Row {
    Row({}, seq(sh.width, _ => Cell(0, 0)))
  }

  /** Row i of a fresh sketch fed a whole stream. */
  function RowOf(sh: Shape, s: Stream, i: nat): (r: Row)
    requires sh.Ok()
    ensures |r.cells| == sh.width
  {
    if s == [] then EmptyRow(sh) else ApplyRow(sh, RowOf(sh, s[..|s| - 1], i), i, s[|s| - 1])
  }

  function SketchOf(sh: Shape, s: Stream): (r: Sketch)
    requires sh.Ok()
    ensures |r| == sh.depth
  {
    seq(sh.depth, i requires 0 <= i < sh.depth => RowOf(sh, s, i))
  }

  lemma RowSnoc(sh: Shape, s: Stream, i: nat, e: Edge)
    requires sh.Ok()
    ensures RowOf(sh, s + [e], i) == ApplyRow(sh, RowOf(sh, s, i), i, e)
  {
    assert (s + [e])[..|s|] == s;
  }

  ghost predicate Shaped(sh: Shape, sk: Sketch) {
    |sk| == sh.depth && forall i :: 0 <= i < |sk| ==> |sk[i].cells| == sh.width
  }

  function Apply(sh: Shape, sk: Sketch, e: Edge): (r: Sketch)
    requires sh.Ok() && Shaped(sh, sk)
    ensures Shaped(sh, r)
  {
    seq(|sk|, i requires 0 <= i < |sk| => ApplyRow(sh, sk[i], i, e))
  }

  lemma SketchSnoc(sh: Shape, s: Stream, e: Edge)
    requires sh.Ok()
    ensures SketchOf(sh, s + [e]) == Apply(sh, SketchOf(sh, s), e)
  {
    forall i | 0 <= i < sh.depth
      ensures SketchOf(sh, s + [e])[i] == Apply(sh, SketchOf(sh, s), e)[i]
    {
      RowSnoc(sh, s, i, e);
    }
  }

  /** No bit is set past the last bucket. */
  ghost predicate CleanRow(sh: Shape, row: Row)
    requires sh.c > 0
  {
    forall t :: t in row.ones ==> t < sh.width * sh.Bits()
  }

  lemma ApplyClean(sh: Shape, row: Row, i: nat, e: Edge)
    requires sh.Ok() && |row.cells| == sh.width && CleanRow(sh, row)
    ensures CleanRow(sh, ApplyRow(sh, row, i, e))
  {
    ColInRange(sh, i, e.0);
    PosInRange(sh, e);
    RegionInRange(sh, sh.Col(i, e.0));
  }

  // ---- what a row remembers ----

  /** A bit is set exactly when some edge of the stream maps to it. */
  lemma {:induction false} BitsRemember(sh: Shape, s: Stream, i: nat, t: nat)
    requires sh.Ok()
    ensures t in RowOf(sh, s, i).ones <==> exists n :: 0 <= n < |s| && BitOf(sh, i, s[n]) == t
    decreases |s|
  {
    if s != [] {
      var s0 := s[..|s| - 1];
      BitsRemember(sh, s0, i, t);
      if n :| 0 <= n < |s0| && BitOf(sh, i, s0[n]) == t {
        assert BitOf(sh, i, s[n]) == t;
      }
      if n :| 0 <= n < |s| && BitOf(sh, i, s[n]) == t {
        assert n < |s0| ==> BitOf(sh, i, s0[n]) == t;
      }
    }
  }

  /** Edge e reached bucket j of row i, with its bit at place off of component l. */
  ghost predicate Marks(sh: Shape, e: Edge, i: nat, j: nat, l: nat, off: nat)
    requires sh.c > 0
  {
    sh.Col(i, e.0) == j && Component(sh, e) == l && AtPlace(sh.edgeHash(e) % TWO32, ComponentBits(sh, l), off)
  }

  lemma BitMarks(sh: Shape, e: Edge, i: nat, j: nat, l: nat, off: nat)
    requires sh.Ok() && j < sh.width && l < sh.c && off < ComponentBits(sh, l)
    ensures BitOf(sh, i, e) == j * sh.Bits() + (l * sh.b + off) <==> Marks(sh, e, i, j, l, off)
  {
    var at := PosIsPlace(sh, e);
    PosInRange(sh, e);
    if Marks(sh, e, i, j, l, off) {
      PlaceUnique(sh.edgeHash(e) % TWO32, ComponentBits(sh, l), off, at);
    }
    if BitOf(sh, i, e) == j * sh.Bits() + (l * sh.b + off) {
      PlaceInBucket(sh, l, off);
      DivModUnique(sh.Bits(), BitOf(sh, i, e), sh.Col(i, e.0), sh.Pos(e));
      DivModUnique(sh.Bits(), BitOf(sh, i, e), j, l * sh.b + off);
      PlacesApart(sh, l, off, Component(sh, e), at);
    }
  }

  lemma PlaceInBucket(sh: Shape, l: nat, off: nat)
    requires sh.Ok() && l < sh.c && off < ComponentBits(sh, l)
    ensures 0 <= l * sh.b + off < sh.Bits()
  {
    ProductNonNegative(l, sh.b);
    if l < sh.c - 1 {
      ComponentFits(sh.b, sh.c, l, off);
    }
  }

  /**
   A bit at a place of a component of a bucket is set exactly when an edge of
   that component's level reached the bucket at that place.
   */
  lemma ComponentRemembers(sh: Shape, s: Stream, i: nat, j: nat, l: nat, off: nat)
    requires sh.Ok() && j < sh.width && l < sh.c && off < ComponentBits(sh, l)
    ensures j * sh.Bits() + (l * sh.b + off) in RowOf(sh, s, i).ones
            <==> exists n :: 0 <= n < |s| && Marks(sh, s[n], i, j, l, off)
  {
    var t := j * sh.Bits() + (l * sh.b + off);
    ProductNonNegative(j, sh.Bits());
    ProductNonNegative(l, sh.b);
    BitsRemember(sh, s, i, t);
    forall n | 0 <= n < |s|
      ensures BitOf(sh, i, s[n]) == t <==> Marks(sh, s[n], i, j, l, off)
    {
      BitMarks(sh, s[n], i, j, l, off);
    }
  }

  /** No edge in bucket j of row i has a higher level, and a positive level came first from the stored source. */
  ghost predicate LevelIsMax(sh: Shape, s: Stream, i: nat, j: nat, cell: Cell) {
    && (forall n :: 0 <= n < |s| && sh.Col(i, s[n].0) == j ==> sh.Level(s[n]) <= cell.level)
    && (if cell.level == 0 then cell.key == 0
        else exists n :: 0 <= n < |s| && sh.Col(i, s[n].0) == j && sh.Level(s[n]) == cell.level
                         && s[n].0 == cell.key
                         && forall m :: 0 <= m < n && sh.Col(i, s[m].0) == j ==> sh.Level(s[m]) < cell.level)
  }

  lemma {:induction false} CellsRemember(sh: Shape, s: Stream, i: nat, j: nat)
    requires sh.Ok() && j < sh.width
    ensures LevelIsMax(sh, s, i, j, RowOf(sh, s, i).cells[j])
    decreases |s|
  {
    if s != [] {
      var s0, e := s[..|s| - 1], s[|s| - 1];
      CellsRemember(sh, s0, i, j);
      ColInRange(sh, i, e.0);
      var was, now := RowOf(sh, s0, i).cells[j], RowOf(sh, s, i).cells[j];
      if now.level > 0 {
        if now != was {
          var n := |s0|;
          assert s[n] == e;
          assert forall m :: 0 <= m < n ==> s[m] == s0[m];
        } else {
          var n :| 0 <= n < |s0| && sh.Col(i, s0[n].0) == j && sh.Level(s0[n]) == was.level
                   && s0[n].0 == was.key
                   && forall m :: 0 <= m < n && sh.Col(i, s0[m].0) == j ==> sh.Level(s0[m]) < was.level;
          assert s[n] == s0[n];
          assert forall m :: 0 <= m < n ==> s[m] == s0[m];
        }
      }
    }
  }

  // ---- merging ----

  function MergeCell(a: Cell, b: Cell): Cell {
    if a.level <= b.level then b else a
  }

  function MergeRow(sh: Shape, a: Row, b: Row): (r: Row)
    requires |a.cells| == |b.cells| == sh.width
    ensures |r.cells| == sh.width
  {
    Row(a.ones + b.ones, seq(sh.width, j requires 0 <= j < sh.width => MergeCell(a.cells[j], b.cells[j])))
  }

  function Merge(sh: Shape, a: Sketch, b: Sketch): (r: Sketch)
    requires Shaped(sh, a) && Shaped(sh, b)
    ensures Shaped(sh, r)
  {
    seq(sh.depth, i requires 0 <= i < sh.depth => MergeRow(sh, a[i], b[i]))
  }

  /** Feeding an edge before or after merging makes no difference. */
  lemma MergeApply(sh: Shape, a: Row, b: Row, i: nat, e: Edge)
    requires sh.Ok() && |a.cells| == |b.cells| == sh.width
    ensures MergeRow(sh, ApplyRow(sh, a, i, e), b) == ApplyRow(sh, MergeRow(sh, a, b), i, e)
  {
    var l, r := MergeRow(sh, ApplyRow(sh, a, i, e), b), ApplyRow(sh, MergeRow(sh, a, b), i, e);
    ColInRange(sh, i, e.0);
    forall j | 0 <= j < sh.width
      ensures l.cells[j] == r.cells[j]
    {
    }
    assert l.ones == r.ones;
  }

  lemma {:induction false} MergeRowsIsConcat(sh: Shape, sa: Stream, sb: Stream, i: nat)
    requires sh.Ok()
    ensures MergeRow(sh, RowOf(sh, sa, i), RowOf(sh, sb, i)) == RowOf(sh, sb + sa, i)
    decreases |sa|
  {
    if sa == [] {
      assert sb + sa == sb;
      var l, r := MergeRow(sh, EmptyRow(sh), RowOf(sh, sb, i)), RowOf(sh, sb, i);
      assert l.ones == r.ones;
      assert l.cells == r.cells;
    } else {
      var s0, e := sa[..|sa| - 1], sa[|sa| - 1];
      MergeRowsIsConcat(sh, s0, sb, i);
      MergeApply(sh, RowOf(sh, s0, i), RowOf(sh, sb, i), i, e);
      assert sb + sa == (sb + s0) + [e];
      RowSnoc(sh, sb + s0, i, e);
    }
  }

  /** a.Merge(b) leaves exactly the sketch of b's stream followed by a's stream. */
  lemma MergeIsConcat(sh: Shape, sa: Stream, sb: Stream)
    requires sh.Ok()
    ensures Merge(sh, SketchOf(sh, sa), SketchOf(sh, sb)) == SketchOf(sh, sb + sa)
  {
    forall i | 0 <= i < sh.depth
      ensures Merge(sh, SketchOf(sh, sa), SketchOf(sh, sb))[i] == SketchOf(sh, sb + sa)[i]
    {
      MergeRowsIsConcat(sh, sa, sb, i);
    }
  }

  // ---- the point query bitmap ----

  /** Bit t of the AND of the key's bucket bitmaps. */
  ghost predicate InAllRows(sh: Shape, sk: Sketch, k: Key, t: nat)
    requires sh.c > 0 && Shaped(sh, sk)
  {
    sh.depth > 0 && forall i :: 0 <= i < sh.depth ==> sh.Col(i, k) * sh.Bits() + t in sk[i].ones
  }

  /** The ANDed bitmap keeps every bit set by the key's own edges. */
  lemma OwnEdgesSurvive(sh: Shape, s: Stream, n: nat)
    requires sh.Ok() && n < |s| && sh.depth > 0
    ensures InAllRows(sh, SketchOf(sh, s), s[n].0, sh.Pos(s[n])) && sh.Pos(s[n]) < sh.Bits()
  {
    PosInRange(sh, s[n]);
    forall i | 0 <= i < sh.depth
      ensures sh.Col(i, s[n].0) * sh.Bits() + sh.Pos(s[n]) in SketchOf(sh, s)[i].ones
    {
      BitsRemember(sh, s, i, BitOf(sh, i, s[n]));
    }
  }

  /** And any bit it has comes, in each row, from an edge whose source shares that row's bucket with the key. */
  lemma OtherBitsCollide(sh: Shape, s: Stream, k: Key, t: nat, i: nat)
    requires sh.Ok() && InAllRows(sh, SketchOf(sh, s), k, t) && t < sh.Bits() && i < sh.depth
    ensures exists n :: 0 <= n < |s| && sh.Col(i, s[n].0) == sh.Col(i, k) && sh.Pos(s[n]) == t
  {
    var at := sh.Col(i, k) * sh.Bits() + t;
    assert at in SketchOf(sh, s)[i].ones;
    BitsRemember(sh, s, i, at);
    var n :| 0 <= n < |s| && BitOf(sh, i, s[n]) == at;
    PosInRange(sh, s[n]);
    DivModUnique(sh.Bits(), at, sh.Col(i, k), t);
    DivModUnique(sh.Bits(), at, sh.Col(i, s[n].0), sh.Pos(s[n]));
  }

  // ---- the filter in front ----

  datatype Filter = Filter(keys: seq<nat>, indicator: seq<int>)
  datatype Guarded = Guarded(filter: Filter, sketch: Sketch)

  /** slot(e) is the masked edge hash, below the filter's length. */
  ghost predicate FilterOk(len: nat, slot: Edge -> nat, f: Filter) {
    |f.keys| == |f.indicator| == len && forall e :: slot(e) < len
  }

  function EmptyFilter(len: nat): Filter {
    Filter(seq(len, _ => 0), seq(len, _ => 0))
  }

  predicate Held(f: Filter, n: nat, e: Edge)
    requires n < |f.keys|
  {
    f.keys[n] == Code(e)
  }

  function FilterStep(f: Filter, n: nat, e: Edge): (g: Filter)
    requires n < |f.keys| == |f.indicator|
    ensures |g.keys| == |g.indicator| == |f.keys|
  {
    if Held(f, n, e) then f.(indicator := f.indicator[n := f.indicator[n] + 1])
    else if f.indicator[n] - 1 < 0 then Filter(f.keys[n := Code(e)], f.indicator[n := 1])
    else f.(indicator := f.indicator[n := f.indicator[n] - 1])
  }

  /** An edge held by the filter goes no further; any other edge is applied. */
  function GuardedApply(sh: Shape, slot: Edge -> nat, g: Guarded, e: Edge): Guarded
    requires sh.Ok() && Shaped(sh, g.sketch) && slot(e) < |g.filter.keys| == |g.filter.indicator|
  {
    Guarded(FilterStep(g.filter, slot(e), e),
            if Held(g.filter, slot(e), e) then g.sketch else Apply(sh, g.sketch, e))
  }

  ghost function GuardedOf(sh: Shape, len: nat, slot: Edge -> nat, s: Stream): (g: Guarded)
    requires sh.Ok() && forall e :: slot(e) < len
    ensures Shaped(sh, g.sketch) && FilterOk(len, slot, g.filter)
  {
    if s == [] then Guarded(EmptyFilter(len), SketchOf(sh, []))
    else GuardedApply(sh, slot, GuardedOf(sh, len, slot, s[..|s| - 1]), s[|s| - 1])
  }

  /** Applying an edge of the stream once more changes nothing. */
  lemma ReapplyIsNoOp(sh: Shape, s: Stream, n: nat)
    requires sh.Ok() && n < |s|
    ensures Apply(sh, SketchOf(sh, s), s[n]) == SketchOf(sh, s)
  {
    var sk := SketchOf(sh, s);
    forall i | 0 <= i < sh.depth
      ensures Apply(sh, sk, s[n])[i] == sk[i]
    {
      ColInRange(sh, i, s[n].0);
      BitsRemember(sh, s, i, BitOf(sh, i, s[n]));
      CellsRemember(sh, s, i, sh.Col(i, s[n].0));
      assert sk[i].ones + {BitOf(sh, i, s[n])} == sk[i].ones;
    }
  }

  ghost predicate Seen(s: Stream, code: nat) {
    exists n :: 0 <= n < |s| && Code(s[n]) == code
  }

  lemma SeenGrows(s: Stream, e: Edge, code: nat)
    requires Seen(s, code) || code == Code(e)
    ensures Seen(s + [e], code)
  {
    if n :| 0 <= n < |s| && Code(s[n]) == code {
      assert (s + [e])[n] == s[n];
    } else {
      assert (s + [e])[|s|] == e;
    }
  }

  /** Whatever the filter holds, apart from its zeros, is in the stream. */
  lemma {:induction false} FilterHoldsSeen(sh: Shape, len: nat, slot: Edge -> nat, s: Stream, n: nat)
    requires sh.Ok() && (forall e :: slot(e) < len) && n < len
    ensures var key := GuardedOf(sh, len, slot, s).filter.keys[n]; key == 0 || Seen(s, key)
    decreases |s|
  {
    if s != [] {
      var s0, e := s[..|s| - 1], s[|s| - 1];
      FilterHoldsSeen(sh, len, slot, s0, n);
      assert s == s0 + [e];
      var was, now := GuardedOf(sh, len, slot, s0).filter.keys[n], GuardedOf(sh, len, slot, s).filter.keys[n];
      assert now == was || now == Code(e);
      if now != 0 {
        SeenGrows(s0, e, now);
      }
    }
  }

  /**
   The edges that matter to a guarded sketch: all but the zero edges that come
   before the first zero edge to find its slot taken by another edge.
   */
  ghost function Passed(sh: Shape, len: nat, slot: Edge -> nat, s: Stream): Stream
    requires sh.Ok() && forall e :: slot(e) < len
  {
    if s == [] then []
    else
      var s0, e := s[..|s| - 1], s[|s| - 1];
      var passed := Passed(sh, len, slot, s0);
      if Code(e) == 0 && Held(GuardedOf(sh, len, slot, s0).filter, slot(e), e) && !Seen(passed, 0) then passed
      else passed + [e]
  }

  lemma {:induction false} OthersPass(sh: Shape, len: nat, slot: Edge -> nat, s: Stream, code: nat)
    requires sh.Ok() && (forall e :: slot(e) < len) && code != 0 && Seen(s, code)
    ensures Seen(Passed(sh, len, slot, s), code)
    decreases |s|
  {
    var s0, e := s[..|s| - 1], s[|s| - 1];
    if Code(e) == code {
      SeenGrows(Passed(sh, len, slot, s0), e, code);
    } else {
      var n :| 0 <= n < |s| && Code(s[n]) == code;
      assert s0[n] == s[n];
      OthersPass(sh, len, slot, s0, code);
      SeenGrows(Passed(sh, len, slot, s0), e, code);
    }
  }

  lemma ReapplySeen(sh: Shape, s: Stream, e: Edge)
    requires sh.Ok() && Seen(s, Code(e))
    ensures Apply(sh, SketchOf(sh, s), e) == SketchOf(sh, s)
  {
    var n :| 0 <= n < |s| && Code(s[n]) == Code(e);
    CodeInjective(s[n], e);
    ReapplyIsNoOp(sh, s, n);
  }

  /** For every stream at all, what the guarded sketch is. */
  lemma {:induction false} GuardedIs(sh: Shape, len: nat, slot: Edge -> nat, s: Stream)
    requires sh.Ok() && forall e :: slot(e) < len
    ensures GuardedOf(sh, len, slot, s).sketch == SketchOf(sh, Passed(sh, len, slot, s))
    decreases |s|
  {
    if s != [] {
      var s0, e := s[..|s| - 1], s[|s| - 1];
      var passed := Passed(sh, len, slot, s0);
      GuardedIs(sh, len, slot, s0);
      SketchSnoc(sh, passed, e);
      if Held(GuardedOf(sh, len, slot, s0).filter, slot(e), e) {
        FilterHoldsSeen(sh, len, slot, s0, slot(e));
        if Code(e) != 0 {
          OthersPass(sh, len, slot, s0, Code(e));
        }
        if Seen(passed, Code(e)) {
          ReapplySeen(sh, passed, e);
        }
      }
    }
  }

  ghost predicate NoZeroEdge(s: Stream) {
    forall n :: 0 <= n < |s| ==> Code(s[n]) != 0
  }

  lemma {:induction false} AllPass(sh: Shape, len: nat, slot: Edge -> nat, s: Stream)
    requires sh.Ok() && (forall e :: slot(e) < len) && NoZeroEdge(s)
    ensures Passed(sh, len, slot, s) == s
    decreases |s|
  {
    if s != [] {
      AllPass(sh, len, slot, s[..|s| - 1]);
    }
  }

  /** For every stream of non-zero edges, the filter changes nothing about the sketch. */
  lemma FilterIsTransparent(sh: Shape, len: nat, slot: Edge -> nat, s: Stream)
    requires sh.Ok() && (forall e :: slot(e) < len) && NoZeroEdge(s)
    ensures GuardedOf(sh, len, slot, s).sketch == SketchOf(sh, s)
  {
    GuardedIs(sh, len, slot, s);
    AllPass(sh, len, slot, s);
  }

  /** Alone in the stream, an edge gets through exactly when it is not the zero edge, which an empty slot seems to hold. */
  lemma FirstEdgeThrough(sh: Shape, len: nat, slot: Edge -> nat, e: Edge)
    requires sh.Ok() && (forall f :: slot(f) < len) && sh.depth > 0
    ensures GuardedOf(sh, len, slot, [e]).sketch == SketchOf(sh, [e]) <==> Code(e) != 0
  {
    if Code(e) != 0 {
      assert forall n :: 0 <= n < |[e]| ==> [e][n] == e;
      FilterIsTransparent(sh, len, slot, [e]);
    } else {
      ZeroEdgeDropped(sh, len, slot, e);
      BitsRemember(sh, [], 0, BitOf(sh, 0, e));
      BitsRemember(sh, [e], 0, BitOf(sh, 0, e));
      assert [e][0] == e;
      assert BitOf(sh, 0, e) in SketchOf(sh, [e])[0].ones;
      assert BitOf(sh, 0, e) !in SketchOf(sh, [])[0].ones;
    }
  }

  lemma ZeroEdgeDropped(sh: Shape, len: nat, slot: Edge -> nat, e: Edge)
    requires sh.Ok() && (forall f :: slot(f) < len) && Code(e) == 0
    ensures GuardedOf(sh, len, slot, [e]).sketch == SketchOf(sh, [])
  {
    assert [e][..0] == [];
    assert Held(GuardedOf(sh, len, slot, []).filter, slot(e), e);
  }

  ghost predicate Over(s: Stream, edges: iset<Edge>) {
    forall n :: 0 <= n < |s| ==> s[n] in edges
  }

  /** Over any set of edges, the filter is transparent for all streams exactly when the zero edge is not among them. */
  lemma TransparentIff(sh: Shape, len: nat, slot: Edge -> nat, edges: iset<Edge>)
    requires sh.Ok() && (forall e :: slot(e) < len) && sh.depth > 0
    ensures (forall s | Over(s, edges) :: GuardedOf(sh, len, slot, s).sketch == SketchOf(sh, s))
            <==> forall e | e in edges :: Code(e) != 0
  {
    if e :| e in edges && Code(e) == 0 {
      FirstEdgeThrough(sh, len, slot, e);
      assert Over([e], edges);
    } else {
      forall s | Over(s, edges)
        ensures GuardedOf(sh, len, slot, s).sketch == SketchOf(sh, s)
      {
        FilterIsTransparent(sh, len, slot, s);
      }
    }
  }

  // ---- what the filter holds ----

  /** How many edges of the stream go to slot n. */
  function InSlot(slot: Edge -> nat, s: Stream, n: nat): nat {
    if s == [] then 0 else InSlot(slot, s[..|s| - 1], n) + if slot(s[|s| - 1]) == n then 1 else 0
  }

  function Times(s: Stream, e: Edge): nat {
    if s == [] then 0 else Times(s[..|s| - 1], e) + if s[|s| - 1] == e then 1 else 0
  }

  /** The indicator of a slot is a majority vote among the edges that go there. */
  ghost predicate Votes(slot: Edge -> nat, s: Stream, n: nat, key: nat, ind: int) {
    && 0 <= ind <= InSlot(slot, s, n)
    && forall e :: slot(e) == n ==>
         2 * Times(s, e) <= if Code(e) == key then InSlot(slot, s, n) + ind else InSlot(slot, s, n) - ind
  }

  lemma VoteKept(slot: Edge -> nat, s: Stream, f: Filter, n: nat, e: Edge)
    requires n < |f.keys| == |f.indicator| && slot(e) < |f.keys| && Votes(slot, s, n, f.keys[n], f.indicator[n])
    ensures
      var g := FilterStep(f, slot(e), e);
      Votes(slot, s + [e], n, g.keys[n], g.indicator[n])
  {
    var s', g := s + [e], FilterStep(f, slot(e), e);
    assert s'[..|s|] == s;
    forall d | slot(d) == n
      ensures 2 * Times(s', d) <=
              if Code(d) == g.keys[n] then InSlot(slot, s', n) + g.indicator[n]
              else InSlot(slot, s', n) - g.indicator[n]
    {
      assert Times(s', d) == Times(s, d) + if d == e then 1 else 0;
      if Code(d) == Code(e) {
        CodeInjective(d, e);
      }
    }
  }

  lemma {:induction false} FilterVotes(sh: Shape, len: nat, slot: Edge -> nat, s: Stream, n: nat)
    requires sh.Ok() && (forall e :: slot(e) < len) && n < len
    ensures var f := GuardedOf(sh, len, slot, s).filter; Votes(slot, s, n, f.keys[n], f.indicator[n])
    decreases |s|
  {
    if s != [] {
      var s0, e := s[..|s| - 1], s[|s| - 1];
      FilterVotes(sh, len, slot, s0, n);
      assert s == s0 + [e];
      VoteKept(slot, s0, GuardedOf(sh, len, slot, s0).filter, n, e);
    }
  }

  /** An edge that is more than half of what goes to its slot is held, so its repetitions stop at the filter. */
  lemma MajorityIsHeld(sh: Shape, len: nat, slot: Edge -> nat, s: Stream, e: Edge)
    requires sh.Ok() && (forall d :: slot(d) < len) && 2 * Times(s, e) > InSlot(slot, s, slot(e))
    ensures Held(GuardedOf(sh, len, slot, s).filter, slot(e), e)
  {
    FilterVotes(sh, len, slot, s, slot(e));
  }
}
