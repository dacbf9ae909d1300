/** Integer division facts shared by the modules that lay tables out flat or wrap indices. */
module Arith {
  function Pow2(n: nat): (r: nat)
    ensures r > 0
  {
    if n == 0 then 1 else 2 * Pow2(n - 1)
  }

  lemma Distribute(a: int, b: int, m: int)
    ensures (a - b) * m == a * m - b * m
  {
  }

  lemma AtLeastOnce(d: int, m: nat)
    requires d >= 1
    ensures d * m >= m
    ensures (-d) * m == -(d * m)
  {
  }

  lemma ProductNonNegative(a: nat, b: nat)
    ensures a * b >= 0
  {
  }

  /** Quotient and remainder are unique. */
  lemma DivModUnique(m: nat, n: int, q: int, r: nat)
    requires r < m && n == q * m + r
    ensures n % m == r && n / m == q
  {
    var d := q - n / m;
    assert d * m == n % m - r by {
      assert n == m * (n / m) + n % m;
      Distribute(q, n / m, m);
    }
    if d > 0 {
      AtLeastOnce(d, m);
    } else if d < 0 {
      AtLeastOnce(-d, m);
    }
  }

  /** A row and a column inside a flat table. */
  lemma FlatIndex(rows: nat, width: nat, i: nat, c: nat)
    requires i < rows && c < width
    ensures 0 <= i * width + c < rows * width
    ensures (i * width + c) / width == i && (i * width + c) % width == c
  {
    AtLeastOnce(rows - i, width);
    Distribute(rows, i, width);
    DivModUnique(width, i * width + c, i, c);
  }

  /** Every flat position has its row and column. */
  lemma FlatSplit(rows: nat, width: nat, x: nat)
    requires x < rows * width
    ensures width > 0 && 0 <= x / width < rows && x == (x / width) * width + x % width
  {
    assert x == width * (x / width) + x % width;
  }
}
