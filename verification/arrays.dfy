/** Two-dimensional arrays in standard (row-major) layout, the shape the
    synthesiser uses for seed images, patterns and the output grid.

    An array is a flat sequence of `rows * cols` elements; the element at
    coordinate `(row, col)` is stored at flat position `row * cols + col`,
    and iterating the flat sequence visits coordinates in row-major order. */
module Arrays {

  /** A coordinate `(row, col)`. */
  type Coord = (nat, nat)

  datatype Array2<T> = Array2(rows: nat, cols: nat, data: seq<T>) {

    /** The flat storage holds exactly one element per coordinate. */
    predicate Valid() {
      |data| == rows * cols
    }

    predicate InBounds(c: Coord) {
      c.0 < rows && c.1 < cols
    }

    /** Flat position of an in-bounds coordinate. */
    function Index(c: Coord): (k: nat)
      requires Valid() && InBounds(c)
      ensures k < |data|
      ensures CoordOf(k) == c
    {
      FlatIndexBounds(rows, cols, c.0, c.1);
      c.0 * cols + c.1
    }

    /** Coordinate of a flat position: the inverse of `Index`. */
    function CoordOf(k: nat): (c: Coord)
      requires Valid() && k < |data|
      ensures InBounds(c)
      ensures c.0 * cols + c.1 == k
    {
      CoordBounds(rows, cols, k);
      (k / cols, k % cols)
    }

    function Get(c: Coord): T
      requires Valid() && InBounds(c)
    {
      data[Index(c)]
    }
  }

  /** An in-bounds coordinate has an in-range flat position, and division by
      the row width recovers the coordinate. */
  lemma FlatIndexBounds(rows: nat, cols: nat, r: nat, c: nat)
    requires r < rows && c < cols
    ensures r * cols + c < rows * cols
    ensures (r * cols + c) / cols == r
    ensures (r * cols + c) % cols == c
  {
    assert r * cols + c < (r + 1) * cols;
    assert (r + 1) * cols <= rows * cols by {
      MulMonotone(r + 1, rows, cols);
    }
    DivModUnique(r * cols + c, cols, r, c);
  }

  /** A flat position below `rows * cols` splits into an in-bounds coordinate. */
  lemma CoordBounds(rows: nat, cols: nat, k: nat)
    requires k < rows * cols
    ensures cols > 0
    ensures k / cols < rows && k % cols < cols
    ensures (k / cols) * cols + k % cols == k
  {
  }

  /** The last element of a non-empty array sits at its bottom-right corner. */
  lemma LastCoord<T>(a: Array2<T>)
    requires a.Valid() && |a.data| > 0
    ensures a.rows > 0 && a.cols > 0
    ensures a.CoordOf(|a.data| - 1) == (a.rows - 1, a.cols - 1)
  {
    CoordBounds(a.rows, a.cols, 0);
    assert a.rows * a.cols == (a.rows - 1) * a.cols + a.cols;
    DivModUnique(|a.data| - 1, a.cols, a.rows - 1, a.cols - 1);
  }

  lemma MulMonotone(a: nat, b: nat, m: nat)
    requires a <= b
    ensures a * m <= b * m
  {
  }

  lemma DivModUnique(k: nat, m: nat, q: nat, r: nat)
    requires r < m && k == q * m + r
    ensures k / m == q && k % m == r
  {
    var d := q - k / m;
    assert d * m == k % m - r;
  }

  /** Builds a `rows` by `cols` array whose element at `(i, j)` is `f(i, j)`. */
  function Init<T>(rows: nat, cols: nat, f: Coord --> T): (a: Array2<T>)
    requires forall c: Coord :: c.0 < rows && c.1 < cols ==> f.requires(c)
    ensures a.Valid() && a.rows == rows && a.cols == cols
    ensures forall c: Coord :: a.InBounds(c) ==> a.Get(c) == f(c)
  {
    var data := seq(rows * cols, k requires 0 <= k < rows * cols =>
      CoordBounds(rows, cols, k); f((k / cols, k % cols)));
    var a := Array2(rows, cols, data);
    assert forall c: Coord :: a.InBounds(c) ==> a.Get(c) == f(c) by {
      forall c: Coord | a.InBounds(c)
        ensures a.Get(c) == f(c)
      {
        FlatIndexBounds(rows, cols, c.0, c.1);
      }
    }
    a
  }
}
