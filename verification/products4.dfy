/**
  Entry-level facts about products whose inner dimension is 4: the 4x4
  system of the solver times its inverse, and times a 4x1 column of
  parameters. Each entry is written out as four products of grid entries.
 */
module Products4 {
  import opened Sums
  import opened HXMatrix

  /**
    Entry (i, j) of the product of two row-major entry lists with four
    columns: row i of a against column j of b.
   */
  function Dot4(a: seq<real>, b: seq<real>, i: nat, j: nat): real
    requires 4 * i + 3 < |a| && |b| == 16 && j < 4
  {
    a[4 * i] * b[j] + a[4 * i + 1] * b[4 + j] + a[4 * i + 2] * b[8 + j] + a[4 * i + 3] * b[12 + j]
  }

  function Delta(i: nat, j: nat): real {
    if i == j then 1.0 else 0.0
  }

  /** An entry of a product whose inner dimension is 4, written out term by term. */
  lemma Inner4Entry(x: Matrix, y: Matrix, i: nat, j: nat)
    requires x.columns == 4 && y.rows == 4 && i < x.rows && j < y.columns
    ensures Get(Multiply(x, y), i, j)
         == Get(x, i, 0) * Get(y, 0, j) + Get(x, i, 1) * Get(y, 1, j) + Get(x, i, 2) * Get(y, 2, j) + Get(x, i, 3) * Get(y, 3, j)
  {
    var f := Term(x, i, y, j);
    assert Get(Multiply(x, y), i, j) == Sum(4, f);
    SumFour(f);
    assert f(0) == Get(x, i, 0) * Get(y, 0, j) && f(1) == Get(x, i, 1) * Get(y, 1, j);
    assert f(2) == Get(x, i, 2) * Get(y, 2, j) && f(3) == Get(x, i, 3) * Get(y, 3, j);
  }

  /** Row i of a matrix with four columns, read through the subscript. */
  lemma RowOf4(x: Matrix, i: nat)
    requires x.columns == 4 && i < x.rows
    ensures 4 * i + 3 < |x.grid|
    ensures Get(x, i, 0) == x.grid[4 * i] && Get(x, i, 1) == x.grid[4 * i + 1]
    ensures Get(x, i, 2) == x.grid[4 * i + 2] && Get(x, i, 3) == x.grid[4 * i + 3]
  {
    OffsetBound(i, 3, x.rows, 4);
  }

  /** Column j of a 4x4 matrix, read through the subscript. */
  lemma ColumnOf4(y: Matrix, j: nat)
    requires y.rows == 4 && y.columns == 4 && j < 4
    ensures |y.grid| == 16
    ensures Get(y, 0, j) == y.grid[j] && Get(y, 1, j) == y.grid[4 + j]
    ensures Get(y, 2, j) == y.grid[8 + j] && Get(y, 3, j) == y.grid[12 + j]
  {
  }

  /**
    One entry of a product by a 4x4 matrix, in terms of the two grids. The
    row count of x is left free on purpose: fixing it lets the solver unfold
    the product's definition far more than this step needs.
   */
  lemma Product4Entry(x: Matrix, y: Matrix, i: nat, j: nat)
    requires x.columns == 4 && y.rows == 4 && y.columns == 4 && |y.grid| == 16 && i < x.rows && j < 4
    ensures Get(Multiply(x, y), i, j)
         == x.grid[4 * i] * y.grid[j] + x.grid[4 * i + 1] * y.grid[4 + j] + x.grid[4 * i + 2] * y.grid[8 + j] + x.grid[4 * i + 3] * y.grid[12 + j]
  {
    RowOf4(x, i);
    ColumnOf4(y, j);
    assert Get(Multiply(x, y), i, j)
        == Get(x, i, 0) * Get(y, 0, j) + Get(x, i, 1) * Get(y, 1, j) + Get(x, i, 2) * Get(y, 2, j) + Get(x, i, 3) * Get(y, 3, j)
    by {
      Inner4Entry(x, y, i, j);
    }
  }

  /** An entry of a 4x4 product whose grids give a Kronecker delta there. */
  lemma DeltaEntry(x: Matrix, y: Matrix, i: nat, j: nat)
    requires x.columns == 4 && y.rows == 4 && y.columns == 4 && |y.grid| == 16 && i < x.rows && j < 4
    requires 4 * i + 3 < |x.grid|
    requires x.grid[4 * i] * y.grid[j] + x.grid[4 * i + 1] * y.grid[4 + j] + x.grid[4 * i + 2] * y.grid[8 + j] + x.grid[4 * i + 3] * y.grid[12 + j] == Delta(i, j)
    ensures Get(Multiply(x, y), i, j) == Delta(i, j)
  {
    Product4Entry(x, y, i, j);
  }

  /** Entry lists whose products are all Kronecker deltas multiply to the identity. */
  lemma ProductIdentity4(a: seq<real>, b: seq<real>)
    requires |a| == 16 && |b| == 16
    requires forall i: nat, j: nat :: i < 4 && j < 4 ==> Dot4(a, b, i, j) == Delta(i, j)
    ensures Multiply(Create(4, 4, a), Create(4, 4, b)) == HXMatrix.Identity(4)
  {
    var x, y := Create(4, 4, a), Create(4, 4, b);
    forall i: nat, j: nat | i < 4 && j < 4
      ensures Get(Multiply(x, y), i, j) == Get(HXMatrix.Identity(4), i, j)
    {
      assert Dot4(a, b, i, j) == Delta(i, j);
      DeltaEntry(x, y, i, j);
    }
    Ext(Multiply(x, y), HXMatrix.Identity(4));
  }

  /** Row i of a matrix with four columns times a 4x1 column. */
  lemma Product41Entry(x: Matrix, c: Matrix, i: nat)
    requires x.columns == 4 && c.rows == 4 && c.columns == 1 && i < x.rows
    ensures 4 * i + 3 < |x.grid|
    ensures Get(Multiply(x, c), i, 0)
         == x.grid[4 * i] * Get(c, 0, 0) + x.grid[4 * i + 1] * Get(c, 1, 0) + x.grid[4 * i + 2] * Get(c, 2, 0) + x.grid[4 * i + 3] * Get(c, 3, 0)
  {
    RowOf4(x, i);
    assert Get(Multiply(x, c), i, 0)
        == Get(x, i, 0) * Get(c, 0, 0) + Get(x, i, 1) * Get(c, 1, 0) + Get(x, i, 2) * Get(c, 2, 0) + Get(x, i, 3) * Get(c, 3, 0)
    by {
      Inner4Entry(x, c, i, 0);
    }
  }
}
