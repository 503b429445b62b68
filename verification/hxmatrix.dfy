/**
  A dense real matrix stored row-major in one flat sequence, with indexed
  access, conformable multiplication and inversion.
  Entry (row, column) lives at offset row * columns + column of the grid.
 */
module HXMatrix {
  import opened Sums

  datatype Grid = Grid(rows: nat, columns: nat, grid: seq<real>)

  /** A matrix whose grid holds exactly rows * columns entries. */
  type Matrix = m: Grid | |m.grid| == m.rows * m.columns witness Grid(0, 0, [])

  // ---------------------------------------------------------------------------
  // Index arithmetic
  // ---------------------------------------------------------------------------

  lemma MulAtLeast(x: int, c: int)
    requires x >= 1 && c >= 0
    ensures x * c >= c
  {
    assert x * c == (x - 1) * c + c;
    assert (x - 1) * c >= 0;
  }

  /** Row-major offsets can be decoded back into (row, column). */
  lemma FlatIndex(row: nat, column: nat, columns: nat)
    requires column < columns
    ensures (row * columns + column) / columns == row
    ensures (row * columns + column) % columns == column
  {
    var k := row * columns + column;
    var q := k / columns;
    var r := k % columns;
    assert k == q * columns + r;
    assert (q - row) * columns == column - r;
    if q > row {
      MulAtLeast(q - row, columns);
    } else if q < row {
      MulAtLeast(row - q, columns);
    }
  }

  /** A valid (row, column) pair addresses an offset below rows * columns. */
  lemma OffsetBound(row: nat, column: nat, rows: nat, columns: nat)
    requires row < rows && column < columns
    ensures row * columns + column < rows * columns
  {
    MulAtLeast(rows - row, columns);
    assert rows * columns == row * columns + (rows - row) * columns;
  }

  /** Distinct valid index pairs address distinct offsets. */
  lemma OffsetInjective(r1: nat, c1: nat, r2: nat, c2: nat, columns: nat)
    requires c1 < columns && c2 < columns
    requires r1 * columns + c1 == r2 * columns + c2
    ensures r1 == r2 && c1 == c2
  {
    FlatIndex(r1, c1, columns);
    FlatIndex(r2, c2, columns);
  }

  // ---------------------------------------------------------------------------
  // Construction and indexed access
  // ---------------------------------------------------------------------------

  /** The bounds test guarding every subscript. */
  predicate IndexIsValidFor(m: Matrix, row: nat, column: nat) {
    row < m.rows && column < m.columns
  }

  function Offset(m: Matrix, row: nat, column: nat): nat {
    row * m.columns + column
  }

  /** Row i of m: the i-th block of `columns` consecutive grid entries. */
  function Row(m: Matrix, i: nat): (r: seq<real>)
    requires i < m.rows
    ensures |r| == m.columns
  {
    MulAtLeast(m.rows - i, m.columns);
    assert (i + 1) * m.columns <= m.rows * m.columns by {
      assert m.rows * m.columns == (i + 1) * m.columns + (m.rows - i - 1) * m.columns;
    }
    m.grid[i * m.columns..(i + 1) * m.columns]
  }

  /** Subscript read of entry (row, column). */
  function Get(m: Matrix, row: nat, column: nat): real
    requires IndexIsValidFor(m, row, column)
  {
    OffsetBound(row, column, m.rows, m.columns);
    m.grid[Offset(m, row, column)]
  }

  /** The subscript reads the column-th entry of the row-th row. */
  lemma GetInRow(m: Matrix, row: nat, column: nat)
    requires IndexIsValidFor(m, row, column)
    ensures Get(m, row, column) == Row(m, row)[column]
  {
  }

  /** The offset a valid subscript uses always lies inside the grid. */
  lemma OffsetInGrid(m: Matrix, row: nat, column: nat)
    requires IndexIsValidFor(m, row, column)
    ensures Offset(m, row, column) < m.rows * m.columns
  {
    OffsetBound(row, column, m.rows, m.columns);
  }

  /** Designated initializer: stores its arguments unchanged. */
  function Create(rows: nat, columns: nat, values: seq<real>): (m: Matrix)
    requires |values| == rows * columns
    ensures m.rows == rows && m.columns == columns && m.grid == values
  {
    Grid(rows, columns, values)
  }

  /** Reading back entry (i, j) of a created matrix yields values[i * columns + j]. */
  lemma CreateGet(rows: nat, columns: nat, values: seq<real>, i: nat, j: nat)
    requires |values| == rows * columns
    requires i < rows && j < columns
    ensures i * columns + j < |values|
    ensures Get(Create(rows, columns, values), i, j) == values[i * columns + j]
  {
    OffsetBound(i, j, rows, columns);
  }

  /** Convenience initializer: a rows x columns matrix of zeros. */
  function Zeros(rows: nat, columns: nat): (m: Matrix)
    ensures m.rows == rows && m.columns == columns
    ensures forall i: nat, j: nat {:trigger Get(m, i, j)} :: i < rows && j < columns ==> Get(m, i, j) == 0.0
  {
    var m := Create(rows, columns, seq(rows * columns, _ => 0.0));
    assert forall i: nat, j: nat :: i < rows && j < columns ==> Get(m, i, j) == 0.0 by {
      forall i: nat, j: nat | i < rows && j < columns
        ensures Get(m, i, j) == 0.0
      {
        OffsetBound(i, j, rows, columns);
      }
    }
    m
  }

  /** Subscript write: returns the matrix with exactly entry (row, column) replaced. */
  function Set(m: Matrix, row: nat, column: nat, value: real): (r: Matrix)
    requires IndexIsValidFor(m, row, column)
    ensures r.rows == m.rows && r.columns == m.columns
    ensures Get(r, row, column) == value
    ensures forall i: nat, j: nat {:trigger Get(r, i, j)} :: IndexIsValidFor(m, i, j) && (i != row || j != column) ==>
              Get(r, i, j) == Get(m, i, j)
  {
    OffsetBound(row, column, m.rows, m.columns);
    var r: Matrix := m.(grid := m.grid[Offset(m, row, column) := value]);
    assert forall i: nat, j: nat :: IndexIsValidFor(m, i, j) && (i != row || j != column) ==>
             Get(r, i, j) == Get(m, i, j) by {
      forall i: nat, j: nat | IndexIsValidFor(m, i, j) && (i != row || j != column)
        ensures Get(r, i, j) == Get(m, i, j)
      {
        OffsetBound(i, j, m.rows, m.columns);
        if Offset(m, i, j) == Offset(m, row, column) {
          OffsetInjective(i, j, row, column, m.columns);
        }
      }
    }
    r
  }

  /** Writing then reading the same entry, and writing the value already there. */
  lemma SetSameValue(m: Matrix, row: nat, column: nat)
    requires IndexIsValidFor(m, row, column)
    ensures Set(m, row, column, Get(m, row, column)) == m
  {
    var r := Set(m, row, column, Get(m, row, column));
    forall i: nat, j: nat | IndexIsValidFor(m, i, j)
      ensures Get(r, i, j) == Get(m, i, j)
    {
    }
    Ext(r, m);
  }

  /** Rows i, i+1, ..., rows-1 of f laid out one after another. */
  function Flatten(rows: nat, columns: nat, f: (nat, nat) -> real, i: nat): seq<real>
    requires i <= rows
    decreases rows - i
  {
    if i == rows then [] else seq(columns, (j: nat) => f(i, j)) + Flatten(rows, columns, f, i + 1)
  }

  lemma {:induction false} FlattenLength(rows: nat, columns: nat, f: (nat, nat) -> real, i: nat)
    requires i <= rows
    ensures |Flatten(rows, columns, f, i)| == (rows - i) * columns
    decreases rows - i
  {
    if i < rows {
      FlattenLength(rows, columns, f, i + 1);
      assert (rows - i) * columns == columns + (rows - (i + 1)) * columns;
    }
  }

  lemma {:induction false} FlattenGet(rows: nat, columns: nat, f: (nat, nat) -> real, i: nat, row: nat, column: nat)
    requires i <= row < rows && column < columns
    ensures (row - i) * columns + column < |Flatten(rows, columns, f, i)|
    ensures Flatten(rows, columns, f, i)[(row - i) * columns + column] == f(row, column)
    decreases rows - i
  {
    FlattenLength(rows, columns, f, i);
    OffsetBound(row - i, column, rows - i, columns);
    if i < row {
      FlattenGet(rows, columns, f, i + 1, row, column);
      assert (row - i) * columns == columns + (row - (i + 1)) * columns;
    }
  }

  /** The matrix with rows x columns entries f(i, j). */
  function Build(rows: nat, columns: nat, f: (nat, nat) -> real): (m: Matrix)
    ensures m.rows == rows && m.columns == columns
    ensures forall i: nat, j: nat {:trigger Get(m, i, j)} :: i < rows && j < columns ==> Get(m, i, j) == f(i, j)
  {
    FlattenLength(rows, columns, f, 0);
    var m: Matrix := Grid(rows, columns, Flatten(rows, columns, f, 0));
    assert forall i: nat, j: nat :: i < rows && j < columns ==> Get(m, i, j) == f(i, j) by {
      forall i: nat, j: nat | i < rows && j < columns
        ensures Get(m, i, j) == f(i, j)
      {
        FlattenGet(rows, columns, f, 0, i, j);
      }
    }
    m
  }

  /** Matrices of the same shape that agree entrywise are equal. */
  lemma Ext(a: Matrix, b: Matrix)
    requires a.rows == b.rows && a.columns == b.columns
    requires forall i: nat, j: nat :: IndexIsValidFor(a, i, j) ==> Get(a, i, j) == Get(b, i, j)
    ensures a == b
  {
    forall k | 0 <= k < |a.grid|
      ensures a.grid[k] == b.grid[k]
    {
      var i := k / a.columns;
      var j := k % a.columns;
      assert k == i * a.columns + j;
      assert Get(a, i, j) == Get(b, i, j);
    }
  }

  // ---------------------------------------------------------------------------
  // Products
  // ---------------------------------------------------------------------------

  /** The terms of the dot product of row i of a with column j of b. */
  function Term(a: Matrix, i: nat, b: Matrix, j: nat): nat -> real
    requires a.columns == b.rows && i < a.rows && j < b.columns
  {
    (t: nat) => if t < a.columns then Get(a, i, t) * Get(b, t, j) else 0.0
  }

  /** Row i of a times column j of b, accumulated from zero. */
  function RowTimesColumn(a: Matrix, i: nat, b: Matrix, j: nat): real
    requires a.columns == b.rows && i < a.rows && j < b.columns
  {
    Sum(a.columns, Term(a, i, b, j))
  }

  /**
    General matrix multiply as BLAS defines it for row-major, untransposed
    operands: alpha * a * b + beta * c.
   */
  function Gemm(alpha: real, a: Matrix, b: Matrix, beta: real, c: Matrix): (r: Matrix)
    requires a.columns == b.rows
    requires c.rows == a.rows && c.columns == b.columns
    ensures r.rows == a.rows && r.columns == b.columns
    ensures forall i: nat, j: nat :: i < r.rows && j < r.columns ==>
              Get(r, i, j) == alpha * RowTimesColumn(a, i, b, j) + beta * Get(c, i, j)
  {
    Build(a.rows, b.columns, (i: nat, j: nat) =>
      if i < a.rows && j < b.columns then alpha * RowTimesColumn(a, i, b, j) + beta * Get(c, i, j) else 0.0)
  }

  /**
    Conformable product. The BLAS call runs with alpha = beta = 1 over a
    zero-filled result, so each entry is exactly the dot product.
   */
  function Multiply(a: Matrix, b: Matrix): (r: Matrix)
    requires a.columns == b.rows
    ensures r.rows == a.rows && r.columns == b.columns
    ensures forall i: nat, j: nat :: i < r.rows && j < r.columns ==>
              Get(r, i, j) == RowTimesColumn(a, i, b, j)
  {
    Gemm(1.0, a, b, 1.0, Zeros(a.rows, b.columns))
  }

  /** The product operator is multiplication itself. */
  function Dot(left: Matrix, right: Matrix): (r: Matrix)
    requires left.columns == right.rows
    ensures r == Multiply(left, right)
  {
    Multiply(left, right)
  }

  function Identity(n: nat): (m: Matrix)
    ensures m.rows == n && m.columns == n
    ensures forall i: nat, j: nat {:trigger Get(m, i, j)} :: i < n && j < n ==> Get(m, i, j) == (if i == j then 1.0 else 0.0)
  {
    Build(n, n, (i: nat, j: nat) => if i == j then 1.0 else 0.0)
  }

  lemma MultiplyIdentityLeft(a: Matrix)
    ensures Multiply(Identity(a.rows), a) == a
  {
    var r := Multiply(Identity(a.rows), a);
    forall i: nat, j: nat | IndexIsValidFor(r, i, j)
      ensures Get(r, i, j) == Get(a, i, j)
    {
      SumSingle(a.rows, Term(Identity(a.rows), i, a, j), i);
    }
    Ext(r, a);
  }

  lemma MultiplyIdentityRight(a: Matrix)
    ensures Multiply(a, Identity(a.columns)) == a
  {
    var r := Multiply(a, Identity(a.columns));
    forall i: nat, j: nat | IndexIsValidFor(r, i, j)
      ensures Get(r, i, j) == Get(a, i, j)
    {
      SumSingle(a.columns, Term(a, i, Identity(a.columns), j), j);
    }
    Ext(r, a);
  }

  /** The terms a[i,u] b[u,t] c[t,j] of a triple product, as a function of (u, t). */
  function TripleTerm(a: Matrix, b: Matrix, c: Matrix, i: nat, j: nat): (nat, nat) -> real
    requires a.columns == b.rows && b.columns == c.rows
    requires i < a.rows && j < c.columns
  {
    (u: nat, t: nat) =>
      if u < a.columns && t < b.columns then Get(a, i, u) * Get(b, u, t) * Get(c, t, j) else 0.0
  }

  /** Each triple term with t fixed is c[t,j] times a term of row i of a times column t of b. */
  lemma LeftGroupingTerms(a: Matrix, b: Matrix, c: Matrix, i: nat, j: nat, t: nat)
    requires a.columns == b.rows && b.columns == c.rows
    requires i < a.rows && j < c.columns && t < b.columns
    ensures forall u: nat :: u < a.columns ==> TripleTerm(a, b, c, i, j)(u, t) == Get(c, t, j) * Term(a, i, b, t)(u)
  {
    forall u: nat | u < a.columns
      ensures TripleTerm(a, b, c, i, j)(u, t) == Get(c, t, j) * Term(a, i, b, t)(u)
    {
      var x, y, z := Get(a, i, u), Get(b, u, t), Get(c, t, j);
      assert x * y * z == z * (x * y);
    }
  }

  /** With t fixed, the triple terms sum to c[t,j] times entry (i, t) of a b. */
  lemma LeftGroupingSum(a: Matrix, b: Matrix, c: Matrix, i: nat, j: nat, t: nat)
    requires a.columns == b.rows && b.columns == c.rows
    requires i < a.rows && j < c.columns && t < b.columns
    ensures Sum(a.columns, (u: nat) => TripleTerm(a, b, c, i, j)(u, t)) == Get(c, t, j) * RowTimesColumn(a, i, b, t)
  {
    LeftGroupingTerms(a, b, c, i, j, t);
    SumScale(a.columns, Term(a, i, b, t), Get(c, t, j), (u: nat) => TripleTerm(a, b, c, i, j)(u, t));
  }

  /** Term t of row i of (a b) times column j of c. */
  lemma LeftProductTerm(a: Matrix, b: Matrix, c: Matrix, i: nat, j: nat, t: nat)
    requires a.columns == b.rows && b.columns == c.rows
    requires i < a.rows && j < c.columns && t < b.columns
    ensures Term(Multiply(a, b), i, c, j)(t) == Get(c, t, j) * RowTimesColumn(a, i, b, t)
  {
    var p := Get(Multiply(a, b), i, t);
    assert p == RowTimesColumn(a, i, b, t);
    assert p * Get(c, t, j) == Get(c, t, j) * p;
  }

  /** Grouping (a b) c: term t of the outer sum is the inner sum over u. */
  lemma LeftGroupingTerm(a: Matrix, b: Matrix, c: Matrix, i: nat, j: nat, t: nat)
    requires a.columns == b.rows && b.columns == c.rows
    requires i < a.rows && j < c.columns && t < b.columns
    ensures Term(Multiply(a, b), i, c, j)(t) == Sum(a.columns, (u: nat) => TripleTerm(a, b, c, i, j)(u, t))
  {
    LeftGroupingSum(a, b, c, i, j, t);
    LeftProductTerm(a, b, c, i, j, t);
  }

  /** Each triple term with u fixed is a[i,u] times a term of row u of b times column j of c. */
  lemma RightGroupingTerms(a: Matrix, b: Matrix, c: Matrix, i: nat, j: nat, u: nat)
    requires a.columns == b.rows && b.columns == c.rows
    requires i < a.rows && j < c.columns && u < a.columns
    ensures forall t: nat :: t < b.columns ==> TripleTerm(a, b, c, i, j)(u, t) == Get(a, i, u) * Term(b, u, c, j)(t)
  {
    forall t: nat | t < b.columns
      ensures TripleTerm(a, b, c, i, j)(u, t) == Get(a, i, u) * Term(b, u, c, j)(t)
    {
      var x, y, z := Get(a, i, u), Get(b, u, t), Get(c, t, j);
      assert x * y * z == x * (y * z);
    }
  }

  /** With u fixed, the triple terms sum to a[i,u] times entry (u, j) of b c. */
  lemma RightGroupingSum(a: Matrix, b: Matrix, c: Matrix, i: nat, j: nat, u: nat)
    requires a.columns == b.rows && b.columns == c.rows
    requires i < a.rows && j < c.columns && u < a.columns
    ensures Sum(b.columns, (t: nat) => TripleTerm(a, b, c, i, j)(u, t)) == Get(a, i, u) * RowTimesColumn(b, u, c, j)
  {
    RightGroupingTerms(a, b, c, i, j, u);
    SumScale(b.columns, Term(b, u, c, j), Get(a, i, u), (t: nat) => TripleTerm(a, b, c, i, j)(u, t));
  }

  /** Term u of row i of a times column j of (b c). */
  lemma RightProductTerm(a: Matrix, b: Matrix, c: Matrix, i: nat, j: nat, u: nat)
    requires a.columns == b.rows && b.columns == c.rows
    requires i < a.rows && j < c.columns && u < a.columns
    ensures Term(a, i, Multiply(b, c), j)(u) == Get(a, i, u) * RowTimesColumn(b, u, c, j)
  {
    assert Get(Multiply(b, c), u, j) == RowTimesColumn(b, u, c, j);
  }

  /** Grouping a (b c): term u of the outer sum is the inner sum over t. */
  lemma RightGroupingTerm(a: Matrix, b: Matrix, c: Matrix, i: nat, j: nat, u: nat)
    requires a.columns == b.rows && b.columns == c.rows
    requires i < a.rows && j < c.columns && u < a.columns
    ensures Term(a, i, Multiply(b, c), j)(u) == Sum(b.columns, (t: nat) => TripleTerm(a, b, c, i, j)(u, t))
  {
    RightGroupingSum(a, b, c, i, j, u);
    RightProductTerm(a, b, c, i, j, u);
  }

  /** One entry of the associativity law: both groupings sum a[i,u] b[u,t] c[t,j]. */
  lemma MultiplyAssociativeEntry(a: Matrix, b: Matrix, c: Matrix, i: nat, j: nat)
    requires a.columns == b.rows && b.columns == c.rows
    requires i < a.rows && j < c.columns
    ensures RowTimesColumn(Multiply(a, b), i, c, j) == RowTimesColumn(a, i, Multiply(b, c), j)
  {
    var f := TripleTerm(a, b, c, i, j);
    forall t: nat | t < b.columns
      ensures Term(Multiply(a, b), i, c, j)(t) == Sum(a.columns, (u: nat) => f(u, t))
    {
      LeftGroupingTerm(a, b, c, i, j, t);
    }
    forall u: nat | u < a.columns
      ensures Term(a, i, Multiply(b, c), j)(u) == Sum(b.columns, (t: nat) => f(u, t))
    {
      RightGroupingTerm(a, b, c, i, j, u);
    }
    SumSwap(a.columns, b.columns, f, Term(a, i, Multiply(b, c), j), Term(Multiply(a, b), i, c, j));
  }

  /** Matrix multiplication is associative. */
  lemma MultiplyAssociative(a: Matrix, b: Matrix, c: Matrix)
    requires a.columns == b.rows && b.columns == c.rows
    ensures Multiply(Multiply(a, b), c) == Multiply(a, Multiply(b, c))
  {
    var left := Multiply(Multiply(a, b), c);
    var right := Multiply(a, Multiply(b, c));
    forall i: nat, j: nat | IndexIsValidFor(left, i, j)
      ensures Get(left, i, j) == Get(right, i, j)
    {
      MultiplyAssociativeEntry(a, b, c, i, j);
    }
    Ext(left, right);
  }

  // ---------------------------------------------------------------------------
  // Inversion
  // ---------------------------------------------------------------------------

  predicate Square(m: Matrix) {
    m.rows == m.columns
  }

  /** x is a two-sided inverse of m. */
  ghost predicate IsInverse(m: Matrix, x: Matrix) {
    Square(m) && x.rows == m.rows && x.columns == m.columns &&
    Multiply(m, x) == Identity(m.rows) && Multiply(x, m) == Identity(m.rows)
  }

  /** m is nonsingular: the case in which LAPACK's factorisation reports success. */
  ghost predicate Invertible(m: Matrix) {
    exists x: Matrix :: IsInverse(m, x)
  }

  /** A matrix has at most one inverse: x = x (m y) = (x m) y = y. */
  lemma InverseUnique(m: Matrix, x: Matrix, y: Matrix)
    requires IsInverse(m, x) && IsInverse(m, y)
    ensures x == y
  {
    calc {
      x;
      { MultiplyIdentityRight(x); }
      Multiply(x, Identity(m.rows));
      Multiply(x, Multiply(m, y));
      { MultiplyAssociative(x, m, y); }
      Multiply(Multiply(x, m), y);
      Multiply(Identity(m.rows), y);
      { MultiplyIdentityLeft(y); }
      y;
    }
  }

  /**
    The inverse of a nonsingular square matrix, with the same dimensions.
    LAPACK computes it from an LU factorisation; here it is specified by
    m * r == I == r * m, which determines it uniquely; as a specification
    it is ghost.
   */
  ghost function Inverse(m: Matrix): (r: Matrix)
    requires Square(m) && Invertible(m)
    ensures r.rows == m.rows && r.columns == m.columns
    ensures Multiply(m, r) == Identity(m.rows) && Multiply(r, m) == Identity(m.rows)
  {
    var x :| IsInverse(m, x);
    x
  }

  /** Any inverse a matrix has is the one Inverse returns. */
  lemma InverseOf(m: Matrix, x: Matrix)
    requires IsInverse(m, x)
    ensures Invertible(m) && Inverse(m) == x
  {
    InverseUnique(m, Inverse(m), x);
  }

  /** Inverting twice gives back the matrix. */
  lemma InverseInvolutive(m: Matrix)
    requires Square(m) && Invertible(m)
    ensures Invertible(Inverse(m)) && Inverse(Inverse(m)) == m
  {
    InverseOf(Inverse(m), m);
  }

  /** The identity is its own inverse. */
  lemma InverseIdentity(n: nat)
    ensures Invertible(Identity(n)) && Inverse(Identity(n)) == Identity(n)
  {
    MultiplyIdentityLeft(Identity(n));
    InverseOf(Identity(n), Identity(n));
  }
}
