/** The three initial "on" patterns of the solver variants, as integer
    membership tests on global (row, column) coordinates. The variants do not
    share a seed: the sequential solver sets an inclusive square, the MPI
    solvers a square with strict bounds, the thread workers a disc. */
module Seeds {

  /** `InitializeGrid`: with begin = dim>>2 and end = dim - begin, the cells
      with begin <= i < end and begin <= j < end are set. */
  predicate InInclusiveSquare(dim: nat, i: int, j: int) {
    dim / 4 <= i < dim - dim / 4 && dim / 4 <= j < dim - dim / 4
  }

  /** `DiffusionMPI` and `DiffusionGrid`: both bounds are strict. */
  predicate InOpenSquare(dim: nat, i: int, j: int) {
    dim / 4 < i < dim - dim / 4 && dim / 4 < j < dim - dim / 4
  }

  /** `boundSquared = (cols * cols) >> 4`, the product taken in 32-bit unsigned
      arithmetic. */
  function DiscBound(cols: nat): nat {
    ((cols * cols) % 0x1_0000_0000) / 16
  }

  /** The disc of the thread workers, restated in integers by doubling the
      coordinates: with h = cols/2 the float test compares
      (r - h + 0.5)^2 + (j - h + 0.5)^2 with the bound. */
  predicate InDisc(cols: nat, r: int, j: int) {
    var h := cols / 2;
    var x := 2 * r - 2 * h + 1;
    var y := 2 * j - 2 * h + 1;
    x * x + y * y < 4 * DiscBound(cols)
  }

  /** The integer disc test is exactly the source's test over the reals, with
      halfDim = (cols>>1) - 0.5, dx = row - halfDim and dy = j - halfDim. */
  lemma InDiscIsRealTest(cols: nat, r: int, j: int)
    ensures var halfDim := (cols / 2) as real - 0.5;
      var dx := r as real - halfDim;
      var dy := j as real - halfDim;
      InDisc(cols, r, j) <==> dx * dx + dy * dy < DiscBound(cols) as real
  {
    DoubledTest(r, j, cols / 2, DiscBound(cols));
  }

  /** The doubling argument for any centre h and bound. */
  lemma DoubledTest(r: int, j: int, h: int, bound: int)
    ensures var x := 2 * r - 2 * h + 1;
      var y := 2 * j - 2 * h + 1;
      var dx := r as real - (h as real - 0.5);
      var dy := j as real - (h as real - 0.5);
      x * x + y * y < 4 * bound <==> dx * dx + dy * dy < bound as real
  {
    var dx := r as real - (h as real - 0.5);
    var dy := j as real - (h as real - 0.5);
    var x := 2 * r - 2 * h + 1;
    var y := 2 * j - 2 * h + 1;
    DoubledSquares(x, y, dx, dy, bound);
  }

  /** Two integers that are twice two reals compare their squares with 4*b as
      the reals compare theirs with b. */
  lemma DoubledSquares(x: int, y: int, dx: real, dy: real, bound: int)
    requires x as real == 2.0 * dx && y as real == 2.0 * dy
    ensures x * x + y * y < 4 * bound <==> dx * dx + dy * dy < bound as real
  {
    SquareOfDouble(x, dx);
    SquareOfDouble(y, dy);
    var xx, yy := x * x, y * y;
    assert (xx + yy) as real == xx as real + yy as real;
    ScaledBelow(xx + yy, bound, dx * dx + dy * dy);
  }

  /** An integer that is twice a real squares to four times that real's square. */
  lemma SquareOfDouble(x: int, a: real)
    requires x as real == 2.0 * a
    ensures (x * x) as real == 4.0 * (a * a)
  {
    var xr := x as real;
    assert (x * x) as real == xr * xr;
    assert xr * xr == (2.0 * a) * (2.0 * a);
  }

  /** Comparing an integer with 4*b is comparing its quarter with b. */
  lemma ScaledBelow(s: int, b: int, quarter: real)
    requires s as real == 4.0 * quarter
    ensures s < 4 * b <==> quarter < b as real
  {
  }

  /** For dim >= 4 the inclusive square leaves the outer ring of the grid off. */
  lemma InclusiveSquareOffBorder(dim: nat, i: int, j: int)
    requires dim >= 4
    requires i == 0 || i == dim - 1 || j == 0 || j == dim - 1
    ensures !InInclusiveSquare(dim, i, j)
  {
  }

  /** Below dim 4 the inclusive square covers the whole grid, border included. */
  lemma InclusiveSquareCoversSmallGrid(dim: nat, i: int, j: int)
    requires dim < 4 && 0 <= i < dim && 0 <= j < dim
    ensures InInclusiveSquare(dim, i, j)
  {
  }

  /** The strict square lies inside the inclusive one, and on an 8 x 8 grid the
      two differ on the ring at index 2: the variants start from different fields. */
  lemma SquaresDiffer(dim: nat, i: int, j: int)
    ensures InOpenSquare(dim, i, j) ==> InInclusiveSquare(dim, i, j)
    ensures InInclusiveSquare(8, 2, 2) && !InOpenSquare(8, 2, 2)
  {
  }

  /** The disc differs from both squares: on an 8 x 8 grid the corner (2, 2)
      of the inclusive square is off the disc, and (3, 3) is on it. */
  lemma DiscDiffersFromSquares()
    ensures !InDisc(8, 2, 2) && InInclusiveSquare(8, 2, 2)
    ensures InDisc(8, 3, 3) && InOpenSquare(8, 3, 3)
  {
    assert DiscBound(8) == 4;
  }
}
