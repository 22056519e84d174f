/** `DiffusionGrid`: the ranks form an nVertical x nHorizontal process grid
    and each owns a block of the dim x dim field, kept with one ghost row and
    one ghost column on every side. A step writes the block's edge columns
    into send buffers, its top and bottom rows into the buffer, receives
    ghost columns and rows from the four neighbours and sweeps the bulk. The
    received rows and columns are inputs of the model: the transport is not
    modelled. */
module GridMpi {
  import opened Arith
  import opened Grids
  import opened Seeds
  import opened Schedule
  import opened Partition

  // ---------------------------------------------------------------------
  // The process grid

  /** The shape of the process grid: rows of ranks, and ranks per row. */
  datatype Shape = Shape(nVertical: nat, nHorizontal: nat)

  /** The integer square root searched upwards from s. */
  function SqrtFrom(p: nat, s: nat): (r: nat)
    requires s * s <= p
    ensures s <= r && r * r <= p < (r + 1) * (r + 1)
    decreases p - s
  {
    if (s + 1) * (s + 1) > p then s
    else
      MulAtLeast(s + 1, s + 1);
      SqrtFrom(p, s + 1)
  }

  /** `std::sqrt(size)` truncated to int, for an exact square root. */
  function FloorSqrt(p: nat): (s: nat)
    ensures s * s <= p < (s + 1) * (s + 1)
  {
    SqrtFrom(p, 0)
  }

  /** Lines 18-19: nHorizontal is the square root of the number of ranks,
      rounded down, and nVertical the number of whole rows of nHorizontal
      ranks that fit. */
  function ProcessShape(size: nat): (s: Shape)
    requires size >= 1
    ensures s.nHorizontal >= 1 && s.nHorizontal * s.nHorizontal <= size < (s.nHorizontal + 1) * (s.nHorizontal + 1)
    ensures s.nVertical * s.nHorizontal <= size < (s.nVertical + 1) * s.nHorizontal
    ensures s.nVertical >= s.nHorizontal
  {
    var nHorizontal := FloorSqrt(size);
    assert nHorizontal >= 1;
    var nVertical := size / nHorizontal;
    var rem := size % nHorizontal;
    assert size == nVertical * nHorizontal + rem;
    MulAddRight(nVertical, 1, nHorizontal);
    DivUnique(nHorizontal * nHorizontal, nHorizontal, nHorizontal, 0);
    DivMonotone(nHorizontal * nHorizontal, size, nHorizontal);
    Shape(nVertical, nHorizontal)
  }

  /** The process grid takes every rank exactly when nHorizontal divides the
      number of ranks; otherwise `size - nVertical*nHorizontal` ranks, fewer
      than nHorizontal, have no place in it. */
  lemma ShapeUsesAllRanksIff(size: nat)
    requires size >= 1
    ensures var s := ProcessShape(size);
      (s.nVertical * s.nHorizontal == size <==> size % s.nHorizontal == 0) &&
      size - s.nVertical * s.nHorizontal < s.nHorizontal
  {
    var s := ProcessShape(size);
    var nV, nH := s.nVertical, s.nHorizontal;
    MulAddRight(nV, 1, nH);
    if nV * nH == size {
      DivUnique(size, nH, nV, 0);
    } else {
      DivUnique(size, nH, nV, size - nV * nH);
    }
  }

  /** Ten ranks form a 3 x 3 process grid: one rank is left out. */
  lemma TenRanksLeaveOneOut()
    ensures ProcessShape(10) == Shape(3, 3)
    ensures ProcessShape(10).nVertical * ProcessShape(10).nHorizontal == 9
  {
  }

  /** Where a rank sits in the process grid: `MPI_Cart_create` without
      reordering numbers the ranks row by row. */
  datatype Coordinates = Coordinates(row: nat, col: nat)

  /** The coordinates of `rank` in a grid of nHorizontal ranks per row. */
  function CoordinatesOf(s: Shape, rank: nat): (at: Coordinates)
    requires s.nHorizontal >= 1 && rank < s.nVertical * s.nHorizontal
    ensures at.row < s.nVertical && at.col < s.nHorizontal
    ensures rank == at.row * s.nHorizontal + at.col
  {
    var row, col := rank / s.nHorizontal, rank % s.nHorizontal;
    assert row < s.nVertical by {
      if row >= s.nVertical {
        MulAddRight(s.nVertical, row - s.nVertical, s.nHorizontal);
        MulNonneg(row - s.nVertical, s.nHorizontal);
      }
    }
    Coordinates(row, col)
  }

  /** Which of the four neighbours exist: a non-periodic process grid has
      none beyond its edges (`MPI_PROC_NULL`). */
  datatype Neighbours = Neighbours(up: bool, down: bool, left: bool, right: bool)

  /** The neighbours of the rank at `at`. */
  function NeighboursOf(s: Shape, at: Coordinates): Neighbours {
    Neighbours(at.row > 0, at.row + 1 < s.nVertical, at.col > 0, at.col + 1 < s.nHorizontal)
  }

  // ---------------------------------------------------------------------
  // Blocks

  /** The owned block: global rows rowBegin .. rowBegin+nRows-1 and columns
      colBegin .. colBegin+nCols-1. */
  datatype Block = Block(rowBegin: nat, nRows: nat, colBegin: nat, nCols: nat)

  /** Lines 23-28: the floor partition on each axis. */
  function BlockAt(dim: nat, s: Shape, at: Coordinates): (blk: Block)
    requires at.row < s.nVertical && at.col < s.nHorizontal
    ensures blk.rowBegin == BandBegin(dim, at.row, s.nVertical)
    ensures blk.rowBegin + blk.nRows == BandBegin(dim, at.row + 1, s.nVertical)
    ensures blk.colBegin == BandBegin(dim, at.col, s.nHorizontal)
    ensures blk.colBegin + blk.nCols == BandBegin(dim, at.col + 1, s.nHorizontal)
  {
    BeginMonotone(dim, at.row, at.row + 1, s.nVertical);
    BeginMonotone(dim, at.col, at.col + 1, s.nHorizontal);
    var rowBegin := BandBegin(dim, at.row, s.nVertical);
    var colBegin := BandBegin(dim, at.col, s.nHorizontal);
    Block(rowBegin, BandBegin(dim, at.row + 1, s.nVertical) - rowBegin,
          colBegin, BandBegin(dim, at.col + 1, s.nHorizontal) - colBegin)
  }

  /** The block lies in the field and owns at least one row and one column. */
  predicate Fits(dim: nat, blk: Block) {
    blk.rowBegin + blk.nRows <= dim && blk.colBegin + blk.nCols <= dim && blk.nRows >= 1 && blk.nCols >= 1
  }

  /** With at least as many rows and columns as the process grid has rows,
      every block fits and owns cells, and a neighbour exists exactly on the
      sides where the block does not touch the edge of the field. */
  lemma BlockFitsAndNeighbours(dim: nat, s: Shape, at: Coordinates)
    requires at.row < s.nVertical && at.col < s.nHorizontal && s.nVertical >= s.nHorizontal
    requires dim >= s.nVertical
    ensures var blk := BlockAt(dim, s, at);
      var nb := NeighboursOf(s, at);
      Fits(dim, blk) &&
      (nb.up <==> blk.rowBegin > 0) && (nb.down <==> blk.rowBegin + blk.nRows < dim) &&
      (nb.left <==> blk.colBegin > 0) && (nb.right <==> blk.colBegin + blk.nCols < dim)
  {
    var nV, nH := s.nVertical, s.nHorizontal;
    BeginEnds(dim, nV);
    BeginEnds(dim, nH);
    DivUnique(nV, nV, 1, 0);
    DivMonotone(nV, dim, nV);
    DivMonotone(nH, dim, nH);
    DivUnique(nH, nH, 1, 0);
    BandSize(dim, at.row, nV);
    BandSize(dim, at.col, nH);
    BeginMonotone(dim, at.row + 1, nV, nV);
    BeginMonotone(dim, at.col + 1, nH, nH);
    if at.row > 0 {
      BeginMonotone(dim, 1, at.row, nV);
      BandSize(dim, 0, nV);
    }
    if at.col > 0 {
      BeginMonotone(dim, 1, at.col, nH);
      BandSize(dim, 0, nH);
    }
    if at.row + 1 < nV {
      BeginMonotone(dim, at.row + 1, nV - 1, nV);
      BandSize(dim, nV - 1, nV);
    }
    if at.col + 1 < nH {
      BeginMonotone(dim, at.col + 1, nH - 1, nH);
      BandSize(dim, nH - 1, nH);
    }
  }

  // ---------------------------------------------------------------------
  // Seed

  /** The field framed by one ring of ghost cells: framed cell (p, c) is
      global cell (p-1, c-1), and the open square is set. */
  function FramedSeed(dim: nat): (g: Grid)
    ensures IsRect(g, dim + 2, dim + 2)
  {
    seq(dim + 2, p => seq(dim + 2, c => Indicator(InOpenSquare(dim, p - 1, c - 1))))
  }

  /** The ring of the framed seed is zero. */
  lemma FramedSeedRingZero(dim: nat, p: nat, c: nat)
    requires p < dim + 2 && c < dim + 2 && !Interior(dim + 2, dim + 2, p, c)
    ensures FramedSeed(dim)[p][c] == 0.0
  {
    assert !InOpenSquare(dim, p - 1, c - 1);
  }

  /** The (nRows+2) x (nCols+2) cells of a framed field seen by a block,
      ghost cells included. */
  function Window(g: Grid, blk: Block): (w: Grid)
    requires blk.rowBegin + blk.nRows + 2 <= |g|
    requires forall q :: 0 <= q < |g| ==> blk.colBegin + blk.nCols + 2 <= |g[q]|
    ensures IsRect(w, blk.nRows + 2, blk.nCols + 2)
    ensures forall p, c :: 0 <= p < blk.nRows + 2 && 0 <= c < blk.nCols + 2 ==>
      w[p][c] == g[blk.rowBegin + p][blk.colBegin + c]
  {
    seq(blk.nRows + 2, p requires 0 <= p < blk.nRows + 2 =>
      g[blk.rowBegin + p][blk.colBegin .. blk.colBegin + blk.nCols + 2])
  }

  /** The seed of a block: local cell (p, c) is global cell
      (rowBegin + p - 1, colBegin + c - 1), ghost cells included. */
  function BlockSeed(dim: nat, blk: Block): (g: Grid)
    ensures IsRect(g, blk.nRows + 2, blk.nCols + 2)
  {
    seq(blk.nRows + 2, p => seq(blk.nCols + 2, c =>
      Indicator(InOpenSquare(dim, blk.rowBegin + p - 1, blk.colBegin + c - 1))))
  }

  /** A block's seed is its window of the framed seed: ghost cells start out
      equal to the neighbouring blocks' edge cells. */
  lemma BlockSeedIsWindow(dim: nat, blk: Block)
    requires blk.rowBegin + blk.nRows <= dim && blk.colBegin + blk.nCols <= dim
    ensures BlockSeed(dim, blk) == Window(FramedSeed(dim), blk)
  {
    CellsDetermineGrid(BlockSeed(dim, blk), Window(FramedSeed(dim), blk));
  }

  /** Lines 32-45: local cell (i+1, j+1), for i from -1 to nRows and j from
      -1 to nCols, is set when i lies strictly between the row bounds and j
      strictly between the column bounds, both shifted to the block. */
  method InitializeBlock(dim: nat, blk: Block) returns (grid: Grid)
    ensures grid == BlockSeed(dim, blk)
  {
    var nRows, nCols := blk.nRows, blk.nCols;
    grid := Zeros(nRows + 2, nCols + 2);
    var fillStart := dim / 4;
    var fillEnd := dim - fillStart;
    var minRow := fillStart - blk.rowBegin;
    var maxRow := fillEnd - blk.rowBegin;
    var minCol := fillStart - blk.colBegin;
    var maxCol := fillEnd - blk.colBegin;
    var iMax := nRows + 1;
    var jMax := nCols + 1;
    var i := -1;
    while i < iMax
      invariant -1 <= i <= iMax && IsRect(grid, nRows + 2, nCols + 2)
      invariant forall p, c :: 0 <= p < nRows + 2 && 0 <= c < nCols + 2 ==>
        grid[p][c] == Indicator(p < i + 1 && InOpenSquare(dim, blk.rowBegin + p - 1, blk.colBegin + c - 1))
    {
      var inRow := i > minRow && i < maxRow;
      var j := -1;
      while j < jMax
        invariant -1 <= j <= jMax && IsRect(grid, nRows + 2, nCols + 2)
        invariant forall p, c :: 0 <= p < nRows + 2 && 0 <= c < nCols + 2 ==>
          grid[p][c] == Indicator((p < i + 1 || (p == i + 1 && c < j + 1)) &&
                                  InOpenSquare(dim, blk.rowBegin + p - 1, blk.colBegin + c - 1))
      {
        grid := grid[i + 1 := grid[i + 1][j + 1 := Indicator(inRow && j > minCol && j < maxCol)]];
        j := j + 1;
      }
      i := i + 1;
    }
    CellsDetermineGrid(grid, BlockSeed(dim, blk));
  }

  // ---------------------------------------------------------------------
  // One step

  /** What one step receives from outside the block: the row from the rank
      above (into ghost row 0), the row from the rank below (into ghost row
      nRows+1), and the columns from the ranks to the left and right (into
      the receive buffers). */
  datatype Halo = Halo(up: Row, down: Row, left: Row, right: Row)

  /** Rows are nCols+2 cells long and columns nRows+2 cells long, as the
      buffers they land in. */
  predicate HaloShaped(h: Halo, blk: Block) {
    |h.up| == blk.nCols + 2 && |h.down| == blk.nCols + 2 && |h.left| == blk.nRows + 2 && |h.right| == blk.nRows + 2
  }

  /** A local grid of the block's padded shape (line 29). */
  predicate Padded(g: Grid, blk: Block) {
    IsRect(g, blk.nRows + 2, blk.nCols + 2)
  }

  /** Receive buffers of the block's padded height. */
  predicate ColumnsShaped(fromLeft: Row, fromRight: Row, blk: Block) {
    |fromLeft| == blk.nRows + 2 && |fromRight| == blk.nRows + 2
  }

  /** A receive buffer after the receive: the neighbour's column when there
      is a neighbour, otherwise what it held. */
  function Received(present: bool, incoming: Row, held: Row): Row {
    if present then incoming else held
  }

  /** Cell (p, c) of the buffer after a step as written (lines 85-141), with
      `fromLeft` and `fromRight` the receive buffers after the receive: owned
      cells get the kernel, ghost rows the neighbours' rows, and the ghost
      columns are copied from the receive buffers for rows 2 .. nRows-1 only;
      every other cell keeps the buffer's value. */
  function StepCell(factor: real, g: Grid, b: Grid, blk: Block, nb: Neighbours, h: Halo,
                    fromLeft: Row, fromRight: Row, p: nat, c: nat): real
    requires Padded(g, blk) && Padded(b, blk) && HaloShaped(h, blk) && ColumnsShaped(fromLeft, fromRight, blk)
    requires blk.nRows >= 1 && blk.nCols >= 1 && p < blk.nRows + 2 && c < blk.nCols + 2
  {
    if 1 <= p <= blk.nRows && 1 <= c <= blk.nCols then Kernel(factor, g, p, c)
    else if p == 0 then (if nb.up then h.up[c] else b[p][c])
    else if p == blk.nRows + 1 then (if nb.down then h.down[c] else b[p][c])
    else if 2 <= p < blk.nRows then (if c == 0 then fromLeft[p] else fromRight[p])
    else b[p][c]
  }

  /** The buffer after a step as written. */
  function StepGrid(factor: real, g: Grid, b: Grid, blk: Block, nb: Neighbours, h: Halo,
                    fromLeft: Row, fromRight: Row): (r: Grid)
    requires Padded(g, blk) && Padded(b, blk) && HaloShaped(h, blk) && ColumnsShaped(fromLeft, fromRight, blk)
    requires blk.nRows >= 1 && blk.nCols >= 1
    ensures Padded(r, blk)
  {
    seq(blk.nRows + 2, p requires 0 <= p < blk.nRows + 2 =>
      seq(blk.nCols + 2, c requires 0 <= c < blk.nCols + 2 =>
        StepCell(factor, g, b, blk, nb, h, fromLeft, fromRight, p, c)))
  }

  /** One of the four corner ghost cells, which the five-point kernel never
      reads. */
  predicate Corner(blk: Block, p: nat, c: nat) {
    (p == 0 || p == blk.nRows + 1) && (c == 0 || c == blk.nCols + 1)
  }

  /** A ghost-column cell beside the first or the last owned row. */
  predicate BesideEdgeRow(blk: Block, p: nat, c: nat) {
    (p == 1 || p == blk.nRows) && (c == 0 || c == blk.nCols + 1)
  }

  /** Cell (p, c) after the step as evidently intended: the ghost columns
      are copied from the receive buffers for every owned row 1 .. nRows. */
  function StitchedCell(factor: real, g: Grid, b: Grid, blk: Block, nb: Neighbours, h: Halo,
                        fromLeft: Row, fromRight: Row, p: nat, c: nat): real
    requires Padded(g, blk) && Padded(b, blk) && HaloShaped(h, blk) && ColumnsShaped(fromLeft, fromRight, blk)
    requires blk.nRows >= 1 && blk.nCols >= 1 && p < blk.nRows + 2 && c < blk.nCols + 2
  {
    if 1 <= p <= blk.nRows && 1 <= c <= blk.nCols then Kernel(factor, g, p, c)
    else if p == 0 then (if nb.up then h.up[c] else b[p][c])
    else if p == blk.nRows + 1 then (if nb.down then h.down[c] else b[p][c])
    else if c == 0 then fromLeft[p]
    else fromRight[p]
  }

  /** The buffer after the corrected step. */
  function StitchedGrid(factor: real, g: Grid, b: Grid, blk: Block, nb: Neighbours, h: Halo,
                        fromLeft: Row, fromRight: Row): (r: Grid)
    requires Padded(g, blk) && Padded(b, blk) && HaloShaped(h, blk) && ColumnsShaped(fromLeft, fromRight, blk)
    requires blk.nRows >= 1 && blk.nCols >= 1
    ensures Padded(r, blk)
  {
    seq(blk.nRows + 2, p requires 0 <= p < blk.nRows + 2 =>
      seq(blk.nCols + 2, c requires 0 <= c < blk.nCols + 2 =>
        StitchedCell(factor, g, b, blk, nb, h, fromLeft, fromRight, p, c)))
  }

  /** The step as written and the corrected step differ only in the four
      ghost cells beside the first and last owned rows, which the step as
      written never writes. */
  lemma AsWrittenSkipsEdgeRowGhosts(factor: real, g: Grid, b: Grid, blk: Block, nb: Neighbours, h: Halo,
                                    fromLeft: Row, fromRight: Row, p: nat, c: nat)
    requires Padded(g, blk) && Padded(b, blk) && HaloShaped(h, blk) && ColumnsShaped(fromLeft, fromRight, blk)
    requires blk.nRows >= 1 && blk.nCols >= 1 && p < blk.nRows + 2 && c < blk.nCols + 2
    ensures BesideEdgeRow(blk, p, c) ==> StepGrid(factor, g, b, blk, nb, h, fromLeft, fromRight)[p][c] == b[p][c]
    ensures !BesideEdgeRow(blk, p, c) ==>
      StepGrid(factor, g, b, blk, nb, h, fromLeft, fromRight)[p][c] ==
      StitchedGrid(factor, g, b, blk, nb, h, fromLeft, fromRight)[p][c]
  {
  }

  /** The halo rows and the receive buffers hold the cells of the global
      sweep S beside the block: rows from the neighbours above and below,
      and the columns to the left and right of the owned rows. */
  predicate HalosFromSweep(S: Grid, blk: Block, nb: Neighbours, h: Halo, fromLeft: Row, fromRight: Row)
    requires HaloShaped(h, blk) && ColumnsShaped(fromLeft, fromRight, blk)
    requires blk.rowBegin + blk.nRows + 2 <= |S|
    requires forall q :: 0 <= q < |S| ==> blk.colBegin + blk.nCols + 2 <= |S[q]|
  {
    (nb.up ==> forall c :: 1 <= c <= blk.nCols ==> h.up[c] == S[blk.rowBegin][blk.colBegin + c]) &&
    (nb.down ==> forall c :: 1 <= c <= blk.nCols ==> h.down[c] == S[blk.rowBegin + blk.nRows + 1][blk.colBegin + c]) &&
    (forall p :: 1 <= p <= blk.nRows ==> fromLeft[p] == S[blk.rowBegin + p][blk.colBegin]) &&
    (forall p :: 1 <= p <= blk.nRows ==> fromRight[p] == S[blk.rowBegin + p][blk.colBegin + blk.nCols + 1])
  }

  /** The corrected step computes the block's window of one global sweep S
      of the framed field P into Q: given the windows of P and Q and the
      sweep's cells beside the block as halos, every cell of the new buffer
      but the four corners is the sweep's. */
  lemma StitchedStepIsWindow(factor: real, P: Grid, Q: Grid, dim: nat, blk: Block, nb: Neighbours,
                             h: Halo, fromLeft: Row, fromRight: Row)
    requires IsRect(P, dim + 2, dim + 2) && IsRect(Q, dim + 2, dim + 2) && Fits(dim, blk)
    requires HaloShaped(h, blk) && ColumnsShaped(fromLeft, fromRight, blk)
    requires nb.up <==> blk.rowBegin > 0
    requires nb.down <==> blk.rowBegin + blk.nRows < dim
    requires HalosFromSweep(Diffused(factor, P, Q, dim + 2), blk, nb, h, fromLeft, fromRight)
    ensures var r := StitchedGrid(factor, Window(P, blk), Window(Q, blk), blk, nb, h, fromLeft, fromRight);
      forall p, c :: 0 <= p < blk.nRows + 2 && 0 <= c < blk.nCols + 2 && !Corner(blk, p, c) ==>
        r[p][c] == Window(Diffused(factor, P, Q, dim + 2), blk)[p][c]
  {
    var S := Diffused(factor, P, Q, dim + 2);
    var r := StitchedGrid(factor, Window(P, blk), Window(Q, blk), blk, nb, h, fromLeft, fromRight);
    forall p, c | 0 <= p < blk.nRows + 2 && 0 <= c < blk.nCols + 2 && !Corner(blk, p, c)
      ensures r[p][c] == Window(S, blk)[p][c]
    {
      StitchedCellIsSweep(factor, P, Q, dim, blk, nb, h, fromLeft, fromRight, p, c);
    }
  }

  /** One cell of `StitchedStepIsWindow`. */
  lemma StitchedCellIsSweep(factor: real, P: Grid, Q: Grid, dim: nat, blk: Block, nb: Neighbours,
                            h: Halo, fromLeft: Row, fromRight: Row, p: nat, c: nat)
    requires IsRect(P, dim + 2, dim + 2) && IsRect(Q, dim + 2, dim + 2) && Fits(dim, blk)
    requires HaloShaped(h, blk) && ColumnsShaped(fromLeft, fromRight, blk)
    requires nb.up <==> blk.rowBegin > 0
    requires nb.down <==> blk.rowBegin + blk.nRows < dim
    requires HalosFromSweep(Diffused(factor, P, Q, dim + 2), blk, nb, h, fromLeft, fromRight)
    requires p < blk.nRows + 2 && c < blk.nCols + 2 && !Corner(blk, p, c)
    ensures StitchedCell(factor, Window(P, blk), Window(Q, blk), blk, nb, h, fromLeft, fromRight, p, c)
      == Diffused(factor, P, Q, dim + 2)[blk.rowBegin + p][blk.colBegin + c]
  {
    if 1 <= p <= blk.nRows && 1 <= c <= blk.nCols {
      SweepAtOwnedCell(factor, P, Q, dim, blk, p, c);
    } else if (p == 0 && !nb.up) || (p == blk.nRows + 1 && !nb.down) {
      SweepAtFrameCell(factor, P, Q, dim, blk, p, c);
    }
  }

  /** At an owned cell the sweep is the kernel of the block's window. */
  lemma SweepAtOwnedCell(factor: real, P: Grid, Q: Grid, dim: nat, blk: Block, p: nat, c: nat)
    requires IsRect(P, dim + 2, dim + 2) && IsRect(Q, dim + 2, dim + 2) && Fits(dim, blk)
    requires 1 <= p <= blk.nRows && 1 <= c <= blk.nCols
    ensures Diffused(factor, P, Q, dim + 2)[blk.rowBegin + p][blk.colBegin + c] == Kernel(factor, Window(P, blk), p, c)
  {
    WindowKernel(factor, P, dim, blk, p, c);
    assert Interior(dim + 2, dim + 2, blk.rowBegin + p, blk.colBegin + c);
  }

  /** A ghost row on the frame of the whole field is not swept: the sweep
      keeps what the block's window of Q holds there. */
  lemma SweepAtFrameCell(factor: real, P: Grid, Q: Grid, dim: nat, blk: Block, p: nat, c: nat)
    requires IsRect(P, dim + 2, dim + 2) && IsRect(Q, dim + 2, dim + 2) && Fits(dim, blk)
    requires (p == 0 && blk.rowBegin == 0) || (p == blk.nRows + 1 && blk.rowBegin + blk.nRows == dim)
    requires c < blk.nCols + 2
    ensures Diffused(factor, P, Q, dim + 2)[blk.rowBegin + p][blk.colBegin + c] == Window(Q, blk)[p][c]
  {
    assert !Interior(dim + 2, dim + 2, blk.rowBegin + p, blk.colBegin + c);
  }

  /** The kernel at an owned cell of a window is the kernel at the matching
      cell of the framed field. */
  lemma WindowKernel(factor: real, P: Grid, dim: nat, blk: Block, p: nat, c: nat)
    requires IsRect(P, dim + 2, dim + 2) && Fits(dim, blk)
    requires 1 <= p <= blk.nRows && 1 <= c <= blk.nCols
    ensures Kernel(factor, Window(P, blk), p, c) == Kernel(factor, P, blk.rowBegin + p, blk.colBegin + c)
  {
    var g, rb, cb := Window(P, blk), blk.rowBegin, blk.colBegin;
    assert g[p][c] == P[rb + p][cb + c] && g[p - 1][c] == P[rb + p - 1][cb + c] && g[p + 1][c] == P[rb + p + 1][cb + c];
    assert g[p][c - 1] == P[rb + p][cb + c - 1] && g[p][c + 1] == P[rb + p][cb + c + 1];
  }

  // ---------------------------------------------------------------------
  // Steps over time

  /** What a rank carries from step to step: the grid, the buffer, and the
      two receive buffers, which are declared once, before the loop. */
  datatype BlockState = BlockState(grid: Grid, buffer: Grid, fromLeft: Row, fromRight: Row)

  /** All four are of the block's padded shape. */
  predicate StateShaped(st: BlockState, blk: Block) {
    Padded(st.grid, blk) && Padded(st.buffer, blk) && ColumnsShaped(st.fromLeft, st.fromRight, blk)
  }

  /** One step as written, then the swap of grid and buffer. */
  function Advance(factor: real, st: BlockState, blk: Block, nb: Neighbours, h: Halo): (next: BlockState)
    requires StateShaped(st, blk) && HaloShaped(h, blk) && blk.nRows >= 1 && blk.nCols >= 1
    ensures StateShaped(next, blk)
  {
    var fromLeft := Received(nb.left, h.left, st.fromLeft);
    var fromRight := Received(nb.right, h.right, st.fromRight);
    BlockState(StepGrid(factor, st.grid, st.buffer, blk, nb, h, fromLeft, fromRight), st.grid, fromLeft, fromRight)
  }

  /** The state after n steps, with `halos(m)` received in step m. */
  function BlockEvolve(factor: real, st0: BlockState, blk: Block, nb: Neighbours, halos: nat -> Halo, n: nat): (st: BlockState)
    requires StateShaped(st0, blk) && blk.nRows >= 1 && blk.nCols >= 1
    requires forall m :: HaloShaped(halos(m), blk)
    ensures StateShaped(st, blk)
  {
    if n == 0 then st0 else Advance(factor, BlockEvolve(factor, st0, blk, nb, halos, n - 1), blk, nb, halos(n - 1))
  }

  /** A column of zeros, as `std::vector<float>(nRows+2)` starts. */
  function ZeroColumn(blk: Block): (z: Row)
    ensures |z| == blk.nRows + 2 && forall p :: 0 <= p < |z| ==> z[p] == 0.0
  {
    seq(blk.nRows + 2, _ => 0.0)
  }

  /** Before the first step: grid and buffer are the seed (line 46) and the
      receive buffers are zero. */
  function StartState(dim: nat, blk: Block): (st: BlockState)
    ensures StateShaped(st, blk)
  {
    BlockState(BlockSeed(dim, blk), BlockSeed(dim, blk), ZeroColumn(blk), ZeroColumn(blk))
  }

  /** The ghost cells beside the first and last owned rows are never written:
      whatever the neighbours send, they keep their seed value in both grids
      at every step. */
  lemma {:induction false} EdgeRowGhostsKeepSeed(factor: real, st0: BlockState, blk: Block, nb: Neighbours,
                                                 halos: nat -> Halo, n: nat, p: nat, c: nat)
    requires StateShaped(st0, blk) && blk.nRows >= 1 && blk.nCols >= 1
    requires forall m :: HaloShaped(halos(m), blk)
    requires BesideEdgeRow(blk, p, c) && st0.grid[p][c] == st0.buffer[p][c]
    ensures BlockEvolve(factor, st0, blk, nb, halos, n).grid[p][c] == st0.grid[p][c]
    ensures BlockEvolve(factor, st0, blk, nb, halos, n).buffer[p][c] == st0.grid[p][c]
  {
    if n > 0 {
      EdgeRowGhostsKeepSeed(factor, st0, blk, nb, halos, n - 1, p, c);
    }
  }

  /** Without a neighbour to the left (right) the receive buffer stays zero,
      and after the first step the ghost column of rows 2 .. nRows-1 is zero. */
  lemma {:induction false} MissingNeighbourGivesZero(factor: real, dim: nat, blk: Block, nb: Neighbours,
                                                     halos: nat -> Halo, n: nat, p: nat)
    requires blk.nRows >= 1 && blk.nCols >= 1
    requires forall m :: HaloShaped(halos(m), blk)
    requires p < blk.nRows + 2
    ensures var st := BlockEvolve(factor, StartState(dim, blk), blk, nb, halos, n);
      (!nb.left ==> st.fromLeft[p] == 0.0) && (!nb.right ==> st.fromRight[p] == 0.0)
    ensures var st := BlockEvolve(factor, StartState(dim, blk), blk, nb, halos, n);
      n >= 1 && 2 <= p < blk.nRows ==>
        (!nb.left ==> st.grid[p][0] == 0.0) && (!nb.right ==> st.grid[p][blk.nCols + 1] == 0.0)
  {
    if n > 0 {
      MissingNeighbourGivesZero(factor, dim, blk, nb, halos, n - 1, p);
    }
  }

  /** On a 2 x 2 process grid over an 8 x 8 field, the rank at (1, 1) owns
      rows and columns 4 .. 7. After one step its ghost cell (1, 0), global
      cell (4, 3), still holds the seed's 1, while one sweep of the whole
      field gives that cell 1 - factor: the next step reads a stale west
      neighbour at owned cell (1, 1). */
  lemma StaleGhostExample(factor: real, halos: nat -> Halo)
    requires factor != 0.0
    requires forall m :: HaloShaped(halos(m), Block(4, 4, 4, 4))
    ensures var blk := BlockAt(8, Shape(2, 2), Coordinates(1, 1));
      blk == Block(4, 4, 4, 4) &&
      BlockEvolve(factor, StartState(8, blk), blk, NeighboursOf(Shape(2, 2), Coordinates(1, 1)), halos, 1).grid[1][0] == 1.0 &&
      Window(Diffused(factor, FramedSeed(8), FramedSeed(8), 10), blk)[1][0] == 1.0 - factor
  {
    assert BlockAt(8, Shape(2, 2), Coordinates(1, 1)) == Block(4, 4, 4, 4);
    StaleGhostKeepsSeed(factor, halos);
    WindowOfSweptSeed(factor);
  }

  /** The block part: ghost cell (1, 0) of the rank at (1, 1) keeps the seed's
      1 after one step. */
  lemma StaleGhostKeepsSeed(factor: real, halos: nat -> Halo)
    requires forall m :: HaloShaped(halos(m), Block(4, 4, 4, 4))
    ensures BlockEvolve(factor, StartState(8, Block(4, 4, 4, 4)), Block(4, 4, 4, 4),
                        NeighboursOf(Shape(2, 2), Coordinates(1, 1)), halos, 1).grid[1][0] == 1.0
  {
    var blk := Block(4, 4, 4, 4);
    assert BlockSeed(8, blk)[1][0] == Indicator(InOpenSquare(8, 4, 3)) == 1.0;
    EdgeRowGhostsKeepSeed(factor, StartState(8, blk), blk, NeighboursOf(Shape(2, 2), Coordinates(1, 1)), halos, 1, 1, 0);
  }

  /** The sweep part: the same cell of one sweep of the whole field, seen
      through the block's window, is 1 - factor. */
  lemma WindowOfSweptSeed(factor: real)
    ensures Window(Diffused(factor, FramedSeed(8), FramedSeed(8), 10), Block(4, 4, 4, 4))[1][0] == 1.0 - factor
  {
    SweptSeedAtFourThree(factor);
    assert Window(Diffused(factor, FramedSeed(8), FramedSeed(8), 10), Block(4, 4, 4, 4))[1][0]
      == Diffused(factor, FramedSeed(8), FramedSeed(8), 10)[5][4];
  }

  /** One sweep of the framed 8 x 8 seed gives global cell (4, 3), framed
      (5, 4), the value 1 - factor: three of its neighbours are set, the one
      to the west is not. */
  lemma SweptSeedAtFourThree(factor: real)
    ensures Diffused(factor, FramedSeed(8), FramedSeed(8), 10)[5][4] == 1.0 - factor
  {
    var F := FramedSeed(8);
    assert F[5][4] == 1.0 && F[4][4] == 1.0 && F[5][3] == 0.0 && F[5][5] == 1.0 && F[6][4] == 1.0;
    assert Interior(10, 10, 5, 4);
    assert Kernel(factor, F, 5, 4) == 1.0 - factor;
  }

  // ---------------------------------------------------------------------
  // The step loops

  /** Lines 85-88: the kernel at the first and last owned columns of every
      owned row, into the send buffers. Entries 0 and nRows+1 of the send
      buffers are never written and stay zero. */
  method EdgeColumns(factor: real, grid: Grid, blk: Block) returns (sendLeft: Row, sendRight: Row)
    requires Padded(grid, blk) && blk.nRows >= 1 && blk.nCols >= 1
    ensures ColumnsShaped(sendLeft, sendRight, blk)
    ensures forall i :: 1 <= i <= blk.nRows ==>
      sendLeft[i] == Kernel(factor, grid, i, 1) && sendRight[i] == Kernel(factor, grid, i, blk.nCols)
  {
    sendLeft, sendRight := ZeroColumn(blk), ZeroColumn(blk);
    var iMax := blk.nRows + 1;
    for i := 1 to iMax
      invariant ColumnsShaped(sendLeft, sendRight, blk)
      invariant forall k :: 1 <= k < i ==>
        sendLeft[k] == Kernel(factor, grid, k, 1) && sendRight[k] == Kernel(factor, grid, k, blk.nCols)
    {
      sendLeft := sendLeft[i := Kernel(factor, grid, i, 1)];
      sendRight := sendRight[i := Kernel(factor, grid, i, blk.nCols)];
    }
  }

  /** Lines 106-108 (p = 1) and 116-118 (p = nRows): the kernel at the owned
      cells of row p, into the buffer; nothing else changes. */
  method KernelRow(factor: real, grid: Grid, buffer: Grid, p: nat, blk: Block) returns (r: Grid)
    requires Padded(grid, blk) && Padded(buffer, blk) && 1 <= p <= blk.nRows && blk.nCols >= 1
    ensures Padded(r, blk)
    ensures forall q :: 0 <= q < blk.nRows + 2 && q != p ==> r[q] == buffer[q]
    ensures forall c :: 0 <= c < blk.nCols + 2 ==>
      r[p][c] == if 1 <= c <= blk.nCols then Kernel(factor, grid, p, c) else buffer[p][c]
  {
    r := buffer;
    var jMax := blk.nCols + 1;
    for j := 1 to jMax
      invariant Padded(r, blk)
      invariant forall q :: 0 <= q < blk.nRows + 2 && q != p ==> r[q] == buffer[q]
      invariant forall c :: 0 <= c < blk.nCols + 2 ==>
        r[p][c] == if 1 <= c < j then Kernel(factor, grid, p, c) else buffer[p][c]
    {
      r := r[p := r[p][j := Kernel(factor, grid, p, j)]];
    }
  }

  /** Lines 134-140 for row i: the received ghost cells at both ends, the
      send buffers' kernels at the first and last owned columns, and the
      kernel in between. */
  method BulkRow(factor: real, grid: Grid, row: Row, i: nat, blk: Block,
                 left: real, sendLeft: real, sendRight: real, right: real)
    returns (r: Row)
    requires Padded(grid, blk) && 1 <= i <= blk.nRows && blk.nCols >= 1 && |row| == blk.nCols + 2
    requires sendLeft == Kernel(factor, grid, i, 1) && sendRight == Kernel(factor, grid, i, blk.nCols)
    ensures |r| == blk.nCols + 2
    ensures forall c :: 0 <= c < blk.nCols + 2 ==>
      r[c] == if c == 0 then left else if c == blk.nCols + 1 then right else Kernel(factor, grid, i, c)
  {
    var nCols := blk.nCols;
    r := row[0 := left];
    r := r[1 := sendLeft];
    var j := 2;
    while j < nCols
      invariant 2 <= j <= nCols || j == 2
      invariant |r| == nCols + 2 && r[0] == left && r[1] == sendLeft
      invariant forall c :: 2 <= c < j && c < nCols ==> r[c] == Kernel(factor, grid, i, c)
    {
      r := r[j := Kernel(factor, grid, i, j)];
      j := j + 1;
    }
    r := r[nCols := sendRight];
    r := r[nCols + 1 := right];
  }

  /** Lines 133-141: rows 2 .. nRows-1 become `BulkRow`s; the other rows do
      not change. */
  method Bulk(factor: real, grid: Grid, buffer: Grid, blk: Block, fromLeft: Row, fromRight: Row,
              sendLeft: Row, sendRight: Row)
    returns (r: Grid)
    requires Padded(grid, blk) && Padded(buffer, blk) && blk.nRows >= 1 && blk.nCols >= 1
    requires ColumnsShaped(fromLeft, fromRight, blk) && ColumnsShaped(sendLeft, sendRight, blk)
    requires forall i :: 1 <= i <= blk.nRows ==>
      sendLeft[i] == Kernel(factor, grid, i, 1) && sendRight[i] == Kernel(factor, grid, i, blk.nCols)
    ensures Padded(r, blk)
    ensures forall q :: 0 <= q < blk.nRows + 2 && !(2 <= q < blk.nRows) ==> r[q] == buffer[q]
    ensures forall q, c :: 2 <= q < blk.nRows && 0 <= c < blk.nCols + 2 ==>
      r[q][c] == if c == 0 then fromLeft[q] else if c == blk.nCols + 1 then fromRight[q] else Kernel(factor, grid, q, c)
  {
    r := buffer;
    var iMaxInner := blk.nRows;
    var i := 2;
    while i < iMaxInner
      invariant 2 <= i && (i <= iMaxInner || i == 2) && Padded(r, blk)
      invariant forall q :: 0 <= q < blk.nRows + 2 && !(2 <= q < i) ==> r[q] == buffer[q]
      invariant forall q, c :: 2 <= q < i && q < blk.nRows && 0 <= c < blk.nCols + 2 ==>
        r[q][c] == if c == 0 then fromLeft[q] else if c == blk.nCols + 1 then fromRight[q] else Kernel(factor, grid, q, c)
    {
      var row := BulkRow(factor, grid, r[i], i, blk, fromLeft[i], sendLeft[i], sendRight[i], fromRight[i]);
      r := r[i := row];
      i := i + 1;
    }
  }

  /** One step (lines 82-144), before the swap: the receive buffers take the
      neighbours' columns, and the buffer becomes `StepGrid`. */
  method Step(factor: real, grid: Grid, gridBuffer: Grid, blk: Block, nb: Neighbours, h: Halo,
              fromLeft: Row, fromRight: Row)
    returns (next: Grid, newLeft: Row, newRight: Row)
    requires Padded(grid, blk) && Padded(gridBuffer, blk) && HaloShaped(h, blk)
    requires ColumnsShaped(fromLeft, fromRight, blk) && blk.nRows >= 1 && blk.nCols >= 1
    ensures newLeft == Received(nb.left, h.left, fromLeft) && newRight == Received(nb.right, h.right, fromRight)
    ensures next == StepGrid(factor, grid, gridBuffer, blk, nb, h, newLeft, newRight)
  {
    var sendLeft, sendRight := EdgeColumns(factor, grid, blk);
    newLeft, newRight := fromLeft, fromRight;
    if nb.left {
      newLeft := h.left;
    }
    if nb.right {
      newRight := h.right;
    }
    next := KernelRow(factor, grid, gridBuffer, 1, blk);
    if nb.up {
      next := next[0 := h.up];
    }
    next := KernelRow(factor, grid, next, blk.nRows, blk);
    if nb.down {
      next := next[blk.nRows + 1 := h.down];
    }
    next := Bulk(factor, grid, next, blk, newLeft, newRight, sendLeft, sendRight);
    ghost var spec := StepGrid(factor, grid, gridBuffer, blk, nb, h, newLeft, newRight);
    forall p, c | 0 <= p < blk.nRows + 2 && 0 <= c < blk.nCols + 2
      ensures next[p][c] == spec[p][c]
    {
      assert spec[p][c] == StepCell(factor, grid, gridBuffer, blk, nb, h, newLeft, newRight, p, c);
    }
    CellsDetermineGrid(next, spec);
  }

  // ---------------------------------------------------------------------
  // The solver on one rank

  /** The block of `rank` when `size` ranks run. */
  function RankBlock(dim: nat, size: nat, rank: nat): Block
    requires size >= 1 && rank < ProcessShape(size).nVertical * ProcessShape(size).nHorizontal
  {
    BlockAt(dim, ProcessShape(size), CoordinatesOf(ProcessShape(size), rank))
  }

  /** The local field of `rank` after n steps as written, ghost cells
      included. */
  function GridField(dim: nat, d: real, dt: real, size: nat, rank: nat, halos: nat -> Halo, n: nat): Grid
    requires size >= 1 && rank < ProcessShape(size).nVertical * ProcessShape(size).nHorizontal
    requires dim >= ProcessShape(size).nVertical
    requires forall m :: HaloShaped(halos(m), RankBlock(dim, size, rank))
  {
    var s := ProcessShape(size);
    var at := CoordinatesOf(s, rank);
    BlockFitsAndNeighbours(dim, s, at);
    var blk := BlockAt(dim, s, at);
    BlockEvolve(Factor(d, dt, dim), StartState(dim, blk), blk, NeighboursOf(s, at), halos, n).grid
  }

  /** nHorizontal <= nVertical, so when `dim*nVertical` fits in 32 bits so
      does `dim*nHorizontal`. */
  lemma WidthFitsWord(dim: nat, size: nat)
    requires size >= 1 && dim * ProcessShape(size).nVertical < WordSize
    ensures dim * ProcessShape(size).nHorizontal < WordSize
  {
    var s := ProcessShape(size);
    MulAddRight(s.nHorizontal, s.nVertical - s.nHorizontal, dim);
    MulNonneg(s.nVertical - s.nHorizontal, dim);
  }

  /** Lines 18-28: the process grid, the rank's coordinates in it (from
      `MPI_Cart_get`), and the rank's block under the floor partition. The
      products `gridDim*row` and `gridDim*col` are unsigned and the bounds
      `int`, so the block is the floor partition's only while
      `gridDim*nVertical` fits in 32 bits and `gridDim` in 31. */
  method LocalBlock(dim: nat, size: nat, rank: nat) returns (blk: Block, nb: Neighbours)
    requires size >= 1 && rank < ProcessShape(size).nVertical * ProcessShape(size).nHorizontal
    requires dim >= ProcessShape(size).nVertical
    requires dim < 0x8000_0000 && dim * ProcessShape(size).nVertical < WordSize
    ensures blk == RankBlock(dim, size, rank) && Fits(dim, blk)
    ensures nb == NeighboursOf(ProcessShape(size), CoordinatesOf(ProcessShape(size), rank))
  {
    var nHorizontal := FloorSqrt(size);
    var nVertical := size / nHorizontal;
    var at := CoordinatesOf(Shape(nVertical, nHorizontal), rank);
    BlockFitsAndNeighbours(dim, ProcessShape(size), at);
    WidthFitsWord(dim, size);
    U32BeginAgrees(dim, at.row, nVertical);
    U32BeginAgrees(dim, at.row + 1, nVertical);
    U32BeginAgrees(dim, at.col, nHorizontal);
    U32BeginAgrees(dim, at.col + 1, nHorizontal);
    var rowBegin := (dim * at.row % WordSize) / nVertical;
    var rowEnd := (dim * (at.row + 1) % WordSize) / nVertical;
    var colBegin := (dim * at.col % WordSize) / nHorizontal;
    var colEnd := (dim * (at.col + 1) % WordSize) / nHorizontal;
    blk := Block(rowBegin, rowEnd - rowBegin, colBegin, colEnd - colBegin);
    nb := NeighboursOf(Shape(nVertical, nHorizontal), at);
  }

  /** Lines 46-148: capture the grid whenever the next requested time is
      due, otherwise step and swap, until every time is captured. */
  method RunBlock(factor: real, dt: real, timesToRecord: seq<real>, blk: Block, nb: Neighbours, seed: Grid,
                  halos: nat -> Halo)
    returns (localSnapshots: seq<Grid>)
    requires Padded(seed, blk) && blk.nRows >= 1 && blk.nCols >= 1
    requires dt > 0.0 && |timesToRecord| > 0
    requires forall m :: HaloShaped(halos(m), blk)
    ensures |localSnapshots| == |timesToRecord|
    ensures forall k :: 0 <= k < |timesToRecord| ==>
      localSnapshots[k] == BlockEvolve(factor, BlockState(seed, seed, ZeroColumn(blk), ZeroColumn(blk)), blk, nb, halos,
                                       Captures(timesToRecord, dt, 0)[k]).grid
  {
    var grid := seed;
    var gridBuffer := grid;
    var fromLeft, fromRight := ZeroColumn(blk), ZeroColumn(blk);
    localSnapshots := seq(|timesToRecord|, _ => []);
    var t := 0.0;
    var idx := 0;
    ghost var start := BlockState(seed, seed, ZeroColumn(blk), ZeroColumn(blk));
    ghost var caps := Captures(timesToRecord, dt, 0);
    // The number of steps taken, which selects the halos received next.
    var n: nat := 0;
    while true
      invariant 0 <= idx < |timesToRecord| && |localSnapshots| == |timesToRecord|
      invariant t == TimeAt(n, dt)
      invariant SearchStart(caps, 0, idx) <= n <= caps[idx]
      invariant BlockState(grid, gridBuffer, fromLeft, fromRight) == BlockEvolve(factor, start, blk, nb, halos, n)
      invariant forall k :: 0 <= k < idx ==> localSnapshots[k] == BlockEvolve(factor, start, blk, nb, halos, caps[k]).grid
      decreases |timesToRecord| - idx, caps[idx] - n
    {
      var next;
      localSnapshots, next, t, grid, gridBuffer, fromLeft, fromRight :=
        BlockIteration(factor, dt, timesToRecord, blk, nb, halos, start, localSnapshots, idx, t, n,
                       grid, gridBuffer, fromLeft, fromRight);
      if next == |timesToRecord| {
        break;
      }
      idx := next;
      n := n + 1;
    }
  }

  /** One pass of the main loop (lines 47-146): capture the grid if the next
      requested time is due; then, unless that was the last one, step and
      swap. */
  method BlockIteration(factor: real, dt: real, timesToRecord: seq<real>, blk: Block, nb: Neighbours,
                        halos: nat -> Halo, ghost start: BlockState, localSnapshots: seq<Grid>, idx: nat, t: real, n: nat,
                        grid: Grid, gridBuffer: Grid, fromLeft: Row, fromRight: Row)
    returns (snapshots: seq<Grid>, next: nat, t': real, grid': Grid, gridBuffer': Grid, fromLeft': Row, fromRight': Row)
    requires StateShaped(start, blk) && blk.nRows >= 1 && blk.nCols >= 1
    requires forall m :: HaloShaped(halos(m), blk)
    requires dt > 0.0 && idx < |timesToRecord| && |localSnapshots| == |timesToRecord|
    requires t == TimeAt(n, dt)
    requires SearchStart(Captures(timesToRecord, dt, 0), 0, idx) <= n <= Captures(timesToRecord, dt, 0)[idx]
    requires BlockState(grid, gridBuffer, fromLeft, fromRight) == BlockEvolve(factor, start, blk, nb, halos, n)
    requires forall k :: 0 <= k < idx ==>
      localSnapshots[k] == BlockEvolve(factor, start, blk, nb, halos, Captures(timesToRecord, dt, 0)[k]).grid
    ensures next == if n == Captures(timesToRecord, dt, 0)[idx] then idx + 1 else idx
    ensures |snapshots| == |timesToRecord|
    ensures forall k :: 0 <= k < next ==>
      snapshots[k] == BlockEvolve(factor, start, blk, nb, halos, Captures(timesToRecord, dt, 0)[k]).grid
    ensures next < |timesToRecord| ==>
      && t' == TimeAt(n + 1, dt)
      && SearchStart(Captures(timesToRecord, dt, 0), 0, next) <= n + 1 <= Captures(timesToRecord, dt, 0)[next]
      && BlockState(grid', gridBuffer', fromLeft', fromRight') == BlockEvolve(factor, start, blk, nb, halos, n + 1)
  {
    ghost var caps := Captures(timesToRecord, dt, 0);
    DueNowIsCapture(timesToRecord, dt, idx, n);
    snapshots, next := localSnapshots, idx;
    if t >= timesToRecord[idx] {
      snapshots := snapshots[idx := grid];
      next := idx + 1;
    }
    t', grid', gridBuffer', fromLeft', fromRight' := t, grid, gridBuffer, fromLeft, fromRight;
    if next < |timesToRecord| {
      if next > idx {
        CapturesOrdered(timesToRecord, dt, 0, next);
      }
      grid', gridBuffer', fromLeft', fromRight' := StepAndSwap(factor, grid, gridBuffer, blk, nb, halos(n), fromLeft, fromRight);
      t' := t + dt;
    }
  }

  /** Lines 81-146: one step into the buffer, then the swap of grid and
      buffer; together they are one `Advance` of the rank's state. */
  method StepAndSwap(factor: real, grid: Grid, gridBuffer: Grid, blk: Block, nb: Neighbours, h: Halo,
                     fromLeft: Row, fromRight: Row)
    returns (grid': Grid, gridBuffer': Grid, fromLeft': Row, fromRight': Row)
    requires StateShaped(BlockState(grid, gridBuffer, fromLeft, fromRight), blk) && HaloShaped(h, blk)
    requires blk.nRows >= 1 && blk.nCols >= 1
    ensures BlockState(grid', gridBuffer', fromLeft', fromRight')
      == Advance(factor, BlockState(grid, gridBuffer, fromLeft, fromRight), blk, nb, h)
  {
    var next;
    next, fromLeft', fromRight' := Step(factor, grid, gridBuffer, blk, nb, h, fromLeft, fromRight);
    grid', gridBuffer' := next, grid;
  }

  /** Lines 10-148 of `DiffusionGrid(dim, d, dt, times)` on `rank` of `size`
      ranks, with `halos(n)` received in step n: the requested times are
      sorted, and local snapshot k is the padded block after the k-th capture
      step of the sorted times. */
  method DiffusionGridLocal(dim: nat, d: real, dt: real, times: seq<real>, size: nat, rank: nat, halos: nat -> Halo)
    returns (localSnapshots: seq<Grid>)
    requires size >= 1 && rank < ProcessShape(size).nVertical * ProcessShape(size).nHorizontal
    requires dim >= ProcessShape(size).nVertical
    requires dim < 0x8000_0000 && dim * ProcessShape(size).nVertical < WordSize
    requires dt > 0.0 && |times| > 0
    requires forall m :: HaloShaped(halos(m), RankBlock(dim, size, rank))
    ensures |localSnapshots| == |times|
    ensures forall k :: 0 <= k < |times| ==>
      Padded(localSnapshots[k], RankBlock(dim, size, rank)) &&
      localSnapshots[k] == GridField(dim, d, dt, size, rank, halos, Captures(Sorted(times), dt, 0)[k])
  {
    var blk, nb := LocalBlock(dim, size, rank);
    var grid := InitializeBlock(dim, blk);
    var timesToRecord := Sorted(times);
    localSnapshots := RunBlock(Factor(d, dt, dim), dt, timesToRecord, blk, nb, grid, halos);
  }
}
