/** `DiffusionMPI`: each rank owns the rows `[dim*rank/nRanks,
    dim*(rank+1)/nRanks)` of a dim x dim field and keeps them with one ghost
    row above and one below. Every step sweeps the owned rows into the
    buffer, receives halo rows from the neighbouring ranks into the buffer,
    and swaps. The received rows, and the cell read one past the end of each
    row, are inputs of the model: the transport is not modelled. */
module RowMpi {
  import opened Arith
  import opened Grids
  import opened Seeds
  import opened Schedule
  import opened Partition

  /** What one step receives from outside the rank: the row from the rank
      above, the row from the rank below, and for every local row i the value
      found at `grid[i][dim]`, one past the end of the row. */
  datatype Halo = Halo(north: Row, south: Row, pastEnd: Row)

  /** Halo rows are dim cells long and there is one past-the-end value per
      local row. */
  predicate HaloShaped(h: Halo, dim: nat, localRows: nat) {
    |h.north| == dim && |h.south| == dim && |h.pastEnd| == localRows
  }

  /** The rows owned by `rank`. */
  function OwnedRows(dim: nat, rank: nat, nRanks: nat): nat
    requires nRanks > 0
  {
    BeginMonotone(dim, rank, rank + 1, nRanks);
    BandBegin(dim, rank + 1, nRanks) - BandBegin(dim, rank, nRanks)
  }

  /** The seed of the padded dim+2 rows: padded row p is global row p-1 and
      holds the strict square; the two outer rows are all zero. */
  function PaddedSeed(dim: nat): (g: Grid)
    ensures IsRect(g, dim + 2, dim)
  {
    seq(dim + 2, p => seq(dim, j => Indicator(InOpenSquare(dim, p - 1, j))))
  }

  /** The local seed of a rank whose band begins at `rowBegin`: local row p is
      global row rowBegin + p - 1, ghost rows included. */
  function LocalSeed(dim: nat, rowBegin: nat, nRows: nat): (g: Grid)
    ensures IsRect(g, nRows + 2, dim)
  {
    seq(nRows + 2, p => seq(dim, j => Indicator(InOpenSquare(dim, rowBegin + p - 1, j))))
  }

  /** A rank's seed is its window of the padded seed, so the ghost rows of
      neighbouring ranks start equal to each other's owned edge rows. */
  lemma LocalSeedIsWindow(dim: nat, rowBegin: nat, nRows: nat)
    requires rowBegin + nRows <= dim
    ensures LocalSeed(dim, rowBegin, nRows) == PaddedSeed(dim)[rowBegin .. rowBegin + nRows + 2]
  {
    CellsDetermineGrid(LocalSeed(dim, rowBegin, nRows), PaddedSeed(dim)[rowBegin .. rowBegin + nRows + 2]);
  }

  /** The outer rows of the padded seed and its first column are zero. */
  lemma PaddedSeedZeroOutside(dim: nat, p: nat, j: nat)
    requires p < dim + 2 && j < dim
    requires p == 0 || p == dim + 1 || j == 0
    ensures PaddedSeed(dim)[p][j] == 0.0
  {
    assert !InOpenSquare(dim, p - 1, j);
  }

  /** Fills the (nRows+2) x dim local grid: local row i+1, for i from -1 to
      nRows, is set between the strict row bounds, shifted by rowBegin, and
      the strict column bounds. */
  method InitializeLocal(dim: nat, rowBegin: nat, nRows: nat) returns (grid: Grid)
    ensures grid == LocalSeed(dim, rowBegin, nRows)
  {
    grid := Zeros(nRows + 2, dim);
    var minCol := dim / 4;
    var maxCol := dim - minCol;
    var minRow := minCol - rowBegin;
    var maxRow := (dim - minCol) - rowBegin;
    var i := -1;
    while i < nRows + 1
      invariant -1 <= i <= nRows + 1 && IsRect(grid, nRows + 2, dim)
      invariant forall p, c :: 0 <= p < nRows + 2 && 0 <= c < dim ==>
        grid[p][c] == Indicator(p < i + 1 && InOpenSquare(dim, rowBegin + p - 1, c))
    {
      var inRow := i > minRow && i < maxRow;
      var j := 0;
      while j < dim
        invariant 0 <= j <= dim && IsRect(grid, nRows + 2, dim)
        invariant forall p, c :: 0 <= p < nRows + 2 && 0 <= c < dim ==>
          grid[p][c] == Indicator((p < i + 1 || (p == i + 1 && c < j)) && InOpenSquare(dim, rowBegin + p - 1, c))
      {
        grid := grid[i + 1 := grid[i + 1][j := Indicator(inRow && j > minCol && j < maxCol)]];
        j := j + 1;
      }
      i := i + 1;
    }
    CellsDetermineGrid(grid, LocalSeed(dim, rowBegin, nRows));
  }

  /** The value a step computes at local (i, j), for rows 1 .. |g|-2 and
      columns 1 .. dim-1: the five-point update, whose east neighbour at
      j = dim-1 is the cell past the end of the row. */
  function SweepCell(factor: real, g: Grid, dim: nat, pastEnd: Row, i: nat, j: nat): real
    requires IsRect(g, |g|, dim) && |pastEnd| == |g|
    requires 1 <= i < |g| - 1 && 1 <= j < dim
  {
    var east := if j + 1 < dim then g[i][j + 1] else pastEnd[i];
    Update(factor, g[i][j], g[i - 1][j], g[i][j - 1], east, g[i + 1][j])
  }

  /** The buffer after the sweep as written: rows 1 .. |g|-2 and columns
      1 .. dim-1 are written, everything else keeps the buffer's value. */
  function SweepAsWritten(factor: real, g: Grid, b: Grid, dim: nat, pastEnd: Row): (r: Grid)
    requires IsRect(g, |g|, dim) && IsRect(b, |g|, dim) && |pastEnd| == |g|
    ensures IsRect(r, |g|, dim)
  {
    seq(|g|, i requires 0 <= i < |g| => seq(dim, j requires 0 <= j < dim =>
      if 1 <= i < |g| - 1 && 1 <= j then SweepCell(factor, g, dim, pastEnd, i, j) else b[i][j]))
  }

  /** The sweep loops of a step: for i in 1 .. nRows and j in 1 .. dim-1 the
      buffer cell gets the update of the grid. */
  method Sweep(factor: real, grid: Grid, buffer: Grid, dim: nat, pastEnd: Row) returns (next: Grid)
    requires IsRect(grid, |grid|, dim) && IsRect(buffer, |grid|, dim) && |pastEnd| == |grid|
    ensures next == SweepAsWritten(factor, grid, buffer, dim, pastEnd)
  {
    var rows := |grid|;
    var iMax := rows - 1;
    next := buffer;
    var i := 1;
    while i < iMax
      invariant 1 <= i && (iMax < 1 || i <= iMax) && IsRect(next, rows, dim)
      invariant forall r, c :: 0 <= r < rows && 0 <= c < dim ==>
        next[r][c] == if 1 <= r < i && 1 <= c then SweepCell(factor, grid, dim, pastEnd, r, c) else buffer[r][c]
    {
      var j := 1;
      while j < dim
        invariant 1 <= j && (dim < 1 || j <= dim) && IsRect(next, rows, dim)
        invariant forall r, c :: 0 <= r < rows && 0 <= c < dim ==>
          next[r][c] == if (1 <= r < i || (r == i && c < j)) && 1 <= c
                        then SweepCell(factor, grid, dim, pastEnd, r, c) else buffer[r][c]
      {
        var east := if j + 1 < dim then grid[i][j + 1] else pastEnd[i];
        next := next[i := next[i][j := Update(factor, grid[i][j], grid[i - 1][j], grid[i][j - 1], east, grid[i + 1][j])]];
        j := j + 1;
      }
      i := i + 1;
    }
    CellsDetermineGrid(next, SweepAsWritten(factor, grid, buffer, dim, pastEnd));
  }

  /** Away from the last column the sweep is the sweep of the local field:
      cells 1 .. dim-2 of rows 1 .. |g|-2 get the kernel, and the ghost rows
      and column 0 keep the buffer's values. */
  lemma SweepMatchesInside(factor: real, g: Grid, b: Grid, dim: nat, pastEnd: Row, i: nat, j: nat)
    requires IsRect(g, |g|, dim) && IsRect(b, |g|, dim) && |pastEnd| == |g|
    requires i < |g| && j < dim - 1
    ensures SweepAsWritten(factor, g, b, dim, pastEnd)[i][j] == Diffused(factor, g, b, dim)[i][j]
  {
  }

  /** The last column is written from the value one past the end of the row:
      with a non-zero factor, two different values there give two different
      results, so the sweep depends on memory outside the field. */
  lemma SweepReadsPastEnd(factor: real, g: Grid, b: Grid, dim: nat, p: Row, q: Row, i: nat)
    requires IsRect(g, |g|, dim) && IsRect(b, |g|, dim) && |p| == |g| && |q| == |g|
    requires dim >= 2 && 1 <= i < |g| - 1
    requires factor != 0.0 && p[i] != q[i]
    ensures SweepAsWritten(factor, g, b, dim, p)[i][dim - 1] != SweepAsWritten(factor, g, b, dim, q)[i][dim - 1]
  {
    var u := g[i][dim - 1] + factor * (g[i - 1][dim - 1] + g[i][dim - 2] - 4.0 * g[i][dim - 1] + g[i + 1][dim - 1]);
    assert SweepAsWritten(factor, g, b, dim, p)[i][dim - 1] == u + factor * p[i];
    assert SweepAsWritten(factor, g, b, dim, q)[i][dim - 1] == u + factor * q[i];
    assert factor * p[i] - factor * q[i] == factor * (p[i] - q[i]);
  }

  /** The receives as written: rank 0 receives nothing from above, the last
      rank nothing from below; the row from above goes to ghost row 0, the row
      from below to row nRows, the last owned row. */
  function ExchangeAsWritten(b: Grid, nRows: nat, rank: nat, nRanks: nat, h: Halo): (r: Grid)
    requires |b| == nRows + 2
    ensures |r| == |b|
  {
    var top := if rank != 0 then b[0 := h.north] else b;
    if rank != nRanks - 1 then top[nRows := h.south] else top
  }

  /** The receives as evidently intended: the row from below goes to ghost
      row nRows+1. */
  function ExchangeCorrected(b: Grid, nRows: nat, rank: nat, nRanks: nat, h: Halo): (r: Grid)
    requires |b| == nRows + 2
    ensures |r| == |b|
  {
    var top := if rank != 0 then b[0 := h.north] else b;
    if rank != nRanks - 1 then top[nRows + 1 := h.south] else top
  }

  /** As written, a rank with a neighbour below loses its last owned row to
      the neighbour's row and never refreshes its lower ghost row. */
  lemma ExchangeOverwritesLastRow(b: Grid, nRows: nat, rank: nat, nRanks: nat, h: Halo)
    requires |b| == nRows + 2 && nRows >= 1 && rank != nRanks - 1
    ensures ExchangeAsWritten(b, nRows, rank, nRanks, h)[nRows] == h.south
    ensures ExchangeAsWritten(b, nRows, rank, nRanks, h)[nRows + 1] == b[nRows + 1]
  {
  }

  /** The corrected receives refresh exactly the ghost rows that have a
      neighbour and leave the owned rows alone. */
  lemma ExchangeCorrectedFillsGhosts(b: Grid, nRows: nat, rank: nat, nRanks: nat, h: Halo)
    requires |b| == nRows + 2
    ensures ExchangeCorrected(b, nRows, rank, nRanks, h)[0] == if rank != 0 then h.north else b[0]
    ensures ExchangeCorrected(b, nRows, rank, nRanks, h)[nRows + 1] == if rank != nRanks - 1 then h.south else b[nRows + 1]
    ensures ExchangeCorrected(b, nRows, rank, nRanks, h)[1 .. nRows + 1] == b[1 .. nRows + 1]
  {
  }

  /** The step as evidently intended: sweep rows 1 .. nRows and columns
      1 .. dim-2 of the local field, then receive the halo rows into the ghost
      rows. */
  function StepCorrected(factor: real, g: Grid, b: Grid, dim: nat, rank: nat, nRanks: nat, h: Halo): (r: Grid)
    requires |g| >= 2 && IsRect(g, |g|, dim) && IsRect(b, |g|, dim)
    ensures |r| == |g|
  {
    ExchangeCorrected(Diffused(factor, g, b, dim), |g| - 2, rank, nRanks, h)
  }

  /** The corrected step computes the rank's window of one global sweep of the
      padded field P (dim+2 rows, zero outer rows kept by the buffer Q): given
      the window of P and of Q and, as halos, the neighbours' edge rows of the
      global sweep, the buffer becomes the window of that sweep. */
  lemma {:induction false} StepCorrectedIsWindow(factor: real, P: Grid, Q: Grid, dim: nat, rowBegin: nat, nRows: nat,
                                                 rank: nat, nRanks: nat, pastEnd: Row)
    requires IsRect(P, dim + 2, dim) && IsRect(Q, dim + 2, dim) && rowBegin + nRows <= dim
    requires rank != 0 <==> rowBegin > 0
    requires rank != nRanks - 1 <==> rowBegin + nRows < dim
    ensures var R := Diffused(factor, P, Q, dim);
      StepCorrected(factor, P[rowBegin .. rowBegin + nRows + 2], Q[rowBegin .. rowBegin + nRows + 2], dim, rank, nRanks,
                    Halo(R[rowBegin], R[rowBegin + nRows + 1], pastEnd))
      == R[rowBegin .. rowBegin + nRows + 2]
  {
    var R := Diffused(factor, P, Q, dim);
    var g, b := P[rowBegin .. rowBegin + nRows + 2], Q[rowBegin .. rowBegin + nRows + 2];
    var local := Diffused(factor, g, b, dim);
    var result := ExchangeCorrected(local, nRows, rank, nRanks, Halo(R[rowBegin], R[rowBegin + nRows + 1], pastEnd));
    var window := R[rowBegin .. rowBegin + nRows + 2];
    forall p, j | 0 <= p < nRows + 2 && 0 <= j < dim
      ensures result[p][j] == window[p][j]
    {
      var q := rowBegin + p;
      if 1 <= p <= nRows {
        assert result[p] == local[p];
        if 1 <= j < dim - 1 {
          assert Interior(dim + 2, dim, q, j) && Interior(nRows + 2, dim, p, j);
          assert g[p - 1] == P[q - 1] && g[p] == P[q] && g[p + 1] == P[q + 1];
        }
      } else if p == 0 {
        if rank == 0 {
          assert !Interior(dim + 2, dim, q, j);
        }
      } else {
        if rank == nRanks - 1 {
          assert !Interior(dim + 2, dim, q, j);
        }
      }
    }
    CellsDetermineGrid(result, window);
  }

  /** With at least as many rows as ranks every band is non-empty, so exactly
      the first rank starts at row 0 and exactly the last ends at row dim. */
  lemma NeighboursMatchBands(dim: nat, rank: nat, nRanks: nat)
    requires rank < nRanks && nRanks <= dim
    ensures OwnedRows(dim, rank, nRanks) >= 1
    ensures rank != 0 <==> BandBegin(dim, rank, nRanks) > 0
    ensures rank != nRanks - 1 <==> BandBegin(dim, rank + 1, nRanks) < dim
  {
    BeginEnds(dim, nRanks);
    DivMonotone(nRanks, dim, nRanks);
    DivUnique(nRanks, nRanks, 1, 0);
    BandSize(dim, rank, nRanks);
    if rank > 0 {
      BandSize(dim, 0, nRanks);
      BeginMonotone(dim, 1, rank, nRanks);
    }
    if rank < nRanks - 1 {
      BandSize(dim, nRanks - 1, nRanks);
      BeginMonotone(dim, rank + 1, nRanks - 1, nRanks);
    }
  }

  /** The local (grid, buffer) pair after n steps as written, with `halos(m)`
      received in step m. */
  function LocalEvolve(factor: real, g0: Grid, dim: nat, rank: nat, nRanks: nat, halos: nat -> Halo, n: nat): (s: (Grid, Grid))
    requires |g0| >= 2 && IsRect(g0, |g0|, dim)
    requires forall m :: HaloShaped(halos(m), dim, |g0|)
    ensures IsRect(s.0, |g0|, dim) && IsRect(s.1, |g0|, dim)
  {
    if n == 0 then (g0, g0)
    else
      var prev := LocalEvolve(factor, g0, dim, rank, nRanks, halos, n - 1);
      var h := halos(n - 1);
      var swept := SweepAsWritten(factor, prev.0, prev.1, dim, h.pastEnd);
      (ExchangeAsWritten(swept, |g0| - 2, rank, nRanks, h), prev.0)
  }

  /** Column 0 of the owned rows 1 .. nRows-1, which no halo overwrites, keeps
      its seed value in the grid and in the buffer. */
  lemma {:induction false} FirstColumnKept(factor: real, g0: Grid, dim: nat, rank: nat, nRanks: nat,
                                           halos: nat -> Halo, n: nat, i: nat)
    requires |g0| >= 2 && IsRect(g0, |g0|, dim) && dim >= 1
    requires forall m :: HaloShaped(halos(m), dim, |g0|)
    requires 1 <= i < |g0| - 2
    ensures LocalEvolve(factor, g0, dim, rank, nRanks, halos, n).0[i][0] == g0[i][0]
    ensures LocalEvolve(factor, g0, dim, rank, nRanks, halos, n).1[i][0] == g0[i][0]
  {
    if n > 0 {
      FirstColumnKept(factor, g0, dim, rank, nRanks, halos, n - 1, i);
    }
  }

  /** One step before the swap: the sweep, then the receive from the rank
      above into row 0 and the receive from the rank below into row nRows. */
  method Step(factor: real, grid: Grid, buffer: Grid, dim: nat, nRows: nat, rank: nat, nRanks: nat, h: Halo)
    returns (next: Grid)
    requires |grid| == nRows + 2 && IsRect(grid, |grid|, dim) && IsRect(buffer, |grid|, dim)
    requires HaloShaped(h, dim, |grid|)
    ensures next == ExchangeAsWritten(SweepAsWritten(factor, grid, buffer, dim, h.pastEnd), nRows, rank, nRanks, h)
  {
    next := Sweep(factor, grid, buffer, dim, h.pastEnd);
    if rank != 0 {
      next := next[0 := h.north];
    }
    if rank != nRanks - 1 {
      next := next[nRows := h.south];
    }
  }

  /** The field a rank holds after n steps. */
  function MpiField(dim: nat, d: real, dt: real, rank: nat, nRanks: nat, halos: nat -> Halo, n: nat): Grid
    requires rank < nRanks
    requires forall m :: HaloShaped(halos(m), dim, OwnedRows(dim, rank, nRanks) + 2)
  {
    var nRows := OwnedRows(dim, rank, nRanks);
    LocalEvolve(Factor(d, dt, dim), LocalSeed(dim, BandBegin(dim, rank, nRanks), nRows), dim, rank, nRanks, halos, n).0
  }

  /** `DiffusionMPI(dim, d, dt, snapshots)` on rank `rank` of `nRanks`, with
      `halos(n)` the rows received in step n: snapshot k is the padded local
      field after the k-th capture step, ghost rows included. */
  method DiffusionMPI(dim: nat, d: real, dt: real, snapshots: seq<real>, rank: nat, nRanks: nat, halos: nat -> Halo)
    returns (output: seq<Grid>)
    requires rank < nRanks && dt > 0.0 && |snapshots| > 0
    requires dim * nRanks < WordSize
    requires forall m :: HaloShaped(halos(m), dim, OwnedRows(dim, rank, nRanks) + 2)
    ensures |output| == |snapshots|
    ensures forall k :: 0 <= k < |snapshots| ==>
      IsRect(output[k], OwnedRows(dim, rank, nRanks) + 2, dim) &&
      output[k] == MpiField(dim, d, dt, rank, nRanks, halos, Captures(snapshots, dt, 0)[k])
  {
    // The unsigned products of lines 20-21; they do not wrap here.
    var rowBegin := (dim * rank % WordSize) / nRanks;
    var rowEnd := (dim * (rank + 1) % WordSize) / nRanks;
    U32BeginAgrees(dim, rank, nRanks);
    U32BeginAgrees(dim, rank + 1, nRanks);
    BeginMonotone(dim, rank, rank + 1, nRanks);
    var nRows := rowEnd - rowBegin;
    assert nRows == OwnedRows(dim, rank, nRanks);
    var grid := InitializeLocal(dim, rowBegin, nRows);
    var buffer := grid;
    output := seq(|snapshots|, _ => []);
    var factor := Factor(d, dt, dim);
    var t := 0.0;
    var idx := 0;
    ghost var seed := grid;
    ghost var caps := Captures(snapshots, dt, 0);
    // The number of steps taken, which selects the rows received next.
    var n: nat := 0;
    while true
      invariant 0 <= idx < |snapshots| && |output| == |snapshots|
      invariant t == TimeAt(n, dt)
      invariant SearchStart(caps, 0, idx) <= n <= caps[idx]
      invariant grid == LocalEvolve(factor, seed, dim, rank, nRanks, halos, n).0
      invariant buffer == LocalEvolve(factor, seed, dim, rank, nRanks, halos, n).1
      invariant forall k :: 0 <= k < idx ==> output[k] == LocalEvolve(factor, seed, dim, rank, nRanks, halos, caps[k]).0
      decreases |snapshots| - idx, caps[idx] - n
    {
      var next;
      output, next, t, grid, buffer :=
        RowIteration(factor, dt, snapshots, dim, nRows, rank, nRanks, halos, seed, output, idx, t, n, grid, buffer);
      if next == |snapshots| {
        break;
      }
      idx := next;
      n := n + 1;
    }
  }

  /** One pass of the main loop (lines 48-89): capture the grid if the next
      requested time is due; then, unless that was the last one, step and
      swap grid and buffer. */
  method RowIteration(factor: real, dt: real, snapshots: seq<real>, dim: nat, nRows: nat, rank: nat, nRanks: nat,
                      halos: nat -> Halo, ghost seed: Grid, output: seq<Grid>, idx: nat, t: real, n: nat,
                      grid: Grid, buffer: Grid)
    returns (captured: seq<Grid>, next: nat, t': real, grid': Grid, buffer': Grid)
    requires |seed| == nRows + 2 && IsRect(seed, |seed|, dim)
    requires forall m :: HaloShaped(halos(m), dim, |seed|)
    requires dt > 0.0 && idx < |snapshots| && |output| == |snapshots|
    requires t == TimeAt(n, dt)
    requires SearchStart(Captures(snapshots, dt, 0), 0, idx) <= n <= Captures(snapshots, dt, 0)[idx]
    requires (grid, buffer) == LocalEvolve(factor, seed, dim, rank, nRanks, halos, n)
    requires forall k :: 0 <= k < idx ==>
      output[k] == LocalEvolve(factor, seed, dim, rank, nRanks, halos, Captures(snapshots, dt, 0)[k]).0
    ensures next == if n == Captures(snapshots, dt, 0)[idx] then idx + 1 else idx
    ensures |captured| == |snapshots|
    ensures forall k :: 0 <= k < next ==>
      captured[k] == LocalEvolve(factor, seed, dim, rank, nRanks, halos, Captures(snapshots, dt, 0)[k]).0
    ensures next < |snapshots| ==>
      && t' == TimeAt(n + 1, dt)
      && SearchStart(Captures(snapshots, dt, 0), 0, next) <= n + 1 <= Captures(snapshots, dt, 0)[next]
      && (grid', buffer') == LocalEvolve(factor, seed, dim, rank, nRanks, halos, n + 1)
  {
    DueNowIsCapture(snapshots, dt, idx, n);
    captured, next := output, idx;
    if t >= snapshots[idx] {
      captured := captured[idx := grid];
      next := idx + 1;
    }
    t', grid', buffer' := t, grid, buffer;
    if next < |snapshots| {
      if next > idx {
        CapturesOrdered(snapshots, dt, 0, next);
      }
      buffer' := Step(factor, grid, buffer, dim, nRows, rank, nRanks, halos(n));
      grid', buffer' := buffer', grid;
      t' := t + dt;
    }
  }
}
