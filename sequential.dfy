/** `DiffusionSequential`: one dim x dim field seeded with an inclusive square,
    swept into a buffer and swapped once per time step, with snapshots taken
    on the shared schedule. */
module Sequential {
  import opened Grids
  import opened Seeds
  import opened Schedule

  /** The field `InitializeGrid(dim)` returns. */
  function SquareSeed(dim: nat): (g: Grid)
    ensures IsRect(g, dim, dim)
  {
    seq(dim, i => seq(dim, j => Indicator(InInclusiveSquare(dim, i, j))))
  }

  /** Allocates a dim x dim field of zeros and sets the cells of the inclusive
      square to 1. */
  method InitializeGrid(dim: nat) returns (grid: Grid)
    ensures IsRect(grid, dim, dim)
    ensures forall i, j :: 0 <= i < dim && 0 <= j < dim ==>
      grid[i][j] == Indicator(InInclusiveSquare(dim, i, j))
    ensures grid == SquareSeed(dim)
  {
    grid := Zeros(dim, dim);
    var begin := dim / 4;
    var end := dim - begin;
    for i := begin to end
      invariant IsRect(grid, dim, dim)
      invariant forall r, c :: 0 <= r < dim && 0 <= c < dim ==>
        grid[r][c] == Indicator(r < i && InInclusiveSquare(dim, r, c))
    {
      for j := begin to end
        invariant IsRect(grid, dim, dim)
        invariant forall r, c :: 0 <= r < dim && 0 <= c < dim ==>
          grid[r][c] == Indicator((r < i || (r == i && c < j)) && InInclusiveSquare(dim, r, c))
      {
        grid := grid[i := grid[i][j := 1.0]];
      }
    }
    CellsDetermineGrid(grid, SquareSeed(dim));
  }

  /** One sweep of the stencil over rows and columns 1 .. |grid|-2 (the grid is
      square): the returned buffer is `buffer` with exactly those cells
      replaced by the kernel of `grid`. */
  method Diffuse(factor: real, grid: Grid, buffer: Grid) returns (next: Grid)
    requires IsRect(grid, |grid|, |grid|) && IsRect(buffer, |grid|, |grid|)
    ensures next == Diffused(factor, grid, buffer, |grid|)
  {
    var size := |grid|;
    var iEnd := size - 1;
    next := buffer;
    var i := 1;
    while i < iEnd
      invariant 1 <= i && (iEnd < 1 || i <= iEnd)
      invariant IsRect(next, size, size)
      invariant forall r, c :: 0 <= r < size && 0 <= c < size ==>
        next[r][c] == if r < i && Interior(size, size, r, c) then Kernel(factor, grid, r, c) else buffer[r][c]
    {
      var j := 1;
      while j < iEnd
        invariant 1 <= j <= iEnd
        invariant IsRect(next, size, size)
        invariant forall r, c :: 0 <= r < size && 0 <= c < size ==>
          next[r][c] == if (r < i || (r == i && c < j)) && Interior(size, size, r, c)
                        then Kernel(factor, grid, r, c) else buffer[r][c]
      {
        next := next[i := next[i][j := Kernel(factor, grid, i, j)]];
        j := j + 1;
      }
      i := i + 1;
    }
    CellsDetermineGrid(next, Diffused(factor, grid, buffer, size));
  }

  /** The field the sequential solver holds after n steps. */
  function SequentialField(dim: nat, d: real, dt: real, n: nat): Grid {
    Evolve(Factor(d, dt, dim), SquareSeed(dim), SquareSeed(dim), dim, n).0
  }

  /** The solver loop: at the top of each iteration the field is captured
      when the time has reached the next request, and the loop ends right
      after the last capture; otherwise the field is swept into the buffer,
      the two are swapped and the time advances by dt. Snapshot k is the field
      after the step count of the k-th capture. */
  method DiffusionSequential(dim: nat, d: real, dt: real, snapshots: seq<real>) returns (output: seq<Grid>)
    requires dt > 0.0 && |snapshots| > 0
    ensures |output| == |snapshots|
    ensures forall k :: 0 <= k < |snapshots| ==>
      output[k] == SequentialField(dim, d, dt, Captures(snapshots, dt, 0)[k])
  {
    var grid := InitializeGrid(dim);
    output := seq(|snapshots|, _ => Zeros(dim, dim));
    var t := 0.0;
    var factor := Factor(d, dt, dim);
    var idx := 0;
    var buffer := grid;
    ghost var seed := grid;
    ghost var n: nat := 0;
    ghost var caps := Captures(snapshots, dt, 0);
    while true
      invariant 0 <= idx < |snapshots| && |output| == |snapshots|
      invariant t == TimeAt(n, dt)
      invariant SearchStart(caps, 0, idx) <= n <= caps[idx]
      invariant grid == Evolve(factor, seed, seed, dim, n).0
      invariant buffer == Evolve(factor, seed, seed, dim, n).1
      invariant forall k :: 0 <= k < idx ==> output[k] == Evolve(factor, seed, seed, dim, caps[k]).0
      decreases |snapshots| - idx, caps[idx] - n
    {
      DueNowIsCapture(snapshots, dt, idx, n);
      if t >= snapshots[idx] {
        output := output[idx := grid];
        idx := idx + 1;
        if idx == |snapshots| {
          break;
        }
        CapturesOrdered(snapshots, dt, 0, idx);
      }
      buffer := Diffuse(factor, grid, buffer);
      grid, buffer := buffer, grid;
      t := t + dt;
      n := n + 1;
    }
  }

  /** For dim >= 4 the outer ring of every snapshot is 0: the buffer starts as
      a copy of the seed, sweeps never write the ring, and the seed is 0 there. */
  lemma SequentialBorderZero(dim: nat, d: real, dt: real, n: nat, i: nat, j: nat)
    requires dim >= 4 && i < dim && j < dim
    requires i == 0 || i == dim - 1 || j == 0 || j == dim - 1
    ensures SequentialField(dim, d, dt, n)[i][j] == 0.0
  {
    EvolveKeepsBorder(Factor(d, dt, dim), SquareSeed(dim), SquareSeed(dim), dim, n, i, j);
    InclusiveSquareOffBorder(dim, i, j);
  }

  /** A first request at or before time 0 yields the seed itself. */
  lemma FirstSnapshotIsSeed(dim: nat, d: real, dt: real, snapshots: seq<real>)
    requires dt > 0.0 && |snapshots| > 0 && snapshots[0] <= 0.0
    ensures SequentialField(dim, d, dt, Captures(snapshots, dt, 0)[0]) == SquareSeed(dim)
  {
    FirstCaptureAtStart(snapshots, dt);
  }
}
