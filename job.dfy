/** `DiffusionJob`: one thread's band of rows. The band owns its field and a
    buffer; a step sweeps the band into the buffer, using the last row of the
    band above and the first row of the band below as outside neighbours when
    they exist, and the buffer is then swapped in. */
module Jobs {
  import opened Grids
  import opened Seeds
  import opened Wrappers

  /** The band seeded by `DiffusionJob(rows, cols, rowOffset)`: row i is
      global row rowOffset + i of the disc. */
  function DiscBand(rows: nat, cols: nat, rowOffset: int): (g: Grid)
    ensures IsRect(g, rows, cols)
  {
    seq(rows, i => seq(cols, j => Indicator(InDisc(cols, rowOffset + i, j))))
  }

  /** An `unsigned` value converted to a 32-bit `int`: values from 2^31 on
      become negative. */
  function AsSigned(x: nat): (r: int)
    requires x < 0x1_0000_0000
    ensures r < 0x8000_0000 && r % 0x1_0000_0000 == x
    ensures r >= 0 <==> x < 0x8000_0000
  {
    if x < 0x8000_0000 then x else x - 0x1_0000_0000
  }

  /** What `DiffusionJob(rows, cols, rowOffset)` fills in: the loops run to
      `int` copies of rows and cols, so when either is 2^31 or more no cell
      is set and the band stays all zeros. */
  function JobSeed(rows: nat, cols: nat, rowOffset: int): (g: Grid)
    ensures IsRect(g, rows, cols)
  {
    if rows < 0x8000_0000 && cols < 0x8000_0000 then DiscBand(rows, cols, rowOffset) else Zeros(rows, cols)
  }

  /** The factor a worker computes: `dt/(ds*ds)` with `ds = 2/cols`. The
      diffusion constant does not appear. */
  function JobFactor(dt: real, cols: nat): real {
    dt * (cols as real * cols as real) / 4.0
  }

  /** The worker factor is the solver factor for d = 1 only: with d = 2,
      dt = 1 and 2 columns it is 1 where the intended factor is 2. */
  lemma JobFactorIgnoresD(d: real, dt: real, cols: nat)
    ensures JobFactor(dt, cols) == Factor(1.0, dt, cols)
    ensures Factor(d, dt, cols) == d * JobFactor(dt, cols)
    ensures JobFactor(1.0, 2) == 1.0 && Factor(2.0, 1.0, 2) == 2.0
  {
    assert d * dt * (cols as real * cols as real) == d * (dt * (cols as real * cols as real));
  }

  /** The cell a band step writes at (i, j), or `None` where the buffer is left
      alone: columns 1 .. cols-2 of row 0 with the row above as north
      neighbour, of rows 1 .. rows-2 from the band alone, and of the last row
      with the row below as south neighbour. */
  function BandCell(factor: real, g: Grid, cols: nat, above: Option<Row>, below: Option<Row>, i: nat, j: nat): Option<real>
    requires IsRect(g, |g|, cols) && i < |g| && j < cols
    requires above.Some? ==> |above.value| == cols && |g| >= 2
    requires below.Some? ==> |below.value| == cols && |g| >= 2
  {
    if !(1 <= j < cols - 1) then None
    else if i == 0 && above.Some? then
      Some(Update(factor, g[0][j], above.value[j], g[0][j - 1], g[0][j + 1], g[1][j]))
    else if 1 <= i < |g| - 1 then Some(Kernel(factor, g, i, j))
    else if i == |g| - 1 && below.Some? then
      Some(Update(factor, g[i][j], g[i - 1][j], g[i][j - 1], g[i][j + 1], below.value[j]))
    else None
  }

  /** The buffer after one band step. */
  function BandNext(factor: real, g: Grid, b: Grid, cols: nat, above: Option<Row>, below: Option<Row>): (r: Grid)
    requires IsRect(g, |g|, cols) && IsRect(b, |g|, cols)
    requires above.Some? ==> |above.value| == cols && |g| >= 2
    requires below.Some? ==> |below.value| == cols && |g| >= 2
    ensures IsRect(r, |g|, cols)
  {
    seq(|g|, i requires 0 <= i < |g| => seq(cols, j requires 0 <= j < cols =>
      var w := BandCell(factor, g, cols, above, below, i, j);
      if w.Some? then w.value else b[i][j]))
  }

  /** A band step never writes the first or last column, writes the first row
      only with a row above and the last row only with a row below. */
  lemma BandNextWrites(factor: real, g: Grid, b: Grid, cols: nat, above: Option<Row>, below: Option<Row>, i: nat, j: nat)
    requires IsRect(g, |g|, cols) && IsRect(b, |g|, cols)
    requires above.Some? ==> |above.value| == cols && |g| >= 2
    requires below.Some? ==> |below.value| == cols && |g| >= 2
    requires i < |g| && j < cols
    requires j == 0 || j == cols - 1 || (i == 0 && above.None?) || (i == |g| - 1 && below.None?)
    ensures BandNext(factor, g, b, cols, above, below)[i][j] == b[i][j]
  {
  }

  /** A band step is the global sweep restricted to the band: given the row
      above and the row below the band in the global field as outside
      neighbours, it computes exactly the rows lo .. lo+h-1 of the global
      sweep, which keeps the global first and last rows. */
  lemma BandStepIsGlobalStep(factor: real, g: Grid, b: Grid, cols: nat, lo: nat, h: nat)
    requires IsRect(g, |g|, cols) && IsRect(b, |g|, cols)
    requires h >= 1 && lo + h <= |g|
    requires (lo > 0 || lo + h < |g|) ==> h >= 2
    ensures BandNext(factor, g[lo..lo + h], b[lo..lo + h], cols,
                     if lo > 0 then Some(g[lo - 1]) else None,
                     if lo + h < |g| then Some(g[lo + h]) else None)
         == Diffused(factor, g, b, cols)[lo..lo + h]
  {
    var up: Option<Row> := if lo > 0 then Some(g[lo - 1]) else None;
    var down: Option<Row> := if lo + h < |g| then Some(g[lo + h]) else None;
    var local := BandNext(factor, g[lo..lo + h], b[lo..lo + h], cols, up, down);
    var full := Diffused(factor, g, b, cols);
    var global := full[lo..lo + h];
    forall i | 0 <= i < h
      ensures |global[i]| == cols && global[i] == full[lo + i]
    {
    }
    forall i, j | 0 <= i < h && 0 <= j < cols
      ensures local[i][j] == global[i][j]
    {
      BandCellIsGlobalCell(factor, g, b, cols, lo, h, i, j);
    }
    CellsDetermineGrid(local, global);
  }

  /** One cell of `BandStepIsGlobalStep`. */
  lemma BandCellIsGlobalCell(factor: real, g: Grid, b: Grid, cols: nat, lo: nat, h: nat, i: nat, j: nat)
    requires IsRect(g, |g|, cols) && IsRect(b, |g|, cols)
    requires h >= 1 && lo + h <= |g|
    requires (lo > 0 || lo + h < |g|) ==> h >= 2
    requires i < h && j < cols
    ensures BandNext(factor, g[lo..lo + h], b[lo..lo + h], cols,
                     if lo > 0 then Some(g[lo - 1]) else None,
                     if lo + h < |g| then Some(g[lo + h]) else None)[i][j]
         == Diffused(factor, g, b, cols)[lo + i][j]
  {
    var band := g[lo..lo + h];
    var up: Option<Row> := if lo > 0 then Some(g[lo - 1]) else None;
    var down: Option<Row> := if lo + h < |g| then Some(g[lo + h]) else None;
    var r := lo + i;
    assert Diffused(factor, g, b, cols)[r][j] == if Interior(|g|, cols, r, j) then Kernel(factor, g, r, j) else b[r][j];
    if 1 <= j < cols - 1 {
      if i == 0 && up.Some? {
        assert Interior(|g|, cols, r, j);
      } else if 1 <= i < h - 1 {
        assert Interior(|g|, cols, r, j);
        assert band[i - 1] == g[r - 1] && band[i + 1] == g[r + 1] && band[i] == g[r];
      } else if i == h - 1 && down.Some? {
        assert Interior(|g|, cols, r, j);
      } else {
        assert !Interior(|g|, cols, r, j);
      }
    }
  }

  /** The top-row loop of a band step: columns 1 .. cols-2 of row 0, with
      the last row of the band above as north neighbour. */
  method SweepTopRow(factor: real, g: Grid, b: Grid, cols: nat, aboveRow: Row, ghost down: Option<Row>) returns (next: Grid)
    requires IsRect(g, |g|, cols) && IsRect(b, |g|, cols) && |g| >= 2 && |aboveRow| == cols
    requires down.Some? ==> |down.value| == cols
    ensures IsRect(next, |g|, cols)
    ensures forall r, c :: 0 <= r < |g| && 0 <= c < cols ==>
      next[r][c] == if r == 0 then BandNext(factor, g, b, cols, Some(aboveRow), down)[r][c] else b[r][c]
  {
    ghost var target := BandNext(factor, g, b, cols, Some(aboveRow), down);
    next := b;
    var j := 1;
    while j < cols - 1
      invariant 1 <= j && (cols < 2 || j <= cols - 1) && IsRect(next, |g|, cols)
      invariant forall r, c :: 0 <= r < |g| && 0 <= c < cols ==>
        next[r][c] == if r == 0 && 1 <= c < j then target[r][c] else b[r][c]
    {
      next := next[0 := next[0][j := Update(factor, g[0][j], aboveRow[j], g[0][j - 1], g[0][j + 1], g[1][j])]];
      j := j + 1;
    }
  }

  /** The loop over the inner rows 1 .. rows-2 of a band step, continuing
      from `start`, in which only the top row may have been written. */
  method SweepInnerRows(factor: real, g: Grid, b: Grid, cols: nat, ghost up: Option<Row>, ghost down: Option<Row>, start: Grid)
    returns (next: Grid)
    requires IsRect(g, |g|, cols) && IsRect(b, |g|, cols) && IsRect(start, |g|, cols) && |g| >= 1
    requires up.Some? ==> |up.value| == cols && |g| >= 2
    requires down.Some? ==> |down.value| == cols && |g| >= 2
    requires forall r, c :: 0 <= r < |g| && 0 <= c < cols ==>
      start[r][c] == if r == 0 && up.Some? then BandNext(factor, g, b, cols, up, down)[r][c] else b[r][c]
    ensures IsRect(next, |g|, cols)
    ensures forall r, c :: 0 <= r < |g| && 0 <= c < cols ==>
      next[r][c] == if (r == 0 && up.Some?) || 1 <= r < |g| - 1 then BandNext(factor, g, b, cols, up, down)[r][c] else b[r][c]
  {
    ghost var target := BandNext(factor, g, b, cols, up, down);
    next := start;
    var i := 1;
    while i < |g| - 1
      invariant 1 <= i && (|g| < 2 || i <= |g| - 1) && IsRect(next, |g|, cols)
      invariant forall r, c :: 0 <= r < |g| && 0 <= c < cols ==>
        next[r][c] == if (r == 0 && up.Some?) || 1 <= r < i then target[r][c] else b[r][c]
    {
      var j := 1;
      while j < cols - 1
        invariant 1 <= j && (cols < 2 || j <= cols - 1) && IsRect(next, |g|, cols)
        invariant forall r, c :: 0 <= r < |g| && 0 <= c < cols ==>
          next[r][c] == if (r == 0 && up.Some?) || 1 <= r < i || (r == i && c < j) then target[r][c] else b[r][c]
      {
        next := next[i := next[i][j := Kernel(factor, g, i, j)]];
        j := j + 1;
      }
      i := i + 1;
    }
  }

  /** The bottom-row loop of a band step: columns 1 .. cols-2 of the last
      row, with the first row of the band below as south neighbour. */
  method SweepBottomRow(factor: real, g: Grid, b: Grid, cols: nat, ghost up: Option<Row>, belowRow: Row, start: Grid)
    returns (next: Grid)
    requires IsRect(g, |g|, cols) && IsRect(b, |g|, cols) && IsRect(start, |g|, cols) && |g| >= 2
    requires up.Some? ==> |up.value| == cols
    requires |belowRow| == cols
    requires forall r, c :: 0 <= r < |g| && 0 <= c < cols ==>
      start[r][c] == if (r == 0 && up.Some?) || 1 <= r < |g| - 1 then BandNext(factor, g, b, cols, up, Some(belowRow))[r][c] else b[r][c]
    ensures IsRect(next, |g|, cols)
    ensures forall r, c :: 0 <= r < |g| && 0 <= c < cols ==>
      next[r][c] == if (r == 0 && up.Some?) || 1 <= r then BandNext(factor, g, b, cols, up, Some(belowRow))[r][c] else b[r][c]
  {
    ghost var target := BandNext(factor, g, b, cols, up, Some(belowRow));
    var iEnd := |g| - 1;
    next := start;
    var j := 1;
    while j < cols - 1
      invariant 1 <= j && (cols < 2 || j <= cols - 1) && IsRect(next, |g|, cols)
      invariant forall r, c :: 0 <= r < |g| && 0 <= c < cols ==>
        next[r][c] == if (r == 0 && up.Some?) || 1 <= r < iEnd || (r == iEnd && c < j) then target[r][c] else b[r][c]
    {
      next := next[iEnd := next[iEnd][j := Update(factor, g[iEnd][j], g[iEnd - 1][j], g[iEnd][j - 1], g[iEnd][j + 1], belowRow[j])]];
      j := j + 1;
    }
  }

  class DiffusionJob {
    var grid: Grid
    var buffer: Grid

    /** The band and the buffer have `rows` rows of `cols` cells. */
    ghost predicate Shaped(rows: nat, cols: nat)
      reads this
    {
      IsRect(grid, rows, cols) && IsRect(buffer, rows, cols)
    }

    /** `DiffusionJob(rows, cols, rowOffset)`, rows and cols being
        `unsigned`: the buffer is copied from the band while the band is
        still all zeros, and only then is the disc filled in, so the buffer
        starts as zeros. The fill loops run to `iEnd = rows` and
        `dimSigned = cols`, both `int`. */
    constructor (rows: nat, cols: nat, rowOffset: int)
      requires rows < 0x1_0000_0000 && cols < 0x1_0000_0000
      ensures grid == JobSeed(rows, cols, rowOffset)
      ensures buffer == Zeros(rows, cols)
    {
      grid := Zeros(rows, cols);
      buffer := grid;
      new;
      var iEnd := AsSigned(rows);
      var dimSigned := AsSigned(cols);
      var i := 0;
      while i < iEnd
        invariant 0 <= i && (i <= iEnd || i == 0) && IsRect(grid, rows, cols) && buffer == Zeros(rows, cols)
        invariant forall r, c :: 0 <= r < rows && 0 <= c < cols ==>
          grid[r][c] == Indicator(r < i && c < dimSigned && InDisc(cols, rowOffset + r, c))
      {
        var j := 0;
        while j < dimSigned
          invariant 0 <= j && (j <= dimSigned || j == 0) && IsRect(grid, rows, cols) && buffer == Zeros(rows, cols)
          invariant forall r, c :: 0 <= r < rows && 0 <= c < cols ==>
            grid[r][c] == Indicator((r < i || (r == i && c < j)) && c < dimSigned && InDisc(cols, rowOffset + r, c))
        {
          grid := grid[i := grid[i][j := Indicator(InDisc(cols, rowOffset + i, j))]];
          j := j + 1;
        }
        i := i + 1;
      }
      CellsDetermineGrid(grid, JobSeed(rows, cols, rowOffset));
    }

    /** The first row of the band, read by the band above. */
    function FirstRow(): Row
      reads this
      requires |grid| > 0
    {
      grid[0]
    }

    /** The last row of the band, read by the band below. */
    function LastRow(): Row
      reads this
      requires |grid| > 0
    {
      grid[|grid| - 1]
    }

    /** The row a neighbour contributes: the last row of the band above or
        the first row of the band below, or nothing without a neighbour. */
    static function Edge(job: DiffusionJob?, fromAbove: bool): Option<Row>
      reads job
      requires job != null ==> |job.grid| > 0
    {
      if job == null then None
      else if fromAbove then Some(job.LastRow())
      else Some(job.FirstRow())
    }

    /** The step part of `RunDiffusion`: the top row when there is a band
        above, the inner rows, then the bottom row when there is a band below,
        each over columns 1 .. cols-2. The band itself is only read. */
    method Step(factor: real, above: DiffusionJob?, below: DiffusionJob?)
      requires |grid| > 0 && Shaped(|grid|, |grid[0]|)
      requires above != null ==> above != this && |above.grid| > 0 && |above.LastRow()| == |grid[0]| && |grid| >= 2
      requires below != null ==> below != this && |below.grid| > 0 && |below.FirstRow()| == |grid[0]| && |grid| >= 2
      modifies this
      ensures grid == old(grid)
      ensures buffer == BandNext(factor, grid, old(buffer), |grid[0]|, Edge(above, true), Edge(below, false))
    {
      var cols := |grid[0]|;
      ghost var up, down := Edge(above, true), Edge(below, false);
      ghost var target := BandNext(factor, grid, buffer, cols, up, down);
      var next := buffer;
      if above != null {
        next := SweepTopRow(factor, grid, buffer, cols, above.LastRow(), down);
      }
      next := SweepInnerRows(factor, grid, buffer, cols, up, down, next);
      if below != null {
        next := SweepBottomRow(factor, grid, buffer, cols, up, below.FirstRow(), next);
      }
      CellsDetermineGrid(next, target);
      buffer := next;
    }

    /** `grid_.swap(buffer_)`. */
    method Swap()
      modifies this
      ensures grid == old(buffer) && buffer == old(grid)
    {
      grid, buffer := buffer, grid;
    }

    /** `Allocate(cols, rowBegin, rowEnd)` forwards its arguments in order to
        the constructor, whose parameters are (rows, cols, rowOffset): the
        first becomes the row count, the second (converted to unsigned) the
        column count, the third the row offset. */
    static method Allocate(cols: nat, rowBegin: int, rowEnd: int) returns (job: DiffusionJob)
      requires cols < 0x1_0000_0000
      ensures fresh(job)
      ensures job.grid == JobSeed(cols, rowBegin % 0x1_0000_0000, rowEnd)
      ensures job.buffer == Zeros(cols, rowBegin % 0x1_0000_0000)
    {
      job := new DiffusionJob(cols, rowBegin % 0x1_0000_0000, rowEnd);
    }
  }

  /** In a one-row band the first and the last row are the same row. */
  lemma OneRowBandEdges(job: DiffusionJob)
    requires |job.grid| == 1
    ensures job.FirstRow() == job.LastRow()
  {
  }
}
