/** Fields of cell values (`Row_t`, `Grid_t`) and the five-point explicit
    stencil shared by every variant of the heat-diffusion solver. Cell values
    are reals: no claim is made about floating-point rounding. */
module Grids {
  import opened Arith

  type Row = seq<real>
  type Grid = seq<Row>

  /** `g` holds `rows` rows of `cols` cells each. */
  predicate IsRect(g: Grid, rows: nat, cols: nat) {
    |g| == rows && forall i :: 0 <= i < rows ==> |g[i]| == cols
  }

  /** Two grids of the same shape. */
  predicate SameShape(g: Grid, b: Grid) {
    |g| == |b| && forall i :: 0 <= i < |g| ==> |g[i]| == |b[i]|
  }

  /** A bool stored into a float cell: 1 when set, 0 otherwise. */
  function Indicator(b: bool): real {
    if b then 1.0 else 0.0
  }

  /** A grid of `rows` x `cols` zeros, as `Grid_t(rows, Row_t(cols))` builds it. */
  function Zeros(rows: nat, cols: nat): (g: Grid)
    ensures IsRect(g, rows, cols)
    ensures forall i, j :: 0 <= i < rows && 0 <= j < cols ==> g[i][j] == 0.0
  {
    seq(rows, _ => seq(cols, _ => 0.0))
  }

  /** Two grids of the same shape with the same cells are equal. */
  lemma {:induction false} CellsDetermineGrid(a: Grid, b: Grid)
    requires SameShape(a, b)
    requires forall i, j :: 0 <= i < |a| && 0 <= j < |a[i]| ==> a[i][j] == b[i][j]
    ensures a == b
  {
    forall i | 0 <= i < |a|
      ensures a[i] == b[i]
    {
      assert forall j :: 0 <= j < |a[i]| ==> a[i][j] == b[i][j];
    }
  }

  /** The diffusion factor `d*dt/(ds*ds)` with spacing `ds = 2/dim`, written
      without the division so that `dim == 0` gives the factor 0 that the
      float code computes from an infinite spacing. */
  function Factor(d: real, dt: real, dim: nat): real {
    d * dt * (dim as real * dim as real) / 4.0
  }

  /** For a non-empty grid, `Factor` is exactly `d*dt/(ds*ds)` with `ds = 2/dim`. */
  lemma FactorIsOverSpacingSquared(d: real, dt: real, dim: nat)
    requires dim > 0
    ensures var ds := 2.0 / dim as real; Factor(d, dt, dim) == d * dt / (ds * ds)
  {
    var n := dim as real;
    var ds := 2.0 / n;
    assert ds * n == 2.0;
    assert (ds * ds) * (n * n) == 4.0;
    calc {
      d * dt / (ds * ds);
      d * dt * ((n * n) / 4.0);
      Factor(d, dt, dim);
    }
  }

  /** The five-point update of a centre cell from its four neighbours. */
  function Update(factor: real, centre: real, north: real, west: real, east: real, south: real): real {
    centre + factor * (north + west - 4.0 * centre + east + south)
  }

  /** The five cells read around (i, j) all exist. */
  predicate StencilInBounds(g: Grid, i: int, j: int) {
    1 <= i && i + 1 < |g| && 1 <= j && j + 1 < |g[i]| && j < |g[i - 1]| && j < |g[i + 1]|
  }

  /** `DiffusionKernel(factor, grid, i, j)`. */
  function Kernel(factor: real, g: Grid, i: int, j: int): real
    requires StencilInBounds(g, i, j)
  {
    Update(factor, g[i][j], g[i - 1][j], g[i][j - 1], g[i][j + 1], g[i + 1][j])
  }

  /** With factor 0 the kernel returns the centre cell unchanged. */
  lemma KernelZeroFactor(g: Grid, i: int, j: int)
    requires StencilInBounds(g, i, j)
    ensures Kernel(0.0, g, i, j) == g[i][j]
  {
  }

  /** A uniform neighbourhood is a fixed point of the kernel. */
  lemma KernelUniform(factor: real, g: Grid, i: int, j: int, c: real)
    requires StencilInBounds(g, i, j)
    requires g[i][j] == c && g[i - 1][j] == c && g[i + 1][j] == c && g[i][j - 1] == c && g[i][j + 1] == c
    ensures Kernel(factor, g, i, j) == c
  {
  }

  /** The kernel reads only the centre and its four neighbours: two grids that
      agree on those five cells give the same value. */
  lemma KernelReadsFiveCells(factor: real, g: Grid, h: Grid, i: int, j: int)
    requires StencilInBounds(g, i, j) && StencilInBounds(h, i, j)
    requires g[i][j] == h[i][j] && g[i - 1][j] == h[i - 1][j] && g[i + 1][j] == h[i + 1][j]
    requires g[i][j - 1] == h[i][j - 1] && g[i][j + 1] == h[i][j + 1]
    ensures Kernel(factor, g, i, j) == Kernel(factor, h, i, j)
  {
  }

  /** (i, j) is an interior cell of a rows x cols grid: its four neighbours exist. */
  predicate Interior(rows: int, cols: int, i: int, j: int) {
    1 <= i < rows - 1 && 1 <= j < cols - 1
  }

  /** The buffer after one stencil sweep over a rectangular grid: every interior
      cell gets the kernel of `g`, every other cell keeps what `b` held. */
  function Diffused(factor: real, g: Grid, b: Grid, cols: nat): (r: Grid)
    requires IsRect(g, |g|, cols) && IsRect(b, |g|, cols)
    ensures IsRect(r, |g|, cols)
  {
    seq(|g|, i requires 0 <= i < |g| =>
      seq(cols, j requires 0 <= j < cols =>
        if Interior(|g|, cols, i, j) then Kernel(factor, g, i, j) else b[i][j]))
  }

  /** A sweep writes only interior cells: wherever `g` and `b` agree off the
      interior, the result agrees with both there. */
  lemma DiffusedKeepsBorder(factor: real, g: Grid, b: Grid, cols: nat, i: nat, j: nat)
    requires IsRect(g, |g|, cols) && IsRect(b, |g|, cols)
    requires i < |g| && j < cols && !Interior(|g|, cols, i, j)
    ensures Diffused(factor, g, b, cols)[i][j] == b[i][j]
  {
  }

  /** The (grid, buffer) pair after n rounds of "sweep from the grid into the
      buffer, then swap the two". */
  function Evolve(factor: real, g0: Grid, b0: Grid, cols: nat, n: nat): (s: (Grid, Grid))
    requires IsRect(g0, |g0|, cols) && IsRect(b0, |g0|, cols)
    ensures IsRect(s.0, |g0|, cols) && IsRect(s.1, |g0|, cols)
  {
    if n == 0 then (g0, b0)
    else
      var prev := Evolve(factor, g0, b0, cols, n - 1);
      (Diffused(factor, prev.0, prev.1, cols), prev.0)
  }

  /** Cells off the interior are never swept: they alternate between their
      initial grid and buffer values as the two fields are swapped. */
  lemma {:induction false} EvolveKeepsBorder(factor: real, g0: Grid, b0: Grid, cols: nat, n: nat, i: nat, j: nat)
    requires IsRect(g0, |g0|, cols) && IsRect(b0, |g0|, cols)
    requires i < |g0| && j < cols && !Interior(|g0|, cols, i, j)
    ensures Evolve(factor, g0, b0, cols, n).0[i][j] == if n % 2 == 0 then g0[i][j] else b0[i][j]
    ensures Evolve(factor, g0, b0, cols, n).1[i][j] == if n % 2 == 0 then b0[i][j] else g0[i][j]
  {
    if n > 0 {
      EvolveKeepsBorder(factor, g0, b0, cols, n - 1, i, j);
    }
  }

  /** The first row of band w of equal-height bands of h rows, counted band
      by band. It is w*h (`BandStartIsProduct`); counting keeps the band
      arithmetic linear for the verifier. */
  function BandStart(h: nat, w: nat): nat {
    if w == 0 then 0 else BandStart(h, w - 1) + h
  }

  /** Band w starts at row w*h. */
  lemma {:induction false} BandStartIsProduct(h: nat, w: nat)
    ensures BandStart(h, w) == w * h
  {
    if w > 0 {
      BandStartIsProduct(h, w - 1);
      MulAddRight(w - 1, 1, h);
    }
  }

  /** Band w of equal-height bands: rows w*h .. (w+1)*h - 1 of g. */
  function Band(g: Grid, h: nat, w: nat): Grid {
    var lo := BandStart(h, w);
    if lo + h <= |g| then g[lo .. lo + h] else []
  }

  /** A band of a rectangular field is a rectangle of h rows. */
  lemma BandIsRect(g: Grid, cols: nat, h: nat, w: nat)
    requires IsRect(g, |g|, cols) && BandStart(h, w) + h <= |g|
    ensures IsRect(Band(g, h, w), h, cols)
  {
  }

  /** Band w of nW bands ends within the nW bands. */
  lemma {:induction false} BandWithin(nW: nat, h: nat, w: nat)
    requires w < nW
    ensures BandStart(h, w) + h <= BandStart(h, nW)
    decreases nW - w
  {
    if w + 1 < nW {
      BandWithin(nW, h, w + 1);
    }
  }

  /** Where band w of nW bands of height h sits, and which neighbours it
      has: it ends within the nW bands, starts at row 0 only when it is the
      first, and ends at the last row only when it is the last. */
  lemma BandLayout(nW: nat, h: nat, w: nat)
    requires w < nW && h >= 1
    ensures BandStart(h, w) + h <= BandStart(h, nW)
    ensures BandStart(h, w) > 0 <==> w > 0
    ensures BandStart(h, w) + h < BandStart(h, nW) <==> w < nW - 1
  {
    BandWithin(nW, h, w);
    if w + 1 < nW {
      BandWithin(nW, h, w + 1);
    }
  }
}
