/** The end of `DiffusionGrid` (lines 150-206): the owned cells of every
    block are gathered across each row of the process grid into full-width
    rows, and the first rank of every process row sends those rows to the
    root, which places them band by band with a running row counter. Only
    the root returns snapshots. The gather across a process row is taken to
    concatenate the pieces in column order, as an MPI gather does in rank
    order; the transport itself is not modelled. */
module GridGather {
  import opened Arith
  import opened Grids
  import opened Partition
  import GridMpi

  /** Owned cells of local row i+1: the row without its two ghost cells
      (`cbegin() + 1 .. cend() - 1`). */
  function OwnedRow(local: Grid, i: nat): (r: Row)
    requires i + 1 < |local| && |local[i + 1]| >= 2
    ensures |r| == |local[i + 1]| - 2
    ensures forall j :: 0 <= j < |r| ==> r[j] == local[i + 1][j + 1]
  {
    local[i + 1][1 .. |local[i + 1]| - 1]
  }

  /** Pieces concatenated in order: the pieces of a row, one per rank of a
      process row, or the bands of the process rows. */
  function Joined<T>(pieces: seq<seq<T>>): seq<T> {
    if pieces == [] then [] else Joined(pieces[..|pieces| - 1]) + pieces[|pieces| - 1]
  }

  /** Piece c of widths cb[c+1] - cb[c] starts at cb[c] in the joined row,
      whose length is the last entry of cb. */
  lemma {:induction false} JoinedAt<T>(pieces: seq<seq<T>>, cb: seq<int>, c: nat, j: nat)
    requires |cb| == |pieces| + 1 && cb[0] == 0
    requires forall l :: 0 <= l < |pieces| ==> |pieces[l]| == cb[l + 1] - cb[l]
    requires c < |pieces| && j < |pieces[c]|
    ensures |Joined(pieces)| == cb[|pieces|]
    ensures 0 <= cb[c] + j < |Joined(pieces)| && Joined(pieces)[cb[c] + j] == pieces[c][j]
  {
    JoinedLength(pieces, cb);
    var last := |pieces| - 1;
    var front := pieces[..last];
    JoinedLength(front, cb[..last + 1]);
    if c < last {
      JoinedAt(front, cb[..last + 1], c, j);
    }
  }

  /** The joined row is as long as the last entry of cb. */
  lemma {:induction false} JoinedLength<T>(pieces: seq<seq<T>>, cb: seq<int>)
    requires |cb| == |pieces| + 1 && cb[0] == 0
    requires forall l :: 0 <= l < |pieces| ==> |pieces[l]| == cb[l + 1] - cb[l]
    ensures |Joined(pieces)| == cb[|pieces|]
  {
    if pieces != [] {
      var last := |pieces| - 1;
      JoinedLength(pieces[..last], cb[..last + 1]);
    }
  }

  /** Every local snapshot has nRows owned rows between two ghost rows, and
      every row has its two ghost cells. */
  predicate Framed(locals: seq<Grid>, nRows: nat) {
    forall c :: 0 <= c < |locals| ==>
      (|locals[c]| == nRows + 2 && forall p :: 0 <= p < nRows + 2 ==> |locals[c][p]| >= 2)
  }

  /** Lines 169-176: for a process row whose ranks hold the local snapshots
      `locals` (in column order), row i of the band is the join of the
      ranks' owned cells of local row i+1. */
  function RowBand(locals: seq<Grid>, nRows: nat): (band: Grid)
    requires Framed(locals, nRows)
    ensures |band| == nRows
  {
    seq(nRows, i requires 0 <= i < nRows => Joined(seq(|locals|, c requires 0 <= c < |locals| => OwnedRow(locals[c], i))))
  }

  /** Cell (i, cb[c] + j) of a band is owned cell (i, j) of the band's
      block c, whose width is cb[c+1] - cb[c]. */
  lemma RowBandAt(locals: seq<Grid>, nRows: nat, cb: seq<int>, i: nat, c: nat, j: nat)
    requires |cb| == |locals| + 1 && cb[0] == 0 && Ordered(cb)
    requires Framed(locals, nRows)
    requires forall l, p :: 0 <= l < |locals| && 0 <= p < nRows + 2 ==> |locals[l][p]| == cb[l + 1] - cb[l] + 2
    requires i < nRows && c < |locals| && cb[c] + j < cb[c + 1]
    ensures |RowBand(locals, nRows)[i]| == cb[|locals|]
    ensures 0 <= cb[c] + j < cb[|locals|] && RowBand(locals, nRows)[i][cb[c] + j] == locals[c][i + 1][j + 1]
  {
    var pieces := seq(|locals|, l requires 0 <= l < |locals| => OwnedRow(locals[l], i));
    assert RowBand(locals, nRows)[i] == Joined(pieces);
    JoinedAt(pieces, cb, c, j);
  }

  /** Lines 186-199 for one band: the band's rows go to the rows from
      `globalRow` on, and the counter advances past them. */
  method PlaceBand(total: Grid, globalRow: nat, band: Grid) returns (r: Grid, next: nat)
    requires globalRow + |band| <= |total|
    ensures |r| == |total| && next == globalRow + |band|
    ensures forall row :: 0 <= row < |total| ==>
      r[row] == if globalRow <= row < next then band[row - globalRow] else total[row]
  {
    r, next := total, globalRow;
    for i := 0 to |band|
      invariant |r| == |total| && next == globalRow + i
      invariant forall row :: 0 <= row < |total| ==>
        r[row] == if globalRow <= row < next then band[row - globalRow] else total[row]
    {
      r := r[next := band[i]];
      next := next + 1;
    }
  }

  /** Lines 185-200 at the root for one snapshot: the root's own band, then
      the bands of process rows 1 .. nVertical-1, each of `dim*(r+1)/nVertical
      - dim*r/nVertical` rows, are stacked in order. */
  method AssembleSnapshot(dim: nat, nVertical: nat, bands: seq<Grid>, ghost b: seq<nat>) returns (total: Grid)
    requires nVertical > 0 && |bands| == nVertical && b == Begins(dim, nVertical)
    requires dim * nVertical < WordSize
    requires forall r :: 0 <= r < nVertical ==> |bands[r]| == b[r + 1] - b[r]
    ensures total == Joined(bands)
  {
    total := Zeros(dim, dim);
    var globalRow := 0;
    assert b[1] <= b[nVertical];
    total, globalRow := ReceiveProcessRow(total, globalRow, bands, 0, |bands[0]|);
    for r := 1 to nVertical
      invariant |total| == dim && globalRow == b[r]
      invariant total[..globalRow] == Joined(bands[..r])
    {
      var currRowBegin, currRowEnd := ProcessRowRange(dim, nVertical, r, b);
      assert b[r + 1] <= b[nVertical];
      total, globalRow := ReceiveProcessRow(total, globalRow, bands, r, currRowEnd - currRowBegin);
    }
    assert bands[..nVertical] == bands;
  }

  /** Lines 191-193: process row r owns rows `dim*r/nVertical` up to
      `dim*(r+1)/nVertical`, the products unsigned; they do not wrap while
      `dim*nVertical` fits in 32 bits. */
  method ProcessRowRange(dim: nat, nVertical: nat, r: nat, ghost b: seq<nat>) returns (currRowBegin: nat, currRowEnd: nat)
    requires r < nVertical && b == Begins(dim, nVertical) && dim * nVertical < WordSize
    ensures currRowBegin == b[r] <= currRowEnd == b[r + 1]
  {
    var next := r + 1;
    U32BeginAgrees(dim, r, nVertical);
    U32BeginAgrees(dim, next, nVertical);
    currRowBegin := (dim * r % WordSize) / nVertical;
    currRowEnd := (dim * next % WordSize) / nVertical;
    assert b[r] <= b[next];
  }

  /** Lines 194-199 for process row r: its `nRows` rows go to the rows from
      the running row counter on, below the bands already stacked. */
  method ReceiveProcessRow(total: Grid, globalRow: nat, bands: seq<Grid>, r: nat, nRows: nat)
    returns (result: Grid, next: nat)
    requires r < |bands| && |bands[r]| == nRows && globalRow + nRows <= |total|
    requires total[..globalRow] == Joined(bands[..r])
    ensures |result| == |total| && next == globalRow + nRows
    ensures result[..next] == Joined(bands[..r + 1])
  {
    result, next := PlaceBand(total, globalRow, bands[r]);
    assert bands[..r + 1][..r] == bands[..r];
    assert result[..next] == result[..globalRow] + bands[r];
  }

  // ---------------------------------------------------------------------
  // The whole gather

  /** The rank at row r and column c of the process grid (row-major, as
      `CoordinatesOf` reads it back). */
  function RankAt(s: GridMpi.Shape, r: nat, c: nat): (rank: nat)
    requires r < s.nVertical && c < s.nHorizontal
    ensures rank < s.nVertical * s.nHorizontal
    ensures GridMpi.CoordinatesOf(s, rank) == GridMpi.Coordinates(r, c)
  {
    MulAddRight(r, 1, s.nHorizontal);
    MulAddRight(r + 1, s.nVertical - (r + 1), s.nHorizontal);
    MulNonneg(s.nVertical - (r + 1), s.nHorizontal);
    DivUnique(r * s.nHorizontal + c, s.nHorizontal, r, c);
    r * s.nHorizontal + c
  }

  /** Rows owned by process row r: `dim*(r+1)/nVertical - dim*r/nVertical`. */
  function BandRows(dim: nat, parts: nat, r: nat): (n: nat)
    requires r < parts
    ensures n == Begins(dim, parts)[r + 1] - Begins(dim, parts)[r]
  {
    BeginMonotone(dim, r, r + 1, parts);
    BandBegin(dim, r + 1, parts) - BandBegin(dim, r, parts)
  }

  /** Every rank of the process grid holds the same number of local
      snapshots, each its block padded by one ghost cell on every side. */
  predicate LocalsShaped(dim: nat, s: GridMpi.Shape, all: seq<seq<Grid>>) {
    s.nVertical >= 1 && s.nHorizontal >= 1 && |all| > 0 && |all| >= s.nVertical * s.nHorizontal &&
    forall rank :: 0 <= rank < s.nVertical * s.nHorizontal ==>
      (|all[rank]| == |all[0]| &&
       forall k :: 0 <= k < |all[rank]| ==>
         GridMpi.Padded(all[rank][k], GridMpi.BlockAt(dim, s, GridMpi.CoordinatesOf(s, rank))))
  }

  /** Snapshot k of the ranks of process row r, in column order. */
  function ProcessRowLocals(s: GridMpi.Shape, all: seq<seq<Grid>>, r: nat, k: nat): (locals: seq<Grid>)
    requires r < s.nVertical && |all| >= s.nVertical * s.nHorizontal
    requires forall rank :: 0 <= rank < s.nVertical * s.nHorizontal ==> k < |all[rank]|
    ensures |locals| == s.nHorizontal
    ensures forall c :: 0 <= c < s.nHorizontal ==> locals[c] == all[RankAt(s, r, c)][k]
  {
    seq(s.nHorizontal, c requires 0 <= c < s.nHorizontal => all[RankAt(s, r, c)][k])
  }

  /** The local snapshots of a process row are framed, and the one in column
      c is as wide as column band c plus its two ghost cells. */
  lemma LocalsFramed(dim: nat, s: GridMpi.Shape, all: seq<seq<Grid>>, r: nat, k: nat)
    requires LocalsShaped(dim, s, all) && r < s.nVertical && k < |all[0]|
    ensures Framed(ProcessRowLocals(s, all, r, k), BandRows(dim, s.nVertical, r))
    ensures var locals, cb := ProcessRowLocals(s, all, r, k), Begins(dim, s.nHorizontal);
      forall c, p :: 0 <= c < s.nHorizontal && 0 <= p < BandRows(dim, s.nVertical, r) + 2 ==>
        |locals[c][p]| == cb[c + 1] - cb[c] + 2
  {
    var locals, cb := ProcessRowLocals(s, all, r, k), Begins(dim, s.nHorizontal);
    forall c | 0 <= c < s.nHorizontal
      ensures GridMpi.Padded(locals[c], GridMpi.BlockAt(dim, s, GridMpi.Coordinates(r, c)))
    {
      var rank := RankAt(s, r, c);
      assert k < |all[rank]|;
    }
  }

  /** Snapshot k of every process row, as the first rank of the row holds
      it after the gather across the row (lines 167-176). */
  function ProcessRowBands(dim: nat, s: GridMpi.Shape, all: seq<seq<Grid>>, k: nat): (bands: seq<Grid>)
    requires LocalsShaped(dim, s, all) && k < |all[0]|
    ensures |bands| == s.nVertical
    ensures forall r :: 0 <= r < s.nVertical ==> |bands[r]| == BandRows(dim, s.nVertical, r)
  {
    seq(s.nVertical, r requires 0 <= r < s.nVertical =>
      LocalsFramed(dim, s, all, r, k);
      RowBand(ProcessRowLocals(s, all, r, k), BandRows(dim, s.nVertical, r)))
  }

  /** Snapshot k of the whole field as the root assembles it: the process
      rows' bands stacked in order. */
  function GatheredSnapshot(dim: nat, s: GridMpi.Shape, all: seq<seq<Grid>>, k: nat): Grid
    requires LocalsShaped(dim, s, all) && k < |all[0]|
  {
    Joined(ProcessRowBands(dim, s, all, k))
  }

  /** Every owned cell lands at its global position: owned cell (i, j) of the
      rank at (r, c) becomes cell (rb[r] + i, cb[c] + j) of the gathered
      snapshot, which is dim cells on each side, where rb and cb are the
      band beginnings of the two axes. */
  lemma GatheredCell(dim: nat, s: GridMpi.Shape, all: seq<seq<Grid>>, k: nat, r: nat, c: nat, i: nat, j: nat)
    requires LocalsShaped(dim, s, all) && k < |all[0]|
    requires r < s.nVertical && c < s.nHorizontal
    requires i < BandRows(dim, s.nVertical, r) && j < BandRows(dim, s.nHorizontal, c)
    ensures var rb, cb, g := Begins(dim, s.nVertical), Begins(dim, s.nHorizontal), GatheredSnapshot(dim, s, all, k);
      var local := all[RankAt(s, r, c)][k];
      |g| == dim && |g[rb[r] + i]| == dim && i + 1 < |local| && j + 1 < |local[i + 1]| &&
      g[rb[r] + i][cb[c] + j] == local[i + 1][j + 1]
  {
    var bands, locals := ProcessRowBands(dim, s, all, k), ProcessRowLocals(s, all, r, k);
    var rb, cb, nRows := Begins(dim, s.nVertical), Begins(dim, s.nHorizontal), BandRows(dim, s.nVertical, r);
    SnapshotLayout(dim, s, all, k, r);
    StackedCell(bands, rb, locals, cb, nRows, r, c, i, j);
    assert locals[c] == all[RankAt(s, r, c)][k];
  }

  /** How snapshot k is assembled, for process row r: the bands stacked at
      the row beginnings rb, band r made of the owned cells of the row's
      local snapshots at the column beginnings cb. */
  predicate StackLayout(bands: seq<Grid>, rb: seq<int>, locals: seq<Grid>, cb: seq<int>, nRows: nat, r: nat) {
    && |rb| == |bands| + 1 && rb[0] == 0
    && (forall l :: 0 <= l < |bands| ==> |bands[l]| == rb[l + 1] - rb[l])
    && |cb| == |locals| + 1 && cb[0] == 0 && Ordered(cb) && Framed(locals, nRows)
    && (forall l, p :: 0 <= l < |locals| && 0 <= p < nRows + 2 ==> |locals[l][p]| == cb[l + 1] - cb[l] + 2)
    && r < |bands| && bands[r] == RowBand(locals, nRows)
  }

  /** Snapshot k of a well-shaped gather has that layout for every process
      row. */
  lemma SnapshotLayout(dim: nat, s: GridMpi.Shape, all: seq<seq<Grid>>, k: nat, r: nat)
    requires LocalsShaped(dim, s, all) && k < |all[0]| && r < s.nVertical
    ensures StackLayout(ProcessRowBands(dim, s, all, k), Begins(dim, s.nVertical), ProcessRowLocals(s, all, r, k),
                        Begins(dim, s.nHorizontal), BandRows(dim, s.nVertical, r), r)
  {
    LocalsFramed(dim, s, all, r, k);
  }

  /** `GatheredCell` on plain sequences. */
  lemma StackedCell(bands: seq<Grid>, rb: seq<int>, locals: seq<Grid>, cb: seq<int>, nRows: nat,
                    r: nat, c: nat, i: nat, j: nat)
    requires StackLayout(bands, rb, locals, cb, nRows, r)
    requires i < nRows && c < |locals| && j < cb[c + 1] - cb[c]
    ensures |Joined(bands)| == rb[|bands|] && 0 <= rb[r] + i < rb[|bands|]
    ensures |Joined(bands)[rb[r] + i]| == cb[|locals|] && i + 1 < |locals[c]| && j + 1 < |locals[c][i + 1]|
    ensures 0 <= cb[c] + j < cb[|locals|] && Joined(bands)[rb[r] + i][cb[c] + j] == locals[c][i + 1][j + 1]
  {
    RowBandAt(locals, nRows, cb, i, c, j);
    JoinedAt(bands, rb, r, i);
  }

  /** Lines 150-206: every rank takes part, but only the root returns the
      snapshots of the whole field, one per local snapshot, each assembled
      from the process rows' bands. */
  method GatherGrid(dim: nat, size: nat, rank: nat, all: seq<seq<Grid>>) returns (totalSnapshots: seq<Grid>)
    requires size >= 1 && LocalsShaped(dim, GridMpi.ProcessShape(size), all)
    requires dim * GridMpi.ProcessShape(size).nVertical < WordSize
    ensures rank != 0 ==> totalSnapshots == []
    ensures rank == 0 ==> (|totalSnapshots| == |all[0]| &&
      forall k :: 0 <= k < |all[0]| ==> totalSnapshots[k] == GatheredSnapshot(dim, GridMpi.ProcessShape(size), all, k))
  {
    var s := GridMpi.ProcessShape(size);
    totalSnapshots := [];
    if rank != 0 {
      return;
    }
    ghost var rb := Begins(dim, s.nVertical);
    for k := 0 to |all[0]|
      invariant |totalSnapshots| == k
      invariant forall l :: 0 <= l < k ==> totalSnapshots[l] == GatheredSnapshot(dim, s, all, l)
    {
      var bands := ProcessRowBands(dim, s, all, k);
      var snapshot := AssembleSnapshot(dim, s.nVertical, bands, rb);
      totalSnapshots := totalSnapshots + [snapshot];
    }
  }
}
