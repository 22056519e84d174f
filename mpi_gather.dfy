/** The reassembly of the row-band snapshots in the MPI driver: every rank
    other than the root sends the owned rows of each snapshot, ghost rows
    stripped, one message per row; the root places its own owned rows first
    and then, rank by rank, receives each rank's rows at the rows the floor
    partition gives that rank. Messages from one rank arrive in the order they
    were sent, so the root's receives from rank j read rank j's sent rows in
    order; the transport itself is not modelled. */
module RowGather {
  import opened Arith
  import opened Grids
  import opened Partition

  /** The owned rows of a padded snapshot: all but the first and the last. */
  function Stripped(s: Grid): Grid
    requires |s| >= 2
  {
    s[1 .. |s| - 1]
  }

  /** Every snapshot has its two ghost rows. */
  predicate Padded(snapshots: seq<Grid>) {
    forall i :: 0 <= i < |snapshots| ==> |snapshots[i]| >= 2
  }

  /** The rows a non-root rank sends, in order: the owned rows of its first
      snapshot, then of its second, and so on. */
  function SentRows(snapshots: seq<Grid>): (rows: seq<Row>)
    requires Padded(snapshots)
  {
    if snapshots == [] then []
    else SentRows(snapshots[..|snapshots| - 1]) + Stripped(snapshots[|snapshots| - 1])
  }

  /** The sending side: for each snapshot, rows 1 .. size-2 are sent in order. */
  method SendSnapshots(snapshots: seq<Grid>) returns (sent: seq<Row>)
    requires Padded(snapshots)
    ensures sent == SentRows(snapshots)
  {
    sent := [];
    for i := 0 to |snapshots|
      invariant sent == SentRows(snapshots[..i])
    {
      var s := snapshots[i];
      for row := 1 to |s| - 1
        invariant sent == SentRows(snapshots[..i]) + s[1 .. row]
      {
        sent := sent + [s[row]];
      }
      assert snapshots[..i + 1][..i] == snapshots[..i];
    }
    assert snapshots[..|snapshots|] == snapshots;
  }

  /** When every snapshot has m owned rows, the k-th owned row of snapshot i
      is sent as row i*m + k. */
  lemma {:induction false} SentRowsAt(snapshots: seq<Grid>, m: nat, i: nat, k: nat)
    requires forall l :: 0 <= l < |snapshots| ==> |snapshots[l]| == m + 2
    requires i < |snapshots| && k < m
    ensures |SentRows(snapshots)| == |snapshots| * m
    ensures i * m + k < |SentRows(snapshots)| && SentRows(snapshots)[i * m + k] == snapshots[i][k + 1]
  {
    var last := |snapshots| - 1;
    var front := snapshots[..last];
    MulAddRight(last, 1, m);
    if i < last {
      SentRowsAt(front, m, i, k);
      MulAddRight(i, 1, m);
      MulNonneg(last - i - 1, m);
      MulAddRight(i + 1, last - i - 1, m);
    } else {
      SentRowsLength(front, m);
    }
  }

  /** With m owned rows per snapshot, m rows are sent per snapshot. */
  lemma {:induction false} SentRowsLength(snapshots: seq<Grid>, m: nat)
    requires forall l :: 0 <= l < |snapshots| ==> |snapshots[l]| == m + 2
    ensures |SentRows(snapshots)| == |snapshots| * m
  {
    if snapshots != [] {
      var last := |snapshots| - 1;
      SentRowsLength(snapshots[..last], m);
      MulAddRight(last, 1, m);
    }
  }

  /** Receives `count` rows of a stream, starting at `cursor`, into the rows
      from `rowBegin` on; the other rows are unchanged. */
  method ReceiveRows(grid: Grid, rowBegin: nat, count: nat, stream: seq<Row>, cursor: nat) returns (r: Grid)
    requires rowBegin + count <= |grid| && cursor + count <= |stream|
    ensures |r| == |grid|
    ensures forall row :: 0 <= row < |grid| ==>
      r[row] == if rowBegin <= row < rowBegin + count then stream[cursor + (row - rowBegin)] else grid[row]
  {
    r := grid;
    for k := 0 to count
      invariant |r| == |grid|
      invariant forall row :: 0 <= row < |grid| ==>
        r[row] == if rowBegin <= row < rowBegin + k then stream[cursor + (row - rowBegin)] else grid[row]
    {
      r := r[rowBegin + k := stream[cursor + k]];
    }
  }

  /** Row q of band j of snapshot i is in place in `result`: for the root,
      owned row q of its own snapshot; for rank j > 0, the row of rank j's
      stream that its i-th snapshot's q-th owned row was sent as. */
  predicate Placed(result: Grid, own: Grid, streams: seq<seq<Row>>, b: seq<int>, i: nat, j: nat, q: nat)
    requires j + 1 < |b| && j < |streams|
  {
    if j == 0 then q < |result| && q + 1 < |own| && result[q] == own[q + 1]
    else
      var pos: int := i * (b[j + 1] - b[j]) + q;
      0 <= b[j] && b[j] + q < |result| && 0 <= pos < |streams[j]| && result[b[j] + q] == streams[j][pos]
  }

  /** The root's gather: `results` starts as zero dim x dim grids; for every
      snapshot i the root's own owned rows become rows 0 .. nRows0-1 and then,
      for ranks 1 .. nRanks-1 in order, the next rows of that rank's stream
      become its band's rows, b being the band beginnings `dim*j/nRanks`. */
  method GatherAtRoot(dim: nat, nRanks: nat, own: seq<Grid>, streams: seq<seq<Row>>) returns (results: seq<Grid>)
    requires nRanks > 0 && |streams| == nRanks && dim * nRanks < WordSize
    requires var b: seq<int> := Begins(dim, nRanks);
      (forall i :: 0 <= i < |own| ==> |own[i]| == b[1] + 2) &&
      (forall j :: 1 <= j < nRanks ==> |streams[j]| >= |own| * (b[j + 1] - b[j]))
    ensures |results| == |own|
    ensures forall i :: 0 <= i < |own| ==> |results[i]| == dim
    ensures forall i, j, q: nat :: (0 <= i < |own| && 0 <= j < nRanks &&
      Begins(dim, nRanks)[j] + q < Begins(dim, nRanks)[j + 1]) ==>
      Placed(results[i], own[i], streams, Begins(dim, nRanks), i, j, q)
  {
    ghost var b := Begins(dim, nRanks);
    results := seq(|own|, _ => Zeros(dim, dim));
    var cursor := seq(nRanks, _ => 0);
    for i := 0 to |own|
      invariant |results| == |own| && forall l :: 0 <= l < |own| ==> |results[l]| == dim
      invariant |cursor| == nRanks
      invariant forall j :: 1 <= j < nRanks ==> cursor[j] == i * (b[j + 1] - b[j])
      invariant forall l, j, q: nat :: 0 <= l < i && 0 <= j < nRanks && b[j] + q < b[j + 1] ==>
        Placed(results[l], own[l], streams, b, l, j, q)
    {
      forall j | 1 <= j < nRanks
        ensures |streams[j]| >= (i + 1) * (b[j + 1] - b[j])
      {
        MulNonneg(|own| - i - 1, b[j + 1] - b[j]);
        MulAddRight(i + 1, |own| - i - 1, b[j + 1] - b[j]);
      }
      var result, next := GatherSnapshot(dim, nRanks, own[i], streams, results[i], cursor, b, i);
      results := results[i := result];
      cursor := next;
    }
  }

  /** The gather of snapshot i: the root's rows, then every other rank's
      rows read from that rank's stream at the rank's cursor, which advances
      by the rank's band size. */
  method GatherSnapshot(dim: nat, nRanks: nat, own: Grid, streams: seq<seq<Row>>, start: Grid, cursor: seq<nat>,
                        ghost b: seq<nat>, ghost i: nat)
    returns (result: Grid, next: seq<nat>)
    requires nRanks > 0 && |streams| == nRanks && |cursor| == nRanks && |start| == dim
    requires dim * nRanks < WordSize && b == Begins(dim, nRanks)
    requires |own| == b[1] + 2
    requires forall j :: 1 <= j < nRanks ==> cursor[j] == i * (b[j + 1] - b[j])
    requires forall j :: 1 <= j < nRanks ==> |streams[j]| >= (i + 1) * (b[j + 1] - b[j])
    ensures |result| == dim && |next| == nRanks
    ensures forall j :: 1 <= j < nRanks ==> next[j] == (i + 1) * (b[j + 1] - b[j])
    ensures forall j, q: nat :: 0 <= j < nRanks && b[j] + q < b[j + 1] ==> Placed(result, own, streams, b, i, j, q)
  {
    result := start;
    next := cursor;
    var nRows0 := |own| - 2;
    for q := 0 to nRows0
      invariant |result| == dim && next == cursor
      invariant forall l :: 0 <= l < q ==> result[l] == own[l + 1]
    {
      result := result[q := own[q + 1]];
    }
    for j := 1 to nRanks
      invariant |result| == dim && |next| == nRanks
      invariant forall l :: 1 <= l < j ==> next[l] == (i + 1) * (b[l + 1] - b[l])
      invariant forall l :: j <= l < nRanks ==> next[l] == cursor[l]
      invariant forall l, q: nat :: 0 <= l < j && b[l] + q < b[l + 1] ==> Placed(result, own, streams, b, i, l, q)
    {
      // The unsigned products of lines 55-56; they do not wrap here.
      var rowBegin := (dim * j % WordSize) / nRanks;
      var rowEnd := (dim * (j + 1) % WordSize) / nRanks;
      U32BeginAgrees(dim, j, nRanks);
      U32BeginAgrees(dim, j + 1, nRanks);
      assert rowBegin == b[j] && rowEnd == b[j + 1];
      result := ReceiveBand(result, own, streams, b, i, j, rowBegin, rowEnd - rowBegin, next[j]);
      next := next[j := next[j] + (rowEnd - rowBegin)];
    }
  }

  /** The root receives rank j's band of snapshot i into `result`; the bands
      already in place stay in place. */
  method ReceiveBand(result: Grid, own: Grid, streams: seq<seq<Row>>, ghost b: seq<nat>, ghost i: nat, j: nat,
                     rowBegin: nat, nRows: nat, cursor: nat)
    returns (r: Grid)
    requires 1 <= j && j + 1 < |b| && |streams| + 1 == |b| && Ordered(b) && b[|b| - 1] == |result|
    requires b[j] == rowBegin && b[j + 1] == rowBegin + nRows
    requires cursor == i * nRows && |streams[j]| >= (i + 1) * nRows
    requires forall l, q: nat :: 0 <= l < j && b[l] + q < b[l + 1] ==> Placed(result, own, streams, b, i, l, q)
    ensures |r| == |result|
    ensures forall l, q: nat :: 0 <= l <= j && b[l] + q < b[l + 1] ==> Placed(r, own, streams, b, i, l, q)
  {
    MulAddRight(i, 1, nRows);
    r := ReceiveRows(result, rowBegin, nRows, streams[j], cursor);
    forall l, q: nat | 0 <= l <= j && b[l] + q < b[l + 1]
      ensures Placed(r, own, streams, b, i, l, q)
    {
      if l < j {
        assert b[l + 1] <= b[j];
        assert Placed(result, own, streams, b, i, l, q);
      }
    }
  }

  /** Every rank's snapshots are padded bands: with b the band beginnings,
      rank r has as many snapshots as the root, each of b[r+1]-b[r] rows plus
      the two ghost rows. */
  predicate BandSnapshots(b: seq<int>, snapshots: seq<seq<Grid>>) {
    |b| == |snapshots| + 1 && |snapshots| > 0 &&
    forall r :: 0 <= r < |snapshots| ==>
      |snapshots[r]| == |snapshots[0]| &&
      forall l :: 0 <= l < |snapshots[r]| ==> |snapshots[r][l]| == b[r + 1] - b[r] + 2
  }

  /** Rank j's stream is what rank j sent, so the row the root reads for row q
      of snapshot i is owned row q of rank j's snapshot i. */
  lemma StreamsDeliverBands(b: seq<int>, snapshots: seq<seq<Grid>>, i: nat, j: nat, q: nat)
    requires BandSnapshots(b, snapshots) && 1 <= j < |snapshots|
    requires i < |snapshots[j]| && b[j] + q < b[j + 1]
    ensures Padded(snapshots[j])
    ensures var m := b[j + 1] - b[j];
      i * m + q < |SentRows(snapshots[j])| && SentRows(snapshots[j])[i * m + q] == snapshots[j][i][q + 1]
  {
    var m: nat := b[j + 1] - b[j];
    SentRowsAt(snapshots[j], m, i, q);
  }

  /** Lines 41-63 of the driver on all ranks: every rank but the root sends
      its stripped snapshots, and the root gathers. With b the band
      beginnings, row `row` of rank j's band in result i is owned row
      `row - b[j]` of rank j's snapshot i; with `EveryRowOwned` and
      `BandsDisjoint` every row of every result is filled exactly once. */
  method ReassembleSnapshots(dim: nat, nRanks: nat, snapshots: seq<seq<Grid>>) returns (results: seq<Grid>)
    requires nRanks > 0 && dim * nRanks < WordSize && BandSnapshots(Begins(dim, nRanks), snapshots)
    ensures |results| == |snapshots[0]|
    ensures forall i :: 0 <= i < |results| ==> |results[i]| == dim
    ensures var b: seq<int> := Begins(dim, nRanks);
      forall i, j, row :: 0 <= i < |results| && 0 <= j < nRanks && b[j] <= row < b[j + 1] ==>
        results[i][row] == snapshots[j][i][row - b[j] + 1]
  {
    ghost var b: seq<int> := Begins(dim, nRanks);
    assert |snapshots| == nRanks;
    var streams := SendAll(b, snapshots);
    results := GatherAtRoot(dim, nRanks, snapshots[0], streams);
    forall i, j, row | 0 <= i < |results| && 0 <= j < nRanks && b[j] <= row < b[j + 1]
      ensures results[i][row] == snapshots[j][i][row - b[j] + 1]
    {
      PlacedRowIsSnapshotRow(b, snapshots, streams, results[i], i, j, row - b[j]);
    }
  }

  /** The senders: every rank but the root turns its snapshots into its
      stream of rows; the root's own entry is empty. */
  method SendAll(ghost b: seq<int>, snapshots: seq<seq<Grid>>) returns (streams: seq<seq<Row>>)
    requires BandSnapshots(b, snapshots) && Ordered(b)
    ensures |streams| == |snapshots|
    ensures forall r :: 1 <= r < |snapshots| ==> Padded(snapshots[r]) && streams[r] == SentRows(snapshots[r])
    ensures forall j :: 1 <= j < |snapshots| ==> |streams[j]| >= |snapshots[0]| * (b[j + 1] - b[j])
  {
    streams := [[]];
    for j := 1 to |snapshots|
      invariant |streams| == j
      invariant forall r :: 1 <= r < j ==> Padded(snapshots[r]) && streams[r] == SentRows(snapshots[r])
      invariant forall r :: 1 <= r < j ==> |streams[r]| >= |snapshots[0]| * (b[r + 1] - b[r])
    {
      assert b[j] <= b[j + 1];
      var sent := SendSnapshots(snapshots[j]);
      SentRowsLength(snapshots[j], b[j + 1] - b[j]);
      streams := streams + [sent];
    }
  }

  /** A row the gather placed for rank j is the owned row of rank j's
      snapshot: the root's directly, any other rank's through its stream. */
  lemma PlacedRowIsSnapshotRow(b: seq<int>, snapshots: seq<seq<Grid>>, streams: seq<seq<Row>>,
                               result: Grid, i: nat, j: nat, q: nat)
    requires BandSnapshots(b, snapshots) && |streams| == |snapshots| && b[0] == 0
    requires forall r :: 1 <= r < |snapshots| ==> Padded(snapshots[r]) && streams[r] == SentRows(snapshots[r])
    requires i < |snapshots[0]| && j < |snapshots| && b[j] + q < b[j + 1]
    requires Placed(result, snapshots[0][i], streams, b, i, j, q)
    ensures 0 <= b[j] + q < |result|
    ensures result[b[j] + q] == snapshots[j][i][q + 1]
  {
    if j > 0 {
      StreamsDeliverBands(b, snapshots, i, j, q);
    }
  }
}
