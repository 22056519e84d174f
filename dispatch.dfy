/** The two `Diffusion` entry points: the one without a core count always
    runs the sequential solver; the one with a core count runs the thread
    solver for more than one core and the sequential solver otherwise. */
module Dispatch {
  import opened Grids
  import opened Seeds
  import opened Schedule
  import opened Jobs
  import opened Sequential
  import opened Parallel

  /** `Diffusion(dim, d, dt, snapshots)`: the sequential solver's snapshots. */
  method Diffusion(dim: nat, d: real, dt: real, snapshots: seq<real>) returns (output: seq<Grid>)
    requires dt > 0.0 && |snapshots| > 0
    ensures |output| == |snapshots|
    ensures forall k :: 0 <= k < |snapshots| ==>
      output[k] == SequentialField(dim, d, dt, Captures(snapshots, dt, 0)[k])
  {
    output := DiffusionSequential(dim, d, dt, snapshots);
  }

  /** `Diffusion(nCores, dim, d, dt, snapshots)`: more than one core selects
      the thread solver; one core, and also zero cores, select the sequential
      solver and the core count plays no further part. */
  method DiffusionOnCores(nCores: nat, dim: nat, d: real, dt: real, snapshots: seq<real>) returns (output: seq<Grid>)
    requires dt > 0.0 && |snapshots| > 0
    requires nCores > 1 ==> dim < 0x8000_0000 && dim / nCores >= 2
    ensures |output| == |snapshots|
    ensures forall k :: 0 <= k < |snapshots| ==>
      output[k] == if nCores > 1 then ParallelField(nCores, dim, dt, Captures(snapshots, dt, 0)[k])
                   else SequentialField(dim, d, dt, Captures(snapshots, dt, 0)[k])
  {
    if nCores > 1 {
      output := DiffusionParallel(nCores, dim, d, dt, snapshots);
    } else {
      output := DiffusionSequential(dim, d, dt, snapshots);
    }
  }

  /** The two solvers do not compute the same field: already at step 0 on an
      8 x 8 grid with two cores, cell (2, 2) is 1 in the sequential seed (the
      inclusive square) and 0 in the thread seed (the disc). */
  lemma SolversDisagree(d: real, dt: real)
    ensures SequentialField(8, d, dt, 0)[2][2] == 1.0
    ensures ParallelField(2, 8, dt, 0)[2][2] == 0.0
    ensures ParallelField(2, 8, dt, 0) != SequentialField(8, d, dt, 0)
  {
    DiscDiffersFromSquares();
    assert SequentialField(8, d, dt, 0) == SquareSeed(8);
    assert ParallelField(2, 8, dt, 0) == DiscBand(8, 8, 0);
  }
}
