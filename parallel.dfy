/** `DiffusionParallel`: the field is split into `nCores` bands of
    `dim/nCores` rows, one `DiffusionJob` per band, all sharing one barrier.
    The threads are modelled in the lock-step order the barrier enforces:
    every worker checks the schedule and steps its band, all arrive at the
    barrier, every worker swaps, all arrive again. The bands together then
    evolve exactly like one field of `nCores*(dim/nCores)` rows. */
module Parallel {
  import opened Grids
  import opened Schedule
  import opened Wrappers
  import opened Barriers
  import opened Jobs
  import opened Partition
  import opened Arith

  /** The workers are pairwise different objects. */
  predicate Distinct(workers: seq<DiffusionJob>) {
    forall v, u :: 0 <= v < u < |workers| ==> workers[v] != workers[u]
  }

  /** Worker w holds band w of the global field g and band w of the global
      buffer b. */
  ghost predicate Holds(workers: seq<DiffusionJob>, h: nat, g: Grid, b: Grid)
    reads workers
  {
    forall w :: 0 <= w < |workers| ==> workers[w].grid == Band(g, h, w) && workers[w].buffer == Band(b, h, w)
  }

  /** The field the thread solver returns after n steps: the disc on
      `nCores*(dim/nCores)` rows, a zero buffer, and the worker factor. */
  function ParallelField(nCores: nat, dim: nat, dt: real, n: nat): Grid
    requires nCores > 0
  {
    var rows := nCores * (dim / nCores);
    Evolve(JobFactor(dt, dim), DiscBand(rows, dim, 0), Zeros(rows, dim), dim, n).0
  }

  /** Worker w's seeded band and zero buffer are band w of the global disc
      and of a global zero buffer. */
  lemma SeedBands(nW: nat, h: nat, cols: nat, w: nat)
    requires w < nW && h >= 1
    ensures DiscBand(h, cols, w * h) == Band(DiscBand(BandStart(h, nW), cols, 0), h, w)
    ensures Zeros(h, cols) == Band(Zeros(BandStart(h, nW), cols), h, w)
  {
    BandLayout(nW, h, w);
    BandStartIsProduct(h, w);
    var lo, total := BandStart(h, w), BandStart(h, nW);
    assert Band(DiscBand(total, cols, 0), h, w) == DiscBand(total, cols, 0)[lo..lo + h];
    assert Band(Zeros(total, cols), h, w) == Zeros(total, cols)[lo..lo + h];
    DiscSlice(total, h, cols, lo);
    ZerosSlice(total, h, cols, lo);
  }

  /** Rows lo .. lo+h-1 of the disc seeded from row 0 are the disc seeded
      from row lo. */
  lemma DiscSlice(total: nat, h: nat, cols: nat, lo: nat)
    requires lo + h <= total
    ensures DiscBand(h, cols, lo) == DiscBand(total, cols, 0)[lo..lo + h]
  {
    var whole := DiscBand(total, cols, 0);
    forall i | 0 <= i < h
      ensures DiscBand(h, cols, lo)[i] == whole[lo..lo + h][i]
    {
      assert whole[lo..lo + h][i] == whole[lo + i];
    }
  }

  /** Any h consecutive rows of a zero field are a zero field. */
  lemma ZerosSlice(total: nat, h: nat, cols: nat, lo: nat)
    requires lo + h <= total
    ensures Zeros(h, cols) == Zeros(total, cols)[lo..lo + h]
  {
    var whole := Zeros(total, cols);
    forall i | 0 <= i < h
      ensures Zeros(h, cols)[i] == whole[lo..lo + h][i]
    {
      assert whole[lo..lo + h][i] == whole[lo + i];
    }
  }

  /** Every worker steps its band, in worker order. The buffers then hold the
      bands of the global sweep. */
  method ComputePhase(workers: seq<DiffusionJob>, h: nat, cols: nat, factor: real, ghost g: Grid, ghost b: Grid)
    requires |workers| >= 1 && h >= 1 && (|workers| > 1 ==> h >= 2) && Distinct(workers)
    requires IsRect(g, BandStart(h, |workers|), cols) && IsRect(b, BandStart(h, |workers|), cols)
    requires Holds(workers, h, g, b)
    modifies workers
    ensures Holds(workers, h, g, Diffused(factor, g, b, cols))
  {
    var nW := |workers|;
    ghost var next := Diffused(factor, g, b, cols);
    for w := 0 to nW
      invariant forall v :: 0 <= v < nW ==> workers[v].grid == Band(g, h, v)
      invariant forall v :: 0 <= v < w ==> workers[v].buffer == Band(next, h, v)
      invariant forall v :: w <= v < nW ==> workers[v].buffer == Band(b, h, v)
    {
      assert forall v :: 0 <= v < nW && v != w ==> workers[v] != workers[w];
      StepWorker(workers, w, h, cols, factor, g, b);
    }
  }

  /** Worker w steps its band: worker 0 has no band above, the last worker no
      band below, every other worker w reads the last row of worker w-1 and
      the first row of worker w+1. Its buffer then holds band w of the global
      sweep. */
  method StepWorker(workers: seq<DiffusionJob>, w: nat, h: nat, cols: nat, factor: real, ghost g: Grid, ghost b: Grid)
    requires w < |workers| && h >= 1 && (|workers| > 1 ==> h >= 2) && Distinct(workers)
    requires IsRect(g, BandStart(h, |workers|), cols) && IsRect(b, BandStart(h, |workers|), cols)
    requires forall v :: 0 <= v < |workers| ==> workers[v].grid == Band(g, h, v)
    requires workers[w].buffer == Band(b, h, w)
    modifies workers[w]
    ensures workers[w].grid == old(workers[w].grid)
    ensures workers[w].buffer == Band(Diffused(factor, g, b, cols), h, w)
  {
    WorkerStepIsGlobal(workers, w, h, cols, factor, g, b);
    workers[w].Step(factor, Above(workers, w), Below(workers, w));
  }

  /** What worker w's band step computes from its band, its buffer and its
      neighbours' edge rows is band w of the global sweep. */
  lemma WorkerStepIsGlobal(workers: seq<DiffusionJob>, w: nat, h: nat, cols: nat, factor: real, g: Grid, b: Grid)
    requires w < |workers| && h >= 1 && (|workers| > 1 ==> h >= 2) && Distinct(workers)
    requires IsRect(g, BandStart(h, |workers|), cols) && IsRect(b, BandStart(h, |workers|), cols)
    requires forall v :: 0 <= v < |workers| ==> workers[v].grid == Band(g, h, v)
    requires workers[w].buffer == Band(b, h, w)
    ensures |workers[w].grid| > 0 && workers[w].Shaped(|workers[w].grid|, |workers[w].grid[0]|)
    ensures |workers[w].grid[0]| == cols
    ensures Above(workers, w) != null ==>
      Above(workers, w) != workers[w] && |Above(workers, w).grid| > 0 && |Above(workers, w).LastRow()| == cols && |workers[w].grid| >= 2
    ensures Below(workers, w) != null ==>
      Below(workers, w) != workers[w] && |Below(workers, w).grid| > 0 && |Below(workers, w).FirstRow()| == cols && |workers[w].grid| >= 2
    ensures BandNext(factor, workers[w].grid, workers[w].buffer, cols,
                     DiffusionJob.Edge(Above(workers, w), true), DiffusionJob.Edge(Below(workers, w), false))
         == Band(Diffused(factor, g, b, cols), h, w)
  {
    NeighbourEdges(workers, w, h, g, cols);
    var up := DiffusionJob.Edge(Above(workers, w), true);
    var down := DiffusionJob.Edge(Below(workers, w), false);
    assert BandNext(factor, workers[w].grid, workers[w].buffer, cols, up, down) == Band(Diffused(factor, g, b, cols), h, w) by {
      BandLayout(|workers|, h, w);
      BandStepOfGlobal(factor, g, b, cols, h, w, BandStart(h, w));
    }
  }

  /** Band w of the global sweep is what a band step computes from band w of
      the field and of the buffer, with the global rows just above and just
      below the band as outside neighbours. */
  lemma BandStepOfGlobal(factor: real, g: Grid, b: Grid, cols: nat, h: nat, w: nat, lo: nat)
    requires lo == BandStart(h, w) && h >= 1 && lo + h <= |g| && ((lo > 0 || lo + h < |g|) ==> h >= 2)
    requires IsRect(g, |g|, cols) && IsRect(b, |g|, cols)
    ensures IsRect(Band(g, h, w), h, cols) && IsRect(Band(b, h, w), h, cols)
    ensures BandNext(factor, Band(g, h, w), Band(b, h, w), cols,
                     if lo > 0 then Some(g[lo - 1]) else None,
                     if lo + h < |g| then Some(g[lo + h]) else None)
         == Band(Diffused(factor, g, b, cols), h, w)
  {
    BandIsRect(g, cols, h, w);
    BandIsRect(b, cols, h, w);
    BandStepIsGlobalStep(factor, g, b, cols, lo, h);
  }

  /** The worker above worker w, if any. */
  function Above(workers: seq<DiffusionJob>, w: nat): DiffusionJob?
    requires w < |workers|
  {
    if w > 0 then workers[w - 1] else null
  }

  /** The worker below worker w, if any. */
  function Below(workers: seq<DiffusionJob>, w: nat): DiffusionJob?
    requires w < |workers|
  {
    if w < |workers| - 1 then workers[w + 1] else null
  }

  /** When every worker holds its band of g, the neighbours of worker w
      contribute exactly the global rows just above and just below band w. */
  lemma NeighbourEdges(workers: seq<DiffusionJob>, w: nat, h: nat, g: Grid, cols: nat)
    requires w < |workers| && h >= 1 && (|workers| > 1 ==> h >= 2) && Distinct(workers)
    requires IsRect(g, BandStart(h, |workers|), cols)
    requires forall v :: 0 <= v < |workers| ==> workers[v].grid == Band(g, h, v)
    ensures IsRect(workers[w].grid, h, cols)
    ensures Above(workers, w) != null ==>
      Above(workers, w) != workers[w] && |Above(workers, w).grid| > 0 && |Above(workers, w).LastRow()| == cols && h >= 2
    ensures Below(workers, w) != null ==>
      Below(workers, w) != workers[w] && |Below(workers, w).grid| > 0 && |Below(workers, w).FirstRow()| == cols && h >= 2
    ensures BandStart(h, w) + h <= |g|
    ensures DiffusionJob.Edge(Above(workers, w), true) == if BandStart(h, w) > 0 then Some(g[BandStart(h, w) - 1]) else None
    ensures DiffusionJob.Edge(Below(workers, w), false) == if BandStart(h, w) + h < |g| then Some(g[BandStart(h, w) + h]) else None
  {
    var nW := |workers|;
    BandLayout(nW, h, w);
    BandIsRect(g, cols, h, w);
    if w > 0 {
      BandLayout(nW, h, w - 1);
      BandIsRect(g, cols, h, w - 1);
      EdgeOfBandAbove(g, h, w, cols);
    }
    if w < nW - 1 {
      BandLayout(nW, h, w + 1);
      BandIsRect(g, cols, h, w + 1);
      EdgeOfBandBelow(g, h, w, cols);
    }
  }

  /** The last row of band w-1 is the global row just above band w. */
  lemma EdgeOfBandAbove(g: Grid, h: nat, w: nat, cols: nat)
    requires h >= 1 && w >= 1 && BandStart(h, w) + h <= |g|
    ensures |Band(g, h, w - 1)| == h && Band(g, h, w - 1)[h - 1] == g[BandStart(h, w) - 1]
  {
  }

  /** The first row of band w+1 is the global row just below band w. */
  lemma EdgeOfBandBelow(g: Grid, h: nat, w: nat, cols: nat)
    requires h >= 1 && BandStart(h, w + 1) + h <= |g|
    ensures |Band(g, h, w + 1)| == h && Band(g, h, w + 1)[0] == g[BandStart(h, w) + h]
  {
  }

  /** Every worker swaps its band and its buffer. */
  method SwapPhase(workers: seq<DiffusionJob>, h: nat, ghost g: Grid, ghost b: Grid)
    requires Distinct(workers) && Holds(workers, h, g, b)
    modifies workers
    ensures Holds(workers, h, b, g)
  {
    for w := 0 to |workers|
      invariant forall v :: 0 <= v < w ==> workers[v].grid == Band(b, h, v) && workers[v].buffer == Band(g, h, v)
      invariant forall v :: w <= v < |workers| ==> workers[v].grid == Band(g, h, v) && workers[v].buffer == Band(b, h, v)
    {
      workers[w].Swap();
    }
  }

  /** The `RunDiffusion` loops of all workers, in lock step: each worker
      computes the factor from dt and its column count, captures its band at
      the scheduled steps and stops after the last capture; between captures
      it steps, meets the others at the barrier, swaps and meets them again.
      Worker w's k-th snapshot is band w of the global field at the k-th
      capture step. */
  method RunLockStep(workers: seq<DiffusionJob>, barrier: Barrier, h: nat, cols: nat, dt: real,
                     snapshots: seq<real>, ghost g0: Grid, ghost b0: Grid)
    returns (outputs: seq<seq<Grid>>)
    requires |workers| >= 1 && h >= 1 && (|workers| > 1 ==> h >= 2) && Distinct(workers)
    requires IsRect(g0, BandStart(h, |workers|), cols) && IsRect(b0, BandStart(h, |workers|), cols)
    requires Holds(workers, h, g0, b0)
    requires barrier.Current() == State(|workers|, |workers|, barrier.step)
    requires dt > 0.0 && |snapshots| > 0
    modifies workers, barrier
    ensures |outputs| == |workers|
    ensures forall w :: 0 <= w < |workers| ==> |outputs[w]| == |snapshots|
    ensures forall w, k :: 0 <= w < |workers| && 0 <= k < |snapshots| ==>
      outputs[w][k] == Band(Evolve(JobFactor(dt, cols), g0, b0, cols, Captures(snapshots, dt, 0)[k]).0, h, w)
  {
    var nW := |workers|;
    outputs := seq(nW, _ => seq(|snapshots|, _ => Zeros(h, cols)));
    var t := 0.0;
    var idx := 0;
    ghost var n: nat := 0;
    ghost var caps := Captures(snapshots, dt, 0);
    while true
      invariant 0 <= idx < |snapshots|
      invariant |outputs| == nW && forall w :: 0 <= w < nW ==> |outputs[w]| == |snapshots|
      invariant t == TimeAt(n, dt)
      invariant SearchStart(caps, 0, idx) <= n <= caps[idx]
      invariant Holds(workers, h, Evolve(JobFactor(dt, cols), g0, b0, cols, n).0, Evolve(JobFactor(dt, cols), g0, b0, cols, n).1)
      invariant forall w, k :: 0 <= w < nW && 0 <= k < idx ==>
        outputs[w][k] == Band(Evolve(JobFactor(dt, cols), g0, b0, cols, caps[k]).0, h, w)
      invariant barrier.Current() == State(nW, nW, barrier.step)
      decreases |snapshots| - idx, caps[idx] - n
    {
      var next;
      outputs, next, t := Iteration(workers, barrier, h, cols, dt, snapshots, outputs, idx, t, g0, b0, n);
      if next == |snapshots| {
        break;
      }
      idx := next;
      n := n + 1;
    }
  }

  /** One iteration of the lock-step loop: the capture check, then, unless
      the last request was just captured, one step of all workers. */
  method Iteration(workers: seq<DiffusionJob>, barrier: Barrier, h: nat, cols: nat, dt: real, snapshots: seq<real>,
                   outputs: seq<seq<Grid>>, idx: nat, t: real, ghost g0: Grid, ghost b0: Grid, ghost n: nat)
    returns (captured: seq<seq<Grid>>, next: nat, later: real)
    requires |workers| >= 1 && h >= 1 && (|workers| > 1 ==> h >= 2) && Distinct(workers)
    requires IsRect(g0, BandStart(h, |workers|), cols) && IsRect(b0, BandStart(h, |workers|), cols)
    requires dt > 0.0 && idx < |snapshots|
    requires |outputs| == |workers| && forall w :: 0 <= w < |workers| ==> |outputs[w]| == |snapshots|
    requires t == TimeAt(n, dt)
    requires SearchStart(Captures(snapshots, dt, 0), 0, idx) <= n <= Captures(snapshots, dt, 0)[idx]
    requires Holds(workers, h, Evolve(JobFactor(dt, cols), g0, b0, cols, n).0, Evolve(JobFactor(dt, cols), g0, b0, cols, n).1)
    requires forall w, k :: 0 <= w < |workers| && 0 <= k < idx ==>
      outputs[w][k] == Band(Evolve(JobFactor(dt, cols), g0, b0, cols, Captures(snapshots, dt, 0)[k]).0, h, w)
    requires barrier.Current() == State(|workers|, |workers|, barrier.step)
    modifies workers, barrier
    ensures idx <= next <= idx + 1
    ensures |captured| == |workers| && forall w :: 0 <= w < |workers| ==> |captured[w]| == |snapshots|
    ensures forall w, k :: 0 <= w < |workers| && 0 <= k < next ==>
      captured[w][k] == Band(Evolve(JobFactor(dt, cols), g0, b0, cols, Captures(snapshots, dt, 0)[k]).0, h, w)
    ensures next < |snapshots| ==>
      && later == TimeAt(n + 1, dt)
      && SearchStart(Captures(snapshots, dt, 0), 0, next) <= n + 1 <= Captures(snapshots, dt, 0)[next]
      && (next == idx ==> n < Captures(snapshots, dt, 0)[idx])
      && Holds(workers, h, Evolve(JobFactor(dt, cols), g0, b0, cols, n + 1).0, Evolve(JobFactor(dt, cols), g0, b0, cols, n + 1).1)
      && barrier.Current() == State(|workers|, |workers|, barrier.step)
  {
    captured, next := CaptureIfDue(workers, outputs, h, cols, JobFactor(dt, cols), t, dt, snapshots, idx, g0, b0, n);
    later := t;
    if next < |snapshots| {
      AdvanceStep(workers, barrier, h, cols, JobFactor(dt, cols), g0, b0, n);
      later := t + dt;
    }
  }

  /** The capture check at the head of each iteration: when the time has
      reached request idx, which happens exactly at its capture step, every
      worker stores its band as snapshot idx and the next request is awaited;
      otherwise nothing changes and the capture step is still ahead. */
  method CaptureIfDue(workers: seq<DiffusionJob>, outputs: seq<seq<Grid>>, h: nat, cols: nat, factor: real,
                      t: real, dt: real, snapshots: seq<real>, idx: nat, ghost g0: Grid, ghost b0: Grid, ghost n: nat)
    returns (captured: seq<seq<Grid>>, next: nat)
    requires dt > 0.0 && idx < |snapshots|
    requires IsRect(g0, |g0|, cols) && IsRect(b0, |g0|, cols)
    requires t == TimeAt(n, dt)
    requires SearchStart(Captures(snapshots, dt, 0), 0, idx) <= n <= Captures(snapshots, dt, 0)[idx]
    requires forall w :: 0 <= w < |workers| ==> workers[w].grid == Band(Evolve(factor, g0, b0, cols, n).0, h, w)
    requires |outputs| == |workers| && forall w :: 0 <= w < |workers| ==> |outputs[w]| == |snapshots|
    requires forall w, k :: 0 <= w < |workers| && 0 <= k < idx ==>
      outputs[w][k] == Band(Evolve(factor, g0, b0, cols, Captures(snapshots, dt, 0)[k]).0, h, w)
    ensures next == if n == Captures(snapshots, dt, 0)[idx] then idx + 1 else idx
    ensures next < |snapshots| ==>
      SearchStart(Captures(snapshots, dt, 0), 0, next) <= n + 1 && n < Captures(snapshots, dt, 0)[next]
    ensures |captured| == |workers| && forall w :: 0 <= w < |workers| ==> |captured[w]| == |snapshots|
    ensures forall w, k :: 0 <= w < |workers| && 0 <= k < next ==>
      captured[w][k] == Band(Evolve(factor, g0, b0, cols, Captures(snapshots, dt, 0)[k]).0, h, w)
  {
    ghost var caps := Captures(snapshots, dt, 0);
    DueNowIsCapture(snapshots, dt, idx, n);
    captured, next := outputs, idx;
    if t >= snapshots[idx] {
      captured := CaptureAll(workers, outputs, idx);
      forall w, k | 0 <= w < |workers| && 0 <= k <= idx
        ensures captured[w][k] == Band(Evolve(factor, g0, b0, cols, caps[k]).0, h, w)
      {
        if k == idx {
          assert n == caps[idx];
        }
      }
      next := idx + 1;
      if next < |snapshots| {
        CapturesOrdered(snapshots, dt, 0, next);
      }
    }
  }

  /** Every worker stores its band as its snapshot number idx. */
  method CaptureAll(workers: seq<DiffusionJob>, outputs: seq<seq<Grid>>, idx: nat) returns (captured: seq<seq<Grid>>)
    requires |outputs| == |workers| && forall w :: 0 <= w < |workers| ==> idx < |outputs[w]|
    ensures |captured| == |workers|
    ensures forall w :: 0 <= w < |workers| ==> captured[w] == outputs[w][idx := workers[w].grid]
  {
    captured := outputs;
    for w := 0 to |workers|
      invariant |captured| == |workers|
      invariant forall v :: 0 <= v < w ==> captured[v] == outputs[v][idx := workers[v].grid]
      invariant forall v :: w <= v < |workers| ==> captured[v] == outputs[v]
    {
      captured := captured[w := captured[w][idx := workers[w].grid]];
    }
  }

  /** One time step of all workers: every worker steps its band, all meet at
      the barrier, every worker swaps, all meet again. The bands then hold the
      global sweep and the buffers the previous field, and the barrier is back
      at a full count. */
  method AdvanceAll(workers: seq<DiffusionJob>, barrier: Barrier, h: nat, cols: nat, factor: real, ghost g: Grid, ghost b: Grid)
    requires |workers| >= 1 && h >= 1 && (|workers| > 1 ==> h >= 2) && Distinct(workers)
    requires IsRect(g, BandStart(h, |workers|), cols) && IsRect(b, BandStart(h, |workers|), cols)
    requires Holds(workers, h, g, b)
    requires barrier.Current() == State(|workers|, |workers|, barrier.step)
    modifies workers, barrier
    ensures Holds(workers, h, Diffused(factor, g, b, cols), g)
    ensures barrier.Current() == State(|workers|, |workers|, barrier.step)
  {
    ComputePhase(workers, h, cols, factor, g, b);
    var arrivals := Rendezvous(barrier, |workers|);
    SwapPhase(workers, h, g, Diffused(factor, g, b, cols));
    arrivals := Rendezvous(barrier, |workers|);
  }

  /** Step n of the lock-step run: the workers go from holding the field
      and buffer after n sweeps to holding those after n+1 sweeps. */
  method AdvanceStep(workers: seq<DiffusionJob>, barrier: Barrier, h: nat, cols: nat, factor: real,
                     ghost g0: Grid, ghost b0: Grid, ghost n: nat)
    requires |workers| >= 1 && h >= 1 && (|workers| > 1 ==> h >= 2) && Distinct(workers)
    requires IsRect(g0, BandStart(h, |workers|), cols) && IsRect(b0, BandStart(h, |workers|), cols)
    requires Holds(workers, h, Evolve(factor, g0, b0, cols, n).0, Evolve(factor, g0, b0, cols, n).1)
    requires barrier.Current() == State(|workers|, |workers|, barrier.step)
    modifies workers, barrier
    ensures Holds(workers, h, Evolve(factor, g0, b0, cols, n + 1).0, Evolve(factor, g0, b0, cols, n + 1).1)
    ensures barrier.Current() == State(|workers|, |workers|, barrier.step)
  {
    ghost var current := Evolve(factor, g0, b0, cols, n);
    AdvanceAll(workers, barrier, h, cols, factor, current.0, current.1);
  }

  /** Allocates one job per core: job i holds rows i*h .. i*h+h-1 of the disc
      and a zero buffer, so together the jobs hold the disc on nCores*h rows. */
  method AllocateWorkers(nCores: nat, dim: nat, h: nat) returns (workers: seq<DiffusionJob>)
    requires dim < 0x8000_0000 && 1 <= h <= dim
    ensures |workers| == nCores && Distinct(workers)
    ensures forall w :: 0 <= w < nCores ==> fresh(workers[w])
    ensures Holds(workers, h, DiscBand(BandStart(h, nCores), dim, 0), Zeros(BandStart(h, nCores), dim))
  {
    workers := [];
    for i := 0 to nCores
      invariant |workers| == i && Distinct(workers)
      invariant forall w :: 0 <= w < i ==> fresh(workers[w])
      invariant forall w :: 0 <= w < i ==>
        workers[w].grid == DiscBand(h, dim, w * h) && workers[w].buffer == Zeros(h, dim)
    {
      var job := DiffusionJob.Allocate(h, dim, i * h);
      workers := workers + [job];
    }
    forall w | 0 <= w < nCores
      ensures workers[w].grid == Band(DiscBand(BandStart(h, nCores), dim, 0), h, w)
      ensures workers[w].buffer == Band(Zeros(BandStart(h, nCores), dim), h, w)
    {
      SeedBands(nCores, h, dim, w);
    }
  }

  /** Appends the k-th partial snapshot of every worker, in worker order, to
      the k-th output field. When worker w's snapshots are band w of the
      fields G, the output fields are the G themselves. */
  method Gather(partials: seq<seq<Grid>>, nS: nat, h: nat, ghost fields: seq<Grid>) returns (output: seq<Grid>)
    requires |fields| == nS
    requires forall k :: 0 <= k < |fields| ==> |fields[k]| == BandStart(h, |partials|)
    requires forall w :: 0 <= w < |partials| ==> |partials[w]| == |fields|
    requires forall w, k :: 0 <= w < |partials| && 0 <= k < |fields| ==> partials[w][k] == Band(fields[k], h, w)
    ensures output == fields
  {
    output := seq(nS, _ => []);
    var lo := 0;
    for w := 0 to |partials|
      invariant |output| == nS && lo == BandStart(h, w) && lo <= BandStart(h, |partials|)
      invariant forall k :: 0 <= k < nS ==> output[k] == fields[k][..lo]
    {
      output, lo := GatherWorker(output, partials, h, fields, w, lo);
    }
    AllPrefixes(output, fields, lo);
  }

  /** Prefixes as long as the fields are the fields. */
  lemma AllPrefixes(output: seq<Grid>, fields: seq<Grid>, lo: nat)
    requires |output| == |fields|
    requires forall k :: 0 <= k < |fields| ==> |fields[k]| == lo && output[k] == fields[k][..lo]
    ensures output == fields
  {
    forall k | 0 <= k < |fields|
      ensures output[k] == fields[k]
    {
      assert fields[k][..lo] == fields[k];
    }
  }

  /** Worker w's turn: its snapshots, rows w*h .. w*h+h-1 of the fields, are
      appended to the outputs. */
  method GatherWorker(output: seq<Grid>, partials: seq<seq<Grid>>, h: nat, ghost fields: seq<Grid>, w: nat, lo: nat)
    returns (appended: seq<Grid>, next: nat)
    requires w < |partials| && lo == BandStart(h, w) && lo <= BandStart(h, |partials|) && |output| == |fields|
    requires forall k :: 0 <= k < |fields| ==> |fields[k]| == BandStart(h, |partials|)
    requires |partials[w]| == |fields|
    requires forall k :: 0 <= k < |fields| ==> partials[w][k] == Band(fields[k], h, w)
    requires forall k :: 0 <= k < |fields| ==> output[k] == fields[k][..lo]
    ensures |appended| == |fields| && next == BandStart(h, w + 1) && next <= BandStart(h, |partials|)
    ensures forall k :: 0 <= k < |fields| ==> appended[k] == fields[k][..next]
  {
    BandWithin(|partials|, h, w);
    BandsAreSlices(partials, h, fields, w, lo);
    appended := AppendBands(output, partials[w], fields, lo, h);
    next := lo + h;
  }

  /** Worker w's snapshots are rows lo .. lo+h-1 of the fields. */
  lemma BandsAreSlices(partials: seq<seq<Grid>>, h: nat, fields: seq<Grid>, w: nat, lo: nat)
    requires w < |partials| && lo == BandStart(h, w) && lo + h <= BandStart(h, |partials|)
    requires forall k :: 0 <= k < |fields| ==> |fields[k]| == BandStart(h, |partials|)
    requires |partials[w]| == |fields|
    requires forall k :: 0 <= k < |fields| ==> partials[w][k] == Band(fields[k], h, w)
    ensures forall k :: 0 <= k < |fields| ==> lo + h <= |fields[k]| && partials[w][k] == fields[k][lo..lo + h]
  {
  }

  /** One worker's turn of the gather: its k-th band, rows lo .. lo+h-1 of
      field k, is appended to output k. */
  method AppendBands(output: seq<Grid>, bands: seq<Grid>, ghost fields: seq<Grid>, ghost lo: nat, h: nat)
    returns (appended: seq<Grid>)
    requires |output| == |fields| && |bands| == |fields|
    requires forall k :: 0 <= k < |fields| ==>
      lo + h <= |fields[k]| && output[k] == fields[k][..lo] && bands[k] == fields[k][lo..lo + h]
    ensures |appended| == |fields|
    ensures forall k :: 0 <= k < |fields| ==> appended[k] == fields[k][..lo + h]
  {
    appended := output;
    for k := 0 to |bands|
      invariant |appended| == |fields|
      invariant forall l :: 0 <= l < k ==> appended[l] == fields[l][..lo + h]
      invariant forall l :: k <= l < |fields| ==> appended[l] == output[l]
    {
      assert fields[k][..lo] + fields[k][lo..lo + h] == fields[k][..lo + h];
      appended := appended[k := appended[k] + bands[k]];
    }
  }

  /** The body shared by both thread solvers: allocate the jobs, run them on
      one barrier for nCores threads whose bit starts at `step`, and append
      the workers' snapshots in worker order. */
  method RunJobs(nCores: nat, dim: nat, dt: real, snapshots: seq<real>, barrier: Barrier) returns (output: seq<Grid>)
    requires nCores >= 1 && dim < 0x8000_0000
    requires dim / nCores >= 1 && (nCores > 1 ==> dim / nCores >= 2)
    requires dt > 0.0 && |snapshots| > 0
    requires barrier.Current() == State(nCores, nCores, barrier.step)
    modifies barrier
    ensures |output| == |snapshots|
    ensures forall k :: 0 <= k < |snapshots| ==>
      output[k] == ParallelField(nCores, dim, dt, Captures(snapshots, dt, 0)[k])
  {
    var h := dim / nCores;
    var workers := AllocateWorkers(nCores, dim, h);
    ghost var rows := BandStart(h, nCores);
    BandStartIsProduct(h, nCores);
    ghost var g0, b0 := DiscBand(rows, dim, 0), Zeros(rows, dim);
    var partials := RunLockStep(workers, barrier, h, dim, dt, snapshots, g0, b0);
    ghost var caps := Captures(snapshots, dt, 0);
    ghost var fields := seq(|snapshots|, k requires 0 <= k < |snapshots| => Evolve(JobFactor(dt, dim), g0, b0, dim, caps[k]).0);
    output := Gather(partials, |snapshots|, h, fields);
  }

  /** `DiffusionParallel(nCores, dim, d, dt, snapshots)`: the thread solver
      with a barrier whose bit starts true. Snapshot k is the field of
      `nCores*(dim/nCores)` rows after the k-th capture step, evolved with the
      worker factor, whatever d is. */
  method DiffusionParallel(nCores: nat, dim: nat, d: real, dt: real, snapshots: seq<real>) returns (output: seq<Grid>)
    requires nCores >= 1 && dim < 0x8000_0000
    requires dim / nCores >= 1 && (nCores > 1 ==> dim / nCores >= 2)
    requires dt > 0.0 && |snapshots| > 0
    ensures |output| == |snapshots|
    ensures forall k :: 0 <= k < |snapshots| ==>
      output[k] == ParallelField(nCores, dim, dt, Captures(snapshots, dt, 0)[k])
  {
    var barrier := new Barrier(nCores);
    output := RunJobs(nCores, dim, dt, snapshots, barrier);
  }

  /** The earlier `DiffusionParallel(nCores, dim, dt, snapshots)`, whose
      barrier bit starts false; the bit's initial value does not change the
      result. */
  method DiffusionParallelNoD(nCores: nat, dim: nat, dt: real, snapshots: seq<real>) returns (output: seq<Grid>)
    requires nCores >= 1 && dim < 0x8000_0000
    requires dim / nCores >= 1 && (nCores > 1 ==> dim / nCores >= 2)
    requires dt > 0.0 && |snapshots| > 0
    ensures |output| == |snapshots|
    ensures forall k :: 0 <= k < |snapshots| ==>
      output[k] == ParallelField(nCores, dim, dt, Captures(snapshots, dt, 0)[k])
  {
    var barrier := new Barrier.StartingLow(nCores);
    output := RunJobs(nCores, dim, dt, snapshots, barrier);
  }

  /** The thread solver's field has `nCores*(dim/nCores)` rows, fewer than dim
      whenever nCores does not divide dim: with 2 cores and dim = 5 it has 4. */
  lemma ParallelDropsRows(nCores: nat, dim: nat, dt: real, n: nat)
    requires nCores >= 1
    ensures |ParallelField(nCores, dim, dt, n)| == nCores * (dim / nCores)
    ensures dim % nCores > 0 ==> |ParallelField(nCores, dim, dt, n)| < dim
    ensures |ParallelField(2, 5, dt, n)| == 4
  {
    EqualSplitDropsRemainder(dim, nCores);
  }
}
