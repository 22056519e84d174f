# Heat diffusion solvers of HPCSE, modelled in Dafny

This project models the explicit five-point heat-diffusion solver of the
HPCSE exercises. A `dim x dim` field evolves by

    new[i][j] = g[i][j] + factor * (g[i-1][j] + g[i][j-1] - 4 g[i][j] + g[i][j+1] + g[i+1][j])

on interior cells. Requested snapshot times are captured when the running time
reaches them. The model covers four variants of the solver and the bookkeeping
around them:

- **Sequential** (`DiffusionSequential`, module `Sequential`). The
  inclusive-square seed, the double-buffered sweep and the snapshot loop.
  - `Dispatch` models the two `Diffusion` overloads that choose a solver.
- **Thread row-bands** (`DiffusionParallel`, `DiffusionJob`, `Barrier`;
  modules `Parallel`, `Jobs`, `Barriers`).
  - The field is cut into `nCores` bands of `dim/nCores` rows, each seeded with
    a disc.
  - Each worker steps its band using its neighbours' edge rows. The workers
    meet at a shared barrier between the step and the swap.
  - The barrier is the counter/generation-bit state machine of
    `Barrier::Synchronize`.
  - The threads are run in the lock-step order the barrier enforces. Under that
    order the bands are proved to evolve exactly like one field of
    `nCores*(dim/nCores)` rows, and the concatenated worker snapshots are proved
    to be that field.
- **MPI row-bands** (`DiffusionMPI`, module `RowMpi`). The root-side
  reassembly of the driver (module `RowGather`) is included.
  - Each rank owns the rows `[dim*r/n, dim*(r+1)/n)` (module `Partition`), with
    one ghost row above and one below.
  - Halo rows come from neighbouring ranks, and so does the value read one past
    the end of a row. Both are inputs to the model.
- **MPI 2-D process grid** (`DiffusionGrid`, modules `GridMpi` and
  `GridGather`).
  - The `floor(sqrt P) x P/floor(sqrt P)` process shape and the floor partition
    on both axes.
  - The exclusive-square seed with its ghost frame.
  - The edge-row, edge-column and bulk phases of a step, with received ghost
    columns and rows as inputs.
  - The two-level gather whose running `globalRow` places every owned cell at
    its global position.

Cells are `real`. Time is a step count `n`, with `t = n*dt`
(`Schedule.TimeAt`). The capture rule "at most one capture per step, stop
after the last one" is defined once, in `Schedule.Captures`. Every solver is
proved to return, for request `k`, its field after `Captures(times, dt, 0)[k]`
steps.

The earlier copies of the kernel, the barrier, the job header and the thread
driver are covered by the same members:
- exercise2/Diffusion.h (lines 9-16) has the same kernel, so the `Grids`
  kernel lemmas hold for it.
- exercise2/Barrier.h (lines 16-39) is `Barrier.StartingLow` followed by the
  same `Synchronize` transition, so `Barriers.AfterCalls` holds for it too.
- exercise2/DiffusionJob.h (lines 27-37) has the same accessors and factory
  as `Jobs.DiffusionJob`.
- exercise2/DiffusionParallel.cpp is `DiffusionParallelNoD`.

A barrier built for zero threads does not deadlock: its first call takes the
reset branch and returns at once (diffusion/include/diffusion/Barrier.h:32-41;
`Barriers.FewThreadsNeverWait`).

## Model

| member | source | states |
|---|---|---|
| Grids.KernelReadsFiveCells | diffusion/include/diffusion/Diffusion.h:14-21 | the kernel at (i, j) depends only on the centre and its four neighbours: two grids that agree on those five cells give the same value |
| Grids.KernelZeroFactor | diffusion/include/diffusion/Diffusion.h:18-20 | with factor 0 the kernel returns the centre cell unchanged |
| Grids.KernelUniform | diffusion/include/diffusion/Diffusion.h:18-20 | a neighbourhood whose five cells all equal c is a fixed point: the kernel returns c |
| Grids.FactorIsOverSpacingSquared | diffusion/src/DiffusionSequential.cpp:19-20 | the solver factor is d*dt/(ds*ds) with ds = 2/dim |
| Grids.DiffusedKeepsBorder | diffusion/src/DiffusionSequential.cpp:51-62 | one sweep leaves every buffer cell outside rows and columns 1 .. dim-2 as it was |
| Grids.EvolveKeepsBorder | diffusion/src/DiffusionSequential.cpp:25-34 | after n sweeps and swaps, a border cell of the grid holds the initial grid's value when n is even and the initial buffer's when n is odd (and the reverse for the buffer) |
| Seeds.InDiscIsRealTest | diffusion/src/DiffusionJob.cpp:11-18 | the disc test with doubled integer coordinates is equivalent to the constructor's test dx*dx + dy*dy < bound, with halfDim = cols/2 - 0.5 and bound = (cols*cols)>>4 on 32 bits |
| Seeds.DoubledTest | diffusion/src/DiffusionJob.cpp:15-18 | for any centre h, the squared distance of the doubled offsets is below 4*bound exactly when the squared real distance to h - 0.5 is below bound |
| Seeds.InclusiveSquareOffBorder | diffusion/src/DiffusionSequential.cpp:40-46 | for dim >= 4 the inclusive square [dim/4, dim - dim/4) contains no border cell |
| Seeds.InclusiveSquareCoversSmallGrid | diffusion/src/DiffusionSequential.cpp:40-46 | for dim < 4 the square covers every cell |
| Seeds.SquaresDiffer | diffusion/src/DiffusionMPI.cpp:26-36 | the exclusive square of the MPI solvers lies inside the sequential inclusive square, and for dim = 8 it is strictly smaller |
| Seeds.DiscDiffersFromSquares | diffusion/src/DiffusionJob.cpp:11-20 | for dim = 8 the disc leaves out cell (2,2), which the inclusive square sets, while cell (3,3) is in both the disc and the exclusive square |
| Sequential.InitializeGrid | diffusion/src/DiffusionSequential.cpp:38-49 | returns a dim x dim grid whose cell (i, j) is 1 exactly when dim/4 <= i, j < dim - dim/4, and 0 otherwise |
| Sequential.Diffuse | diffusion/src/DiffusionSequential.cpp:51-62 | the new buffer is the kernel of the grid on rows and columns 1 .. dim-2 and the old buffer everywhere else; the grid is a value and is not changed |
| Sequential.DiffusionSequential | diffusion/src/DiffusionSequential.cpp:12-36 | returns one snapshot per request; snapshot k is the square seed evolved by the d*dt/ds^2 factor for the k-th capture step, taken before that step's sweep |
| Sequential.SequentialBorderZero | diffusion/src/DiffusionSequential.cpp:25-34 | for dim >= 4 the first and last rows and columns are 0 after any number of steps |
| Sequential.FirstSnapshotIsSeed | diffusion/src/DiffusionSequential.cpp:15-28 | when the first requested time is <= 0 the first snapshot is the initial square seed |
| Dispatch.Diffusion | diffusion/src/Diffusion.cpp:15-18 | the four-argument overload returns exactly the sequential result |
| Dispatch.DiffusionOnCores | diffusion/src/Diffusion.cpp:20-27 | with nCores > 1 the result is the thread solver's field, otherwise (0 and 1 included) the sequential field, with dim, d, dt and the times forwarded unchanged |
| Dispatch.SolversDisagree | diffusion/src/Diffusion.cpp:20-27 | the two branches compute different fields: for dim = 8 cell (2,2) starts at 1 sequentially and at 0 in the thread solver |
| Jobs.JobFactorIgnoresD | diffusion/src/DiffusionJob.cpp:33-34 | the worker factor is dt/ds^2 with ds = 2/cols, which is the solver factor for d = 1; the solver factor for any d is d times the worker factor |
| Jobs.DiffusionJob.constructor | diffusion/src/DiffusionJob.cpp:8-21 | grid_ is the rows x cols disc band at rowOffset when rows and cols are below 2^31; from 2^31 on the `int` loop bounds `iEnd` and `dimSigned` are negative and grid_ stays all zeros; buffer_, copied before the fill loop, is all zeros |
| Jobs.DiffusionJob.Allocate | diffusion/include/diffusion/DiffusionJob.h:40-43 | `Allocate(a, b, c)` builds `DiffusionJob(a, b, c)`: a rows, b columns after the conversion to unsigned, row offset c, filled as the constructor fills it |
| Jobs.OneRowBandEdges | diffusion/include/diffusion/DiffusionJob.h:32-38 | for a one-row band `FirstRow` and `LastRow` are the same row |
| Jobs.BandNextWrites | diffusion/src/DiffusionJob.cpp:43-70 | a band step never writes column 0 or the last column, writes row 0 only with a band above and the last row only with a band below |
| Jobs.BandStepIsGlobalStep | diffusion/src/DiffusionJob.cpp:43-70 | a band step fed with the global rows just above and below the band equals that band of one global sweep |
| Jobs.BandCellIsGlobalCell | diffusion/src/DiffusionJob.cpp:43-70 | cell by cell, the band step at (i, j) is the global sweep at (lo + i, j) |
| Jobs.SweepTopRow | diffusion/src/DiffusionJob.cpp:43-51 | the top-row loop writes row 0 as the band step with the row above, and nothing else |
| Jobs.SweepInnerRows | diffusion/src/DiffusionJob.cpp:53-60 | the inner loop writes rows 1 .. rows-2 as the band step and keeps every other row |
| Jobs.SweepBottomRow | diffusion/src/DiffusionJob.cpp:62-70 | the bottom-row loop writes the last row as the band step with the row below, and nothing else |
| Jobs.DiffusionJob.Step | diffusion/src/DiffusionJob.cpp:42-70 | grid_ is unchanged and buffer_ becomes the band step using `above->LastRow()` and `below->FirstRow()` when those neighbours exist |
| Jobs.DiffusionJob.Swap | diffusion/src/DiffusionJob.cpp:74 | grid_ and buffer_ exchange contents |
| Barriers.Barrier.constructor | diffusion/include/diffusion/Barrier.h:21-28 | nThreads_ and threadsLeft_ are nThreads and the bit starts true |
| Barriers.Barrier.StartingLow | exercise2/Barrier.h:16-24 | the earlier barrier starts with the bit false, because the initialiser list overrides the default |
| Barriers.Barrier.Synchronize | diffusion/include/diffusion/Barrier.h:30-43 | one arrival: the count drops by one; when it reaches 0 or below it is reset to nThreads_ and the bit flips, otherwise the caller records the bit to wait on; nThreads_ never changes |
| Barriers.ArriveKeepsCountInRange | diffusion/include/diffusion/Barrier.h:32-41 | with the count in 1 .. nThreads before a call it is in 1 .. nThreads after it |
| Barriers.FewThreadsNeverWait | diffusion/include/diffusion/Barrier.h:32-41 | for nThreads <= 1 every call takes the reset branch: it never waits, restores the count and flips the bit |
| Barriers.AfterCalls | diffusion/include/diffusion/Barrier.h:30-43 | after k calls at a fresh barrier for n >= 1 threads the bit has flipped k/n times and n - k%n threads are still to arrive |
| Barriers.RoundReleasesAll | diffusion/include/diffusion/Barrier.h:33-41 | in a round of n calls the first n-1 callers wait on the current bit, the n-th releases them, and the barrier returns to a full count with the bit flipped, so every caller of the round is released |
| Barriers.Rendezvous | diffusion/include/diffusion/Barrier.h:30-43 | n callers at a full barrier all get released and leave it full again with the bit flipped |
| Partition.BeginMonotone | diffusion/src/DiffusionMPI.cpp:20-22 | band beginnings dim*k/n do not decrease with k |
| Partition.BeginEnds | diffusion/src/DiffusionMPI.cpp:20-22 | the first band begins at 0 and the last one ends at dim |
| Partition.BandSize | diffusion/src/DiffusionMPI.cpp:20-22 | every band has dim/n or dim/n + 1 rows |
| Partition.EveryRowOwned | diffusion/src/DiffusionMPI.cpp:20-22 | every row below dim lies in some band |
| Partition.BandsDisjoint | diffusion/src/DiffusionMPI.cpp:20-22 | no row lies in two bands |
| Partition.U32BeginAgrees | diffusion/src/DiffusionMPI.cpp:20-21 | while dim*n < 2^32, the bound dim*k/n computed with a 32-bit unsigned product equals the floor rule for every k <= n |
| Partition.U32LastEndWraps | diffusion/src/DiffusionMPI.cpp:20-22 | with dim = 2^20 on 4096 ranks the 32-bit product wraps: the last rank's band begins at 0xFFF00 and ends at 0 instead of 2^20 |
| Partition.EqualSplitDropsRemainder | diffusion/src/DiffusionParallel.cpp:16 | n bands of dim/n rows cover n*(dim/n) = dim - dim%n rows, fewer than dim whenever n does not divide dim |
| Schedule.TimeAtIsProduct | diffusion/src/DiffusionSequential.cpp:33 | the time after n additions of dt is n*dt |
| Schedule.DueMonotone | diffusion/src/DiffusionSequential.cpp:27 | once t >= the requested time holds at a step, it holds at every later step |
| Schedule.FirstDue | diffusion/src/DiffusionSequential.cpp:26-34 | the first step, from a given one on, at which a request is due: it is due there and at no earlier step of the search |
| Schedule.CapturesOrdered | diffusion/src/DiffusionSequential.cpp:26-34 | requests are served in list order, at most one per step: capture steps strictly increase, each is due, and none is due earlier in its search window |
| Schedule.FirstCaptureAtStart | diffusion/src/DiffusionSequential.cpp:18-28 | a first request at time <= 0 is captured at step 0, before any sweep |
| Schedule.CapturesBoundedByLast | diffusion/src/DiffusionSequential.cpp:29 | no capture happens after the last one, where the loop stops |
| Schedule.DueNowIsCapture | diffusion/src/DiffusionSequential.cpp:27-29 | within the search window of request idx, the check t >= time succeeds exactly at that request's capture step |
| Schedule.Insert | diffusion/src/DiffusionGrid.cpp:49 | inserting into an ascending list gives an ascending list with the same elements plus the new one |
| Schedule.Sorted | diffusion/src/DiffusionGrid.cpp:49 | the sorted copy of the requested times is ascending and a permutation of them |
| Parallel.SeedBands | diffusion/src/DiffusionParallel.cpp:21-24 | worker w, built with rows dim/nCores and offset w*(dim/nCores), holds band w of the global disc and band w of a global zero buffer |
| Parallel.NeighbourEdges | diffusion/src/DiffusionParallel.cpp:43-44 | worker 0 has no band above, the last worker none below; the others see the global rows just outside their band |
| Parallel.WorkerStepIsGlobal | diffusion/src/DiffusionParallel.cpp:35-45 | with that wiring, the step of worker w is band w of one global sweep |
| Parallel.StepWorker | diffusion/src/DiffusionJob.cpp:42-70 | stepping worker w changes only its buffer, which becomes band w of the global sweep |
| Parallel.ComputePhase | diffusion/src/DiffusionJob.cpp:42-70 | after all workers step, together they hold the grid and the global sweep of the grid |
| Parallel.SwapPhase | diffusion/src/DiffusionJob.cpp:74 | after all workers swap they hold the global grid and buffer exchanged |
| Parallel.AdvanceAll | diffusion/src/DiffusionJob.cpp:42-76 | step, barrier, swap, barrier: the workers hold (sweep, old grid) and the barrier is full again |
| Parallel.AdvanceStep | diffusion/src/DiffusionJob.cpp:42-76 | one pass takes the workers from the global state after n steps to the state after n + 1 |
| Parallel.CaptureIfDue | diffusion/src/DiffusionJob.cpp:38-41 | when the current step is the next request's capture step, every worker records its band and the request index advances by one, otherwise nothing is recorded |
| Parallel.Iteration | diffusion/src/DiffusionJob.cpp:37-76 | one pass of the worker loop: the recorded bands stay correct, and unless the last request was captured the workers reach step n + 1 |
| Parallel.RunLockStep | diffusion/src/DiffusionJob.cpp:23-79 | every worker returns one band per request, and worker w's k-th band is band w of the global field at the k-th capture step |
| Parallel.AllocateWorkers | diffusion/src/DiffusionParallel.cpp:18-29 | nCores fresh, distinct workers, worker w holding band w of the global disc and zero buffer |
| Parallel.AppendBands | diffusion/src/DiffusionParallel.cpp:48-51 | appending a worker's bands to the first lo rows of every snapshot gives the first lo + h rows |
| Parallel.GatherWorker | diffusion/src/DiffusionParallel.cpp:47-51 | after worker w's bands are appended every output snapshot is the prefix of its field up to the end of band w |
| Parallel.Gather | diffusion/src/DiffusionParallel.cpp:46-52 | the worker-order concatenation of the workers' k-th bands is the k-th field |
| Parallel.RunJobs | diffusion/src/DiffusionParallel.cpp:16-54 | one snapshot per request, snapshot k being the thread solver's field at the k-th capture step |
| Parallel.DiffusionParallel | diffusion/src/DiffusionParallel.cpp:13-55 | one snapshot per request; snapshot k is the disc on nCores*(dim/nCores) rows evolved with the worker factor, whatever d is |
| Parallel.DiffusionParallelNoD | exercise2/DiffusionParallel.cpp:11-52 | the earlier driver, with a barrier starting low and no d, returns the same snapshots |
| Parallel.ParallelDropsRows | diffusion/src/DiffusionParallel.cpp:16-52 | every snapshot has nCores*(dim/nCores) rows, fewer than dim when nCores does not divide dim (4 rows for dim 5 on 2 cores) |
| RowMpi.InitializeLocal | diffusion/src/DiffusionMPI.cpp:23-36 | the (nRows+2) x dim local grid whose row i+1 is the exclusive-square seed of global row rowBegin+i, ghost rows included |
| RowMpi.LocalSeedIsWindow | diffusion/src/DiffusionMPI.cpp:26-36 | a rank's seed is its window of nRows+2 rows of one padded global seed |
| RowMpi.PaddedSeedZeroOutside | diffusion/src/DiffusionMPI.cpp:26-36 | rows outside the field and column 0 of the seed are zero |
| RowMpi.NeighboursMatchBands | diffusion/src/DiffusionMPI.cpp:20-22 | with at least as many rows as ranks every band is non-empty, and a rank has a neighbour above (below) exactly when its band does not touch the top (bottom) |
| RowMpi.Sweep | diffusion/src/DiffusionMPI.cpp:53-60 | the loops write rows 1 .. nRows and columns 1 .. dim-1 of the buffer with the kernel, the last column using the value one past the row end |
| RowMpi.SweepMatchesInside | diffusion/src/DiffusionMPI.cpp:53-60 | away from the last column the sweep as written is the sweep of the local field, column 0 included (never written) |
| RowMpi.SweepReadsPastEnd | diffusion/src/DiffusionMPI.cpp:54-58 | the last column's new value changes with the value read at column dim, which is outside the row |
| RowMpi.ExchangeOverwritesLastRow | diffusion/src/DiffusionMPI.cpp:75-79 | a rank with a rank below receives into buffer[nRows], replacing its last owned row, and leaves the ghost row nRows+1 as it was |
| RowMpi.ExchangeCorrectedFillsGhosts | diffusion/src/DiffusionMPI.cpp:62-79 | the corrected receives fill ghost row 0 when there is a rank above and ghost row nRows+1 when there is one below, and keep the owned rows |
| RowMpi.StepCorrectedIsWindow | diffusion/src/DiffusionMPI.cpp:53-88 | with the corrected receives and the neighbours' edge rows as halos, a rank's step is its window of one global sweep |
| RowMpi.FirstColumnKept | diffusion/src/DiffusionMPI.cpp:53-60 | column 0 of the owned rows that no halo overwrites keeps its seed value forever |
| RowMpi.Step | diffusion/src/DiffusionMPI.cpp:53-87 | one step is the sweep as written followed by the receives as written |
| RowMpi.RowIteration | diffusion/src/DiffusionMPI.cpp:48-89 | one loop pass: capture when due, otherwise step, swap and advance t by dt |
| RowMpi.DiffusionMPI | diffusion/src/DiffusionMPI.cpp:12-92 | with rowBegin and rowEnd computed from 32-bit unsigned products (dim*nRanks < 2^32), one snapshot per request, each the full padded (nRows+2) x dim local grid at the k-th capture step, before that step's sweep |
| RowGather.SendSnapshots | exercise6/RunDiffusionMPI.cpp:41-46 | a non-root rank sends, snapshot after snapshot, its rows 1 .. size-2 in order |
| RowGather.SentRowsAt | exercise6/RunDiffusionMPI.cpp:42-46 | with m owned rows per snapshot, owned row k of snapshot i is message i*m + k |
| RowGather.SendAll | exercise6/RunDiffusionMPI.cpp:41-46 | every non-root rank's stream is what it sent, long enough for all snapshots |
| RowGather.ReceiveRows | exercise6/RunDiffusionMPI.cpp:58-61 | count rows of the stream, from the cursor on, land in rows rowBegin .. rowBegin+count-1 and nothing else changes |
| RowGather.ReceiveBand | exercise6/RunDiffusionMPI.cpp:54-61 | rank j's band of snapshot i lands at rows dim*j/n .. dim*(j+1)/n - 1, and the earlier bands stay in place |
| RowGather.GatherSnapshot | exercise6/RunDiffusionMPI.cpp:50-62 | with each rank's bounds computed from 32-bit unsigned products (dim*nRanks < 2^32), the root's own rows go to rows 0 .. nRows0-1, then each rank's band in turn; the cursors advance by one band |
| RowGather.GatherAtRoot | exercise6/RunDiffusionMPI.cpp:49-63 | one dim-row result per snapshot, every row of every rank in place |
| RowGather.StreamsDeliverBands | exercise6/RunDiffusionMPI.cpp:41-61 | the row the root reads for row q of rank j's snapshot i is that rank's owned row q |
| RowGather.PlacedRowIsSnapshotRow | exercise6/RunDiffusionMPI.cpp:50-61 | a placed row dim*j/n + q of result i is row q+1 of rank j's i-th snapshot |
| RowGather.ReassembleSnapshots | exercise6/RunDiffusionMPI.cpp:41-63 | result i, row `row` in rank j's band, is owned row row - dim*j/n of rank j's snapshot i; together the bands fill every row exactly once |
| GridMpi.FloorSqrt | diffusion/src/DiffusionGrid.cpp:18 | the integer square root: s*s <= P < (s+1)*(s+1) |
| GridMpi.ProcessShape | diffusion/src/DiffusionGrid.cpp:18-20 | nHorizontal = floor(sqrt P) >= 1 and nVertical = P/nHorizontal >= nHorizontal, with nVertical*nHorizontal <= P |
| GridMpi.ShapeUsesAllRanksIff | diffusion/src/DiffusionGrid.cpp:18-20 | the process grid uses every rank exactly when nHorizontal divides P, and leaves fewer than nHorizontal ranks out |
| GridMpi.TenRanksLeaveOneOut | diffusion/src/DiffusionGrid.cpp:18-20 | ten ranks give a 3 x 3 process shape, which has a place for nine of them |
| GridMpi.CoordinatesOf | diffusion/src/DiffusionGrid.cpp:20 | a rank's row and column in the process grid, in row-major order |
| GridMpi.BlockAt | diffusion/src/DiffusionGrid.cpp:23-28 | rows and columns of a rank's block follow the floor partition gridDim*k/N on each axis |
| GridMpi.BlockFitsAndNeighbours | diffusion/src/DiffusionGrid.cpp:23-28 | a block lies inside the field, and it has a neighbour up, down, left or right exactly when it does not touch that side of the field |
| GridMpi.FramedSeedRingZero | diffusion/src/DiffusionGrid.cpp:32-45 | the frame of ghost cells around the whole field is zero in the seed |
| GridMpi.BlockSeedIsWindow | diffusion/src/DiffusionGrid.cpp:32-45 | a rank's seed, ghost cells included, is its window of one framed global seed |
| GridMpi.InitializeBlock | diffusion/src/DiffusionGrid.cpp:29-46 | the (nRows+2) x (nCols+2) local grid filled with the exclusive-square test for every cell |
| GridMpi.EdgeColumns | diffusion/src/DiffusionGrid.cpp:85-88 | the send buffers hold the kernel at columns 1 and nCols for rows 1 .. nRows |
| GridMpi.KernelRow | diffusion/src/DiffusionGrid.cpp:106-108 | the edge-row loop writes the kernel at columns 1 .. nCols of one row and keeps everything else |
| GridMpi.BulkRow | diffusion/src/DiffusionGrid.cpp:134-140 | a bulk row is the received left value, the kernel on columns 1 .. nCols, and the received right value |
| GridMpi.Bulk | diffusion/src/DiffusionGrid.cpp:133-141 | rows 2 .. nRows-1 become bulk rows; every other row keeps its buffer value |
| GridMpi.Step | diffusion/src/DiffusionGrid.cpp:82-144 | the receive buffers take a neighbour's column only where that neighbour exists, and the buffer becomes the step as written |
| GridMpi.StepAndSwap | diffusion/src/DiffusionGrid.cpp:81-146 | one step followed by the swap of grid and buffer is one application of `Advance` |
| GridMpi.AsWrittenSkipsEdgeRowGhosts | diffusion/src/DiffusionGrid.cpp:133-141 | the four ghost cells beside rows 1 and nRows keep their buffer value; every other cell is what the step with refreshed ghost columns writes |
| GridMpi.StitchedStepIsWindow | diffusion/src/DiffusionGrid.cpp:85-141 | with ghost columns refreshed on every owned row and halos taken from the global sweep, a rank's new buffer is its window of one global sweep everywhere but the four corners |
| GridMpi.StitchedCellIsSweep | diffusion/src/DiffusionGrid.cpp:85-141 | the same, cell by cell |
| GridMpi.EdgeRowGhostsKeepSeed | diffusion/src/DiffusionGrid.cpp:133-141 | as written, the ghost cells beside rows 1 and nRows keep their seed value after any number of steps |
| GridMpi.MissingNeighbourGivesZero | diffusion/src/DiffusionGrid.cpp:66-141 | with no left (right) neighbour the receive buffer stays zero, so bulk rows get 0 in that ghost column |
| GridMpi.StaleGhostExample | diffusion/src/DiffusionGrid.cpp:133-141 | on 4 ranks and gridDim 8, rank (1,1) still holds 1 in ghost cell (1,0) after one step, while its west neighbour's cell there is 1 - factor |
| GridMpi.LocalBlock | diffusion/src/DiffusionGrid.cpp:18-28 | a rank's block and its neighbours, from the process shape and its coordinates; the bounds, computed from 32-bit unsigned products stored in `int`s, are the floor partition while gridDim*nVertical < 2^32 and gridDim < 2^31 |
| GridMpi.BlockIteration | diffusion/src/DiffusionGrid.cpp:71-146 | one loop pass: capture when due, otherwise step and swap, and t advances by dt |
| GridMpi.RunBlock | diffusion/src/DiffusionGrid.cpp:46-148 | one local snapshot per request, snapshot k being the block's grid at the k-th capture step |
| GridMpi.DiffusionGridLocal | diffusion/src/DiffusionGrid.cpp:10-148 | the local snapshots of a rank, padded, taken at the capture steps of the sorted times |
| GridGather.OwnedRow | diffusion/src/DiffusionGrid.cpp:174-175 | the part of local row i+1 that is gathered: the row without its two ghost cells |
| GridGather.JoinedAt | diffusion/src/DiffusionGrid.cpp:169-176 | piece c of the gathered row starts at colBegin of rank c, and cell j of it is that rank's cell j |
| GridGather.RowBandAt | diffusion/src/DiffusionGrid.cpp:169-176 | in the band gathered across a process row, cell (i, colBegin_c + j) is owned cell (i, j) of the rank in column c |
| GridGather.ProcessRowRange | diffusion/src/DiffusionGrid.cpp:191-193 | process row r covers rows gridDim*r/nVertical up to gridDim*(r+1)/nVertical, the products taken in 32 bits without wrapping while gridDim*nVertical < 2^32 |
| GridGather.PlaceBand | diffusion/src/DiffusionGrid.cpp:186-199 | a band goes to the rows from globalRow on, and globalRow advances by its size |
| GridGather.ReceiveProcessRow | diffusion/src/DiffusionGrid.cpp:194-199 | after process row r is received the first rows of the snapshot are the bands of process rows 0 .. r, in order |
| GridGather.AssembleSnapshot | diffusion/src/DiffusionGrid.cpp:185-200 | the root's snapshot is the bands of all process rows stacked in order |
| GridGather.GatheredCell | diffusion/src/DiffusionGrid.cpp:150-206 | owned cell (i, j) of the rank at (r, c) lands at global cell (gridDim*r/nVertical + i, gridDim*c/nHorizontal + j) |
| GridGather.GatherGrid | diffusion/src/DiffusionGrid.cpp:150-206 | only rank 0 returns data, one gridDim-row snapshot per request; every other rank returns an empty list |

## Left out

- MPI transport. `MPI_Isend`, `MPI_Recv`, `MPI_Wait` and `MPI_Ssend` are not modelled. Neither are the `mpi::` wrappers, whose definitions are not part of this model. Received rows and columns are inputs (`halos(n)` for step n). So is the value a step reads one past the end of a row.
- The MPI calls wrapped in `assert` disappear under NDEBUG. The model assumes they run.
- Neighbour existence and the rank layout come from `MPI_Cart_create` and `MPI_Cart_shift` without periodicity. `GridMpi.CoordinatesOf` and `GridMpi.NeighboursOf` assume the row-major layout those calls give.
- Real concurrency. The `std::async` threads, the mutex and the condition variable are not modelled. The thread solver is proved in the lock-step order that the barrier enforces, and `Barriers.Released` states when a waiting caller may leave. Spurious wake-ups and lost notifications are not modelled.
- The OpenMP pragmas in the sequential solver are not modelled. The loops are modelled as sequential.
- Floating point. Cells and times are reals, and the model makes no claims about accuracy, stability or mass. Time is the exact step count `n*dt`. A float `t += dt` that stalls for a tiny dt is not modelled.
- Sequential.DiffusionSequential: requires dt > 0. With dt <= 0 and a positive requested time, the source loops forever.
- Dispatch.Diffusion, Dispatch.DiffusionOnCores, Parallel.DiffusionParallel, Parallel.DiffusionParallelNoD, RowMpi.DiffusionMPI and GridMpi.DiffusionGridLocal require dt > 0 for the same reason.
- Parallel.DiffusionParallel: requires dim < 2^31, dim/nCores >= 1, and dim/nCores >= 2 when nCores > 1. With fewer rows the source reads `grid_[1]` of a one-row band or `grid_[0]` of an empty one, which is undefined behaviour and is not modelled.
- Parallel.DiffusionParallelNoD and Dispatch.DiffusionOnCores carry the same restriction, for the same reason.
- Parallel.DiffusionParallel, Parallel.DiffusionParallelNoD, Parallel.AllocateWorkers and Dispatch.DiffusionOnCores: dims from 2^31 to 2^32 - 1 are not modelled. There the constructor's `int dimSigned = cols` is negative, so every worker starts from zeros instead of the disc (`Jobs.DiffusionJob.constructor` states this), and the solver is not carried through for that seed.
- Jobs.DiffusionJob.constructor: the `int` sum `rowOffset + i` is taken unbounded. Its overflow, once rowOffset + rows passes 2^31, is undefined behaviour and is not modelled.
- RowMpi.DiffusionMPI, RowGather.GatherSnapshot, RowGather.GatherAtRoot and RowGather.ReassembleSnapshots: require dim*nRanks < 2^32. The source computes `dim*rank/nRanks` with 32-bit unsigned products. From 2^32 on they wrap (`Partition.U32LastEndWraps`), the last rank's row count wraps to about 2^32, and the source allocates or writes out of range. That case is not modelled. Below the bound the 32-bit rule is the floor rule (`Partition.U32BeginAgrees`), and `Partition.EveryRowOwned` holds only there.
- GridMpi.LocalBlock and GridMpi.DiffusionGridLocal: require gridDim*nVertical < 2^32 and gridDim < 2^31. Lines 23-27 of diffusion/src/DiffusionGrid.cpp take `gridDim*row` and `gridDim*col` as unsigned products and store the bounds in `int`s. Wrapped or negative bounds are not modelled.
- GridGather.ProcessRowRange, GridGather.AssembleSnapshot and GridGather.GatherGrid: require gridDim*nVertical < 2^32, for the unsigned products at lines 191-192 of diffusion/src/DiffusionGrid.cpp.
- GridMpi.DiffusionGridLocal and GridGather.GatherGrid: sizes not divisible by floor(sqrt P) are modelled only for the ranks inside the process grid (`rank < nVertical*nHorizontal`). The leftover ranks, such as rank 9 of 10 (`GridMpi.TenRanksLeaveOneOut`), get `MPI_COMM_NULL` from `MPI_Cart_create` and then use that null communicator in `row()`, `col()` and the exchanges. That is erroneous MPI usage and is not modelled.
- GridMpi.DiffusionGridLocal: requires gridDim >= nVertical. Blocks with no owned row, where the source indexes rows 1 and nRows of a two-row grid, are not modelled.
- GridGather.GatherGrid: `mpi::Gather` across a process row is modelled as concatenation in column order, and the root's receives as completing in order. Both wrappers are outside this model.
- The command-line drivers, the CSV output and the timing are not modelled. This includes lines 64-79 of exercise6/RunDiffusionMPI.cpp.
- The barrier test program is not modelled.
- exercise2/DiffusionJob.h declares the same class as the later header, with `RunDiffusion(above, below, dt, snapshots, barrier)` and no `d` (lines 15-18). That is the signature of the only definition, diffusion/src/DiffusionJob.cpp:23-26. It shares `Jobs.DiffusionJob`.
- Declaration order of `grid_` and `buffer_` is reflected only in what it causes: `Jobs.DiffusionJob.constructor` states that the buffer starts as zeros.

## Findings

| source | as written | input that shows it | evidently intended | confidence | as-written member | corrected member |
|---|---|---|---|---|---|---|
| diffusion/src/DiffusionJob.cpp:34 | diffusion/include/diffusion/DiffusionJob.h:20-23 declares `RunDiffusion(above, below, d, dt, snapshots, barrier)`, and diffusion/src/DiffusionParallel.cpp:41 calls it. The only definition, diffusion/src/DiffusionJob.cpp:23-26, has no `d` parameter: it matches no declaration of its own header, only exercise2/DiffusionJob.h:15-18, so the called member is never defined. The model's `Parallel.DiffusionParallel` runs the body of that only definition, whose factor at line 34 is dt/ds^2 with no `d` in scope | d = 2, dt = 1, 2 columns: worker factor 1, solver factor 2 | factor d*dt/ds^2, as in the sequential and MPI solvers | high; not executed | Jobs.JobFactorIgnoresD | Grids.FactorIsOverSpacingSquared |
| diffusion/src/DiffusionParallel.cpp:16 | each core gets dim/nCores rows, so dim % nCores rows are never simulated or returned | dim = 5 on 2 cores: snapshots have 4 rows | the floor partition dim*k/nCores used by the MPI solvers, which covers every row while dim*nCores < 2^32 | high; not executed | Parallel.ParallelDropsRows | Partition.EveryRowOwned |
| diffusion/src/DiffusionMPI.cpp:54 | j runs up to dim-1, so the kernel reads grid[i][dim], one past the end of the row | any dim >= 2 with factor != 0: the last column's value depends on memory outside the row | j stops at dim-2, like the other solvers | high; not executed | RowMpi.SweepReadsPastEnd | RowMpi.StepCorrectedIsWindow |
| diffusion/src/DiffusionMPI.cpp:77 | the row from the rank below is received into buffer[nRows], the last owned row | 2 ranks, rank 0: its last owned row is replaced by rank 1's first row, and ghost row nRows+1 never changes | receive into the ghost row buffer[nRows+1] | high; not executed | RowMpi.ExchangeOverwritesLastRow | RowMpi.ExchangeCorrectedFillsGhosts |
| diffusion/src/DiffusionGrid.cpp:133 | ghost columns are refreshed only for rows 2 .. nRows-1, so cells (1,0), (1,nCols+1), (nRows,0), (nRows,nCols+1) keep their seed | 4 ranks, gridDim 8, rank (1,1): ghost (1,0) stays 1 after a step while the west rank's cell is 1 - factor | refresh the ghost columns on rows 1 .. nRows | high; not executed | GridMpi.StaleGhostExample | GridMpi.StitchedStepIsWindow |
