# Distributed red-black relaxation (`redb_3d`), modelled in Dafny

`MPI/redb_3d.c` relaxes a field `A[N][N][N]` with red-black Gauss-Seidel
under-relaxation on `nproc` MPI ranks. The first axis `i` is cut into
contiguous slabs of `(N - 2) / nproc` rows, one per rank. Each rank
initialises its slab. Then it repeats `relax` until the reduced `eps`
drops below `maxeps` or `itmax` calls have been made. Each call of `relax`
does four things:

1. It exchanges the ghost rows `start_row - 1` and `end_row` with the
   neighbouring ranks. It posts non-blocking sends and receives with tags
   315 and 316, then waits on a rank-dependent window of the four
   request slots.
2. It sweeps the red cells of its slab in place, and tracks the largest
   correction `private_eps`.
3. It exchanges again and sweeps the black cells.
4. It reduces the red sweep's maximum over all ranks and broadcasts it.

At the end, rank 0 gathers the slabs.

The model keeps one copy of `A` per rank, as a sequence indexed by rank.
It treats the cell values as an abstract type `V`. The per-cell update
and the magnitude `fabs(b)` of its correction are an abstract `Stencil`,
so every result holds for every update rule.

Modules, in dependency order:

- `Grid`: the cube `seq<seq<seq<V>>>`, cell updates, extensionality.
- `Partition`: `start_row`, `end_row` and `nrow` (lines 34-36), ownership,
  and the rows no rank owns.
- `Colouring`: the two `k` loops and the red/black cells they visit.
- `Reduce`: `Max`, `MPI_Reduce` with `MPI_MAX`, and `MPI_Bcast`.
- `Sweep`: the reference meaning of one coloured sweep. All cells of the
  colour are updated at once from the pre-sweep values, and the sweep's
  `eps` is the largest correction.
- `InPlace`: the actual in-place loop nest of lines 120-127 and 133-139.
  It is proved equal to the reference sweep.
- `Halo`: the requests `share_end_row` and `share_start_row` post, and the
  window `waitall` waits on.
- `Relax`: one call of `relax` on all ranks. Its main theorem,
  `RelaxIsSerial`, says that the ranks together compute the serial
  red-black relaxation of the rows `[1, q * nproc + 1)`, where `q` is the
  rows per rank. They also compute its serial `eps`.
- `Init`: `init` (lines 64-75).
- `Control`: the iteration loop (lines 42-49), the gather (line 52), and
  the whole program `Solve`.

Two behaviours of the code are modelled as written:

- Only the red sweep's corrections reach `eps`. The black sweep computes
  `b` but never folds it into `private_eps`.
- When `nproc` does not divide `N - 2`, the rows `[q * nproc + 1, N - 1)`
  belong to no rank. They are never initialised or relaxed, and they stay
  `0.` (`Partition.Coverage`, `Control.FrozenStayZero`). With `N = 10` on
  5 ranks these are rows 6 to 8 (`Partition.FiveRanksOnTen`), so such a
  run does not relax the same field as a run on one rank. When `nproc`
  does divide `N - 2`, the run is the one-rank run, field for field and
  `eps` for `eps` (`Control.DividedLayoutIsSingleRank`).

"Red" here means the cells of the first sweep. That sweep (line 122)
starts `k` at `1 + (i + j) % 2` and steps by 2, so it updates exactly the
cells whose `i + j + k` is odd. The black sweep (line 135) starts `k` at
`1 + (i + j + 1) % 2` and updates exactly the cells whose `i + j + k` is
even (`Colouring.KStart`).

A process count that does not divide `N - 2` can leave rows uncovered,
but it never makes two slabs overlap (`Partition.SlabsDisjoint`).

## Model

| member | source | states |
|---|---|---|
| Partition.RowsPerRank | MPI/redb_3d.c:34-35 | `(N - 2) / nproc` is the quotient `q` with `q * nproc <= N - 2 < (q + 1) * nproc` |
| Partition.SlabOf | MPI/redb_3d.c:34-36 | a rank's slab has `nrow == end_row - start_row == q` rows, inside `[1, N - 1]` |
| Partition.SlabsContiguous | MPI/redb_3d.c:34-35 | rank 0 starts at row 1, each slab ends where the next rank's begins, and the last ends at `q * nproc + 1` |
| Partition.OwnedRows | MPI/redb_3d.c:34-35 | some rank owns a row if and only if it lies in `[1, q * nproc + 1)` |
| Partition.Owner | MPI/redb_3d.c:34-35 | every row in `[1, q * nproc + 1)` has an owner among the ranks |
| Partition.SlabsDisjoint | MPI/redb_3d.c:34-35 | no row belongs to two ranks |
| Partition.Coverage | MPI/redb_3d.c:34-35 | the slabs cover every interior row `[1, N - 1)` exactly when `nproc` divides `N - 2` |
| Partition.GatherPlacement | MPI/redb_3d.c:52 | the gather puts rank `r`'s `nrow` rows at `A[1 + r * nrow]`, which is that rank's `start_row` |
| Partition.GatherSource | MPI/redb_3d.c:52 | every row `a` in `[1, q * nproc + 1)` is row `j < nrow` of the block rank `r` sends, with `a == 1 + r * nrow + j` |
| Partition.GatherSourceOwns | MPI/redb_3d.c:52 | the row a rank sends into `A[a]` is `start_row + j == a`, a row of its own slab |
| Partition.FiveRanksOnTen | MPI/redb_3d.c:34-36 | with `N = 10` on 5 ranks, each rank owns one row and rows 6 to 8 belong to nobody |
| Colouring.KStart | MPI/redb_3d.c:122 | the first `k` of a sweep is 1 or 2, and it gives `i + j + k` the colour's parity: odd for red here, even for black (line 135) |
| Colouring.KLoopVisits | MPI/redb_3d.c:133-135 | the loop nest of either colour (black here, red at lines 120-122) visits a cell if and only if it is a cell of that colour in the slab's interior |
| Colouring.ColoursSplitSlab | MPI/redb_3d.c:120-135 | the red and black sweeps together visit every interior cell of the slab, and no cell twice |
| Colouring.NoAdjacentSelected | MPI/redb_3d.c:124 | none of the six neighbours a cell's update reads has that cell's colour |
| Reduce.Max | MPI/redb_3d.c:6 | `Max(a, b)` is at least both arguments and equal to one of them |
| Reduce.ReduceMax | MPI/redb_3d.c:142 | the reduced value bounds every rank's `private_eps` and is one of them |
| Reduce.Broadcast | MPI/redb_3d.c:143 | after the broadcast, every rank holds the root's value |
| Reduce.AllRanksSeeGlobalMax | MPI/redb_3d.c:142-143 | after reduce and broadcast, all ranks hold the same `eps`, and it bounds every rank's local maximum |
| Grid.NeighbourhoodRows | MPI/redb_3d.c:124 | a cell's six-neighbour stencil reads only the rows `i - 1`, `i` and `i + 1` |
| Sweep.MaxCorrectionIsMax | MPI/redb_3d.c:125 | the sweep's `eps` is at least `0.` and at least every correction of the colour, and it is `0.` or attained by one of them |
| Sweep.MaxCorrectionUnique | MPI/redb_3d.c:125 | two values that both meet that description are equal |
| Sweep.WritesConfined | MPI/redb_3d.c:126 | a sweep writes only the cells of its colour in its slab's interior |
| Sweep.RowOutsideSlab | MPI/redb_3d.c:120 | rows outside the slab, ghost rows included, come out of a sweep unchanged |
| Sweep.RowReadsNeighbours | MPI/redb_3d.c:124 | a swept row and its corrections depend only on that row and its two neighbours before the sweep |
| InPlace.UpdateCell | MPI/redb_3d.c:124-126 | the innermost loop body keeps the sweep invariant `SweepState` while it moves `k` on by two: the working field is the field swept up to the cursor, and `eps` is the largest correction so far, attained at some swept cell |
| InPlace.SweepPencil | MPI/redb_3d.c:122-126 | the `k` loop, from `KStart` to `N - 2` in steps of two, carries `SweepState` from the start of column `j` to the start of column `j + 1` |
| InPlace.SweepPlane | MPI/redb_3d.c:121-126 | the `j` loop over `[1, N - 2]` carries `SweepState` from the start of row `i` to the start of row `i + 1` |
| InPlace.ReadsPreSweep | MPI/redb_3d.c:124 | when the in-place loop reaches a cell, its six neighbours still hold their pre-sweep values |
| InPlace.SweepColour | MPI/redb_3d.c:120-127 | the in-place loop nest leaves the field a simultaneous sweep would, changes no other cell, and ends with `private_eps` equal to the largest correction |
| Halo.SlotsByPosition | MPI/redb_3d.c:77-108 | for each rank position (only, first, middle, last), the slots of `Posted` and the window `WaitWindow` (`waitall`, lines 96-109) agree: `{}`, `{2, 3}`, `{0..3}`, `{0, 1}` |
| Halo.WaitMatchesPosted | MPI/redb_3d.c:96-108 | `WaitWindow`, the window `waitall` passes to `MPI_Waitall`, waits on a slot if and only if that slot holds a posted request, and the window stays inside `requests[4]` |
| Halo.SlotsDistinct | MPI/redb_3d.c:79-92 | no two posted requests share a slot of `requests` |
| Halo.SingleProcess | MPI/redb_3d.c:77-108 | a single rank posts nothing and waits on nothing |
| Halo.PostedExactly | MPI/redb_3d.c:77-94 | `Posted`, the requests of `ShareEndRow` (`share_end_row`, lines 77-84) followed by those of `ShareStartRow` (`share_start_row`, lines 86-94), holds a request if and only if it is one of the four guarded sends and receives |
| Halo.MessagesMatch | MPI/redb_3d.c:77-94 | every send has a receive posted by its peer with the same tag and row, and every receive has such a send |
| Halo.RowsInBounds | MPI/redb_3d.c:79-92 | every request's row lies in `[0, N - 1]`, receives write only `start_row - 1` or `end_row`, and sends read only `end_row - 1` or `start_row` |
| Halo.BuffersApart | MPI/redb_3d.c:79-92 | when each rank owns at least one row, no send reads a row a receive writes, and every send reads an owned row |
| Halo.EndRanksApart | MPI/redb_3d.c:79-92 | rank 0 and the last rank never receive into a row they send from, even with empty slabs |
| Halo.EmptySlabsShareBuffers | MPI/redb_3d.c:79-82 | with `N = 4` on 3 ranks, rank 1 receives into row 0 and sends from row 0 in the same exchange |
| Halo.MatchingSend | MPI/redb_3d.c:79-92 | the send a receive is matched with is the first send the peer posted to the receiver with the receive's tag; no match means the peer posted no such send |
| Halo.ReceiveMeetsSend | MPI/redb_3d.c:79-92 | every posted receive is matched with a send of its peer, and that send reads the row the receive writes |
| Relax.ReceiveFills | MPI/redb_3d.c:79-108 | a posted receive lies in the window `waitall` waits on, and `Complete` (one request finished by `MPI_Waitall`) on it writes into its row the same row of the sender's copy, which is the row the matching send reads |
| Relax.PostedCompletes | MPI/redb_3d.c:116-118 | completing a rank's posted requests fills exactly its two ghost rows, each from the row its neighbour's matching send reads |
| Relax.ExchangeRows | MPI/redb_3d.c:116-118 | after `Exchange` (`share_end_row(); share_start_row(); waitall();` on every rank, lines 116-118 and 129-131), row `start_row - 1` holds the copy of rank `r - 1` and row `end_row` that of rank `r + 1` (a rank without that neighbour keeps its own), and every other row is unchanged |
| Relax.ExchangeAgrees | MPI/redb_3d.c:129-131 | ranks that agree with a global field on the rows they own agree with it on their ghost rows too after an exchange |
| Relax.SweepAgrees | MPI/redb_3d.c:120-127 | when every rank agrees with the field on its slab and ghost rows, the per-rank sweeps agree with the serial sweep of all owned rows |
| Relax.CorrectionAgrees | MPI/redb_3d.c:124-125 | each correction a rank computes equals the serial sweep's correction at that cell |
| Relax.EpsAgrees | MPI/redb_3d.c:142 | the maximum of the ranks' `private_eps` is the serial sweep's `eps` |
| Relax.RelaxIsSerial | MPI/redb_3d.c:111-144 | `DistRelax`, one call of `relax` on all ranks, keeps them in step with the serial red-then-black relaxation, and it returns the serial red sweep's `eps` |
| Relax.SweepRank | MPI/redb_3d.c:120-127 | one rank's sweep computes that rank's entry of the distributed sweep and its `private_eps` |
| Relax.SweepEach | MPI/redb_3d.c:120-139 | sweeping rank after rank gives every rank's swept copy and local maximum |
| Relax.RelaxRanks | MPI/redb_3d.c:111-144 | the executable `relax` computes the distributed relaxation, and every rank sees the same broadcast `eps` |
| Relax.GatherIsGlobal | MPI/redb_3d.c:52 | when the ranks agree with a field, `Gather`, rank 0's `A` after `MPI_Gather`, which stores row `j` of rank `r`'s block at `A[1 + r * nrow + j]`, is that field |
| Init.InitialisedCells | MPI/redb_3d.c:64-75 | `Initialised`, built from `InitValue` (lines 70-73), holds in owned rows `0.` on the `j` and `k` faces and `4 + i + j + k` in the other cells; other rows are untouched |
| Init.InitialisedAdjacent | MPI/redb_3d.c:66 | initialising two adjacent slabs, in either order, initialises their union |
| Init.InitLine | MPI/redb_3d.c:68-74 | the `k` loop fills a column with the `init` values |
| Init.InitPlane | MPI/redb_3d.c:67-74 | the `j` and `k` loops fill row `i` as `init` leaves it |
| Init.InitSlab | MPI/redb_3d.c:66-74 | the loop nest initialises exactly the rows `[start_row, end_row)` |
| Control.InitialAgree | MPI/redb_3d.c:40 | after every rank's `init`, all ranks agree with one initial field on the rows they track |
| Control.InitRanks | MPI/redb_3d.c:40 | running `init` on every rank yields each rank's initialised copy |
| Control.Budget | MPI/redb_3d.c:42 | the loop runs at most `itmax` times, and not at all when `itmax < 1` |
| Control.TraceAt | MPI/redb_3d.c:42-49 | entry `t` of the history of `eps` values is the value of call `t + 1`, however long the history |
| Control.KeptGoingMeans | MPI/redb_3d.c:47-48 | the loop went on past a call if and only if that call's `eps` was at least `maxeps` |
| Control.HistoryStep | MPI/redb_3d.c:44-48 | a call that did not stop the loop, followed by one more call, extends the `eps` history by that call's value |
| Control.Step | MPI/redb_3d.c:44-45 | one pass of the loop body keeps the ranks in step with the serial relaxation and records its `eps` |
| Control.Iterate | MPI/redb_3d.c:42-49 | the loop stops with `converged` exactly when the last `eps` fell below `maxeps`, every earlier `eps` was at least `maxeps`, and without convergence it ran all `itmax` calls |
| Control.IterateAndGather | MPI/redb_3d.c:42-52 | the loop followed by the gather leaves the serially relaxed field on rank 0 |
| Control.Solve | MPI/redb_3d.c:34-52 | the whole program gathers the initial field after `calls` serial relaxations, with `calls` and the convergence flag as the loop defines them |
| Control.RelaxKeepsFrozen | MPI/redb_3d.c:120-139 | a relaxation changes no cell on a face and no cell in a row nobody owns |
| Control.FrozenStayZero | MPI/redb_3d.c:64-75 | the cube's faces and the rows nobody owns hold `0.` after `init` and after every call of `relax` |
| Control.DividedLayoutSweepsAll | MPI/redb_3d.c:34-35 | when `nproc` divides `N - 2`, the ranks' sweeps are the sweep of the whole interior |
| Control.SameRowsSameRun | MPI/redb_3d.c:34-35 | two process counts whose ranks own the same rows give the same field and the same `eps` after any number of calls of `relax` |
| Control.SameRowsSameTrace | MPI/redb_3d.c:42-49 | two process counts whose ranks own the same rows give the loop the same history of `eps` values |
| Control.DividedLayoutIsSingleRank | MPI/redb_3d.c:34-45 | when `nproc` divides `N - 2`, the run on `nproc` ranks starts from the one-rank initial field and has the one-rank field and `eps` after every call |
| Control.DividedLayoutSameTrace | MPI/redb_3d.c:42-49 | when `nproc` divides `N - 2`, the history of `eps` values the loop tests is the one-rank history |

## Left out

- MPI transport. `MPI_Isend`, `MPI_Irecv`, `MPI_Waitall`, `MPI_Barrier`
  and the collectives are modelled by their effect, not their scheduling.
  A receive takes effect only when its slot lies in the window
  `MPI_Waitall` waits on, and it then copies, from the sender's
  pre-exchange copy, the row named by the send it is matched with (same
  peer and tag). A middle rank (`0 < rank < nproc - 1`) with an empty
  slab, which happens when `nproc > N - 2` and `nproc >= 3`, would send
  from and receive into the same row (`Halo.EmptySlabsShareBuffers`); the
  two end ranks never do (`Halo.EndRanksApart`). That overlap is a race in MPI, and the
  model's exchange is the idealised one.
- Floating point. `w = 0.5`, the division by `6.`, `fabs` and the `double`
  conversion of `4. + i + j + k` are abstract (`Stencil`, `ofInt`), and
  `eps` is a `real`. The model does not cover NaN or rounding, or the
  numeric convergence claims (monotone `eps`, behaviour near a fixed
  point).
- `verify()`, `printf`, `MPI_Wtime` and the timing output, which only
  report, and `MPI_Init` and `MPI_Finalize`, which set up and tear down
  the communicator: none of them takes part in the relaxation.
- The unused `local_eps`. The globals `i`, `j`, `k` and `b` are modelled
  as loop locals.
- `N`, `maxeps` and `itmax` are parameters, with `N >= 3`, rather than
  the constants 258, `1e-8` and 100.
- The reset `eps = 0.` on line 44. The broadcast at the end of `relax`
  overwrites `eps` on every rank before it is read.
- The gather's buffer overlap. On rank 0 the send buffer `A[start_row]`
  is the receive buffer `A[1]`. The model treats it as a plain copy.
  Only rank 0's `A` after the gather is modelled.
- Control.Iterate: the statement that every earlier `eps` was at least
  `maxeps` is made on the trace of `eps` values (`KeptGoing`), not
  directly on the relaxed fields. `Control.KeptGoingMeans` and
  `Control.TraceAt` state the entrywise meaning, and
  `Control.IterateAndGather` states the last entry directly.
