# Jacobi relaxation on row slabs: a Dafny model

`Ex4/mpi_code/mpi_jacobi.c` solves the 2D Laplace equation on a
(D+2) x (D+2) grid by Jacobi relaxation. The work is spread over `np` MPI
ranks, and each rank owns a contiguous band of `loc` interior rows. A rank
stores its band in two flat buffers, `matrix` and `matrix_new`. Each buffer
has (loc+2) rows of D+2 cells, and cell (i, j) is at index `i*(D+2)+j`.
Row 0 and row loc+1 are ghost rows. They hold either a neighbour's
boundary row or the true domain boundary.

This project models the sequential core of that program:

- **Partition and ownership** (module `Partition`): how many rows each
  rank owns (`loc_dimension`), the catch-up `offset`, and each rank's
  first and last global row. The peek's ownership test and the mapping
  from global to local rows are in module `Peek`.
- **Slab initialisation** (modules `Boundary` and `SlabInit`):
  - the 0.5 initial guess, written into `matrix` only;
  - the linear boundary ramp on the left column, the top row and the
    bottom row, written into both buffers.
- **`evolve`** (module `Stencil`): the four-neighbour average over a range
  of rows, as a method on two arrays.
- **The iteration loop** (module `Iteration`): per iteration, the exchange,
  the three `evolve` calls and the pointer swap. One rank's loop is a
  method on its two arrays. All ranks together form a function on the
  sequence of their buffers.
- **The blocking halo exchange** (module `Halo`): one rank's two
  send-receive pairs as a method, and their net effect on all ranks.
- **The final gather** (module `Gather`): rank 0 receives every other
  rank's rows into its own buffer, with its running row counter, and dumps
  them with `save_gnuplot`.

Module `FlatIndex` holds the row-major addressing. It defines `i*w`, `k/w`
and `k%w` by recursion and proves them equal to the product, quotient and
remainder. That keeps nonlinear arithmetic out of every other proof.

Cell values are exact `real`s. Every boundary value in the program is an
integer multiple k of `increment = 100/(D+1)`, so the model measures cell
values in units of `increment`. The boundary value k is then the real k,
and the initial guess 0.5 is (D+1)/200. The stencil is linear and
homogeneous: scaling every cell of `matrix` by a constant scales every
value `evolve` writes by the same constant (`Stencil.EvolveScales`).

A rank's neighbours, and the rows they send, are parameters of the
per-rank methods. The all-ranks functions compute them from the other
ranks' buffers. `None` stands for `MPI_PROC_NULL`: a transfer to or from it
does nothing (section 3.11 of the MPI 3.1 standard).

The program places no requirement on D relative to np. The model assumes
D >= np, so every rank owns at least one row. With loc = 0, the calls
`evolve(loc, loc+1)` and `evolve(1, 2)` would read outside the buffer.

## Model

| member | source | states |
|---|---|---|
| FlatIndex.RowBaseIsProduct | Ex4/mpi_code/mpi_jacobi.c:107 | the recursive row start RowBase(i, w) is the C offset `i * w` |
| FlatIndex.DecodeIsDivMod | Ex4/mpi_code/mpi_jacobi.c:77-78 | the recursive row and column of a flat index are its quotient `/` and remainder `%` by the width |
| FlatIndex.DivModUnique | Ex4/mpi_code/mpi_jacobi.c:77-78 | a number written as i*w + j with 0 <= j < w has quotient i and remainder j |
| FlatIndex.Decode | Ex4/mpi_code/mpi_jacobi.c:107 | decoding the address `i*(D+2)+j` of a cell with j < D+2 gives back row i and column j |
| FlatIndex.Decompose | Ex4/mpi_code/mpi_jacobi.c:107 | every flat index is the address of its row and column, and its column is below the width |
| FlatIndex.RowBaseMono | Ex4/mpi_code/mpi_jacobi.c:97 | a later row starts at least one full row later, so rows of a buffer do not overlap |
| FlatIndex.RowBound | Ex4/mpi_code/mpi_jacobi.c:97 | an index below the size of a `rows`-row buffer lies in one of those rows |
| FlatIndex.RowLowerBound | Ex4/mpi_code/mpi_jacobi.c:107 | an index at or past row i's first cell lies in row i or a later one |
| Partition.QuotaRes | Ex4/mpi_code/mpi_jacobi.c:77-78 | the quota and remainder are `dimension/np` and `dimension%np`, and D = np*quota + remainder |
| Partition.LocRows | Ex4/mpi_code/mpi_jacobi.c:77-79 | a rank owns quota or quota+1 rows, and quota+1 exactly when its rank is below the remainder |
| Partition.LocRowsPositive | Ex4/mpi_code/mpi_jacobi.c:77-79 | with D >= np every rank owns at least one row |
| Partition.SumRowsClosedForm | Ex4/mpi_code/mpi_jacobi.c:77-79 | ranks 0 .. k-1 together own k*quota + min(k, res) rows |
| Partition.PartitionSum | Ex4/mpi_code/mpi_jacobi.c:77-79 | the row counts of all ranks sum to exactly D |
| Partition.PartitionBalance | Ex4/mpi_code/mpi_jacobi.c:77-79 | any two ranks' row counts differ by at most one, and a lower rank never owns fewer rows |
| Partition.OffsetCountsLowerRows | Ex4/mpi_code/mpi_jacobi.c:111 | the catch-up `offset` (res from rank res on, 0 before) makes `rank*loc + offset` count exactly the rows of all lower ranks, whether the rank holds an extra row or not |
| Partition.StartIsPrefixSum | Ex4/mpi_code/mpi_jacobi.c:203 | `glob_dimension_start = rank*loc + 1 + offset` is one past the rows of all lower ranks, i.e. r*q + min(r, res) + 1 |
| Partition.EndIsPrefixSum | Ex4/mpi_code/mpi_jacobi.c:204 | `glob_dimension_end = start + loc - 1` is the number of rows ranks 0 .. r hold together |
| Partition.OwnsIsOwnBand | Ex4/mpi_code/mpi_jacobi.c:205 | the peek's range test `start <= row_peek <= end` accepts exactly the rows rank r adds to those of the lower ranks |
| Partition.Contiguous | Ex4/mpi_code/mpi_jacobi.c:203-204 | rank r+1's first row directly follows rank r's last row |
| Partition.Coverage | Ex4/mpi_code/mpi_jacobi.c:203-204 | the ranges start at row 1 on rank 0 and end at row D on the last rank |
| Partition.StartsOrdered | Ex4/mpi_code/mpi_jacobi.c:203-204 | every row of a lower rank precedes every row of a higher rank, so the ranges are disjoint |
| Partition.OwnerFrom | Ex4/mpi_code/mpi_jacobi.c:205 | a scan from rank r finds a rank at or after r whose range contains the row |
| Partition.Owner | Ex4/mpi_code/mpi_jacobi.c:205 | every interior row 1 .. D has a rank whose range contains it |
| Partition.OwnershipUnique | Ex4/mpi_code/mpi_jacobi.c:205 | a row in 1 .. D passes the range test on exactly one rank, and a row outside 1 .. D on none |
| Boundary.InitialGuess | Ex4/mpi_code/mpi_jacobi.c:107 | the model's initial guess, times `increment`, is the program's 0.5 |
| Boundary.LeftCoef | Ex4/mpi_code/mpi_jacobi.c:115-116 | the left-column coefficient `i + rank*loc + offset` of local row i is its global row number GlobStart(r) - 1 + i |
| Boundary.BottomGhostCoef | Ex4/mpi_code/mpi_jacobi.c:128-129 | the separately written bottom-ghost coefficient `1 + (rank+1)*loc + offset` is the left-column formula at row loc+1 |
| Boundary.TopGhostCoef | Ex4/mpi_code/mpi_jacobi.c:141-142 | the separately written top-ghost coefficient `loc + (rank-1)*loc + offset` is the left-column formula at row 0 |
| Boundary.BottomRowCoef | Ex4/mpi_code/mpi_jacobi.c:122-123 | the bottom row's coefficient `D + 1 - j` lies in 1 .. D+1, is D+1 at the corner column 0 and 1 at column D |
| Boundary.NoDiscontinuity | Ex4/mpi_code/mpi_jacobi.c:141 | rank r's top-ghost coefficient equals rank r-1's coefficient at its last row, and rank r-1's bottom-ghost coefficient equals rank r's at row 1 |
| Boundary.RampMeetsCorners | Ex4/mpi_code/mpi_jacobi.c:114-135 | the ramp starts at 0 on rank 0's row 0 and reaches D+1, the bottom row's column-0 value, on the last rank's row loc+1 |
| Boundary.InitFixedCells | Ex4/mpi_code/mpi_jacobi.c:101-143 | after initialisation each fixed cell holds its fixed value in both `matrix` and `matrix_new`: column 0, column D+1 (0), rank 0's row 0 (0) and the last rank's row loc+1 (D+1-j). Every other cell holds 0.5 in `matrix` and 0 in `matrix_new` |
| Boundary.InitBoundaryHolds | Ex4/mpi_code/mpi_jacobi.c:101-143 | both initial buffers of every rank satisfy the boundary invariant |
| Stencil.NeighboursInside | Ex4/mpi_code/mpi_jacobi.c:261-265 | the four neighbours a cell in range reads lie inside the buffer |
| Stencil.EvolveSpec | Ex4/mpi_code/mpi_jacobi.c:259-265 | the buffer after `evolve` has the size of `matrix_new`; which cells it writes and with what is stated by Stencil.Evolve, ExtendRange, EmptyRangeIsIdentity and Sweep.EvolvedCell |
| Stencil.EvolveRow | Ex4/mpi_code/mpi_jacobi.c:260-265 | the inner loop over columns 1 .. D of row i leaves `matrix_new` as EvolveSpec for the one-row range [i, i+1) |
| Stencil.Evolve | Ex4/mpi_code/mpi_jacobi.c:254-266 | `evolve(row_start, row_end)` leaves `matrix` unchanged and `matrix_new` as EvolveSpec: exactly the in-range cells are written, each with the average of its neighbours in `matrix` |
| Stencil.ExtendRange | Ex4/mpi_code/mpi_jacobi.c:259 | evolving row i after rows [start, i) equals evolving [start, i+1) |
| Stencil.EmptyRangeIsIdentity | Ex4/mpi_code/mpi_jacobi.c:259 | an empty row range changes nothing |
| Stencil.EvolveIdempotent | Ex4/mpi_code/mpi_jacobi.c:259-265 | repeating an evolve over the same range writes the same values |
| Stencil.SplitEquivalence | Ex4/mpi_code/mpi_jacobi.c:173-183 | for every loc >= 1, `evolve(2,loc)`, `evolve(loc,loc+1)`, `evolve(1,2)` in that order equal one `evolve(1,loc+1)` |
| Stencil.EvolveScales | Ex4/mpi_code/mpi_jacobi.c:261 | the stencil commutes with scaling all cells by a constant |
| SlabInit.InitSlab | Ex4/mpi_code/mpi_jacobi.c:97-143 | from zero-filled buffers, the four initialisation blocks leave `matrix` and `matrix_new` exactly as InitBuffer describes |
| SlabInit.InitComposition | Ex4/mpi_code/mpi_jacobi.c:105-143 | the four blocks applied in program order to a zero cell give InitCell |
| SlabInit.FillInitialGuess | Ex4/mpi_code/mpi_jacobi.c:105-107 | the guess loop sets columns 1 .. D of rows 0 .. loc+1 of `matrix` to 0.5 and leaves every other cell as it was |
| SlabInit.SetLeftColumn | Ex4/mpi_code/mpi_jacobi.c:114-117 | column 0 of rows 0 .. loc of both buffers gets the ramp; no other cell changes |
| SlabInit.LeftColumnRowStep | Ex4/mpi_code/mpi_jacobi.c:115 | within one row only column 0 is a left-column cell |
| SlabInit.SetBottomBoundary | Ex4/mpi_code/mpi_jacobi.c:120-130 | the last rank writes D+1-j into columns 0 .. D of row loc+1; any other rank writes only that row's column 0; both buffers; nothing else changes |
| SlabInit.SetTopBoundary | Ex4/mpi_code/mpi_jacobi.c:133-143 | rank 0 zeroes row 0; any other rank writes only its column 0; both buffers; nothing else changes |
| Halo.SetRow | Ex4/mpi_code/mpi_jacobi.c:249 | a buffer with row i replaced: the row's cells take the new values, every other cell keeps its value |
| Halo.ReceiveRow | Ex4/mpi_code/mpi_jacobi.c:249 | receiving one row into row i of the buffer is SetRow |
| Halo.SetRowKeepsRow | Ex4/mpi_code/mpi_jacobi.c:249-250 | replacing row i leaves every other row unchanged, so row loc is sent unchanged after ghost row loc+1 is received |
| Halo.ApplyHalo | Ex4/mpi_code/mpi_jacobi.c:249-250 | the two receives keep the buffer's size; which rows they replace is stated by Halo.ApplyHaloRows |
| Halo.ReceivesMakeHalo | Ex4/mpi_code/mpi_jacobi.c:249-250 | receiving ghost row loc+1 and then ghost row 0, each only when the neighbour exists, is ApplyHalo |
| Halo.ExchangeBorders | Ex4/mpi_code/mpi_jacobi.c:248-251 | a rank sends row 1 up and row loc down (nothing toward `MPI_PROC_NULL`); its buffer becomes ApplyHalo of the old buffer and the rows received |
| Halo.ApplyHaloRows | Ex4/mpi_code/mpi_jacobi.c:248-251 | after ApplyHalo, ghost row 0 is the row from above (or unchanged), ghost row loc+1 is the row from below (or unchanged), and no interior row changes |
| Halo.FromPrev | Ex4/mpi_code/mpi_jacobi.c:146-149 | rank r receives rank r-1's row loc(r-1) from above, and rank 0 receives nothing |
| Halo.FromNext | Ex4/mpi_code/mpi_jacobi.c:147-150 | rank r receives rank r+1's row 1 from below, and the last rank receives nothing |
| Halo.ExchangeTopGhost | Ex4/mpi_code/mpi_jacobi.c:250 | after an exchange, rank r's ghost row 0 equals row loc(r-1) of rank r-1; on rank 0 it is unchanged |
| Halo.ExchangeBottomGhost | Ex4/mpi_code/mpi_jacobi.c:249 | after an exchange, rank r's ghost row loc+1 equals row 1 of rank r+1; on the last rank it is unchanged |
| Halo.ExchangeKeepsInterior | Ex4/mpi_code/mpi_jacobi.c:249-250 | the exchange changes no cell of rows 1 .. loc of any rank |
| Halo.ExchangeKeepsBoundary | Ex4/mpi_code/mpi_jacobi.c:249-250 | when all ranks satisfy the boundary invariant, each rank still does after the exchange |
| Halo.ExchangedCellKept | Ex4/mpi_code/mpi_jacobi.c:249-250 | one cell of the exchanged buffer keeps its fixed value when it is a fixed cell |
| Halo.TopGhostReceivesFixed | Ex4/mpi_code/mpi_jacobi.c:250 | columns 0 and D+1 of the row rank r-1 sends down hold the fixed values of rank r's ghost row 0 |
| Halo.BottomGhostReceivesFixed | Ex4/mpi_code/mpi_jacobi.c:249 | columns 0 and D+1 of the row rank r+1 sends up hold the fixed values of rank r's ghost row loc+1 |
| Iteration.EvolveAll | Ex4/mpi_code/mpi_jacobi.c:173-183 | the three `evolve` calls of an iteration leave `matrix_new` as one sweep over rows 1 .. loc |
| Iteration.Iterate | Ex4/mpi_code/mpi_jacobi.c:158-192 | after `iterations` iterations, `matrix` and `matrix_new` are the original two arrays, swapped once per iteration and never copied, and hold what RankRun describes |
| Iteration.RankStep | Ex4/mpi_code/mpi_jacobi.c:164-188 | one iteration of one rank (exchange, the stencil over rows 1 .. loc, pointer swap) keeps both buffers' sizes; the new `matrix` is the stencil over the exchanged buffer and the new `matrix_new` the exchanged buffer (Iteration.EvolveAll, Iteration.Iterate) |
| Iteration.SystemRun | Ex4/mpi_code/mpi_jacobi.c:158-192 | any number of iterations of all ranks keeps every buffer's size |
| Iteration.RunKeepsBoundary | Ex4/mpi_code/mpi_jacobi.c:158-192 | a state whose ranks hold their fixed values still does after any number of iterations |
| Iteration.LastStepKeepsBoundary | Ex4/mpi_code/mpi_jacobi.c:158-192 | the iteration after m iterations keeps the fixed cells the first m kept |
| Iteration.Trace | Ex4/mpi_code/mpi_jacobi.c:146-150 | in iteration t rank r receives its neighbours' boundary rows of the state after t iterations; every element has the size of a row |
| Iteration.TraceLast | Ex4/mpi_code/mpi_jacobi.c:158-192 | unfolding step for the proofs: the trace of m+1 iterations is the trace of m followed by what rank r receives in iteration m |
| Iteration.RankRunSnoc | Ex4/mpi_code/mpi_jacobi.c:158-192 | unfolding step for the proofs: a rank's loop over t+1 iterations is its loop over t followed by one more RankStep |
| Iteration.StepAt | Ex4/mpi_code/mpi_jacobi.c:164-188 | unfolding step for the proofs: rank r's part of one iteration of all ranks is its own RankStep fed with what its neighbours send |
| Iteration.RunSplit | Ex4/mpi_code/mpi_jacobi.c:158-192 | unfolding step for the proofs: m+1 iterations of all ranks are m iterations followed by one more |
| Iteration.RunStepAt | Ex4/mpi_code/mpi_jacobi.c:158-192 | if rank r's part of the state after m iterations is its own loop over the trace, so is its part after m+1 |
| Iteration.RunIsRankRun | Ex4/mpi_code/mpi_jacobi.c:158-192 | after any number of iterations of all ranks, each rank's buffers are what its own loop computes when fed the rows its neighbours actually send |
| Iteration.KeptAt | Ex4/mpi_code/mpi_jacobi.c:158-192 | a rank of a state that keeps the fixed cells holds the fixed values in both its buffers |
| Iteration.RunRank | Ex4/mpi_code/mpi_jacobi.c:97-192 | `main` up to the end of the iteration loop: from zero-filled buffers, initialisation then `iterations` iterations leave `matrix` and `matrix_new` as rank r's part of the all-ranks run, with the fixed values in both |
| Iteration.EvolveKeepsBoundary | Ex4/mpi_code/mpi_jacobi.c:173-183 | the stencil over rows 1 .. loc never writes a fixed cell |
| Iteration.SystemStepKeepsBoundary | Ex4/mpi_code/mpi_jacobi.c:158-188 | one iteration of all ranks keeps the boundary invariant in both buffers of every rank |
| Iteration.RankStepKeepsBoundary | Ex4/mpi_code/mpi_jacobi.c:164-188 | a rank's exchange and stencil, fed by neighbours that keep their fixed cells, keep its own fixed cells in both buffers |
| Iteration.InitKeepsBoundary | Ex4/mpi_code/mpi_jacobi.c:101-143 | every rank's initial buffers satisfy the boundary invariant |
| Iteration.FixedCellValue | Ex4/mpi_code/mpi_jacobi.c:114-143 | a buffer satisfying the boundary invariant holds the fixed value at fixed cell (i, j) |
| Iteration.FixedCellsAgree | Ex4/mpi_code/mpi_jacobi.c:186-188 | after any number of iterations, `matrix` and `matrix_new` of every rank agree on every fixed cell and hold its fixed value there |
| Peek.PeekLocalRow | Ex4/mpi_code/mpi_jacobi.c:206 | on the rank whose test passes, `row_peek - rank*loc - offset` is a local row in [1, loc], and that local row is global row `row_peek` |
| Peek.PeekAnsweredOnce | Ex4/mpi_code/mpi_jacobi.c:205 | every `row_peek` in 1 .. D passes the test on exactly one rank; the accepted `row_peek = 0` passes it on none |
| Peek.PeekAsWrittenReadsNextCell | Ex4/mpi_code/mpi_jacobi.c:207 | as written, the read stays inside the buffer but addresses local row lr+1 and column col_peek+1, i.e. global cell (row_peek+1, col_peek+1) |
| Peek.PeekAsWrittenExample | Ex4/mpi_code/mpi_jacobi.c:207 | with D = 4 and two ranks, row_peek = 2 makes rank 0 read its ghost row 3 |
| Peek.PeekReadsRequestedCell | Ex4/mpi_code/mpi_jacobi.c:207 | the corrected index stays inside the buffer and addresses global cell (row_peek, col_peek) |
| Peek.PeekIndexAsWritten | Ex4/mpi_code/mpi_jacobi.c:207 | the index as written, `(lr + 1)*(D+2) + (col_peek + 1)`, lies one row and one column past the corrected index |
| Peek.PeekIndexZeroBased | Ex4/mpi_code/mpi_jacobi.c:205-207 | with 0-based row_peek and col_peek, the corrected index is the 1-based index of cell (row_peek+1, col_peek+1) |
| Peek.PeekZeroBasedReadsRequestedCell | Ex4/mpi_code/mpi_jacobi.c:205-207 | for 0-based row_peek, col_peek < D, the corrected test `start <= row_peek+1 <= end` holds on exactly the owner of global row row_peek+1, whose corrected read stays in the buffer at that row and column col_peek+1 |
| Peek.PeekZeroBasedExample | Ex4/mpi_code/mpi_jacobi.c:205 | with D = 4 and two ranks, row_peek = 2 passes the test as written on rank 0 though global row 3 belongs to rank 1, and row_peek = 0 passes it on no rank |
| Gather.SendCount | Ex4/mpi_code/mpi_jacobi.c:213-214 | a middle rank sends loc rows, the last rank loc+1; the rows sent end at or before the bottom boundary row D+1 |
| Gather.ReceiveFits | Ex4/mpi_code/mpi_jacobi.c:222 | a receive into rows 1 .. count never exceeds rank 0's loc(0)+2 rows |
| Gather.DumpRowCount | Ex4/mpi_code/mpi_jacobi.c:213-224 | for np >= 2, rank 0's rows 0 .. loc(0) and all received blocks are D+2 rows together |
| Gather.CountsAreStarts | Ex4/mpi_code/mpi_jacobi.c:219-224 | before rank k's block, the dump holds exactly GlobStart(k) rows |
| Gather.DumpedBefore | Ex4/mpi_code/mpi_jacobi.c:219-224 | the dump length before rank k's block is GlobStart(k), and D+2 once all ranks are in |
| Gather.StartBelowEnd | Ex4/mpi_code/mpi_jacobi.c:203 | no rank starts below the bottom boundary row |
| Gather.DumpAdvances | Ex4/mpi_code/mpi_jacobi.c:219-224 | each block advances the dump by exactly the rows its rank sends |
| Gather.SaveGnuplot | Ex4/mpi_code/mpi_jacobi.c:274-276 | as written, `save_gnuplot` labels the t-th dumped row with the local row row_start + t |
| Gather.AsWrittenLabelsRepeat | Ex4/mpi_code/mpi_jacobi.c:276 | as written, rank 0's global row 1 and rank 1's first row (global row >= 2) both get label 1 |
| Gather.Sent | Ex4/mpi_code/mpi_jacobi.c:213-214 | the message `matrix+(D+2)` of SendCount rows holds exactly SendCount rows of D+2 cells |
| Gather.SentRow | Ex4/mpi_code/mpi_jacobi.c:213-214 | row j of the message is row j+1 of the sender's buffer |
| Gather.ReceivedRow | Ex4/mpi_code/mpi_jacobi.c:222 | after the receive, row j+1 of rank 0's buffer is row j of the message |
| Gather.ReceiveRows | Ex4/mpi_code/mpi_jacobi.c:222 | the receive loop leaves the buffer as Receive describes |
| Gather.GatherDump | Ex4/mpi_code/mpi_jacobi.c:215-224 | rank 0's counter at step i equals what rank i sends (loc(i), plus one at np-1); the dump is the whole global grid, D+2 rows of D+2 cells, in global row order, each row labelled by its global row: the corrected labelling of the second Findings row, where the code as written labels each block from local row 1 (Gather.SaveGnuplot, Gather.AsWrittenLabelsRepeat) |
| Gather.ReceiveBlock | Ex4/mpi_code/mpi_jacobi.c:222-223 | one loop step's receive and dump give ReceivedBuffer and ReceivedBlock |
| Gather.CounterStep | Ex4/mpi_code/mpi_jacobi.c:220-221 | the decrement at i == res and the increment at i == np-1 turn loc(i-1) into what rank i sends, and never go below zero |
| Gather.FirstBlock | Ex4/mpi_code/mpi_jacobi.c:218 | rank 0's own rows 0 .. loc(0) are the first GlobStart(1) rows of the global grid |
| Gather.FirstBlockLine | Ex4/mpi_code/mpi_jacobi.c:218 | line g of rank 0's own dump is global row g |
| Gather.GatherStep | Ex4/mpi_code/mpi_jacobi.c:219-224 | appending rank i's block to the dump of the rows above GlobStart(i) gives the dump of the rows above the next rank's start |
| Gather.BlockIsGlobal | Ex4/mpi_code/mpi_jacobi.c:222-223 | rank i's block holds global rows GlobStart(i) .. GlobStart(i)+count-1 in order, each with its global label |
| Gather.BlockLine | Ex4/mpi_code/mpi_jacobi.c:222-223 | line t of rank i's block is global row GlobStart(i)+t |
| Gather.BlockLineIsBufferRow | Ex4/mpi_code/mpi_jacobi.c:223 | line t of the block is row t+1 of rank 0's buffer after the receive |
| Gather.ListingExtends | Ex4/mpi_code/mpi_jacobi.c:223 | a block continuing the global rows from row n extends the listing of the first n rows |
| Gather.BlockRow | Ex4/mpi_code/mpi_jacobi.c:222-223 | row t+1 of rank 0's buffer after receiving rank i's rows is global row GlobStart(i)+t |
| Gather.SentRowIsGlobal | Ex4/mpi_code/mpi_jacobi.c:213-214 | row t of what rank i sends is global row GlobStart(i)+t: an interior row it owns or, on the last rank, the bottom boundary row |
| Sweep.SweepIsGlobalJacobi | Ex4/mpi_code/mpi_jacobi.c:158-192 | one iteration of all ranks is one Jacobi sweep of the global grid: every interior cell (g, j) of the new `matrix` is the average of its four neighbours in the old global grid |
| Sweep.StencilIsGlobalJacobi | Ex4/mpi_code/mpi_jacobi.c:173-183 | if the new buffer of the rank owning global row g is the stencil over its exchanged buffer, the new global cell (g, j) is the average of its four neighbours in the old global grid |
| Sweep.NewCurrent | Ex4/mpi_code/mpi_jacobi.c:164-188 | rank r's current buffer after an iteration is the stencil over its exchanged buffer |
| Sweep.EvolvedCell | Ex4/mpi_code/mpi_jacobi.c:259-265 | an interior cell of `evolve(1, loc+1)` is 0.25 times the sum of its four neighbours in the exchanged buffer |
| Sweep.EvolvedAt | Ex4/mpi_code/mpi_jacobi.c:259-265 | `evolve(1, loc+1)` writes into interior cell (i, j) the average of its four neighbours, all of which lie inside the buffer |
| Sweep.ExchangedIsWindow | Ex4/mpi_code/mpi_jacobi.c:146-150 | after the exchange every row of a rank's buffer, ghost rows included, is the global row it stands for |
| Sweep.ExchangedRowIsGlobal | Ex4/mpi_code/mpi_jacobi.c:248-251 | after the exchange row i of rank r, for i in 0 .. loc+1, is global row GlobStart(r) - 1 + i |
| Sweep.TopGhostIsGlobal | Ex4/mpi_code/mpi_jacobi.c:250 | after the exchange ghost row 0 of rank r is global row GlobStart(r) - 1: rank r-1's last row or, on rank 0, the top boundary row |
| Sweep.BottomGhostIsGlobal | Ex4/mpi_code/mpi_jacobi.c:249 | after the exchange ghost row loc+1 of rank r is global row GlobEnd(r) + 1: rank r+1's first row or, on the last rank, the bottom boundary row |
| Sweep.PrevRowIsGlobal | Ex4/mpi_code/mpi_jacobi.c:146-149 | the row rank r-1 sends down is the global row just above rank r's first row |
| Sweep.RowAbove | Ex4/mpi_code/mpi_jacobi.c:203-204 | for r > 0 the global row just above rank r's band is rank r-1's last interior row |
| Sweep.TopRow | Ex4/mpi_code/mpi_jacobi.c:203 | on rank 0 the row above the band is global row 0, the rank's own row 0 |
| Sweep.NextRowIsGlobal | Ex4/mpi_code/mpi_jacobi.c:147-150 | the row rank r+1 sends up is the global row just below rank r's last row |
| Sweep.RowBelow | Ex4/mpi_code/mpi_jacobi.c:203-204 | for r < np-1 the global row just below rank r's band is rank r+1's first interior row |
| Sweep.BottomRow | Ex4/mpi_code/mpi_jacobi.c:204 | on the last rank the row below the band is global row D+1, the rank's own row loc+1 |
| Sweep.ExchangeKeepsInteriorRow | Ex4/mpi_code/mpi_jacobi.c:249-250 | the exchange leaves every interior row of a rank as it was |
| Sweep.InteriorRowIsGlobal | Ex4/mpi_code/mpi_jacobi.c:203-204 | interior row i of rank r is global row GlobStart(r) - 1 + i, which lies in 1 .. D |
| Sweep.OwnedRow | Ex4/mpi_code/mpi_jacobi.c:203-205 | interior global row g is local row g - GlobStart(r) + 1 of its owner r, within 1 .. loc |
| Sweep.WindowRow | Ex4/mpi_code/mpi_jacobi.c:203-204 | row i of a buffer that is a window onto the global grid is global row GlobStart(r) - 1 + i |
| Sweep.WindowStep | Ex4/mpi_code/mpi_jacobi.c:259-265 | the stencil over a window holds at local row i, column j the average of the four neighbours of global cell (GlobStart(r) - 1 + i, j) |
| Sweep.EndInGrid | Ex4/mpi_code/mpi_jacobi.c:203-204 | with D >= np every rank's range lies within 1 .. D |

## Left out

- MPI mechanics are not modelled: `MPI_Init`, rank and size queries, the
  row datatype, `MPI_Abort` and `MPI_Finalize`. The send-receive pairs are
  modelled by their net effect, with the sent and received rows as values.
- The non-blocking exchange (`exchange_borders_nonblocking`, `MPI_Waitall`)
  is left out. It mainly overlaps communication with computation. It also
  stores four requests in a two-element array and waits on only two.
- Floating point is not modelled. Cells are exact reals in units of
  `increment`; `0.25*sum` is not rounded; the gnuplot coordinates `h*j`
  and `-h*i` are kept only as the row label y.
- Timing (`seconds`, `t_comm`, `t_comp`) is left out.
- Output is left out: `printf`, `fprintf`, `print`, `fopen`/`fclose` and the
  text format of the dump. The dump is a sequence of labelled rows.
- Argument parsing (`atoi`) and the rank-0-only argument and peek-range
  checks with their early exits are left out. `D`, `np`, `row_peek` and
  `col_peek` are parameters.
- `malloc` and `memset` are left out. The zero contents they leave are
  preconditions of `SlabInit.InitSlab`.
- The gather with np == 1 is left out. There rank 0 sends to itself, and
  the bottom boundary row is not dumped.
- D < np is left out: the model requires D >= np, as `evolve` would read
  outside the buffer when a rank owns no rows.
- Iteration.Iterate: receives each iteration's neighbour rows as a
  parameter. `Iteration.RunRank` and `Iteration.RunIsRankRun` tie that
  parameter to what the neighbours actually send (`Iteration.Trace`).
- The code writes 0.5 into `matrix` only and leaves the interior of
  `matrix_new` at 0; the model follows the code
  (`Boundary.InitFixedCells`).

## Findings

The first two rows are two readings of the same lines: the ownership test
and the read at lines 205-207 disagree by one, and which of the two is
wrong depends on whether `row_peek` and `col_peek` count from 1 or from 0.
The model proves the corrected behaviour for both readings.

| source | as written | input that shows it | evidently intended | confidence | as-written member | corrected member |
|---|---|---|---|---|---|---|
| Ex4/mpi_code/mpi_jacobi.c:205-207 | reading 1 (row_peek and col_peek are 1-based, as the test at line 205 assumes): the test treats `row_peek` as a global row, but the read `(lr + 1)*(D+2) + (col_peek + 1)` adds one to both the local row lr and the column, so the read is off by one | D = 4, np = 2, row_peek = 2, col_peek = 1: rank 0 passes the test and reads its local row 3, a ghost row, at column 2 | read local row lr, column col_peek: global cell (row_peek, col_peek) | medium, not executed | Peek.PeekAsWrittenExample | Peek.PeekReadsRequestedCell |
| Ex4/mpi_code/mpi_jacobi.c:205-207 | reading 2 (row_peek and col_peek are 0-based indices of the D x D interior, as the message at line 91, which asks for values smaller than D, and the +1 in the read suggest): the read is right, but the test `start <= row_peek <= end` compares a 0-based row with 1-based bounds, so it is off by one | D = 4, np = 2, row_peek = 2 (global row 3, owned by rank 1): the test passes on rank 0, which reads its ghost row 3 instead; row_peek = 0 passes the test on no rank, so nothing is printed | test `start <= row_peek + 1 <= end` | medium, not executed | Peek.PeekZeroBasedExample | Peek.PeekZeroBasedReadsRequestedCell |
| Ex4/mpi_code/mpi_jacobi.c:276 | `save_gnuplot` writes the y coordinate `-h*i` from the local row i, so each received block is labelled again from row 1 | np = 2, D = 4: rank 0's global row 1 and rank 1's first row (global row 3) both get y = -h | label each dumped row by its global row, so that the dump lists the grid in global row order without overlap | medium, not executed | Gather.AsWrittenLabelsRepeat | Gather.GatherDump |
