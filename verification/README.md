# Verified models of Extrae's self-contained algorithms

Extrae instruments parallel programs. Most of it is glue around PAPI, MPI and the dynamic loader, but it also ships
several algorithms whose correctness does not depend on any of them. This project models those algorithms in Dafny and
proves what they are for, on all inputs and over whole runs.

`dafny verify dfyconfig.toml` checks everything.

| files | what they model |
|---|---|
| `HeatGrid.dfy`, `SharedSum.dfy`, `HeatSequential.dfy`, `HeatProtocol.dfy`, `HeatSolver.dfy` | the distributed Jacobi heat solver shipped as an example, against the sequential one: blocked sweep, shared residual sum, convergence, row distribution, halo exchange, allreduce, termination, gather |
| `Queue.dfy`, `FreePool.dfy` | the intrusive circular queue macros, sorted insertion, and the pooled free-list allocator |
| `BestSet.dfy`, `BestSetOld.dfy` | the search for compatible hardware-counter sets (current and older tool) |
| `UFTable.dfy` | the bounded-probe hash table of user-function addresses |
| `MurmurHash2.dfy`, `Word32.dfy` | the 32-bit hash, on naturals below 2^32 with exclusive or, shift and wrapping product |
| `TimeSync.dfy` | clock alignment between tasks, nodes and applications |
| `TraceMode.dfy` | the per-thread detail/burst mode machine |
| `UncoreSets.dfy` | the spread of uncore counters over reader processes |
| `Sequences.dfy` | two shared notions on sequences |

How the models are built:

* Code that works in place keeps that form: arrays with loops for the grids, masks, address table and hash, classes with
  `next`/`prev` links for queues and the free list, a class with reassigned tables for time alignment and trace modes.
  Each such method is proved against a function or predicate on values, and the theorems are about those.
* The ranks of the distributed solver are a state machine whose steps are the tasks of the program. A schedule is any
  sequence of enabled steps, so a statement about schedules is one about every interleaving that the task dependences
  allow; a rank's copy and its allreduce, which share no data, come in either order. `MPI_Sendrecv` is a rendezvous of
  two neighbours (the strictest reading, hence the right one for deadlock), and the allreduce completes when all ranks
  have entered it, after which each rank tests for termination on its own.
* Cells and residuals are real numbers. That every grid is solved in the end, the agreement on residuals and the
  concrete grids rest on real arithmetic; the agreement on matrices does not, for no lemma on the way to it looks inside
  the average of four neighbours. The agreement on residuals also supposes that a sweep's tasks lose no update of the
  sum they share.
* PAPI's answer on whether a list of counters can be measured together is a parameter. So is the order in which the
  runtime executes tasks.
* Widths matter and are written out where they do: the 32-bit mask step and the wrapping `8-size()` of the counter
  search, 64-bit wrap-around in time alignment, 32-bit products in the hash.

What the models found out about the code:

* The distributed solver needs at least two ranks (with one, the first exchange names a rank outside the communicator,
  which MPI reports as an error) but not as many rows as ranks: the gathered result is the sequential one for every
  resolution. With more than resolution+1 ranks the top halo rows of the idle ranks beyond the first lag behind by one
  iteration each, which no result depends on.
* On grids of real numbers the solver always stops, even without a limit of iterations. On at least two ranks every
  schedule is finite and goes on to an end with the sequential grid.
* The eight tasks of a sweep update the shared residual sum without protection. Over any interleaving the sum is right
  exactly when no task that lost its update had anything to add. Every interleaving gets it right only for a grid that
  the sweep leaves as it is: whenever the residual is not zero, some interleaving gives another sum.
* The blocked sweep leaves interior columns untouched unless the row length modulo 8 is at most 2. The sequential and
  the distributed program leave out the same ones.
* `CheckMaxEventSet` never returns for 32 or more counters unless a set of the full permitted size lies among the first
  32 of them, because the mask is stepped through a 32-bit variable. With eight omnipresent counters, and then only, the
  search returns for any number of counters on any hardware.
* More than 8 omnipresent counters defeat the limit of 8 per set: the subtraction wraps, and the check meant to prevent
  it reads a vector that is still empty.
* Balancing readers over an even number of sockets leaves a reader without counters exactly when there is a single
  counter.
* `Bitmask_NextValue` reads one element past the mask exactly when the mask is all ones; its caller never gives it one.
* Clock alignment keeps the distance between two first events exactly when adding the shift overflows 64 bits for both
  or for neither; two events 2^64 ticks apart can come out at the same instant.

## Model

| member | source | states |
|---|---|---|
| HeatGrid.BlocksTile | example/LINUX/MPI+OMPSS/solver-mpi-ompss.c:38-47 | a column belongs to one of the eight blocks if and only if it lies between 1 and the last covered column |
| HeatGrid.AnyOrderIsSweep | example/LINUX/MPI+OMPSS/solver-mpi-ompss.c:40-58 | the eight column-block tasks, run in any order, leave the one unblocked sweep |
| HeatGrid.TasksInTurn | example/LINUX/MPI+OMPSS/solver-mpi-ompss.c:40-58 | the tasks run one after the other are one of the ways to merge their writes |
| HeatGrid.AnyMergeIsSweep | example/LINUX/MPI+OMPSS/solver-mpi-ompss.c:40-58 | the writes of the eight tasks, each task's in the order of its loops, merged in any way leave that sweep |
| HeatGrid.MergeCovers | example/LINUX/MPI+OMPSS/solver-mpi-ompss.c:46-47 | such a merge writes a cell if and only if it lies in an interior row and a covered column |
| HeatGrid.InteriorIsSweptExactly | example/LINUX/MPI+OMPSS/solver-mpi-ompss.c:36-47 | a sweep's tasks write every interior cell if and only if the row length modulo 8 is at most 2 or there are no interior rows |
| HeatGrid.AnyOrderSameResidual | example/LINUX/MPI+OMPSS/solver-mpi-ompss.c:45-56 | the tasks' partial sums, added in any order, are the squared changes of all covered cells |
| HeatGrid.ChangeSumSplits | example/LINUX/MPI+OMPSS/heat-mpi-ompss.c:173-175 | the residual of a range of rows is the sum of the residuals of its parts |
| HeatGrid.SweepOfWindow | example/LINUX/MPI+OMPSS/heat-mpi-ompss.c:269-270 | sweeping a window of the grid equals, row for row, the sweep of the whole grid |
| HeatGrid.SweepAverages | example/LINUX/MPI+OMPSS/solver-mpi-ompss.c:46-52 | a swept cell is the average of its four neighbours if it lies in an interior row and one of the interior columns 1 to 8*(sizey/8), and every other cell stays |
| HeatGrid.SweepDistance | example/LINUX/MPI+OMPSS/solver-mpi-ompss.c:53-62 | the residual is the sum over all cells of the squared difference between the swept and the old grid |
| SharedSum.NothingLost | example/LINUX/MPI+OMPSS/solver-mpi-ompss.c:43-56 | if no task writes the sum between another's read and write, the sum is what was added |
| SharedSum.ShortForGood | example/LINUX/MPI+OMPSS/solver-mpi-ompss.c:43-56 | for positive parts the sum never exceeds what was added, and after one disturbed update it stays below for good |
| SharedSum.SumIsKept | example/LINUX/MPI+OMPSS/solver-mpi-ompss.c:43-56 | the sum consists of exactly the parts of the tasks that the last writer had seen, and its own |
| SharedSum.NothingLostExactly | example/LINUX/MPI+OMPSS/solver-mpi-ompss.c:43-56 | no update gets lost if and only if no task writes between another's read and write |
| SharedSum.SumIsResidualExactly | example/LINUX/MPI+OMPSS/solver-mpi-ompss.c:43-62 | over any interleaving of the eight tasks' reads and writes the sum is the residual if and only if no task whose update got lost had anything to add |
| SharedSum.AlwaysResidualExactly | example/LINUX/MPI+OMPSS/solver-mpi-ompss.c:43-62 | every interleaving gives the residual if and only if the residual is zero |
| SharedSum.UpdatesGetLost | example/LINUX/MPI+OMPSS/solver-mpi-ompss.c:43-62 | on a grid under a warm border, with all reads first, the sum misses part of the residual |
| HeatSolver.WriteIsSetCell | example/LINUX/MPI+OMPSS/solver-mpi-ompss.c:49-52 | writing flat index i*sizey+j changes cell (i,j) and no other |
| HeatSolver.RelaxRow | example/LINUX/MPI+OMPSS/solver-mpi-ompss.c:47-55 | the column loop updates exactly its block of one row and sums that row's squared changes |
| HeatSolver.RelaxTask | example/LINUX/MPI+OMPSS/solver-mpi-ompss.c:44-57 | one task updates exactly its column block of the interior rows, and its local sum is that block's squared change |
| HeatSolver.RelaxJacobi | example/LINUX/MPI+OMPSS/solver-mpi-ompss.c:31-63 | for every order of the tasks, one after the other, the array ends cell by cell as the averages over the covered columns, and the result is the squared distance the grid has moved |
| HeatSolver.CopyRows | example/LINUX/MPI+OMPSS/heat-mpi-ompss.c:157-161 | the copy loop replaces exactly the first rows of one matrix by those of the other |
| HeatSolver.RelaxRank | example/LINUX/MPI+OMPSS/heat-mpi-ompss.c:266-270 | a rank's compute task on its arrays is the protocol's Relax step |
| HeatSolver.CopyRank | example/LINUX/MPI+OMPSS/heat-mpi-ompss.c:283-287 | a rank's copy task on its arrays is the protocol's Copy step |
| HeatSolver.SolveSequential | example/LINUX/OMPSS/heat-ompss.c:103-148 | the sequential loop ends after a positive multiple of ten iterations with a residual below 0.00005 or the limit reached, at no earlier multiple of ten was either so, and the array holds the iterated grid |
| HeatSequential.GlobalCell | example/LINUX/OMPSS/heat-ompss.c:109-126 | from one iteration to the next a covered interior cell becomes the average of its neighbours and every other cell stays |
| HeatSequential.ResidualIsDistance | example/LINUX/OMPSS/solver-ompss.c:53-62 | the residual of an iteration is the squared distance between the grids around it |
| HeatSequential.IterationsExactly | example/LINUX/OMPSS/heat-ompss.c:139-147 | the loop runs for a positive multiple of ten iterations, ended by a small residual or the limit, neither of which held at an earlier multiple of ten |
| HeatSequential.LimitIsKept | example/LINUX/OMPSS/heat-ompss.c:143-145 | a limit of iterations is overrun by at most nine |
| HeatSequential.MovesWithinStep | example/LINUX/OMPSS/solver-ompss.c:45-57 | an iteration shrinks the bound on how far cells move, a parabola over the rows divided by a growing number |
| HeatSequential.SmallMoves | example/LINUX/OMPSS/solver-ompss.c:53-62 | the residual is at most the number of cells times the square of the farthest move |
| HeatSequential.SequentialStops | example/LINUX/OMPSS/heat-ompss.c:104-148 | on every grid and for every limit, none included, the stopping test succeeds at some iteration |
| HeatProtocol.FirstClosedForm | example/LINUX/MPI+OMPSS/heat-mpi-ompss.c:112-131 | the first row of each rank in closed form |
| HeatProtocol.RowsTile | example/LINUX/MPI+OMPSS/heat-mpi-ompss.c:112-131 | the row ranges are contiguous, start at 1, end at the resolution, and are empty exactly from rank `resolution` on |
| HeatProtocol.EveryRowHasOneOwner | example/LINUX/MPI+OMPSS/heat-mpi-ompss.c:112-131 | every interior row belongs to exactly one rank, and no rank owns two rows more than another |
| HeatProtocol.DistributeRows | example/LINUX/MPI+OMPSS/heat-mpi-ompss.c:112-131 | the master's loop computes both ends of those ranges, in closed form |
| HeatSequential.BorderStays | example/LINUX/OMPSS/heat-ompss.c:109-126 | the top and bottom border rows never change |
| HeatProtocol.RelaxStep | example/LINUX/MPI+OMPSS/heat-mpi-ompss.c:143-150 | the compute task of any rank keeps the round invariant |
| HeatProtocol.ExchangeStep | example/LINUX/MPI+OMPSS/heat-mpi-ompss.c:271-282 | a meeting of two neighbours' Sendrecv keeps the round invariant |
| HeatProtocol.BottomReceived | example/LINUX/MPI+OMPSS/heat-mpi-ompss.c:273-278 | the bottom halo received from the right is the next iteration's row below, even from a neighbour without rows |
| HeatProtocol.TopReceived | example/LINUX/MPI+OMPSS/heat-mpi-ompss.c:279-281 | the top halo received from the left is the next iteration's row above, or an idle neighbour's lagging one |
| HeatProtocol.CopyStep | example/LINUX/MPI+OMPSS/heat-mpi-ompss.c:283-287 | copying back, before the allreduce or after it, keeps the round invariant |
| HeatProtocol.TotalIsResidual | example/LINUX/MPI+OMPSS/heat-mpi-ompss.c:300-302 | the ranks' residuals add up to the residual of the sequential sweep |
| HeatProtocol.AllReduceStep | example/LINUX/MPI+OMPSS/heat-mpi-ompss.c:171-175 | the completed allreduce starts the next round with the same residual everywhere, whichever ranks still have to copy |
| HeatProtocol.TestStep | example/LINUX/MPI+OMPSS/heat-mpi-ompss.c:304-312 | each rank's own termination test keeps the round invariant, and lets the rank leave exactly at a multiple of ten with a residual below 0.00005 or the limit reached |
| HeatProtocol.StepKeepsInv | example/LINUX/MPI+OMPSS/heat-mpi-ompss.c:138-187 | every step of every rank, in every order the task dependences allow, keeps the round invariant |
| HeatProtocol.DistributedMatchesSequential | example/LINUX/MPI+OMPSS/heat-mpi-ompss.c:237-313 | after any interleaving a rank starting an iteration holds the rows of the sequential grid after as many iterations: its own and the one below exactly, the one above up to its lag |
| HeatProtocol.AllStopTogether | example/LINUX/MPI+OMPSS/heat-mpi-ompss.c:177-186 | once a rank has left the loop every rank is at that same iteration, which is the one where the sequential run stops |
| HeatProtocol.MatchingPair | example/LINUX/MPI+OMPSS/heat-mpi-ompss.c:271-282 | whenever all ranks wait to exchange or to reduce, two neighbours wait for each other |
| HeatProtocol.SomeStepEnabled | example/LINUX/MPI+OMPSS/heat-mpi-ompss.c:139-187 | in every reachable state with a rank still in the loop, some step can be taken |
| HeatProtocol.SingleRankIsStuck | example/LINUX/MPI+OMPSS/heat-mpi-ompss.c:151-156 | with one rank the first exchange names a rank that does not exist and nothing can move |
| HeatProtocol.DeadlockFreeExactly | example/LINUX/MPI+OMPSS/heat-mpi-ompss.c:151-156 | some step is possible until all ranks have left the loop if and only if there are at least two ranks |
| HeatProtocol.StepUsesWork | example/LINUX/MPI+OMPSS/heat-mpi-ompss.c:259-313 | each step but the allreduce uses up some of the work left, to which the allreduce adds five steps a rank |
| HeatProtocol.EveryScheduleIsFinite | example/LINUX/MPI+OMPSS/heat-mpi-ompss.c:259-313 | no schedule is longer than (5p+1)k+4p steps, where k is the number of iterations of the sequential solver |
| HeatProtocol.EveryRunEndsLikeSequential | example/LINUX/MPI+OMPSS/heat-mpi-ompss.c:138-200 | every run that can go no further ends with all ranks out of the loop after the sequential number of iterations, with its residual, and gathers its grid |
| HeatProtocol.EveryRunCompletes | example/LINUX/MPI+OMPSS/heat-mpi-ompss.c:138-200 | on two ranks or more every run, whatever its schedule so far, goes on to an end with all ranks out of the loop after the sequential number of iterations, its residual, and its grid gathered; that number is the first multiple of ten with a small residual or the limit reached, at most nine beyond the limit |
| HeatProtocol.GatheredAll | example/LINUX/MPI+OMPSS/heat-mpi-ompss.c:190-200 | placing the workers' rows over the master's stale ones restores the whole grid |
| HeatProtocol.GatherRows | example/LINUX/MPI+OMPSS/heat-mpi-ompss.c:190-200 | the receive loop puts each worker's rows where the distribution took them from |
| HeatProtocol.ReachesSecondIteration | example/LINUX/MPI+OMPSS/heat-mpi-ompss.c:259-304 | with two ranks or more some run takes any given rank to its second iteration |
| HeatProtocol.StaleHalo | example/LINUX/MPI+OMPSS/heat-mpi-ompss.c:273-281 | on a grid with one warm cell and more than resolution+1 ranks, a reachable rank starts an iteration with an old halo row |
| HeatProtocol.SlicesUpToDateExactly | example/LINUX/MPI+OMPSS/heat-mpi-ompss.c:273-287 | in every reachable state of every run, for every starting grid, each rank starts its iterations with both matrices, halo rows included, equal to its slice of the sequential grid, if and only if the resolution is below 6 or there are at most resolution+1 ranks |
| Queue.LinkAfter | src/common/queue.h:98-99 | the four assignments turn a ring into the ring grown after the anchor |
| Queue.LinkBefore | src/common/queue.h:104-105 | the four assignments turn a ring into the ring grown before the anchor |
| Queue.LinkOut | src/common/queue.h:56-57 | the two assignments bridge over exactly the removed node |
| Queue.Ring.constructor | src/common/queue.h:44-45 | a head linked to itself is an empty queue |
| Queue.Ring.IsNull | src/common/queue.h:50-51 | true exactly for the empty queue |
| Queue.Ring.GetHead | src/common/queue.h:81 | the first item, or null |
| Queue.Ring.GetNext | src/common/queue.h:86 | the item behind a given one, or null at the end |
| Queue.Ring.WalkForward | src/common/queue.h:81-86 | following next visits the items in order and ends |
| Queue.Ring.WalkBackward | src/common/queue.h:32-39 | following prev visits exactly the reverse |
| Queue.Ring.Enqueue | src/common/queue.h:92-93 | appends |
| Queue.Ring.EnqueueHead | src/common/queue.h:62-63 | prepends |
| Queue.Ring.InsertAfter | src/common/queue.h:98-99 | places the item right behind its anchor, head included |
| Queue.Ring.InsertBefore | src/common/queue.h:104-105 | places the item right in front of its anchor |
| Queue.Ring.Remove | src/common/queue.h:56-57 | deletes exactly that item |
| Queue.Ring.Dequeue | src/common/queue.h:110-111 | takes the first item, or null from an empty queue |
| Queue.Ring.DequeueNoCheck | src/common/queue.h:118-119 | takes the first item; an empty queue hands out its head and stays empty |
| Queue.Ring.FindStopper | src/common/queue.h:128-131 | the backward scan stops at the last item the new one may follow |
| Queue.Ring.InsertSorted | src/common/queue.h:124-147 | the item goes behind the last one whose field does not exceed its own (for decreasing order: is not below it), in front of greater (smaller) ones, and fields in order stay in order |
| Queue.InsertEntrySorted | src/common/queue.h:124-147 | sorted insertion keeps keys nondecreasing, or nonincreasing for decreasing order |
| Queue.InsertEntryKeepsKeyOrder | src/common/queue.h:124-147 | the new item goes behind all items with its key, and no others change order |
| Queue.InsertAllIsStableSort | src/common/queue.h:124-147 | repeated insertion from the empty queue yields nondecreasing (nonincreasing) keys and keeps the order of entries with equal keys |
| Queue.InsertAllKeepsEntries | src/common/queue.h:124-147 | repeated insertion loses no entry and adds none |
| FreePool.AllocReturnsNoLiveItem | src/common/queue.h:245-269 | an allocation never hands out a live item and keeps the pool sound |
| FreePool.FreeKeepsSound | src/common/queue.h:306-311 | freeing a live item keeps the pool sound |
| FreePool.DrainKeepsSound | src/common/queue.h:67-76 | resetting a queue of live items keeps the pool sound |
| FreePool.AnyHistoryIsSound | src/common/queue.h:245-311 | over any interleaving free and live items stay disjoint, unrepeated, and together 30 per block |
| FreePool.LinkBlock | src/common/queue.h:255-263 | the loop threads a new block into one null-terminated chain |
| FreePool.Pool.AllocNewItem | src/common/queue.h:245-269 | takes the first free item, from a fresh block when none is free |
| FreePool.Pool.AllocNewZeroedItem | src/common/queue.h:278-303 | the same, with the item cleared |
| FreePool.Pool.FreeItem | src/common/queue.h:306-311 | puts a live item in front of the free list |
| FreePool.Pool.NumItemsFree | src/common/queue.h:382-389 | counts exactly the free list |
| FreePool.Pool.ResetQueue | src/common/queue.h:67-76 | terminates, empties the queue, and moves exactly its items, last first, to the free list |
| BestSet.CountIsChosenSize | src/others/papi_best_set.C:177-180 | the number of bits of a mask is the number of counters it chooses |
| BestSet.ChosenSplits | src/others/papi_best_set.C:231-242 | chosen and remaining counters are together the counters |
| BestSet.UnchosenKeepsOrder | src/others/papi_best_set.C:231-242 | the remaining counters are the list without the chosen ones, in its own order |
| BestSet.ChosenByBits | src/others/papi_best_set.C:133-139 | bit i of a mask decides whether counter i is chosen or remains |
| BestSet.ChosenKeepsOrder | src/others/papi_best_set.C:216-229 | the chosen counters stand in the list's own order |
| BestSet.Machine.FindMax | src/others/papi_best_set.C:165-190 | despite the early exit the result is the numerically least mask among the largest compatible sets that keep within eight together with the omnipresent counters; with at most eight of those it fails to return exactly when there are 32 counters or more, fewer than eight omnipresent ones, and no compatible set among the first 32 fills up to eight |
| BestSet.Machine.LimitInNumbers | src/others/papi_best_set.C:177-183 | the limit is eight less the omnipresent counters, or for more than eight of them that difference modulo 2^64 |
| BestSet.Machine.StopsExactlyWhenHalts | src/others/papi_best_set.C:170-190 | the loop ever stops if and only if there are fewer than 32 counters or a full-sized compatible set among the first 32 |
| BestSet.AlwaysHaltsExactly | src/others/papi_best_set.C:170-190 | with given omnipresent counters the search returns on all hardware if and only if there are fewer than 32 counters or exactly eight omnipresent ones; otherwise it is endless on hardware that accepts nothing |
| BestSet.Machine.ListChosen | src/others/papi_best_set.C:216-229 | the output loop lists exactly the chosen counters in order |
| BestSet.Machine.EraseChosen | src/others/papi_best_set.C:231-242 | erasing from the back removes exactly the chosen counters and keeps the order of the rest |
| BestSet.Machine.CoverAll | src/others/papi_best_set.C:441-460 | the greedy loop ends; sets and leftovers are together the input, with at most eight omnipresent counters every set keeps within eight together with them, and if it gives up no such nonempty set of the leftovers is compatible |
| BestSet.Machine.GreedyPartitions | src/others/papi_best_set.C:441-460 | chosen counters and leftovers are together exactly the input |
| BestSet.Machine.GreedySetsAreDisjoint | src/others/papi_best_set.C:441-460 | with distinct counters the sets are pairwise disjoint and share nothing with the leftovers |
| BestSet.Machine.GreedyTakesLargest | src/others/papi_best_set.C:441-460 | every set is a largest compatible one within eight among what the earlier sets left over |
| BestSet.Machine.GreedySetsFit | src/others/papi_best_set.C:177-180 | every emitted set is nonempty, compatible and within the limit |
| BestSet.Machine.GreedySizesNeverIncrease | src/others/papi_best_set.C:441-460 | a later set is never larger than an earlier one |
| BestSet.Machine.WithinEightExactly | src/others/papi_best_set.C:177-183 | a set with the omnipresent counters stays within 8 if and only if there are at most 8 of those |
| BestSet.OverfullSet | src/others/papi_best_set.C:177-183 | more than 8 omnipresent counters and one other are emitted as one set |
| BestSet.FieldsRoundTrip | src/others/papi_best_set.C:255-264 | splitting at commas loses nothing and leaves no comma in a field |
| BestSet.AppendNewKeepsDistinct | src/others/papi_best_set.C:251-268 | the list keeps its items in place, stays free of repetitions, gains exactly the nonempty fields, and takes new fields in their order |
| BestSet.AddCounters | src/others/papi_best_set.C:251-268 | the find/substr loop appends the fields that way |
| BestSetOld.ValueInjective | src/others/papi_best_set_old.c:69-78 | two masks with the same number are the same mask |
| BestSetOld.CreateBitmask | src/others/papi_best_set_old.c:39-50 | a new mask is number 0 |
| BestSetOld.CarryAddsOne | src/others/papi_best_set_old.c:73-77 | clearing the leading ones and setting the next zero adds one |
| BestSetOld.ScanStaysInsideExactly | src/others/papi_best_set_old.c:72-76 | the scan stops inside the mask if and only if the mask is not all ones |
| BestSetOld.NextValue | src/others/papi_best_set_old.c:69-78 | the mask read as a little-endian number grows by one, all ones wrapping to zero where the memory behind the mask can be read, and nothing else changes |
| BestSetOld.ActiveCounts | src/others/papi_best_set_old.c:80-89 | the count of set positions is the cardinality of the set of chosen counters |
| BestSetOld.CountActiveBits | src/others/papi_best_set_old.c:80-89 | counts exactly the nonzero positions |
| BestSetOld.IsLastValue | src/others/papi_best_set_old.c:91-99 | true exactly for all ones |
| BestSetOld.ConsiderKeepsMaxima | src/others/papi_best_set_old.c:149-181 | meeting the next mask keeps the list equal to all maxima seen so far |
| BestSetOld.CheckMaxEventSet | src/others/papi_best_set_old.c:131-183 | every nonzero mask is visited once, in order, up to all ones, and the list ends with exactly the accepted masks that choose the most counters, in increasing order |
| UFTable.HashNumbersWords | src/tracer/UF_gcc_instrument.c:61 | addresses within one aligned 8-byte word share a slot, the next word has the next of 2^17 slots, and address 0 has the first |
| UFTable.SlotsFollow | src/tracer/UF_gcc_instrument.c:154-157 | probing goes upwards slot by slot and from the last one to the first |
| UFTable.LookupIsMembership | src/tracer/UF_gcc_instrument.c:169-182 | in a well-probed table the bounded probe finds an address exactly when it is stored |
| UFTable.InsertFillsFirstFreeSlot | src/tracer/UF_gcc_instrument.c:142-167 | an insertion fills the first free slot of its 65-slot window, and is dropped exactly when there is none |
| UFTable.InsertKeepsWellProbed | src/tracer/UF_gcc_instrument.c:142-167 | insertion keeps every stored address reachable within 64 slots and adds at most the one address |
| UFTable.OccupiedCounts | src/tracer/UF_gcc_instrument.c:148-162 | the count is the number of slots in use |
| UFTable.DisplacedCounts | src/tracer/UF_gcc_instrument.c:148-162 | the collisions are the number of slots whose address hashes elsewhere |
| UFTable.TallyBounds | src/tracer/UF_gcc_instrument.c:142-167 | displaced entries lie 1 to 64 slots from their hash and no counter exceeds the table |
| UFTable.LookupAfterAnyHistory | src/tracer/UF_gcc_instrument.c:142-190 | after any insertions and resets lookup is true exactly for addresses some insertion of which succeeded since the last reset |
| UFTable.Filled | src/tracer/UF_gcc_instrument.c:148-162 | filling a slot d places after its hash moves the three statistics by 1, by 1 if d is positive, and by d |
| UFTable.UFAddresses.ResetUFtoInstrument | src/tracer/UF_gcc_instrument.c:184-190 | empties the table and its statistics |
| UFTable.UFAddresses.AddUFtoInstrument | src/tracer/UF_gcc_instrument.c:142-167 | the array code inserts as specified, reports drops exactly, and keeps the three counters exact |
| UFTable.UFAddresses.LookForUFaddress | src/tracer/UF_gcc_instrument.c:169-182 | true exactly for addresses added since the last reset |
| UFTable.UFAddresses.AverageDistance | src/tracer/UF_gcc_instrument.c:238-242 | the printed average lies between 1 and 64 |
| Word32.XorBits | src/common/MurmurHash2.c:45 | bit i of an exclusive or tells whether the bits i differ |
| Word32.ShrIsQuotient | src/common/MurmurHash2.c:45 | a right shift by k is a division by 2^k |
| Word32.UnxorAfterXor | src/common/MurmurHash2.c:45 | three xors recover the word before a shift-and-xor step by 11 bits or more |
| Word32.XorAfterUnxor | src/common/MurmurHash2.c:68 | and every word is the outcome of such a step |
| Word32.TimesInverse | src/common/MurmurHash2.c:44 | multiplying by a number with an inverse modulo 2^32 is undone by that inverse |
| MurmurHash2.MulInverse | src/common/MurmurHash2.c:29 | the mixing constant is invertible modulo 2^32, with inverse 0xe59b19bd |
| MurmurHash2.StepInverse | src/common/MurmurHash2.c:44-49 | for a given word the mixing step is a permutation of the states |
| MurmurHash2.StepWordInverse | src/common/MurmurHash2.c:44-49 | for a given state the mixing step is a permutation of the words |
| MurmurHash2.TailInverse | src/common/MurmurHash2.c:57-63 | the fall-through switch is a permutation of the states |
| MurmurHash2.FinalInverse | src/common/MurmurHash2.c:68-70 | the final mix is a permutation of the states |
| MurmurHash2.ComputeHash | src/common/MurmurHash2.c:24-73 | loop, switch and final mix compute the fold over the key's words, for every key |
| MurmurHash2.RoundInNumbers | src/common/MurmurHash2.c:40-53 | one round in plain arithmetic modulo 2^32, with its constants |
| MurmurHash2.TailInNumbers | src/common/MurmurHash2.c:57-63 | the trailing 0 to 3 bytes in plain arithmetic |
| MurmurHash2.HashInNumbers | src/common/MurmurHash2.c:34-72 | start and final mix in plain arithmetic |
| MurmurHash2.FoldInverse | src/common/MurmurHash2.c:40-63 | for a given key the whole fold is a permutation of the states |
| MurmurHash2.SeedRoundTrip | src/common/MurmurHash2.c:24-73 | for a given key the hash is a permutation of the seeds, with an explicit inverse |
| MurmurHash2.DistinctSeedsNeverCollide | src/common/MurmurHash2.c:34 | distinct seeds give distinct hashes of one key |
| MurmurHash2.OneWordNeverCollides | src/common/MurmurHash2.c:40-53 | keys that differ only inside one aligned word never collide |
| MurmurHash2.OneWordReachesEveryHash | src/common/MurmurHash2.c:40-53 | every hash value is reached by a choice of one aligned word |
| MurmurHash2.TailNeverCollides | src/common/MurmurHash2.c:57-63 | keys that differ only in the trailing bytes never collide |
| TimeSync.IdsMatchNames | src/common/timesync.c:64-82 | over any lookups equal identifiers go exactly to equal node names, and an identifier keeps its meaning |
| TimeSync.SyncRoundTrip | src/common/timesync.c:317-331 | desynchronizing undoes synchronizing on all 64-bit times, and differences between times of a task are kept |
| TimeSync.TaskSyncPointsMeet | src/common/timesync.c:212-243 | per task, all sync points of an application land on one instant, of all applications when aligned |
| TimeSync.NodeSyncPointsMeet | src/common/timesync.c:244-293 | per node, tasks of one node are shifted alike and the nodes' latest sync points land on one instant |
| TimeSync.SumsModulo | src/common/timesync.c:317-331 | sums and differences are those of integers modulo 2^64 |
| TimeSync.LatenciesInNumbers | src/common/timesync.c:212-304 | the latencies of every strategy as differences of sync points modulo 2^64 |
| TimeSync.UnalignedLatestMoveAlike | src/common/timesync.c:212-293 | without alignment of applications, tasks with the latest sync point of their own application get one latency: applications are not moved against each other |
| TimeSync.AlignedLatestStays | src/common/timesync.c:212-293 | with alignment, a task with the latest sync point of all is moved only by the amount taken off everywhere |
| TimeSync.MaxOnNodeIsMaximum | src/common/timesync.c:256-263 | a node's latest sync point is one of its tasks' and none is later |
| TimeSync.LeastInitBecomesZero | src/common/timesync.c:295-304 | for every strategy the earliest first event moves to exactly 0 and no other wraps below it |
| TimeSync.TrueDistanceExactly | src/common/timesync.c:295-320 | the distance between two synchronized first events is the true one if and only if adding the prescribed shift overflows 64 bits for both or for neither |
| TimeSync.DistanceGetsLost | src/common/timesync.c:295-320 | two first events 2^64 ticks apart that come out at the same instant |
| TimeSync.Tables.constructor | src/common/timesync.c:89-134 | no task is initialized and no latency set |
| TimeSync.Tables.GetNodeId | src/common/timesync.c:64-82 | finds the name or appends it, and never changes an identifier already issued |
| TimeSync.Tables.SetInitialTime | src/common/timesync.c:173-187 | records one task's times and node and nothing else |
| TimeSync.Tables.AlignTasks | src/common/timesync.c:212-243 | every shift is the distance to the latest sync point of the application, or of all when aligned |
| TimeSync.Tables.AlignNodes | src/common/timesync.c:244-293 | every shift is the distance from the latest sync point on the task's node to the latest of the application, or of all when aligned |
| TimeSync.Tables.LeastInit | src/common/timesync.c:295-299 | the loops find the least shifted first event |
| TimeSync.Tables.CalculateLatencies | src/common/timesync.c:194-309 | succeeds exactly when every task is initialized; then each latency is the prescribed distance less the least shifted first event, and otherwise the table is left alone |
| TraceMode.HistoryDecidesMode | src/tracer/mode.c:134-174 | over any history of one thread events alternate, the last one is its mode, and any requests between two changes act as one toggle |
| TraceMode.SaneKept | src/tracer/mode.c:134-174 | a request or a change keeps a thread consistent |
| TraceMode.ResizeStartsAfresh | src/tracer/mode.c:72-98 | a thread added or started again by a resizing begins without history in the starting mode |
| TraceMode.ThreadsAreIndependent | src/tracer/mode.c:72-184 | for as long as a thread lives, resizing, new starting modes and other threads' changes leave it untouched |
| TraceMode.AnyHistoryIsSane | src/tracer/mode.c:72-184 | over any interleaving every thread stays consistent |
| TraceMode.ModeArrays.SetInitialMode | src/tracer/mode.c:178-188 | 1 sets detail and 2 burst as starting mode, other values are ignored |
| TraceMode.ModeArrays.ReInitialize | src/tracer/mode.c:72-98 | threads from the old count on start fresh in the starting mode, those below keep their state, those beyond the new count are gone |
| TraceMode.ModeArrays.SwitchModes | src/tracer/mode.c:158-174 | every running thread gets a pending toggle, the others none |
| TraceMode.ModeArrays.ChangeModeOf | src/tracer/mode.c:134-156 | performs and announces a pending or first change of one thread |
| UncoreSets.EvenSplitWithinEight | src/extrae-uncore/extrae-uncore.py:344-360 | with enough readers no set exceeds eight |
| UncoreSets.NumReaders | src/extrae-uncore/extrae-uncore.py:344-350 | the least number of readers, or the least even number when balancing over an even number of sockets |
| UncoreSets.CountersPerSet | src/extrae-uncore/extrae-uncore.py:352-360 | the loop yields an even split: sizes sum up, never increase, and differ by at most one |
| Sequences.FlattenSplits | src/extrae-uncore/extrae-uncore.py:362-367 | joined sets lie one behind the other in order |
| UncoreSets.Slice | src/extrae-uncore/extrae-uncore.py:362-367 | the head/tail loop cuts the sorted names into consecutive sets of those sizes |
| UncoreSets.AssignReaders | src/extrae-uncore/extrae-uncore.py:344-367 | every counter goes to exactly one reader, at most eight each, evenly, with the least readers; some reader is left without counters if and only if there is a single counter to balance over an even number of sockets |

## Left out

- HeatSolver.RelaxJacobi: takes whole tasks one after the other, in any order; concurrent tasks are modelled apart from the array code, their cell writes by HeatGrid.AnyMergeIsSweep and their updates of the sum by SharedSum.SumIsResidualExactly and SharedSum.AlwaysResidualExactly.
- Heat solver: red-black and Gauss-Seidel variants, heat sources, image output, timing, rounding and not-a-number cells, which could keep the loop from ending, and overflow of the iteration counter. The initial equality of `u` and `uhelp` is what `initialize` establishes.
- HeatProtocol.Global: the message passing is a state machine over grids as lists of rows; HeatSolver ties the two array tasks to its steps, the messages themselves move rows by value.
- Queue: the `_NP` macros repeat the others with named fields, and two of them call four-parameter macros with two arguments; the `TRACE_MALLOC` versions only add prints. A node carries one sort field, and the free list reuses `next` as the first word of the struct.
- BestSet.Machine.FindMax: reports a loop that never ends as the outcome Endless when the stepped mask wraps to zero; BestSet.Machine.StopsExactlyWhenHalts shows that nothing else makes it run forever.
- BestSet: program exit when the omnipresent counters cannot be combined, PAPI calls and the zero-value dismissal inside the compatibility answer, and argument parsing in `main`, where an argument is compared with the omnipresent counters as a whole, so one counter of a comma list may end up in both lists.
- UFTable: the 4-byte pointer configuration (other shift, twice the slots), reading of the symbol file, and the callbacks.
- MurmurHash2: big-endian machines, on which the source itself gives other results, and negative lengths.
- TimeSync: freeing of the tables and the text of the warnings. The first application must have a task, because the source reads its first entry.
- TraceMode: hardware-counter reset and burst statistics options.
- UncoreSets: detection of counters and sockets, the list given by hand, and generation of XML and shell files.
- src/others/genmpits.c: recovering process and task numbers from file names at fixed offsets, and sorting the files by time.
- Remaining Extrae sources: configuration parsing, event tables, wrappers, merger, loaders and command-line tools.
