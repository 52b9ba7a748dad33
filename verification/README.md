# pag: sequential kernels of three MPI homeworks, modelled in Dafny

The repository holds three parallel-programming homeworks. This project models
their sequential, integer-only logic and proves properties of it:

- **hw3, branch-and-bound scheduler.**
  - Partial schedules (`Schedules`): a list of scheduled task indices, the append counter `pointer`, and the list of open indices.
  - The per-rank search driver (`Search`): the round-robin initial split of single-task schedules, the LIFO work step, and `ProcessSchedule` with its strictly improving upper bound.
  - The per-rank token steps of the termination detector (`TokenRing`). They return the messages a rank sends as data (`Messages`).
  - The record loop of the instance loader (`InstanceLoader`).
- **hw1, record distances.** `calculateFrankenstein` (`EditDistance`) is a Levenshtein distance with a restricted adjacent-transposition step. `DistanceGraph` is the symmetric graph fill that calls it.
- **hw2, heat diffusion.** `RowPartition` covers the scatter counts and displacements that split the spots over the ranks, and the spot equality.

### Modelling notes

- **Schedule fields.** The header `hw3/src/Schedule.h` declares `Task*` vectors and a `length`, but `hw3/src/Schedule.cpp` works on `int` indices and a `pointer`. The model follows the `.cpp` bodies. A schedule records only the size of its task list, since that is all the modelled operations use.
- **Undefined Schedule members.** `validate`, `isSolution`, `getLength`, `getNotScheduled`, `getScheduledIndex` and the two child/single-task constructors are declared but defined in none of the modelled files. They are fields of the `Search.Oracle` datatype, which holds arbitrary total functions. Every property in `Search` therefore holds for every choice of them.
- **`(char)` narrowing.** In `calculateFrankenstein`, elements of `lineB` are narrowed with `(char)` before comparison. The model writes this out as signed 8-bit two's-complement wrap-around (`EditDistance.Narrow`), so the distance is defined for all integer inputs and needs no precondition. The properties that depend on the narrowing being the identity (distance to self, symmetry) require every value to lie in `-128..127`. `EditDistance.NarrowingBreaksSymmetry` shows the quirk outside that range.
- **Transposition quirks.** The transposition step is only tried once both positions exceed 2. Its first comparison uses the narrowed element of `lineB`, the second the raw one. Both are kept as written.
- **Distance as a relation.** The distance is stated as a relation, `IsDistance(lineA, lineB, d)`: some matrix obeying the fill rules has `d` in its bottom-right entry. `DistanceUnique` proves that this matrix, and so the distance, is unique.
- **Instance loader input.** `InstanceLoader.LoadInstance` takes already-tokenised input: the header count and one integer triple per line.

## Model

| member | source | states |
|---|---|---|
| Schedules.NewSchedule | hw3/src/Schedule.cpp:35-40 | A fresh schedule has nothing scheduled, `pointer` 0 and the open list 0..n-1 in order; it is partitioned and its counter matches |
| Schedules.Append | hw3/src/Schedule.cpp:13-17 | `el` is added at the end of the scheduled list, which otherwise keeps its entries; the counter grows by exactly one; `el` is no longer open and every other value stays open exactly when it was; an `el` that was not open leaves the open list unchanged but is still appended |
| Schedules.RemoveAll | hw3/src/Schedule.cpp:16 | The erase-remove result holds exactly the entries of the list other than `el`, and is the list itself when `el` is absent |
| Schedules.RemoveAllMultiset | hw3/src/Schedule.cpp:16 | Erase-remove takes out every copy of `el` and leaves the count of every other value unchanged |
| Schedules.RemoveAllConcat | hw3/src/Schedule.cpp:16 | Erase-remove distributes over concatenation, so the surviving entries keep their relative order |
| Schedules.EraseRemove | hw3/src/Schedule.cpp:16 | The in-place compaction followed by erase leaves exactly the order-preserving removal of `el` |
| Schedules.AppendKeepsPointerInSync | hw3/src/Schedule.cpp:14-15 | If `pointer` equals the number of scheduled entries before an append, it still does after |
| Schedules.AppendPreservesPartition | hw3/src/Schedule.cpp:13-16 | If the scheduled and open lists together hold each index below n exactly once, appending an open index keeps this true |
| Schedules.PartitionedMeans | hw3/src/Schedule.cpp:35-40 | In a partitioned schedule every index below n is in exactly one of the two lists, once, and no other value appears |
| Schedules.IotaMultiplicity | hw3/src/Schedule.cpp:39 | The iota vector holds each index below n exactly once and nothing else |
| Schedules.FromState | hw3/src/Schedule.cpp:42-51 | The scheduled list is the initial state and `pointer` its length; the open list is the ascending list of indices below n not in the initial state; for distinct in-range indices the schedule is partitioned |
| Search.RankShare | hw3/src/Worker.cpp:39-40 | The indices below n that stay on the root are exactly those with `i % worldSize == 0`, the others are the rest; both come in increasing order |
| Search.InitialJobDistribution | hw3/src/Worker.cpp:37-54 | The root's backlog grows by the single-task schedules of its share in increasing task order; every other task is sent, in increasing order, to rank `i % worldSize`, which lies in the world and is never the root; nothing else changes |
| Search.RootTopIsLargest | hw3/src/Worker.cpp:46-52 | With at least one task the root keeps some task, and the one left on top of its backlog is the largest multiple of worldSize below taskCount |
| Search.EachTaskDealtOnce | hw3/src/Worker.cpp:39-52 | Each task index is kept by the root or sent, never both; it occurs exactly once across the two shares; a sent task goes to a non-root rank in the world |
| Search.AscendingCountsOnce | hw3/src/Worker.cpp:39-52 | A strictly ascending share holds each of its indices exactly once |
| Search.ProcessSchedule | hw3/src/Worker.cpp:80-105 | The bound never rises. A schedule failing validation changes nothing. A valid solution strictly below the bound becomes the bound and the best solution; another solution changes nothing. A valid partial schedule pushes one child per open task, last to first, leaving the child for the first open task on top; the bound stays. Only bound, best solution and backlog ever change |
| Search.Work | hw3/src/Worker.cpp:67-78 | The top of the backlog is removed and processed against what lay below it, which is kept. Only the bound, the best solution and the backlog change, and the bound can only fall. An invalid top is dropped. A solution on top below the bound becomes the bound and the best solution; any other solution is dropped. A partial schedule on top is replaced by its children, the child for its first open task on top |
| Search.StartRoot | hw3/src/Worker.cpp:27-54 | After construction and the initial split, the root has the bound at INT32_MAX and a best solution of taskCount entries -1. Its backlog is exactly its share of single-task schedules, with the largest task index that is a multiple of worldSize on top, and every other task has been sent |
| TokenRing.Successor | hw3/src/Worker.cpp:140 | The next rank on the ring lies in the world, is the root exactly after the last rank, and is otherwise one up |
| TokenRing.HandleTokenPassing | hw3/src/Worker.cpp:129-152 | A root that has worked, with a second rank, sends GREEN to rank 1 and becomes green. A non-root rank holding a token first sends RED if it is marked red, then forwards the held token to its successor, and ends green with no token. Otherwise nothing happens. The red mark never changes, and every message goes to a rank in the world |
| TokenRing.EndAll | hw3/src/Worker.cpp:171-174 | The end messages go to ranks 0..worldSize-1, in that order |
| TokenRing.HandleTokenReceive | hw3/src/Worker.cpp:154-176 | A received GREEN or RED becomes the held token and the colour flags stay. The root then sends END to every rank, whatever the colour; other ranks send nothing |
| TokenRing.PassingIsIdempotent | hw3/src/Worker.cpp:129-152 | A second passing step right after the first sends nothing and changes nothing |
| TokenRing.ReceivedColourIsForwarded | hw3/src/Worker.cpp:138-166 | A non-root rank that receives a colour and then passes forwards that colour to its successor, last, and holds no token afterwards |
| TokenRing.ReceiveAll | hw3/src/Worker.cpp:154-167 | Receiving a run of token messages never changes the colour flags |
| TokenRing.RedMarkIsOverwritten | hw3/src/Worker.cpp:139-150 | A red rank holding GREEN sends RED and then GREEN, so a non-root successor taking both in order is left holding GREEN |
| EditDistance.Narrow | hw1/src/Storage.cpp:61 | The narrowed value is in char range, congruent to the input modulo 256, and equal to it when it already fits |
| EditDistance.Cell | hw1/src/Storage.cpp:63-90 | A cell is at most above+1, left+1 and diagonal+cost, where cost is 0 exactly when the compared elements agree. Below position 3 it is exactly the Levenshtein candidate. From there on it is at most the transposition candidate and equal to one of the two |
| EditDistance.FillMatrix | hw1/src/Storage.cpp:44-92 | The filled matrix has the right shape, positions along the first row and column, and every interior cell computed from its neighbours |
| EditDistance.EmptyLineDistance | hw1/src/Storage.cpp:36-42 | With an empty line the distance is the length of the other line |
| EditDistance.CalculateFrankenstein | hw1/src/Storage.cpp:35-95 | The result is the distance of the two lines; an empty line gives the length of the other |
| EditDistance.MatrixCellsAgree | hw1/src/Storage.cpp:44-92 | Two matrices that both obey the fill rules for the same lines agree at every cell |
| EditDistance.DistanceUnique | hw1/src/Storage.cpp:35-95 | The distance is a function of the two lines |
| EditDistance.InteriorBound | hw1/src/Storage.cpp:63-74 | Every interior entry is at most above+1, left+1 and diagonal+cost, with cost 0 exactly when the elements agree |
| EditDistance.TranspositionOnlyLowers | hw1/src/Storage.cpp:76-88 | The transposition candidate is only used once both positions exceed 2; it can only lower a cell, and below that the cell is exactly the Levenshtein candidate |
| EditDistance.UpperBound | hw1/src/Storage.cpp:44-74 | No entry exceeds the longer of its two prefix lengths |
| EditDistance.CellAtLeast | hw1/src/Storage.cpp:74-88 | A cell is at least any bound that all of its candidates reach |
| EditDistance.LowerBound | hw1/src/Storage.cpp:44-88 | No entry is below the difference of its two prefix lengths |
| EditDistance.DistanceBounds | hw1/src/Storage.cpp:35-95 | The distance lies between the difference of the lengths and the longer length |
| EditDistance.SelfDiagonalZero | hw1/src/Storage.cpp:61-74 | With every value in char range, the diagonal of a line's matrix against itself is all zeros |
| EditDistance.DistanceToSelf | hw1/src/Storage.cpp:61-74 | With every value in char range, a line is at distance 0 from itself |
| EditDistance.MatrixTranspose | hw1/src/Storage.cpp:61-88 | With both lines in char range, the matrix of the swapped lines is the transpose |
| EditDistance.DistanceSymmetric | hw1/src/Storage.cpp:35-95 | With both lines in char range, the distance does not depend on argument order |
| EditDistance.NarrowingBreaksSymmetry | hw1/src/Storage.cpp:61-64 | Outside char range the distance is not symmetric: [256] is at distance 1 from [0], but [0] is at distance 0 from [256] |
| DistanceGraph.FillGraph | hw1/src/Storage.cpp:16-26 | The graph is n x n, symmetric, zero on the diagonal, and each entry above the diagonal is the distance of the two records |
| RowPartition.LinesSlave | hw2/src/HeatDiffusion.cpp:200 | A slave chunk is the largest size that worldSize ranks can all take from n |
| RowPartition.LinesRoot | hw2/src/HeatDiffusion.cpp:201 | The root chunk is the slave size plus `n % worldSize`, so it is never negative and less than one slave chunk plus worldSize |
| RowPartition.Chunks | hw2/src/HeatDiffusion.cpp:204-214 | Rank 0 gets the root size at offset 0 and every other rank gets n / worldSize right after the chunk before it. The counts are non-negative and sum to n, and the last chunk ends at n. With a second rank, the last count, which is the one broadcast, is n / worldSize |
| RowPartition.BaseIsPrefixSum | hw2/src/HeatDiffusion.cpp:206-213 | Each offset is the total size of the chunks before it |
| RowPartition.ContiguousSum | hw2/src/HeatDiffusion.cpp:204-214 | The chunk sizes of a contiguous layout add up to n |
| RowPartition.BasesAscend | hw2/src/HeatDiffusion.cpp:206-213 | A chunk ends no later than any later chunk begins |
| RowPartition.OwnerBelow | hw2/src/HeatDiffusion.cpp:206-213 | A spot below the end of chunk k lies in some chunk up to k |
| RowPartition.ChunksPartitionSpots | hw2/src/HeatDiffusion.cpp:204-214 | Every spot below n lies in the chunk of exactly one rank |
| RowPartition.SameSpot | hw2/src/HeatDiffusion.cpp:22-24 | Two spots are equal exactly when they agree after the temperature is set aside |
| RowPartition.SameSpotIsEquivalence | hw2/src/HeatDiffusion.cpp:22-24 | The spot equality is reflexive, symmetric and transitive |
| RowPartition.TemperatureIgnored | hw2/src/HeatDiffusion.cpp:22-24 | Changing a spot's temperature never changes what it equals |
| InstanceLoader.ToTask | hw3/src/InstanceLoader.cpp:29-36 | The three values of a line fill the first three task fields in order, and the deadline is 0 |
| InstanceLoader.LoadInstance | hw3/src/InstanceLoader.cpp:21-39 | The count comes from the header. A count of 0 or less gives no tasks. Fewer lines than a positive count is reported as a short input, with the number of lines there were. Otherwise there are exactly count tasks, the i-th built from line i in input order |
| InstanceLoader.LinesRoundTrip | hw3/src/InstanceLoader.cpp:29-38 | Loading one line per task and turning each task back into a line gives the input lines again, and every deadline is 0 |
| InstanceLoader.TasksRoundTrip | hw3/src/InstanceLoader.cpp:29-38 | A nonempty task list whose deadlines are 0 is exactly what loading its own lines produces |
| InstanceLoader.TrailingLinesIgnored | hw3/src/InstanceLoader.cpp:25-39 | With at least count lines, later lines make no difference, and the tasks are the first count lines in input order |

## Left out

- **MPI transport.** Out of scope: the model has no processes, so sends are returned as data. This covers:
  - the datatype creation and the send/receive helpers of `hw3/src/Comm.cpp`;
  - the broadcasts of `InitialTasksDistribution`;
  - `CreateMpiSpotType`, the broadcast and `MPI_Scatterv` of the hw2 distribution.
- **Search.Work does not model the `MPI_Iallreduce`.** It is a non-blocking minimum of the bound across ranks, and the model has a single rank. The bound changes only through `ProcessSchedule`.
- **The `Idling` dispatch, `HandleScheduleReceive` and `HandleEnd`.** Their logic is receiving and dispatching messages, and gathering and printing the best solutions.
- **Global termination-detection and load-balancing properties.** They concern several ranks running concurrently. The modelled code is also incomplete: `isRed` is never set, and the root ends on any token. Only the per-rank steps are modelled.
- **Initial token flags and token constants.** Their values are not defined in any modelled file. The colours are the datatype `Messages.TokenValue`, and the flags are taken as input.
- **Makespan, validation and pruning rules of a schedule.** They are not defined in any modelled file and appear only as `Search.Oracle`.
- **OpenMP.** The `collapse(2)` parallel loop is modelled sequentially.
- **The minimum spanning tree** is an unimplemented TODO in the source.
- **DistanceGraph.FillGraph requires at least one record.** With none, `records.size() - 1` wraps around as an unsigned value.
- **Floating point.** The temperature field is a `real` that no operation reads. The clamp in `writeOutput` is not modelled.
- **File and console I/O.** Out of scope:
  - reading files, `stoi` and stringstream tokenisation;
  - the missing-file message of the loader;
  - timing;
  - all printing.
- InstanceLoader.LoadInstance: for fewer lines than a positive count it returns `ShortInput` instead of tasks. Past the last line, `getline` either leaves the last line in place, if the input does not end in a newline, or empties it and leaves the task fields uninitialised. Tokenised input cannot tell these apart, and the second has no defined result.
- **RowPartition.Chunks works on unbounded integers.** The source converts `spots.size()` to `int`, which is only exact for fewer than 2^31 spots.
- EditDistance.Narrow: assumes `char` is signed, as on x86. Where `char` is unsigned, `(char)-1` is 255, so distance to self and symmetry for lines holding negative values are not promised there.
