# N-Queens local search, modelled in Dafny

This project models the local-search engine of `N-queen.py`. It covers the following parts:

- **Boards.** `board[c]` is the row of the queen in column `c`.
- **The heuristic.** It counts the pairs of queens that attack each other by sharing a row or a diagonal.
- **The neighbour generator.** It moves one queen to another row of its own column. It goes column by column and, within a column, by ascending row.
- **The two climbers.**
  - Plain steepest descent stops as soon as no neighbour is strictly better.
  - The sideways variant also takes equally good moves, at most `max_sideways` of them in a row.
- **The random-restart driver.** It runs one of the climbers from fresh boards until a climb succeeds or `max_restarts` climbs have failed.

Each loop of the source is a method with loop invariants, proved equal to a recursive specification function:

| method | specification function |
|---|---|
| `ComputeHeuristic` | `Heuristic` |
| `GetNeighbors` | `Neighbors` |
| scoring, `min` and `list.index` | `SteepestMove` |
| `HillClimb` | `Climb` |
| `HillClimbSideways` | `ClimbSideways` |
| `RandomRestartHillClimb` | `Restart` |

The properties are lemmas about those functions:

- The heuristic is the number of attacking pairs. It is 0 exactly on solutions and at most n(n-1)/2.
- A board in range has n(n-1) neighbours. Each neighbour moves exactly one queen, and the neighbours come in the order the source generates them.
- The move taken is the first neighbour of least heuristic.
- The plain climb strictly lowers the heuristic at every move.
- The sideways climb never raises the heuristic. It keeps its counter within budget and resets the counter on every strict improvement. It stops early on a plateau only after `max_sideways` sideways moves in a row.
- Both climbers report success exactly when the final board is a solution reached before the step budget ran out. Otherwise they stop at a local minimum or because the budget ran out.
- The sideways climber with no sideways budget is the plain climber.
- The driver stops at the first successful climb. It counts the failed climbs before it and sums the steps of every climb it ran.

Modules, one file each:
- `Queens` (queens.dfy): boards and the heuristic.
- `Neighborhood` (neighborhood.dfy): the neighbour generator.
- `Steepest` (steepest.dfy): scoring and choosing the move.
- `Climbing` (climbing.dfy): both climbers.
- `Restarts` (restarts.dfy): the driver.

The source has one edge case that the model keeps.
- A climb that reaches a solved board with its very last allowed move reports failure, because the loop exits before it checks the heuristic again (`ClimbSuccess`, `SidewaysSuccess`).

## Model

| member | source | states |
|---|---|---|
| Queens.Heuristic | N-queen.py:9-17 | The heuristic as the nested loops accumulate it: for each column, the later columns whose queen attacks it (RowCount, PairsBefore). |
| Queens.ComputeHeuristic | N-queen.py:9-17 | The nested loop returns Heuristic(board). That is the number of attacking pairs i < j, and it is 0 exactly when no two queens attack each other. |
| Queens.RowCountIsRowPairs | N-queen.py:14-16 | After the inner loop has reached j, the count is the number of columns k, i < k < j, whose queen attacks the queen in column i. |
| Queens.PairsBeforeIsPairsBelow | N-queen.py:13-16 | After the outer loop has reached a column, the count is the number of attacking pairs whose first column lies below it. |
| Queens.HeuristicCountsAttackingPairs | N-queen.py:9-17 | The heuristic is the number of unordered attacking pairs of the board. |
| Queens.HeuristicZeroIffSolution | N-queen.py:9-17 | The heuristic is 0 exactly when the board is a solution. |
| Queens.RowCountBound | N-queen.py:14 | The inner loop adds at most one per column after i. |
| Queens.PairsBeforeBound | N-queen.py:13-16 | The first c columns contribute at most c(2n-c-1)/2 pairs. |
| Queens.HeuristicBound | N-queen.py:9-17 | 0 <= h <= n(n-1)/2. |
| Queens.HeuristicNeedsTwoQueens | N-queen.py:13-16 | A board with an attacking pair has at least two columns. So a climber that has not returned at line 36 or 53 has neighbours to score. |
| Queens.HeuristicExamples | N-queen.py:9-17 | The diagonal 4-board scores 6. [1,3,0,2] scores 0. A one-queen board scores 0. |
| Neighborhood.Neighbors | N-queen.py:19-29 | The neighbours in the generator's order: column by column, and within a column each row but the queen's, ascending (ColumnMoves, MovesBefore). |
| Neighborhood.GetNeighbors | N-queen.py:19-29 | The generator's loops return Neighbors(board). A board in range gets n(n-1) of them, and each moves exactly one queen. |
| Neighborhood.ColumnMovesLength | N-queen.py:24-28 | One column yields one board per row except the queen's own. |
| Neighborhood.ColumnMovesAreMoves | N-queen.py:24-28 | Every board a column yields moves that column's queen to another row and keeps the other columns. |
| Neighborhood.ColumnMovesAt | N-queen.py:24-28 | Within a column, the move to a given row sits at that row's position, skipping the queen's own row. |
| Neighborhood.MovesBeforeLength | N-queen.py:23-28 | After c columns, a board in range has c(n-1) neighbours listed. |
| Neighborhood.MovesBeforeKeeps | N-queen.py:23-28 | Later columns only append. Earlier neighbours keep their positions. |
| Neighborhood.MovesBeforeAreMoves | N-queen.py:23-28 | Every board listed after c columns moves exactly one queen. |
| Neighborhood.NeighborCount | N-queen.py:19-29 | A board in range has exactly n(n-1) neighbours, and any board has at least that many. |
| Neighborhood.NeighborsNonEmpty | N-queen.py:19-29 | A board of two or more columns has a neighbour, so min over the scores is defined. |
| Neighborhood.NeighborsAreMoves | N-queen.py:25-28 | Every neighbour moves exactly one queen within its column. No neighbour equals the board. Neighbours of a board in range are in range and of the same size. |
| Neighborhood.NeighborOrder | N-queen.py:23-28 | Moving column col's queen to row is neighbour number col*(n-1) + (row, less one if above the queen). |
| Neighborhood.MoveIndexOrder | N-queen.py:23-24 | The enumeration is column-major, and within a column rows ascend: an earlier column or a lower row comes first, and conversely. |
| Steepest.Scores | N-queen.py:39 | The score list has one entry per neighbour, each entry that neighbour's heuristic. |
| Steepest.FirstBest | N-queen.py:40-43 | The chosen position lies among the boards considered. |
| Steepest.FirstBestIsFirstMinimum | N-queen.py:40-43 | The chosen board has the least heuristic, and every board before it is strictly worse. |
| Steepest.SteepestMove | N-queen.py:38-43 | The move is a neighbour together with its position and its heuristic. |
| Steepest.SteepestMoveIsFirstMinimum | N-queen.py:40-43 | The move's neighbour has the least heuristic of all neighbours (min), and is the first with it (list.index). |
| Steepest.SteepestMoveIsMove | N-queen.py:43 | The move changes exactly one queen, and keeps a board in range in range. |
| Steepest.ScoreNeighbors | N-queen.py:39 | The comprehension computes every neighbour's heuristic in order. |
| Steepest.Min | N-queen.py:40 | min returns an element of the list that is no greater than any element. |
| Steepest.IndexOf | N-queen.py:43 | list.index returns the first position holding the value. |
| Steepest.ScoreNeighborhood | N-queen.py:38-40 | The neighbours, their scores and min_h, with min_h the steepest move's heuristic and no greater than any neighbour's. |
| Steepest.FirstAtMinimum | N-queen.py:43 | neighbors[neighbor_h.index(min_h)] is the steepest move's board. |
| Climbing.Climb | N-queen.py:34-45 | The plain climb after a given number of steps. It stops when out of steps, or solved (success), or when the steepest neighbour is not strictly better; otherwise it moves there and counts a step. |
| Climbing.ClimbPath | N-queen.py:34-44 | The path of boards the plain climb visits starts at its initial board. |
| Climbing.ClimbPathShape | N-queen.py:34-45 | The path has one board more than the steps counted and ends at the returned board. |
| Climbing.ClimbPathDescends | N-queen.py:40-44 | Every move goes to the steepest neighbour and strictly lowers the heuristic. |
| Climbing.ClimbDescends | N-queen.py:34-45 | steps <= max_steps, and the steps plus the final heuristic never exceed the initial heuristic. |
| Climbing.ClimbSuccess | N-queen.py:34-45 | Success is reported exactly when the final board has heuristic 0 and fewer than max_steps moves were made. |
| Climbing.ClimbStuck | N-queen.py:40-42 | A failure before the step budget runs out ends at a local minimum, where no neighbour is strictly better. |
| Climbing.ClimbKeepsBoard | N-queen.py:43 | The final board is in range and of the initial size. |
| Climbing.ClimbOutcome | N-queen.py:31-45 | Everything the plain climb promises, from a board in range. |
| Climbing.HillClimb | N-queen.py:31-45 | The loop returns exactly Climb(initial, 0, max_steps). |
| Climbing.ClimbSideways | N-queen.py:51-67 | The sideways climb after a given number of steps with a given counter. A strictly better steepest neighbour resets the counter. An equal one is taken while the counter is below max_sideways and raises it. Otherwise the climb stops. |
| Climbing.SidewaysPath | N-queen.py:51-66 | The states the sideways climb passes through start at the initial board and counter. |
| Climbing.SidewaysPathLength | N-queen.py:51-66 | The path has one state more than the steps counted. |
| Climbing.SidewaysPathEnds | N-queen.py:51-67 | The path ends at the returned board. |
| Climbing.SidewaysPathCounter | N-queen.py:58-63 | The sideways counter stays within [0, max_sideways] along the climb. |
| Climbing.SidewaysPathMoves | N-queen.py:58-63 | Every move goes to the steepest neighbour. A strictly better one resets the counter to 0. An equal one raises it by one. |
| Climbing.MoveBudgetClosedForm | N-queen.py:58-63 | The move budget of a sideways climb from heuristic h is h + (h+1)*max_sideways. |
| Climbing.StrictMoveBudget | N-queen.py:58-60 | A strict move after at most max_sideways sideways moves stays within the budget of the higher heuristic. |
| Climbing.SidewaysBounds | N-queen.py:51-67 | steps <= max_steps, and the final heuristic never exceeds the initial one. |
| Climbing.SidewaysBudget | N-queen.py:58-63 | From a fresh counter the climb makes at most h + (h+1)*max_sideways moves. |
| Climbing.SidewaysSuccess | N-queen.py:51-67 | Success is reported exactly when the final board has heuristic 0 and fewer than max_steps moves were made. |
| Climbing.SidewaysStuckAtMinimum | N-queen.py:58-65 | A failure before the step budget runs out ends at a board with no strictly better neighbour. |
| Climbing.SidewaysStopsOnPlateauOnlyWhenSpent | N-queen.py:61-65 | A failure before the step budget runs out, on a board whose best neighbour is equally good, happens only when the counter of the last state has reached max_sideways. While sideways moves are left, the climber takes the equal move. |
| Climbing.SidewaysStuck | N-queen.py:58-65 | A failure before the step budget runs out ends at a local minimum. If the best neighbour there is equally good, the counter has reached max_sideways. |
| Climbing.SidewaysKeepsBoard | N-queen.py:59-62 | The final board is in range and of the initial size. |
| Climbing.SidewaysWithoutBudgetIsPlain | N-queen.py:58-65 | With max_sideways = 0 the sideways climb returns what the plain climb returns. |
| Climbing.SidewaysOutcome | N-queen.py:47-67 | Everything the sideways climb promises, from a board in range. It includes the move budget, and the fact that an early stop on a plateau comes exactly after max_sideways sideways moves in a row. |
| Climbing.HillClimbSideways | N-queen.py:47-67 | The loop returns exactly ClimbSideways(initial, 0, 0, max_steps, max_sideways). |
| Restarts.Attempt | N-queen.py:73-76 | One climb of the driver from a board: the sideways climb with budgets 1000 and 100, or the plain climb with 1000 steps, which is the sideways climb with no sideways budget. |
| Restarts.Restart | N-queen.py:72-81 | The driver over its climbs' outcomes. It returns at the first success with that climb's board, the failures before it and the steps so far plus its own. With no success, it returns the number of climbs and the last climb's board. |
| Restarts.Attempts | N-queen.py:72-76 | One climb outcome per board considered. |
| Restarts.AttemptsAt | N-queen.py:73-76 | The i-th outcome is the climb from the i-th board. |
| Restarts.AttemptOutcome | N-queen.py:73-76 | Each climb the driver starts takes at most 1000 steps, succeeds exactly on a solution reached within them, and keeps the board in range and its size. |
| Restarts.RestartAfterFailure | N-queen.py:77-80 | After a failed climb the driver adds its steps and goes on with the next climb. |
| Restarts.RestartStopsAtFirstSuccess | N-queen.py:72-81 | The driver returns at the first successful climb with its board. Every earlier climb failed. With no success, it returns max_restarts and the last climb's board. |
| Restarts.RestartCountsAllSteps | N-queen.py:71-79 | total_steps is the sum of the steps of every climb run, the successful one included. |
| Restarts.StepsSumBound | N-queen.py:77 | k climbs of at most budget steps take at most k*budget steps. |
| Restarts.RunClimber | N-queen.py:73-76 | allow_sideways selects the sideways climber, otherwise the plain one, each with its default budgets. |
| Restarts.ClimbFrom | N-queen.py:73-76 | The climb the driver runs after i failures is the i-th outcome. |
| Restarts.RestartFacts | N-queen.py:69-81 | restarts <= max_restarts. On success, restarts < max_restarts and the board is that climb's solved board. On failure, restarts == max_restarts and the board is the last climb's. The total is the steps sum, at most max_restarts * 1000. |
| Restarts.RandomRestartHillClimb | N-queen.py:69-81 | The driver's loop returns Restart over the climbs' outcomes, with every fact of RestartFacts. |

## Left out

- random_board (N-queen.py:5-7) is not modelled, because it draws random numbers. The climbers take the initial board as a parameter; it must be in range, as random_board's boards are. The driver takes the sequence of boards it would draw, `boards[i]` for the i-th climb.
- show_sequences, experiment and the `__main__` entry point (N-queen.py:83-178) are not modelled. They print to the console and take floating-point means (`statistics.mean`) over repeated calls of the core. The `time` module is imported at N-queen.py:3 but never used.
- Restarts.RandomRestartHillClimb requires max_restarts >= 1. With max_restarts = 0 the source reads `board` before it is assigned and raises an error; the model has no result for that case.
- Restarts.RandomRestartHillClimb: the `n` parameter only fixes the size of the drawn boards, which the requires states.
- Climbing.HillClimb and Climbing.HillClimbSideways take max_steps and max_sideways as naturals. Negative values, which Python accepts and treats like 0 in the comparisons, are not modelled.
- Boards are values. get_neighbors copies the board before changing one column, so no board is ever shared or mutated in place; copying and aliasing are not modelled.
- Python's unbounded integers match Dafny's `int`, so no width or wrap-around is modelled.
