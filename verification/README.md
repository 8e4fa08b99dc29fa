# Game of Life simulation engine, modelled in Dafny

This project models the simulation engine of a Conway's Game of Life program:
the class `GameOfLife` in `src/game_of_life.py`. The engine keeps a sparse list
of live cells on a bounded `nrow x ncol` grid. The grid does not wrap around.
Each step works by neighbour voting:

- every live cell adds one vote to each cell of its Moore neighbourhood,
  clipped to the grid;
- a cell lives on when it has exactly 3 votes, or exactly 2 votes and was
  already alive.

A run records every generation in `history`. It also records a "potential" in
`potential`: the number of cells that changed state since the previous
generation, with float infinity for the first entry. A shutdown counter may
stop the run before its iteration cap.

Modules, one per part of the engine:

- `Cells` (`cells.dfy`): coordinates, the clipped search window of a live cell
  (`Casts`), Moore adjacency, and the set of cells a list holds.
- `Voting` (`voting.dfy`): the `defaultdict(int)` vote counter. Its keys keep
  insertion order. The nested row/column loops of `_step` are written as
  recursive functions, and lemmas relate the counter to a reference count
  `Votes`: the number of list entries that vote for a cell.
- `Transition` (`transition.dfy`): `_step` as the function `Step`, its
  birth/survival rule, and lemmas about the next generation.
- `PotentialMeasure` (`potential.dfy`): `_get_potential`, the size of the
  symmetric difference of two generations.
- `Engine` (`engine.dfy`): the object state (`Create` is `__init__`),
  `_set_initial`, and `run`. The loop is the method `Simulate`, which returns
  the early-stop report as a boolean. `Run` appends the loop's lists to the
  engine's lists.
- `Patterns` (`patterns.dfy`): the block, the blinker and duplicated cells run
  through the model, and how a run from a still life ends.

Live cells are a `seq<Cell>`, as the source keeps them in a list. An explicit
initial list may hold duplicates and cells off the grid; both are kept, and a
duplicated entry votes once per occurrence. Every later generation has no
duplicates and lies on the grid.

The model follows the code literally, including three behaviours a reader may
not expect:

- The shutdown counter is never reset when two potentials differ. Equal
  potentials far apart in the run still add up (`Engine.CounterIsNeverReset`).
- The final report is "early-stopped" whenever the counter is at least the
  wait, not only when the loop broke. With a wait of 0 or less, every run
  reports an early stop, even one that used all its steps.
- Explicit initial cells are not checked against the grid. Off-grid cells
  stay in the first generation and still vote for their in-grid neighbours.

## Model

| member | source | states |
|---|---|---|
| Cells.CastsIsClippedMooreNeighbourhood | src/game_of_life.py:50-57 | a live cell votes for `c` exactly when `c` is on the grid and Moore-adjacent to it; it never votes for itself |
| Voting.VotesSnoc | src/game_of_life.py:48-57 | each entry of the live list adds its own vote, so a duplicated entry votes once per occurrence |
| Voting.VoteColumnsCounts | src/game_of_life.py:55-57 | the column loop adds one vote to each visited column of the row except the voter's own cell, and keeps the counter well formed |
| Voting.VoteRowsCounts | src/game_of_life.py:54-57 | the row loop adds one vote to each cell of the search rectangle except the voter's own cell |
| Voting.CastVotesCounts | src/game_of_life.py:49-57 | one live cell adds exactly one vote to every cell of its clipped neighbourhood and to nothing else |
| Voting.TallyCounts | src/game_of_life.py:47-57 | after the voting loop, each cell's count equals its reference vote count; the counter's keys are exactly the cells with a vote, each listed once |
| Transition.SelectKeeps | src/game_of_life.py:59-62 | the selection loop keeps exactly the keys with 3 votes, or 2 votes and alive, and lists none twice when the keys are distinct |
| Transition.StepRule | src/game_of_life.py:46-63 | the next generation has no duplicates, and a cell is in it if and only if it has 3 votes, or 2 votes and is in the current list |
| Transition.StepInGrid | src/game_of_life.py:50-57 | every cell of a next generation lies in `[0,nrow) x [0,ncol)`, whatever the current list holds |
| Transition.EmptyStaysEmpty | src/game_of_life.py:47-63 | an empty live list gives an empty next generation |
| Transition.IsolatedCellDies | src/game_of_life.py:56-61 | a cell with no live Moore neighbour other than itself is not in the next generation |
| Transition.SingleCellDies | src/game_of_life.py:46-63 | a list holding one cell gives an empty next generation |
| Transition.OwnLivenessNotCounted | src/game_of_life.py:56 | adding a cell to the live list does not change that cell's own vote count |
| Transition.VotesOfDistinct | src/game_of_life.py:47-57 | for a list without duplicates, a cell's vote count is the number of distinct live cells voting for it |
| Transition.StepDependsOnlyOnCells | src/game_of_life.py:46-63 | two duplicate-free lists with the same cells step to generations with the same cells |
| PotentialMeasure.PotentialCountsChangedCells | src/game_of_life.py:67-70 | the potential is the number of cells alive in exactly one of the two generations |
| PotentialMeasure.PotentialSymmetric | src/game_of_life.py:67-70 | the potential does not depend on the order of its two arguments |
| PotentialMeasure.PotentialZeroIffSameCells | src/game_of_life.py:67-70 | the potential is zero if and only if both lists hold the same cells |
| PotentialMeasure.PotentialTriangle | src/game_of_life.py:67-70 | the potential obeys the triangle inequality through any third generation |
| Engine.Zip | src/game_of_life.py:43 | the sampled cells pair the i-th row draw with the i-th column draw, up to the shorter list |
| Engine.SetInitial | src/game_of_life.py:37-44 | explicit cells are used verbatim; otherwise the initial cells are the paired draws |
| Engine.SampledCellsInGrid | src/game_of_life.py:41-43 | draws from `[0,nrow)` and `[0,ncol)` give initial cells on the grid |
| Engine.BreaksAtExtend | src/game_of_life.py:25-30 | recording a potential raises the counter by one exactly when it equals the previous potential, and leaves the earlier break decisions unchanged |
| Engine.TraceExtend | src/game_of_life.py:22-25 | appending the next generation and its potential to a run's record keeps the record well formed |
| Engine.Simulate | src/game_of_life.py:18-34 | history and potential have equal length and start with the initial cells and the sentinel; each generation is the step of the previous one; each potential compares a generation with its predecessor; at most `max_iteration` steps; the loop breaks at the first step where the counter reaches the wait, or runs all steps; the report is early-stop exactly when the counter reached the wait |
| Engine.Run | src/game_of_life.py:16-35 | a run appends to the engine's lists a record as `Simulate` describes, from the cells `_set_initial` chose; earlier entries are kept, both lists grow by the same amount, and lists of equal length stay equal |
| Engine.EqualEventsBound | src/game_of_life.py:19-28 | the first step never raises the counter, since a finite potential never equals the sentinel; after n steps the counter is at most n - 1 |
| Engine.EarlyStopNeedsMoreThanWaitSteps | src/game_of_life.py:26-30 | a run that stops before its cap has taken more steps than the wait, and at least two |
| Engine.ConstantPotentialEvents | src/game_of_life.py:27-28 | while every potential is the same value, the counter after step k is k - 1 |
| Engine.ConstantPotentialStopsAfterWaitSteps | src/game_of_life.py:20-30 | with a constant potential and a positive wait, a run takes exactly `min(max_iteration, wait + 1)` steps |
| Engine.CounterIsNeverReset | src/game_of_life.py:27-30 | two isolated equal-potential events add up and stop a run with wait 2 |
| Patterns.BlockIsStillLife | src/game_of_life.py:46-63 | a 2x2 block steps to the same cells |
| Patterns.HorizontalBlinkerTurnsVertical | src/game_of_life.py:46-63 | a horizontal blinker steps to the vertical blinker |
| Patterns.VerticalBlinkerTurnsHorizontal | src/game_of_life.py:46-63 | a vertical blinker steps to the horizontal blinker |
| Patterns.BlinkerHasPeriodTwo | src/game_of_life.py:46-63 | two steps of the blinker give back its cells |
| Patterns.DuplicatesVoteRepeatedly | src/game_of_life.py:48-62 | on any grid, a cell listed three times gives birth to exactly its in-grid Moore neighbours, while the same cell listed once leaves nothing |
| Patterns.StillLifeRunStopsAfterWaitSteps | src/game_of_life.py:16-30 | a run from a duplicate-free still life keeps its cells in every generation, records potential 0 after the sentinel, and takes `min(max_iteration, wait + 1)` steps when the wait is positive |
| Patterns.BlockRunStopsAfterWaitSteps | src/game_of_life.py:16-30 | a run from the block takes `min(max_iteration, wait + 1)` steps when the wait is positive |

## Left out

- The random initial sampling (`np.random.choice`, src/game_of_life.py:41-42) is a foreign, nondeterministic call. The row and column draws are parameters of `SetInitial` and `Run`.
- Sampling with `alives` and `num_alives` both `None` fails in the source. Sampling on a grid with no rows or no columns fails too, unless `num_alives` is 0: then no draws are taken and the initial list is empty, which is what `SetInitial` gives for empty draws. The model has neither failing case, since the draws are given lists.
- `run`'s default `shutdown_wait=20` (src/game_of_life.py:16) is not modelled: `Simulate` and `Run` take the wait as an explicit parameter.
- The `tqdm` progress bar and the two `print` messages in `run` are I/O. `Simulate` and `Run` return the early-stop report as a boolean instead.
- The float infinity of the first potential is the constructor `Infinite` of `PotentialValue`, not a float.
- Mutable object state is modelled as an immutable `GameOfLife` value that `Run` returns updated. The aliasing of an explicit `alives` list with the caller's list is not modelled. It has no effect, because `_step` replaces the list rather than changing it.
- Transition.StepRule: the order of the next generation is modelled, as the order in which cells first got a vote, but no contract states it. Every contract is about membership and duplicates.
- `main.py` (driver and configuration) and `src/animator.py` (matplotlib rendering and GIF export) are outside the engine and not modelled.
