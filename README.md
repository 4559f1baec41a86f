# Wordcraft solver core in Dafny

This project models the puzzle engine of `solver.cpp`, a solver for a
sliding-word puzzle. A level is a rectangular grid with walls and one cell
per word of a target sentence. A move picks a word and a direction
(`up`, `down`, `left`, `right`). The word then slides until the next cell is
outside the grid, a wall or another word. The level is solved when the words
read the target sentence, forwards or backwards, along one row or one column.

The model follows the program's own structure:

- `seqs.dfy` (`Seqs`): `std::reverse` on sequences, the element set of a
  sequence and pairwise distinctness.
- `grid.dfy` (`Grid`): `Position`, the direction table `DIRECTIONS`,
  `std::find`, the predicates `is_wall`, `is_position_occupied` and
  `is_out_of_bounds`, and the slide of `move_word` as a function with its
  properties.
- `sentence.dfy` (`Sentence`): splitting a sentence on whitespace the way
  `istringstream >>` does, `join_words` and `reverse_sentence`.
- `goals.dfy` (`Goals`): the goal placements of `generate_goal_states` and
  the wall-free count of `calculate_possible_positions`, as functions in the
  loops' scan order, with their counting, shape and pairing lemmas.
- `solved.dfy` (`Solved`): what `is_solved` decides, namely the first
  contiguous block of words in each row and column.
- `game_state.dfy` (`GameStates`): the class `GameState`. Its only mutable
  field is `wordPositions`. Its methods `MoveWord`, `IsSolved` and
  `GenerateGoalStates`, and the function `calculate_possible_positions`, are
  loops proved equal to the functions above.
- `search.dfy` (`Search`): `solve_game`, the breadth-first search. Its
  queues are sequences and its visited registries are sets of position
  sequences. A non-empty returned path is proved to replay, move by move, to a
  goal placement; the empty path is returned both when the start
  positions are already a goal placement and when the search fails. The
  search's goal test is membership in the goal placements, with word `i`
  on cell `i` of a run, so it depends on word order: when a sentence
  repeats a word, swapping two equal words is not recognised as a goal by
  the search although `is_solved` accepts it. `Search.GoalPlacementIsSolved`
  holds in that one direction only.

In `solve_game` the loop runs only while both queues are non-empty, so the
forward queue is always the one dequeued. The backward branch and the
`forward = false` assignment are unreachable, and the model proves this with
`assert false` at those points. `backward_visited` stays the set of goal
placements. The search is therefore a forward breadth-first search from the
initial positions to any goal placement.

## Model

| member | source | states |
|---|---|---|
| Seqs.Reverse | solver.cpp:133 | the reversed run has the same length and element `i` is the original's element counted `i` places from its end |
| Seqs.ReverseReverse | solver.cpp:133 | reversing twice gives the original run back |
| Grid.Delta | solver.cpp:174-179 | every entry of the direction table is a unit step, and any name it accepts is one of `up`, `down`, `left`, `right` |
| Grid.DirectionNames | solver.cpp:174-179 | the table's names are exactly `up`, `down`, `left`, `right` |
| Grid.Find | solver.cpp:90 | `std::find` returns the first index holding the position, or the length when there is none |
| Grid.IsWall | solver.cpp:61-63 | a cell is a wall iff some entry of the wall list equals it |
| Grid.IsOutOfBounds | solver.cpp:65-67 | a cell is out of bounds iff its row is negative or at least the row count, or its column is negative or at least the column count |
| Grid.EdgeIsOutOfBounds | solver.cpp:65-67 | from an in-grid cell, the next cell along a unit step is out of bounds exactly when no in-grid cell is left ahead, so the slide loop of `move_word` ends at the edge at the latest |
| Grid.IsPositionOccupied | solver.cpp:56-59 | a cell is occupied iff some word position or some wall equals it |
| Grid.SlideTarget | solver.cpp:69-77 | the slide stops on the ray from the start at the first obstacle: every cell passed over is inside the grid and free, the resting cell is the start or free, and the next cell is out of the grid or occupied |
| Grid.Move | solver.cpp:76 | only entry `i` of the word positions is written, and the cell past its new place is out of the grid or occupied |
| Grid.SlideResult | solver.cpp:56-77 | from an in-grid, wall-free start among distinct words, the word ends in the grid, off walls and off other words; the next cell is blocked; other words are unchanged; words stay distinct |
| Grid.SlideIdempotent | solver.cpp:69-77 | sliding the same word twice in the same direction equals sliding it once |
| Grid.SlideBlockedIsNoop | solver.cpp:69-77 | a word whose first step is blocked does not move |
| Sentence.Split | solver.cpp:47-51 | the words extracted from a sentence are non-empty and contain no whitespace |
| Sentence.JoinAppend | solver.cpp:153-164 | joining one more word appends exactly one space and the word |
| Sentence.JoinWords | solver.cpp:153-164 | the `first`-flag loop returns the words joined by single spaces, `""` for no words |
| Sentence.SplitJoin | solver.cpp:153-164 | splitting words joined by single spaces gives the words back |
| Sentence.ReverseSentence | solver.cpp:166-171 | the result is the sentence's words in reverse order, joined by single spaces |
| Sentence.ReverseSentenceTwice | solver.cpp:166-171 | reversing a sentence twice gives its words joined by single spaces |
| Sentence.ReversedWordsOfJoin | solver.cpp:166-171 | reversing a single-spaced sentence is joining its reversed word list |
| Goals.HRun | solver.cpp:128-131 | a horizontal run has `n` cells; cell `i` is at column `col + i` of the row |
| Goals.VRun | solver.cpp:141-144 | a vertical run has `n` cells; cell `i` is at row `row + i` of the column |
| Goals.GoalPlacements | solver.cpp:121-152 | every goal placement has one cell per word, all inside the grid; walls are not an argument |
| Goals.GoalCount | solver.cpp:121-152 | there are `2 * (rows * starts(cols) + cols * starts(rows))` goal placements, loop counts clamped at zero |
| Goals.GoalCountFitting | solver.cpp:121-152 | for `1 <= N <= rows` and `N <= cols` there are `2 * (rows * (cols - N + 1) + cols * (rows - N + 1))` placements |
| Goals.GoalCountFourByFourTwoWords | solver.cpp:121-152 | a 4 x 4 grid with two words has 48 goal placements |
| Goals.GoalsMirrored | solver.cpp:132-134 | the number of placements is even and every odd-indexed placement is the reverse of the one before it |
| Goals.GoalShape | solver.cpp:121-152 | every placement is `N` consecutive in-grid cells of one row or one column, in either order |
| Goals.GoalsComplete | solver.cpp:121-152 | every run of `N` consecutive cells in a row or column, in either order, is a goal placement |
| Goals.PairedCount | solver.cpp:195-197 | over a list of runs each followed by its reverse, the wall-free count is twice the wall-free count of the forward runs |
| Goals.PossiblePositionsBounds | solver.cpp:181-218 | the possible-positions count is twice the number of wall-free runs, is even, is at most the number of goal placements, and equals it when there are no walls |
| Goals.CountWallFreeAtMost | solver.cpp:181-218 | the wall-free count of a list of runs never exceeds its length and equals it without walls |
| Solved.ScanLine | solver.cpp:89-96 | the scan of one line only appends words to those already collected |
| Solved.DropGaps | solver.cpp:89-95 | skipping leading empty cells leaves a suffix of the line that starts with a word, if anything is left |
| Solved.ScanLineIsFirstBlock | solver.cpp:88-96 | the scan of one line with its `break` collects exactly the first contiguous block of words |
| Solved.RunStopsAtGap | solver.cpp:94 | a block of words ends at the first empty cell after it |
| Solved.FirstBlockIgnoresRest | solver.cpp:94 | once a word has been followed by an empty cell, the rest of the line does not change what is collected |
| Solved.EmptyLineJoinsToEmpty | solver.cpp:81-84 | a line with no words is compared as the empty string |
| Solved.RowScanCells | solver.cpp:87-89 | the cells the row scan of `is_solved` visits are exactly the cells of that row that `is_out_of_bounds` (solver.cpp:65-67) accepts |
| Solved.ColumnScanCells | solver.cpp:103-105 | the cells the column scan of `is_solved` visits are exactly the cells of that column that `is_out_of_bounds` (solver.cpp:65-67) accepts |
| Solved.HorizontalPlacementIsSolved | solver.cpp:86-100 | words placed in order, or in reverse, on a row run make the solved test hold |
| Solved.VerticalPlacementIsSolved | solver.cpp:102-116 | words placed in order, or in reverse, on a column run make the solved test hold |
| GameStates.GameState.constructor | solver.cpp:45-52 | the words are the whitespace-separated words of the sentence and the reversed target is the reversed sentence |
| GameStates.GameState.Copy | solver.cpp:277-278 | a copy of a state keeps every field of the original except the word positions, which it replaces |
| GameStates.GameState.MoveWord | solver.cpp:69-77 | only entry `wordIndex` of the word positions changes, and it becomes the slide target |
| GameStates.GameState.IsSolved | solver.cpp:79-119 | the result is true iff some row or some column has a first block of words that joins to the target or the reversed target |
| GameStates.GameState.ScanRow | solver.cpp:88-96 | the inner scan returns the first contiguous block of words of the line |
| GameStates.GameState.GenerateGoalStates | solver.cpp:121-152 | the result is the goal placements of the grid for as many cells as the level has words; the walls play no part |
| GameStates.PushRowGoals | solver.cpp:127-135 | one row of the horizontal scan appends each run followed by its reverse |
| GameStates.PushColumnGoals | solver.cpp:140-148 | one column of the vertical scan appends each run followed by its reverse |
| GameStates.CalculatePossiblePositions | solver.cpp:181-218 | the count is the number of wall-free goal placements |
| GameStates.CountRowRuns | solver.cpp:186-199 | one row adds 2 per wall-free run |
| GameStates.CountColumnRuns | solver.cpp:202-215 | one column adds 2 per wall-free run |
| GameStates.RunHasNoWall | solver.cpp:188-194 | the inner loop with its `break` reports whether no cell of the run is a wall |
| GameStates.WallFreePairCount | solver.cpp:195-197 | a run and its reverse add 2 to the count when the run is wall-free and 0 otherwise |
| Search.ReplayExtend | solver.cpp:343-348 | replaying a path extended by one move is one more `move_word` on the replayed state |
| Search.ReplayKeepsPlacement | solver.cpp:343-344 | words in the grid, off walls and pairwise apart stay so along any replayed path |
| Search.SuccessorReaches | solver.cpp:343-349 | a queued successor of a reached state is reached by its extended path |
| Search.TryStep | solver.cpp:343-349 | one move's result ends up visited, and it is queued with the extended path exactly when it was not visited before |
| Search.ExpandWord | solver.cpp:340-351 | every direction of one word is tried, in no fixed order; every result ends up visited; only unvisited results are queued, once each, and every queued entry's last move is by this word |
| Search.Expand | solver.cpp:339-352 | every word in every direction is tried; every successor ends up visited; only unvisited successors are queued, once each, with the move appended to the path |
| Search.QueuedExpand | solver.cpp:345-349 | after an expansion every queued state is still reached by its path, no state has been queued twice, and the visited set is exactly the set of states ever queued |
| Search.SolveGame | solver.cpp:254-356 | the loop count stays within the budget; a returned path has at most 59 moves of existing words in named directions; a non-empty path replays to a goal placement; an initial goal state gives the empty path after one iteration; no goal placements give no iteration |
| Search.GoalIsLineRun | solver.cpp:121-152 | a goal placement is `N` consecutive cells of one row or one column |
| Search.GoalIsSolved | solver.cpp:79-152 | every goal placement makes the solved test hold against the single-spaced sentence and its reversal |
| Search.GoalPlacementIsSolved | solver.cpp:45-52 | for a level's sentence, every goal placement passes the solved test against the level's reversed target, and against the target itself when it is single-spaced |

## Left out

- `load_level_data` (CSV reading and `std::stoi`) and `main` (console output and timing) are not part of this model. A level is built with the `GameState` constructor.
- The progress report and the "Solution found" output inside `solve_game` print and read the clock. They are left out. Only the returned path and the iteration count are modelled.
- The hash functors for `Position` and for position vectors are left out. Visited registries are mathematical sets, so hashing affects only speed.
- The default constructor `GameState()` only serves as a placeholder before a dequeue. The model declares local variables with empty values in its place.
- `DIRECTIONS` is an `unordered_map`. The model makes no assumption about its iteration order and picks each direction from those not yet tried. Nothing proved depends on the order.
- Search.SolveGame: the model does not prove that a found path is a shortest one, nor that an empty result means no goal is reachable within 59 moves. It proves soundness of the returned path, the bounds and the start cases.
- Search.SolveGame: queue entries keep only the word positions and the path. The other `GameState` fields of every queued copy equal those of the initial state.
- Search.SolveGame: the backward branch and the `forward = false` assignment are proved unreachable and are modelled as `assert false`. The backward queue is built but never dequeued.
- GameStates.GameState.IsSolved: requires at most as many word positions as words. This is a simplification, stronger than the condition under which the C++ code misbehaves: `words` is indexed out of range only when the first match `std::find` returns for an in-grid cell has an index of at least the number of words, so extra positions outside the grid or repeating an earlier entry would be harmless there.
- `GameState` holds `walls` as a constant. Only `load_level_data` appends walls after construction, and that loader is not part of this model.
- Integers are unbounded. The C++ `int` counters (`paths_traversed` at most 10000000, the possible-positions count, grid coordinates) stay far below 32-bit limits for 8 x 8 levels, so wrap-around is not modelled.
- Splitting a sentence follows `istringstream >>` with the C locale: whitespace is space, tab, newline, vertical tab, form feed and carriage return.
- `generate_goal_states` yields 48 placements on a 4 x 4 grid with two words (12 horizontal and 12 vertical runs, each also reversed); see `Goals.GoalCountFourByFourTwoWords`.
- Goal placements are not filtered by walls, as in the code. A placement that covers a wall can never be reached from a start whose words are off the walls (see `Search.ReplayKeepsPlacement`), which costs search time but not correctness. The level loader accepts a word and a wall on the same cell; such a start is returned at once when it is itself a goal placement.
