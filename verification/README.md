# Gomoku engine and labyrinth backtracking, modelled in Dafny

This project models two small search programs of an AI course repository and
proves what they compute.

**The Gomoku / tic-tac-toe engine** (`PractiseAssignment4/07_minimax_exercise.py`):

- An n x n board of marks: 0 empty, 1 X (the human), 2 O (the engine).
- The terminal classifier `winner`. It scans rows, columns, the main diagonals
  and the diagonals of the upside-down board with `itertools.groupby` for a run
  of `NEEDED_TO_WIN` = 3 equal marks, then tests for a draw.
- Successor generation: `possible_steps`, `next_boards` and `copy`.
- `switch_player`.
- The two searches, `minimax` and `alpha_beta`.
- The turn logic of `GameLogic.play` and `reset`, with the three strategies the
  window offers.

**The robot-vacuum labyrinth** (`HomeAssignment1/robot_vacuum_assignment.py`):

- The character table with which a board file is read.
- The search problem:
  - `find_position`;
  - start `M`, goal `D`;
  - `next_states`, a hop of two cells through a cell that is not a wall;
  - `is_valid_position`.
- The depth-first `backtrack` with its visited set and its append-only trail
  `path`.

Files and modules:

| file | module | contents |
|---|---|---|
| `wrappers.dfy` | `Wrappers` | `Option`, `Result` and the Python exceptions raised (`IndexError`, `ValueError`, `AssertionError`) |
| `gomoku.dfy` | `Gomoku` | board, cell access, empty-cell count, `possible_steps`, `next_boards`, `switch_player` |
| `runs.dfy` | `Runs` | `groupby` over one line and the "first run of length >= k" test, against a sliding-window reference |
| `terminal.dfy` | `Terminal` | `winner` as four family scans, against a geometric reference (runs in four directions) |
| `minimax.dfy` | `Minimax` | `value` / `maximize` / `minimize` and the top-level `minimax` move |
| `alpha_beta.dfy` | `AlphaBeta` | the windowed search, its agreement with minimax, pruning, the top-level move |
| `game_logic.dfy` | `GameLogic` | `play`, `reset`, the strategies |
| `labyrinth.dfy` | `Labyrinth` | fields, the load table, `str.strip`, loading, positions, `next_states`, `find_position`, the problem |
| `backtracking.dfy` | `Backtracking` | `backtrack` / `backtrack_recursive` and what they return |

Boards are immutable values (`seq<seq<int>>`, `seq<seq<Field>>`). Every
mutation of the source becomes a function that returns the new value, and
exceptions become `Err` results. Where an exception leaves mutated state
behind, the model returns that state next to the error: `GameLogic.Play`
returns a `Turn`, the game after the call together with either the value
`play` returns or the exception the engine raised. In that case the human's
mark is already on the board and the player to move is O.

The two searches of the engine recurse on the number of empty cells. Each
successor has exactly one fewer empty cell than its parent.

`backtrack_recursive` and its loop over `next_states` become the mutually
recursive `Search` and `Expand`. They thread the trail and the visited set
through explicitly, and terminate because the set of unvisited cells shrinks.

### Which move the engine plays

A minimax engine is usually expected to play a best move. This code does
something else, and the model follows the code:

- `maximize` appends a child to `solution` only when its value strictly beats
  the running maximum.
- `minimax` and `alpha_beta` then play `solution[0]`. That is the **first**
  successor, in `next_boards` order, whose value beats -1: a move that does not
  lose, but not necessarily the best one.
- When every move of O loses, `solution` is `[]` and `solution[0]` raises
  IndexError. `Minimax.Minimax` and `AlphaBeta.AlphaBeta` return
  `Err(IndexError)` in that case.

## Model

| member | source | states |
|---|---|---|
| `Gomoku.SwitchPlayer` | PractiseAssignment4/07_minimax_exercise.py:109-110 | `switch_player` maps X to O and O to X, and nothing else to either |
| `Gomoku.SwitchPlayerInvolution` | PractiseAssignment4/07_minimax_exercise.py:109-110 | switching twice gives the player back; a player switches to the other player |
| `Gomoku.Set` | PractiseAssignment4/07_minimax_exercise.py:98-103 | `__setitem__` writes the mark into that one cell and leaves every other cell and the shape as they were |
| `Gomoku.Get` | PractiseAssignment4/07_minimax_exercise.py:91-96 | `__getitem__` with a (row, col) pair reads an empty cell exactly when `possible_steps` lists that coordinate |
| `Gomoku.GetSet` | PractiseAssignment4/07_minimax_exercise.py:91-103 | `__getitem__` after `__setitem__` reads the new mark at the written cell and the old mark everywhere else |
| `Gomoku.Zeros` | PractiseAssignment4/07_minimax_exercise.py:105-106 | the fresh or reset board is n x n and every cell is empty |
| `Gomoku.SetEmptyCount` | PractiseAssignment4/07_minimax_exercise.py:86-88 | writing a mark into an empty cell removes exactly one empty cell (the termination measure of both searches) |
| `Gomoku.PossibleSteps` | PractiseAssignment4/07_minimax_exercise.py:78-79 | `possible_steps` lists as many coordinates as the board has empty cells, each one an empty cell of the board |
| `Gomoku.PossibleStepsSpec` | PractiseAssignment4/07_minimax_exercise.py:78-79 | every empty cell is listed, and the list is strictly increasing in row-major order, the order of `np.argwhere` |
| `Gomoku.FullIffNoEmptyCell` | PractiseAssignment4/07_minimax_exercise.py:69-71 | the board has no empty cell exactly when the empty-cell count is zero |
| `Gomoku.NextBoards` | PractiseAssignment4/07_minimax_exercise.py:81-89 | one successor per empty cell; each is n x n and has one empty cell fewer than the parent |
| `Gomoku.NextBoardsSpec` | PractiseAssignment4/07_minimax_exercise.py:75-89 | the i-th successor is the parent with the i-th empty cell set to the player and all other cells unchanged; the parent is a separate value that stays as it was |
| `Gomoku.NextBoardsDistinct` | PractiseAssignment4/07_minimax_exercise.py:81-89 | no two successors are the same board |
| `Runs.GroupByExpand` | PractiseAssignment4/07_minimax_exercise.py:45-46 | replaying the `groupby` groups gives the line back |
| `Runs.GroupBy` | PractiseAssignment4/07_minimax_exercise.py:45-46 | `groupby` gives no more groups than the line has cells, none exactly for the empty line, every group non-empty, the first keyed by the line's first value |
| `Runs.FirstWinningRun` | PractiseAssignment4/07_minimax_exercise.py:45-48 | the reported key is non-zero and is the key of a group of length at least k |
| `Runs.LineWinner` | PractiseAssignment4/07_minimax_exercise.py:45-48 | a line never reports the empty mark as a winner |
| `Runs.GroupByShape` | PractiseAssignment4/07_minimax_exercise.py:45-46 | the groups are non-empty, the first has the line's first value as key, and neighbouring keys differ |
| `Runs.LineWinnerIsWindowWinner` | PractiseAssignment4/07_minimax_exercise.py:45-48 | scanning the groups for the first non-empty key with length >= 3 agrees with scanning left to right for the first window of 3 equal non-empty cells |
| `Runs.LineWinnerSpec` | PractiseAssignment4/07_minimax_exercise.py:45-48 | a line reports a mark exactly when it holds 3 consecutive copies of some non-empty mark, and the reported mark is one that does |
| `Terminal.Transpose` | PractiseAssignment4/07_minimax_exercise.py:50 | `board.T` is an n x n board |
| `Terminal.TransposeCells` | PractiseAssignment4/07_minimax_exercise.py:50 | definition of numpy's `.T`: `board.T` holds cell (i, j) of the board at (j, i) |
| `Terminal.Diagonal` | PractiseAssignment4/07_minimax_exercise.py:56-57 | `board.diagonal(off)` of an n x n board has n - abs(off) cells for -n < off < n and none otherwise |
| `Terminal.DiagonalCells` | PractiseAssignment4/07_minimax_exercise.py:56-57 | definition of numpy's `diagonal`: its t-th cell is (t, t + off) for off >= 0 and (t - off, t) below the main diagonal |
| `Terminal.Diagonals` | PractiseAssignment4/07_minimax_exercise.py:56-57 | the scan covers `range(K - n, n - K + 1)`: 2n - 2K + 1 diagonals, or none when n < K |
| `Terminal.DiagonalsSpan` | PractiseAssignment4/07_minimax_exercise.py:56-57 | the diagonals scanned, offsets K - n to n - K in increasing order, are exactly the diagonals with at least K = 3 cells |
| `Terminal.FlipUD` | PractiseAssignment4/07_minimax_exercise.py:63 | `np.flipud` keeps the board n x n |
| `Terminal.FlipUDRows` | PractiseAssignment4/07_minimax_exercise.py:63 | definition of `np.flipud`: `np.flipud` puts row i at position n - 1 - i |
| `Terminal.FirstLineWinner` | PractiseAssignment4/07_minimax_exercise.py:44-68 | the scan over one family of lines never reports the empty mark |
| `Terminal.Stages` | PractiseAssignment4/07_minimax_exercise.py:44-73 | the stages from any point on report a draw only on a board without empty cells, and None only while some cell is empty |
| `Terminal.Winner` | PractiseAssignment4/07_minimax_exercise.py:34-73 | `winner` reports a draw only when no cell is empty and None only while some cell is empty (the full characterisation is `Terminal.WinnerSpec`) |
| `Terminal.WinnerFamilyOrder` | PractiseAssignment4/07_minimax_exercise.py:44-68 | the scan order decides: a row run beats a column run, which beats a main-diagonal run, which beats an anti-diagonal run |
| `Terminal.WinnerByFamilies` | PractiseAssignment4/07_minimax_exercise.py:44-73 | a mark is reported exactly when one of the four families holds a run, and the reported mark owns a run; with no run the result is the draw test |
| `Terminal.WinnerSpec` | PractiseAssignment4/07_minimax_exercise.py:34-73 | `winner` reports p only when p has 3 in a row in some direction; it reports a win exactly when some mark has a run, a draw exactly when no mark has a run and no cell is empty, and None exactly when no mark has a run and some cell is empty; a full board with a run is a win, never a draw |
| `Terminal.WinnerRange` | PractiseAssignment4/07_minimax_exercise.py:34-42 | on a board of 0s, 1s and 2s `winner` returns 0, 1, 2 or None |
| `Minimax.Value` | PractiseAssignment4/07_minimax_exercise.py:133-176 | `value`, `maximize` and `minimize` score every board in [-1, 1] |
| `Minimax.Pick` | PractiseAssignment4/07_minimax_exercise.py:146-176 | the loop of `maximize` / `minimize` keeps the score in [-1, 1] when its start value and the child values are |
| `Minimax.ValueTerminal` | PractiseAssignment4/07_minimax_exercise.py:139-144 | the scoring convention: a finished board scores 0 for a draw, -1 for an X win and +1 for an O win, with no `solution`; any other board gets a `solution` list |
| `Minimax.OngoingHasMoves` | PractiseAssignment4/07_minimax_exercise.py:69-73 | a board for which `winner` returns None is not finished and has at least one successor |
| `Minimax.PickScore` | PractiseAssignment4/07_minimax_exercise.py:146-153 | the loop ends with the extremum of its start value and the child values: nothing beats it, and it is the start value or one of the child values |
| `Minimax.TraceSpec` | PractiseAssignment4/07_minimax_exercise.py:169-176 | the positions appended to `solution` increase, each beats the start value and all earlier ones, and the first is the first position beating the start value |
| `Minimax.ValueScore` | PractiseAssignment4/07_minimax_exercise.py:146-176 | on an unfinished board no successor's value beats the score, and some successor attains it |
| `Minimax.ValueIsExtremum` | PractiseAssignment4/07_minimax_exercise.py:133-176 | on an ongoing board the score is the maximum of the children's values when O moves and the minimum when X moves |
| `Minimax.ValueSolution` | PractiseAssignment4/07_minimax_exercise.py:146-176 | `solution` holds exactly the successors at strictly improving positions: the first beats the initial extremum, each later one beats the one before, the last attains the score, and the list is empty exactly when no child beats the initial extremum |
| `Minimax.SolutionImproves` | PractiseAssignment4/07_minimax_exercise.py:146-176 | the boards appended by `maximize` have strictly increasing values, those appended by `minimize` strictly decreasing values |
| `Minimax.Minimax` | PractiseAssignment4/07_minimax_exercise.py:178-180 | a finished board is left as it is; otherwise the move is the first successor whose value beats -1, every earlier one loses, and IndexError is raised exactly when every move of O loses |
| `AlphaBeta.ABValue` | PractiseAssignment4/07_minimax_exercise.py:186-230 | the windowed `value` scores in [-1, 1] and has no `solution` exactly on finished boards |
| `AlphaBeta.ABLoop` | PractiseAssignment4/07_minimax_exercise.py:199-230 | the windowed loop scores in [-1, 1] and never ends worse than its running extremum |
| `AlphaBeta.ABClamp` | PractiseAssignment4/07_minimax_exercise.py:186-230 | inside any window -1 <= alpha < beta <= 1, the windowed score and the minimax score agree once both are cut to the window |
| `AlphaBeta.ABLoopClamp` | PractiseAssignment4/07_minimax_exercise.py:199-230 | the loop invariant behind that: while the running extremum lies on the far side of the window, the cut loop results agree |
| `AlphaBeta.RootScore` | PractiseAssignment4/07_minimax_exercise.py:232 | with the window (-1, 1) the windowed score equals the minimax score |
| `AlphaBeta.ABLoopPrefix` | PractiseAssignment4/07_minimax_exercise.py:201-229 | the loop reads only the successors before the point just past the first child after which beta <= alpha; cutting the list there or later changes nothing |
| `AlphaBeta.ABLoopKeeps` | PractiseAssignment4/07_minimax_exercise.py:222-229 | the loop only appends to `solution` |
| `AlphaBeta.RootLoopFirst` | PractiseAssignment4/07_minimax_exercise.py:220-232 | at the root the first board appended is the first successor whose minimax value beats -1, and none is appended exactly when there is no such successor |
| `AlphaBeta.AlphaBetaIsMinimax` | PractiseAssignment4/07_minimax_exercise.py:232-234 | the root `solution` is absent exactly on finished boards, empty exactly when every O move loses, and otherwise starts with the same board as minimax's |
| `AlphaBeta.AlphaBeta` | PractiseAssignment4/07_minimax_exercise.py:232-234 | the move `alpha_beta` makes, or the error it raises, is exactly that of `minimax` |
| `GameLogic.Random` | PractiseAssignment4/07_minimax_exercise.py:113-118 | `random_move` fails with ValueError exactly on a full board; otherwise it writes O into one cell that was empty |
| `GameLogic.MoveAI` | PractiseAssignment4/07_minimax_exercise.py:275-279 | each strategy returns an n x n board of the same size, or an error |
| `GameLogic.MoveAIMarksOneCell` | PractiseAssignment4/07_minimax_exercise.py:113-234 | on an ongoing board, a strategy that returns normally adds one O in a cell that was empty and changes nothing else |
| `GameLogic.Play` | PractiseAssignment4/07_minimax_exercise.py:251-266 | an occupied cell returns None and changes nothing; a winning human move returns `winner` without engine reply; otherwise `play` returns normally exactly when the engine does, the board afterwards is the engine's reply and the result is its `winner`, and the player to move is the same again; when the engine raises, the error is passed on and the game is left with the human's mark placed and the other player to move |
| `GameLogic.PlayMarks` | PractiseAssignment4/07_minimax_exercise.py:251-263 | an accepted move adds the human's mark and, unless that ended the game, exactly one O: the board loses one or two empty cells |
| `GameLogic.Start` | PractiseAssignment4/07_minimax_exercise.py:287-288 | the initial game is a `BOARD_SIZE` x `BOARD_SIZE` board with every cell empty and X to move, and resetting it changes nothing |
| `GameLogic.Reset` | PractiseAssignment4/07_minimax_exercise.py:268-270 | `reset` gives an all-empty board of the same size, with n*n empty cells, and X to move |
| `Labyrinth.LoadChar` | HomeAssignment1/robot_vacuum_assignment.py:40-61 | a character outside the table loads as a free cell |
| `Labyrinth.Label` | HomeAssignment1/robot_vacuum_assignment.py:173-192 | each field's drawing character is in the load table and loads back to that field; only the free cell is drawn as a blank |
| `Labyrinth.LabelLoadChar` | HomeAssignment1/robot_vacuum_assignment.py:40-61 | loading then drawing gives the character back exactly for the characters of the table |
| `Labyrinth.Strip` | HomeAssignment1/robot_vacuum_assignment.py:61 | `line.strip()` is the slice between the leading and the trailing whitespace, and neither end of the result is whitespace |
| `Labyrinth.StripIdempotent` | HomeAssignment1/robot_vacuum_assignment.py:61 | stripping twice is stripping once |
| `Labyrinth.StripLine` | HomeAssignment1/robot_vacuum_assignment.py:61 | a line with no whitespace at its ends, followed by a line break, strips back to itself |
| `Labyrinth.LoadRow` | HomeAssignment1/robot_vacuum_assignment.py:61 | each cell of a row is the table's field for the character at that column |
| `Labyrinth.Load` | HomeAssignment1/robot_vacuum_assignment.py:39-65 | a loaded board is rectangular with one row per line; an empty file raises IndexError, and a row of another length than row 0 raises AssertionError, exactly then |
| `Labyrinth.LoadRender` | HomeAssignment1/robot_vacuum_assignment.py:39-65 | loading a drawn board gives it back, provided no row starts or ends with a free cell |
| `Labyrinth.LoadRagged` | HomeAssignment1/robot_vacuum_assignment.py:62-63 | any line of another stripped length than the first makes loading fail with AssertionError |
| `Labyrinth.Delta` | HomeAssignment1/robot_vacuum_assignment.py:13-19 | each direction moves one cell along exactly one axis |
| `Labyrinth.Hop` | HomeAssignment1/robot_vacuum_assignment.py:133-138 | a hop lands on a valid position, twice the direction away from the start |
| `Labyrinth.HopOpen` | HomeAssignment1/robot_vacuum_assignment.py:133-138 | definition of a hop: a hop exists exactly when the cell passed through and the cell reached are both valid |
| `Labyrinth.NextStates` | HomeAssignment1/robot_vacuum_assignment.py:131-143 | at most four successors, each a valid position |
| `Labyrinth.NextStatesOrder` | HomeAssignment1/robot_vacuum_assignment.py:131-138 | the successors come in `Directions` order, north, east, south, west, each present exactly when its hop exists |
| `Labyrinth.NextStatesSpec` | HomeAssignment1/robot_vacuum_assignment.py:131-143 | a position is a successor exactly when some direction leads to it through a valid cell onto a valid cell |
| `Labyrinth.NextStatesDistinct` | HomeAssignment1/robot_vacuum_assignment.py:131-138 | no successor is listed twice |
| `Labyrinth.FindPosition` | HomeAssignment1/robot_vacuum_assignment.py:118-123 | the result holds the field and no cell before it in row-major order does; ValueError is raised exactly when no cell holds the field |
| `Labyrinth.NewProblem` | HomeAssignment1/robot_vacuum_assignment.py:113-123 | the start is the first `M` cell and the goal the first `D` cell of the board in row-major order; ValueError is raised exactly when either is missing |
| `Backtracking.Search` | HomeAssignment1/robot_vacuum_assignment.py:153-164 | the visited set only grows, and a failed call has marked its position visited |
| `Backtracking.Expand` | HomeAssignment1/robot_vacuum_assignment.py:157-164 | the loop over the successors only adds to the visited set |
| `Backtracking.SearchPrefix` | HomeAssignment1/robot_vacuum_assignment.py:150-161 | the trail is append-only: dead ends are never taken back |
| `Backtracking.SearchMarks` | HomeAssignment1/robot_vacuum_assignment.py:154-161 | the visited set is exactly the set of trail cells, except the goal, which ends the trail and is never visited |
| `Backtracking.SearchDistinct` | HomeAssignment1/robot_vacuum_assignment.py:156-161 | no position is put on the trail twice |
| `Backtracking.SearchLinked` | HomeAssignment1/robot_vacuum_assignment.py:157-161 | every cell the search puts on the trail is a cell of the board and a successor of a cell already on it |
| `Backtracking.SearchResult` | HomeAssignment1/robot_vacuum_assignment.py:154-164 | a returned list is a walk from the current position to the goal followed by the whole final trail |
| `Backtracking.SearchClosed` | HomeAssignment1/robot_vacuum_assignment.py:153-164 | a failed call has visited every successor of every position it marked, and never the goal |
| `Backtracking.StartTrail` | HomeAssignment1/robot_vacuum_assignment.py:149-166 | the final trail starts at the start cell, lists distinct board cells each a successor of an earlier one, and holds exactly the visited cells plus, on success, the goal as its last element |
| `Backtracking.SearchReachable` | HomeAssignment1/robot_vacuum_assignment.py:146-167 | the search from the start succeeds exactly when the goal can be reached from the start by successor steps |
| `Backtracking.SearchEnds` | HomeAssignment1/robot_vacuum_assignment.py:149-164 | a successful search leaves a trail from the start to the goal, and returns a walk to the goal followed by that trail |
| `Backtracking.Backtrack` | HomeAssignment1/robot_vacuum_assignment.py:146-170 | `backtrack` returns a result exactly when the goal can be reached from the start; a result ends at the goal, and step by step it starts at the start |
| `Backtracking.BacktrackShape` | HomeAssignment1/robot_vacuum_assignment.py:166-170 | step by step the result is the whole trail, a list of distinct cells from start to goal; otherwise it is a walk from the start to the goal followed by that same trail; either way it ends at the goal |
| `Backtracking.TrailBound` | HomeAssignment1/robot_vacuum_assignment.py:151-161 | no position is searched twice: the trail, and with it the recursion depth, is at most the number of cells |

## Left out

- The PySimpleGUI windows, event loops, pop-ups, `BoardGUI` and `LabyrinthGUI` (including `get_wall_size` and `update_nodes`), and the image paths: user interface only.
- Reading the board file in `LabyrinthBoard.load`: `Load` takes the file's lines as a sequence of strings, each with its line break.
- The random draw of `random_move` (`np.random.randint`) is the parameter `pick` of `GameLogic.RandomMove`: the cell taken is the `pick`-th empty cell modulo their number, in row-major order.
- numpy itself: boards are `seq<seq<int>>` values that are always square, and `np.argwhere` is taken to list cells in row-major order.
- `framework.board` (`Position`, `Board`) is not part of this model: `Position` is taken to be a (row, col) pair with componentwise addition.
- The `State` wrapper of a position is identified with the position itself.
- `LabyrinthSearchProblem.__init__` reads a module-level board; `NewProblem` takes it as a parameter.
- The `m` and `n` fields of `LabyrinthBoard` are the height of the board and the length of its first row.
- `start_state` and `is_goal_state` are `StartState` and `IsGoalState`, plain field reads with no contract of their own.
- `is_valid_position` is the predicate `IsValidPosition`, used in the contracts of `Hop`, `HopOpen` and `NextStates`.
- A generator over `path` or `result` from `backtrack` is the list itself.
- The `GameLogic` constructor (X to move) and the `current_player` field are the `Game` datatype; `GameLogic.Start` is the module-level game.
- Recursion depth is not modelled: `backtrack` on a board whose depth-first trail exceeds Python's recursion limit raises RecursionError, while `Search` has no such limit (`Backtracking.TrailBound` bounds the depth only by the number of cells).
- Integer width does not arise: boards and scores are unbounded mathematical values, as Python's integers are.
- Node counts and running time of alpha-beta pruning are not stated. Only which successors the loop reads is modelled (`AlphaBeta.ABLoopPrefix`).
