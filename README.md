# Sudoku2 core, modelled in Dafny

Sudoku2 is a small desktop Sudoku game. Its core does three things. It
generates a batch of `NUM_PUZZLES` = 9 puzzles: an empty 9x9 grid is filled by
a randomized backtracking solver, then 30 to 40 of its cells are emptied. It
answers the solver's queries: the first empty cell, and whether a digit is a
legal move. It also checks a submitted grid: every row, every column and every
3x3 box must hold exactly the digits 1..9.

The model has four modules:

- `Grid` (`grid.dfy`): the grid and the solver's queries.
  - The grid is an `array2<int>`; `Cells` gives its value view as a `Board`
    (`seq<seq<int>>`).
  - `FindEmptyCell` and `IsValidMove` are loop methods, proved against the
    ghost predicates `IsFirstEmpty` and `ValidMove`.
  - `ZeroCount` counts the empty cells.
- `Validator` (`validator.dfy`): the grid check.
  - `IsValidRow` compares value sets, as the source does.
  - `IsValidSolution` is the whole check; `CheckSolution` is its three
    early-exit loops.
- `Solver` (`solver.dfy`): `solve_puzzle` as the recursive in-place method
  `SolvePuzzle`. Its ghost result `moves` is the chain of placements of a
  successful run (`IsRun`). The solver is proved to succeed exactly when a
  run exists. On consistent inputs (defined below), it is also proved to
  succeed exactly when a valid completion exists.
- `Generator` (`generator.dfy`): `remove_cells` and `generate_puzzles`.

Randomness comes from three places. `RandInt` stands for `random.randint`
when `remove_cells` draws its count, and `Shuffle` stands for
`random.shuffle`. The cell picks of `remove_cells` are a `:|` choice inside
`RemoveCells`, made among the filled cells only (see the `Generator.RemoveCells`
line under "## Left out"). Each choice is otherwise arbitrary, so every
property holds for every outcome of the random draws.

A grid is *consistent* (`Consistent`) when every filled cell holds a digit
1..9 and no two cells that share a row, a column or a box hold the same digit.
A value outside 1..9, which the entry parsing admits (`int("10")`), makes a
grid inconsistent even when no two peers are equal.

`solve_puzzle` never checks the given cells. It returns true as soon as it
reaches a full grid, and so it also returns true on an inconsistent grid whose
empty cells can still be filled by legal moves. `SolvePuzzle` states what the
code does:
- It succeeds exactly when a run exists from the input (`Runnable`). A run is
  a chain of legal placements at the first empty cell that ends on a full
  grid.
- On success, the result passes the grid check when the input is consistent.
- For consistent inputs, success also coincides with the existence of a
  valid completed Sudoku that agrees with the filled cells.
- Three lemmas show inconsistent grids on which the solver succeeds although
  no valid Sudoku completes them: `Solver.FullBoardMayClash` (a full clashing
  grid), `Generator.ClashingGridStillRuns` (a clashing grid with one empty
  cell) and `Generator.OutOfRangeGivenStillRuns` (a full grid holding a 10).

## Model

| member | source | states |
|---|---|---|
| Grid.FindEmptyCell | Sudoku2/Sudoku.py:36-41 | Returns None exactly when the grid has no 0; otherwise returns the first 0 cell in row-major order |
| Grid.FirstEmptyUnique | Sudoku2/Sudoku.py:36-41 | The first empty cell in row-major order is unique, so the result of `find_empty_cell` is determined |
| Grid.BoxStart | Sudoku2/Sudoku.py:55-56 | `(x // 3) * 3` is 0, 3 or 6 and is the start of the 3-wide band holding x, so box indices stay in 0..8 |
| Grid.IsValidMove | Sudoku2/Sudoku.py:43-62 | True exactly when num occurs neither in the row, nor in the column, nor in the 3x3 box of (row, col) |
| Grid.ValidMoveIffNoPeer | Sudoku2/Sudoku.py:43-62 | At an empty cell, a nonzero digit is a legal move exactly when no other cell sharing its row, column or box holds it |
| Grid.SetCell | Sudoku2/Sudoku.py:27 | Writing a cell changes that cell of the grid and nothing else |
| Grid.PlaceUndo | Sudoku2/Sudoku.py:27-32 | Writing back a cell's old value restores the whole grid |
| Grid.PlaceKeepsConsistent | Sudoku2/Sudoku.py:26-27 | Placing a legal digit 1..9 on an empty cell keeps a consistent grid consistent |
| Grid.ZeroCountPlace | Sudoku2/Sudoku.py:27 | Filling an empty cell lowers the number of empty cells by one, so the recursion of `solve_puzzle` terminates |
| Grid.ZeroCountFull | Sudoku2/Sudoku.py:18-19 | The grid has no empty cell exactly when its count of empty cells is 0 |
| Grid.FilledCellExists | Sudoku2/Sudoku.py:72-73 | A grid with fewer than 81 empty cells has a filled cell for `remove_cells` to pick |
| Validator.IsValidRow | Sudoku2/Sudoku.py:105-107 | The set of a group's values equals {1..9}; characterised by `ValidRowIff` |
| Validator.Column | Sudoku2/Sudoku.py:90 | Column c as `zip(*puzzle)` yields it: nine values, the r-th being the cell (r, c) |
| Validator.Square | Sudoku2/Sudoku.py:98 | The box with top-left corner (bi, bj), bi and bj in {0, 3, 6}, read row by row: position k holds cell (bi + k / 3, bj + k % 3) |
| Validator.IsValidSolution | Sudoku2/Sudoku.py:84-101 | Every row, every column and every box at starts 0, 3, 6 passes `is_valid_row`; characterised by `SolutionIffFullConsistent` |
| Validator.ValidRowIff | Sudoku2/Sudoku.py:105-107 | A group of nine passes `is_valid_row` exactly when every value is a digit 1..9 and no value repeats |
| Validator.ElemsCard | Sudoku2/Sudoku.py:105-107 | A group has at most as many distinct values as positions, with equality exactly when no value repeats |
| Validator.CheckSolution | Sudoku2/Sudoku.py:84-101 | The row, column and box loops accept exactly when every row, every column and every box at starts 0, 3, 6 passes `is_valid_row` |
| Validator.SolutionIffFullConsistent | Sudoku2/Sudoku.py:84-107 | The grid check accepts exactly the full consistent grids: every cell holds a digit 1..9 and no two cells sharing a row, a column or a box hold the same digit |
| Validator.RejectsEmptyCell | Sudoku2/Sudoku.py:84-87 | Any grid with a 0 is rejected |
| Validator.RejectsRowDuplicate | Sudoku2/Sudoku.py:84-87 | Any grid with the same value twice in a row is rejected |
| Solver.Shuffle | Sudoku2/Sudoku.py:22-23 | The shuffled candidates are a permutation of the input list |
| Solver.DigitOrder | Sudoku2/Sudoku.py:22-23 | A permutation of 1..9 has length 9 and holds exactly the digits 1..9 |
| Solver.SolvePuzzle | Sudoku2/Sudoku.py:17-34 | Succeeds exactly when a run exists from the input. On success the grid is the end of such a run: full, every given cell kept, 1..9 in every cell that was empty, each write a legal move at the first empty cell at that moment. On failure the grid is exactly as on entry, and no run and no valid completed Sudoku exists for the input. On a consistent input, success coincides with a completion existing, and the result passes the grid check. A full input is returned unchanged with success |
| Solver.RunFills | Sudoku2/Sudoku.py:21-29 | A successful run keeps every nonzero input cell and writes only digits 1..9, ending on a full grid |
| Solver.RunLength | Sudoku2/Sudoku.py:21-29 | A successful run makes exactly one placement per empty input cell |
| Solver.RunSound | Sudoku2/Sudoku.py:21-29 | From a consistent input, a successful run ends on a grid that passes the grid check |
| Solver.RunOnFullBoard | Sudoku2/Sudoku.py:18-19 | On a full grid the only run is the empty one, which leaves the grid unchanged |
| Solver.RunStep | Sudoku2/Sudoku.py:25-30 | A legal placement at the first empty cell followed by a successful recursive run is a successful run of the caller |
| Solver.CompletionDigitIsLegal | Sudoku2/Sudoku.py:25-26 | The digit any valid completion puts in an empty cell is a legal move there, so the search never skips the digit a completion needs |
| Solver.DigitRuledOut | Sudoku2/Sudoku.py:25-32 | A candidate that is illegal, or after which the grid has no completion, can be dropped without losing any completion |
| Solver.AllDigitsCover | Sudoku2/Sudoku.py:22-25 | The nine shuffled digits cover the value that any completion puts in the cell |
| Solver.NoneCovered | Sudoku2/Sudoku.py:34 | Once every candidate has been ruled out, the grid has no completion |
| Solver.RunStartsAt | Sudoku2/Sudoku.py:20-30 | Every run from a grid starts with a legal move at its first empty cell and continues with a run from the grid after that move |
| Solver.AllDigitsCoverRuns | Sudoku2/Sudoku.py:22-25 | The nine shuffled digits include the first digit of every run |
| Solver.DigitRuledOutOfRuns | Sudoku2/Sudoku.py:25-32 | A candidate that is illegal, or after which the recursive search finds no run, starts no run, so dropping it loses none |
| Solver.NoRunLeft | Sudoku2/Sudoku.py:34 | Once every candidate has been dropped, no run exists from the grid, which is when `solve_puzzle` returns false |
| Solver.SolvableIsConsistent | Sudoku2/Sudoku.py:17-34 | A grid that can be completed is consistent |
| Solver.FullBoardMayClash | Sudoku2/Sudoku.py:18-19 | The all-1s grid is full, fails the grid check and has no completion, yet the empty run starts from it, so the solver reports success on it |
| Generator.RandInt | Sudoku2/Sudoku.py:66 | The drawn value lies in the closed range [lo, hi] |
| Generator.RemoveCells | Sudoku2/Sudoku.py:64-75 | Each cell keeps its value or goes from nonzero to 0. The number of empty cells grows by K, for some K in [30, 40], so exactly K filled cells were emptied. Requires at least 40 filled cells |
| Generator.PatternIsSolution | Sudoku2/Sudoku.py:9-10 | A fixed pattern grid passes the grid check, so an empty grid has a completion |
| Generator.ClashingGridStillRuns | Sudoku2/Sudoku.py:17-34 | A grid with a clash among its givens and one empty cell has no completion, yet has a one-move run whose end fails the grid check, so the solver succeeds on it |
| Generator.OutOfRangeGivenStillRuns | Sudoku2/Sudoku.py:17-19 | A full grid holding a 10, with no two peers equal, is inconsistent, fails the grid check and has no completion, yet the empty run starts from it, so the solver succeeds and keeps the 10 |
| Generator.EmptyBoardSolvable | Sudoku2/Sudoku.py:9-10 | The empty grid is consistent and has a completion, so solving it always succeeds |
| Generator.GeneratePuzzle | Sudoku2/Sudoku.py:9-12 | Each new puzzle is its solved grid (which passes the grid check) with 30 to 40 cells emptied and every other cell unchanged |
| Generator.GeneratePuzzles | Sudoku2/Sudoku.py:4-14 | Returns exactly NUM_PUZZLES = 9 distinct new arrays (distinct objects; their contents may coincide), each with the `GeneratePuzzle` properties for its own solved grid |

## Left out

- The Tk window, the entry widgets and their parsing into a grid, `result_label`, `show_answer` and the global `entries` and `current_puzzle`: these are presentation. `CheckSolution` takes the parsed grid as a value and returns the verdict the label would show.
- The probability distributions of `random.randint` and `random.shuffle` are not modelled: each draw is an arbitrary value in its range.
- Generator.RemoveCells: the source draws cells uniformly and retries when it hits an empty one, so it has no iteration bound. The model draws only among filled cells, which is the sequence of accepted picks; the rejected picks, which change nothing, are not modelled.
- Solver.SolvePuzzle: the source calls `find_empty_cell` twice when the grid is not full. The model calls it once, because both calls see the same grid.
- Generator.RemoveCells: requires at least 40 filled cells. On a grid with fewer than K filled cells the source's loop never ends; this holds at the only call, on a solved grid.
- Solver.SolvePuzzle: the running time is not bounded; only termination is proved (by the count of empty cells).
- Puzzle difficulty and uniqueness of a puzzle's solution are not claimed by the source and are not modelled.
- `is_valid_row` applies to any sequence of Python values. The model restricts groups to integers, which is what the parsed grid holds.
