# Sudoku backtracking generator — a Dafny model

This project models the engine of a small Sudoku generator and visualiser, the
`SudokuGenerator` class of `sudoku.py`. It also models the one validation step
of its window class that guards the engine. The board is an N x N grid of
integers with N = B * B for a block size B, and 0 marks an empty cell. The
engine does four things:

- **Legality check** (`_e_valido`): may `num` go at (row, col)? It scans the
  row, the column and the B x B block whose origin is
  (row - row % B, col - col % B).
- **Silent fill** (`_preencher_grid`): a randomized backtracking search. It
  takes the first empty cell in row-major order and tries a shuffled list of
  1..N there. It places each legal candidate and recurses, and undoes the
  placement when the recursion fails.
- **Puzzle derivation** (`gerar_sudoku`): empties the board and fills it. It
  then walks a shuffled list of all N * N coordinates, emptying filled cells
  until N * N - (number of clues) have been removed.
- **Traced solver** (`_preencher_grid_visual`): the same search with the fixed
  candidate order 1..N. It is written as a generator that yields
  `(i, j, num, 'tentativa')` after every placement and `(i, j, 0, 'backtrack')`
  after every undo.

Files and modules:

- `board.dfy`, module `Board`: grids and regions, declarative legality and
  consistency, solutions and completability, and cell counting.
- `trace.dfy`, module `Trace`: the event stream of the traced solver.
  `Replay(start, events[..k])` is the board a consumer sees after pulling k
  events, so cancelling the generator means not pulling further events.
  `Search` defines the traced solver's outcome and events as a recursive
  function. The lemmas about it prove what the solver guarantees.
- `generator.dfy`, module `Generator`: the class `SudokuGenerator`. Its `grid`
  field is reassigned by its methods, as the source mutates `self.grid`.
- `sudoku_gui.dfy`, module `SudokuGui`: the configuration range check, and the
  generation it guards.

The random orders are inputs:

- `shuffles(k)` is the k-th shuffled candidate list. It is required to be an
  ordering of 1..N.
- `cells` is the shuffled coordinate list. It is required to list every cell
  exactly once.

The search is proved complete as well as sound. When either search reports
failure, no solution agrees with the board it started from (`!Completable`).

## Model

| member | source | states |
|---|---|---|
| Generator.SudokuGenerator.constructor | sudoku.py:11-15 | a new generator has N = B * B, keeps the clue count, and starts on the all-empty N x N board; the defaults are B = 3 and 20 clues |
| Generator.SudokuGenerator.IsValidPlacement | sudoku.py:17-32 | the row, column and block scans answer true exactly when no cell sharing a row, column or block with (row, col) holds `num`; the board is not changed |
| Board.LegalIffNoScanHit | sudoku.py:19-31 | `num` is legal exactly when it is in neither the row, nor the column, nor the B x B block scanned from (r - r % B, c - c % B) |
| Board.ScanHitIllegal | sudoku.py:19-31 | a hit by any of the three scans makes the value illegal |
| Board.NoScanHitLegal | sudoku.py:19-32 | a value none of the three scans finds is legal |
| Board.InScannedBlock | sudoku.py:26-31 | the cells scanned from the block origin are exactly the cells of the same B x B block |
| Board.BlockOrigin | sudoku.py:26-27 | a row lies in the block-row of r exactly when it lies in [r - r % B, r - r % B + B) |
| Board.BlockWithinGrid | sudoku.py:26-31 | for 0 <= r < N, every index start + i of the block scan lies in [0, N) |
| Generator.SudokuGenerator.FirstEmptyCell | sudoku.py:36-38 | the cell the search works on is empty and every cell before it in row-major order is filled; when none is found the board is full |
| Generator.SudokuGenerator.FillGrid | sudoku.py:34-48 | on success the board is full and keeps every value it had on entry; it keeps all values in [0, N], and so the new ones in 1..N, and it has no duplicate if the entry board had none; on failure it is exactly the entry board and no solution extends that board |
| Board.PlaceKeepsConsistent | sudoku.py:42-43 | writing a legal nonzero value into an empty cell keeps every row, column and block free of duplicates |
| Board.PlacementExtends | sudoku.py:43-45 | a board completed after a placement into an empty cell keeps every value of the board before the placement |
| Board.UndoRestores | sudoku.py:43-46 | emptying the cell again restores the board exactly |
| Board.IllegalNotCompletable | sudoku.py:42 | a candidate rejected by the legality check cannot lead to any solution |
| Board.NoCandidateNotCompletable | sudoku.py:41-47 | if no value 1..N at the first empty cell can be completed, the board cannot be completed |
| Board.NoCandidateInNotCompletable | sudoku.py:39-47 | the same for candidates tried in a shuffled list that contains every value 1..N |
| Board.RefuteCandidateIn | sudoku.py:41-46 | refuting the next candidate of the shuffled list extends the refuted prefix by one |
| Generator.SudokuGenerator.GenerateSudoku | sudoku.py:50-75 | on failure it returns None on the empty board, which no solution extends; on success the puzzle is the board, a solution extends it, and it has exactly numKnown clues clamped to [0, N * N] (none removed when numKnown >= N * N); the emptied cells are exactly the first N * N - numKnown (clamped) entries of the shuffled coordinate list |
| Generator.ClearListedCell | sudoku.py:63-69 | emptying the next listed cell extends the emptied prefix of the coordinate list by one and leaves every later listed cell holding its solution value |
| Board.CountCellsUpdate | sudoku.py:67-69 | emptying a filled cell lowers the clue count by exactly one, and writing into one cell changes the count only by that cell |
| Board.CompleteCount | sudoku.py:58-59 | a full N x N board has N * N filled cells |
| Board.ClearKeepsExtends | sudoku.py:67-68 | emptying a cell keeps the puzzle a sub-board of its solution and leaves every other cell unchanged |
| Generator.SudokuGenerator.SolveVisual | sudoku.py:77-96 | the outcome and the yielded events, in order, are exactly those of `Search` on the start board (first empty cell in row-major order, candidates 1..N ascending), and every attempt is at the first empty cell of the board the consumer sees just before it; the events form a valid trace that touches only empty cells and replays to the final board; success leaves a full board, and a full start gives success with no events (and conversely); failure restores the start, which no solution extends, with every attempt matched by a backtrack; on success each empty cell has one attempt more than backtracks |
| Generator.SudokuGenerator.TryCandidates | sudoku.py:82-95 | the candidate loop at the first empty cell yields exactly the outcome and events of `TryFrom` from candidate 1, and the events replay to the final board |
| Trace.Search | sudoku.py:77-96 | the reference search reports success with no events exactly when the board is already full |
| Trace.TryFrom | sudoku.py:82-95 | the candidate loop from value v on never reports success without yielding an event |
| Trace.SearchAtFirstEmpty | sudoku.py:79-83 | the search works on the first empty cell in row-major order and starts there with candidate 1 |
| Trace.TryFromIllegal | sudoku.py:84 | a value the legality check rejects yields no event and the loop moves on to the next value |
| Trace.TryFromFailed | sudoku.py:84-94 | a legal value whose sub-search fails yields the attempt, the sub-search's events and the backtrack, then the rest of the loop |
| Trace.TryFromSolved | sudoku.py:84-90 | a legal value whose sub-search succeeds ends the search: the attempt followed by the sub-search's events |
| Trace.TryFromExhausted | sudoku.py:83-95 | after value N the loop fails with no further events |
| Trace.SearchFacts | sudoku.py:77-96 | the search's events form a valid trace touching only empty cells; on success they lead to a full board with one open attempt per empty cell; on failure they restore the board and every attempt is backtracked |
| Trace.TryFromFacts | sudoku.py:82-95 | the same guarantees for the candidate loop from any value on |
| Trace.SearchRefutes | sudoku.py:77-96 | when the search fails, no solution agrees with the board |
| Trace.TryFromRefutes | sudoku.py:82-95 | when the loop from value v fails, none of the values v..N at that cell leads to a solution |
| Trace.CandidateSolvedFacts | sudoku.py:84-90 | an attempt followed by a successful sub-search keeps the guarantees |
| Trace.CandidateFailedFacts | sudoku.py:84-94 | an attempt, a failed sub-search and a backtrack, followed by the rest of the loop, keep the guarantees |
| Trace.SearchAttempts | sudoku.py:77-96 | every attempt of the search is at the first empty cell, in row-major order, of the board the consumer sees just before it |
| Trace.TryFromAttempts | sudoku.py:79-95 | the same for the candidate loop at the first empty cell, through the nested searches and after each backtrack |
| Trace.AttemptsAppend | sudoku.py:89 | attempts at the first empty cell carry over a concatenated trace |
| Trace.TryFromFirstAttempt | sudoku.py:82-87 | the loop's first attempt from value v is at the smallest legal value from v on, and there is one whenever some value from v on is legal; together with `TryFromFailed`, a cell's attempts are its legal values in ascending order |
| Trace.ReplayCandidate | sudoku.py:85-94 | after the events of an attempt and a sub-search the consumer sees the sub-search's board; after the backtrack too, the board it saw before the attempt |
| Board.FirstEmptyExists | sudoku.py:79-81 | a board with an empty cell has a first one in row-major order |
| Trace.ReplayAppend | sudoku.py:89 | replaying a trace and then the events of a nested search equals replaying both together |
| Trace.ValidTraceAppend | sudoku.py:89 | a concatenated trace is valid exactly when its first part is valid and its second part is valid from the board the first leaves |
| Trace.CountAppend | sudoku.py:89 | event counts add up over concatenation |
| Trace.ValidTracePrefix | sudoku.py:87-94 | every prefix of a valid trace, such as a cancelled run, is valid |
| Trace.EventAsSeen | sudoku.py:85-94 | each event was allowed on the board before it (an attempt puts a legal value 1..N in an empty cell, a backtrack empties a filled one), and afterwards the board shows the event's value in its cell |
| Trace.TraceKeepsConsistent | sudoku.py:83-94 | replaying a valid trace from a board without duplicates never creates one |
| Trace.ConsistentAtEveryEvent | sudoku.py:87-94 | at every point where a consumer stops pulling events, the board has no duplicate |
| Trace.TraceKeepsDomain | sudoku.py:82-94 | replaying a valid trace keeps every value in [0, N] |
| Trace.UntouchedGivensKept | sudoku.py:81 | a trace that touches only empty cells keeps every given of the start |
| Trace.SolvedTraceIsSolution | sudoku.py:79-96 | a valid trace from a duplicate-free start that ends on a full board ends on a solution of the start |
| Trace.ReplayKeepsShape | sudoku.py:85-92 | events never change the shape of the board |
| Trace.FailedCandidate | sudoku.py:84-94 | attempt, a failed sub-search, then backtrack: the trace stays valid and the board is exactly as before |
| Trace.FailedCandidateCounts | sudoku.py:84-94 | the same step touches only empty cells and keeps attempts and backtracks matched |
| Trace.SuccessfulCandidate | sudoku.py:84-90 | attempt, then a successful sub-search: the trace stays valid and ends where the sub-search ends |
| Trace.SuccessfulCandidateCounts | sudoku.py:84-90 | after the same step, every cell empty at the start has one attempt more than backtracks, and every given has as many |
| SudokuGui.ValidateConfig | sudoku.py:186-194 | a configuration is accepted exactly when 2 <= B <= 4 and 1 <= clues <= N * N; the block size is checked first, and the clue error reports N * N |
| SudokuGui.NewPuzzle | sudoku.py:183-200 | a rejected configuration builds no generator; an accepted one yields a puzzle with exactly the requested number of clues that can be completed, or a generation failure on a board no solution extends |

## Left out

- The window class's presentation code is not modelled: widgets, layout, colours, the dialog boxes, the pacing timer and the wall-clock time. The same goes for the completion check over entry text and the solve button's flow (sudoku.py:271-304), which copies the stored puzzle into a fresh generator built from the block-size entry without re-validating it. These are user-interface code over an external toolkit.
- `random.shuffle` (sudoku.py:40, 60) is not modelled. The shuffled orders are inputs, constrained only to be orderings of 1..N and of all coordinates, which are the only guarantees the shuffle gives.
- The error dialog on the failure path (sudoku.py:73-75) is not modelled: a failed generation returns `None` with no other effect.
- The model does not prove that filling an empty board always succeeds. That is an existence result about Sudoku grids. `GenerateSudoku` may return `None`, and it then proves that no solution exists.
- Uniqueness of the puzzle's solution is not modelled: the source never checks it.
- The Python generator object is not modelled, and so neither is `close()` (sudoku.py:177-180, 273-275). `SolveVisual` returns the whole list of yielded events. Its candidate loop is the separate method `TryCandidates`; the two call each other as the loop and the nested `yield from` do. Stopping after k events leaves the board `Replay(start, events[..k])`. That board is the live board at that yield by construction of the events; no separate postcondition states it.
- Generator.SudokuGenerator.constructor: requires a block size of at least 1. Python also accepts 0 and negative sizes. The window builds generators only with a validated size of 2..4, or, on the solve path, with the raw block-size entry.
- Generator.SudokuGenerator.FillGrid: requires every shuffled list to be an ordering of 1..N, which `random.shuffle` of `range(1, N + 1)` guarantees.
- Generator.SudokuGenerator.GenerateSudoku: requires `cells` to list every coordinate exactly once, which the shuffled comprehension guarantees.
- The exception raised on a failed fill (sudoku.py:56) and caught at sudoku.py:73 is modelled directly as the `None` result.
