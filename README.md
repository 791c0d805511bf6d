# Sudoku engine: a verified model

This project models the puzzle engine of a browser Sudoku game (`script.js`).
The board is a 9x9 grid of integers in which 0 means empty. The engine has
these parts:

- the placement rule `isValidPlacement`: a value may stand at (row, col)
  when no other cell of its row, column or 3x3 box holds it;
- the board scan of `isCurrentBoardValid`;
- the backtracking solver `solveSudoku`;
- the randomized generator `fillBoard`, which takes its candidate order from
  the Fisher-Yates `shuffleArray`;
- the bounded solution counter `countSolutions`;
- the reducer `removeNumbers`, which clears cells while the puzzle keeps
  exactly one solution;
- `createEmptyBoard`, `generateSudoku` and the flat-index arithmetic
  (`row * 9 + col`, `Math.floor(i / 9)`, `i % 9`).

Layout:

- `board.dfy` (module `BoardModel`) holds the constants and the flat
  `Grid` (81 cells, row-major). It defines the reference placement rule
  `Allowed`, completions (`IsCompletion`: keep every filled cell, give every
  empty cell a digit 1..9 the rule allows) and the lemmas they share.
- `board_array.dfy` (module `BoardArray`) holds the mutable `array2<int>`
  board and its ghost flat `Snapshot`. It also has the in-place placement
  check, which keeps the source's two loops.
- `solver.dfy`, `counter.dfy` and `generator.dfy` each pair a pure
  specification function with the in-place recursive method. The functions
  are `Solve`, `Count` and, for the generator, "succeeds iff a completion
  exists". Each method is proved to agree with its function. Lemmas then say
  what each function means in terms of completions.
- `reducer.dfy` models `removeNumbers` and `generateSudoku`.
- `validator.dfy` models the board scan.
- `random.dfy` models `Math.random()` as an explicit, finite sequence of
  draws.

Each candidate loop (`for num ...` in the three searches, the body of the
reducer's loop, the two loops of `isValidPlacement`) is its own method that
the enclosing method calls. Control flow, order and early returns are the
source's.

## Model

| member | source | states |
|---|---|---|
| BoardModel.Row | script.js:308 | `Math.floor(i / 9)` of a cell index 0..80 is a row 0..8 with `row * 9 <= i < row * 9 + 9` |
| BoardModel.Col | script.js:309 | `i % 9` is a column 0..8 and `Row(i) * 9 + Col(i) == i` |
| BoardModel.Index | script.js:196 | `row * 9 + col` is a cell index 0..80 whose row and column are `row` and `col` again |
| BoardModel.FirstEmptyFrom | script.js:132-134 | the scan from index k: the first index at or after k holding 0, every cell in between filled, or 81 when none does |
| BoardModel.FirstEmpty | script.js:132-134 | the row-major scan's stop: the first index holding 0 (every earlier cell is filled), or 81 when none does |
| BoardModel.Allowed | script.js:225-247 | the reference placement rule: no cell other than p in p's row, column or box holds `num`; the value at p is ignored (its loops are proved equal to it by PlacementRuleEquivalence) |
| BoardModel.PlacementRuleEquivalence | script.js:225-247 | the row/column loop and the box loop together (the box loop skips cells on the row or the column) accept exactly when no other cell of row, column or box holds `num` |
| BoardModel.PlaceDecreasesEmpty | script.js:139 | writing a digit into an empty cell lowers the number of empty cells by one, so each recursion terminates |
| BoardModel.PlaceExtends | script.js:138-140 | a completion of the board after an allowed placement is a completion of the board before it |
| BoardModel.CompletionChoosesValue | script.js:137-143 | every completion fills an empty cell with a digit the placement check accepts there, and completes the board with that digit placed |
| BoardModel.FullGridCompletion | script.js:148 | a board without empty cells is its own and only completion |
| BoardModel.CompletionOfConsistent | script.js:207-223 | completing a consistent board of digits gives a solved Sudoku |
| BoardModel.SolvedIsCompletionOfCleared | script.js:151-173 | a solved grid is a completion of every puzzle carved out of it by clearing cells |
| BoardArray.CreateEmptyBoard | script.js:127-129 | a fresh 9x9 board whose every cell is 0 |
| BoardArray.CopyBoard | script.js:163 | a fresh board with the same cells |
| BoardArray.SetCell | script.js:139 | `board[row][col] = v` changes exactly flat cell `row * 9 + col` of the snapshot |
| BoardArray.Snapshot | script.js:305-311 | the flat view: cell `i` is `board[Math.floor(i / 9)][i % 9]`, so `(r, c)` lands at `r * 9 + c` |
| BoardArray.FindEmptyCell | script.js:208-210 | the nested row/col loops stop at the first empty cell in row-major order, or report that there is none |
| BoardArray.IsValidPlacement | script.js:225-247 | returns true exactly when no cell other than (row, col) in its row, column or box holds `num`; the cell's own value is ignored |
| BoardArray.ScanLines | script.js:227-232 | the first loop: true exactly when no other cell of the row or of the column holds `num` |
| BoardArray.ScanBox | script.js:234-244 | the box loop: true exactly when no box cell off both the row and the column holds `num` |
| Validator.IsCurrentBoardValid | script.js:252-261 | true exactly when every filled cell passes the placement check with its own value; on false it names the first such cell in row-major order that fails |
| Solver.Solve | script.js:207-223 | the pure search: a full board is returned as it is, otherwise the search at its first empty cell from candidate 1; what it returns is a board (its meaning is proved by SolveSound, SolveComplete and SolveCorrect) |
| Solver.SolveAt | script.js:211-218 | the candidate loop at empty cell p from `num`: the first allowed candidate whose recursive search succeeds, or none after 9 |
| Solver.SolveSound | script.js:207-223 | whatever the ascending-order search returns is a completion of the board |
| Solver.SolveComplete | script.js:207-223 | the search succeeds on every board that has a completion |
| Solver.SolveCorrect | script.js:207-223 | success iff a completion exists; the result keeps every filled cell and fills every empty one with an allowed digit 1..9; a board with no zero is returned unchanged |
| Solver.SolveConsistent | script.js:207-223 | on a consistent board the solution found is a solved Sudoku |
| Solver.SolveSudoku | script.js:207-223 | on true the board holds the search's solution; on false it is exactly as on entry (every write undone) |
| Solver.SolveCell | script.js:211-218 | the candidate loop 1..9 at an empty cell ends as the search at that cell does: on true the board holds its solution, on false nothing was changed |
| Solver.SolveCandidate | script.js:212-216 | one candidate: place, recurse, undo on failure; the outcome is the search's step at that candidate |
| SolutionCounter.Count | script.js:175-191 | the counter's result never drops below the incoming `count`, and starting below 2 it is at most 2 |
| SolutionCounter.CountAt | script.js:179-185 | the candidate loop at empty cell p under guard `num <= 9 && count < 2`: the count never drops below `count`, and starting below 2 it stays at most 2 |
| SolutionCounter.CountCapsLeaves | script.js:175-191 | with the accumulator below 2 the counter is `min(2, count + leaves)`, leaves being the full boards the uncapped search reaches |
| SolutionCounter.LeavesMatchSolve | script.js:175-191 | the uncapped search reaches a full board exactly when the solver succeeds |
| SolutionCounter.TwoCompletionsTwoLeaves | script.js:175-191 | two different completions give two leaves |
| SolutionCounter.OneCompletionOneLeaf | script.js:175-191 | one completion gives at least one leaf |
| SolutionCounter.TwoLeavesTwoCompletions | script.js:175-191 | two leaves give two different completions |
| SolutionCounter.CountSolutionsMeaning | script.js:175-191 | `countSolutions(b, 0)` is 0 iff no completion, 1 iff exactly one, 2 iff two or more |
| SolutionCounter.CountSolutions | script.js:175-191 | the in-place counter returns `Count` of the entry board and leaves the board identical (each placement undone) |
| SolutionCounter.CountCell | script.js:179-186 | the loop under guard `num <= 9 && count < 2` at the first empty cell yields `Count` of the board, with the board identical afterwards |
| SolutionCounter.CountCandidate | script.js:180-184 | one candidate: place, recurse, undo; the board is identical afterwards |
| Generator.ShuffleArray | script.js:348-354 | the array afterwards is a permutation of the array before, and one draw was used per swap |
| Generator.ShuffledCandidates | script.js:135 | the shuffled candidates are nine digits 1..9, each occurring, and the shuffle used eight draws |
| Generator.NoCandidateLeft | script.js:137-144 | when every shuffled digit is ruled out at an empty cell, the board has no completion |
| Generator.FillBoard | script.js:131-149 | true iff the entry board has a completion, whatever the shuffles; on true the board is one; on false it is exactly as on entry |
| Generator.FillCell | script.js:135-144 | the loop over the shuffled digits succeeds iff the board has a completion |
| Generator.FillCandidate | script.js:138-142 | one candidate: on failure the board is restored and no completion puts that digit there |
| Generator.EmptyGridSolvable | script.js:121 | the empty board has a completion, so `fillBoard` on it returns true |
| Randomness.Random.Below | script.js:156-157 | `Math.floor(Math.random() * n)`: a value in `[0, n)`, consuming one draw |
| Reducer.TryClear | script.js:159-168 | the clearing of a filled cell is kept exactly when the counter finds one solution on the cleared copy; otherwise the board is restored |
| Reducer.ClearStep | script.js:161 | clearing a filled cell keeps the board a clearing of the original and adds one empty cell |
| Reducer.FullGridCountsOne | script.js:190 | the counter returns 1 on a board without empty cells |
| Reducer.RemoveNumbers | script.js:151-173 | draws a target in 40..49; only clears filled cells or restores them; clears target minus remaining cells in at most 200 trials; stops at target, budget or exhausted draws; unique solvability is kept, and once any clearing was kept the board has exactly one solution whatever it entered with |
| Reducer.GenerateSudoku | script.js:117-124 | the filled board is a solved Sudoku; the puzzle left has it as its only completion and at most 49 empty cells |

## Left out

- The DOM, event wiring, modal dialogs, cell highlighting, the timer and the audio button: these are user interface and wall-clock or media I/O. `fillCells`, `getCurrentBoardState` and `updateCellsFromBoard` keep only their index arithmetic.
- `parseInt` and the `/^[1-9]$/` input filter: the scan takes the board as a parameter of integers.
- Validator.IsCurrentBoardValid: instead of calling `highlightInvalidCell`, it returns the coordinate it would highlight.
- Statistical properties of `Math.random()` (uniform shuffles or picks): randomness is an arbitrary finite sequence of draws, and each draw `d` stands for `Math.floor(Math.random() * n)` as `d % n`.
- Randomness.Random.Below: once the draws run out it returns 0. The source's random source never runs out.
- Reducer.RemoveNumbers: the loop also stops when the draws run out. Picks that land on an empty cell consume no attempt, so for an arbitrary random source the source's loop need not end. The target, remaining count and trial count are ghost results.
- Reducer.GenerateSudoku: `clearAllCells` and `fillCells` are not modelled, because they write to the page.

Attempt counting follows the code: `attempts` increases only when the pick lands on a filled cell (script.js:159-171). A pick on an empty cell costs nothing; only picks on filled cells count toward `MAX_ATTEMPTS`.
