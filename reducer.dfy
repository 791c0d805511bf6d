/**
 * Puzzle generation: fill an empty board (fillBoard), then clear cells one
 * at a time (removeNumbers), keeping a clearing only while the puzzle keeps
 * exactly one solution.
 */
module Reducer {
  import opened BoardModel
  import opened BoardArray
  import opened Randomness
  import opened SolutionCounter
  import opened Generator

  /**
   * removeNumbers: draws a target in 40..49, then picks random cells; a
   * filled pick is cleared and the clearing kept only if the counter finds
   * exactly one solution on a copy, otherwise the value is put back. Only
   * filled picks count as attempts. The ghost results are the drawn target,
   * the cells still to clear and the attempts made when the loop stops.
   */
  method RemoveNumbers(board: array2<int>, rng: Random)
    returns (ghost target: int, ghost remaining: int, ghost trials: int)
    requires IsBoard(board)
    modifies board, rng
    ensures MIN_REMOVED_CELLS <= target <= MAX_REMOVED_CELLS
    ensures 0 <= remaining <= target && target - remaining <= trials <= MAX_ATTEMPTS
    ensures remaining == 0 || trials == MAX_ATTEMPTS || rng.draws == []
    ensures Cleared(old(Snapshot(board)), Snapshot(board))
    ensures EmptyCount(Snapshot(board)) == EmptyCount(old(Snapshot(board))) + (target - remaining)
    ensures Count(old(Snapshot(board)), 0) == 1 ==> Count(Snapshot(board), 0) == 1
    ensures remaining < target ==> Count(Snapshot(board), 0) == 1
  {
    ghost var g0 := Snapshot(board);
    var cellsToRemove := rng.Below(MAX_REMOVED_CELLS - MIN_REMOVED_CELLS + 1);
    cellsToRemove := MIN_REMOVED_CELLS + cellsToRemove;
    target := cellsToRemove;
    var attempts := 0;
    while cellsToRemove > 0 && attempts < MAX_ATTEMPTS && rng.draws != []
      invariant 0 <= cellsToRemove <= target && target - cellsToRemove <= attempts <= MAX_ATTEMPTS
      invariant Cleared(g0, Snapshot(board))
      invariant EmptyCount(Snapshot(board)) == EmptyCount(g0) + (target - cellsToRemove)
      invariant Count(g0, 0) == 1 ==> Count(Snapshot(board), 0) == 1
      invariant cellsToRemove < target ==> Count(Snapshot(board), 0) == 1
      decreases |rng.draws|
    {
      var row := rng.Below(SIZE);
      var col := rng.Below(SIZE);
      if board[row, col] != 0 {
        ghost var g := Snapshot(board);
        ClearStep(g0, g, Index(row, col));
        var kept := TryClear(board, row, col);
        if kept {
          cellsToRemove := cellsToRemove - 1;
        }
        attempts := attempts + 1;
      }
    }
    remaining, trials := cellsToRemove, attempts;
  }

  /**
   * The body of removeNumbers' filled-cell branch: clear the cell, count
   * the solutions of a copy, and put the value back unless the count is 1.
   */
  method TryClear(board: array2<int>, row: int, col: int) returns (kept: bool)
    requires IsBoard(board) && 0 <= row < SIZE && 0 <= col < SIZE
    modifies board
    ensures kept <==> Count(old(Snapshot(board))[Index(row, col) := 0], 0) == 1
    ensures kept ==> Snapshot(board) == old(Snapshot(board))[Index(row, col) := 0]
    ensures !kept ==> Snapshot(board) == old(Snapshot(board))
  {
    ghost var g := Snapshot(board);
    ghost var p := Index(row, col);
    var temp := board[row, col];
    SetCell(board, row, col, 0);
    var copy := CopyBoard(board);
    var n := CountSolutions(copy, 0);
    kept := n == 1;
    if !kept {
      SetCell(board, row, col, temp);
      assert g[p := 0][p := temp] == g;
    }
  }

  /** Clearing one more filled cell keeps the board a clearing of the original. */
  lemma ClearStep(g0: Grid, g: Grid, p: int)
    requires IsGrid(g0) && IsGrid(g) && 0 <= p < CELLS && g[p] != 0 && Cleared(g0, g)
    ensures Cleared(g0, g[p := 0])
    ensures EmptyCount(g[p := 0]) == EmptyCount(g) + 1
  {
    assert g[p := 0][p := g[p]] == g;
    PlaceDecreasesEmpty(g[p := 0], p, g[p]);
  }

  /** A board with no empty cell has exactly one completion: itself. */
  lemma FullGridCountsOne(g: Grid)
    requires IsGrid(g) && forall i :: 0 <= i < CELLS ==> g[i] != 0
    ensures Count(g, 0) == 1
  {
    assert FirstEmpty(g) == CELLS;
  }

  /**
   * generateSudoku: the filled board is a solved Sudoku (fillBoard cannot
   * fail on the empty board), the puzzle left on the board is that solution
   * with at most 49 cells cleared, and that solution is the
   * puzzle's only completion.
   */
  method GenerateSudoku(rng: Random) returns (board: array2<int>, ghost solution: Grid)
    modifies rng
    ensures fresh(board) && IsBoard(board)
    ensures IsGrid(solution) && Solved(solution)
    ensures IsCompletion(Snapshot(board), solution)
    ensures forall s :: IsCompletion(Snapshot(board), s) ==> s == solution
    ensures EmptyCount(Snapshot(board)) <= MAX_REMOVED_CELLS
  {
    board := CreateEmptyBoard();
    EmptyGridSolvable();
    var filled := FillBoard(board, rng);
    solution := Snapshot(board);
    CompletionOfConsistent(EmptyGrid(), solution);
    FullGridCountsOne(solution);
    NoEmptyCell(solution);
    var target, remaining, trials := RemoveNumbers(board, rng);
    ghost var puzzle := Snapshot(board);
    SolvedIsCompletionOfCleared(solution, puzzle);
    CountSolutionsMeaning(puzzle);
  }
}
