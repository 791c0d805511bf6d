/**
 * The solver (solveSudoku): backtracking over the first empty cell in
 * row-major order, trying 1..9 in ascending order, writing into the board in
 * place and undoing each failed placement.
 */
module Solver {
  import opened Wrappers
  import opened BoardModel
  import opened BoardArray

  /** The first solution the fixed-order search reaches, if any. */
  function Solve(g: Grid): (r: Option<Grid>)
    requires IsGrid(g)
    ensures r.Some? ==> IsGrid(r.value)
    decreases EmptyCount(g), 1, 0
  {
    var p := FirstEmpty(g);
    if p == CELLS then Some(g) else SolveAt(g, p, 1)
  }

  /** The search at empty cell p, candidates num..9 still to try. */
  function SolveAt(g: Grid, p: int, num: int): (r: Option<Grid>)
    requires IsGrid(g) && 0 <= p < CELLS && g[p] == 0 && 1 <= num <= SIZE + 1
    ensures r.Some? ==> IsGrid(r.value)
    decreases EmptyCount(g), 0, SIZE + 1 - num
  {
    if num > SIZE then None
    else if Allowed(num, p, g) then
      PlaceDecreasesEmpty(g, p, num);
      var r := Solve(g[p := num]);
      if r.Some? then r else SolveAt(g, p, num + 1)
    else SolveAt(g, p, num + 1)
  }

  lemma {:induction false} SolveSound(g: Grid)
    requires IsGrid(g)
    ensures Solve(g).Some? ==> IsCompletion(g, Solve(g).value)
    decreases EmptyCount(g), 1, 0
  {
    var p := FirstEmpty(g);
    if p == CELLS {
      FullGridCompletion(g, g);
    } else {
      SolveAtSound(g, p, 1);
    }
  }

  lemma {:induction false} SolveAtSound(g: Grid, p: int, num: int)
    requires IsGrid(g) && 0 <= p < CELLS && g[p] == 0 && 1 <= num <= SIZE + 1
    ensures SolveAt(g, p, num).Some? ==>
      IsCompletion(g, SolveAt(g, p, num).value) && SolveAt(g, p, num).value[p] >= num
    decreases EmptyCount(g), 0, SIZE + 1 - num
  {
    if num <= SIZE {
      if Allowed(num, p, g) && Solve(g[p := num]).Some? {
        PlaceDecreasesEmpty(g, p, num);
        SolveSound(g[p := num]);
        PlaceExtends(g, p, num, Solve(g[p := num]).value);
      } else {
        SolveAtSound(g, p, num + 1);
      }
    }
  }

  lemma {:induction false} SolveComplete(g: Grid, s: Grid)
    requires IsGrid(g) && IsCompletion(g, s)
    ensures Solve(g).Some?
    decreases EmptyCount(g), 1, 0
  {
    var p := FirstEmpty(g);
    if p < CELLS {
      CompletionChoosesValue(g, p, s);
      SolveAtComplete(g, p, 1, s);
    }
  }

  lemma {:induction false} SolveAtComplete(g: Grid, p: int, num: int, s: Grid)
    requires IsGrid(g) && 0 <= p < CELLS && g[p] == 0 && 1 <= num <= SIZE + 1
    requires IsCompletion(g, s) && num <= s[p]
    ensures SolveAt(g, p, num).Some?
    decreases EmptyCount(g), 0, SIZE + 1 - num
  {
    CompletionChoosesValue(g, p, s);
    if num == s[p] {
      PlaceDecreasesEmpty(g, p, num);
      SolveComplete(g[p := num], s);
    } else if !(Allowed(num, p, g) && Solve(g[p := num]).Some?) {
      SolveAtComplete(g, p, num + 1, s);
    }
  }

  /**
   * The solver succeeds exactly on the boards that have a completion, and
   * what it returns is one: every cell filled on entry is kept, every empty
   * cell gets a digit 1..9 that no other cell of its row, column or box
   * repeats. A board with no empty cell is returned unchanged.
   */
  lemma SolveCorrect(g: Grid)
    requires IsGrid(g)
    ensures Solve(g).Some? <==> HasCompletion(g)
    ensures Solve(g).Some? ==> IsCompletion(g, Solve(g).value)
    ensures FirstEmpty(g) == CELLS ==> Solve(g) == Some(g)
  {
    SolveSound(g);
    if HasCompletion(g) {
      var s :| IsCompletion(g, s);
      SolveComplete(g, s);
    }
  }

  /** On a consistent board of digits 0..9 the solution found is a solved Sudoku. */
  lemma SolveConsistent(g: Grid)
    requires IsGrid(g) && Consistent(g)
    requires forall p :: 0 <= p < CELLS ==> 0 <= g[p] <= SIZE
    ensures Solve(g).Some? ==> Solved(Solve(g).value)
  {
    SolveSound(g);
    if Solve(g).Some? {
      CompletionOfConsistent(g, Solve(g).value);
    }
  }

  /**
   * solveSudoku: on success the board holds the solution the fixed-order
   * search finds; on failure every tentative write has been undone.
   * SolveCorrect says what that means for the board.
   */
  method SolveSudoku(board: array2<int>) returns (solved: bool)
    requires IsBoard(board)
    modifies board
    ensures Solve(old(Snapshot(board))) == (if solved then Some(Snapshot(board)) else None)
    ensures !solved ==> Snapshot(board) == old(Snapshot(board))
    decreases EmptyCount(Snapshot(board)), 2
  {
    var found, row, col := FindEmptyCell(board);
    if !found {
      return true;
    }
    solved := SolveCell(board, row, col);
  }

  /**
   * solveSudoku's candidate loop at the empty cell (row, col): digits 1..9 in
   * ascending order, returning on the first that leads to a solution.
   */
  method SolveCell(board: array2<int>, row: int, col: int) returns (solved: bool)
    requires IsBoard(board) && 0 <= row < SIZE && 0 <= col < SIZE
    requires Snapshot(board)[Index(row, col)] == 0
    modifies board
    ensures solved ==> SolveAt(old(Snapshot(board)), Index(row, col), 1) == Some(Snapshot(board))
    ensures !solved ==> SolveAt(old(Snapshot(board)), Index(row, col), 1) == None
    ensures !solved ==> Snapshot(board) == old(Snapshot(board))
    decreases EmptyCount(Snapshot(board)), 1
  {
    ghost var g := Snapshot(board);
    ghost var p := Index(row, col);
    for num := 1 to SIZE + 1
      invariant Snapshot(board) == g
      invariant SolveAt(g, p, num) == SolveAt(g, p, 1)
    {
      solved := SolveCandidate(board, row, col, num);
      if solved {
        return;
      }
    }
    return false;
  }

  /**
   * One pass of solveSudoku's candidate loop: if num passes the placement
   * check, write it and solve the rest recursively, undoing the write when
   * that fails. The outcome is the search's first step at candidate num.
   */
  method SolveCandidate(board: array2<int>, row: int, col: int, num: int) returns (solved: bool)
    requires IsBoard(board) && 0 <= row < SIZE && 0 <= col < SIZE
    requires Snapshot(board)[Index(row, col)] == 0 && 1 <= num <= SIZE
    modifies board
    ensures solved ==> SolveAt(old(Snapshot(board)), Index(row, col), num) == Some(Snapshot(board))
    ensures !solved ==> SolveAt(old(Snapshot(board)), Index(row, col), num) == SolveAt(old(Snapshot(board)), Index(row, col), num + 1)
    ensures !solved ==> Snapshot(board) == old(Snapshot(board))
    decreases EmptyCount(Snapshot(board)), 0
  {
    ghost var g := Snapshot(board);
    ghost var p := Index(row, col);
    var ok := IsValidPlacement(num, row, col, board);
    if !ok {
      return false;
    }
    SetCell(board, row, col, num);
    PlaceDecreasesEmpty(g, p, num);
    solved := SolveSudoku(board);
    if solved {
      return;
    }
    SetCell(board, row, col, 0);
    assert g[p := num][p := 0] == g;
  }
}
