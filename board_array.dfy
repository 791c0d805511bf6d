/**
 * The mutable 9x9 board the engine passes by reference (an `array2<int>`,
 * board[row][col] in the source), its flat snapshot, and the placement check
 * run against it.
 */
module BoardArray {
  import opened BoardModel

  predicate IsBoard(board: array2<int>) {
    board.Length0 == SIZE && board.Length1 == SIZE
  }

  /**
   * The board as a flat snapshot: cell i is board[Math.floor(i / 9)][i % 9],
   * so cell (row, col) lands at index row * 9 + col.
   */
  ghost function Snapshot(board: array2<int>): (g: Grid)
    requires IsBoard(board)
    reads board
    ensures IsGrid(g)
    ensures forall r, c {:trigger board[r, c]} :: 0 <= r < SIZE && 0 <= c < SIZE ==> g[Index(r, c)] == board[r, c]
  {
    seq(CELLS, i requires 0 <= i < CELLS reads board => board[Row(i), Col(i)])
  }

  /** A fresh 9x9 board of zeros. */
  method CreateEmptyBoard() returns (board: array2<int>)
    ensures fresh(board) && IsBoard(board)
    ensures Snapshot(board) == EmptyGrid()
  {
    board := new int[SIZE, SIZE]((r, c) => 0);
  }

  /** A fresh board holding the same cells (board.map(row => [...row])). */
  method CopyBoard(board: array2<int>) returns (copy: array2<int>)
    requires IsBoard(board)
    ensures fresh(copy) && IsBoard(copy)
    ensures Snapshot(copy) == Snapshot(board)
  {
    copy := new int[SIZE, SIZE]((r, c) requires 0 <= r < SIZE && 0 <= c < SIZE reads board => board[r, c]);
  }

  /** board[row][col] = v, seen on the snapshot. */
  method SetCell(board: array2<int>, row: int, col: int, v: int)
    requires IsBoard(board) && 0 <= row < SIZE && 0 <= col < SIZE
    modifies board
    ensures Snapshot(board) == old(Snapshot(board))[Index(row, col) := v]
  {
    ghost var g := Snapshot(board);
    board[row, col] := v;
    ghost var h := Snapshot(board);
    forall i | 0 <= i < CELLS
      ensures h[i] == g[Index(row, col) := v][i]
    {
      assert i == Index(Row(i), Col(i));
    }
  }

  /**
   * The row-major scan that opens fillBoard, solveSudoku and countSolutions:
   * the nested row/col loops stop at the first cell holding 0.
   */
  method FindEmptyCell(board: array2<int>) returns (found: bool, row: int, col: int)
    requires IsBoard(board)
    ensures found ==> 0 <= row < SIZE && 0 <= col < SIZE && Index(row, col) == FirstEmpty(Snapshot(board))
    ensures !found ==> FirstEmpty(Snapshot(board)) == CELLS
  {
    ghost var g := Snapshot(board);
    for r := 0 to SIZE
      invariant forall i :: 0 <= i < r * SIZE ==> g[i] != 0
    {
      for c := 0 to SIZE
        invariant forall i :: 0 <= i < r * SIZE + c ==> g[i] != 0
      {
        if board[r, c] == 0 {
          assert g[Index(r, c)] == 0;
          return true, r, c;
        }
      }
    }
    return false, 0, 0;
  }

  /**
   * isValidPlacement: the row/column loop, then the 3x3 box loop, each
   * returning false on the first conflict. Accepts exactly when no other
   * cell of the row, column or box holds num.
   */
  method IsValidPlacement(num: int, row: int, col: int, board: array2<int>) returns (ok: bool)
    requires IsBoard(board) && 0 <= row < SIZE && 0 <= col < SIZE
    ensures ok <==> Allowed(num, Index(row, col), Snapshot(board))
  {
    PlacementRuleEquivalence(num, row, col, Snapshot(board));
    ok := ScanLines(num, row, col, board);
    if ok {
      ok := ScanBox(num, row, col, board);
    }
  }

  /**
   * The first loop of isValidPlacement: false as soon as another cell of
   * the row or of the column holds num.
   */
  method ScanLines(num: int, row: int, col: int, board: array2<int>) returns (ok: bool)
    requires IsBoard(board) && 0 <= row < SIZE && 0 <= col < SIZE
    ensures ok <==> LineClear(num, row, col, Snapshot(board))
  {
    for i := 0 to SIZE
      invariant forall k :: 0 <= k < i ==> !(board[row, k] == num && k != col) && !(board[k, col] == num && k != row)
    {
      if (board[row, i] == num && i != col) || (board[i, col] == num && i != row) {
        return false;
      }
    }
    return true;
  }

  /**
   * The box loop of isValidPlacement: false as soon as a cell of the 3x3
   * box outside both the row and the column holds num.
   */
  method ScanBox(num: int, row: int, col: int, board: array2<int>) returns (ok: bool)
    requires IsBoard(board) && 0 <= row < SIZE && 0 <= col < SIZE
    ensures ok <==> BoxClear(num, row, col, Snapshot(board))
  {
    var startRow := row / SUBGRID_SIZE * SUBGRID_SIZE;
    var startCol := col / SUBGRID_SIZE * SUBGRID_SIZE;
    for i := startRow to startRow + SUBGRID_SIZE
      invariant forall i', j :: startRow <= i' < i && startCol <= j < startCol + SUBGRID_SIZE ==>
        !(board[i', j] == num && i' != row && j != col)
    {
      for j := startCol to startCol + SUBGRID_SIZE
        invariant forall i', j' :: startRow <= i' < i && startCol <= j' < startCol + SUBGRID_SIZE ==>
          !(board[i', j'] == num && i' != row && j' != col)
        invariant forall j' :: startCol <= j' < j ==> !(board[i, j'] == num && i != row && j' != col)
      {
        if board[i, j] == num && i != row && j != col {
          return false;
        }
      }
    }
    return true;
  }
}
