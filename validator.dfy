/**
 * The board scan of isCurrentBoardValid: every filled cell, in row-major
 * order, is checked against the placement rule with its own value, and the
 * scan stops at the first one that fails.
 */
module Validator {
  import opened Wrappers
  import opened BoardModel
  import opened BoardArray

  /**
   * The scan accepts exactly the consistent boards. When it rejects, it
   * names the cell it stops at (the cell the source highlights): a filled
   * cell whose value repeats in its row, column or box, with no such cell
   * before it in row-major order.
   */
  method IsCurrentBoardValid(board: array2<int>) returns (valid: bool, offending: Option<(int, int)>)
    requires IsBoard(board)
    ensures valid <==> Consistent(Snapshot(board))
    ensures valid <==> offending.None?
    ensures offending.Some? ==>
      var (row, col) := offending.value;
      0 <= row < SIZE && 0 <= col < SIZE &&
      var g := Snapshot(board);
      g[Index(row, col)] != 0 && !Allowed(g[Index(row, col)], Index(row, col), g) &&
      forall i :: 0 <= i < Index(row, col) && g[i] != 0 ==> Allowed(g[i], i, g)
  {
    ghost var g := Snapshot(board);
    for row := 0 to SIZE
      invariant forall i :: 0 <= i < row * SIZE && g[i] != 0 ==> Allowed(g[i], i, g)
    {
      for col := 0 to SIZE
        invariant forall i :: 0 <= i < row * SIZE + col && g[i] != 0 ==> Allowed(g[i], i, g)
      {
        var num := board[row, col];
        if num != 0 {
          var ok := IsValidPlacement(num, row, col, board);
          if !ok {
            return false, Some((row, col));
          }
        }
      }
    }
    return true, None;
  }
}
