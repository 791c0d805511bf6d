/**
 * The bounded solution counter (countSolutions): the solver's search
 * skeleton with an accumulator that stops trying candidates once it reaches
 * 2, so the answer is 0 (no solution), 1 (unique) or 2 (two or more).
 */
module SolutionCounter {
  import opened BoardModel
  import opened BoardArray
  import opened Solver

  function Min(a: int, b: int): int {
    if a <= b then a else b
  }

  /**
   * countSolutions(board, count): the search from the first empty cell,
   * starting from the accumulator `count`; on a full board it adds one.
   */
  function Count(g: Grid, count: int): (r: int)
    requires IsGrid(g)
    ensures count <= r <= (if count < 2 then 2 else count + 1)
    decreases EmptyCount(g), 1, 0
  {
    var p := FirstEmpty(g);
    if p == CELLS then count + 1 else CountAt(g, p, 1, count)
  }

  /** The candidate loop at empty cell p, guard `num <= 9 && count < 2`. */
  function CountAt(g: Grid, p: int, num: int, count: int): (r: int)
    requires IsGrid(g) && 0 <= p < CELLS && g[p] == 0 && 1 <= num <= SIZE + 1
    ensures count <= r <= (if count < 2 then 2 else count)
    decreases EmptyCount(g), 0, SIZE + 1 - num
  {
    if num > SIZE || count >= 2 then count
    else if Allowed(num, p, g) then
      PlaceDecreasesEmpty(g, p, num);
      CountAt(g, p, num + 1, Count(g[p := num], count))
    else CountAt(g, p, num + 1, count)
  }

  /** The number of leaves the search reaches when nothing stops it. */
  ghost function Leaves(g: Grid): nat
    requires IsGrid(g)
    decreases EmptyCount(g), 1, 0
  {
    var p := FirstEmpty(g);
    if p == CELLS then 1 else LeavesAt(g, p, 1)
  }

  ghost function LeavesAt(g: Grid, p: int, num: int): nat
    requires IsGrid(g) && 0 <= p < CELLS && g[p] == 0 && 1 <= num <= SIZE + 1
    decreases EmptyCount(g), 0, SIZE + 1 - num
  {
    if num > SIZE then 0
    else
      PlaceDecreasesEmpty(g, p, num);
      (if Allowed(num, p, g) then Leaves(g[p := num]) else 0) + LeavesAt(g, p, num + 1)
  }

  /** One turn of the candidate loop. */
  lemma CountAtStep(g: Grid, p: int, num: int, count: int)
    requires IsGrid(g) && 0 <= p < CELLS && g[p] == 0 && 1 <= num <= SIZE && count < 2
    ensures CountAt(g, p, num, count) ==
      CountAt(g, p, num + 1, if Allowed(num, p, g) then Count(g[p := num], count) else count)
  {
  }

  /** With an accumulator below 2 the counter is the leaf count capped at 2. */
  lemma {:induction false} CountCapsLeaves(g: Grid, count: int)
    requires IsGrid(g) && count < 2
    ensures Count(g, count) == Min(2, count + Leaves(g))
    decreases EmptyCount(g), 1, 0
  {
    var p := FirstEmpty(g);
    if p < CELLS {
      CountAtCapsLeaves(g, p, 1, count);
    }
  }

  lemma {:induction false} CountAtCapsLeaves(g: Grid, p: int, num: int, count: int)
    requires IsGrid(g) && 0 <= p < CELLS && g[p] == 0 && 1 <= num <= SIZE + 1 && count < 2
    ensures CountAt(g, p, num, count) == Min(2, count + LeavesAt(g, p, num))
    decreases EmptyCount(g), 0, SIZE + 1 - num
  {
    if num <= SIZE {
      if Allowed(num, p, g) {
        var c := Count(g[p := num], count);
        PlaceDecreasesEmpty(g, p, num);
        CountCapsLeaves(g[p := num], count);
        if c < 2 {
          CountAtCapsLeaves(g, p, num + 1, c);
        }
      } else {
        CountAtCapsLeaves(g, p, num + 1, count);
      }
    }
  }

  /** The search reaches a leaf exactly when the solver finds a solution. */
  lemma {:induction false} LeavesMatchSolve(g: Grid)
    requires IsGrid(g)
    ensures Leaves(g) > 0 <==> Solve(g).Some?
    decreases EmptyCount(g), 1, 0
  {
    var p := FirstEmpty(g);
    if p < CELLS {
      LeavesAtMatchSolveAt(g, p, 1);
    }
  }

  lemma {:induction false} LeavesAtMatchSolveAt(g: Grid, p: int, num: int)
    requires IsGrid(g) && 0 <= p < CELLS && g[p] == 0 && 1 <= num <= SIZE + 1
    ensures LeavesAt(g, p, num) > 0 <==> SolveAt(g, p, num).Some?
    decreases EmptyCount(g), 0, SIZE + 1 - num
  {
    if num <= SIZE {
      if Allowed(num, p, g) {
        PlaceDecreasesEmpty(g, p, num);
        LeavesMatchSolve(g[p := num]);
      }
      LeavesAtMatchSolveAt(g, p, num + 1);
    }
  }

  /** Two different completions are two different leaves. */
  lemma {:induction false} TwoCompletionsTwoLeaves(g: Grid, s1: Grid, s2: Grid)
    requires IsGrid(g) && IsCompletion(g, s1) && IsCompletion(g, s2) && s1 != s2
    ensures Leaves(g) >= 2
    decreases EmptyCount(g), 1, 0
  {
    var p := FirstEmpty(g);
    if p == CELLS {
      FullGridCompletion(g, s1);
      FullGridCompletion(g, s2);
      assert false;
    }
    CompletionChoosesValue(g, p, s1);
    CompletionChoosesValue(g, p, s2);
    TwoCompletionsTwoLeavesAt(g, p, 1, s1, s2);
  }

  lemma {:induction false} TwoCompletionsTwoLeavesAt(g: Grid, p: int, num: int, s1: Grid, s2: Grid)
    requires IsGrid(g) && 0 <= p < CELLS && g[p] == 0 && 1 <= num <= SIZE + 1
    requires IsCompletion(g, s1) && IsCompletion(g, s2) && s1 != s2
    requires num <= s1[p] && num <= s2[p]
    ensures LeavesAt(g, p, num) >= 2
    decreases EmptyCount(g), 0, SIZE + 1 - num
  {
    CompletionChoosesValue(g, p, s1);
    CompletionChoosesValue(g, p, s2);
    var g' := g[p := num];
    PlaceDecreasesEmpty(g, p, num);
    if s1[p] == num && s2[p] == num {
      TwoCompletionsTwoLeaves(g', s1, s2);
    } else if s1[p] == num {
      CompletionHereAndLater(g, p, num, s1, s2);
    } else if s2[p] == num {
      CompletionHereAndLater(g, p, num, s2, s1);
    } else {
      TwoCompletionsTwoLeavesAt(g, p, num + 1, s1, s2);
    }
  }

  /**
   * A completion with candidate num at p and one with a later candidate
   * there give a leaf below num and another among the later candidates.
   */
  lemma CompletionHereAndLater(g: Grid, p: int, num: int, here: Grid, later: Grid)
    requires IsGrid(g) && 0 <= p < CELLS && g[p] == 0 && 1 <= num <= SIZE
    requires IsCompletion(g, here) && here[p] == num
    requires IsCompletion(g, later) && later[p] > num
    ensures LeavesAt(g, p, num) >= 2
  {
    CompletionChoosesValue(g, p, here);
    PlaceDecreasesEmpty(g, p, num);
    OneCompletionOneLeaf(g[p := num], here);
    OneCompletionOneLeafAt(g, p, num + 1, later);
  }

  lemma OneCompletionOneLeaf(g: Grid, s: Grid)
    requires IsGrid(g) && IsCompletion(g, s)
    ensures Leaves(g) >= 1
  {
    SolveComplete(g, s);
    LeavesMatchSolve(g);
  }

  lemma OneCompletionOneLeafAt(g: Grid, p: int, num: int, s: Grid)
    requires IsGrid(g) && 0 <= p < CELLS && g[p] == 0 && 1 <= num <= SIZE + 1
    requires IsCompletion(g, s) && num <= s[p]
    ensures LeavesAt(g, p, num) >= 1
  {
    SolveAtComplete(g, p, num, s);
    LeavesAtMatchSolveAt(g, p, num);
  }

  /** Two leaves are two different completions. */
  lemma {:induction false} TwoLeavesTwoCompletions(g: Grid) returns (s1: Grid, s2: Grid)
    requires IsGrid(g) && Leaves(g) >= 2
    ensures IsCompletion(g, s1) && IsCompletion(g, s2) && s1 != s2
    decreases EmptyCount(g), 1, 0
  {
    var p := FirstEmpty(g);
    assert p < CELLS;
    s1, s2 := TwoLeavesTwoCompletionsAt(g, p, 1);
  }

  lemma {:induction false} TwoLeavesTwoCompletionsAt(g: Grid, p: int, num: int) returns (s1: Grid, s2: Grid)
    requires IsGrid(g) && 0 <= p < CELLS && g[p] == 0 && 1 <= num <= SIZE + 1
    requires LeavesAt(g, p, num) >= 2
    ensures IsCompletion(g, s1) && IsCompletion(g, s2) && s1 != s2
    ensures s1[p] >= num && s2[p] >= num
    decreases EmptyCount(g), 0, SIZE + 1 - num
  {
    assert num <= SIZE;
    var g' := g[p := num];
    PlaceDecreasesEmpty(g, p, num);
    var here := if Allowed(num, p, g) then Leaves(g') else 0;
    assert LeavesAt(g, p, num) == here + LeavesAt(g, p, num + 1);
    if here >= 2 {
      s1, s2 := TwoLeavesTwoCompletions(g');
      PlaceExtends(g, p, num, s1);
      PlaceExtends(g, p, num, s2);
    } else if here == 1 {
      s1, s2 := LeafHereAndLater(g, p, num);
    } else {
      s1, s2 := TwoLeavesTwoCompletionsAt(g, p, num + 1);
    }
  }

  /**
   * A leaf below candidate num and another among the later candidates are
   * two completions, told apart by the digit they put at p.
   */
  lemma LeafHereAndLater(g: Grid, p: int, num: int) returns (s1: Grid, s2: Grid)
    requires IsGrid(g) && 0 <= p < CELLS && g[p] == 0 && 1 <= num <= SIZE
    requires Allowed(num, p, g) && Leaves(g[p := num]) > 0 && LeavesAt(g, p, num + 1) > 0
    ensures IsCompletion(g, s1) && IsCompletion(g, s2) && s1 != s2
    ensures s1[p] >= num && s2[p] >= num
  {
    var g' := g[p := num];
    s1 := LeafCompletion(g');
    PlaceExtends(g, p, num, s1);
    s2 := LaterLeafCompletion(g, p, num + 1);
  }

  /** A grid with a leaf has a completion: the one the solver finds. */
  lemma LeafCompletion(g: Grid) returns (s: Grid)
    requires IsGrid(g) && Leaves(g) > 0
    ensures IsCompletion(g, s)
  {
    LeavesMatchSolve(g);
    SolveSound(g);
    s := Solve(g).value;
  }

  /** A leaf among candidates num..9 is a completion with a digit >= num at p. */
  lemma LaterLeafCompletion(g: Grid, p: int, num: int) returns (s: Grid)
    requires IsGrid(g) && 0 <= p < CELLS && g[p] == 0 && 1 <= num <= SIZE + 1
    requires LeavesAt(g, p, num) > 0
    ensures IsCompletion(g, s) && s[p] >= num
  {
    LeavesAtMatchSolveAt(g, p, num);
    SolveAtSound(g, p, num);
    s := SolveAt(g, p, num).value;
  }

  /**
   * What the counter's answer means, starting from count 0: 0 when the
   * board has no completion, 1 when it has exactly one, 2 when it has two
   * or more.
   */
  lemma CountSolutionsMeaning(g: Grid)
    requires IsGrid(g)
    ensures Count(g, 0) == 0 <==> !HasCompletion(g)
    ensures Count(g, 0) == 1 <==> HasCompletion(g) && !Ambiguous(g)
    ensures Count(g, 0) == 2 <==> Ambiguous(g)
  {
    CountCapsLeaves(g, 0);
    LeavesMatchSolve(g);
    SolveCorrect(g);
    if Ambiguous(g) {
      var s1, s2 :| IsCompletion(g, s1) && IsCompletion(g, s2) && s1 != s2;
      TwoCompletionsTwoLeaves(g, s1, s2);
    }
    if Leaves(g) >= 2 {
      var s1, s2 := TwoLeavesTwoCompletions(g);
    }
  }

  /**
   * countSolutions: the in-place search agrees with Count and leaves the
   * board as it found it, each placement being undone after its recursive
   * call.
   */
  method CountSolutions(board: array2<int>, count: int) returns (result: int)
    requires IsBoard(board)
    modifies board
    ensures result == Count(old(Snapshot(board)), count)
    ensures Snapshot(board) == old(Snapshot(board))
    decreases EmptyCount(Snapshot(board)), 2
  {
    var found, row, col := FindEmptyCell(board);
    if !found {
      return count + 1;
    }
    result := CountCell(board, row, col, count);
  }

  /**
   * countSolutions' candidate loop at the first empty cell: digits 1..9 in
   * ascending order, stopping as soon as the running count reaches 2.
   */
  method CountCell(board: array2<int>, row: int, col: int, count: int) returns (result: int)
    requires IsBoard(board) && 0 <= row < SIZE && 0 <= col < SIZE
    requires Index(row, col) == FirstEmpty(Snapshot(board)) && Index(row, col) < CELLS
    modifies board
    ensures result == Count(old(Snapshot(board)), count)
    ensures Snapshot(board) == old(Snapshot(board))
    decreases EmptyCount(Snapshot(board)), 1
  {
    ghost var g := Snapshot(board);
    var c := count;
    ghost var p := Index(row, col);
    var num := 1;
    while num <= SIZE && c < 2
      invariant 1 <= num <= SIZE + 1
      invariant Snapshot(board) == g
      invariant CountAt(g, p, num, c) == Count(g, count)
    {
      c := CountCandidate(board, row, col, num, c);
      num := num + 1;
    }
    return c;
  }

  /**
   * One pass of countSolutions' candidate loop: if num passes the placement
   * check, write it, count recursively from the accumulator, and undo the
   * write. Continuing the loop afterwards gives the same final count.
   */
  method CountCandidate(board: array2<int>, row: int, col: int, num: int, count: int) returns (result: int)
    requires IsBoard(board) && 0 <= row < SIZE && 0 <= col < SIZE
    requires Snapshot(board)[Index(row, col)] == 0 && 1 <= num <= SIZE && count < 2
    modifies board
    ensures CountAt(old(Snapshot(board)), Index(row, col), num, count) ==
      CountAt(old(Snapshot(board)), Index(row, col), num + 1, result)
    ensures Snapshot(board) == old(Snapshot(board))
    decreases EmptyCount(Snapshot(board)), 0
  {
    ghost var g := Snapshot(board);
    ghost var p := Index(row, col);
    CountAtStep(g, p, num, count);
    result := count;
    var ok := IsValidPlacement(num, row, col, board);
    if ok {
      SetCell(board, row, col, num);
      PlaceDecreasesEmpty(g, p, num);
      result := CountSolutions(board, count);
      SetCell(board, row, col, 0);
      assert g[p := num][p := 0] == g;
    }
  }
}
