/** Helper datatypes shared by the engine. */
module Wrappers {
  datatype Option<+T> = None | Some(value: T)
}

/**
 * The board model: a 9x9 grid of cell values (0 = empty), flattened in
 * row-major order so that cell (row, col) sits at index row * 9 + col, and
 * the single placement rule every other component relies on.
 */
module BoardModel {
  const SIZE := 9
  const SUBGRID_SIZE := 3
  const CELLS := 81  // SIZE * SIZE
  /** The reducer clears a target drawn from MIN_REMOVED_CELLS..MAX_REMOVED_CELLS cells. */
  const MIN_REMOVED_CELLS := 40
  const MAX_REMOVED_CELLS := 49
  /** The reducer gives up after this many trials on filled cells. */
  const MAX_ATTEMPTS := 200

  /** A board snapshot: cell (r, c) is at index Index(r, c); 0 means empty. */
  type Grid = seq<int>

  predicate IsGrid(g: Grid) {
    |g| == CELLS
  }

  // ---------------------------------------------------------------------
  // Flat index <-> (row, col)

  /** Row of flat cell index `i` (Math.floor(i / SIZE)). */
  function Row(i: int): (r: int)
    requires 0 <= i < CELLS
    ensures 0 <= r < SIZE
    ensures r * SIZE <= i < r * SIZE + SIZE
  {
    i / SIZE
  }

  /** Column of flat cell index `i` (i % SIZE). */
  function Col(i: int): (c: int)
    requires 0 <= i < CELLS
    ensures 0 <= c < SIZE
    ensures Row(i) * SIZE + c == i
  {
    i % SIZE
  }

  /** Flat index of cell (row, col): row * SIZE + col. */
  function Index(row: int, col: int): (i: int)
    requires 0 <= row < SIZE && 0 <= col < SIZE
    ensures 0 <= i < CELLS
    ensures Row(i) == row && Col(i) == col
  {
    row * SIZE + col
  }

  // ---------------------------------------------------------------------
  // The placement rule

  /** Cells p and q lie in the same row, the same column or the same 3x3 box. */
  predicate SameUnit(p: int, q: int)
    requires 0 <= p < CELLS && 0 <= q < CELLS
  {
    || Row(p) == Row(q)
    || Col(p) == Col(q)
    || (Row(p) / SUBGRID_SIZE == Row(q) / SUBGRID_SIZE && Col(p) / SUBGRID_SIZE == Col(q) / SUBGRID_SIZE)
  }

  /**
   * `num` may stand at cell p: no OTHER cell of p's row, column or box holds
   * `num`. The value currently at p itself is ignored.
   */
  predicate Allowed(num: int, p: int, g: Grid)
    requires IsGrid(g) && 0 <= p < CELLS
  {
    forall q {:trigger SameUnit(p, q)} :: 0 <= q < CELLS && q != p && SameUnit(p, q) ==> g[q] != num
  }

  /**
   * The two loops of the placement check as written: the row/column loop
   * rejects `num` at (row, i), i != col, and at (i, col), i != row ...
   */
  predicate LineClear(num: int, row: int, col: int, g: Grid)
    requires IsGrid(g) && 0 <= row < SIZE && 0 <= col < SIZE
  {
    forall i :: 0 <= i < SIZE ==>
      !(g[Index(row, i)] == num && i != col) && !(g[Index(i, col)] == num && i != row)
  }

  /**
   * ... and the box loop rejects `num` only at box cells (i, j) with
   * i != row AND j != col, skipping every box cell on row or col.
   */
  predicate BoxClear(num: int, row: int, col: int, g: Grid)
    requires IsGrid(g) && 0 <= row < SIZE && 0 <= col < SIZE
  {
    var startRow := row / SUBGRID_SIZE * SUBGRID_SIZE;
    var startCol := col / SUBGRID_SIZE * SUBGRID_SIZE;
    forall i, j :: startRow <= i < startRow + SUBGRID_SIZE && startCol <= j < startCol + SUBGRID_SIZE ==>
      !(g[Index(i, j)] == num && i != row && j != col)
  }

  /** Every filled cell passes the placement rule with its own value. */
  predicate Consistent(g: Grid)
    requires IsGrid(g)
  {
    forall p :: 0 <= p < CELLS && g[p] != 0 ==> Allowed(g[p], p, g)
  }

  /** A solved Sudoku: every cell holds 1..9 and the grid is consistent. */
  predicate Solved(g: Grid)
    requires IsGrid(g)
  {
    (forall p :: 0 <= p < CELLS ==> 1 <= g[p] <= SIZE) && Consistent(g)
  }

  /** The board createEmptyBoard returns: every cell 0. */
  function EmptyGrid(): (g: Grid)
    ensures IsGrid(g)
  {
    seq(CELLS, i => 0)
  }

  /** Number of empty cells; every placement of a digit decreases it. */
  function EmptyCount(g: seq<int>): nat {
    if |g| == 0 then 0 else (if g[0] == 0 then 1 else 0) + EmptyCount(g[1..])
  }

  /**
   * Index of the first empty cell at or after k in row-major order, or
   * CELLS when there is none: the scan of the nested row/col loops.
   */
  function FirstEmptyFrom(g: Grid, k: int): (p: int)
    requires IsGrid(g) && 0 <= k <= CELLS
    ensures k <= p <= CELLS
    ensures p < CELLS ==> g[p] == 0
    ensures forall i :: k <= i < p ==> g[i] != 0
    decreases CELLS - k
  {
    if k == CELLS then CELLS
    else if g[k] == 0 then k
    else FirstEmptyFrom(g, k + 1)
  }

  /** The first empty cell in row-major order, or CELLS on a full grid. */
  function FirstEmpty(g: Grid): (p: int)
    requires IsGrid(g)
    ensures 0 <= p <= CELLS
    ensures p < CELLS ==> g[p] == 0
    ensures forall i :: 0 <= i < p ==> g[i] != 0
  {
    FirstEmptyFrom(g, 0)
  }

  // ---------------------------------------------------------------------
  // Completions: what the backtracking searches enumerate

  /**
   * s is a completion of g reachable by the backtracking search: it keeps
   * every filled cell of g, and puts into every empty cell of g a digit
   * 1..9 that no other cell of s in the same row, column or box repeats.
   */
  predicate IsCompletion(g: Grid, s: Grid)
    requires IsGrid(g)
  {
    && IsGrid(s)
    && (forall p :: 0 <= p < CELLS && g[p] != 0 ==> s[p] == g[p])
    && (forall p :: 0 <= p < CELLS && g[p] == 0 ==> 1 <= s[p] <= SIZE && Allowed(s[p], p, s))
  }

  ghost predicate HasCompletion(g: Grid)
    requires IsGrid(g)
  {
    exists s :: IsCompletion(g, s)
  }

  /** g has at least two different completions. */
  ghost predicate Ambiguous(g: Grid)
    requires IsGrid(g)
  {
    exists s1, s2 :: IsCompletion(g, s1) && IsCompletion(g, s2) && s1 != s2
  }

  /** `after` is `before` with some cells emptied and nothing else changed. */
  predicate Cleared(before: Grid, after: Grid)
    requires IsGrid(before) && IsGrid(after)
  {
    forall i :: 0 <= i < CELLS ==> after[i] == before[i] || after[i] == 0
  }

  // ---------------------------------------------------------------------
  // Lemmas

  lemma SameUnitSymmetric(p: int, q: int)
    requires 0 <= p < CELLS && 0 <= q < CELLS
    ensures SameUnit(p, q) == SameUnit(q, p)
  {
  }

  /**
   * The box loop skips the box cells on the tested row or column, but the
   * row/column loop has already looked at them: together the two loops
   * accept exactly when no other cell of the row, column or box holds num.
   */
  lemma PlacementRuleEquivalence(num: int, row: int, col: int, g: Grid)
    requires IsGrid(g) && 0 <= row < SIZE && 0 <= col < SIZE
    ensures LineClear(num, row, col, g) && BoxClear(num, row, col, g) <==> Allowed(num, Index(row, col), g)
  {
    var p := Index(row, col);
    var startRow := row / SUBGRID_SIZE * SUBGRID_SIZE;
    var startCol := col / SUBGRID_SIZE * SUBGRID_SIZE;
    if LineClear(num, row, col, g) && BoxClear(num, row, col, g) {
      forall q | 0 <= q < CELLS && q != p && SameUnit(p, q)
        ensures g[q] != num
      {
        var r, c := Row(q), Col(q);
        assert q == Index(r, c);
        if r == row {
          assert c != col;
        } else if c == col {
          assert r != row;
        } else {
          assert startRow <= r < startRow + SUBGRID_SIZE;
          assert startCol <= c < startCol + SUBGRID_SIZE;
        }
      }
    }
    if Allowed(num, p, g) {
      forall i | 0 <= i < SIZE
        ensures !(g[Index(row, i)] == num && i != col) && !(g[Index(i, col)] == num && i != row)
      {
        assert SameUnit(p, Index(row, i)) && SameUnit(p, Index(i, col));
      }
      forall i, j | startRow <= i < startRow + SUBGRID_SIZE && startCol <= j < startCol + SUBGRID_SIZE
        ensures !(g[Index(i, j)] == num && i != row && j != col)
      {
        assert SameUnit(p, Index(i, j));
      }
    }
  }

  /** Placing a digit into an empty cell removes exactly one empty cell. */
  lemma {:induction false} PlaceDecreasesEmpty(g: seq<int>, p: int, v: int)
    requires 0 <= p < |g| && g[p] == 0 && v != 0
    ensures EmptyCount(g[p := v]) == EmptyCount(g) - 1
  {
    if p == 0 {
      assert g[p := v][1..] == g[1..];
    } else {
      assert g[p := v][1..] == g[1..][p - 1 := v];
      PlaceDecreasesEmpty(g[1..], p - 1, v);
    }
  }

  /** A grid without a 0 has no empty cell to count. */
  lemma {:induction false} NoEmptyCell(g: seq<int>)
    requires forall i :: 0 <= i < |g| ==> g[i] != 0
    ensures EmptyCount(g) == 0
  {
    if |g| > 0 {
      NoEmptyCell(g[1..]);
    }
  }

  /**
   * Search step, forward: placing an allowed digit v into the empty cell p
   * and completing the result completes g.
   */
  lemma PlaceExtends(g: Grid, p: int, v: int, s: Grid)
    requires IsGrid(g) && 0 <= p < CELLS && g[p] == 0
    requires 1 <= v <= SIZE && Allowed(v, p, g)
    requires IsCompletion(g[p := v], s)
    ensures IsCompletion(g, s)
  {
    var g' := g[p := v];
    forall q | 0 <= q < CELLS && g[q] == 0
      ensures 1 <= s[q] <= SIZE && Allowed(s[q], q, s)
    {
      if q == p {
        forall q' | 0 <= q' < CELLS && q' != p && SameUnit(p, q')
          ensures s[q'] != v
        {
          if g[q'] == 0 {
            assert g'[q'] == 0;
            SameUnitSymmetric(p, q');
            assert Allowed(s[q'], q', s);
          }
        }
      } else {
        assert g'[q] == 0;
      }
    }
  }

  /**
   * Search step, backward: every completion s of g fills the empty cell p
   * with an allowed digit and is a completion of g with that digit placed.
   */
  lemma CompletionChoosesValue(g: Grid, p: int, s: Grid)
    requires IsGrid(g) && 0 <= p < CELLS && g[p] == 0
    requires IsCompletion(g, s)
    ensures 1 <= s[p] <= SIZE && Allowed(s[p], p, g)
    ensures IsCompletion(g[p := s[p]], s)
  {
    assert Allowed(s[p], p, s);
    forall q | 0 <= q < CELLS && q != p && SameUnit(p, q)
      ensures g[q] != s[p]
    {
      if g[q] != 0 {
        assert s[q] == g[q];
      }
    }
  }

  /** A grid with no empty cell is its own and only completion. */
  lemma FullGridCompletion(g: Grid, s: Grid)
    requires IsGrid(g) && FirstEmpty(g) == CELLS
    ensures IsCompletion(g, g)
    ensures IsCompletion(g, s) ==> s == g
  {
    if IsCompletion(g, s) {
      forall i | 0 <= i < CELLS
        ensures s[i] == g[i]
      {
        assert g[i] != 0;
      }
      assert s == g;
    }
  }

  /** Completing a consistent grid yields a solved Sudoku. */
  lemma CompletionOfConsistent(g: Grid, s: Grid)
    requires IsGrid(g) && Consistent(g) && IsCompletion(g, s)
    requires forall p :: 0 <= p < CELLS && g[p] != 0 ==> 1 <= g[p] <= SIZE
    ensures Solved(s)
  {
    forall p | 0 <= p < CELLS && s[p] != 0
      ensures Allowed(s[p], p, s)
    {
      if g[p] != 0 {
        forall q | 0 <= q < CELLS && q != p && SameUnit(p, q)
          ensures s[q] != s[p]
        {
          if g[q] == 0 {
            SameUnitSymmetric(p, q);
            assert Allowed(s[q], q, s);
          } else {
            assert Allowed(g[p], p, g);
          }
        }
      }
    }
  }

  /**
   * Emptying cells of a solved grid never loses that grid as a solution:
   * it is a completion of every puzzle carved out of it.
   */
  lemma SolvedIsCompletionOfCleared(full: Grid, puzzle: Grid)
    requires IsGrid(full) && IsGrid(puzzle) && Solved(full) && Cleared(full, puzzle)
    ensures IsCompletion(puzzle, full)
  {
  }
}
