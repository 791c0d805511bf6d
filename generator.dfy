/**
 * The generator (fillBoard): the solver's backtracking skeleton, except that
 * at every empty cell the candidates 1..9 are tried in the order a
 * Fisher-Yates shuffle (shuffleArray) puts them in.
 */
module Generator {
  import opened BoardModel
  import opened BoardArray
  import opened Randomness

  /** The draws left after n of them have been used (none once they run out). */
  function Drop(draws: seq<nat>, n: nat): (rest: seq<nat>)
    ensures |rest| == if n <= |draws| then |draws| - n else 0
  {
    if n <= |draws| then draws[n..] else []
  }

  /**
   * shuffleArray: Fisher-Yates, swapping a[i] with a[j] for a random
   * j in [0, i], i running down from a.Length - 1 to 1. The result is a
   * permutation of the input, and one draw is used per swap.
   */
  method ShuffleArray(a: array<int>, rng: Random)
    modifies a, rng
    ensures multiset(a[..]) == old(multiset(a[..]))
    ensures rng.draws == Drop(old(rng.draws), if a.Length > 0 then a.Length - 1 else 0)
  {
    var i := a.Length - 1;
    ghost var used: nat := 0;
    while i > 0
      invariant -1 <= i < a.Length && (a.Length > 0 ==> 0 <= i)
      invariant used == (if a.Length > 0 then a.Length - 1 - i else 0)
      invariant multiset(a[..]) == old(multiset(a[..]))
      invariant rng.draws == Drop(old(rng.draws), used)
    {
      var j := rng.Below(i + 1);
      ghost var before := a[..];
      a[i], a[j] := a[j], a[i];
      assert a[..] == before[i := before[j]][j := before[i]];
      i := i - 1;
      used := used + 1;
    }
  }

  /**
   * The candidate order at one empty cell: the digits 1..9 passed through
   * shuffleArray, so each digit occurs and nothing else does.
   */
  method ShuffledCandidates(rng: Random) returns (numbers: array<int>)
    modifies rng
    ensures fresh(numbers) && numbers.Length == SIZE
    ensures forall v :: 1 <= v <= SIZE ==> v in numbers[..]
    ensures forall m :: 0 <= m < SIZE ==> 1 <= numbers[m] <= SIZE
    ensures rng.draws == Drop(old(rng.draws), SIZE - 1)
  {
    numbers := new int[SIZE](i => i + 1);
    ghost var digits := numbers[..];
    ShuffleArray(numbers, rng);
    forall v | 1 <= v <= SIZE
      ensures v in numbers[..]
    {
      assert digits[v - 1] == v;
      assert v in multiset(digits);
    }
    forall m | 0 <= m < SIZE
      ensures 1 <= numbers[m] <= SIZE
    {
      assert numbers[m] in multiset(numbers[..]);
      assert numbers[m] in digits;
    }
  }

  /** No completion of g puts v at cell p. */
  ghost predicate RuledOut(g: Grid, p: int, v: int)
    requires IsGrid(g) && 0 <= p < CELLS
  {
    forall s :: IsCompletion(g, s) ==> s[p] != v
  }

  /** A candidate the placement check rejects is part of no completion. */
  lemma RejectedCandidate(g: Grid, p: int, v: int)
    requires IsGrid(g) && 0 <= p < CELLS && g[p] == 0 && !Allowed(v, p, g)
    ensures RuledOut(g, p, v)
  {
    forall s | IsCompletion(g, s)
      ensures s[p] != v
    {
      CompletionChoosesValue(g, p, s);
    }
  }

  /** A candidate whose recursive fill failed is part of no completion. */
  lemma FailedCandidate(g: Grid, p: int, v: int)
    requires IsGrid(g) && 0 <= p < CELLS && g[p] == 0 && !HasCompletion(g[p := v])
    ensures RuledOut(g, p, v)
  {
    forall s | IsCompletion(g, s)
      ensures s[p] != v
    {
      CompletionChoosesValue(g, p, s);
    }
  }

  /** Once every digit 1..9 is ruled out at an empty cell, g has no completion. */
  lemma NoCandidateLeft(g: Grid, p: int, numbers: seq<int>)
    requires IsGrid(g) && 0 <= p < CELLS && g[p] == 0
    requires forall v :: 1 <= v <= SIZE ==> v in numbers
    requires forall m :: 0 <= m < |numbers| ==> RuledOut(g, p, numbers[m])
    ensures !HasCompletion(g)
  {
    forall s | IsCompletion(g, s)
      ensures 1 <= s[p] <= SIZE && s[p] !in numbers
    {
      CompletionChoosesValue(g, p, s);
    }
  }

  /**
   * fillBoard: succeeds exactly when the board can be completed, whatever
   * order the shuffles produce; on success the board holds a completion (every
   * write was a digit 1..9 passing the placement check), on failure every
   * tentative write has been undone.
   */
  method FillBoard(board: array2<int>, rng: Random) returns (filled: bool)
    requires IsBoard(board)
    modifies board, rng
    ensures filled <==> HasCompletion(old(Snapshot(board)))
    ensures filled ==> IsCompletion(old(Snapshot(board)), Snapshot(board))
    ensures !filled ==> Snapshot(board) == old(Snapshot(board))
    decreases EmptyCount(Snapshot(board)), 2
  {
    var found, row, col := FindEmptyCell(board);
    if !found {
      FullGridCompletion(Snapshot(board), Snapshot(board));
      return true;
    }
    filled := FillCell(board, rng, row, col);
  }

  /**
   * fillBoard's candidate loop at the empty cell (row, col): a fresh shuffle of
   * 1..9, returning on the first digit that leads to a filled board.
   */
  method FillCell(board: array2<int>, rng: Random, row: int, col: int) returns (filled: bool)
    requires IsBoard(board) && 0 <= row < SIZE && 0 <= col < SIZE
    requires Snapshot(board)[Index(row, col)] == 0
    modifies board, rng
    ensures filled <==> HasCompletion(old(Snapshot(board)))
    ensures filled ==> IsCompletion(old(Snapshot(board)), Snapshot(board))
    ensures !filled ==> Snapshot(board) == old(Snapshot(board))
    decreases EmptyCount(Snapshot(board)), 1
  {
    ghost var g := Snapshot(board);
    ghost var p := Index(row, col);
    var numbers := ShuffledCandidates(rng);
    for k := 0 to SIZE
      invariant Snapshot(board) == g
      invariant forall v :: 1 <= v <= SIZE ==> v in numbers[..]
      invariant forall m :: 0 <= m < SIZE ==> 1 <= numbers[m] <= SIZE
      invariant forall m :: 0 <= m < k ==> RuledOut(g, p, numbers[m])
    {
      filled := FillCandidate(board, rng, row, col, numbers[k]);
      if filled {
        return;
      }
    }
    NoCandidateLeft(g, p, numbers[..]);
    return false;
  }

  /**
   * One pass of fillBoard's candidate loop: if num passes the placement
   * check, write it and fill the rest of the board recursively, undoing the
   * write when that fails. Failure means no completion puts num there.
   */
  method FillCandidate(board: array2<int>, rng: Random, row: int, col: int, num: int) returns (filled: bool)
    requires IsBoard(board) && 0 <= row < SIZE && 0 <= col < SIZE
    requires Snapshot(board)[Index(row, col)] == 0 && 1 <= num <= SIZE
    modifies board, rng
    ensures filled ==> IsCompletion(old(Snapshot(board)), Snapshot(board))
    ensures !filled ==> Snapshot(board) == old(Snapshot(board))
    ensures !filled ==> RuledOut(old(Snapshot(board)), Index(row, col), num)
    decreases EmptyCount(Snapshot(board)), 0
  {
    ghost var g := Snapshot(board);
    ghost var p := Index(row, col);
    var ok := IsValidPlacement(num, row, col, board);
    if !ok {
      RejectedCandidate(g, p, num);
      return false;
    }
    SetCell(board, row, col, num);
    PlaceDecreasesEmpty(g, p, num);
    filled := FillBoard(board, rng);
    if filled {
      PlaceExtends(g, p, num, Snapshot(board));
      return;
    }
    SetCell(board, row, col, 0);
    assert g[p := num][p := 0] == g;
    FailedCandidate(g, p, num);
  }

  // -----------------------------------------------------------------------
  // An empty board can always be filled

  /** Row r of the fixed solved grid is 1..9 rotated left by Shift(r). */
  function Shift(r: int): int {
    SUBGRID_SIZE * (r % SUBGRID_SIZE) + r / SUBGRID_SIZE
  }

  /** A fixed solved grid: cell (r, c) holds (Shift(r) + c) % 9 + 1. */
  function Pattern(i: int): (v: int)
    requires 0 <= i < CELLS
    ensures 1 <= v <= SIZE
  {
    (Shift(Row(i)) + Col(i)) % SIZE + 1
  }

  lemma ModNine(x: int, y: int)
    requires 0 <= x < 2 * SIZE && 0 <= y < 2 * SIZE && x != y && -SIZE < x - y < SIZE
    ensures x % SIZE != y % SIZE
  {
  }

  lemma ShiftBounds(r: int)
    requires 0 <= r < SIZE
    ensures 0 <= Shift(r) < SIZE
  {
  }

  lemma ShiftDistinct(r1: int, r2: int)
    requires 0 <= r1 < SIZE && 0 <= r2 < SIZE && r1 != r2
    ensures Shift(r1) != Shift(r2)
  {
  }

  /** Two different cells of one row, column or box get different values. */
  lemma PatternCellsDistinct(r1: int, c1: int, r2: int, c2: int)
    requires 0 <= r1 < SIZE && 0 <= c1 < SIZE && 0 <= r2 < SIZE && 0 <= c2 < SIZE
    requires (r1, c1) != (r2, c2)
    requires r1 == r2 || c1 == c2 || (r1 / SUBGRID_SIZE == r2 / SUBGRID_SIZE && c1 / SUBGRID_SIZE == c2 / SUBGRID_SIZE)
    ensures (Shift(r1) + c1) % SIZE != (Shift(r2) + c2) % SIZE
  {
    ShiftBounds(r1);
    ShiftBounds(r2);
    if r1 != r2 {
      ShiftDistinct(r1, r2);
    }
    if r1 != r2 && c1 != c2 {
      assert Shift(r1) - Shift(r2) == SUBGRID_SIZE * (r1 % SUBGRID_SIZE - r2 % SUBGRID_SIZE);
    }
    ModNine(Shift(r1) + c1, Shift(r2) + c2);
  }

  lemma PatternDistinct(p: int, q: int)
    requires 0 <= p < CELLS && 0 <= q < CELLS && p != q && SameUnit(p, q)
    ensures Pattern(p) != Pattern(q)
  {
    assert p == Index(Row(p), Col(p)) && q == Index(Row(q), Col(q));
    PatternCellsDistinct(Row(p), Col(p), Row(q), Col(q));
  }

  /**
   * The generator never fails on the empty board: it has a completion, so
   * fillBoard on it returns true.
   */
  lemma EmptyGridSolvable()
    ensures HasCompletion(EmptyGrid())
  {
    var s := seq(CELLS, i requires 0 <= i < CELLS => Pattern(i));
    forall p | 0 <= p < CELLS
      ensures 1 <= s[p] <= SIZE && Allowed(s[p], p, s)
    {
      forall q | 0 <= q < CELLS && q != p && SameUnit(p, q)
        ensures s[q] != s[p]
      {
        PatternDistinct(p, q);
      }
    }
    assert IsCompletion(EmptyGrid(), s);
  }
}
