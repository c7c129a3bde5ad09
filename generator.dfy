/** Puzzle generation: solve an empty grid, then empty a random number of its
    cells (`remove_cells`), once per puzzle of the batch (`generate_puzzles`). */
module Generator {
  import opened Grid
  import opened Validator
  import opened Solver

  /** Number of puzzles in a batch. */
  const NUM_PUZZLES: nat := 9

  /** Stand-in for `random.randint(lo, hi)`: an arbitrary integer of [lo, hi]. */
  method RandInt(lo: int, hi: int) returns (x: int)
    requires lo <= hi
    ensures lo <= x <= hi
  {
    x :| lo <= x <= hi;
  }

  /** h is g with some filled cells emptied and every other cell unchanged. */
  ghost predicate Masks(g: Board, h: Board)
    requires IsBoard(g) && IsBoard(h)
  {
    forall r, c :: InRange(r, c) ==> h[r][c] == g[r][c] || (g[r][c] != 0 && h[r][c] == 0)
  }

  /** `remove_cells`: draws K from [30, 40] and empties K filled cells, one per
      accepted pick. The grid must have at least 40 filled cells. */
  method RemoveCells(a: array2<int>)
    requires a.Length0 == 9 && a.Length1 == 9
    requires ZeroCount(Cells(a)) <= 41
    modifies a
    ensures Masks(old(Cells(a)), Cells(a))
    ensures 30 <= ZeroCount(Cells(a)) - old(ZeroCount(Cells(a))) <= 40
  {
    ghost var g := Cells(a);
    var target := RandInt(30, 40);
    var removed := 0;
    while removed < target
      invariant 0 <= removed <= target
      invariant Masks(g, Cells(a))
      invariant ZeroCount(Cells(a)) == ZeroCount(g) + removed
    {
      FilledCellExists(Cells(a));
      var row, col :| 0 <= row < 9 && 0 <= col < 9 && a[row, col] != 0;
      ZeroCountPlace(Cells(a), row, col, 0);
      SetCell(a, row, col, 0);
      removed := removed + 1;
    }
  }

  /** A fixed valid completed Sudoku: row r is 1..9 rotated by 3 * (r % 3) + r / 3. */
  function Pattern(): (s: Board)
    ensures IsBoard(s)
  {
    seq(9, r requires 0 <= r < 9 => seq(9, c requires 0 <= c < 9 => (3 * (r % 3) + r / 3 + c) % 9 + 1))
  }

  /** Two naturals whose difference is strictly between -18 and 18 and is
      not -9, 0 or 9 leave different remainders modulo 9. */
  lemma ModNineDiffer(x: int, y: int)
    requires 0 <= x && 0 <= y && -18 < x - y < 18 && x - y != -9 && x - y != 0 && x - y != 9
    ensures x % 9 != y % 9
  {
    var qx, qy := x / 9, y / 9;
    assert x == 9 * qx + x % 9 && y == 9 * qy + y % 9;
  }

  /** Two peers of the pattern hold different digits. Writing r = 3q + p, the
      pattern's row r is 1..9 rotated by 3p + q. */
  lemma PatternPeersDiffer(r: int, c: int, r2: int, c2: int)
    requires InRange(r, c) && InRange(r2, c2) && Peers(r, c, r2, c2)
    ensures Pattern()[r][c] != Pattern()[r2][c2]
  {
    var q, p, q2, p2 := r / 3, r % 3, r2 / 3, r2 % 3;
    var x, y := 3 * p + q + c, 3 * p2 + q2 + c2;
    assert Pattern()[r][c] == x % 9 + 1 && Pattern()[r2][c2] == y % 9 + 1;
    if r != r2 && c != c2 {
      assert BoxStart(r) == BoxStart(r2) && BoxStart(c) == BoxStart(c2);
      assert q == q2 && p != p2 && c / 3 == c2 / 3;
    } else if r != r2 {
      assert p != p2 || q != q2;
    }
    ModNineDiffer(x, y);
  }

  lemma PatternIsSolution()
    ensures IsValidSolution(Pattern())
  {
    var s := Pattern();
    forall r, c, r2, c2 | InRange(r, c) && InRange(r2, c2) && Peers(r, c, r2, c2) && s[r][c] != 0
      ensures s[r][c] != s[r2][c2]
    {
      PatternPeersDiffer(r, c, r2, c2);
    }
    FullConsistentIsSolution(s);
  }

  /** The pattern with (0, 0) changed to 2 (a clash with (0, 1)) and (8, 8)
      emptied. It has no completion and the run's end does not pass the grid
      check, yet placing 8 at (8, 8) is a run, so `SolvePuzzle` reports
      success on it. */
  lemma ClashingGridStillRuns()
    ensures var g := Place(Place(Pattern(), 0, 0, 2), 8, 8, 0);
            var h := Place(g, 8, 8, 8);
            && IsBoard(g) && !Consistent(g) && !Solvable(g) && Runnable(g)
            && IsRun(g, [Move(8, 8, 8)], h) && !IsValidSolution(h)
  {
    var p := Pattern();
    var g := Place(Place(p, 0, 0, 2), 8, 8, 0);
    var h := Place(g, 8, 8, 8);
    assert p[8][8] == 8 && p[0][1] == 2;
    assert Peers(0, 0, 0, 1);
    forall i, j | InRange(i, j) && Peers(8, 8, i, j)
      ensures g[i][j] != 8
    {
      PatternPeersDiffer(8, 8, i, j);
    }
    ValidMoveIffNoPeer(g, 8, 8, 8);
    BoardExt(h, Place(p, 0, 0, 2));
    assert IsRun(h, [], h);
    assert [Move(8, 8, 8)][1..] == [];
    assert IsRun(g, [Move(8, 8, 8)], h);
    RejectsRowDuplicate(h, 0, 0, 1);
    if Solvable(g) {
      SolvableIsConsistent(g);
    }
  }

  /** The pattern with 10 at (0, 0): full, and no two peers hold one value, yet
      a value is outside 1..9, so the grid is not `Consistent` and fails the
      grid check and has no completion. The empty run still starts from it, so
      `SolvePuzzle` reports success and keeps the 10. */
  lemma OutOfRangeGivenStillRuns()
    ensures var g := Place(Pattern(), 0, 0, 10);
            && IsBoard(g) && IsFull(g) && !Consistent(g) && !IsValidSolution(g) && !Solvable(g)
            && (forall r, c, r2, c2 :: InRange(r, c) && InRange(r2, c2) && Peers(r, c, r2, c2) ==> g[r][c] != g[r2][c2])
            && IsRun(g, [], g) && Runnable(g)
  {
    var g := Place(Pattern(), 0, 0, 10);
    forall r, c, r2, c2 | InRange(r, c) && InRange(r2, c2) && Peers(r, c, r2, c2)
      ensures g[r][c] != g[r2][c2]
    {
      PatternPeersDiffer(r, c, r2, c2);
    }
    SolutionIffFullConsistent(g);
    if Solvable(g) {
      SolvableIsConsistent(g);
    }
    assert IsRun(g, [], g);
  }

  /** The empty grid can always be completed, so solving it always succeeds. */
  lemma EmptyBoardSolvable(g: Board)
    requires IsBoard(g) && forall r, c :: InRange(r, c) ==> g[r][c] == 0
    ensures Consistent(g) && Solvable(g)
  {
    PatternIsSolution();
    assert Completes(Pattern(), g);
  }

  /** What one generated puzzle satisfies: `solved` passes the grid check, the
      puzzle is `solved` with some cells emptied, and 30 to 40 cells are empty. */
  ghost predicate Generated(puzzle: array2<int>, solved: Board)
    requires puzzle.Length0 == 9 && puzzle.Length1 == 9
    reads puzzle
  {
    && IsBoard(solved) && IsValidSolution(solved)
    && Masks(solved, Cells(puzzle))
    && 30 <= ZeroCount(Cells(puzzle)) <= 40
  }

  /** One iteration of `generate_puzzles`: a new empty grid, solved, then
      masked. Solving an empty grid always succeeds. */
  method GeneratePuzzle() returns (puzzle: array2<int>, ghost solved: Board)
    ensures fresh(puzzle) && puzzle.Length0 == 9 && puzzle.Length1 == 9
    ensures Generated(puzzle, solved)
  {
    puzzle := new int[9, 9]((r, c) => 0);
    EmptyBoardSolvable(Cells(puzzle));
    var ok, moves := SolvePuzzle(puzzle);
    solved := Cells(puzzle);
    ZeroCountFull(solved);
    RemoveCells(puzzle);
  }

  /** `generate_puzzles`: NUM_PUZZLES distinct new grids, each generated as
      above. The ghost `solutions` are the solved grids before masking. */
  method GeneratePuzzles() returns (puzzles: seq<array2<int>>, ghost solutions: seq<Board>)
    ensures |puzzles| == NUM_PUZZLES && |solutions| == NUM_PUZZLES
    ensures forall i :: 0 <= i < |puzzles| ==> fresh(puzzles[i]) && puzzles[i].Length0 == 9 && puzzles[i].Length1 == 9
    ensures forall i, j :: 0 <= i < j < |puzzles| ==> puzzles[i] != puzzles[j]
    ensures forall i :: 0 <= i < |puzzles| ==> Generated(puzzles[i], solutions[i])
  {
    puzzles, solutions := [], [];
    for n := 0 to NUM_PUZZLES
      invariant |puzzles| == n && |solutions| == n
      invariant forall i :: 0 <= i < n ==> fresh(puzzles[i]) && puzzles[i].Length0 == 9 && puzzles[i].Length1 == 9
      invariant forall i, j :: 0 <= i < j < n ==> puzzles[i] != puzzles[j]
      invariant forall i :: 0 <= i < n ==> Generated(puzzles[i], solutions[i])
    {
      var puzzle, solved := GeneratePuzzle();
      puzzles, solutions := puzzles + [puzzle], solutions + [solved];
    }
  }
}
