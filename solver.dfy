/** The randomized backtracking solver `solve_puzzle`: it fills the empty cells
    of a grid in place, in row-major order, trying the digits 1..9 in a shuffled
    order at each cell and undoing a placement when the rest cannot be filled. */
module Solver {
  import opened Grid
  import opened Validator

  /** Stand-in for `random.shuffle`: a Fisher-Yates pass in which each swap
      partner is an arbitrary position at or below the current one. */
  method Shuffle(xs: seq<int>) returns (ys: seq<int>)
    ensures multiset(ys) == multiset(xs)
  {
    ys := xs;
    var i := |ys| - 1;
    while i > 0
      invariant i < |ys|
      invariant multiset(ys) == multiset(xs)
    {
      var j :| 0 <= j <= i;
      ys := ys[i := ys[j]][j := ys[i]];
      i := i - 1;
    }
  }

  /** A candidate order produced by shuffling 1..9 holds each digit once. */
  lemma DigitOrder(numbers: seq<int>)
    requires multiset(numbers) == multiset([1, 2, 3, 4, 5, 6, 7, 8, 9])
    ensures |numbers| == 9
    ensures forall x :: x in numbers <==> 1 <= x <= 9
  {
    assert |multiset(numbers)| == 9;
    forall x
      ensures x in numbers <==> 1 <= x <= 9
    {
      assert x in numbers <==> x in multiset(numbers);
      assert x in [1, 2, 3, 4, 5, 6, 7, 8, 9] <==> x in multiset([1, 2, 3, 4, 5, 6, 7, 8, 9]);
    }
  }

  /** One placement of the solver: `digit` written at (row, col). */
  datatype Move = Move(row: int, col: int, digit: int)

  /** `moves` is the chain of placements a successful run of the solver makes
      from g: each fills the first empty cell in row-major order with a digit
      1..9 that is a legal move on the board as it is at that moment, and the
      chain ends on the full board h. */
  ghost predicate IsRun(g: Board, moves: seq<Move>, h: Board)
    requires IsBoard(g)
    decreases |moves|
  {
    if moves == [] then
      IsFull(g) && h == g
    else
      var m := moves[0];
      && IsFirstEmpty(g, m.row, m.col)
      && 1 <= m.digit <= 9
      && ValidMove(g, m.row, m.col, m.digit)
      && IsRun(Place(g, m.row, m.col, m.digit), moves[1..], h)
  }

  /** h keeps every filled cell of g and holds a digit 1..9 in every cell that
      is empty in g. */
  ghost predicate Fills(g: Board, h: Board)
    requires IsBoard(g)
  {
    && IsBoard(h)
    && forall r, c :: InRange(r, c) ==>
         (g[r][c] != 0 ==> h[r][c] == g[r][c]) && (g[r][c] == 0 ==> 1 <= h[r][c] <= 9)
  }

  /** s is a valid completed Sudoku that agrees with every filled cell of g. */
  ghost predicate Completes(s: Board, g: Board)
    requires IsBoard(g)
  {
    && IsBoard(s)
    && IsValidSolution(s)
    && forall r, c :: InRange(r, c) && g[r][c] != 0 ==> s[r][c] == g[r][c]
  }

  ghost predicate Solvable(g: Board)
    requires IsBoard(g)
  {
    exists s :: Completes(s, g)
  }

  /** A run ends on a full board that keeps the givens and writes only digits. */
  lemma {:induction false} RunFills(g: Board, moves: seq<Move>, h: Board)
    requires IsBoard(g) && IsRun(g, moves, h)
    ensures IsBoard(h) && IsFull(h) && Fills(g, h)
    decreases |moves|
  {
    if moves != [] {
      var m := moves[0];
      var g' := Place(g, m.row, m.col, m.digit);
      RunFills(g', moves[1..], h);
    }
  }

  /** A run fills exactly the empty cells: one move per 0 of the input. */
  lemma {:induction false} RunLength(g: Board, moves: seq<Move>, h: Board)
    requires IsBoard(g) && IsRun(g, moves, h)
    ensures |moves| == ZeroCount(g)
    decreases |moves|
  {
    if moves == [] {
      ZeroCountFull(g);
    } else {
      var m := moves[0];
      ZeroCountPlace(g, m.row, m.col, m.digit);
      RunLength(Place(g, m.row, m.col, m.digit), moves[1..], h);
    }
  }

  /** From a consistent board, a run ends on a board that passes the grid
      check. */
  lemma {:induction false} RunSound(g: Board, moves: seq<Move>, h: Board)
    requires IsBoard(g) && Consistent(g) && IsRun(g, moves, h)
    ensures IsBoard(h) && IsValidSolution(h)
    decreases |moves|
  {
    if moves == [] {
      FullConsistentIsSolution(g);
    } else {
      var m := moves[0];
      PlaceKeepsConsistent(g, m.row, m.col, m.digit);
      RunSound(Place(g, m.row, m.col, m.digit), moves[1..], h);
    }
  }

  /** The digit a completion puts in an empty cell is a legal move there. */
  lemma CompletionDigitIsLegal(s: Board, g: Board, r: int, c: int)
    requires IsBoard(g) && Completes(s, g) && InRange(r, c) && g[r][c] == 0
    ensures 1 <= s[r][c] <= 9 && ValidMove(g, r, c, s[r][c])
  {
    SolutionIsFullConsistent(s);
    ValidMoveIffNoPeer(g, r, c, s[r][c]);
    forall r2, c2 | InRange(r2, c2) && Peers(r, c, r2, c2)
      ensures g[r2][c2] != s[r][c]
    {
      assert s[r][c] != s[r2][c2];
    }
  }

  /** On a full board the only run is the empty one, ending where it starts. */
  lemma RunOnFullBoard(g: Board, moves: seq<Move>, h: Board)
    requires IsBoard(g) && IsFull(g)
    ensures IsRun(g, moves, h) <==> moves == [] && h == g
  {
  }

  /** A full board may clash: the board of all 1s is full, fails the grid check
      and has no completion, yet the empty run starts from it, so
      `SolvePuzzle` reports success on it. */
  lemma FullBoardMayClash()
    ensures var b := seq(9, r => seq(9, c => 1));
            IsBoard(b) && IsFull(b) && !IsValidSolution(b) && !Solvable(b)
            && IsRun(b, [], b) && Runnable(b)
  {
    var b := seq(9, r => seq(9, c => 1));
    assert Peers(0, 0, 0, 1);
    assert !Consistent(b);
    SolutionIffFullConsistent(b);
    if Solvable(b) {
      SolvableIsConsistent(b);
    }
    assert IsRun(b, [], b);
  }

  /** Only a consistent board can be completed. */
  lemma SolvableIsConsistent(g: Board)
    requires IsBoard(g) && Solvable(g)
    ensures Consistent(g)
  {
    var s :| Completes(s, g);
    SolutionIsFullConsistent(s);
  }

  /** A legal first placement followed by a run is a run; its end completes
      the input when the input is consistent. */
  lemma RunStep(g: Board, m: Move, rest: seq<Move>, h: Board)
    requires IsBoard(g) && IsFirstEmpty(g, m.row, m.col) && 1 <= m.digit <= 9
    requires ValidMove(g, m.row, m.col, m.digit)
    requires IsRun(Place(g, m.row, m.col, m.digit), rest, h)
    ensures IsRun(g, [m] + rest, h)
    ensures IsBoard(h) && IsFull(h) && Fills(g, h)
    ensures Consistent(g) ==> IsValidSolution(h) && Solvable(g)
  {
    var moves := [m] + rest;
    assert moves[0] == m && moves[1..] == rest;
    RunFills(g, moves, h);
    if Consistent(g) {
      RunSound(g, moves, h);
      assert Completes(h, g);
    }
  }

  /** The digit every completion of g puts at (r, c) is among `digits`. */
  ghost predicate CoveredBy(g: Board, r: int, c: int, digits: seq<int>)
    requires IsBoard(g) && InRange(r, c)
  {
    forall s :: Completes(s, g) ==> s[r][c] in digits
  }

  /** The shuffled list of all nine digits covers every completion. */
  lemma AllDigitsCover(g: Board, r: int, c: int, numbers: seq<int>)
    requires IsBoard(g) && InRange(r, c) && g[r][c] == 0
    requires forall x :: x in numbers <==> 1 <= x <= 9
    ensures CoveredBy(g, r, c, numbers)
  {
    forall s | Completes(s, g)
      ensures s[r][c] in numbers
    {
      CompletionDigitIsLegal(s, g, r, c);
    }
  }

  /** A digit that is not a legal move, or after which the board has no
      completion, can be dropped from the candidates still covering g. */
  lemma DigitRuledOut(g: Board, r: int, c: int, candidates: seq<int>)
    requires IsBoard(g) && InRange(r, c) && g[r][c] == 0 && candidates != []
    requires CoveredBy(g, r, c, candidates)
    requires !ValidMove(g, r, c, candidates[0]) || !Solvable(Place(g, r, c, candidates[0]))
    ensures CoveredBy(g, r, c, candidates[1..])
  {
    var n := candidates[0];
    assert candidates == [n] + candidates[1..];
    forall s | Completes(s, g)
      ensures s[r][c] in candidates[1..]
    {
      CompletionDigitIsLegal(s, g, r, c);
      if s[r][c] == n {
        assert Completes(s, Place(g, r, c, n));
      }
    }
  }

  /** Nothing is covered by no digits: the board has no completion. */
  lemma NoneCovered(g: Board, r: int, c: int)
    requires IsBoard(g) && InRange(r, c) && CoveredBy(g, r, c, [])
    ensures !Solvable(g)
  {
  }

  /** Some chain of legal placements from g (a run) ends on a full board. */
  ghost predicate Runnable(g: Board)
    requires IsBoard(g)
  {
    exists moves: seq<Move>, h: Board :: IsRun(g, moves, h)
  }

  /** Every run from g starts with a digit among `digits`. */
  ghost predicate RunsCoveredBy(g: Board, digits: seq<int>)
    requires IsBoard(g)
  {
    forall moves: seq<Move>, h :: IsRun(g, moves, h) && moves != [] ==> moves[0].digit in digits
  }

  /** Every run starts with a digit 1..9, so the shuffled digits cover them all. */
  lemma AllDigitsCoverRuns(g: Board, numbers: seq<int>)
    requires IsBoard(g)
    requires forall x :: x in numbers <==> 1 <= x <= 9
    ensures RunsCoveredBy(g, numbers)
  {
    forall moves: seq<Move>, h: Board | IsRun(g, moves, h) && moves != []
      ensures moves[0].digit in numbers
    {
    }
  }

  /** A run from a board with first empty cell (r, c) starts with a legal move
      at (r, c) and goes on with a run from the board after that move. */
  lemma RunStartsAt(g: Board, r: int, c: int, moves: seq<Move>, h: Board)
    requires IsBoard(g) && IsFirstEmpty(g, r, c) && IsRun(g, moves, h) && moves != []
    ensures moves[0].row == r && moves[0].col == c
    ensures ValidMove(g, r, c, moves[0].digit)
    ensures IsRun(Place(g, r, c, moves[0].digit), moves[1..], h)
  {
    FirstEmptyUnique(g, r, c, moves[0].row, moves[0].col);
  }

  /** A digit that is not a legal move at the first empty cell, or after which
      no run exists, starts no run from g. */
  lemma DigitRuledOutOfRuns(g: Board, r: int, c: int, candidates: seq<int>)
    requires IsBoard(g) && IsFirstEmpty(g, r, c) && candidates != []
    requires RunsCoveredBy(g, candidates)
    requires !ValidMove(g, r, c, candidates[0]) || !Runnable(Place(g, r, c, candidates[0]))
    ensures RunsCoveredBy(g, candidates[1..])
  {
    var n := candidates[0];
    assert candidates == [n] + candidates[1..];
    forall moves: seq<Move>, h: Board | IsRun(g, moves, h) && moves != []
      ensures moves[0].digit in candidates[1..]
    {
      RunStartsAt(g, r, c, moves, h);
    }
  }

  /** When no digit is left, no run exists from a board with an empty cell. */
  lemma NoRunLeft(g: Board, r: int, c: int)
    requires IsBoard(g) && IsFirstEmpty(g, r, c) && RunsCoveredBy(g, [])
    ensures !Runnable(g)
  {
    forall moves: seq<Move>, h: Board | IsRun(g, moves, h)
      ensures false
    {
    }
  }

  /** `solve_puzzle`. It succeeds exactly when a run exists from the input, and
      the grid is then the end of such a run (so it is full, keeps every given
      and holds only digits). On failure the grid is exactly as on entry, and
      no run and no valid completed Sudoku exists for the input. The givens are
      never checked: a full input is returned unchanged with success, even
      when it is not a valid Sudoku. */
  method SolvePuzzle(a: array2<int>) returns (ok: bool, ghost moves: seq<Move>)
    requires a.Length0 == 9 && a.Length1 == 9
    modifies a
    ensures ok ==> IsRun(old(Cells(a)), moves, Cells(a))
    ensures ok ==> IsFull(Cells(a)) && Fills(old(Cells(a)), Cells(a))
    ensures ok && Consistent(old(Cells(a))) ==> IsValidSolution(Cells(a))
    ensures !ok ==> Cells(a) == old(Cells(a)) && !Solvable(old(Cells(a)))
    ensures ok <==> Runnable(old(Cells(a)))
    ensures Consistent(old(Cells(a))) ==> (ok <==> Solvable(old(Cells(a))))
    ensures IsFull(old(Cells(a))) ==> ok && Cells(a) == old(Cells(a))
    decreases ZeroCount(Cells(a))
  {
    ghost var g := Cells(a);
    var empty := FindEmptyCell(a);
    if empty.None? {
      if Consistent(g) {
        FullConsistentIsSolution(g);
        assert Completes(g, g);
      }
      assert IsRun(g, [], g);
      return true, [];
    }
    var (row, col) := empty.value;
    assert IsFirstEmpty(g, row, col);
    assert !IsFull(g) by { assert g[row][col] == 0; }
    var numbers := Shuffle([1, 2, 3, 4, 5, 6, 7, 8, 9]);
    DigitOrder(numbers);
    AllDigitsCover(g, row, col, numbers);
    AllDigitsCoverRuns(g, numbers);
    for k := 0 to |numbers|
      invariant Cells(a) == g
      invariant CoveredBy(g, row, col, numbers[k..])
      invariant RunsCoveredBy(g, numbers[k..])
    {
      var num := numbers[k];
      assert 1 <= num <= 9 by { assert num in numbers; }
      var legal := IsValidMove(a, row, col, num);
      assert legal == ValidMove(g, row, col, num);
      if legal {
        SetCell(a, row, col, num);
        ZeroCountPlace(g, row, col, num);
        var done, rest := SolvePuzzle(a);
        if done {
          RunStep(g, Move(row, col, num), rest, Cells(a));
          return true, [Move(row, col, num)] + rest;
        }
        SetCell(a, row, col, 0);
        PlaceUndo(g, row, col, num);
      }
      DigitRuledOut(g, row, col, numbers[k..]);
      DigitRuledOutOfRuns(g, row, col, numbers[k..]);
      assert numbers[k..][1..] == numbers[k + 1..];
    }
    NoneCovered(g, row, col);
    NoRunLeft(g, row, col);
    ok, moves := false, [];
  }
}
