/** The solution check behind the "submit answer" button: every row, every
    column and every 3x3 box of a 9x9 grid must hold exactly the digits 1..9. */
module Validator {
  import opened Grid

  const Digits: set<int> := {1, 2, 3, 4, 5, 6, 7, 8, 9}

  /** The set of values occurring in a group. */
  function Elems(group: seq<int>): set<int> {
    set x | x in group
  }

  /** `is_valid_row`: the values of the group, as a set, are exactly 1..9. */
  predicate IsValidRow(group: seq<int>) {
    Elems(group) == Digits
  }

  /** Column c, as `zip(*puzzle)` yields it. */
  function Column(g: Board, c: int): (col: seq<int>)
    requires IsBoard(g) && 0 <= c < 9
    ensures |col| == 9 && forall r :: 0 <= r < 9 ==> col[r] == g[r][c]
  {
    seq(9, r requires 0 <= r < 9 => g[r][c])
  }

  /** The 3x3 box with top-left corner (bi, bj), read row by row. */
  function Square(g: Board, bi: int, bj: int): (sq: seq<int>)
    requires IsBoard(g) && bi in {0, 3, 6} && bj in {0, 3, 6}
    ensures |sq| == 9 && forall k :: 0 <= k < 9 ==> sq[k] == g[bi + k / 3][bj + k % 3]
  {
    seq(9, k requires 0 <= k < 9 => g[bi + k / 3][bj + k % 3])
  }

  /** The grid check of `is_valid_solution`, stripped of the widget I/O. */
  predicate IsValidSolution(g: Board)
    requires IsBoard(g)
  {
    && (forall r :: 0 <= r < 9 ==> IsValidRow(g[r]))
    && (forall c :: 0 <= c < 9 ==> IsValidRow(Column(g, c)))
    && (forall bi, bj :: bi in {0, 3, 6} && bj in {0, 3, 6} ==> IsValidRow(Square(g, bi, bj)))
  }

  /** The three early-exit loops of `is_valid_solution`: rows, then columns,
      then boxes at starts 0, 3, 6; the result is what the label would show. */
  method CheckSolution(g: Board) returns (ok: bool)
    requires IsBoard(g)
    ensures ok == IsValidSolution(g)
  {
    for r := 0 to 9
      invariant forall r' :: 0 <= r' < r ==> IsValidRow(g[r'])
    {
      if !IsValidRow(g[r]) {
        return false;
      }
    }
    for c := 0 to 9
      invariant forall c' :: 0 <= c' < c ==> IsValidRow(Column(g, c'))
    {
      if !IsValidRow(Column(g, c)) {
        return false;
      }
    }
    var i := 0;
    while i < 9
      invariant i in {0, 3, 6, 9}
      invariant forall bi, bj :: bi in {0, 3, 6} && bj in {0, 3, 6} && bi < i ==> IsValidRow(Square(g, bi, bj))
    {
      var j := 0;
      while j < 9
        invariant j in {0, 3, 6, 9}
        invariant forall bj :: bj in {0, 3, 6} && bj < j ==> IsValidRow(Square(g, i, bj))
      {
        if !IsValidRow(Square(g, i, j)) {
          return false;
        }
        j := j + 3;
      }
      i := i + 3;
    }
    return true;
  }

  /** A group has as many distinct values as positions exactly when no value repeats. */
  lemma {:induction false} ElemsCard(s: seq<int>)
    ensures |Elems(s)| <= |s|
    ensures |Elems(s)| == |s| <==> forall k1, k2 :: 0 <= k1 < k2 < |s| ==> s[k1] != s[k2]
  {
    if s != [] {
      var t := s[1..];
      ElemsCard(t);
      assert forall k :: 1 <= k < |s| ==> s[k] == t[k - 1];
      assert Elems(s) == {s[0]} + Elems(t);
      if s[0] in t {
        assert Elems(s) == Elems(t);
        var k :| 0 <= k < |t| && t[k] == s[0];
        assert s[0] == s[k + 1];
      } else {
        assert s[0] !in Elems(t);
      }
    }
  }

  /** A subset with as many elements as its superset is the whole superset. */
  lemma SubsetSameCard(a: set<int>, b: set<int>)
    requires a <= b && |a| == |b|
    ensures a == b
  {
    var d := b - a;
    assert b == a + d;
    assert a * d == {};
    assert |d| == 0;
  }

  lemma DigitsCard()
    ensures |Digits| == 9
  {
  }

  lemma ValidRowDigits(s: seq<int>)
    requires |s| == 9 && IsValidRow(s)
    ensures forall k :: 0 <= k < 9 ==> 1 <= s[k] <= 9
    ensures forall k1, k2 :: 0 <= k1 < k2 < 9 ==> s[k1] != s[k2]
  {
    ElemsCard(s);
    DigitsCard();
    forall k | 0 <= k < 9
      ensures 1 <= s[k] <= 9
    {
      assert s[k] in Elems(s);
    }
  }

  lemma DigitsValidRow(s: seq<int>)
    requires |s| == 9
    requires forall k :: 0 <= k < 9 ==> 1 <= s[k] <= 9
    requires forall k1, k2 :: 0 <= k1 < k2 < 9 ==> s[k1] != s[k2]
    ensures IsValidRow(s)
  {
    ElemsCard(s);
    DigitsCard();
    forall x | x in Elems(s)
      ensures x in Digits
    {
      var k :| 0 <= k < 9 && s[k] == x;
    }
    SubsetSameCard(Elems(s), Digits);
  }

  /** For a group of nine, `is_valid_row` holds exactly when every value is a
      digit 1..9 and no two positions hold the same value. */
  lemma ValidRowIff(s: seq<int>)
    requires |s| == 9
    ensures IsValidRow(s) <==>
            (forall k :: 0 <= k < 9 ==> 1 <= s[k] <= 9) &&
            (forall k1, k2 :: 0 <= k1 < k2 < 9 ==> s[k1] != s[k2])
  {
    if IsValidRow(s) {
      ValidRowDigits(s);
    }
    if (forall k :: 0 <= k < 9 ==> 1 <= s[k] <= 9) && (forall k1, k2 :: 0 <= k1 < k2 < 9 ==> s[k1] != s[k2]) {
      DigitsValidRow(s);
    }
  }

  /** Two distinct box positions name two distinct cells of the same box. */
  lemma SquarePeers(bi: int, bj: int, k1: int, k2: int)
    requires bi in {0, 3, 6} && bj in {0, 3, 6} && 0 <= k1 < 9 && 0 <= k2 < 9 && k1 != k2
    ensures InRange(bi + k1 / 3, bj + k1 % 3) && InRange(bi + k2 / 3, bj + k2 % 3)
    ensures Peers(bi + k1 / 3, bj + k1 % 3, bi + k2 / 3, bj + k2 % 3)
  {
    assert BoxStart(bi + k1 / 3) == bi && BoxStart(bi + k2 / 3) == bi;
    assert BoxStart(bj + k1 % 3) == bj && BoxStart(bj + k2 % 3) == bj;
  }

  /** The cell (r, c) is at position (r - i) * 3 + (c - j) of its own box. */
  lemma SquareIndex(g: Board, r: int, c: int)
    requires IsBoard(g) && InRange(r, c)
    ensures BoxStart(r) in {0, 3, 6} && BoxStart(c) in {0, 3, 6}
    ensures var k := (r - BoxStart(r)) * 3 + (c - BoxStart(c));
            0 <= k < 9 && Square(g, BoxStart(r), BoxStart(c))[k] == g[r][c]
  {
    var br, bc := BoxStart(r), BoxStart(c);
    var k := (r - br) * 3 + (c - bc);
    assert k / 3 == r - br && k % 3 == c - bc;
  }

  /** In a grid passing the check, two peers never hold the same value. */
  lemma SolutionPeersDiffer(g: Board, r: int, c: int, r2: int, c2: int)
    requires IsBoard(g) && IsValidSolution(g)
    requires InRange(r, c) && InRange(r2, c2) && Peers(r, c, r2, c2)
    ensures g[r][c] != g[r2][c2]
  {
    if r == r2 {
      ValidRowDigits(g[r]);
      if c < c2 { assert g[r][c] != g[r][c2]; } else { assert g[r][c2] != g[r][c]; }
    } else if c == c2 {
      var col := Column(g, c);
      ValidRowDigits(col);
      if r < r2 { assert col[r] != col[r2]; } else { assert col[r2] != col[r]; }
    } else {
      SquareIndex(g, r, c);
      SquareIndex(g, r2, c2);
      var sq := Square(g, BoxStart(r), BoxStart(c));
      ValidRowDigits(sq);
      var k1, k2 := (r - BoxStart(r)) * 3 + (c - BoxStart(c)), (r2 - BoxStart(r2)) * 3 + (c2 - BoxStart(c2));
      if k1 < k2 { assert sq[k1] != sq[k2]; } else { assert sq[k2] != sq[k1]; }
    }
  }

  /** A grid passing the check is full and consistent. */
  lemma SolutionIsFullConsistent(g: Board)
    requires IsBoard(g) && IsValidSolution(g)
    ensures IsFull(g) && Consistent(g)
  {
    forall r | 0 <= r < 9
      ensures forall c :: 0 <= c < 9 ==> 1 <= g[r][c] <= 9
    {
      ValidRowDigits(g[r]);
    }
    forall r, c, r2, c2 | InRange(r, c) && InRange(r2, c2) && Peers(r, c, r2, c2) && g[r][c] != 0
      ensures g[r][c] != g[r2][c2]
    {
      SolutionPeersDiffer(g, r, c, r2, c2);
    }
  }

  /** A full consistent grid passes the check. */
  lemma FullConsistentIsSolution(g: Board)
    requires IsBoard(g) && IsFull(g) && Consistent(g)
    ensures IsValidSolution(g)
  {
    forall r | 0 <= r < 9
      ensures IsValidRow(g[r])
    {
      forall k1, k2 | 0 <= k1 < k2 < 9
        ensures g[r][k1] != g[r][k2]
      {
        assert Peers(r, k1, r, k2);
      }
      DigitsValidRow(g[r]);
    }
    forall c | 0 <= c < 9
      ensures IsValidRow(Column(g, c))
    {
      var col := Column(g, c);
      forall k1, k2 | 0 <= k1 < k2 < 9
        ensures col[k1] != col[k2]
      {
        assert Peers(k1, c, k2, c);
      }
      DigitsValidRow(col);
    }
    forall bi, bj | bi in {0, 3, 6} && bj in {0, 3, 6}
      ensures IsValidRow(Square(g, bi, bj))
    {
      var sq := Square(g, bi, bj);
      forall k1, k2 | 0 <= k1 < k2 < 9
        ensures sq[k1] != sq[k2]
      {
        SquarePeers(bi, bj, k1, k2);
      }
      DigitsValidRow(sq);
    }
  }

  /** The grid check accepts exactly the full consistent grids: every cell
      holds a digit 1..9 and no two cells that share a row, a column or a box
      hold the same digit. */
  lemma SolutionIffFullConsistent(g: Board)
    requires IsBoard(g)
    ensures IsValidSolution(g) <==> IsFull(g) && Consistent(g)
  {
    if IsValidSolution(g) {
      SolutionIsFullConsistent(g);
    }
    if IsFull(g) && Consistent(g) {
      FullConsistentIsSolution(g);
    }
  }

  /** A grid with an empty cell is always rejected. */
  lemma RejectsEmptyCell(g: Board, r: int, c: int)
    requires IsBoard(g) && InRange(r, c) && g[r][c] == 0
    ensures !IsValidSolution(g)
  {
    assert 0 in Elems(g[r]);
  }

  /** A grid with the same value twice in one row is always rejected. */
  lemma RejectsRowDuplicate(g: Board, r: int, c1: int, c2: int)
    requires IsBoard(g) && InRange(r, c1) && InRange(r, c2) && c1 < c2 && g[r][c1] == g[r][c2]
    ensures !IsValidSolution(g)
  {
    ValidRowIff(g[r]);
  }
}
