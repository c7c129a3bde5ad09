/** The 9x9 Sudoku grid: its value view, the constraint queries the solver asks
    (first empty cell in row-major order, legality of a move) and the counting
    facts the solver and the masking step rely on. 0 stands for an empty cell. */
module Grid {

  datatype Option<T> = None | Some(value: T)

  /** A grid as a value: nine rows of nine cells. */
  type Board = seq<seq<int>>

  predicate IsBoard(g: Board) {
    |g| == 9 && forall r :: 0 <= r < 9 ==> |g[r]| == 9
  }

  predicate InRange(r: int, c: int) {
    0 <= r < 9 && 0 <= c < 9
  }

  /** The value view of a 9x9 array. */
  function Cells(a: array2<int>): (g: Board)
    requires a.Length0 == 9 && a.Length1 == 9
    reads a
    ensures IsBoard(g)
    ensures forall r, c :: InRange(r, c) ==> g[r][c] == a[r, c]
  {
    seq(9, r requires 0 <= r < 9 reads a => seq(9, c requires 0 <= c < 9 reads a => a[r, c]))
  }

  /** Two boards that agree on every cell are equal. */
  lemma BoardExt(g: Board, h: Board)
    requires IsBoard(g) && IsBoard(h)
    requires forall r, c :: InRange(r, c) ==> g[r][c] == h[r][c]
    ensures g == h
  {
    forall r | 0 <= r < 9
      ensures g[r] == h[r]
    {
      assert forall c :: 0 <= c < 9 ==> g[r][c] == h[r][c];
    }
  }

  /** The board after `puzzle[r][c] = v`. */
  function Place(g: Board, r: int, c: int, v: int): (h: Board)
    requires IsBoard(g) && InRange(r, c)
    ensures IsBoard(h)
    ensures h[r][c] == v
    ensures forall i, j :: InRange(i, j) && (i, j) != (r, c) ==> h[i][j] == g[i][j]
  {
    g[r := g[r][c := v]]
  }

  /** `puzzle[r][c] = v` on the array, seen on the value view. */
  method SetCell(a: array2<int>, r: int, c: int, v: int)
    requires a.Length0 == 9 && a.Length1 == 9 && InRange(r, c)
    modifies a
    ensures Cells(a) == Place(old(Cells(a)), r, c, v)
  {
    ghost var g := Cells(a);
    a[r, c] := v;
    BoardExt(Cells(a), Place(g, r, c, v));
  }

  /** Writing back the old value of a cell undoes a placement. */
  lemma PlaceUndo(g: Board, r: int, c: int, v: int)
    requires IsBoard(g) && InRange(r, c)
    ensures Place(Place(g, r, c, v), r, c, g[r][c]) == g
  {
    BoardExt(Place(Place(g, r, c, v), r, c, g[r][c]), g);
  }

  ghost predicate IsFull(g: Board)
    requires IsBoard(g)
  {
    forall r, c :: InRange(r, c) ==> g[r][c] != 0
  }

  /** (r, c) holds 0 and every cell before it in row-major order is filled. */
  ghost predicate IsFirstEmpty(g: Board, r: int, c: int)
    requires IsBoard(g)
  {
    && InRange(r, c)
    && g[r][c] == 0
    && forall i, j :: InRange(i, j) && (i < r || (i == r && j < c)) ==> g[i][j] != 0
  }

  /** There is at most one first empty cell. */
  lemma FirstEmptyUnique(g: Board, r: int, c: int, r2: int, c2: int)
    requires IsBoard(g) && IsFirstEmpty(g, r, c) && IsFirstEmpty(g, r2, c2)
    ensures r == r2 && c == c2
  {
  }

  /** `find_empty_cell`: scans rows 0..8 and, within a row, columns 0..8, and
      returns the first cell holding 0, or None when there is none. */
  method FindEmptyCell(a: array2<int>) returns (cell: Option<(int, int)>)
    requires a.Length0 == 9 && a.Length1 == 9
    ensures cell.None? <==> IsFull(Cells(a))
    ensures cell.Some? ==> IsFirstEmpty(Cells(a), cell.value.0, cell.value.1)
  {
    for i := 0 to 9
      invariant forall r, c :: 0 <= r < i && 0 <= c < 9 ==> a[r, c] != 0
    {
      for j := 0 to 9
        invariant forall r, c :: InRange(r, c) && (r < i || (r == i && c < j)) ==> a[r, c] != 0
      {
        if a[i, j] == 0 {
          return Some((i, j));
        }
      }
    }
    return None;
  }

  /** Top-left row (or column) of the 3x3 box holding row (or column) x. */
  function BoxStart(x: int): (s: int)
    requires 0 <= x < 9
    ensures s == 0 || s == 3 || s == 6
    ensures s <= x < s + 3
  {
    (x / 3) * 3
  }

  /** (i, j) lies in the 3x3 box whose top-left corner is (br, bc). */
  predicate InBox(br: int, bc: int, i: int, j: int) {
    br <= i < br + 3 && bc <= j < bc + 3
  }

  /** `is_valid_move`: n occurs neither in row r, nor in column c, nor in the
      3x3 box whose top-left corner is (BoxStart(r), BoxStart(c)). */
  ghost predicate ValidMove(g: Board, r: int, c: int, n: int)
    requires IsBoard(g) && InRange(r, c)
  {
    && (forall j :: 0 <= j < 9 ==> g[r][j] != n)
    && (forall i :: 0 <= i < 9 ==> g[i][c] != n)
    && (forall i, j :: InBox(BoxStart(r), BoxStart(c), i, j) ==> g[i][j] != n)
  }

  /** The three checks of `is_valid_move`, each an early-exit loop. */
  method IsValidMove(a: array2<int>, row: int, col: int, num: int) returns (ok: bool)
    requires a.Length0 == 9 && a.Length1 == 9 && InRange(row, col)
    ensures ok == ValidMove(Cells(a), row, col, num)
  {
    for j := 0 to 9
      invariant forall j' :: 0 <= j' < j ==> a[row, j'] != num
    {
      if a[row, j] == num {
        return false;
      }
    }
    for i := 0 to 9
      invariant forall i' :: 0 <= i' < i ==> a[i', col] != num
    {
      if a[i, col] == num {
        return false;
      }
    }
    var startRow := BoxStart(row);
    var startCol := BoxStart(col);
    for i := 0 to 3
      invariant forall i', j' :: InBox(startRow, startCol, i', j') && i' < startRow + i ==> a[i', j'] != num
    {
      for j := 0 to 3
        invariant forall i', j' ::
                    InBox(startRow, startCol, i', j') && (i' < startRow + i || (i' == startRow + i && j' < startCol + j))
                    ==> a[i', j'] != num
      {
        if a[startRow + i, startCol + j] == num {
          return false;
        }
      }
    }
    return true;
  }

  /** Two distinct cells that share a row, a column or a 3x3 box. */
  predicate Peers(r: int, c: int, r2: int, c2: int)
    requires InRange(r, c) && InRange(r2, c2)
  {
    (r, c) != (r2, c2) && (r == r2 || c == c2 || (BoxStart(r) == BoxStart(r2) && BoxStart(c) == BoxStart(c2)))
  }

  /** A move is legal at an empty cell exactly when no peer of the cell holds the digit. */
  lemma ValidMoveIffNoPeer(g: Board, r: int, c: int, n: int)
    requires IsBoard(g) && InRange(r, c) && g[r][c] == 0 && n != 0
    ensures ValidMove(g, r, c, n) <==>
            forall r2, c2 :: InRange(r2, c2) && Peers(r, c, r2, c2) ==> g[r2][c2] != n
  {
    var br, bc := BoxStart(r), BoxStart(c);
    if forall r2, c2 :: InRange(r2, c2) && Peers(r, c, r2, c2) ==> g[r2][c2] != n {
      forall r2, c2 | InBox(br, bc, r2, c2)
        ensures g[r2][c2] != n
      {
        assert BoxStart(r2) == br && BoxStart(c2) == bc;
        if (r2, c2) != (r, c) {
          assert Peers(r, c, r2, c2);
        }
      }
    }
    if ValidMove(g, r, c, n) {
      forall r2, c2 | InRange(r2, c2) && Peers(r, c, r2, c2)
        ensures g[r2][c2] != n
      {
        if r2 != r && c2 != c {
          assert InBox(br, bc, r2, c2);
        }
      }
    }
  }

  /** Filled cells hold 1..9 and no two peers hold the same digit. */
  ghost predicate Consistent(g: Board)
    requires IsBoard(g)
  {
    && (forall r, c :: InRange(r, c) ==> 0 <= g[r][c] <= 9)
    && (forall r, c, r2, c2 :: InRange(r, c) && InRange(r2, c2) && Peers(r, c, r2, c2) && g[r][c] != 0 ==>
          g[r][c] != g[r2][c2])
  }

  /** A legal digit placed on an empty cell of a consistent board keeps it consistent. */
  lemma PlaceKeepsConsistent(g: Board, r: int, c: int, n: int)
    requires IsBoard(g) && Consistent(g) && InRange(r, c) && g[r][c] == 0
    requires 1 <= n <= 9 && ValidMove(g, r, c, n)
    ensures Consistent(Place(g, r, c, n))
  {
    ValidMoveIffNoPeer(g, r, c, n);
    var h := Place(g, r, c, n);
    forall i, j, i2, j2 | InRange(i, j) && InRange(i2, j2) && Peers(i, j, i2, j2) && h[i][j] != 0
      ensures h[i][j] != h[i2][j2]
    {
      if (i, j) == (r, c) {
        assert g[i2][j2] != n;
      } else if (i2, j2) == (r, c) {
        assert Peers(r, c, i, j);
      }
    }
  }

  /** Number of 0 entries of a row. */
  function RowZeros(row: seq<int>): (n: nat)
    ensures n <= |row|
  {
    if row == [] then 0 else (if row[0] == 0 then 1 else 0) + RowZeros(row[1..])
  }

  /** Number of empty cells of a board. */
  function ZeroCount(g: Board): nat {
    if g == [] then 0 else RowZeros(g[0]) + ZeroCount(g[1..])
  }

  lemma {:induction false} RowZerosUpdate(row: seq<int>, c: int, v: int)
    requires 0 <= c < |row|
    ensures RowZeros(row[c := v]) == RowZeros(row) - (if row[c] == 0 then 1 else 0) + (if v == 0 then 1 else 0)
  {
    if c > 0 {
      assert row[c := v][1..] == row[1..][c - 1 := v];
      RowZerosUpdate(row[1..], c - 1, v);
    }
  }

  lemma {:induction false} ZeroCountUpdate(g: Board, r: int, row: seq<int>)
    requires 0 <= r < |g|
    ensures ZeroCount(g[r := row]) == ZeroCount(g) - RowZeros(g[r]) + RowZeros(row)
  {
    if r > 0 {
      assert g[r := row][1..] == g[1..][r - 1 := row];
      ZeroCountUpdate(g[1..], r - 1, row);
    }
  }

  /** Writing v at (r, c) changes the number of empty cells by exactly the
      change at that one cell. */
  lemma ZeroCountPlace(g: Board, r: int, c: int, v: int)
    requires IsBoard(g) && InRange(r, c)
    ensures ZeroCount(Place(g, r, c, v)) ==
            ZeroCount(g) - (if g[r][c] == 0 then 1 else 0) + (if v == 0 then 1 else 0)
  {
    RowZerosUpdate(g[r], c, v);
    ZeroCountUpdate(g, r, g[r][c := v]);
  }

  lemma {:induction false} RowZerosNone(row: seq<int>)
    ensures RowZeros(row) == 0 <==> forall j :: 0 <= j < |row| ==> row[j] != 0
  {
    if row != [] {
      RowZerosNone(row[1..]);
      assert forall j :: 1 <= j < |row| ==> row[j] == row[1..][j - 1];
    }
  }

  lemma {:induction false} RowZerosAll(row: seq<int>)
    ensures RowZeros(row) == |row| <==> forall j :: 0 <= j < |row| ==> row[j] == 0
  {
    if row != [] {
      RowZerosAll(row[1..]);
      assert forall j :: 1 <= j < |row| ==> row[j] == row[1..][j - 1];
    }
  }

  lemma {:induction false} ZeroCountRows(g: Board)
    ensures ZeroCount(g) == 0 <==> forall r :: 0 <= r < |g| ==> RowZeros(g[r]) == 0
    ensures (forall r :: 0 <= r < |g| ==> RowZeros(g[r]) == |g[r]| == 9) ==> ZeroCount(g) == 9 * |g|
  {
    if g != [] {
      ZeroCountRows(g[1..]);
      assert forall r :: 1 <= r < |g| ==> g[r] == g[1..][r - 1];
    }
  }

  /** A board has no empty cell exactly when its zero count is 0. */
  lemma ZeroCountFull(g: Board)
    requires IsBoard(g)
    ensures ZeroCount(g) == 0 <==> IsFull(g)
  {
    ZeroCountRows(g);
    forall r | 0 <= r < 9 {
      RowZerosNone(g[r]);
    }
  }

  /** A board with fewer than 81 empty cells has a filled cell. */
  lemma FilledCellExists(g: Board)
    requires IsBoard(g) && ZeroCount(g) < 81
    ensures exists r, c :: InRange(r, c) && g[r][c] != 0
  {
    if forall r, c :: InRange(r, c) ==> g[r][c] == 0 {
      forall r | 0 <= r < 9
        ensures RowZeros(g[r]) == |g[r]| == 9
      {
        RowZerosAll(g[r]);
      }
      ZeroCountRows(g);
      assert false;
    }
  }
}
