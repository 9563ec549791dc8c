/** The 9x9 Sudoku grid: the empty-board constructor, the placement test
    `is_valid`, the row-major search for the first empty cell, the fullness
    test `is_complete`, and the predicates that say what a legal or a solved
    grid is. A cell holds 0 when it is empty and a digit 1..9 otherwise. */
module Grid {

  datatype Option<T> = None | Some(value: T)

  /** A board is a list of rows, each a list of cells. */
  type Board = seq<seq<int>>

  predicate IsBoard(b: Board) {
    |b| == 9 && forall r | 0 <= r < 9 :: |b[r]| == 9
  }

  predicate InGrid(r: int, c: int) {
    0 <= r < 9 && 0 <= c < 9
  }

  /** Row-major order: cell (i, j) is visited before cell (r, c). */
  predicate Before(i: int, j: int, r: int, c: int) {
    i < r || (i == r && j < c)
  }

  /** Two cells share a row, a column or a 3x3 block. */
  predicate SameUnit(r1: int, c1: int, r2: int, c2: int) {
    r1 == r2 || c1 == c2 || (r1 / 3 == r2 / 3 && c1 / 3 == c2 / 3)
  }

  /** (i, j) is another cell of the grid in one of the units of (r, c). */
  predicate Peer(r: int, c: int, i: int, j: int) {
    InGrid(i, j) && (i != r || j != c) && SameUnit(r, c, i, j)
  }

  /** No cell other than (r, c) in the units of (r, c) holds v. */
  ghost predicate NoPeerHolds(b: Board, r: int, c: int, v: int)
    requires IsBoard(b)
  {
    forall i, j | Peer(r, c, i, j) :: b[i][j] != v
  }

  ghost predicate NoZeros(b: Board)
    requires IsBoard(b)
  {
    forall r, c | InGrid(r, c) :: b[r][c] != 0
  }

  /** Every cell is empty or a digit. */
  ghost predicate Digits(b: Board)
    requires IsBoard(b)
  {
    forall r, c | InGrid(r, c) :: 0 <= b[r][c] <= 9
  }

  /** No filled cell shares its value with one of its peers. */
  ghost predicate Consistent(b: Board)
    requires IsBoard(b)
  {
    forall r, c | InGrid(r, c) && b[r][c] != 0 :: NoPeerHolds(b, r, c, b[r][c])
  }

  /** The empty cells of a board, as positions. */
  ghost function Zeros(b: Board): set<(int, int)>
    requires IsBoard(b)
  {
    set r, c | 0 <= r < 9 && 0 <= c < 9 && b[r][c] == 0 :: (r, c)
  }

  /** The board with cell (r, c) set to v (`board[r][c] = v`). */
  function SetCell(b: Board, r: int, c: int, v: int): (b': Board)
    requires IsBoard(b) && InGrid(r, c)
    ensures IsBoard(b')
    ensures forall i, j | InGrid(i, j) :: b'[i][j] == if i == r && j == c then v else b[i][j]
  {
    b[r := b[r][c := v]]
  }

  /** Column k, top to bottom. */
  function Column(b: Board, k: int): (s: seq<int>)
    requires IsBoard(b) && 0 <= k < 9
    ensures |s| == 9 && forall i | 0 <= i < 9 :: s[i] == b[i][k]
  {
    seq(9, i requires 0 <= i < 9 => b[i][k])
  }

  /** Block k (numbered row-major), read row-major. */
  function Block(b: Board, k: int): (s: seq<int>)
    requires IsBoard(b) && 0 <= k < 9
    ensures |s| == 9
    ensures forall i | 0 <= i < 9 :: s[i] == b[3 * (k / 3) + i / 3][3 * (k % 3) + i % 3]
  {
    seq(9, i requires 0 <= i < 9 => b[3 * (k / 3) + i / 3][3 * (k % 3) + i % 3])
  }

  /** s holds each of 1..9 exactly once, and nothing else. */
  ghost predicate IsDigitPerm(s: seq<int>) {
    && |s| == 9
    && (forall i | 0 <= i < |s| :: 1 <= s[i] <= 9)
    && (forall v | 1 <= v <= 9 :: v in s)
    && (forall i, j | 0 <= i < j < |s| :: s[i] != s[j])
  }

  /** Every row, column and block holds 1..9 with no duplicates. */
  ghost predicate Solved(b: Board)
    requires IsBoard(b)
  {
    forall k | 0 <= k < 9 :: IsDigitPerm(b[k]) && IsDigitPerm(Column(b, k)) && IsDigitPerm(Block(b, k))
  }

  /** `generate_board`: a 9x9 board of empty cells. */
  function EmptyBoard(): (b: Board)
    ensures IsBoard(b)
    ensures Zeros(b) == set r, c | 0 <= r < 9 && 0 <= c < 9 :: (r, c)
  {
    seq(9, _ => seq(9, _ => 0))
  }

  /** `is_valid`: num is absent from row `row` (the target cell included),
      from column `col`, and from the 3x3 block whose top-left corner is
      ((row / 3) * 3, (col / 3) * 3). */
  function IsValid(num: int, row: int, col: int, b: Board): (ok: bool)
    requires IsBoard(b) && InGrid(row, col)
    ensures ok <==> forall i, j | InGrid(i, j) && SameUnit(row, col, i, j) :: b[i][j] != num
  {
    if num in b[row] then false
    else if exists i | 0 <= i < 9 :: num == b[i][col] then false
    else
      var subRow, subCol := (row / 3) * 3, (col / 3) * 3;
      !exists i, j | subRow <= i < subRow + 3 && subCol <= j < subCol + 3 :: num == b[i][j]
  }

  /** The row-major scan of `find_empty_cell` from cell (row, col) on. */
  function FindEmptyFrom(b: Board, row: int, col: int): (r: Option<(int, int)>)
    requires IsBoard(b) && 0 <= row <= 9 && 0 <= col <= 9
    decreases 9 - row, 9 - col
    ensures r.Some? ==>
              && InGrid(r.value.0, r.value.1)
              && b[r.value.0][r.value.1] == 0
              && !Before(r.value.0, r.value.1, row, col)
              && forall i, j | InGrid(i, j) && !Before(i, j, row, col) && Before(i, j, r.value.0, r.value.1) :: b[i][j] != 0
    ensures r.None? ==> forall i, j | InGrid(i, j) && !Before(i, j, row, col) :: b[i][j] != 0
  {
    if row == 9 then None
    else if col == 9 then FindEmptyFrom(b, row + 1, 0)
    else if b[row][col] == 0 then Some((row, col))
    else FindEmptyFrom(b, row, col + 1)
  }

  /** `find_empty_cell`: the first empty cell in row-major order, or None
      (the source's `(None, None)`) when the board has no empty cell. */
  function FindEmptyCell(b: Board): (r: Option<(int, int)>)
    requires IsBoard(b)
    ensures r.None? <==> NoZeros(b)
    ensures r.Some? ==>
              && InGrid(r.value.0, r.value.1)
              && b[r.value.0][r.value.1] == 0
              && forall i, j | InGrid(i, j) && Before(i, j, r.value.0, r.value.1) :: b[i][j] != 0
  {
    FindEmptyFrom(b, 0, 0)
  }

  /** The scan of `is_complete` from cell (row, col) on. */
  function IsCompleteFrom(b: Board, row: int, col: int): (full: bool)
    requires IsBoard(b) && 0 <= row <= 9 && 0 <= col <= 9
    decreases 9 - row, 9 - col
    ensures full <==> forall i, j | InGrid(i, j) && !Before(i, j, row, col) :: b[i][j] != 0
  {
    if row == 9 then true
    else if col == 9 then IsCompleteFrom(b, row + 1, 0)
    else if b[row][col] == 0 then false
    else IsCompleteFrom(b, row, col + 1)
  }

  /** `is_complete`: true exactly when no cell is empty. It checks fullness
      only; the values need not obey the Sudoku rules. */
  function IsComplete(b: Board): (full: bool)
    requires IsBoard(b)
    ensures full <==> NoZeros(b)
    ensures full <==> FindEmptyCell(b).None?
  {
    IsCompleteFrom(b, 0, 0)
  }

  /** The board held in a 9x9 array, as rows of cells. */
  function Snapshot(a: array2<int>): (b: Board)
    reads a
    requires a.Length0 == 9 && a.Length1 == 9
    ensures IsBoard(b) && forall r, c | InGrid(r, c) :: b[r][c] == a[r, c]
  {
    RowsFrom(a, 0)
  }

  /** Rows r..8 of the array. */
  function RowsFrom(a: array2<int>, r: int): (b: seq<seq<int>>)
    reads a
    requires a.Length0 == 9 && a.Length1 == 9 && 0 <= r <= 9
    ensures |b| == 9 - r
    ensures forall i | 0 <= i < 9 - r :: |b[i]| == 9 && forall c | 0 <= c < 9 :: b[i][c] == a[r + i, c]
    decreases 9 - r
  {
    if r == 9 then [] else [seq(9, c reads a requires 0 <= c < 9 => a[r, c])] + RowsFrom(a, r + 1)
  }

  /** Two boards with the same cells are the same board. */
  lemma SameCells(b: Board, g: Board)
    requires IsBoard(b) && IsBoard(g)
    requires forall r, c | InGrid(r, c) :: b[r][c] == g[r][c]
    ensures b == g
  {
    forall r | 0 <= r < 9 ensures b[r] == g[r] {
      assert forall c | 0 <= c < 9 :: b[r][c] == g[r][c];
    }
  }

  // ---------------------------------------------------------------------
  // Lemmas

  /** Writing a digit into an empty cell removes exactly that cell from the
      empty cells; emptying a filled cell adds exactly that cell. */
  lemma ZerosAfterWrite(b: Board, r: int, c: int, v: int)
    requires IsBoard(b) && InGrid(r, c)
    ensures b[r][c] == 0 && v != 0 ==>
              Zeros(SetCell(b, r, c, v)) == Zeros(b) - {(r, c)} && |Zeros(SetCell(b, r, c, v))| == |Zeros(b)| - 1
    ensures b[r][c] != 0 && v == 0 ==>
              Zeros(SetCell(b, r, c, v)) == Zeros(b) + {(r, c)} && |Zeros(SetCell(b, r, c, v))| == |Zeros(b)| + 1
  {
    var b' := SetCell(b, r, c, v);
    if b[r][c] == 0 && v != 0 {
      assert Zeros(b') == Zeros(b) - {(r, c)};
    }
    if b[r][c] != 0 && v == 0 {
      assert Zeros(b') == Zeros(b) + {(r, c)};
    }
  }

  /** The cells of a list of distinct values. */
  lemma {:induction false} DistinctCard(s: seq<int>)
    requires forall i, j | 0 <= i < j < |s| :: s[i] != s[j]
    ensures |set x | x in s| == |s|
  {
    if s != [] {
      DistinctCard(s[1..]);
      assert (set x | x in s) == {s[0]} + (set x | x in s[1..]);
    }
  }

  /** A subset as large as its superset is the whole superset. */
  lemma SubsetOfSameSize(a: set<int>, b: set<int>)
    requires a <= b && |a| == |b|
    ensures a == b
  {
    assert b == a + (b - a);
    assert |b - a| == 0;
  }

  /** Pigeonhole: nine distinct digits are 1..9, each exactly once. */
  lemma DistinctDigitsArePerm(s: seq<int>)
    requires |s| == 9
    requires forall i | 0 <= i < 9 :: 1 <= s[i] <= 9
    requires forall i, j | 0 <= i < j < 9 :: s[i] != s[j]
    ensures IsDigitPerm(s)
  {
    var values := set x | x in s;
    var digits := {1, 2, 3, 4, 5, 6, 7, 8, 9};
    assert |values| == 9 by {
      DistinctCard(s);
    }
    assert |digits| == 9;
    SubsetOfSameSize(values, digits);
    forall v | 1 <= v <= 9 ensures v in s {
      assert v in digits;
    }
  }

  lemma RowIsPerm(b: Board, k: int)
    requires IsBoard(b) && NoZeros(b) && Digits(b) && Consistent(b) && 0 <= k < 9
    ensures IsDigitPerm(b[k])
  {
    forall i, j | 0 <= i < j < 9 ensures b[k][i] != b[k][j] {
      assert Peer(k, i, k, j);
    }
    DistinctDigitsArePerm(b[k]);
  }

  lemma ColumnIsPerm(b: Board, k: int)
    requires IsBoard(b) && NoZeros(b) && Digits(b) && Consistent(b) && 0 <= k < 9
    ensures IsDigitPerm(Column(b, k))
  {
    var col := Column(b, k);
    forall i, j | 0 <= i < j < 9 ensures col[i] != col[j] {
      assert Peer(i, k, j, k);
    }
    DistinctDigitsArePerm(col);
  }

  /** Positions i != j of block k are two different cells of that block. */
  lemma BlockCellsArePeers(k: int, i: int, j: int)
    requires 0 <= k < 9 && 0 <= i < 9 && 0 <= j < 9 && i != j
    ensures InGrid(3 * (k / 3) + i / 3, 3 * (k % 3) + i % 3)
    ensures Peer(3 * (k / 3) + i / 3, 3 * (k % 3) + i % 3, 3 * (k / 3) + j / 3, 3 * (k % 3) + j % 3)
  {
    var q, m := k / 3, k % 3;
    assert 0 <= q < 3 && 0 <= m < 3;
    assert (3 * q + i / 3) / 3 == q && (3 * q + j / 3) / 3 == q;
    assert (3 * m + i % 3) / 3 == m && (3 * m + j % 3) / 3 == m;
    assert i == 3 * (i / 3) + i % 3 && j == 3 * (j / 3) + j % 3;
  }

  lemma BlockIsPerm(b: Board, k: int)
    requires IsBoard(b) && NoZeros(b) && Digits(b) && Consistent(b) && 0 <= k < 9
    ensures IsDigitPerm(Block(b, k))
  {
    var blk := Block(b, k);
    forall i | 0 <= i < 9 ensures 1 <= blk[i] <= 9 {
      BlockCellsArePeers(k, i, (i + 1) % 9);
    }
    forall i, j | 0 <= i < j < 9 ensures blk[i] != blk[j] {
      BlockCellsArePeers(k, i, j);
    }
    DistinctDigitsArePerm(blk);
  }

  /** A full board of digits in which no filled cell meets its own value
      among its peers is solved: each row, column and block is 1..9. */
  lemma ConsistentFullIsSolved(b: Board)
    requires IsBoard(b) && NoZeros(b) && Digits(b) && Consistent(b)
    ensures Solved(b)
  {
    forall k | 0 <= k < 9
      ensures IsDigitPerm(b[k]) && IsDigitPerm(Column(b, k)) && IsDigitPerm(Block(b, k))
    {
      RowIsPerm(b, k);
      ColumnIsPerm(b, k);
      BlockIsPerm(b, k);
    }
  }
}
