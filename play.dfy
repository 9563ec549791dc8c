/** The key handling of the game loop in `main`: the arrow keys move the
    cursor, clamped to the grid; a digit key writes its digit into the
    cell under the cursor when `is_valid` accepts it; Delete and Backspace
    empty that cell; after every key the board is tested with
    `is_complete`. The window, the drawing and the event queue are not
    modelled: a session is a sequence of keys. */
module Play {
  import opened Grid

  /** The keys the loop reacts to; `Digit(k)` is the key for digit k, and
      every other key (including a `Digit` outside 1..9) changes nothing. */
  datatype Key = Up | Down | Left | Right | Digit(k: int) | Delete | Backspace | Other

  /** The board and the cursor (`current_row`, `current_col`). */
  datatype Game = Game(board: Board, row: int, col: int)

  predicate IsGame(s: Game) {
    IsBoard(s.board) && InGrid(s.row, s.col)
  }

  /** The game at the start of `main`: the puzzle, cursor in the top-left. */
  function Start(puzzle: Board): (s: Game)
    requires IsBoard(puzzle)
    ensures IsGame(s) && s.board == puzzle
    ensures s.row == 0 && s.col == 0
  {
    Game(puzzle, 0, 0)
  }

  /** A digit key: k is written into cell (r, c) exactly when no cell of its
      row, column and block, (r, c) included, already holds it. */
  function Enter(b: Board, r: int, c: int, k: int): (b': Board)
    requires IsBoard(b) && InGrid(r, c) && 1 <= k <= 9
    ensures IsBoard(b')
    ensures forall i, j | InGrid(i, j) && (i != r || j != c) :: b'[i][j] == b[i][j]
    ensures b'[r][c] == k <==> b[r][c] == k || NoPeerHolds(b, r, c, k)
    ensures b'[r][c] != k ==> b' == b
  {
    if IsValid(k, r, c, b) then SetCell(b, r, c, k) else b
  }

  /** The cursor after a key: an arrow moves one coordinate one cell and
      stops at the edge; every other key leaves the cursor where it is. */
  function Move(r: int, c: int, key: Key): (cursor: (int, int))
    requires InGrid(r, c)
    ensures InGrid(cursor.0, cursor.1)
    ensures key.Up? ==> cursor == (if r == 0 then 0 else r - 1, c)
    ensures key.Down? ==> cursor == (if r == 8 then 8 else r + 1, c)
    ensures key.Left? ==> cursor == (r, if c == 0 then 0 else c - 1)
    ensures key.Right? ==> cursor == (r, if c == 8 then 8 else c + 1)
    ensures !(key.Up? || key.Down? || key.Left? || key.Right?) ==> cursor == (r, c)
  {
    match key
    case Up => (if r - 1 < 0 then 0 else r - 1, c)
    case Down => (if r + 1 > 8 then 8 else r + 1, c)
    case Left => (r, if c - 1 < 0 then 0 else c - 1)
    case Right => (r, if c + 1 > 8 then 8 else c + 1)
    case _ => (r, c)
  }

  /** The board after a key with the cursor on (r, c): a digit key goes
      through `Enter`, Delete and Backspace empty the cell, and every other
      key leaves the board alone. */
  function Edit(b: Board, r: int, c: int, key: Key): (b': Board)
    requires IsBoard(b) && InGrid(r, c)
    ensures IsBoard(b')
    ensures forall i, j | InGrid(i, j) && (i != r || j != c) :: b'[i][j] == b[i][j]
    ensures key.Digit? && 1 <= key.k <= 9 ==> b' == Enter(b, r, c, key.k)
    ensures (key.Delete? || key.Backspace?) ==> b'[r][c] == 0
    ensures !(key.Digit? && 1 <= key.k <= 9) && !key.Delete? && !key.Backspace? ==> b' == b
  {
    match key
    case Digit(k) => if 1 <= k <= 9 then Enter(b, r, c, k) else b
    case Delete => SetCell(b, r, c, 0)
    case Backspace => SetCell(b, r, c, 0)
    case _ => b
  }

  /** One key press. */
  function Step(s: Game, key: Key): (t: Game)
    requires IsGame(s)
    ensures IsGame(t)
    // only the cell under the cursor can change
    ensures forall i, j | InGrid(i, j) && (i != s.row || j != s.col) :: t.board[i][j] == s.board[i][j]
    // the cursor moves only on an arrow key
    ensures (key.Up? || key.Down? || key.Left? || key.Right?) || (t.row == s.row && t.col == s.col)
    // an arrow moves one coordinate one cell, and stops at the edge
    ensures key.Up? ==> t.row == (if s.row == 0 then 0 else s.row - 1) && t.col == s.col
    ensures key.Down? ==> t.row == (if s.row == 8 then 8 else s.row + 1) && t.col == s.col
    ensures key.Left? ==> t.col == (if s.col == 0 then 0 else s.col - 1) && t.row == s.row
    ensures key.Right? ==> t.col == (if s.col == 8 then 8 else s.col + 1) && t.row == s.row
    ensures key.Digit? && 1 <= key.k <= 9 ==> t.board == Enter(s.board, s.row, s.col, key.k)
    ensures (key.Delete? || key.Backspace?) ==> t.board[s.row][s.col] == 0
    ensures !(key.Digit? && 1 <= key.k <= 9) && !key.Delete? && !key.Backspace? ==> t.board == s.board
  {
    var cursor := Move(s.row, s.col, key);
    Game(Edit(s.board, s.row, s.col, key), cursor.0, cursor.1)
  }

  /** The game after a session of key presses, in order. */
  function Run(s: Game, keys: seq<Key>): (t: Game)
    requires IsGame(s)
    ensures IsGame(t)
    // a session of arrow keys only never changes the board
    ensures (forall n | 0 <= n < |keys| :: keys[n].Up? || keys[n].Down? || keys[n].Left? || keys[n].Right?)
              ==> t.board == s.board
    decreases |keys|
  {
    if keys == [] then s else Run(Step(s, keys[0]), keys[1..])
  }

  /** The congratulation test after each key: `is_complete` on the board. */
  function Won(s: Game): (won: bool)
    requires IsGame(s)
    ensures won <==> NoZeros(s.board)
  {
    IsComplete(s.board)
  }

  /** One key press in the event loop, on the board in place: the cursor is
      moved or the cell under it written as `Step` says, and the result of
      the `is_complete` test that follows is returned. */
  method HandleKey(board: array2<int>, row: int, col: int, key: Key) returns (row': int, col': int, won: bool)
    requires board.Length0 == 9 && board.Length1 == 9 && InGrid(row, col)
    modifies board
    ensures Game(Snapshot(board), row', col') == Step(Game(old(Snapshot(board)), row, col), key)
    ensures won == Won(Game(Snapshot(board), row', col'))
  {
    ghost var b := Snapshot(board);
    row', col' := row, col;
    match key {
      case Up => row' := if row - 1 < 0 then 0 else row - 1;
      case Down => row' := if row + 1 > 8 then 8 else row + 1;
      case Left => col' := if col - 1 < 0 then 0 else col - 1;
      case Right => col' := if col + 1 > 8 then 8 else col + 1;
      case Digit(k) =>
        if 1 <= k <= 9 && IsValid(k, row, col, Snapshot(board)) {
          board[row, col] := k;
          SameCells(Snapshot(board), SetCell(b, row, col, k));
        }
      case Delete =>
        board[row, col] := 0;
        SameCells(Snapshot(board), SetCell(b, row, col, 0));
      case Backspace =>
        board[row, col] := 0;
        SameCells(Snapshot(board), SetCell(b, row, col, 0));
      case Other =>
    }
    won := IsComplete(Snapshot(board));
  }

  /** The game after each prefix of a session: one more key is one more step. */
  lemma {:induction false} RunOneMore(s: Game, keys: seq<Key>, n: int)
    requires IsGame(s) && 0 <= n < |keys|
    ensures Run(s, keys[..n + 1]) == Step(Run(s, keys[..n]), keys[n])
    decreases n
  {
    if n > 0 {
      assert keys[..n + 1][1..] == keys[1..][..n] && keys[..n][1..] == keys[1..][..n - 1];
      RunOneMore(Step(s, keys[0]), keys[1..], n - 1);
    }
  }

  /** The congratulation was shown after one of the first i keys. */
  function Shown(s: Game, keys: seq<Key>, i: int): (shown: bool)
    requires IsGame(s) && 0 <= i <= |keys|
    ensures shown <==> exists n | 1 <= n <= i :: Won(Run(s, keys[..n]))
  {
    i > 0 && (Shown(s, keys, i - 1) || Won(Run(s, keys[..i])))
  }

  /** `main` from the start of the event loop: the cursor starts in the
      top-left corner and the keys are handled in order. `won` tells whether
      the congratulation was shown after some key. */
  method PlayKeys(board: array2<int>, keys: seq<Key>) returns (row: int, col: int, won: bool)
    requires board.Length0 == 9 && board.Length1 == 9
    modifies board
    ensures Game(Snapshot(board), row, col) == Run(Start(old(Snapshot(board))), keys)
    ensures won == Shown(Start(old(Snapshot(board))), keys, |keys|)
  {
    ghost var s0 := Start(Snapshot(board));
    row, col, won := 0, 0, false;
    var i := 0;
    while i < |keys|
      invariant 0 <= i <= |keys|
      invariant Game(Snapshot(board), row, col) == Run(s0, keys[..i])
      invariant won == Shown(s0, keys, i)
    {
      var complete;
      RunOneMore(s0, keys, i);
      row, col, complete := HandleKey(board, row, col, keys[i]);
      won := won || complete;
      i := i + 1;
    }
    assert keys[..i] == keys;
  }

  // ---------------------------------------------------------------------
  // Lemmas

  /** No key press can make a consistent board of digits inconsistent:
      digits are only written where `is_valid` allows them, and emptying a
      cell removes a constraint. */
  lemma StepKeepsConsistent(s: Game, key: Key)
    requires IsGame(s) && Consistent(s.board) && Digits(s.board)
    ensures Consistent(Step(s, key).board) && Digits(Step(s, key).board)
  {
    var t := Step(s, key);
    var b, r, c := s.board, s.row, s.col;
    if key.Digit? && 1 <= key.k <= 9 && t.board != b {
      var k := key.k;
      forall i, j | InGrid(i, j) && t.board[i][j] != 0 ensures NoPeerHolds(t.board, i, j, t.board[i][j]) {
        forall p, q | Peer(i, j, p, q) ensures t.board[p][q] != t.board[i][j] {
          if i == r && j == c {
          } else if p == r && q == c {
            assert Peer(r, c, i, j);
          } else {
            assert NoPeerHolds(b, i, j, b[i][j]);
          }
        }
      }
    } else if key.Delete? || key.Backspace? {
      forall i, j | InGrid(i, j) && t.board[i][j] != 0 ensures NoPeerHolds(t.board, i, j, t.board[i][j]) {
        assert NoPeerHolds(b, i, j, b[i][j]);
      }
    }
  }

  /** A whole session keeps the board consistent. */
  lemma {:induction false} RunKeepsConsistent(s: Game, keys: seq<Key>)
    requires IsGame(s) && Consistent(s.board) && Digits(s.board)
    ensures Consistent(Run(s, keys).board) && Digits(Run(s, keys).board)
    decreases |keys|
  {
    if keys != [] {
      StepKeepsConsistent(s, keys[0]);
      RunKeepsConsistent(Step(s, keys[0]), keys[1..]);
    }
  }

  /** The congratulation is deserved: starting from a consistent puzzle,
      whenever `is_complete` accepts the board the grid is solved (every
      row, column and block a permutation of 1..9). */
  lemma WinMeansSolved(s: Game, keys: seq<Key>)
    requires IsGame(s) && Consistent(s.board) && Digits(s.board)
    requires Won(Run(s, keys))
    ensures Solved(Run(s, keys).board)
  {
    RunKeepsConsistent(s, keys);
    ConsistentFullIsSolved(Run(s, keys).board);
  }

  /** Typing the digit already in the cell is refused (the cell itself is
      in the row `is_valid` scans) and leaves the board as it was. */
  lemma SameDigitRefused(s: Game, k: int)
    requires IsGame(s) && 1 <= k <= 9 && s.board[s.row][s.col] == k
    ensures !IsValid(k, s.row, s.col, s.board)
    ensures Step(s, Digit(k)) == s
  {
    assert s.board[s.row][s.col] in s.board[s.row];
  }

  /** The row [1..8, 0] over an otherwise empty grid: 9 may go into its
      last cell, 1 may not. */
  lemma LastCellOfRow()
    ensures var b := [[1, 2, 3, 4, 5, 6, 7, 8, 0]] + seq(8, _ => seq(9, _ => 0));
            IsBoard(b) && IsValid(9, 0, 8, b) && !IsValid(1, 0, 8, b)
  {
    var b := [[1, 2, 3, 4, 5, 6, 7, 8, 0]] + seq(8, _ => seq(9, _ => 0));
    assert b[0][0] == 1;
    forall i, j | InGrid(i, j) && SameUnit(0, 8, i, j) ensures b[i][j] != 9 {
      if i == 0 {
        assert b[0][j] == [1, 2, 3, 4, 5, 6, 7, 8, 0][j];
      }
    }
  }

  /** Starting from a consistent puzzle, whenever the congratulation has
      been shown the board was solved at that moment. */
  lemma {:induction false} ShownMeansSolved(s: Game, keys: seq<Key>, i: int)
    requires IsGame(s) && Consistent(s.board) && Digits(s.board) && 0 <= i <= |keys|
    requires Shown(s, keys, i)
    ensures exists n | 1 <= n <= i :: Solved(Run(s, keys[..n]).board)
    decreases i
  {
    if Won(Run(s, keys[..i])) {
      WinMeansSolved(s, keys[..i]);
    } else {
      ShownMeansSolved(s, keys, i - 1);
      var n :| 1 <= n <= i - 1 && Solved(Run(s, keys[..n]).board);
    }
  }
}
