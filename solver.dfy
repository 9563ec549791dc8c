/** `has_unique_solution`: a backtracking search on a private copy of the
    board. Despite its name it only decides whether the board CAN be filled:
    it returns true at the first completion it reaches. Here it is a pure
    function (the copy never escapes), and its meaning is proved: it holds
    exactly when the board has a legal completion. */
module Solver {
  import opened Grid

  /** Every filled cell of b keeps its value in g. */
  ghost predicate Extends(b: Board, g: Board)
    requires IsBoard(b) && IsBoard(g)
  {
    forall r, c | InGrid(r, c) && b[r][c] != 0 :: g[r][c] == b[r][c]
  }

  /** Every cell empty in b and filled in g holds a digit that none of its
      peers in g holds. */
  ghost predicate NewCellsLegal(b: Board, g: Board)
    requires IsBoard(b) && IsBoard(g)
  {
    forall r, c | InGrid(r, c) && b[r][c] == 0 && g[r][c] != 0 ::
      1 <= g[r][c] <= 9 && NoPeerHolds(g, r, c, g[r][c])
  }

  /** g fills every empty cell of b with digits that `is_valid` placements
      could have put there, and leaves every filled cell of b alone. The
      filled cells of b themselves are not checked against each other. */
  ghost predicate IsLegalCompletion(b: Board, g: Board) {
    && IsBoard(b) && IsBoard(g)
    && NoZeros(g)
    && Extends(b, g)
    && NewCellsLegal(b, g)
  }

  /** `has_unique_solution`: find the first empty cell; none means true;
      otherwise try 1..9 there in order. */
  function HasUniqueSolution(b: Board): (ok: bool)
    requires IsBoard(b)
    // a board with no empty cell is accepted, whatever its cells hold
    ensures NoZeros(b) ==> ok
    decreases |Zeros(b)|, 1
  {
    match FindEmptyCell(b)
    case None => true
    case Some((row, col)) => TryDigits(b, row, col, 1)
  }

  /** The loop `for num in range(1, 10)` of `has_unique_solution`, from num on. */
  function TryDigits(b: Board, row: int, col: int, num: int): (ok: bool)
    requires IsBoard(b) && InGrid(row, col) && b[row][col] == 0 && 1 <= num <= 10
    // success needs a digit from num on that `is_valid` accepts
    ensures ok ==> exists d | num <= d <= 9 :: IsValid(d, row, col, b)
    decreases |Zeros(b)|, 0, 10 - num
  {
    if num == 10 then false
    else if IsValid(num, row, col, b) && (ZerosAfterWrite(b, row, col, num);
                                          HasUniqueSolution(SetCell(b, row, col, num)))
    then true
    else TryDigits(b, row, col, num + 1)
  }

  // ---------------------------------------------------------------------
  // Lemmas

  /** Digit d passes `is_valid` at (row, col) and leaves a solvable board. */
  ghost predicate Leads(b: Board, row: int, col: int, d: int)
    requires IsBoard(b) && InGrid(row, col) && b[row][col] == 0 && 1 <= d <= 9
  {
    IsValid(d, row, col, b) && HasUniqueSolution(SetCell(b, row, col, d))
  }

  /** The digit loop succeeds exactly when some digit from num on passes
      `is_valid` and leads to a solvable board. */
  lemma {:induction false} TryDigitsFinds(b: Board, row: int, col: int, num: int)
    requires IsBoard(b) && InGrid(row, col) && b[row][col] == 0 && 1 <= num <= 10
    ensures TryDigits(b, row, col, num) <==> exists d | num <= d <= 9 :: Leads(b, row, col, d)
    decreases 10 - num
  {
    if num < 10 {
      TryDigitsFinds(b, row, col, num + 1);
      assert TryDigits(b, row, col, num) == (Leads(b, row, col, num) || TryDigits(b, row, col, num + 1));
      if exists d | num <= d <= 9 :: Leads(b, row, col, d) {
        var d :| num <= d <= 9 && Leads(b, row, col, d);
        assert d == num || num + 1 <= d <= 9;
      }
    }
  }

  /** One step of the search: a board with a first empty cell is solvable
      exactly when some digit passes `is_valid` there and leaves a solvable
      board. */
  lemma SolvableStep(b: Board, row: int, col: int)
    requires IsBoard(b) && FindEmptyCell(b) == Some((row, col))
    ensures HasUniqueSolution(b) <==> exists d | 1 <= d <= 9 :: Leads(b, row, col, d)
  {
    TryDigitsFinds(b, row, col, 1);
  }

  /** Placing a digit that `is_valid` accepts in an empty cell, then
      completing legally, is a legal completion of the board before the
      placement. */
  lemma PlaceThenComplete(b: Board, row: int, col: int, num: int, g: Board)
    requires IsBoard(b) && InGrid(row, col) && b[row][col] == 0 && 1 <= num <= 9
    requires IsValid(num, row, col, b)
    requires IsLegalCompletion(SetCell(b, row, col, num), g)
    ensures IsLegalCompletion(b, g)
  {
    var b1 := SetCell(b, row, col, num);
    assert g[row][col] == num;
    forall i, j | Peer(row, col, i, j) ensures g[i][j] != num {
      if b1[i][j] == 0 {
        assert Peer(i, j, row, col);
      }
    }
  }

  /** A legal completion of b, seen after one of its digits has been placed
      in an empty cell of b, is a legal completion of the new board. */
  lemma CompleteAfterPlace(b: Board, row: int, col: int, g: Board)
    requires IsLegalCompletion(b, g) && InGrid(row, col) && b[row][col] == 0
    ensures IsLegalCompletion(SetCell(b, row, col, g[row][col]), g)
  {
  }

  /** If the search succeeds, the board has a legal completion. */
  lemma {:induction false} SolvableHasCompletion(b: Board)
    requires IsBoard(b) && HasUniqueSolution(b)
    ensures exists g :: IsLegalCompletion(b, g)
    decreases |Zeros(b)|
  {
    match FindEmptyCell(b)
    case None =>
      assert IsLegalCompletion(b, b);
    case Some((row, col)) =>
      SolvableStep(b, row, col);
      var d :| 1 <= d <= 9 && Leads(b, row, col, d);
      ZerosAfterWrite(b, row, col, d);
      SolvableHasCompletion(SetCell(b, row, col, d));
      var g :| IsLegalCompletion(SetCell(b, row, col, d), g);
      PlaceThenComplete(b, row, col, d, g);
  }

  /** If the board has a legal completion, the search succeeds: at each
      first empty cell, the completion's own digit passes `is_valid`. */
  lemma {:induction false} CompletionMakesSolvable(b: Board, g: Board)
    requires IsLegalCompletion(b, g)
    ensures HasUniqueSolution(b)
    decreases |Zeros(b)|
  {
    match FindEmptyCell(b)
    case None =>
    case Some((row, col)) =>
      var d := g[row][col];
      forall i, j | InGrid(i, j) && SameUnit(row, col, i, j) ensures b[i][j] != d {
        if i != row || j != col {
          assert Peer(row, col, i, j);
        }
      }
      CompleteAfterPlace(b, row, col, g);
      ZerosAfterWrite(b, row, col, d);
      CompletionMakesSolvable(SetCell(b, row, col, d), g);
      assert Leads(b, row, col, d);
      SolvableStep(b, row, col);
  }

  /** `has_unique_solution` decides solvability, not uniqueness: it holds
      exactly when the board has a legal completion. */
  lemma SolvableIffCompletion(b: Board)
    requires IsBoard(b)
    ensures HasUniqueSolution(b) <==> exists g :: IsLegalCompletion(b, g)
  {
    if HasUniqueSolution(b) {
      SolvableHasCompletion(b);
    }
    if g :| IsLegalCompletion(b, g) {
      CompletionMakesSolvable(b, g);
    }
  }

  /** A legal completion of the empty board is a solved Sudoku. */
  lemma CompletionOfEmptyIsSolved(g: Board)
    requires IsLegalCompletion(EmptyBoard(), g)
    ensures Solved(g) && Consistent(g) && Digits(g)
  {
    ConsistentFullIsSolved(g);
  }

  /** The search never looks at the filled cells it is given: a full
      board of ones, which breaks every rule, is accepted. */
  lemma FilledCellsNotChecked()
    ensures var ones := seq(9, _ => seq(9, _ => 1));
            IsBoard(ones) && HasUniqueSolution(ones) && !Consistent(ones)
  {
    var ones := seq(9, _ => seq(9, _ => 1));
    assert Peer(0, 0, 0, 1) && ones[0][1] == 1;
    assert FindEmptyCell(ones) == None;
  }

  /** A solved grid: row r is the digits 1..9 shifted by 3 * (r % 3) + r / 3. */
  function Pattern(): (g: Board)
    ensures IsBoard(g)
  {
    seq(9, r => seq(9, c => (3 * (r % 3) + r / 3 + c) % 9 + 1))
  }

  /** Numbers less than 9 apart are equal exactly when they are equal
      modulo 9. */
  lemma ModNine(x: int, y: int)
    requires -9 < x - y < 9
    ensures x % 9 == y % 9 <==> x == y
  {
    assert x - y == 9 * (x / 9 - y / 9) + (x % 9 - y % 9);
  }

  /** Two peers never hold the same digit of the pattern. */
  lemma PatternPeersDiffer(r: int, c: int, i: int, j: int)
    requires InGrid(r, c) && Peer(r, c, i, j)
    ensures Pattern()[r][c] != Pattern()[i][j]
  {
    var x, y := 3 * (r % 3) + r / 3 + c, 3 * (i % 3) + i / 3 + j;
    assert Pattern()[r][c] == x % 9 + 1 && Pattern()[i][j] == y % 9 + 1;
    assert r == 3 * (r / 3) + r % 3 && 0 <= r / 3 < 3;
    assert i == 3 * (i / 3) + i % 3 && 0 <= i / 3 < 3;
    assert c == 3 * (c / 3) + c % 3 && j == 3 * (j / 3) + j % 3;
    ModNine(x, y);
  }

  /** The pattern is a legal completion of the empty board. */
  lemma PatternCompletesEmpty()
    ensures IsLegalCompletion(EmptyBoard(), Pattern())
  {
    var g := Pattern();
    forall r, c | InGrid(r, c) ensures 1 <= g[r][c] <= 9 && NoPeerHolds(g, r, c, g[r][c]) {
      forall i, j | Peer(r, c, i, j) ensures g[i][j] != g[r][c] {
        PatternPeersDiffer(r, c, i, j);
      }
    }
  }

  /** The pattern with digits 1 and 2 exchanged. */
  function SwappedPattern(): (g: Board)
    ensures IsBoard(g)
  {
    seq(9, r => seq(9, c => var v := (3 * (r % 3) + r / 3 + c) % 9 + 1;
                            if v == 1 then 2 else if v == 2 then 1 else v))
  }

  /** Exchanging two digits of a legal completion of the empty board
      gives another one. */
  lemma SwappedPatternCompletesEmpty()
    ensures IsLegalCompletion(EmptyBoard(), SwappedPattern())
  {
    var g, h := Pattern(), SwappedPattern();
    forall r, c | InGrid(r, c) ensures 1 <= h[r][c] <= 9 && NoPeerHolds(h, r, c, h[r][c]) {
      assert h[r][c] == if g[r][c] == 1 then 2 else if g[r][c] == 2 then 1 else g[r][c];
      forall i, j | Peer(r, c, i, j) ensures h[i][j] != h[r][c] {
        PatternPeersDiffer(r, c, i, j);
        assert h[i][j] == if g[i][j] == 1 then 2 else if g[i][j] == 2 then 1 else g[i][j];
      }
    }
  }

  /** The empty board is solvable, so `fill_board` fills it whatever the
      order of the candidates; and it has two different solutions, so
      `has_unique_solution` holding does not mean the solution is unique. */
  lemma EmptyBoardSolvableNotUnique()
    ensures HasUniqueSolution(EmptyBoard())
    ensures exists g1, g2 :: g1 != g2 && IsLegalCompletion(EmptyBoard(), g1) && IsLegalCompletion(EmptyBoard(), g2)
  {
    PatternCompletesEmpty();
    SwappedPatternCompletesEmpty();
    CompletionMakesSolvable(EmptyBoard(), Pattern());
    assert Pattern()[0][0] == 1 && SwappedPattern()[0][0] == 2;
  }
}
