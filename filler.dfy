/** `fill_board`: randomized backtracking that fills the empty cells of a
    board in place. The random shuffles of the candidate list become an
    input: `orders(n)` is the n-th shuffle drawn, an arbitrary permutation
    of 1..9, and every call that finds an empty cell draws the next one.
    Everything below holds for every choice of orders. */
module Filler {
  import opened Grid
  import opened Solver

  /** A digit that passed `is_valid` at the first empty cell and from which
      the rest was filled legally makes the entry board solvable, and the
      filled board a legal completion of it. */
  lemma PlacementSucceeded(start: Board, row: int, col: int, num: int, g: Board)
    requires IsBoard(start) && FindEmptyCell(start) == Some((row, col)) && 1 <= num <= 9
    requires IsValid(num, row, col, start)
    requires IsLegalCompletion(SetCell(start, row, col, num), g)
    ensures HasUniqueSolution(start) && IsLegalCompletion(start, g)
  {
    CompletionMakesSolvable(SetCell(start, row, col, num), g);
    assert Leads(start, row, col, num);
    SolvableStep(start, row, col);
    PlaceThenComplete(start, row, col, num, g);
  }

  /** When every candidate of a permutation of 1..9 has failed at the first
      empty cell, the entry board is not solvable. */
  lemma EveryCandidateFailed(start: Board, row: int, col: int, numbers: seq<int>)
    requires IsBoard(start) && FindEmptyCell(start) == Some((row, col)) && IsDigitPerm(numbers)
    requires forall k | 0 <= k < |numbers| :: !Leads(start, row, col, numbers[k])
    ensures !HasUniqueSolution(start)
  {
    forall d | 1 <= d <= 9 ensures !Leads(start, row, col, d) {
      assert d in numbers;
      var k :| 0 <= k < |numbers| && numbers[k] == d;
    }
    SolvableStep(start, row, col);
  }

  lemma OneMoreFailed(start: Board, row: int, col: int, numbers: seq<int>, i: int)
    requires IsBoard(start) && InGrid(row, col) && start[row][col] == 0
    requires 0 <= i < |numbers| && forall k | 0 <= k < |numbers| :: 1 <= numbers[k] <= 9
    requires forall k | 0 <= k < i :: !Leads(start, row, col, numbers[k])
    requires !Leads(start, row, col, numbers[i])
    ensures forall k | 0 <= k < i + 1 :: !Leads(start, row, col, numbers[k])
  {
  }

  /** `fill_board`. It succeeds exactly when `has_unique_solution` holds of
      the entry board (so the search is complete whatever the order of the
      candidates); on success the board is a legal completion of the entry
      board (entry cells kept, every written cell a digit that `is_valid`
      accepted); on failure every tentative write has been undone. */
  method FillBoard(board: array2<int>, orders: nat -> seq<int>, next: nat) returns (ok: bool, drawn: nat)
    requires board.Length0 == 9 && board.Length1 == 9
    requires forall n: nat :: IsDigitPerm(orders(n))
    modifies board
    ensures drawn >= next
    ensures ok == HasUniqueSolution(old(Snapshot(board)))
    ensures ok ==> IsLegalCompletion(old(Snapshot(board)), Snapshot(board))
    ensures !ok ==> Snapshot(board) == old(Snapshot(board))
    decreases |Zeros(Snapshot(board))|, 1
  {
    ghost var start := Snapshot(board);
    var cell := FindEmptyCell(Snapshot(board));
    if cell.None? {
      assert IsLegalCompletion(start, start);
      return true, next;
    }
    var row, col := cell.value.0, cell.value.1;
    var numbers := orders(next);
    drawn := next + 1;
    ok := false;
    var i := 0;
    while i < |numbers| && !ok
      invariant 0 <= i <= |numbers|
      invariant drawn > next
      invariant !ok ==> Snapshot(board) == start
      invariant !ok ==> forall k | 0 <= k < i :: !Leads(start, row, col, numbers[k])
      invariant ok ==> HasUniqueSolution(start) && IsLegalCompletion(start, Snapshot(board))
    {
      var num := numbers[i];
      if IsValid(num, row, col, Snapshot(board)) {
        ok, drawn := Attempt(board, orders, drawn, row, col, num, start);
      }
      if !ok {
        OneMoreFailed(start, row, col, numbers, i);
      }
      i := i + 1;
    }
    if !ok {
      EveryCandidateFailed(start, row, col, numbers);
    }
  }

  /** The body of the candidate loop of `fill_board` for one candidate that
      passed `is_valid` on the first empty cell of `start`: write it, fill
      the rest recursively, and reset the cell to 0 if that fails. */
  method Attempt(board: array2<int>, orders: nat -> seq<int>, next: nat, row: int, col: int, num: int,
                 ghost start: Board)
    returns (ok: bool, drawn: nat)
    requires board.Length0 == 9 && board.Length1 == 9
    requires forall n: nat :: IsDigitPerm(orders(n))
    requires Snapshot(board) == start && FindEmptyCell(start) == Some((row, col))
    requires 1 <= num <= 9 && IsValid(num, row, col, start)
    modifies board
    ensures drawn >= next
    ensures ok == Leads(start, row, col, num)
    ensures ok ==> HasUniqueSolution(start) && IsLegalCompletion(start, Snapshot(board))
    ensures !ok ==> Snapshot(board) == start
    decreases |Zeros(start)|, 0
  {
    board[row, col] := num;
    ghost var placed := SetCell(start, row, col, num);
    SameCells(Snapshot(board), placed);
    ZerosAfterWrite(start, row, col, num);
    ok, drawn := FillBoard(board, orders, next);
    assert ok == HasUniqueSolution(placed);
    if ok {
      PlacementSucceeded(start, row, col, num, Snapshot(board));
    } else {
      board[row, col] := 0;
      SameCells(Snapshot(board), start);
    }
  }
}
