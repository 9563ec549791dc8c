/** `main` as a whole: generate an "easy" puzzle, then handle the keys with
    the cursor starting in the top-left corner. */
module Session {
  import opened Grid
  import opened Solver
  import opened Generator
  import opened Play

  /** `main`. `orders` and `picks` stand for the random draws of
      `generate_puzzle`, `keys` for the key presses. The game is played on
      the "easy" puzzle carved from a filled grid; the congratulation is
      only ever shown on a solved grid. */
  method PlayGenerated(orders: nat -> seq<int>, picks: seq<(int, int)>, keys: seq<Key>)
    returns (won: bool, ghost puzzle: Board, ghost solution: Board, ghost remaining: nat)
    requires forall n: nat :: IsDigitPerm(orders(n))
    requires PicksInGrid(picks)
    ensures IsLegalCompletion(EmptyBoard(), solution) && Solved(solution)
    ensures (puzzle, remaining) == Carve(solution, RemoveCount("easy"), picks)
    ensures IsBoard(puzzle) && Consistent(puzzle) && Digits(puzzle)
    ensures won == Shown(Start(puzzle), keys, |keys|)
    ensures won ==> exists n | 1 <= n <= |keys| :: Solved(Run(Start(puzzle), keys[..n]).board)
  {
    var board, left, filled := GeneratePuzzle([], "easy", orders, picks);
    solution, remaining := filled, left;
    puzzle := Snapshot(board);
    var _, _, shown := PlayKeys(board, keys);
    won := shown;
    if won {
      ShownMeansSolved(Start(puzzle), keys, |keys|);
    }
  }
}
