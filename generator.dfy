/** `generate_puzzle`: pick a removal count from the difficulty, fill a
    fresh empty board with `fill_board`, copy it row by row, and zero
    randomly picked cells of the copy until the count is used up. The
    random cell picks become an input sequence; the carving loop stops
    early if that sequence runs out (see README). */
module Generator {
  import opened Grid
  import opened Solver
  import opened Filler

  /** The number of cells to empty for a difficulty level. */
  function RemoveCount(difficulty: string): (n: nat)
    ensures difficulty == "easy" ==> n == 40
    ensures difficulty == "medium" ==> n == 50
    ensures difficulty != "easy" && difficulty != "medium" ==> n == 60
  {
    if difficulty == "easy" then 40
    else if difficulty == "medium" then 50
    else 60
  }

  predicate PicksInGrid(picks: seq<(int, int)>) {
    forall k | 0 <= k < |picks| :: InGrid(picks[k].0, picks[k].1)
  }

  /** The carving loop as a function: the board after consuming `picks`
      with `count` cells still to empty, and the count left when the loop
      stops (0, or more if the picks ran out first). */
  function Carve(b: Board, count: nat, picks: seq<(int, int)>): (r: (Board, nat))
    requires IsBoard(b) && PicksInGrid(picks)
    ensures IsBoard(r.0) && r.1 <= count
    decreases |picks|
  {
    if count == 0 || picks == [] then (b, count)
    else
      var row, col := picks[0].0, picks[0].1;
      if b[row][col] != 0 then Carve(SetCell(b, row, col, 0), count - 1, picks[1..])
      else Carve(b, count, picks[1..])
  }

  /** What carving does: it only empties cells, it empties exactly as many
      cells as it counted down, and it never counts down more than there
      were picks or than it was asked to. */
  lemma {:induction false} CarveEmptiesCells(b: Board, count: nat, picks: seq<(int, int)>)
    requires IsBoard(b) && PicksInGrid(picks)
    ensures count - Carve(b, count, picks).1 <= |picks|
    ensures forall r, c | InGrid(r, c) ::
              Carve(b, count, picks).0[r][c] == 0 || Carve(b, count, picks).0[r][c] == b[r][c]
    ensures Zeros(b) <= Zeros(Carve(b, count, picks).0)
    ensures |Zeros(Carve(b, count, picks).0)| == |Zeros(b)| + (count - Carve(b, count, picks).1)
    decreases |picks|
  {
    if count == 0 || picks == [] {
    } else {
      var row, col := picks[0].0, picks[0].1;
      if b[row][col] != 0 {
        var b' := SetCell(b, row, col, 0);
        ZerosAfterWrite(b, row, col, 0);
        CarveEmptiesCells(b', count - 1, picks[1..]);
      } else {
        CarveEmptiesCells(b, count, picks[1..]);
      }
    }
  }

  /** Carving empties only cells that were picked. */
  lemma {:induction false} CarveOnlyPicked(b: Board, count: nat, picks: seq<(int, int)>)
    requires IsBoard(b) && PicksInGrid(picks)
    ensures forall r, c | InGrid(r, c) && Carve(b, count, picks).0[r][c] != b[r][c] :: (r, c) in picks
    decreases |picks|
  {
    if count == 0 || picks == [] {
    } else {
      var row, col := picks[0].0, picks[0].1;
      assert forall q | q in picks[1..] :: q in picks;
      if b[row][col] != 0 {
        CarveOnlyPicked(SetCell(b, row, col, 0), count - 1, picks[1..]);
      } else {
        CarveOnlyPicked(b, count, picks[1..]);
      }
    }
  }

  /** The distinct picked positions that are filled in b. */
  ghost function FilledPicks(b: Board, picks: seq<(int, int)>): set<(int, int)>
    requires IsBoard(b)
  {
    set p | p in picks && InGrid(p.0, p.1) && b[p.0][p.1] != 0
  }

  lemma SubsetCard(a: set<(int, int)>, b: set<(int, int)>)
    requires a <= b
    ensures |a| <= |b|
  {
    assert b == a + (b - a);
  }

  /** Every distinct filled cell the picks hit is emptied until the count
      is used up: the loop stops with the count used up as soon as the
      picks have hit as many distinct filled cells as it has to empty. */
  lemma {:induction false} CarveFinishes(b: Board, count: nat, picks: seq<(int, int)>)
    requires IsBoard(b) && PicksInGrid(picks)
    ensures Carve(b, count, picks).1
              <= if |FilledPicks(b, picks)| >= count then 0 else count - |FilledPicks(b, picks)|
    decreases |picks|
  {
    if count == 0 {
    } else if picks == [] {
      assert FilledPicks(b, picks) == {};
    } else {
      var p := picks[0];
      var rest := picks[1..];
      assert forall q | q in picks && q != p :: q in rest;
      if b[p.0][p.1] != 0 {
        var b' := SetCell(b, p.0, p.1, 0);
        assert FilledPicks(b, picks) - {p} <= FilledPicks(b', rest);
        SubsetCard(FilledPicks(b, picks) - {p}, FilledPicks(b', rest));
        CarveFinishes(b', count - 1, rest);
      } else {
        assert FilledPicks(b, picks) <= FilledPicks(b, rest);
        SubsetCard(FilledPicks(b, picks), FilledPicks(b, rest));
        CarveFinishes(b, count, rest);
      }
    }
  }

  /** The distinct positions among the picks. */
  ghost function DistinctPicks(picks: seq<(int, int)>): set<(int, int)> {
    set p | p in picks
  }

  /** Carving a full board uses up its count once the picks hold as many
      distinct positions. */
  lemma FullBoardCarveFinishes(b: Board, count: nat, picks: seq<(int, int)>)
    requires IsBoard(b) && NoZeros(b) && PicksInGrid(picks)
    requires |DistinctPicks(picks)| >= count
    ensures Carve(b, count, picks).1 == 0
  {
    assert FilledPicks(b, picks) == DistinctPicks(picks);
    CarveFinishes(b, count, picks);
  }

  /** A puzzle obtained by emptying cells of a legal completion of the empty
      board is consistent, and that completion is a legal completion of the
      puzzle, so `has_unique_solution` accepts it. */
  lemma CarvedPuzzleSolvable(solution: Board, puzzle: Board)
    requires IsLegalCompletion(EmptyBoard(), solution) && IsBoard(puzzle)
    requires forall r, c | InGrid(r, c) :: puzzle[r][c] == 0 || puzzle[r][c] == solution[r][c]
    ensures IsLegalCompletion(puzzle, solution)
    ensures HasUniqueSolution(puzzle)
    ensures Consistent(puzzle) && Digits(puzzle)
  {
    CompletionMakesSolvable(puzzle, solution);
  }

  /** A full board has no empty cell to count. */
  lemma FullHasNoZeros(b: Board)
    requires IsBoard(b) && NoZeros(b)
    ensures |Zeros(b)| == 0
  {
    assert Zeros(b) == {};
  }

  /** The carving loop of `generate_puzzle`: while cells remain to be
      emptied, take the next pick and empty it if it is filled. */
  method CarveInPlace(puzzle: array2<int>, count: nat, picks: seq<(int, int)>) returns (remaining: nat)
    requires puzzle.Length0 == 9 && puzzle.Length1 == 9 && PicksInGrid(picks)
    modifies puzzle
    ensures (Snapshot(puzzle), remaining) == Carve(old(Snapshot(puzzle)), count, picks)
  {
    ghost var start := Snapshot(puzzle);
    remaining := count;
    var i := 0;
    while remaining > 0 && i < |picks|
      invariant 0 <= i <= |picks|
      invariant Carve(Snapshot(puzzle), remaining, picks[i..]) == Carve(start, count, picks)
    {
      ghost var before := Snapshot(puzzle);
      var row, col := picks[i].0, picks[i].1;
      var left := EmptyIfFilled(puzzle, row, col, remaining);
      CarveOne(before, remaining, picks, i, Snapshot(puzzle), left);
      remaining, i := left, i + 1;
    }
    CarveDone(Snapshot(puzzle), remaining, picks, i);
  }

  /** The body of the carving loop: empty the picked cell if it is filled,
      and count it. */
  method EmptyIfFilled(puzzle: array2<int>, row: int, col: int, count: nat) returns (remaining: nat)
    requires puzzle.Length0 == 9 && puzzle.Length1 == 9 && InGrid(row, col) && count > 0
    modifies puzzle
    ensures old(puzzle[row, col]) != 0 ==>
              Snapshot(puzzle) == SetCell(old(Snapshot(puzzle)), row, col, 0) && remaining == count - 1
    ensures old(puzzle[row, col]) == 0 ==> Snapshot(puzzle) == old(Snapshot(puzzle)) && remaining == count
  {
    ghost var before := Snapshot(puzzle);
    remaining := count;
    if puzzle[row, col] != 0 {
      puzzle[row, col] := 0;
      remaining := remaining - 1;
      SameCells(Snapshot(puzzle), SetCell(before, row, col, 0));
    }
  }

  /** One turn of the carving loop leaves the rest of the carving as it was. */
  lemma CarveOne(b: Board, count: nat, picks: seq<(int, int)>, i: int, b': Board, count': nat)
    requires IsBoard(b) && PicksInGrid(picks) && count > 0 && 0 <= i < |picks|
    requires b[picks[i].0][picks[i].1] != 0 ==>
               b' == SetCell(b, picks[i].0, picks[i].1, 0) && count' == count - 1
    requires b[picks[i].0][picks[i].1] == 0 ==> b' == b && count' == count
    ensures IsBoard(b')
    ensures Carve(b', count', picks[i + 1..]) == Carve(b, count, picks[i..])
  {
    assert picks[i..][0] == picks[i] && picks[i..][1..] == picks[i + 1..];
  }

  /** The carving loop has stopped: nothing is left to carve. */
  lemma CarveDone(b: Board, count: nat, picks: seq<(int, int)>, i: int)
    requires IsBoard(b) && PicksInGrid(picks) && 0 <= i <= |picks|
    requires count == 0 || i == |picks|
    ensures Carve(b, count, picks[i..]) == (b, count)
  {
    assert count == 0 || picks[i..] == [];
  }

  /** What the puzzle carved from a filled board is: it keeps only cells of
      the filled board, as many cells are empty as were counted down, and
      the filled board is a legal completion of it, so it is consistent and
      `has_unique_solution` accepts it. */
  lemma CarvedFromFilled(solution: Board, count: nat, picks: seq<(int, int)>)
    requires PicksInGrid(picks) && IsLegalCompletion(EmptyBoard(), solution)
    ensures forall r, c | InGrid(r, c) ::
              Carve(solution, count, picks).0[r][c] == 0 || Carve(solution, count, picks).0[r][c] == solution[r][c]
    ensures |Zeros(Carve(solution, count, picks).0)| == count - Carve(solution, count, picks).1
    ensures IsLegalCompletion(Carve(solution, count, picks).0, solution)
    ensures Consistent(Carve(solution, count, picks).0) && Digits(Carve(solution, count, picks).0)
    ensures HasUniqueSolution(Carve(solution, count, picks).0)
  {
    CarveEmptiesCells(solution, count, picks);
    FullHasNoZeros(solution);
    CarvedPuzzleSolvable(solution, Carve(solution, count, picks).0);
  }

  /** `generate_board` followed by `fill_board`, whose result is ignored:
      the fill always succeeds, because the empty board is solvable, and
      leaves a solved grid. */
  method NewFilledBoard(orders: nat -> seq<int>) returns (grid: array2<int>, ghost solution: Board)
    requires forall n: nat :: IsDigitPerm(orders(n))
    ensures fresh(grid) && grid.Length0 == 9 && grid.Length1 == 9
    ensures Snapshot(grid) == solution
    ensures IsLegalCompletion(EmptyBoard(), solution) && Solved(solution)
  {
    grid := new int[9, 9]((r, c) => 0);
    SameCells(Snapshot(grid), EmptyBoard());
    EmptyBoardSolvableNotUnique();
    var _, _ := FillBoard(grid, orders, 0);
    solution := Snapshot(grid);
    CompletionOfEmptyIsSolved(solution);
  }

  /** The row-by-row copy of a board. */
  method CopyBoard(grid: array2<int>) returns (copy: array2<int>)
    requires grid.Length0 == 9 && grid.Length1 == 9
    ensures fresh(copy) && copy.Length0 == 9 && copy.Length1 == 9
    ensures Snapshot(copy) == Snapshot(grid)
  {
    copy := new int[9, 9]((r, c) reads grid requires 0 <= r < 9 && 0 <= c < 9 => grid[r, c]);
    SameCells(Snapshot(copy), Snapshot(grid));
  }

  /** `generate_puzzle`. `board` is ignored, as in the source. `orders` are
      the shuffles `fill_board` draws and `picks` the cells drawn by the
      carving loop. `solution` is the filled board, which is not returned.
      The result of `fill_board` is ignored, as in the source; the fill
      always succeeds, because the empty board is solvable. */
  method GeneratePuzzle(board: Board, difficulty: string, orders: nat -> seq<int>, picks: seq<(int, int)>)
    returns (puzzle: array2<int>, remaining: nat, ghost solution: Board)
    requires forall n: nat :: IsDigitPerm(orders(n))
    requires PicksInGrid(picks)
    ensures fresh(puzzle) && puzzle.Length0 == 9 && puzzle.Length1 == 9
    ensures IsLegalCompletion(EmptyBoard(), solution) && Solved(solution)
    ensures (Snapshot(puzzle), remaining) == Carve(solution, RemoveCount(difficulty), picks)
    ensures forall r, c | InGrid(r, c) :: puzzle[r, c] == 0 || puzzle[r, c] == solution[r][c]
    ensures |Zeros(Snapshot(puzzle))| == RemoveCount(difficulty) - remaining
    ensures |DistinctPicks(picks)| >= RemoveCount(difficulty) ==> remaining == 0
    ensures IsLegalCompletion(Snapshot(puzzle), solution)
    ensures Consistent(Snapshot(puzzle)) && Digits(Snapshot(puzzle))
    ensures HasUniqueSolution(Snapshot(puzzle))
  {
    var removeCount := RemoveCount(difficulty);
    var grid;
    grid, solution := NewFilledBoard(orders);
    puzzle := CopyBoard(grid);
    remaining := CarveInPlace(puzzle, removeCount, picks);
    CarvedFromFilled(solution, removeCount, picks);
    if |DistinctPicks(picks)| >= removeCount {
      FullBoardCarveFinishes(solution, removeCount, picks);
    }
  }
}
