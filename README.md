# Sudoku: a verified model of the generator, the solver and the key handling

This project models the core of a small Sudoku game (`main.py`) and proves what its
routines do. In the game, a board is a 9x9 list of lists where 0 stands for an empty cell.
The game does the following:

- It fills an empty board by randomized backtracking (`fill_board`).
- It empties 40, 50 or 60 random cells of that solution to make a puzzle (`generate_puzzle`).
- It lets the player move a cursor and type digits. A digit is accepted only when `is_valid`
  allows it.
- It congratulates the player when `is_complete` finds no empty cell.

The model has six modules:

- `Grid` (`grid.dfy`) holds the board as `seq<seq<int>>` and the pure routines
  `generate_board`, `is_valid`, `find_empty_cell` and `is_complete`. It also defines what a
  consistent board and a solved board are: every row, column and block a permutation of 1..9.
  `Snapshot` reads a 9x9 array as such a board, for the routines that work in place.
- `Solver` (`solver.dfy`) models `has_unique_solution` as a recursive pure function. Its
  deep copy never escapes, so a pure function is faithful. The module proves what the
  function decides. Despite its name, it decides solvability, not uniqueness: it holds exactly
  when the board has a legal completion. A concrete pair of different solutions of the empty
  board shows that it holds where the solution is not unique.
- `Filler` (`filler.dfy`) models `fill_board` as a recursive method over an `array2<int>`
  that writes and resets cells in place. Its random shuffles are an input: `orders(n)` is the
  n-th permutation of 1..9 drawn. The method is proved to succeed exactly when
  `has_unique_solution` holds of the board it starts from, whatever the orders. On success
  the board is a legal completion; on failure every write has been undone.
- `Generator` (`generator.dfy`) models `generate_puzzle`: the removal count, the fill of a
  fresh board, the row-by-row copy, and the carving loop. The random cell picks are an input
  sequence. The fill always succeeds, because the empty board is solvable. The carved puzzle
  keeps only cells of a solved grid, so it is consistent and solvable. When the picks hit
  enough distinct cells, exactly the requested number of cells is empty.
- `Play` (`play.dfy`) models the key handling of `main`. `Step` is the pure meaning of one
  key. `HandleKey` and `PlayKeys` do the same on the board in place. The module proves that no
  key sequence can make a consistent board inconsistent.
- `Session` (`session.dfy`) models `main` as a whole: an "easy" puzzle is generated and the
  keys are handled on it. When the congratulation appears, the grid really is solved.

Some behaviours of the source are kept as they are:

- The `board` argument of `generate_puzzle` is ignored.
- The comments next to the removal counts say 45 and 50, but the code uses 50 and 60. The
  model follows the code.
- `is_valid` scans the whole row, the target cell included. So re-typing the digit already
  in a cell is refused.
- The digit keys and Delete work on every cell, including the cells of the original puzzle.
- `has_unique_solution` never checks the filled cells it is given. A full board that breaks
  every rule is accepted.

## Model

| member | source | states |
|---|---|---|
| Grid.EmptyBoard | main.py:28-31 | the new board is 9x9 and every one of its 81 cells is empty |
| Grid.IsValid | main.py:81-96 | num is accepted exactly when no cell sharing a row, a column or a 3x3 block with (row, col), that cell included, holds num |
| Grid.FindEmptyFrom | main.py:121-126 | the row-major scan from (row, col) returns the first empty cell at or after it, with every cell between non-empty; None exactly when every cell from there on is filled |
| Grid.FindEmptyCell | main.py:121-126 | returns None exactly when the board has no empty cell; otherwise an empty cell with every cell before it in row-major order filled |
| Grid.IsCompleteFrom | main.py:129-134 | true exactly when every cell from (row, col) on in row-major order is filled |
| Grid.IsComplete | main.py:129-134 | true exactly when no cell is empty, and exactly when `find_empty_cell` finds nothing; it checks fullness, not the rules |
| Grid.ConsistentFullIsSolved | main.py:81-96 | a full board of digits where no cell meets its own digit in its row, column or block has every row, column and block a permutation of 1..9 |
| Solver.HasUniqueSolution | main.py:99-118 | the recursive search: a board with no empty cell is accepted whatever its cells hold; its full meaning is stated by SolvableIffCompletion |
| Solver.TryDigits | main.py:108-118 | the loop over the candidates from num on succeeds only if some digit from num on passes `is_valid`; its exact meaning is stated by TryDigitsFinds |
| Solver.TryDigitsFinds | main.py:108-118 | the loop over 1..9 from num on succeeds exactly when some digit from num on passes `is_valid` and leaves a solvable board |
| Solver.SolvableStep | main.py:103-118 | a board with a first empty cell is solvable exactly when some digit passes `is_valid` there and the board with that digit written is solvable |
| Solver.SolvableHasCompletion | main.py:99-118 | if the search succeeds, the board has a legal completion: full, its filled cells kept, every new digit clashing with no peer |
| Solver.CompletionMakesSolvable | main.py:99-118 | if the board has a legal completion, the search succeeds |
| Solver.SolvableIffCompletion | main.py:99-118 | `has_unique_solution` holds exactly when a legal completion exists; it decides solvability |
| Solver.FilledCellsNotChecked | main.py:103-106 | a full board of ones breaks the rules and is still accepted, since only empty cells are searched |
| Solver.EmptyBoardSolvableNotUnique | main.py:99-118 | the empty board is accepted, and it has two different legal completions, so acceptance does not mean a unique solution |
| Solver.CompletionOfEmptyIsSolved | main.py:34-48 | a legal completion of the empty board is a solved grid, consistent and made of digits |
| Filler.FillBoard | main.py:34-48 | succeeds exactly when `has_unique_solution` holds of the entry board, for every order of candidates; on success the board is a legal completion of the entry board; on failure it is unchanged |
| Filler.Attempt | main.py:41-46 | writing an accepted candidate and recursing succeeds exactly when that candidate leads to a solvable board; on failure the cell is reset and the board is as before |
| Filler.PlacementSucceeded | main.py:42-45 | a digit accepted by `is_valid` at the first empty cell, followed by a legal fill of the rest, makes the entry board solvable and the result a legal completion of it |
| Filler.EveryCandidateFailed | main.py:40-47 | when all candidates of a permutation of 1..9 fail at the first empty cell, the entry board is not solvable |
| Generator.RemoveCount | main.py:55-63 | "easy" removes 40 cells, "medium" 50, any other difficulty 60 |
| Generator.Carve | main.py:71-76 | the carving loop as a function of the board, the count and the picks: the result is a board and the count left never exceeds the count asked for; which cells it empties and how many is stated by CarveOnlyPicked, CarveEmptiesCells and CarveFinishes |
| Generator.CarveOnlyPicked | main.py:71-76 | a cell the carving changes was among the picked cells |
| Generator.CarveEmptiesCells | main.py:71-76 | carving only empties cells, empties exactly as many cells as it counts down, and counts down at most once per pick |
| Generator.CarveFinishes | main.py:71-76 | every distinct filled cell the picks hit counts down once, so the loop ends with nothing left as soon as enough distinct filled cells have been hit |
| Generator.FullBoardCarveFinishes | main.py:71-76 | carving a full board uses up the count once the picks hold as many distinct positions |
| Generator.CarvedPuzzleSolvable | main.py:69-76 | a board that keeps only cells of a solved grid is consistent, has that grid as a legal completion, and is accepted by `has_unique_solution` |
| Generator.CarvedFromFilled | main.py:65-76 | the puzzle carved from a filled board keeps only its cells, has count minus what is left empty cells, is consistent and is solved by the filled board |
| Generator.CarveInPlace | main.py:71-76 | the in-place carving loop leaves the board and the count that the carving specification gives |
| Generator.EmptyIfFilled | main.py:74-76 | a filled picked cell is emptied and counted; an empty one leaves board and count unchanged |
| Generator.NewFilledBoard | main.py:65-66 | a fresh board filled from empty is always a legal completion of the empty board and a solved grid |
| Generator.CopyBoard | main.py:69 | the copy is a fresh board with the same cells |
| Generator.GeneratePuzzle | main.py:51-78 | the puzzle is carved from a solved grid by the picks, has the difficulty's count minus what is left empty cells (all of them once the picks hit enough distinct cells), and is consistent and solvable |
| Play.Start | main.py:159-164 | the game starts on the puzzle with the cursor in the top-left cell |
| Play.Enter | main.py:184-210 | a digit key writes its digit exactly when no cell of the row, column and block, the current one included, holds it, and changes no other cell |
| Play.Move | main.py:176-183 | an arrow key moves one coordinate one cell in its direction, stays put at the edge and leaves the other coordinate alone; every other key leaves the cursor where it is |
| Play.Edit | main.py:184-212 | a digit key goes through `is_valid`, Delete and Backspace empty the cell under the cursor, every other key leaves the board alone, and no other cell ever changes |
| Play.Step | main.py:176-212 | the cursor stays on the grid; an arrow moves one coordinate one cell in its direction, clamped at the edge, with the other coordinate unchanged; digits 1..9 go in only as `is_valid` allows; Delete and Backspace empty the cell; every other key, a digit outside 1..9 included, leaves the board alone; no other cell changes |
| Play.Run | main.py:171-212 | the state after a key sequence keeps the cursor on the grid, and a sequence of arrow keys alone never changes the board |
| Play.Won | main.py:213 | the congratulation test holds exactly when the board has no empty cell |
| Play.Shown | main.py:213-224 | the congratulation has been shown within the first i keys exactly when the board after some key among them had no empty cell |
| Play.HandleKey | main.py:176-213 | handling a key in place leaves the board and cursor that `Step` gives, and reports the `is_complete` test on the new board |
| Play.PlayKeys | main.py:159-213 | handling a key sequence from the top-left cursor leaves the state of the whole session, and reports whether the congratulation was shown after some key |
| Play.StepKeepsConsistent | main.py:184-212 | no key makes a consistent board of digits inconsistent |
| Play.RunKeepsConsistent | main.py:171-212 | no key sequence makes a consistent board of digits inconsistent |
| Play.WinMeansSolved | main.py:213-224 | from a consistent puzzle, whenever `is_complete` accepts the board, every row, column and block is a permutation of 1..9 |
| Play.ShownMeansSolved | main.py:213-224 | from a consistent puzzle, whenever the congratulation has been shown, the board was solved at that moment |
| Play.SameDigitRefused | main.py:83-84 | re-typing the digit a cell already holds is refused and changes nothing |
| Play.LastCellOfRow | main.py:81-96 | with row 0 holding 1..8 and its last cell empty, 9 is accepted there and 1 is refused |
| Session.PlayGenerated | main.py:159-224 | the game is played on the puzzle carved by the picks, with the "easy" count, from a grid that the fill completed from empty and that is solved; that puzzle is consistent; the congratulation is shown exactly as `Shown` says, and only when the board after some key is solved |

## Left out

- Rendering, fonts, the window, `pygame.display`, `pygame.time.wait` and the event queue are
  not modelled. A session is a finite sequence of keys, and the QUIT event is left out.
- The random number generator is an input. Each call of `fill_board` that finds an empty cell
  draws one permutation of 1..9 from `orders`. The shuffle at main.py:36 is reshuffled at
  main.py:40 before any use, and is never used on calls that find no empty cell, so the model
  draws no permutation for it. The carving loop's `random.randint` pairs are the `picks`
  sequence.
- Generator.CarveInPlace: the loop also stops when the supplied picks run out. The source
  keeps drawing forever until the count is used up. Generator.CarveFinishes states when the
  count is used up.
- Filler.FillBoard: `drawn` (how many shuffles were used) is only bounded from below.
- Recursion depth, running time and Python's integer and list representation are not
  modelled.
- `has_unique_solution` is never called by the game. It is modelled for what it decides. The
  deep copy it works on is a value, so no aliasing can be observed.
- The board of the game lives in an `array2<int>` in `HandleKey` and `PlayKeys`. `Step` and
  `Run` are the same behaviour on values.
