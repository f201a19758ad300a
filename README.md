# Sudoku puzzle engine and move handlers, in Dafny

A model of the puzzle logic of the Sudoku desktop game (`src/Sudoku.jsx`):

- **Grid** (`grid.dfy`): a 9x9 grid of digits, 0 for an empty cell. It defines the
  row/column/box relation, and what it means for a grid to be free of repeats,
  filled, solved, or completable. It also counts clues (non-zero cells).
- **Units** (`units.dfy`): the rows, columns and boxes of a grid as sequences.
  A pigeonhole argument shows that every unit of a solved grid holds each digit
  1..9 exactly once.
- **Solver** (`solver.dfy`): the constraint check `isValid` and the
  backtracking completer `solve`, working in place on an `array2<int>` as the
  game does.
  - The completer tries digits at the first empty cell in row-major order. The
    game shuffles 1..9 at random; the model lets the completer try them in any
    order.
  - Proved: on success the grid is filled, and only empty cells were written.
  - Proved: on failure the grid is exactly as it was (placement is undone).
  - Proved: no repeat is introduced.
  - Proved: the completer succeeds whenever some solved grid keeps every clue.
    The empty grid has such a completion, so puzzle generation cannot fail.
- **Generator** (`generator.dfy`): `generatePuzzle`.
  1. Complete an empty grid.
  2. Copy it.
  3. Clear cells that still hold a clue until the difficulty's clue target is
     left: 45 for easy, 35 for medium, 25 for hard, and 35 for any other name.

  The cell to clear is chosen at random in the game; the model lets it be any
  cell that still holds a clue. Proved:
  - the solution is solved, with every row, column and box holding 1..9 once;
  - the puzzle has exactly the target number of clues;
  - every clue of the puzzle agrees with the solution.

  The generator as written clears cells unconditionally. Nothing checks that
  the puzzle keeps a single completion, and the target clue count is always
  reached exactly. The model follows the code.
- **Session** (`session.dfy`): the game state the move handlers work on, and
  `startGame`, `handleNum` and `handleErase` as functions from state to state.
  - The state holds the board, solution, given-cell mask, pencil notes, error
    cells, lives, screen, selection and note mode.
  - The note clean-up after a correct digit is a method with the game's two
    loops. It is proved equal to the specification function `CleanedNotes`,
    which the handler uses.

## Model

| member | source | states |
|---|---|---|
| Grid.CluesUpdate | src/Sudoku.jsx:34 | writing one cell changes the clue count by exactly that cell's contribution, so clearing a clue lowers the count by one |
| Grid.FilledClues | src/Sudoku.jsx:31 | a filled grid has 81 clues, so the removal count 81 - target leaves exactly the target |
| Grid.CluesNonZeroCell | src/Sudoku.jsx:32-34 | while clues remain there is a non-zero cell for the removal loop to clear |
| Grid.PlaceKeepsNoConflict | src/Sudoku.jsx:18 | writing a digit the constraint check accepts never creates a repeat in a row, column or box |
| Grid.CompletionAllows | src/Sudoku.jsx:6-11 | the digit a completion holds at an empty cell is one the constraint check accepts |
| Grid.BandStart | src/Sudoku.jsx:8 | the computed box corner is in 0..6, at most two cells before the index, and marks exactly the indices whose band is the same |
| Units.SolvedUnits | src/Sudoku.jsx:27-28 | every row, column and box of a solved grid holds each of 1..9 exactly once |
| Solver.EmptyGrid | src/Sudoku.jsx:4 | a fresh 9x9 grid with every cell empty |
| Solver.IsValid | src/Sudoku.jsx:6-11 | true exactly when `n` occurs in no cell of row r, column c or the box of (r, c) |
| Solver.Solve | src/Sudoku.jsx:13-24 | success means the grid is filled; failure leaves the grid unchanged; only empty cells are written, with no repeat introduced; success whenever a completion exists |
| Solver.TryDigits | src/Sudoku.jsx:15-20 | trying all nine digits at the first empty cell, in any order, succeeds whenever the grid is completable, and fails only after every digit was undone |
| Solver.TryDigit | src/Sudoku.jsx:18 | one candidate: on failure the grid is restored; it succeeds whenever some completion holds that digit at the cell |
| Solver.CompletableWithPlaced | src/Sudoku.jsx:18 | a digit some completion holds at the cell passes the check, and the grid with it placed is still completable |
| Solver.KeptPlacement | src/Sudoku.jsx:18 | a successful recursive call after a placement keeps every clue of the grid before the placement and introduces no repeat |
| Solver.EmptyCompletable | src/Sudoku.jsx:27-28 | the empty grid has a completion, so the completer called on it succeeds |
| Generator.ClueTarget | src/Sudoku.jsx:29 | easy keeps 45 clues, medium 35, hard 25, and any other name 35 |
| Generator.CopyGrid | src/Sudoku.jsx:30 | a fresh grid with the same digits as the solution |
| Generator.ClearCells | src/Sudoku.jsx:31-35 | exactly `count` clues are cleared and every remaining clue is unchanged |
| Generator.GeneratePuzzle | src/Sudoku.jsx:26-37 | the solution is solved with each digit once per unit; the puzzle has exactly the target clue count and agrees with the solution on every clue |
| Session.StartGame | src/Sudoku.jsx:68-83 | given cells are the puzzle's clues; no notes or errors, five lives, game screen, no selection; a puzzle that agrees with the solution yields a valid game |
| Session.Toggle | src/Sudoku.jsx:93-94 | `n` is in the new note set exactly when it was not before; other digits are unaffected |
| Session.EliminateNote | src/Sudoku.jsx:106-115 | the row/column pass followed by the box pass removes `n` from exactly the cells sharing a unit with (r, c) |
| Session.HandleNum | src/Sudoku.jsx:87-129 | without a selected non-given cell nothing changes; otherwise given cells, the solution and the selection are unchanged |
| Session.NoteEntry | src/Sudoku.jsx:91-98 | in note mode only the selected cell's notes change, with `n` toggled |
| Session.CorrectEntry | src/Sudoku.jsx:101-127 | a correct digit is written only at the cell; its notes empty; `n` leaves the notes of its row, column and box; the error mark is cleared; win exactly when the board equals the solution |
| Session.WrongEntry | src/Sudoku.jsx:116-122 | a wrong digit is written and marked an error, only the cell's notes are cleared, one life is lost, and the game is over at zero lives or fewer |
| Session.HandleErase | src/Sudoku.jsx:131-144 | only the selected non-given cell is emptied, with its notes and error mark; nothing else changes |
| Session.HandlersKeepValid | src/Sudoku.jsx:87-144 | both handlers keep given cells equal to the solution and never mark a given cell as an error |
| Session.WinIsSolved | src/Sudoku.jsx:123-127 | a win leaves the board equal to the solution, hence solved |
| Session.EraseUndoesEntry | src/Sudoku.jsx:87-144 | erasing right after an entry restores the board with the cell empty and drops the cell's error mark |
| Session.EntryOutcome | src/Sudoku.jsx:116-127 | from the game screen an entry costs at most one life; game over only at zero lives or fewer, and a win only when the board matches the solution |

## Left out

- Rendering, React hooks, `fmt`, the timer (`startTimer`, `stopTimer`, elapsed time), the sounds of `src/sounds.js` and the Electron window of `electron/main.js`: these are I/O and have no puzzle logic.
- The keydown listener and the buttons that call the handlers are left out. The handlers are modelled on their own, and the listener only calls them on the game screen; `Session.EntryOutcome` assumes that screen.
- The `!board` guard in both handlers is left out: a `Session.State` exists only after `StartGame`, so there is always a board.
- Randomness: the shuffled digit order is modelled as any order of 1..9, and the random cell as any cell that still holds a clue. The distribution of outcomes is not modelled.
- Generator.ClearCells: the source draws random cells and skips empty ones until it hits a clue. The model picks a clue cell directly, so it does not capture that the source loop ends only with probability one.
- Generator.ClueTarget: the model treats the name as a string looked up in a three-entry table. In JavaScript, an inherited property name such as `constructor` would yield a non-number and a NaN removal count. The menu only offers the three names.
- Error marks are modelled as a set of cell pairs rather than the game's `"r,c"` strings. The two are in one-to-one correspondence for cells of the grid.
- The selected difficulty, the puzzle copy kept for display, and the menu screen transitions are left out.
- No uniqueness check or solution counter is modelled, because the code has none: removal is unconditional (see Generator above).
