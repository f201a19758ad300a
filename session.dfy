/** The game session as a value and the two move handlers as transitions on it:
    entering a digit (or toggling a pencil note) at the selected cell, and
    erasing the selected cell. */
module Session {
  import opened Grid

  datatype Option<T> = None | Some(value: T)

  datatype Screen = Menu | Game | Over | Win

  /** Pencil notes: a set of digits per cell. */
  type Notes = seq<seq<set<int>>>

  /** The state the move handlers read and write. `errors` holds the cells whose
      last entry was wrong. */
  datatype State = State(
    board: Board,
    solution: Board,
    given: seq<seq<bool>>,
    notes: Notes,
    errors: set<Cell>,
    lives: int,
    screen: Screen,
    selected: Option<Cell>,
    noteMode: bool)

  /** Every table is 9x9 and the selection, when there is one, is a cell. */
  ghost predicate WellFormed(s: State) {
    Square9(s.board) && Square9(s.solution) && Square9(s.given) && Square9(s.notes) &&
    (s.selected.Some? ==> InGrid(s.selected.value.0, s.selected.value.1))
  }

  /** The invariant of a running game: given cells hold the solution's digit and
      are never marked as errors. */
  ghost predicate Valid(s: State) {
    WellFormed(s) &&
    (forall i, j :: InGrid(i, j) && s.given[i][j] ==> s.board[i][j] == s.solution[i][j]) &&
    (forall e :: e in s.errors ==> InGrid(e.0, e.1) && !s.given[e.0][e.1])
  }

  /** A cell is selected and it is not a given cell. */
  predicate Editable(s: State)
    requires WellFormed(s)
  {
    s.selected.Some? && !s.given[s.selected.value.0][s.selected.value.1]
  }

  /** Every cell of `board` holds the solution's digit. */
  predicate MatchesSolution(board: Board, solution: Board)
    requires Square9(board) && Square9(solution)
  {
    forall i, j | 0 <= i < 9 && 0 <= j < 9 :: board[i][j] == solution[i][j]
  }

  /** A new game on a generated puzzle: the board starts as the puzzle, the
      given cells are the puzzle's non-zero cells, no notes, no errors, five
      lives, nothing selected. */
  function StartGame(puzzle: Board, solution: Board): (s: State)
    requires Square9(puzzle) && Square9(solution)
    ensures WellFormed(s)
    ensures s.board == puzzle && s.solution == solution
    ensures forall i, j :: InGrid(i, j) ==> (s.given[i][j] <==> puzzle[i][j] != 0)
    ensures forall i, j :: InGrid(i, j) ==> s.notes[i][j] == {}
    ensures s.errors == {} && s.lives == 5 && s.screen == Game && s.selected == None && !s.noteMode
    ensures Extends(solution, puzzle) ==> Valid(s)
  {
    State(
      puzzle,
      solution,
      seq(9, i requires 0 <= i < 9 => seq(9, j requires 0 <= j < 9 => puzzle[i][j] != 0)),
      seq(9, i => seq(9, j => {})),
      {}, 5, Game, None, false)
  }

  /** Adds `n` to a note set that lacks it, removes it from one that has it. */
  function Toggle(notes: set<int>, n: int): (t: set<int>)
    ensures n in t <==> n !in notes
    ensures forall d :: d != n ==> (d in t <==> d in notes)
  {
    if n in notes then notes - {n} else notes + {n}
  }

  /** The notes after a correct entry of `n` at (r, c): `n` is gone from every
      cell in row r, column c and the box of (r, c); every other note is kept. */
  function CleanedNotes(m: Notes, r: int, c: int, n: int): (t: Notes)
    requires Square9(m)
    ensures Square9(t)
    ensures forall i, j :: InGrid(i, j) ==>
      t[i][j] == if SameUnit(r, c, i, j) then m[i][j] - {n} else m[i][j]
  {
    seq(9, i requires 0 <= i < 9 =>
      seq(9, j requires 0 <= j < 9 => if SameUnit(r, c, i, j) then m[i][j] - {n} else m[i][j]))
  }

  /** The clean-up as the game performs it on its copy of the notes: one pass
      along row r and column c, then one pass over the 3x3 box of (r, c). */
  method EliminateNote(m: Notes, r: int, c: int, n: int) returns (t: Notes)
    requires Square9(m) && InGrid(r, c)
    ensures t == CleanedNotes(m, r, c, n)
  {
    t := m;
    for i := 0 to 9
      invariant Square9(t)
      invariant forall a, b :: InGrid(a, b) ==>
        t[a][b] == if (a == r && b < i) || (b == c && a < i) then m[a][b] - {n} else m[a][b]
    {
      RemoveTwice(m[r][i], n);
      RemoveTwice(m[i][c], n);
      t := SetCell(t, r, i, t[r][i] - {n});
      t := SetCell(t, i, c, t[i][c] - {n});
    }
    ghost var lines := t;
    var br, bc := BandStart(r), BandStart(c);
    for i := 0 to 3
      invariant Square9(t)
      invariant forall a, b :: InGrid(a, b) ==>
        t[a][b] == if br <= a < br + i && bc <= b < bc + 3 then lines[a][b] - {n} else lines[a][b]
    {
      for j := 0 to 3
        invariant Square9(t)
        invariant forall a, b :: InGrid(a, b) ==>
          t[a][b] == if (br <= a < br + i && bc <= b < bc + 3) || (a == br + i && bc <= b < bc + j)
                     then lines[a][b] - {n} else lines[a][b]
      {
        t := SetCell(t, br + i, bc + j, t[br + i][bc + j] - {n});
      }
    }
    ghost var spec := CleanedNotes(m, r, c, n);
    forall a, b | InGrid(a, b)
      ensures t[a][b] == spec[a][b]
    {
      RemoveTwice(m[a][b], n);
      assert (br <= a < br + 3 && bc <= b < bc + 3) <==> (r / 3 == a / 3 && c / 3 == b / 3);
    }
    SameCells(t, spec);
  }

  lemma RemoveTwice(a: set<int>, n: int)
    ensures a - {n} - {n} == a - {n}
  {
  }

  /** A digit key or number button pressed with `n`. On a selected non-given
      cell it toggles the note `n` in note mode; otherwise it writes `n`,
      clears the cell's notes, and then either (correct digit) removes `n` from
      the notes of the cell's row, column and box, clears the cell's error and
      declares a win when the whole board matches the solution, or (wrong
      digit) marks the cell as an error and costs a life, ending the game when
      no life is left. */
  function HandleNum(s: State, n: int): (t: State)
    requires WellFormed(s)
    ensures WellFormed(t)
    ensures t.solution == s.solution && t.given == s.given
    ensures t.selected == s.selected && t.noteMode == s.noteMode
    ensures !Editable(s) ==> t == s
    ensures forall i, j :: InGrid(i, j) && s.given[i][j] ==> t.board[i][j] == s.board[i][j]
  {
    if !Editable(s) then s
    else
      var r, c := s.selected.value.0, s.selected.value.1;
      if s.noteMode then
        s.(notes := SetCell(s.notes, r, c, Toggle(s.notes[r][c], n)))
      else
        var correct := s.solution[r][c] == n;
        var board := SetCell(s.board, r, c, n);
        var cleared := SetCell(s.notes, r, c, {});
        var notes := if correct then CleanedNotes(cleared, r, c, n) else cleared;
        if !correct then
          var lives := s.lives - 1;
          s.(board := board, notes := notes, errors := s.errors + {(r, c)}, lives := lives,
             screen := if lives <= 0 then Over else s.screen)
        else
          s.(board := board, notes := notes, errors := s.errors - {(r, c)},
             screen := if MatchesSolution(board, s.solution) then Win else s.screen)
  }

  /** The erase key or button: on a selected non-given cell, empties the cell,
      its notes and its error mark, and changes nothing else. */
  function HandleErase(s: State): (t: State)
    requires WellFormed(s)
    ensures WellFormed(t)
    ensures !Editable(s) ==> t == s
    ensures Editable(s) ==>
      var (r, c) := s.selected.value;
      t.board[r][c] == 0 && t.notes[r][c] == {} && t.errors == s.errors - {(r, c)} &&
      (forall i, j :: InGrid(i, j) && (i, j) != (r, c) ==>
        t.board[i][j] == s.board[i][j] && t.notes[i][j] == s.notes[i][j]) &&
      t.solution == s.solution && t.given == s.given && t.lives == s.lives &&
      t.screen == s.screen && t.selected == s.selected && t.noteMode == s.noteMode
  {
    if !Editable(s) then s
    else
      var r, c := s.selected.value.0, s.selected.value.1;
      s.(board := SetCell(s.board, r, c, 0),
         notes := SetCell(s.notes, r, c, {}),
         errors := s.errors - {(r, c)})
  }

  /** In note mode only the selected cell's notes change: `n` is toggled there. */
  lemma NoteEntry(s: State, n: int)
    requires WellFormed(s) && Editable(s) && s.noteMode
    ensures var t, (r, c) := HandleNum(s, n), s.selected.value;
      t.board == s.board && t.errors == s.errors && t.lives == s.lives && t.screen == s.screen &&
      (n in t.notes[r][c] <==> n !in s.notes[r][c]) &&
      (forall d :: d != n ==> (d in t.notes[r][c] <==> d in s.notes[r][c])) &&
      (forall i, j :: InGrid(i, j) && (i, j) != (r, c) ==> t.notes[i][j] == s.notes[i][j])
  {
  }

  /** A correct digit: written at the selected cell only, the cell's notes are
      emptied, `n` leaves the notes of the cell's row, column and box and no
      other note changes, the cell's error is cleared, lives are kept, and the
      screen becomes Win exactly when the new board equals the solution. */
  lemma CorrectEntry(s: State, n: int)
    requires WellFormed(s) && Editable(s) && !s.noteMode
    requires s.solution[s.selected.value.0][s.selected.value.1] == n
    ensures var t, (r, c) := HandleNum(s, n), s.selected.value;
      t.board[r][c] == n &&
      (forall i, j :: InGrid(i, j) && (i, j) != (r, c) ==> t.board[i][j] == s.board[i][j]) &&
      t.notes[r][c] == {} &&
      (forall i, j :: InGrid(i, j) && (i, j) != (r, c) ==>
        t.notes[i][j] == if SameUnit(r, c, i, j) then s.notes[i][j] - {n} else s.notes[i][j]) &&
      t.errors == s.errors - {(r, c)} && t.lives == s.lives &&
      t.screen == if t.board == s.solution then Win else s.screen
  {
    var t, r, c := HandleNum(s, n), s.selected.value.0, s.selected.value.1;
    if MatchesSolution(t.board, s.solution) {
      SameCells(t.board, s.solution);
    }
  }

  /** A wrong digit: written at the selected cell only, the cell's notes are
      emptied and no other note changes, the cell is marked as an error, one
      life is lost, and the game is over once lives reach zero or less. */
  lemma WrongEntry(s: State, n: int)
    requires WellFormed(s) && Editable(s) && !s.noteMode
    requires s.solution[s.selected.value.0][s.selected.value.1] != n
    ensures var t, (r, c) := HandleNum(s, n), s.selected.value;
      t.board[r][c] == n &&
      (forall i, j :: InGrid(i, j) && (i, j) != (r, c) ==> t.board[i][j] == s.board[i][j]) &&
      t.notes[r][c] == {} &&
      (forall i, j :: InGrid(i, j) && (i, j) != (r, c) ==> t.notes[i][j] == s.notes[i][j]) &&
      t.errors == s.errors + {(r, c)} && t.lives == s.lives - 1 &&
      t.screen == if s.lives - 1 <= 0 then Over else s.screen
  {
  }

  /** Both handlers keep the game invariant. */
  lemma HandlersKeepValid(s: State, n: int)
    requires Valid(s)
    ensures Valid(HandleNum(s, n))
    ensures Valid(HandleErase(s))
  {
  }

  /** A game won from the game screen ends with the board equal to the
      solution, so when the solution is a solved grid the board is too. */
  lemma WinIsSolved(s: State, n: int)
    requires WellFormed(s) && s.screen == Game && Solved(s.solution)
    requires HandleNum(s, n).screen == Win
    ensures HandleNum(s, n).board == s.solution
    ensures Solved(HandleNum(s, n).board)
  {
    var t := HandleNum(s, n);
    SameCells(t.board, s.solution);
  }

  /** Erasing right after an entry (of either kind) at the selected cell leaves
      the board as it was except that the cell is empty, and drops the cell's
      error mark. */
  lemma EraseUndoesEntry(s: State, n: int)
    requires WellFormed(s) && Editable(s) && !s.noteMode
    ensures var u, (r, c) := HandleErase(HandleNum(s, n)), s.selected.value;
      u.board == SetCell(s.board, r, c, 0) && u.errors == s.errors - {(r, c)} &&
      u.notes[r][c] == {}
  {
    var t, r, c := HandleNum(s, n), s.selected.value.0, s.selected.value.1;
    var u := HandleErase(t);
    SameCells(u.board, SetCell(s.board, r, c, 0));
  }

  /** On the game screen an entry costs at most one life and leads to the game,
      game-over or win screen; game over only when no life is left. */
  lemma EntryOutcome(s: State, n: int)
    requires WellFormed(s) && s.screen == Game
    ensures var t := HandleNum(s, n);
      (t.lives == s.lives || t.lives == s.lives - 1) &&
      (t.screen == Over ==> t.lives <= 0 && t.lives == s.lives - 1) &&
      (t.screen == Win ==> t.lives == s.lives && MatchesSolution(t.board, s.solution))
  {
  }
}
