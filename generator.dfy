/** Building a puzzle: complete an empty grid, copy it, and clear cells until the
    difficulty's number of clues is left. Clearing is unconditional; nothing
    checks that the puzzle still has a single completion. The random cell
    choice becomes an arbitrary choice among the cells that still hold a clue. */
module Generator {
  import opened Grid
  import opened Units
  import opened Solver

  /** Clue targets by difficulty name. */
  const ClueTable: map<string, int> := map["easy" := 45, "medium" := 35, "hard" := 25]

  /** The number of clues a puzzle of the named difficulty keeps: the table's
      entry, or 35 for a name the table does not know. */
  function ClueTarget(difficulty: string): (clues: int)
    ensures difficulty == "easy" ==> clues == 45
    ensures difficulty == "medium" ==> clues == 35
    ensures difficulty == "hard" ==> clues == 25
    ensures difficulty !in {"easy", "medium", "hard"} ==> clues == 35
  {
    if difficulty in ClueTable then ClueTable[difficulty] else 35
  }

  /** A fresh grid holding the same digits as `src`. */
  method CopyGrid(src: array2<int>) returns (dst: array2<int>)
    requires src.Length0 == 9 && src.Length1 == 9
    ensures fresh(dst) && dst.Length0 == 9 && dst.Length1 == 9
    ensures Snapshot(dst) == Snapshot(src)
  {
    dst := new int[9, 9];
    for r := 0 to 9
      modifies dst
      invariant forall i, j :: 0 <= i < r && 0 <= j < 9 ==> dst[i, j] == src[i, j]
    {
      for c := 0 to 9
        modifies dst
        invariant forall i, j :: 0 <= i < r && 0 <= j < 9 ==> dst[i, j] == src[i, j]
        invariant forall j :: 0 <= j < c ==> dst[r, j] == src[r, j]
      {
        dst[r, c] := src[r, c];
      }
    }
    SameCells(Snapshot(dst), Snapshot(src));
  }

  /** Clears `count` cells that hold a clue, one at a time, each chosen
      arbitrarily among the cells that still hold one. */
  method ClearCells(puzzle: array2<int>, count: int)
    requires puzzle.Length0 == 9 && puzzle.Length1 == 9
    requires 0 <= count <= Clues(Snapshot(puzzle))
    modifies puzzle
    ensures Clues(Snapshot(puzzle)) == old(Clues(Snapshot(puzzle))) - count
    ensures Extends(old(Snapshot(puzzle)), Snapshot(puzzle))
  {
    ghost var start := Snapshot(puzzle);
    var removed := count;
    while removed > 0
      invariant 0 <= removed
      invariant Clues(Snapshot(puzzle)) == Clues(start) - count + removed
      invariant Extends(start, Snapshot(puzzle))
      decreases removed
    {
      ghost var before := Snapshot(puzzle);
      CluesNonZeroCell(before);
      var r: int, c: int :| InGrid(r, c) && puzzle[r, c] != 0;
      puzzle[r, c] := 0;
      SameCells(Snapshot(puzzle), SetCell(before, r, c, 0));
      CluesUpdate(before, r, c, 0);
      removed := removed - 1;
    }
  }

  /** A solved grid and a puzzle made from it by clearing cells: the puzzle keeps
      exactly the target number of clues and each of them agrees with the
      solution. */
  method GeneratePuzzle(difficulty: string) returns (puzzle: array2<int>, solution: array2<int>)
    ensures fresh(puzzle) && fresh(solution) && puzzle != solution
    ensures puzzle.Length0 == 9 && puzzle.Length1 == 9
    ensures solution.Length0 == 9 && solution.Length1 == 9
    ensures Solved(Snapshot(solution))
    ensures forall r :: 0 <= r < 9 ==> EachDigitOnce(Row(Snapshot(solution), r))
    ensures forall c :: 0 <= c < 9 ==> EachDigitOnce(Column(Snapshot(solution), c))
    ensures forall k :: 0 <= k < 9 ==> EachDigitOnce(Box(Snapshot(solution), k))
    ensures Clues(Snapshot(puzzle)) == ClueTarget(difficulty)
    ensures Extends(Snapshot(solution), Snapshot(puzzle))
  {
    solution := EmptyGrid();
    EmptyCompletable(Snapshot(solution));
    var completed := Solve(solution);
    // The empty grid is completable, so the completer cannot fail here.
    assert completed;
    ghost var sol := Snapshot(solution);
    SolvedUnits(sol);
    FilledClues(sol);
    var clues := ClueTarget(difficulty);
    puzzle := CopyGrid(solution);
    ClearCells(puzzle, 81 - clues);
    assert Snapshot(solution) == sol;
  }
}
