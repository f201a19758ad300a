/** Values shared by every part of the puzzle logic: a 9x9 grid of digits
    (0 is an empty cell), the row/column/box relation between cells, and the
    properties a grid can have (no repeated digit in a unit, filled, solved). */
module Grid {

  /** A grid as a value: nine rows of nine cells. */
  type Board = seq<seq<int>>

  /** A cell coordinate (row, column). */
  type Cell = (int, int)

  /** The digits a filled cell may hold. */
  const Digits: set<int> := {1, 2, 3, 4, 5, 6, 7, 8, 9}

  /** Nine rows of nine entries: the shape of every per-cell table of the game. */
  ghost predicate Square9<T>(m: seq<seq<T>>) {
    |m| == 9 && forall i :: 0 <= i < 9 ==> |m[i]| == 9
  }

  predicate InGrid(r: int, c: int) {
    0 <= r < 9 && 0 <= c < 9
  }

  /** The grid `m` with cell (r, c) replaced by `v`. */
  function SetCell<T>(m: seq<seq<T>>, r: int, c: int, v: T): (t: seq<seq<T>>)
    requires Square9(m) && InGrid(r, c)
    ensures Square9(t)
    ensures forall i, j :: InGrid(i, j) ==> t[i][j] == if i == r && j == c then v else m[i][j]
  {
    m[r := m[r][c := v]]
  }

  /** Two cells share a row, a column or a 3x3 box. A cell shares all three with itself. */
  predicate SameUnit(r1: int, c1: int, r2: int, c2: int) {
    r1 == r2 || c1 == c2 || (r1 / 3 == r2 / 3 && c1 / 3 == c2 / 3)
  }

  /** First index of the band of three rows (or columns) that holds `r`. */
  function BandStart(r: int): (b: int)
    requires 0 <= r < 9
    ensures 0 <= b <= 6 && b <= r < b + 3
    ensures forall i :: 0 <= i < 9 ==> (r / 3 == i / 3 <==> b <= i < b + 3)
  {
    r / 3 * 3
  }

  /** No digit appears at a cell in the same row, column or box as (r, c), (r, c) included. */
  ghost predicate Allowed(b: Board, r: int, c: int, n: int)
    requires Square9(b)
  {
    forall i, j :: InGrid(i, j) && SameUnit(r, c, i, j) ==> b[i][j] != n
  }

  /** No non-zero digit is repeated in any row, column or box. */
  ghost predicate NoConflict(b: Board)
    requires Square9(b)
  {
    forall r1, c1, r2, c2 ::
      InGrid(r1, c1) && InGrid(r2, c2) && (r1, c1) != (r2, c2) &&
      SameUnit(r1, c1, r2, c2) && b[r1][c1] != 0
      ==> b[r1][c1] != b[r2][c2]
  }

  /** Every cell holds 0 (empty) or a digit 1..9. */
  ghost predicate InRange(b: Board)
    requires Square9(b)
  {
    forall i, j :: InGrid(i, j) ==> 0 <= b[i][j] <= 9
  }

  /** No cell is empty. */
  ghost predicate Filled(b: Board)
    requires Square9(b)
  {
    forall i, j :: InGrid(i, j) ==> b[i][j] != 0
  }

  /** A completed grid: every cell a digit 1..9 and no unit repeats a digit. */
  ghost predicate Solved(b: Board) {
    Square9(b) && InRange(b) && Filled(b) && NoConflict(b)
  }

  /** `b` keeps every non-zero cell of `a`: `b` is `a` with some empty cells filled. */
  ghost predicate Extends(b: Board, a: Board)
    requires Square9(a) && Square9(b)
  {
    forall i, j :: InGrid(i, j) && a[i][j] != 0 ==> b[i][j] == a[i][j]
  }

  /** `s` is a solved grid that keeps every clue of `b`. */
  ghost predicate Completion(s: Board, b: Board)
    requires Square9(b)
  {
    Solved(s) && Extends(s, b)
  }

  /** Some solved grid keeps every clue of `b`. */
  ghost predicate Completable(b: Board)
    requires Square9(b)
  {
    exists s :: Completion(s, b)
  }

  /** The current contents of a 9x9 array as a value. */
  ghost function Snapshot(g: array2<int>): (b: Board)
    requires g.Length0 == 9 && g.Length1 == 9
    reads g
    ensures Square9(b)
    ensures forall i, j :: InGrid(i, j) ==> b[i][j] == g[i, j]
  {
    seq(9, i requires 0 <= i < 9 reads g =>
      seq(9, j requires 0 <= j < 9 reads g => g[i, j]))
  }

  /** Grids that agree cell by cell are equal. */
  lemma SameCells<T>(a: seq<seq<T>>, b: seq<seq<T>>)
    requires Square9(a) && Square9(b)
    requires forall i, j :: InGrid(i, j) ==> a[i][j] == b[i][j]
    ensures a == b
  {
    forall i | 0 <= i < 9
      ensures a[i] == b[i]
    {
      assert forall j :: 0 <= j < 9 ==> a[i][j] == b[i][j] by {
        forall j | 0 <= j < 9 ensures a[i][j] == b[i][j] { assert InGrid(i, j); }
      }
    }
  }

  lemma {:induction false} ExtendsTransitive(c: Board, b: Board, a: Board)
    requires Square9(a) && Square9(b) && Square9(c)
    requires Extends(c, b) && Extends(b, a)
    ensures Extends(c, a)
  {
    forall i, j | InGrid(i, j) && a[i][j] != 0
      ensures c[i][j] == a[i][j]
    {
      assert b[i][j] == a[i][j];
    }
  }

  /** Placing a digit that `Allowed` accepts keeps a grid free of repeats. */
  lemma PlaceKeepsNoConflict(b: Board, r: int, c: int, n: int)
    requires Square9(b) && InGrid(r, c) && n != 0
    requires NoConflict(b) && Allowed(b, r, c, n)
    ensures NoConflict(SetCell(b, r, c, n))
  {
    var t := SetCell(b, r, c, n);
    forall r1, c1, r2, c2 |
      InGrid(r1, c1) && InGrid(r2, c2) && (r1, c1) != (r2, c2) &&
      SameUnit(r1, c1, r2, c2) && t[r1][c1] != 0
      ensures t[r1][c1] != t[r2][c2]
    {
      if (r1, c1) == (r, c) {
        assert b[r2][c2] != n;
      } else if (r2, c2) == (r, c) {
        assert SameUnit(r, c, r1, c1);
        assert b[r1][c1] != n;
      } else {
        assert b[r1][c1] != b[r2][c2];
      }
    }
  }

  /** A completion's digit at an empty cell is one the constraint check accepts. */
  lemma CompletionAllows(s: Board, b: Board, r: int, c: int)
    requires Square9(b) && InGrid(r, c) && b[r][c] == 0
    requires Completion(s, b)
    ensures Allowed(b, r, c, s[r][c])
  {
    forall i, j | InGrid(i, j) && SameUnit(r, c, i, j)
      ensures b[i][j] != s[r][c]
    {
      if b[i][j] != 0 {
        assert s[i][j] == b[i][j];
        assert (i, j) != (r, c);
        assert SameUnit(i, j, r, c);
      }
    }
  }

  // ---------------------------------------------------------------------------
  // Counting clues (non-zero cells)

  function NonZero(v: int): nat {
    if v != 0 then 1 else 0
  }

  /** Number of non-zero entries of one row. */
  function RowClues(s: seq<int>): (k: nat)
    ensures k <= |s|
  {
    if s == [] then 0 else RowClues(s[..|s| - 1]) + NonZero(s[|s| - 1])
  }

  /** Number of non-zero cells of a grid. */
  function Clues(b: Board): nat {
    if b == [] then 0 else Clues(b[..|b| - 1]) + RowClues(b[|b| - 1])
  }

  lemma {:induction false} RowCluesUpdate(s: seq<int>, j: int, v: int)
    requires 0 <= j < |s|
    ensures RowClues(s[j := v]) == RowClues(s) - NonZero(s[j]) + NonZero(v)
  {
    var n := |s|;
    if j < n - 1 {
      assert s[j := v][..n - 1] == s[..n - 1][j := v];
      RowCluesUpdate(s[..n - 1], j, v);
    } else {
      assert s[j := v][..n - 1] == s[..n - 1];
    }
  }

  lemma {:induction false} CluesUpdateRows(b: Board, r: int, row: seq<int>)
    requires 0 <= r < |b|
    ensures Clues(b[r := row]) == Clues(b) - RowClues(b[r]) + RowClues(row)
  {
    var n := |b|;
    if r < n - 1 {
      assert b[r := row][..n - 1] == b[..n - 1][r := row];
      CluesUpdateRows(b[..n - 1], r, row);
    } else {
      assert b[r := row][..n - 1] == b[..n - 1];
    }
  }

  /** Writing one cell changes the clue count by exactly that cell's contribution. */
  lemma CluesUpdate(b: Board, r: int, c: int, v: int)
    requires Square9(b) && InGrid(r, c)
    ensures Clues(SetCell(b, r, c, v)) == Clues(b) - NonZero(b[r][c]) + NonZero(v)
  {
    RowCluesUpdate(b[r], c, v);
    CluesUpdateRows(b, r, b[r][c := v]);
  }

  lemma {:induction false} CluesAtMost(b: Board)
    requires forall i :: 0 <= i < |b| ==> |b[i]| == 9
    ensures Clues(b) <= 9 * |b|
  {
    if b != [] {
      CluesAtMost(b[..|b| - 1]);
    }
  }

  /** A grid has at most 81 clues. */
  lemma CluesBound(b: Board)
    requires Square9(b)
    ensures Clues(b) <= 81
  {
    CluesAtMost(b);
  }

  lemma {:induction false} RowCluesFull(s: seq<int>)
    requires forall j :: 0 <= j < |s| ==> s[j] != 0
    ensures RowClues(s) == |s|
  {
    if s != [] {
      RowCluesFull(s[..|s| - 1]);
    }
  }

  lemma {:induction false} CluesFullRows(b: Board)
    requires forall i :: 0 <= i < |b| ==> |b[i]| == 9
    requires forall i, j :: 0 <= i < |b| && 0 <= j < |b[i]| ==> b[i][j] != 0
    ensures Clues(b) == 9 * |b|
  {
    if b != [] {
      var last := b[|b| - 1];
      assert forall j :: 0 <= j < |last| ==> last[j] != 0;
      CluesFullRows(b[..|b| - 1]);
      RowCluesFull(last);
    }
  }

  /** A filled grid has all 81 clues. */
  lemma FilledClues(b: Board)
    requires Square9(b) && Filled(b)
    ensures Clues(b) == 81
  {
    CluesFullRows(b);
  }

  lemma {:induction false} RowCluesWitness(s: seq<int>) returns (j: int)
    requires RowClues(s) > 0
    ensures 0 <= j < |s| && s[j] != 0
  {
    if s[|s| - 1] != 0 {
      j := |s| - 1;
    } else {
      j := RowCluesWitness(s[..|s| - 1]);
    }
  }

  lemma {:induction false} CluesWitness(b: Board) returns (i: int, j: int)
    requires Clues(b) > 0
    ensures 0 <= i < |b| && 0 <= j < |b[i]| && b[i][j] != 0
  {
    if RowClues(b[|b| - 1]) > 0 {
      i := |b| - 1;
      j := RowCluesWitness(b[i]);
    } else {
      i, j := CluesWitness(b[..|b| - 1]);
    }
  }

  /** A grid with a clue has a non-zero cell to clear. */
  lemma CluesNonZeroCell(b: Board)
    requires Square9(b) && Clues(b) > 0
    ensures exists i, j :: InGrid(i, j) && b[i][j] != 0
  {
    var i, j := CluesWitness(b);
  }
}
