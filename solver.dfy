/** The constraint check and the randomised backtracking completer, working in
    place on a 9x9 array as the game does. The random digit order becomes an
    arbitrary choice among all orders of 1..9. */
module Solver {
  import opened Grid
  import opened Units

  /** A fresh 9x9 grid of empty cells. */
  method EmptyGrid() returns (g: array2<int>)
    ensures fresh(g) && g.Length0 == 9 && g.Length1 == 9
    ensures forall i, j :: InGrid(i, j) ==> g[i, j] == 0
  {
    g := new int[9, 9]((i, j) => 0);
  }

  /** Whether `n` may be written at (r, c): it occurs nowhere in row r, column c
      or the box holding (r, c). Reads the grid and changes nothing. */
  method IsValid(g: array2<int>, r: int, c: int, n: int) returns (ok: bool)
    requires g.Length0 == 9 && g.Length1 == 9 && InGrid(r, c)
    ensures ok == Allowed(Snapshot(g), r, c, n)
  {
    for i := 0 to 9
      invariant forall k :: 0 <= k < i ==> g[r, k] != n && g[k, c] != n
    {
      if g[r, i] == n || g[i, c] == n {
        assert !Allowed(Snapshot(g), r, c, n) by {
          if g[r, i] == n {
            assert SameUnit(r, c, r, i) && Snapshot(g)[r][i] == n;
          } else {
            assert SameUnit(r, c, i, c) && Snapshot(g)[i][c] == n;
          }
        }
        return false;
      }
    }
    var br, bc := r / 3 * 3, c / 3 * 3;
    for i := 0 to 3
      invariant forall i2, j2 :: br <= i2 < br + i && bc <= j2 < bc + 3 ==> g[i2, j2] != n
    {
      for j := 0 to 3
        invariant forall i2, j2 :: br <= i2 < br + i && bc <= j2 < bc + 3 ==> g[i2, j2] != n
        invariant forall i2, j2 :: i2 == br + i && bc <= j2 < bc + j ==> g[i2, j2] != n
      {
        if g[br + i, bc + j] == n {
          assert SameUnit(r, c, br + i, bc + j) && Snapshot(g)[br + i][bc + j] == n;
          return false;
        }
      }
    }
    forall i, j | InGrid(i, j) && SameUnit(r, c, i, j)
      ensures Snapshot(g)[i][j] != n
    {
      if i != r && j != c {
        assert br <= i < br + 3 && bc <= j < bc + 3;
      }
    }
    return true;
  }

  /** What the completer promises about the grid `before` a call and `after` it:
      on success no cell is empty; on failure the grid is exactly as it was;
      either way only empty cells were written, only with digits 1..9, no
      repeat was introduced, and success is reported whenever some solved grid
      keeps every clue of `before`. */
  ghost predicate CompleterResult(before: Board, after: Board, ok: bool)
    requires Square9(before) && Square9(after)
  {
    (ok ==> Filled(after)) &&
    (!ok ==> after == before) &&
    Extends(after, before) &&
    (InRange(before) ==> InRange(after)) &&
    (NoConflict(before) ==> NoConflict(after)) &&
    (Completable(before) ==> ok)
  }

  /** Fills the empty cells of `g` by backtracking, from the first empty cell in
      row-major order; succeeds at once when there is none. */
  method Solve(g: array2<int>) returns (ok: bool)
    requires g.Length0 == 9 && g.Length1 == 9
    modifies g
    ensures CompleterResult(old(Snapshot(g)), Snapshot(g), ok)
    decreases 81 - Clues(Snapshot(g)), 2
  {
    for r := 0 to 9
      invariant unchanged(g)
      invariant forall i, j :: 0 <= i < r && 0 <= j < 9 ==> g[i, j] != 0
    {
      for c := 0 to 9
        invariant unchanged(g)
        invariant forall i, j :: 0 <= i < r && 0 <= j < 9 ==> g[i, j] != 0
        invariant forall j :: 0 <= j < c ==> g[r, j] != 0
      {
        if g[r, c] == 0 {
          ok := TryDigits(g, r, c);
          return;
        }
      }
    }
    assert Filled(Snapshot(g));
    return true;
  }

  /** The completer at its first empty cell (r, c): tries the digits in an
      arbitrary order and fails when none of them leads to a completed grid. */
  method TryDigits(g: array2<int>, r: int, c: int) returns (ok: bool)
    requires g.Length0 == 9 && g.Length1 == 9 && InGrid(r, c) && g[r, c] == 0
    modifies g
    ensures CompleterResult(old(Snapshot(g)), Snapshot(g), ok)
    decreases 81 - Clues(Snapshot(g)), 1
  {
    ghost var entry := Snapshot(g);
    assert EachDigitOnce([1, 2, 3, 4, 5, 6, 7, 8, 9]);
    var nums: seq<int> :| EachDigitOnce(nums);
    assert EachDigitOnce(nums);
    for k := 0 to 9
      invariant Snapshot(g) == entry
      invariant forall i :: 0 <= i < k ==> !CompletableWith(entry, r, c, nums[i])
    {
      ok := TryDigit(g, r, c, nums[k]);
      if ok {
        return;
      }
    }
    if Completable(entry) {
      var target :| Completion(target, entry);
      assert target[r][c] in nums;
      assert CompletableWith(entry, r, c, target[r][c]);
      assert false;
    }
    return false;
  }

  /** Some solved grid keeps every clue of `b` and holds `n` at (r, c). */
  ghost predicate CompletableWith(b: Board, r: int, c: int, n: int)
    requires Square9(b) && InGrid(r, c)
  {
    exists s :: Completion(s, b) && s[r][c] == n
  }

  /** One candidate of the completer: if the constraint check accepts `n` at the
      empty cell (r, c), writes it and completes the rest; when that fails, or
      the check rejects `n`, the grid is left as it was. */
  method TryDigit(g: array2<int>, r: int, c: int, n: int) returns (ok: bool)
    requires g.Length0 == 9 && g.Length1 == 9 && InGrid(r, c) && g[r, c] == 0
    requires 1 <= n <= 9
    modifies g
    ensures ok ==> CompleterResult(old(Snapshot(g)), Snapshot(g), true)
    ensures !ok ==> Snapshot(g) == old(Snapshot(g))
    ensures CompletableWith(old(Snapshot(g)), r, c, n) ==> ok
    decreases 81 - Clues(Snapshot(g)), 0
  {
    ghost var entry := Snapshot(g);
    CluesBound(entry);
    CompletableWithPlaced(entry, r, c, n);
    var valid := IsValid(g, r, c, n);
    if !valid {
      return false;
    }
    g[r, c] := n;
    ghost var placed := Snapshot(g);
    SameCells(placed, SetCell(entry, r, c, n));
    CluesUpdate(entry, r, c, n);
    ok := Solve(g);
    if ok {
      KeptPlacement(entry, placed, Snapshot(g), r, c, n);
      return;
    }
    g[r, c] := 0;
    SameCells(Snapshot(g), entry);
  }

  /** When some completion of `b` holds `n` at the empty cell (r, c), the
      constraint check accepts `n` there and the grid with `n` written is
      still completable. */
  lemma CompletableWithPlaced(b: Board, r: int, c: int, n: int)
    requires Square9(b) && InGrid(r, c) && b[r][c] == 0
    ensures CompletableWith(b, r, c, n) ==> Allowed(b, r, c, n) && Completable(SetCell(b, r, c, n))
  {
    if CompletableWith(b, r, c, n) {
      var s :| Completion(s, b) && s[r][c] == n;
      CompletionAllows(s, b, r, c);
      assert Completion(s, SetCell(b, r, c, n));
    }
  }

  /** What a successful recursive call on the grid with `n` placed at the empty
      cell (r, c) tells about the entry grid. */
  lemma KeptPlacement(entry: Board, placed: Board, final: Board, r: int, c: int, n: int)
    requires Square9(entry) && Square9(final) && InGrid(r, c)
    requires entry[r][c] == 0 && 1 <= n <= 9 && Allowed(entry, r, c, n)
    requires placed == SetCell(entry, r, c, n)
    requires Extends(final, placed)
    requires InRange(placed) ==> InRange(final)
    requires NoConflict(placed) ==> NoConflict(final)
    ensures Extends(final, entry)
    ensures InRange(entry) ==> InRange(final)
    ensures NoConflict(entry) ==> NoConflict(final)
  {
    ExtendsTransitive(final, placed, entry);
    if NoConflict(entry) {
      PlaceKeepsNoConflict(entry, r, c, n);
    }
  }

  /** A fixed solved grid: row r is 1..9 rotated left by `Shift(r)`. */
  function Pattern(): (p: Board)
    ensures Square9(p)
    ensures forall r, c :: InGrid(r, c) ==> p[r][c] == PatternDigit(r, c)
  {
    seq(9, r requires 0 <= r < 9 => seq(9, c requires 0 <= c < 9 => PatternDigit(r, c)))
  }

  function Shift(r: int): int {
    3 * (r % 3) + r / 3
  }

  function PatternDigit(r: int, c: int): int {
    (Shift(r) + c) % 9 + 1
  }

  /** Values in 0..16 that differ by less than 9 differ modulo 9. */
  lemma ModNineDiffers(x: int, y: int)
    requires 0 <= x <= 16 && 0 <= y <= 16 && x != y && -9 < x - y < 9
    ensures x % 9 != y % 9
  {
    assert x % 9 == if x < 9 then x else x - 9;
    assert y % 9 == if y < 9 then y else y - 9;
  }

  lemma PatternDigitsDiffer(r1: int, c1: int, r2: int, c2: int)
    requires InGrid(r1, c1) && InGrid(r2, c2) && (r1, c1) != (r2, c2)
    requires SameUnit(r1, c1, r2, c2)
    ensures PatternDigit(r1, c1) != PatternDigit(r2, c2)
  {
    var i1, i2, j1, j2 := r1 % 3, r2 % 3, c1 % 3, c2 % 3;
    assert r1 == 3 * (r1 / 3) + i1 && r2 == 3 * (r2 / 3) + i2;
    assert c1 == 3 * (c1 / 3) + j1 && c2 == 3 * (c2 / 3) + j2;
    var x1, x2 := Shift(r1) + c1, Shift(r2) + c2;
    if r1 == r2 {
      assert x1 - x2 == c1 - c2;
    } else if c1 == c2 {
      assert x1 - x2 == 3 * (i1 - i2) + (r1 / 3 - r2 / 3);
    } else {
      assert x1 - x2 == 3 * (i1 - i2) + (j1 - j2);
    }
    ModNineDiffers(x1, x2);
  }

  /** The empty grid can be completed, so the completer succeeds on it. */
  lemma EmptyCompletable(b: Board)
    requires Square9(b) && forall i, j :: InGrid(i, j) ==> b[i][j] == 0
    ensures Completable(b)
  {
    var p := Pattern();
    forall r1, c1, r2, c2 |
      InGrid(r1, c1) && InGrid(r2, c2) && (r1, c1) != (r2, c2) &&
      SameUnit(r1, c1, r2, c2) && p[r1][c1] != 0
      ensures p[r1][c1] != p[r2][c2]
    {
      PatternDigitsDiffer(r1, c1, r2, c2);
    }
    assert Completion(p, b);
  }
}
