/** The nine rows, nine columns and nine boxes of a grid as sequences, and the
    fact that a solved grid holds each digit 1..9 exactly once in every one of them. */
module Units {
  import opened Grid

  /** Nine digits, each of 1..9, none twice: a row, column or box of a solved
      grid, and also any order in which the digits may be tried. */
  predicate EachDigitOnce(u: seq<int>) {
    |u| == 9 &&
    (forall i :: 0 <= i < 9 ==> 1 <= u[i] <= 9) &&
    (forall i, j :: 0 <= i < j < 9 ==> u[i] != u[j]) &&
    (forall d :: 1 <= d <= 9 ==> d in u)
  }

  function Row(b: Board, r: int): (u: seq<int>)
    requires Square9(b) && 0 <= r < 9
    ensures |u| == 9 && forall j :: 0 <= j < 9 ==> u[j] == b[r][j]
  {
    b[r]
  }

  function Column(b: Board, c: int): (u: seq<int>)
    requires Square9(b) && 0 <= c < 9
    ensures |u| == 9 && forall i :: 0 <= i < 9 ==> u[i] == b[i][c]
  {
    seq(9, i requires 0 <= i < 9 => b[i][c])
  }

  /** Row of the `i`-th cell (0..8, row-major) of box `k` (0..8, row-major). */
  function BoxRow(k: int, i: int): int {
    k / 3 * 3 + i / 3
  }

  /** Column of the `i`-th cell (0..8, row-major) of box `k` (0..8, row-major). */
  function BoxCol(k: int, i: int): int {
    k % 3 * 3 + i % 3
  }

  function Box(b: Board, k: int): (u: seq<int>)
    requires Square9(b) && 0 <= k < 9
    ensures |u| == 9 && forall i :: 0 <= i < 9 ==> u[i] == b[BoxRow(k, i)][BoxCol(k, i)]
  {
    seq(9, i requires 0 <= i < 9 => b[BoxRow(k, i)][BoxCol(k, i)])
  }

  lemma {:induction false} DistinctElements(u: seq<int>)
    requires forall i, j :: 0 <= i < j < |u| ==> u[i] != u[j]
    ensures |set x | x in u| == |u|
  {
    if u != [] {
      var p := u[..|u| - 1];
      DistinctElements(p);
      assert (set x | x in u) == (set x | x in p) + {u[|u| - 1]};
    }
  }

  /** A subset as large as its superset is the whole superset. */
  lemma SubsetOfSameSize(a: set<int>, b: set<int>)
    requires a <= b && |a| >= |b|
    ensures a == b
  {
    assert |b - a| == |b| - |a|;
  }

  /** Pigeonhole: nine distinct digits of 1..9 are all of 1..9. */
  lemma NineDistinctDigits(u: seq<int>)
    requires |u| == 9
    requires forall i :: 0 <= i < 9 ==> 1 <= u[i] <= 9
    requires forall i, j :: 0 <= i < j < 9 ==> u[i] != u[j]
    ensures EachDigitOnce(u)
  {
    var elems := set x | x in u;
    DistinctElements(u);
    assert elems <= Digits;
    assert |Digits| == 9;
    SubsetOfSameSize(elems, Digits);
    forall d | 1 <= d <= 9
      ensures d in u
    {
      assert d in Digits;
    }
  }

  lemma RowHoldsEachDigit(b: Board, r: int)
    requires Solved(b) && 0 <= r < 9
    ensures EachDigitOnce(Row(b, r))
  {
    var u := Row(b, r);
    forall i, j | 0 <= i < j < 9
      ensures u[i] != u[j]
    {
      assert SameUnit(r, i, r, j) && InGrid(r, i) && InGrid(r, j);
    }
    NineDistinctDigits(u);
  }

  lemma ColumnHoldsEachDigit(b: Board, c: int)
    requires Solved(b) && 0 <= c < 9
    ensures EachDigitOnce(Column(b, c))
  {
    var u := Column(b, c);
    forall i, j | 0 <= i < j < 9
      ensures u[i] != u[j]
    {
      assert SameUnit(i, c, j, c) && InGrid(i, c) && InGrid(j, c);
    }
    NineDistinctDigits(u);
  }

  lemma DivModThree(q: int, m: int)
    requires 0 <= m < 3
    ensures (3 * q + m) / 3 == q && (3 * q + m) % 3 == m
  {
  }

  /** Two different positions of box `k` are two different cells of one box. */
  lemma BoxCellsShareBox(k: int, i: int, j: int)
    requires 0 <= k < 9 && 0 <= i < j < 9
    ensures InGrid(BoxRow(k, i), BoxCol(k, i)) && InGrid(BoxRow(k, j), BoxCol(k, j))
    ensures (BoxRow(k, i), BoxCol(k, i)) != (BoxRow(k, j), BoxCol(k, j))
    ensures SameUnit(BoxRow(k, i), BoxCol(k, i), BoxRow(k, j), BoxCol(k, j))
  {
    var kr, kc := k / 3, k % 3;
    DivModThree(kr, i / 3);
    DivModThree(kr, j / 3);
    DivModThree(kc, i % 3);
    DivModThree(kc, j % 3);
    DivModThree(i / 3, i % 3);
    DivModThree(j / 3, j % 3);
  }

  lemma BoxHoldsEachDigit(b: Board, k: int)
    requires Solved(b) && 0 <= k < 9
    ensures EachDigitOnce(Box(b, k))
  {
    var u := Box(b, k);
    forall i, j | 0 <= i < j < 9
      ensures u[i] != u[j]
    {
      BoxCellsShareBox(k, i, j);
    }
    NineDistinctDigits(u);
  }

  /** Every row, column and box of a solved grid holds each of 1..9 exactly once. */
  lemma SolvedUnits(b: Board)
    requires Solved(b)
    ensures forall r :: 0 <= r < 9 ==> EachDigitOnce(Row(b, r))
    ensures forall c :: 0 <= c < 9 ==> EachDigitOnce(Column(b, c))
    ensures forall k :: 0 <= k < 9 ==> EachDigitOnce(Box(b, k))
  {
    forall r | 0 <= r < 9
      ensures EachDigitOnce(Row(b, r))
    {
      RowHoldsEachDigit(b, r);
    }
    forall c | 0 <= c < 9
      ensures EachDigitOnce(Column(b, c))
    {
      ColumnHoldsEachDigit(b, c);
    }
    forall k | 0 <= k < 9
      ensures EachDigitOnce(Box(b, k))
    {
      BoxHoldsEachDigit(b, k);
    }
  }
}
