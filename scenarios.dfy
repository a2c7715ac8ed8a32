/** Concrete boards for the solvers of src/sudoku.c.

    `Pattern` is a full solution: row r is 1..9 rotated left by
    3 * (r mod 3) + r / 3. `Broken` is that solution with the cell at row 0,
    column 1 (holding 2) emptied. The solver as written answers true on it
    and leaves 1 in that cell, next to the 1 at row 0, column 0; the corrected
    solver puts the 2 back. `TwoFives` has two 5s in row 0 and nothing else:
    it fails the validity check and the solver answers false. `Zeros` is the
    empty board, which both solvers answer true. */
module Scenarios {
  import opened Grid
  import opened Validity
  import opened Solver
  import opened Checked

  /** The rotation of row r of `Pattern`: 3 * (r mod 3) + r / 3. */
  function Shift(r: int): int {
    if r < 3 then 3 * r
    else if r < 6 then 3 * (r - 3) + 1
    else 3 * (r - 6) + 2
  }

  /** x mod 9, plus 1, for 0 <= x < 18. */
  function Wrap(x: int): int {
    if x < 9 then x + 1 else x - 8
  }

  /** `g` holds Wrap(Shift(r) + c) at every cell (r, c). */
  predicate Follows(g: Board) {
    |g| == CellCount &&
    forall r, c :: 0 <= r < Size && 0 <= c < Size ==> g[Index(r, c)] == Wrap(Shift(r) + c)
  }

  /** A full solution: cell (r, c) holds Wrap(Shift(r) + c). */
  const Pattern: Board :=
    seq(CellCount, p requires 0 <= p < CellCount => Wrap(Shift(RowOf(p)) + p - 9 * RowOf(p)))

  lemma PatternFollows()
    ensures Follows(Pattern)
  {
    forall r, c | 0 <= r < Size && 0 <= c < Size
      ensures Pattern[Index(r, c)] == Wrap(Shift(r) + c)
    {
      assert RowOf(Index(r, c)) == r;
    }
  }

  /** Every cell of such a board holds a digit 1..9. */
  lemma FollowsFull(g: Board)
    requires Follows(g)
    ensures IsBoard(g) && !HasZero(g)
  {
    forall p | 0 <= p < CellCount
      ensures 1 <= g[p] <= Size
    {
      var r := RowOf(p);
      assert g[Index(r, p - 9 * r)] == Wrap(Shift(r) + p - 9 * r);
    }
  }

  lemma FollowsRows(g: Board)
    requires Follows(g)
    ensures RowsValid(g)
  {
    forall i | 0 <= i < Size
      ensures NoRepeat(Row(g, i))
    {
      forall a, b | 0 <= a < b < Size
        ensures Row(g, i)[a] != Row(g, i)[b]
      {
        assert Row(g, i)[a] == g[Index(i, a)];
        assert Row(g, i)[b] == g[Index(i, b)];
      }
    }
  }

  lemma ShiftInjective(a: int, b: int)
    requires 0 <= a < Size && 0 <= b < Size && a != b
    ensures 0 <= Shift(a) < Size && 0 <= Shift(b) < Size && Shift(a) != Shift(b)
  {
  }

  lemma FollowsColumns(g: Board)
    requires Follows(g)
    ensures ColumnsValid(g)
  {
    forall j | 0 <= j < Size
      ensures NoRepeat(Column(g, j))
    {
      forall a, b | 0 <= a < b < Size
        ensures Column(g, j)[a] != Column(g, j)[b]
      {
        assert Column(g, j)[a] == g[Index(a, j)];
        assert Column(g, j)[b] == g[Index(b, j)];
        ShiftInjective(a, b);
      }
    }
  }

  /** Row 3 * br + i is rotated by 3 * i + br. */
  lemma ShiftInBox(br: int, i: int)
    requires 0 <= br < 3 && 0 <= i < 3
    ensures Shift(3 * br + i) == 3 * i + br
  {
  }

  lemma WrapInBox(br: int, bc: int, i: int, j: int)
    requires 0 <= br < 3 && 0 <= bc < 3 && 0 <= i < 3 && 0 <= j < 3
    ensures Wrap(Shift(3 * br + i) + 3 * bc + j) == Wrap(br + 3 * bc + 3 * i + j)
  {
    ShiftInBox(br, i);
  }

  /** Cell k = 3 * i + j of box (br, bc) holds Wrap(br + 3 * bc + k). */
  lemma FollowsBoxAt(g: Board, br: int, bc: int, i: int, j: int)
    requires Follows(g)
    requires 0 <= br < 3 && 0 <= bc < 3 && 0 <= i < 3 && 0 <= j < 3
    ensures Box(g, br, bc)[3 * i + j] == Wrap(br + 3 * bc + 3 * i + j)
  {
    BoxAt(g, br, bc, i, j);
    assert g[Index(3 * br + i, 3 * bc + j)] == Wrap(Shift(3 * br + i) + 3 * bc + j);
    WrapInBox(br, bc, i, j);
  }

  lemma FollowsBoxes(g: Board)
    requires Follows(g)
    ensures BoxesValid(g)
  {
    forall br, bc | 0 <= br < 3 && 0 <= bc < 3
      ensures NoRepeat(Box(g, br, bc))
    {
      forall a, b | 0 <= a < b < Size
        ensures Box(g, br, bc)[a] != Box(g, br, bc)[b]
      {
        var ia, ib := BoxLine(a), BoxLine(b);
        FollowsBoxAt(g, br, bc, ia, a - 3 * ia);
        FollowsBoxAt(g, br, bc, ib, b - 3 * ib);
      }
    }
  }

  /** `Pattern` is a solution: full, within 0..9, and valid. */
  lemma PatternValid()
    ensures IsBoard(Pattern) && !HasZero(Pattern) && GridValid(Pattern)
  {
    PatternFollows();
    FollowsFull(Pattern);
    FollowsRows(Pattern);
    FollowsColumns(Pattern);
    FollowsBoxes(Pattern);
    GridValidIff(Pattern);
  }

  /** The solution with row 0, column 1 emptied. */
  const Broken: Board := Pattern[1 := 0]

  /** What the solvers see in `Broken`: a valid board whose only empty cell
      is index 1, 1 at index 0, and the solution 2 missing at index 1. */
  lemma BrokenFacts()
    ensures IsBoard(Broken) && GridValid(Broken) && Completes(Pattern, Broken)
    ensures IsLastZero(Broken, 1) && FirstZero(Broken) == 1
    ensures Broken[1 := 2] == Pattern
    ensures !GridValid(Broken[1 := 1])
  {
    PatternValid();
    PatternFollows();
    ClearCell(Pattern, 1);
    assert Pattern[Index(0, 0)] == 1 && Pattern[Index(0, 1)] == 2;
    assert FirstZero(Broken) == 1;
    var bad := Broken[1 := 1];
    assert Row(bad, 0)[0] == 1 == Row(bad, 0)[1];
    RowBreaks(bad, 0);
  }

  /** The solver as written leaves an invalid board behind and answers true:
      the check before the last write sees `Broken`, which is valid, then 1
      goes into the empty cell beside the 1 already in row 0. */
  lemma UncheckedLastWrite()
    ensures Search(Broken) == (true, Broken[1 := 1])
    ensures !GridValid(Search(Broken).1)
  {
    BrokenFacts();
    FillLast(Broken, 1);
  }

  /** The corrected solver rejects 1 in that cell and restores the
      solution. */
  lemma CheckedRestoresSolution()
    ensures SearchChecked(Broken) == (true, Pattern)
  {
    BrokenFacts();
    PatternValid();
    TryCheckedStep(Broken, 1, 1);
    TryCheckedStep(Broken, 1, 2);
  }

  /** Two 5s in row 0, every other cell empty. */
  const TwoFives: Board := seq(CellCount, p requires 0 <= p < CellCount => if p < 2 then 5 else 0)

  /** A repeated given is caught by the first check: the answer is false and
      the board is left as it was. */
  lemma RepeatedGivenRejected()
    ensures IsBoard(TwoFives) && !GridValid(TwoFives)
    ensures Search(TwoFives) == (false, TwoFives)
  {
    assert Row(TwoFives, 0)[0] == 5 == Row(TwoFives, 0)[1];
    RowBreaks(TwoFives, 0);
    assert TwoFives[2] == 0;
    SearchRejectsInvalid(TwoFives);
  }

  /** The empty board: every cell 0. */
  const Zeros: Board := seq(CellCount, p requires 0 <= p < CellCount => 0)

  /** The solver as written answers true on the empty board, since
      `Pattern` completes it; the last cell, index 80, ends up holding 1, and
      clearing it again gives a board that passes the check. */
  lemma EmptyBoardSolved()
    ensures Search(Zeros).0 && Search(Zeros).1[80] == 1
    ensures GridValid(Search(Zeros).1[80 := 0])
  {
    PatternValid();
    assert Completes(Pattern, Zeros);
    SearchComplete(Zeros, Pattern);
    assert IsLastZero(Zeros, 80);
    SearchLastCell(Zeros, 80);
  }

  /** The corrected solver answers true on the empty board and leaves a
      full valid board. */
  lemma EmptyBoardChecked()
    ensures SearchChecked(Zeros).0
    ensures IsBoard(SearchChecked(Zeros).1) && !HasZero(SearchChecked(Zeros).1)
    ensures GridValid(SearchChecked(Zeros).1)
  {
    PatternValid();
    assert Completes(Pattern, Zeros);
    assert Zeros[0] == 0;
    CheckedDecides(Zeros);
  }
}
