/** solveSudoku with its validity check moved after the write.

    In src/sudoku.c:85-86 the check `isValid(grid)` runs before
    `grid[row][col] = num`, so it judges the board as it was before the digit
    went in; each placement is only judged by the next level of recursion,
    and the placement in the last empty cell by none (`Solver.SearchLastCell`).
    The answer is still right (`Solver.SearchDecides`); the board left behind
    is what goes wrong. Here the digit is written first and the board is
    checked with it in place. With that order the board left behind is a
    solution too: on a board with an empty cell, or on any board that passes
    the check, a true answer comes with a solution. As in the code as
    written, a board with an empty cell is answered true exactly when it has
    a solution, and a full board is answered true as it stands. */
module Checked {
  import opened Grid
  import opened Validity
  import opened Solver

  /** The corrected search on a board: its answer and the board it leaves. */
  function SearchChecked(g: Board): (r: (bool, Board))
    requires IsBoard(g)
    ensures |r.1| == CellCount
    ensures !r.0 ==> r.1 == g
    decreases ZeroCount(g), 1, 0
  {
    var p := FirstZero(g);
    if p == CellCount then (true, g)
    else TryChecked(g, p, 1)
  }

  /** The corrected loop over `num` from digit `num` on, for the empty cell
      `p`: write the digit, check, recurse, write 0 back. */
  function TryChecked(g: Board, p: int, num: int): (r: (bool, Board))
    requires IsBoard(g) && 0 <= p < CellCount && g[p] == 0 && 1 <= num <= Size + 1
    ensures |r.1| == CellCount
    ensures !r.0 ==> r.1 == g
    decreases ZeroCount(g), 0, Size + 1 - num
  {
    if num > Size then (false, g)
    else
      var h := g[p := num];
      ZeroCountFill(g, p, num);
      if GridValid(h) then
        var sub := SearchChecked(h);
        if sub.0 then sub
        else
          assert sub.1[p := 0] == g;
          TryChecked(sub.1[p := 0], p, num + 1)
      else TryChecked(g, p, num + 1)
  }

  /** A board with no empty cell is reported solved and left as it is. */
  lemma CheckedFull(g: Board)
    requires IsBoard(g) && !HasZero(g)
    ensures SearchChecked(g) == (true, g)
  {
  }

  /** One step of the corrected loop over `num`. */
  lemma TryCheckedStep(g: Board, p: int, num: int)
    requires IsBoard(g) && 0 <= p < CellCount && g[p] == 0 && 1 <= num <= Size
    ensures ZeroCount(g[p := num]) < ZeroCount(g)
    ensures TryChecked(g, p, num) ==
      if GridValid(g[p := num]) && SearchChecked(g[p := num]).0 then SearchChecked(g[p := num])
      else TryChecked(g, p, num + 1)
  {
    ZeroCountFill(g, p, num);
    assert g[p := num][p := 0] == g;
    if GridValid(g[p := num]) && !SearchChecked(g[p := num]).0 {
      assert SearchChecked(g[p := num]).1[p := 0] == g;
    }
  }

  /** The corrected search is sound: a true answer comes with a full board
      of digits 1..9 that keeps every given. That board passes the validity
      check whenever the input had an empty cell or passed the check itself;
      a full board is handed back as it is, valid or not. */
  lemma {:induction false} CheckedSound(g: Board)
    requires IsBoard(g)
    ensures Fills(SearchChecked(g), g)
    ensures SearchChecked(g).0 && HasZero(g) ==> GridValid(SearchChecked(g).1)
    ensures SearchChecked(g).0 && GridValid(g) ==> GridValid(SearchChecked(g).1)
    decreases ZeroCount(g), 1, 0
  {
    var p := FirstZero(g);
    if p < CellCount {
      TryCheckedSound(g, p, 1);
    }
  }

  lemma {:induction false} TryCheckedSound(g: Board, p: int, num: int)
    requires IsBoard(g) && 0 <= p < CellCount && g[p] == 0 && 1 <= num <= Size + 1
    ensures Fills(TryChecked(g, p, num), g)
    ensures TryChecked(g, p, num).0 ==> GridValid(TryChecked(g, p, num).1)
    decreases ZeroCount(g), 0, Size + 1 - num
  {
    if num <= Size {
      TryCheckedStep(g, p, num);
      var h := g[p := num];
      if GridValid(h) && SearchChecked(h).0 {
        assert TryChecked(g, p, num) == SearchChecked(h);
        CheckedSound(h);
        if !HasZero(h) {
          assert SearchChecked(h).1 == h;
        }
        FillsAfterFill(SearchChecked(h), g, p, num);
      } else {
        assert TryChecked(g, p, num) == TryChecked(g, p, num + 1);
        TryCheckedSound(g, p, num + 1);
      }
    }
  }

  /** Every board with a solution is answered true. */
  lemma {:induction false} CheckedComplete(g: Board, s: Board)
    requires IsBoard(g) && IsBoard(s) && Completes(s, g)
    ensures SearchChecked(g).0
    decreases ZeroCount(g), 1, 0
  {
    var p := FirstZero(g);
    if p < CellCount {
      TryCheckedComplete(g, p, 1, s);
    }
  }

  lemma {:induction false} TryCheckedComplete(g: Board, p: int, num: int, s: Board)
    requires IsBoard(g) && IsBoard(s) && Completes(s, g)
    requires 0 <= p < CellCount && g[p] == 0 && 1 <= num <= s[p]
    ensures TryChecked(g, p, num).0
    decreases ZeroCount(g), 0, Size + 1 - num
  {
    var h := g[p := num];
    TryCheckedStep(g, p, num);
    if num == s[p] {
      SolutionFill(s, g, p);
      CheckedComplete(h, s);
      assert TryChecked(g, p, num) == SearchChecked(h);
    } else if !(GridValid(h) && SearchChecked(h).0) {
      assert TryChecked(g, p, num) == TryChecked(g, p, num + 1);
      TryCheckedComplete(g, p, num + 1, s);
    }
  }

  /** The corrected search decides a board with an empty cell: it answers
      true exactly when the board has a solution, and then leaves one. */
  lemma CheckedDecides(g: Board)
    requires IsBoard(g) && HasZero(g)
    ensures SearchChecked(g).0 <==> exists s :: IsBoard(s) && Completes(s, g)
    ensures SearchChecked(g).0 ==> IsBoard(SearchChecked(g).1) && Completes(SearchChecked(g).1, g)
  {
    var r := SearchChecked(g);
    CheckedSound(g);
    if r.0 {
      assert Completes(r.1, g);
    }
    if s :| IsBoard(s) && Completes(s, g) {
      CheckedComplete(g, s);
    }
  }

  /** The corrected loop body for digit `num` at the empty cell (row, col):
      write `num`, check the board with it in place, recurse if it passes,
      and write 0 back unless the recursion succeeded. */
  method TryDigitChecked(grid: array2<int>, row: int, col: int, num: int) returns (solved: bool)
    requires WellFormed(grid) && 0 <= row < Size && 0 <= col < Size && 1 <= num <= Size
    requires Snapshot(grid)[Index(row, col)] == 0
    modifies grid
    ensures WellFormed(grid)
    ensures var g, p := old(Snapshot(grid)), Index(row, col);
      if solved then (true, Snapshot(grid)) == TryChecked(g, p, num)
      else Snapshot(grid) == g && TryChecked(g, p, num) == TryChecked(g, p, num + 1)
    decreases ZeroCount(Snapshot(grid)), 0
  {
    ghost var g := Snapshot(grid);
    ghost var p := Index(row, col);
    TryCheckedStep(g, p, num);
    Place(grid, row, col, num);
    var valid := IsValid(grid);
    solved := false;
    if valid {
      solved := SolveSudokuChecked(grid);
    }
    if !solved {
      Place(grid, row, col, 0);
      assert g[p := num][p := 0] == g;
    }
  }

  /** The corrected solveSudoku on the array: the first empty cell gets each
      digit in turn, the board is checked with the digit in place, and the
      write is undone when the check or the recursion fails. */
  method SolveSudokuChecked(grid: array2<int>) returns (solved: bool)
    requires WellFormed(grid)
    modifies grid
    ensures WellFormed(grid)
    ensures (solved, Snapshot(grid)) == SearchChecked(old(Snapshot(grid)))
    decreases ZeroCount(Snapshot(grid)), 1
  {
    ghost var g0 := Snapshot(grid);
    var row, col, isEmpty := FindEmpty(grid);
    if !isEmpty {
      return true;
    }
    ghost var p := Index(row, col);
    for num := 1 to Size + 1
      invariant WellFormed(grid)
      invariant Snapshot(grid) == g0
      invariant TryChecked(g0, p, num) == SearchChecked(g0)
    {
      solved := TryDigitChecked(grid, row, col, num);
      if solved {
        return true;
      }
    }
    return false;
  }
}
