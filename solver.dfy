/** The backtracking solver `solveSudoku` of src/sudoku.c.

    `Search` is the solver as a function on boards: the answer it returns and
    the board it leaves behind. `SolveSudoku` is the C procedure on the 9x9
    array, proved to end in exactly the state `Search` describes. The lemmas
    say what that state is: a board with an empty cell that fails the
    validity check is rejected untouched, a failed search restores its
    input, a successful one fills every empty cell and keeps every given,
    and on a board with an empty cell it answers true exactly when the board
    has a solution (`SearchDecides`). The board it leaves need not be that
    solution: the last cell it fills always receives 1 without a check
    (see `SearchLastCell`). */
module Solver {
  import opened Grid
  import opened Validity
  import opened Completion

  /** Index of the first empty cell at or after k in row-major order, or
      CellCount when there is none. */
  function FirstZeroFrom(g: Board, k: int): (r: int)
    requires |g| == CellCount && 0 <= k <= CellCount
    ensures k <= r <= CellCount
    ensures r < CellCount ==> g[r] == 0
    ensures forall q :: k <= q < r ==> g[q] != 0
    decreases CellCount - k
  {
    if k == CellCount then CellCount
    else if g[k] == 0 then k
    else FirstZeroFrom(g, k + 1)
  }

  /** The cell the search fills next: the first empty one in row-major
      order, or CellCount when the board is full. */
  function FirstZero(g: Board): (r: int)
    requires |g| == CellCount
    ensures 0 <= r <= CellCount
    ensures r < CellCount <==> HasZero(g)
    ensures r < CellCount ==> g[r] == 0
    ensures forall q :: 0 <= q < r ==> g[q] != 0
  {
    FirstZeroFrom(g, 0)
  }

  /** solveSudoku (src/sudoku.c:61-99) on a board: its answer and the board
      it leaves. The first empty cell is filled with 1..9 in turn, each try
      guarded by the validity check of the board as it stands before the
      digit is written; a failed recursive call is undone by writing 0
      back. */
  function Search(g: Board): (r: (bool, Board))
    requires IsBoard(g)
    ensures |r.1| == CellCount
    ensures !r.0 ==> r.1 == g
    decreases ZeroCount(g), 1, 0
  {
    var p := FirstZero(g);
    if p == CellCount then (true, g)
    else TryDigits(g, p, 1)
  }

  /** The loop over `num` (src/sudoku.c:84-96) from digit `num` on, for the
      empty cell `p`. */
  function TryDigits(g: Board, p: int, num: int): (r: (bool, Board))
    requires IsBoard(g) && 0 <= p < CellCount && g[p] == 0 && 1 <= num <= Size + 1
    ensures |r.1| == CellCount
    ensures !r.0 ==> r.1 == g
    decreases ZeroCount(g), 0, Size + 1 - num
  {
    if num > Size then (false, g)
    else if GridValid(g) then
      var h := g[p := num];
      ZeroCountFill(g, p, num);
      var sub := Search(h);
      if sub.0 then sub
      else
        assert sub.1[p := 0] == g;
        TryDigits(sub.1[p := 0], p, num + 1)
    else TryDigits(g, p, num + 1)
  }

  /** One step of the loop over `num`: a try whose recursive search fails
      hands the board, restored, to the next digit. */
  lemma TryStep(g: Board, p: int, num: int)
    requires IsBoard(g) && 0 <= p < CellCount && g[p] == 0 && 1 <= num <= Size
    ensures ZeroCount(g[p := num]) < ZeroCount(g)
    ensures TryDigits(g, p, num) ==
      if GridValid(g) && Search(g[p := num]).0 then Search(g[p := num])
      else TryDigits(g, p, num + 1)
  {
    ZeroCountFill(g, p, num);
    if GridValid(g) && !Search(g[p := num]).0 {
      assert Search(g[p := num]).1[p := 0] == g;
    }
  }

  /** What the search promises about its answer and board `r` for the
      board `g`: every cell holds 0..9, every given of `g` is kept, and a
      true answer comes with no empty cell left. */
  predicate Fills(r: (bool, Board), g: Board)
    requires |r.1| == |g|
  {
    Digits(r.1) && Keeps(r.1, g) && (r.0 ==> !HasZero(r.1))
  }

  /** Filling an empty cell of `g` and searching from there keeps the
      promise for `g` itself. */
  lemma FillsAfterFill(r: (bool, Board), g: Board, p: int, v: int)
    requires |r.1| == |g| && 0 <= p < |g| && g[p] == 0
    requires Fills(r, g[p := v])
    ensures Fills(r, g)
  {
    KeepsAfterFill(r.1, g, p, v);
  }

  /** A successful search fills every empty cell with a digit 1..9 and
      keeps every given; a failed one leaves the board as it was. */
  lemma {:induction false} SearchFills(g: Board)
    requires IsBoard(g)
    ensures Fills(Search(g), g)
    decreases ZeroCount(g), 1, 0
  {
    var p := FirstZero(g);
    if p < CellCount {
      TryFills(g, p, 1);
    }
  }

  lemma {:induction false} TryFills(g: Board, p: int, num: int)
    requires IsBoard(g) && 0 <= p < CellCount && g[p] == 0 && 1 <= num <= Size + 1
    ensures Fills(TryDigits(g, p, num), g)
    decreases ZeroCount(g), 0, Size + 1 - num
  {
    if num <= Size {
      TryStep(g, p, num);
      var h := g[p := num];
      if GridValid(g) && Search(h).0 {
        assert TryDigits(g, p, num) == Search(h);
        SearchFills(h);
        FillsAfterFill(Search(h), g, p, num);
      } else {
        assert TryDigits(g, p, num) == TryDigits(g, p, num + 1);
        TryFills(g, p, num + 1);
      }
    }
  }

  /** A board with no empty cell is reported solved and left as it is. */
  lemma SearchFull(g: Board)
    requires IsBoard(g) && !HasZero(g)
    ensures Search(g) == (true, g)
  {
  }

  /** With the validity check failing, every remaining try is skipped. */
  lemma {:induction false} GateClosed(g: Board, p: int, num: int)
    requires IsBoard(g) && 0 <= p < CellCount && g[p] == 0 && 1 <= num <= Size + 1
    requires !GridValid(g)
    ensures TryDigits(g, p, num) == (false, g)
    decreases Size + 1 - num
  {
    if num <= Size {
      GateClosed(g, p, num + 1);
    }
  }

  /** A board with an empty cell that fails the validity check is answered
      false and left unchanged. */
  lemma SearchRejectsInvalid(g: Board)
    requires IsBoard(g) && HasZero(g) && !GridValid(g)
    ensures Search(g) == (false, g)
  {
    GateClosed(g, FirstZero(g), 1);
  }

  /** `last` is the last empty cell of `g` in row-major order. */
  predicate IsLastZero(g: Board, last: int)
    requires |g| == CellCount
  {
    0 <= last < CellCount && g[last] == 0 &&
    forall q :: last < q < CellCount ==> g[q] != 0
  }

  /** What a successful search leaves in the last empty cell: the digit 1,
      written without a check. Taking it back out gives a board that passes
      the validity check. */
  lemma {:induction false} SearchLastCell(g: Board, last: int)
    requires IsBoard(g) && IsLastZero(g, last)
    ensures Search(g).0 ==> Search(g).1[last] == 1
    ensures Search(g).0 ==> GridValid(Search(g).1[last := 0])
    decreases ZeroCount(g), 1, 0
  {
    TryLastCell(g, FirstZero(g), 1, last);
  }

  lemma {:induction false} TryLastCell(g: Board, p: int, num: int, last: int)
    requires IsBoard(g) && IsLastZero(g, last) && p == FirstZero(g) && p < CellCount
    requires 1 <= num <= Size + 1 && (p < last || num == 1)
    ensures TryDigits(g, p, num).0 ==> TryDigits(g, p, num).1[last] == 1
    ensures TryDigits(g, p, num).0 ==> GridValid(TryDigits(g, p, num).1[last := 0])
    decreases ZeroCount(g), 0, Size + 1 - num
  {
    if num <= Size {
      if !GridValid(g) {
        GateClosed(g, p, num);
      } else if p == last {
        FillLast(g, last);
      } else {
        TryStep(g, p, num);
        var h := g[p := num];
        assert IsLastZero(h, last);
        if Search(h).0 {
          assert TryDigits(g, p, num) == Search(h);
          SearchLastCell(h, last);
        } else {
          assert TryDigits(g, p, num) == TryDigits(g, p, num + 1);
          TryLastCell(g, p, num + 1, last);
        }
      }
    }
  }

  /** The try at the last empty cell: once the check passes, 1 is written
      and the recursive call finds a full board. */
  lemma FillLast(g: Board, last: int)
    requires IsBoard(g) && IsLastZero(g, last) && FirstZero(g) == last && GridValid(g)
    ensures TryDigits(g, last, 1) == (true, g[last := 1])
    ensures g[last := 1][last := 0] == g
  {
    var h := g[last := 1];
    TryStep(g, last, 1);
    FillOnlyZero(g, last, 1);
    SearchFull(h);
    assert TryDigits(g, last, 1) == Search(h);
    assert h[last := 0] == g;
  }

  /** Filling the only empty cell with a digit leaves a full board. */
  lemma FillOnlyZero(g: Board, last: int, v: int)
    requires IsBoard(g) && IsLastZero(g, last) && FirstZero(g) == last && 1 <= v <= Size
    ensures IsBoard(g[last := v]) && !HasZero(g[last := v])
  {
    var h := g[last := v];
    forall q | 0 <= q < CellCount
      ensures 1 <= h[q] <= Size
    {
      if q < last {
        assert g[q] != 0;
      }
    }
  }

  /** `s` is a solution of `g`: a full board that passes the validity check
      and keeps every digit given in `g`. */
  predicate Completes(s: Board, g: Board)
    requires |s| == CellCount && |g| == CellCount
  {
    !HasZero(s) && GridValid(s) && Keeps(s, g)
  }

  /** A board with a solution passes the validity check, and so does the
      board with one empty cell filled from the solution, which keeps the
      same solution. */
  lemma SolutionFill(s: Board, g: Board, p: int)
    requires IsBoard(s) && IsBoard(g) && Completes(s, g) && 0 <= p < CellCount && g[p] == 0
    ensures GridValid(g)
    ensures IsBoard(g[p := s[p]]) && Completes(s, g[p := s[p]]) && GridValid(g[p := s[p]])
  {
    ZeroingPreservesValid(s, g);
    ZeroingPreservesValid(s, g[p := s[p]]);
  }

  /** The search is complete: a board that has a solution is answered
      true. */
  lemma {:induction false} SearchComplete(g: Board, s: Board)
    requires IsBoard(g) && IsBoard(s) && Completes(s, g)
    ensures Search(g).0
    decreases ZeroCount(g), 1, 0
  {
    var p := FirstZero(g);
    if p < CellCount {
      TryComplete(g, p, 1, s);
    }
  }

  lemma {:induction false} TryComplete(g: Board, p: int, num: int, s: Board)
    requires IsBoard(g) && IsBoard(s) && Completes(s, g)
    requires 0 <= p < CellCount && g[p] == 0 && 1 <= num <= s[p]
    ensures TryDigits(g, p, num).0
    decreases ZeroCount(g), 0, Size + 1 - num
  {
    SolutionFill(s, g, p);
    var h := g[p := num];
    TryStep(g, p, num);
    if num == s[p] {
      SearchComplete(h, s);
      assert TryDigits(g, p, num) == Search(h);
    } else if !Search(h).0 {
      assert TryDigits(g, p, num) == TryDigits(g, p, num + 1);
      TryComplete(g, p, num + 1, s);
    }
  }

  /** The last empty cell before index k, or -1 when there is none. */
  function LastZeroBelow(g: Board, k: int): (r: int)
    requires |g| == CellCount && 0 <= k <= CellCount
    ensures -1 <= r < k
    ensures r >= 0 ==> g[r] == 0
    ensures forall q :: r < q < k ==> g[q] != 0
  {
    if k == 0 then -1
    else if g[k - 1] == 0 then k - 1
    else LastZeroBelow(g, k - 1)
  }

  /** A board with an empty cell has a last one. */
  lemma LastZeroExists(g: Board) returns (last: int)
    requires |g| == CellCount && HasZero(g)
    ensures IsLastZero(g, last)
  {
    last := LastZeroBelow(g, CellCount);
  }

  /** The solver as written decides a board with an empty cell: it answers
      true exactly when the board has a solution. Its answer is right even
      where the board it leaves is not a solution: taking the unchecked 1
      back out of the last empty cell and writing there the digit missing
      from that cell's row gives one. */
  lemma SearchDecides(g: Board)
    requires IsBoard(g) && HasZero(g)
    ensures Search(g).0 <==> exists s :: IsBoard(s) && Completes(s, g)
  {
    if s :| IsBoard(s) && Completes(s, g) {
      SearchComplete(g, s);
    }
    if Search(g).0 {
      var r := Search(g).1;
      var last := LastZeroExists(g);
      SearchFills(g);
      SearchLastCell(g, last);
      var h := r[last := 0];
      assert OneGap(h, last);
      var d := FillGap(h, last);
      var s := h[last := d];
      assert IsBoard(s) && !HasZero(s);
      assert Keeps(s, g);
      assert Completes(s, g);
    }
  }

  /** The lemmas above, for one board at once: the answer is right on every
      board with an empty cell, and a true answer may still leave the last
      empty cell holding a digit the check never saw. */
  lemma SearchSummary(g: Board)
    requires IsBoard(g)
    ensures !HasZero(g) ==> Search(g) == (true, g)
    ensures HasZero(g) && !GridValid(g) ==> Search(g) == (false, g)
    ensures Search(g).0 ==> forall last :: IsLastZero(g, last) ==>
      Search(g).1[last] == 1 && GridValid(Search(g).1[last := 0])
    ensures (exists s :: IsBoard(s) && Completes(s, g)) ==> Search(g).0
    ensures HasZero(g) && Search(g).0 ==> exists s :: IsBoard(s) && Completes(s, g)
  {
    if HasZero(g) {
      SearchDecides(g);
    }
    if HasZero(g) && !GridValid(g) {
      SearchRejectsInvalid(g);
    }
    forall last | IsLastZero(g, last)
      ensures Search(g).0 ==> Search(g).1[last] == 1 && GridValid(Search(g).1[last := 0])
    {
      SearchLastCell(g, last);
    }
    if s :| IsBoard(s) && Completes(s, g) {
      SearchComplete(g, s);
    }
  }

  /** The write `grid[row][col] = v` (src/sudoku.c:86 and 94): the board
      changes in that one cell. */
  method Place(grid: array2<int>, r: int, c: int, v: int)
    requires WellFormed(grid) && 0 <= r < Size && 0 <= c < Size && 0 <= v <= Size
    modifies grid
    ensures WellFormed(grid)
    ensures Snapshot(grid) == old(Snapshot(grid))[Index(r, c) := v]
  {
    grid[r, c] := v;
    forall p | 0 <= p < CellCount
      ensures Snapshot(grid)[p] == old(Snapshot(grid))[Index(r, c) := v][p]
    {
      var i := RowOf(p);
      assert Snapshot(grid)[p] == grid[i, p - 9 * i];
      assert old(Snapshot(grid))[p] == old(grid[i, p - 9 * i]);
    }
  }

  /** The first empty cell is the one with only filled cells before it. */
  lemma FirstZeroAt(g: Board, k: int)
    requires |g| == CellCount && 0 <= k <= CellCount
    requires forall q :: 0 <= q < k ==> g[q] != 0
    requires k < CellCount ==> g[k] == 0
    ensures FirstZero(g) == k
  {
  }

  /** The search for an empty cell (src/sudoku.c:66-76): rows top to
      bottom, each left to right, stopping at the first 0. */
  method FindEmpty(grid: array2<int>) returns (row: int, col: int, isEmpty: bool)
    requires WellFormed(grid)
    ensures isEmpty ==> 0 <= row < Size && 0 <= col < Size && Index(row, col) == FirstZero(Snapshot(grid))
    ensures !isEmpty ==> row == -1 && col == -1 && !HasZero(Snapshot(grid))
  {
    ghost var g := Snapshot(grid);
    row, col := -1, -1;
    isEmpty := false;
    for i := 0 to Size
      invariant !isEmpty && row == -1 && col == -1
      invariant forall q :: 0 <= q < 9 * i ==> g[q] != 0
    {
      for j := 0 to Size
        invariant !isEmpty && row == -1 && col == -1
        invariant forall q :: 0 <= q < 9 * i + j ==> g[q] != 0
      {
        SnapshotAt(grid, i, j);
        if grid[i, j] == 0 {
          FirstZeroAt(g, Index(i, j));
          row, col, isEmpty := i, j, true;
          break;
        }
      }
      if isEmpty {
        break;
      }
    }
    if !isEmpty {
      FirstZeroAt(g, CellCount);
    }
  }

  /** One pass of the loop body (src/sudoku.c:85-95) for digit `num` at
      the empty cell (row, col): if the board passes the check, write `num`,
      recurse, and write 0 back when the recursion fails. */
  method TryDigit(grid: array2<int>, row: int, col: int, num: int) returns (solved: bool)
    requires WellFormed(grid) && 0 <= row < Size && 0 <= col < Size && 1 <= num <= Size
    requires Snapshot(grid)[Index(row, col)] == 0
    modifies grid
    ensures WellFormed(grid)
    ensures var g, p := old(Snapshot(grid)), Index(row, col);
      if solved then (true, Snapshot(grid)) == TryDigits(g, p, num)
      else Snapshot(grid) == g && TryDigits(g, p, num) == TryDigits(g, p, num + 1)
    decreases ZeroCount(Snapshot(grid)), 0
  {
    ghost var g := Snapshot(grid);
    ghost var p := Index(row, col);
    TryStep(g, p, num);
    var valid := IsValid(grid);
    if !valid {
      return false;
    }
    Place(grid, row, col, num);
    solved := SolveSudoku(grid);
    if !solved {
      Place(grid, row, col, 0);
      assert g[p := num][p := 0] == g;
    }
  }

  /** solveSudoku (src/sudoku.c:61-99): finds the first empty cell, then
      tries the digits 1..9 there, each under the validity check, recursing
      after each write and writing 0 back when the recursion fails. It ends
      in the state `Search` describes, so its answer and its grid have the
      properties proved about `Search`. */
  method SolveSudoku(grid: array2<int>) returns (solved: bool)
    requires WellFormed(grid)
    modifies grid
    ensures WellFormed(grid)
    ensures (solved, Snapshot(grid)) == Search(old(Snapshot(grid)))
    decreases ZeroCount(Snapshot(grid)), 1
  {
    ghost var g0 := Snapshot(grid);
    var row, col, isEmpty := FindEmpty(grid);
    if !isEmpty {
      SearchFull(g0);
      return true;
    }
    ghost var p := Index(row, col);
    assert Search(g0) == TryDigits(g0, p, 1);
    for num := 1 to Size + 1
      invariant WellFormed(grid)
      invariant Snapshot(grid) == g0
      invariant TryDigits(g0, p, num) == Search(g0)
    {
      solved := TryDigit(grid, row, col, num);
      if solved {
        return true;
      }
    }
    return false;
  }
}
