/** The constraint check `isValid` of src/sudoku.c.

    A grid is valid when no digit 1..9 occurs twice in any of its 27 groups:
    the nine rows, the nine columns and the nine 3x3 boxes. Empty cells (0)
    never count. `GridValid` says this declaratively; `IsValid` is the C loop
    nest with its `used` table and its early returns, proved to compute it. */
module Validity {
  import opened Grid

  /** No non-zero value occurs twice in `s`. */
  predicate NoRepeat(s: seq<int>) {
    forall a, b :: 0 <= a < b < |s| && s[a] != 0 ==> s[a] != s[b]
  }

  /** Row `i`, left to right. */
  function Row(g: Board, i: int): (s: seq<int>)
    requires |g| == CellCount && 0 <= i < Size
    ensures |s| == Size
    ensures IsBoard(g) ==> Digits(s)
  {
    seq(Size, j requires 0 <= j < Size => g[Index(i, j)])
  }

  /** Column `j`, top to bottom. */
  function Column(g: Board, j: int): (s: seq<int>)
    requires |g| == CellCount && 0 <= j < Size
    ensures |s| == Size
    ensures IsBoard(g) ==> Digits(s)
  {
    seq(Size, i requires 0 <= i < Size => g[Index(i, j)])
  }

  /** The 3x3 box in block row `br` and block column `bc`, read row by row
      as the C loop over `i` and `j` reads it. */
  function Box(g: Board, br: int, bc: int): (s: seq<int>)
    requires |g| == CellCount && 0 <= br < 3 && 0 <= bc < 3
    ensures |s| == Size
    ensures IsBoard(g) ==> Digits(s)
  {
    seq(Size, k requires 0 <= k < Size => g[Index(3 * br + BoxLine(k), 3 * bc + k - 3 * BoxLine(k))])
  }

  /** The line within its box of the k-th cell of a box read row by row
      (k / 3, written without division). */
  function BoxLine(k: int): int {
    if k < 3 then 0 else if k < 6 then 1 else 2
  }

  /** Cell (i, j) of a box, counted from its top-left corner. */
  lemma BoxAt(g: Board, br: int, bc: int, i: int, j: int)
    requires |g| == CellCount && 0 <= br < 3 && 0 <= bc < 3 && 0 <= i < 3 && 0 <= j < 3
    ensures Box(g, br, bc)[3 * i + j] == g[Index(3 * br + i, 3 * bc + j)]
  {
  }

  /** Cell (i, j) of box (br, bc) of the snapshot is array cell
      (3 * br + i, 3 * bc + j). */
  ghost predicate BoxCellIs(grid: array2<int>, br: int, bc: int, i: int, j: int)
    reads grid
    requires grid.Length0 == Size && grid.Length1 == Size
    requires 0 <= br < 3 && 0 <= bc < 3 && 0 <= i < 3 && 0 <= j < 3
  {
    Box(Snapshot(grid), br, bc)[3 * i + j] == grid[3 * br + i, 3 * bc + j]
  }

  lemma BoxCells(grid: array2<int>, br: int, bc: int)
    requires grid.Length0 == Size && grid.Length1 == Size && 0 <= br < 3 && 0 <= bc < 3
    ensures forall i, j :: 0 <= i < 3 && 0 <= j < 3 ==> BoxCellIs(grid, br, bc, i, j)
  {
    forall i, j | 0 <= i < 3 && 0 <= j < 3
      ensures BoxCellIs(grid, br, bc, i, j)
    {
      SnapshotAt(grid, 3 * br + i, 3 * bc + j);
      BoxAt(Snapshot(grid), br, bc, i, j);
    }
  }

  predicate RowsValid(g: Board)
    requires |g| == CellCount
  {
    forall i :: 0 <= i < Size ==> NoRepeat(Row(g, i))
  }

  predicate ColumnsValid(g: Board)
    requires |g| == CellCount
  {
    forall j :: 0 <= j < Size ==> NoRepeat(Column(g, j))
  }

  predicate BoxesValid(g: Board)
    requires |g| == CellCount
  {
    forall br, bc :: 0 <= br < 3 && 0 <= bc < 3 ==> NoRepeat(Box(g, br, bc))
  }

  /** Group k of the 27 that isValid checks, in its order: the rows, then the
      columns, then the boxes row by row. */
  function Group(g: Board, k: int): seq<int>
    requires |g| == CellCount && 0 <= k < 27
  {
    if k < 9 then Row(g, k)
    else if k < 18 then Column(g, k - 9)
    else Box(g, BoxLine(k - 18), k - 18 - 3 * BoxLine(k - 18))
  }

  /** The verdicts of the 27 group checks, in the order isValid makes them:
      entry k holds when group k is free of repeats. */
  function GroupChecks(g: Board): (f: seq<bool>)
    requires |g| == CellCount
    ensures |f| == 27
  {
    seq(27, k requires 0 <= k < 27 => NoRepeat(Group(g, k)))
  }

  /** The first n entries of `f` hold. */
  predicate AllUpTo(f: seq<bool>, n: int)
    requires 0 <= n <= |f|
  {
    n == 0 || (AllUpTo(f, n - 1) && f[n - 1])
  }

  /** The Sudoku invariant: all 27 group checks pass. */
  predicate GridValid(g: Board)
    requires |g| == CellCount
  {
    AllUpTo(GroupChecks(g), 27)
  }

  lemma {:induction false} AllUpToAll(f: seq<bool>, n: int)
    requires 0 <= n <= |f|
    ensures AllUpTo(f, n) <==> forall k :: 0 <= k < n ==> f[k]
  {
    if n > 0 {
      AllUpToAll(f, n - 1);
    }
  }

  /** A board is valid exactly when every row, every column and every box
      is free of repeats. */
  lemma GridValidIff(g: Board)
    requires |g| == CellCount
    ensures GridValid(g) <==> RowsValid(g) && ColumnsValid(g) && BoxesValid(g)
  {
    AllUpToAll(GroupChecks(g), 27);
    if RowsValid(g) && ColumnsValid(g) && BoxesValid(g) {
      forall k | 0 <= k < 27
        ensures GroupChecks(g)[k]
      {
        if k >= 18 {
          var br := BoxLine(k - 18);
          assert 0 <= br < 3 && 0 <= k - 18 - 3 * br < 3;
        }
      }
    }
    if GridValid(g) {
      forall i | 0 <= i < Size
        ensures NoRepeat(Row(g, i)) && NoRepeat(Column(g, i))
      {
        assert GroupChecks(g)[i] && GroupChecks(g)[i + 9];
        assert Group(g, i) == Row(g, i);
        assert Group(g, i + 9) == Column(g, i);
      }
      forall br, bc | 0 <= br < 3 && 0 <= bc < 3
        ensures NoRepeat(Box(g, br, bc))
      {
        assert GroupChecks(g)[18 + 3 * br + bc];
        assert BoxLine(3 * br + bc) == br;
        assert Group(g, 18 + 3 * br + bc) == Box(g, br, bc);
      }
    }
  }

  /** Emptying cells of a group keeps it free of repeats. */
  lemma NoRepeatWithFewer(s: seq<int>, t: seq<int>)
    requires |s| == |t| && NoRepeat(s)
    requires forall k :: 0 <= k < |t| ==> t[k] == s[k] || t[k] == 0
    ensures NoRepeat(t)
  {
  }

  /** Emptying cells never turns a valid board into an invalid one. */
  lemma ZeroingPreservesValid(g: Board, h: Board)
    requires |g| == CellCount && |h| == CellCount && GridValid(g)
    requires forall q :: 0 <= q < CellCount ==> h[q] == g[q] || h[q] == 0
    ensures GridValid(h)
  {
    GridValidIff(g);
    GridValidIff(h);
    forall i | 0 <= i < Size
      ensures NoRepeat(Row(h, i)) && NoRepeat(Column(h, i))
    {
      NoRepeatWithFewer(Row(g, i), Row(h, i));
      NoRepeatWithFewer(Column(g, i), Column(h, i));
    }
    forall br, bc | 0 <= br < 3 && 0 <= bc < 3
      ensures NoRepeat(Box(h, br, bc))
    {
      NoRepeatWithFewer(Box(g, br, bc), Box(h, br, bc));
    }
  }

  /** Clearing one cell of a valid board leaves it valid. */
  lemma ClearCell(g: Board, p: int)
    requires |g| == CellCount && 0 <= p < CellCount && GridValid(g)
    ensures GridValid(g[p := 0])
  {
    ZeroingPreservesValid(g, g[p := 0]);
  }

  /** The `used` table after the first `n` cells of a group were scanned:
      entry d is set when the digit d was among them. */
  function Used(s: seq<int>, n: nat): (u: seq<bool>)
    requires n <= |s|
    ensures |u| == Size + 1
  {
    if n == 0 then seq(Size + 1, _ => false)
    else if 0 < s[n - 1] <= Size then Used(s, n - 1)[s[n - 1] := true]
    else Used(s, n - 1)
  }

  /** The table marks exactly the digits of the scanned prefix. */
  lemma {:induction false} UsedMarksPrefix(s: seq<int>, n: nat, d: int)
    requires n <= |s| && 0 < d <= Size
    ensures Used(s, n)[d] <==> d in s[..n]
  {
    if n > 0 {
      UsedMarksPrefix(s, n - 1, d);
      assert s[..n] == s[..n - 1] + [s[n - 1]];
    }
  }

  /** The scan of a group has met no repeat in its first `n` cells: no
      non-zero cell found its digit already marked in the `used` table. */
  predicate ScanClean(s: seq<int>, n: nat)
    requires n <= |s|
  {
    n == 0 || (ScanClean(s, n - 1) && !(0 < s[n - 1] <= Size && Used(s, n - 1)[s[n - 1]]))
  }

  /** The `used`-table scan decides the declarative property: on digits
      0..9 it stays clean over a prefix exactly when that prefix has no
      repeated non-zero digit. */
  lemma {:induction false} ScanCleanIsNoRepeat(s: seq<int>, n: nat)
    requires n <= |s| && Digits(s)
    ensures ScanClean(s, n) <==> NoRepeat(s[..n])
  {
    if n > 0 {
      ScanCleanIsNoRepeat(s, n - 1);
      var t := s[..n];
      assert t[..n - 1] == s[..n - 1];
      var v := s[n - 1];
      if v != 0 {
        UsedMarksPrefix(s, n - 1, v);
      }
      if NoRepeat(t) {
        assert NoRepeat(s[..n - 1]);
        if v != 0 {
          var u := s[..n - 1];
          forall a | 0 <= a < n - 1
            ensures u[a] != v
          {
            assert u[a] == t[a];
          }
        }
      } else {
        var a, b :| 0 <= a < b < n && t[a] != 0 && t[a] == t[b];
        if b < n - 1 {
          assert !NoRepeat(s[..n - 1]) by {
            assert s[..n - 1][a] == s[..n - 1][b];
          }
        } else {
          assert v != 0 && v == s[..n - 1][a];
        }
      }
    }
  }

  /** A repeat in a prefix is a repeat in the whole group. */
  lemma PrefixRepeat(s: seq<int>, n: nat)
    requires n <= |s| && !NoRepeat(s[..n])
    ensures !NoRepeat(s)
  {
    var a, b :| 0 <= a < b < n && s[..n][a] != 0 && s[..n][a] == s[..n][b];
    assert s[a] == s[b];
  }

  /** A group scanned to its end holds no repeat. */
  lemma ScanDone(s: seq<int>)
    requires NoRepeat(s[..|s|])
    ensures NoRepeat(s)
  {
    assert s[..|s|] == s;
  }

  lemma RowBreaks(g: Board, i: int)
    requires |g| == CellCount && 0 <= i < Size && !NoRepeat(Row(g, i))
    ensures !GridValid(g)
  {
    GridValidIff(g);
  }
  lemma ColumnBreaks(g: Board, j: int)
    requires |g| == CellCount && 0 <= j < Size && !NoRepeat(Column(g, j))
    ensures !GridValid(g)
  {
    GridValidIff(g);
  }
  lemma BoxBreaks(g: Board, br: int, bc: int)
    requires |g| == CellCount && 0 <= br < 3 && 0 <= bc < 3 && !NoRepeat(Box(g, br, bc))
    ensures !GridValid(g)
  {
    GridValidIff(g);
  }
  /** The inner loop of the row pass of isValid (src/sudoku.c:13-22): scans
      row `i` left to right with a fresh `used` table and stops at the first
      repeated digit. */
  method ScanRow(grid: array2<int>, i: int) returns (ok: bool)
    requires WellFormed(grid) && 0 <= i < Size
    ensures ok == NoRepeat(Row(Snapshot(grid), i))
  {
    ghost var s := Row(Snapshot(grid), i);
    var used := seq(Size + 1, _ => false);
    for j := 0 to Size
      invariant ScanClean(s, j)
      invariant used == Used(s, j)
    {
      var num := grid[i, j];
      SnapshotAt(grid, i, j);
      if num != 0 {
        if used[num] {
          ScanCleanIsNoRepeat(s, j + 1);
          PrefixRepeat(s, j + 1);
          return false;
        }
        used := used[num := true];
      }
    }
    ScanCleanIsNoRepeat(s, Size);
    ScanDone(s);
    return true;
  }

  /** The inner loop of the column pass (src/sudoku.c:27-36): column `j`, top
      to bottom. */
  method ScanColumn(grid: array2<int>, j: int) returns (ok: bool)
    requires WellFormed(grid) && 0 <= j < Size
    ensures ok == NoRepeat(Column(Snapshot(grid), j))
  {
    ghost var s := Column(Snapshot(grid), j);
    var used := seq(Size + 1, _ => false);
    for i := 0 to Size
      invariant ScanClean(s, i)
      invariant used == Used(s, i)
    {
      var num := grid[i, j];
      SnapshotAt(grid, i, j);
      if num != 0 {
        if used[num] {
          ScanCleanIsNoRepeat(s, i + 1);
          PrefixRepeat(s, i + 1);
          return false;
        }
        used := used[num := true];
      }
    }
    ScanCleanIsNoRepeat(s, Size);
    ScanDone(s);
    return true;
  }

  /** The two inner loops of the box pass (src/sudoku.c:42-53): the box in
      block row `blockRow` and block column `blockCol`, row by row. */
  method ScanBox(grid: array2<int>, blockRow: int, blockCol: int) returns (ok: bool)
    requires WellFormed(grid) && 0 <= blockRow < 3 && 0 <= blockCol < 3
    ensures ok == NoRepeat(Box(Snapshot(grid), blockRow, blockCol))
  {
    ghost var s := Box(Snapshot(grid), blockRow, blockCol);
    BoxCells(grid, blockRow, blockCol);
    var used := seq(Size + 1, _ => false);
    for i := 0 to 3
      invariant ScanClean(s, 3 * i)
      invariant used == Used(s, 3 * i)
    {
      for j := 0 to 3
        invariant ScanClean(s, 3 * i + j)
        invariant used == Used(s, 3 * i + j)
      {
        var num := grid[3 * blockRow + i, 3 * blockCol + j];
        assert BoxCellIs(grid, blockRow, blockCol, i, j);
        if num != 0 {
          if used[num] {
            ScanCleanIsNoRepeat(s, 3 * i + j + 1);
            PrefixRepeat(s, 3 * i + j + 1);
            return false;
          }
          used := used[num := true];
        }
      }
    }
    ScanCleanIsNoRepeat(s, Size);
    ScanDone(s);
    return true;
  }

  /** isValid (src/sudoku.c:10-58): the row pass, then the column pass, then
      the box pass, answering false at the first group with a repeat. It has
      no modifies clause, so it leaves the grid as it found it. */
  method IsValid(grid: array2<int>) returns (valid: bool)
    requires WellFormed(grid)
    ensures valid == GridValid(Snapshot(grid))
  {
    ghost var g := Snapshot(grid);
    for i := 0 to Size
      invariant forall r :: 0 <= r < i ==> NoRepeat(Row(g, r))
    {
      var ok := ScanRow(grid, i);
      if !ok {
        RowBreaks(g, i);
        return false;
      }
    }
    for j := 0 to Size
      invariant RowsValid(g)
      invariant forall c :: 0 <= c < j ==> NoRepeat(Column(g, c))
    {
      var ok := ScanColumn(grid, j);
      if !ok {
        ColumnBreaks(g, j);
        return false;
      }
    }
    for blockRow := 0 to 3
      invariant RowsValid(g) && ColumnsValid(g)
      invariant forall br, bc :: 0 <= br < blockRow && 0 <= bc < 3 ==> NoRepeat(Box(g, br, bc))
    {
      for blockCol := 0 to 3
        invariant forall br, bc :: 0 <= br < blockRow && 0 <= bc < 3 ==> NoRepeat(Box(g, br, bc))
        invariant forall bc :: 0 <= bc < blockCol ==> NoRepeat(Box(g, blockRow, bc))
      {
        var ok := ScanBox(grid, blockRow, blockCol);
        if !ok {
          BoxBreaks(g, blockRow, blockCol);
          return false;
        }
      }
    }
    GridValidIff(g);
    return true;
  }
}
