/** The 9x9 Sudoku grid of src/sudoku.c and its value view.

    The C program keeps the grid in `int grid[SIZE][SIZE]`; here that is a
    9x9 `array2<int>`. Proofs work on a flat value view of it: a board of 81
    cells in row-major order, cell (row, col) at index 9 * row + col, so that
    "row-major order" is plain index order. 0 is an empty cell, 1..9 a digit. */
module Grid {

  /** SIZE in src/sudoku.c. */
  const Size: int := 9

  /** Number of cells of a board. */
  const CellCount: int := 81

  /** The value view of a grid: 81 cells in row-major order. */
  type Board = seq<int>

  /** Every entry is 0 (empty) or a digit 1..9. */
  predicate Digits(s: seq<int>) {
    forall p :: 0 <= p < |s| ==> 0 <= s[p] <= Size
  }

  /** A board of the right size whose cells all hold 0..9. */
  predicate IsBoard(g: Board) {
    |g| == CellCount && Digits(g)
  }

  /** Flat index of cell (row, col). */
  function Index(row: int, col: int): int {
    9 * row + col
  }

  /** A 9x9 array whose entries are all in 0..9: what `isValid` needs, since it
      indexes `used[num]` with every entry. */
  predicate WellFormed(a: array2<int>)
    reads a
  {
    a.Length0 == Size && a.Length1 == Size &&
    forall r, c :: 0 <= r < Size && 0 <= c < Size ==> 0 <= a[r, c] <= 9
  }

  /** The board an array currently holds. */
  ghost function Snapshot(a: array2<int>): (g: Board)
    reads a
    requires a.Length0 == Size && a.Length1 == Size
    ensures |g| == CellCount
    ensures WellFormed(a) ==> IsBoard(g)
  {
    seq(CellCount, p requires 0 <= p < CellCount reads a => a[RowOf(p), p - 9 * RowOf(p)])
  }

  /** The row of flat index p (p / 9, by repeated subtraction). */
  function RowOf(p: int): (r: int)
    requires 0 <= p
    ensures 0 <= r && 9 * r <= p < 9 * r + 9
  {
    if p < Size then 0 else 1 + RowOf(p - Size)
  }

  /** The snapshot holds cell (r, c) of the array at index Index(r, c). */
  lemma SnapshotAt(a: array2<int>, r: int, c: int)
    requires a.Length0 == Size && a.Length1 == Size
    requires 0 <= r < Size && 0 <= c < Size
    ensures Snapshot(a)[Index(r, c)] == a[r, c]
  {
    var p := Index(r, c);
    assert RowOf(p) == r;
  }

  /** Some cell is empty. */
  predicate HasZero(g: Board) {
    exists p :: 0 <= p < |g| && g[p] == 0
  }

  /** `r` keeps every digit given in `g`. */
  predicate Keeps(r: Board, g: Board)
    requires |r| == |g|
  {
    forall q :: 0 <= q < |g| && g[q] != 0 ==> r[q] == g[q]
  }

  /** A board that keeps the givens of `g` with one empty cell filled keeps
      the givens of `g`. */
  lemma KeepsAfterFill(r: Board, g: Board, p: int, v: int)
    requires |r| == |g| && 0 <= p < |g| && g[p] == 0
    requires Keeps(r, g[p := v])
    ensures Keeps(r, g)
  {
    forall q | 0 <= q < |g| && g[q] != 0
      ensures r[q] == g[q]
    {
      assert g[p := v][q] == g[q];
    }
  }

  /** Number of empty cells: the measure the recursive search decreases. */
  function ZeroCount(g: Board): nat {
    if g == [] then 0 else (if g[0] == 0 then 1 else 0) + ZeroCount(g[1..])
  }

  /** Filling an empty cell with a digit removes exactly one empty cell. */
  lemma {:induction false} ZeroCountFill(g: Board, p: int, v: int)
    requires 0 <= p < |g| && g[p] == 0 && v != 0
    ensures ZeroCount(g[p := v]) == ZeroCount(g) - 1
  {
    if p > 0 {
      assert g[p := v][1..] == g[1..][p - 1 := v];
      ZeroCountFill(g[1..], p - 1, v);
    }
  }
}
