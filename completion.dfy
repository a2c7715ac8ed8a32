/** The last empty cell of a valid board can always be filled.

    A valid board whose only empty cell is `last` has a digit that completes
    it: the digit missing from the row of `last` is missing from its column
    and its box as well. Each full group of a valid board holds every digit
    exactly once, so counting that digit over the rows and over the columns
    (and, within the band of `last`, over the rows and over the boxes) leaves
    no room for it in the column or the box of `last`. */
module Completion {
  import opened Grid
  import opened Validity

  /** 1 when x is d, 0 otherwise. */
  function Hit(x: int, d: int): int {
    if x == d then 1 else 0
  }

  /** How many of the first n cells of s hold d. */
  function CountTo(s: seq<int>, d: int, n: int): int
    requires 0 <= n <= |s|
  {
    if n == 0 then 0 else CountTo(s, d, n - 1) + Hit(s[n - 1], d)
  }

  /** How many cells of a group of nine hold d. */
  function Count(s: seq<int>, d: int): int
    requires |s| == Size
  {
    CountTo(s, d, Size)
  }

  /** The count of a group, cell by cell. */
  lemma CountNine(s: seq<int>, d: int)
    requires |s| == Size
    ensures Count(s, d) ==
      Hit(s[0], d) + Hit(s[1], d) + Hit(s[2], d) + Hit(s[3], d) + Hit(s[4], d) +
      Hit(s[5], d) + Hit(s[6], d) + Hit(s[7], d) + Hit(s[8], d)
  {
    assert CountTo(s, d, 1) == Hit(s[0], d);
    assert CountTo(s, d, 2) == CountTo(s, d, 1) + Hit(s[1], d);
    assert CountTo(s, d, 3) == CountTo(s, d, 2) + Hit(s[2], d);
    assert CountTo(s, d, 4) == CountTo(s, d, 3) + Hit(s[3], d);
    assert CountTo(s, d, 5) == CountTo(s, d, 4) + Hit(s[4], d);
    assert CountTo(s, d, 6) == CountTo(s, d, 5) + Hit(s[5], d);
    assert CountTo(s, d, 7) == CountTo(s, d, 6) + Hit(s[6], d);
    assert CountTo(s, d, 8) == CountTo(s, d, 7) + Hit(s[7], d);
  }

  /** A count is 0 exactly when no cell holds d. */
  lemma CountZero(s: seq<int>, d: int)
    requires |s| == Size
    ensures 0 <= Count(s, d)
    ensures Count(s, d) == 0 <==> forall k :: 0 <= k < Size ==> s[k] != d
  {
    CountNine(s, d);
  }

  /** A cell holding 0..9 matches exactly one of the values 0..9. */
  lemma HitOnce(x: int)
    requires 0 <= x <= Size
    ensures Hit(x, 0) + Hit(x, 1) + Hit(x, 2) + Hit(x, 3) + Hit(x, 4) +
            Hit(x, 5) + Hit(x, 6) + Hit(x, 7) + Hit(x, 8) + Hit(x, 9) == 1
  {
  }

  /** The counts of the values 0..9 in a group add up to its nine cells. */
  lemma CountsAddUp(s: seq<int>)
    requires |s| == Size && Digits(s)
    ensures Count(s, 0) + Count(s, 1) + Count(s, 2) + Count(s, 3) + Count(s, 4) +
            Count(s, 5) + Count(s, 6) + Count(s, 7) + Count(s, 8) + Count(s, 9) == Size
  {
    CountNine(s, 0); CountNine(s, 1); CountNine(s, 2); CountNine(s, 3); CountNine(s, 4);
    CountNine(s, 5); CountNine(s, 6); CountNine(s, 7); CountNine(s, 8); CountNine(s, 9);
    forall k | 0 <= k < Size
      ensures Hit(s[k], 0) + Hit(s[k], 1) + Hit(s[k], 2) + Hit(s[k], 3) + Hit(s[k], 4) +
              Hit(s[k], 5) + Hit(s[k], 6) + Hit(s[k], 7) + Hit(s[k], 8) + Hit(s[k], 9) == 1
    {
      HitOnce(s[k]);
    }
  }

  /** A group without repeats holds a digit at most once. */
  lemma AtMostOnce(s: seq<int>, d: int)
    requires |s| == Size && NoRepeat(s) && d != 0
    ensures 0 <= Count(s, d) <= 1
  {
    CountNine(s, d);
  }

  /** Every digit at most once. */
  lemma AllAtMostOnce(s: seq<int>)
    requires |s| == Size && NoRepeat(s)
    ensures forall d :: 1 <= d <= Size ==> 0 <= Count(s, d) <= 1
  {
    forall d | 1 <= d <= Size
      ensures 0 <= Count(s, d) <= 1
    {
      AtMostOnce(s, d);
    }
  }

  /** A full group without repeats holds every digit exactly once. */
  lemma FullGroup(s: seq<int>, d: int)
    requires |s| == Size && Digits(s) && NoRepeat(s) && Count(s, 0) == 0 && 1 <= d <= Size
    ensures Count(s, d) == 1
  {
    CountsAddUp(s);
    AllAtMostOnce(s);
  }

  /** A group without repeats with one empty cell misses some digit. */
  lemma MissingDigit(s: seq<int>) returns (d: int)
    requires |s| == Size && Digits(s) && NoRepeat(s) && Count(s, 0) == 1
    ensures 1 <= d <= Size && Count(s, d) == 0
  {
    CountsAddUp(s);
    AllAtMostOnce(s);
    d :| 1 <= d <= Size && Count(s, d) == 0;
  }

  /** The count of d summed over the nine rows. */
  function RowTotal(h: Board, d: int): int
    requires |h| == CellCount
  {
    Count(Row(h, 0), d) + Count(Row(h, 1), d) + Count(Row(h, 2), d) +
    Count(Row(h, 3), d) + Count(Row(h, 4), d) + Count(Row(h, 5), d) +
    Count(Row(h, 6), d) + Count(Row(h, 7), d) + Count(Row(h, 8), d)
  }

  /** The count of d summed over the nine columns. */
  function ColumnTotal(h: Board, d: int): int
    requires |h| == CellCount
  {
    Count(Column(h, 0), d) + Count(Column(h, 1), d) + Count(Column(h, 2), d) +
    Count(Column(h, 3), d) + Count(Column(h, 4), d) + Count(Column(h, 5), d) +
    Count(Column(h, 6), d) + Count(Column(h, 7), d) + Count(Column(h, 8), d)
  }

  /** The count of row r, read off the board. */
  lemma RowCount(h: Board, d: int, r: int)
    requires |h| == CellCount && 0 <= r < Size
    ensures Count(Row(h, r), d) ==
      Hit(h[9 * r + 0], d) + Hit(h[9 * r + 1], d) + Hit(h[9 * r + 2], d) +
      Hit(h[9 * r + 3], d) + Hit(h[9 * r + 4], d) + Hit(h[9 * r + 5], d) +
      Hit(h[9 * r + 6], d) + Hit(h[9 * r + 7], d) + Hit(h[9 * r + 8], d)
  {
    CountNine(Row(h, r), d);
  }

  /** The count of column c, read off the board. */
  lemma ColumnCount(h: Board, d: int, c: int)
    requires |h| == CellCount && 0 <= c < Size
    ensures Count(Column(h, c), d) ==
      Hit(h[0 + c], d) + Hit(h[9 + c], d) + Hit(h[18 + c], d) +
      Hit(h[27 + c], d) + Hit(h[36 + c], d) + Hit(h[45 + c], d) +
      Hit(h[54 + c], d) + Hit(h[63 + c], d) + Hit(h[72 + c], d)
  {
    CountNine(Column(h, c), d);
  }

  /** Both totals count the cells of the board that hold d. */
  lemma RowsAndColumns(h: Board, d: int)
    requires |h| == CellCount
    ensures RowTotal(h, d) == ColumnTotal(h, d)
  {
    RowCount(h, d, 0); RowCount(h, d, 1); RowCount(h, d, 2);
    RowCount(h, d, 3); RowCount(h, d, 4); RowCount(h, d, 5);
    RowCount(h, d, 6); RowCount(h, d, 7); RowCount(h, d, 8);
    ColumnCount(h, d, 0); ColumnCount(h, d, 1); ColumnCount(h, d, 2);
    ColumnCount(h, d, 3); ColumnCount(h, d, 4); ColumnCount(h, d, 5);
    ColumnCount(h, d, 6); ColumnCount(h, d, 7); ColumnCount(h, d, 8);
  }

  /** The count of d summed over the three rows of band br. */
  function BandRowTotal(h: Board, d: int, br: int): int
    requires |h| == CellCount && 0 <= br < 3
  {
    Count(Row(h, 3 * br), d) + Count(Row(h, 3 * br + 1), d) + Count(Row(h, 3 * br + 2), d)
  }

  /** The count of d summed over the three boxes of band br. */
  function BandBoxTotal(h: Board, d: int, br: int): int
    requires |h| == CellCount && 0 <= br < 3
  {
    Count(Box(h, br, 0), d) + Count(Box(h, br, 1), d) + Count(Box(h, br, 2), d)
  }

  /** The count of d in the three cells of row segment bc of a group. */
  function Part(s: seq<int>, d: int, bc: int): int
    requires |s| == Size && 0 <= bc < 3
  {
    Hit(s[3 * bc], d) + Hit(s[3 * bc + 1], d) + Hit(s[3 * bc + 2], d)
  }

  /** A box holds the three segments of its band's rows that it covers. */
  lemma BoxParts(h: Board, d: int, br: int, bc: int)
    requires |h| == CellCount && 0 <= br < 3 && 0 <= bc < 3
    ensures Count(Box(h, br, bc), d) ==
      Part(Row(h, 3 * br), d, bc) + Part(Row(h, 3 * br + 1), d, bc) + Part(Row(h, 3 * br + 2), d, bc)
  {
    var b := Box(h, br, bc);
    CountNine(b, d);
    BoxAt(h, br, bc, 0, 0); BoxAt(h, br, bc, 0, 1); BoxAt(h, br, bc, 0, 2);
    BoxAt(h, br, bc, 1, 0); BoxAt(h, br, bc, 1, 1); BoxAt(h, br, bc, 1, 2);
    BoxAt(h, br, bc, 2, 0); BoxAt(h, br, bc, 2, 1); BoxAt(h, br, bc, 2, 2);
    assert Hit(b[0], d) + Hit(b[1], d) + Hit(b[2], d) == Part(Row(h, 3 * br), d, bc);
    assert Hit(b[3], d) + Hit(b[4], d) + Hit(b[5], d) == Part(Row(h, 3 * br + 1), d, bc);
    assert Hit(b[6], d) + Hit(b[7], d) + Hit(b[8], d) == Part(Row(h, 3 * br + 2), d, bc);
  }

  /** Both totals count the cells of band br that hold d. */
  lemma RowsAndBoxes(h: Board, d: int, br: int)
    requires |h| == CellCount && 0 <= br < 3
    ensures BandRowTotal(h, d, br) == BandBoxTotal(h, d, br)
  {
    BoxParts(h, d, br, 0);
    BoxParts(h, d, br, 1);
    BoxParts(h, d, br, 2);
    CountNine(Row(h, 3 * br), d);
    CountNine(Row(h, 3 * br + 1), d);
    CountNine(Row(h, 3 * br + 2), d);
  }

  /** `h` holds 0..9 and `last` is its only empty cell. */
  predicate OneGap(h: Board, last: int) {
    IsBoard(h) && 0 <= last < CellCount && h[last] == 0 &&
    forall q :: 0 <= q < CellCount && q != last ==> h[q] != 0
  }

  /** Only the row of the gap has an empty cell. */
  lemma GapInRow(h: Board, last: int, r: int)
    requires OneGap(h, last) && 0 <= r < Size
    ensures Count(Row(h, r), 0) == if r == RowOf(last) then 1 else 0
  {
    CountNine(Row(h, r), 0);
  }

  /** Only the column of the gap has an empty cell. */
  lemma GapInColumn(h: Board, last: int, c: int)
    requires OneGap(h, last) && 0 <= c < Size
    ensures Count(Column(h, c), 0) == if c == last - 9 * RowOf(last) then 1 else 0
  {
    CountNine(Column(h, c), 0);
  }

  /** Only the box of the gap has an empty cell. */
  lemma GapInBox(h: Board, last: int, br: int, bc: int)
    requires OneGap(h, last) && 0 <= br < 3 && 0 <= bc < 3
    ensures Count(Box(h, br, bc), 0) ==
      if br == BoxLine(RowOf(last)) && bc == BoxLine(last - 9 * RowOf(last)) then 1 else 0
  {
    BoxParts(h, 0, br, bc);
    GapInPart(h, last, 3 * br, bc);
    GapInPart(h, last, 3 * br + 1, bc);
    GapInPart(h, last, 3 * br + 2, bc);
  }

  /** Only the segment of the gap's row that holds the gap has an empty
      cell. */
  lemma GapInPart(h: Board, last: int, r: int, bc: int)
    requires OneGap(h, last) && 0 <= r < Size && 0 <= bc < 3
    ensures Part(Row(h, r), 0, bc) ==
      if r == RowOf(last) && bc == BoxLine(last - 9 * RowOf(last)) then 1 else 0
  {
  }

  /** Writing into one cell of a group a digit found nowhere else in it
      keeps the group free of repeats. */
  lemma FillGroup(s: seq<int>, t: seq<int>, k: int, d: int)
    requires |s| == |t| && 0 <= k < |s| && NoRepeat(s)
    requires forall i :: 0 <= i < |s| && i != k ==> t[i] == s[i]
    requires t[k] == d && forall i :: 0 <= i < |s| ==> s[i] != d
    ensures NoRepeat(t)
  {
  }

  /** Two cells of the board are the same exactly when their rows and
      columns are. */
  lemma IndexSame(r: int, c: int, r2: int, c2: int)
    requires 0 <= c < Size && 0 <= c2 < Size
    ensures Index(r, c) == Index(r2, c2) <==> r == r2 && c == c2
  {
  }

  /** Cell k of a box after d is written into the gap. */
  lemma BoxAfterFill(h: Board, last: int, d: int, br: int, bc: int, k: int)
    requires OneGap(h, last) && 0 <= br < 3 && 0 <= bc < 3 && 0 <= k < Size
    ensures var R := RowOf(last);
      var C := last - 9 * R;
      Box(h[last := d], br, bc)[k] ==
        if 3 * br + BoxLine(k) == R && 3 * bc + k - 3 * BoxLine(k) == C then d else Box(h, br, bc)[k]
  {
    var R := RowOf(last);
    IndexSame(3 * br + BoxLine(k), 3 * bc + k - 3 * BoxLine(k), R, last - 9 * R);
  }

  /** The boxes of `h` with d written into the gap stay free of repeats
      when d is not in the gap's box. */
  lemma FillBox(h: Board, last: int, d: int, br: int, bc: int)
    requires OneGap(h, last) && 0 <= br < 3 && 0 <= bc < 3 && NoRepeat(Box(h, br, bc))
    requires Count(Box(h, BoxLine(RowOf(last)), BoxLine(last - 9 * RowOf(last))), d) == 0
    ensures NoRepeat(Box(h[last := d], br, bc))
  {
    var R := RowOf(last);
    if br == BoxLine(R) && bc == BoxLine(last - 9 * R) {
      FillGapBox(h, last, d);
    } else {
      forall k | 0 <= k < Size
        ensures Box(h[last := d], br, bc)[k] == Box(h, br, bc)[k]
      {
        BoxAfterFill(h, last, d, br, bc, k);
      }
      assert Box(h[last := d], br, bc) == Box(h, br, bc);
    }
  }

  /** The box of the gap with d written into it. */
  lemma FillGapBox(h: Board, last: int, d: int)
    requires OneGap(h, last)
    requires var R := RowOf(last);
      NoRepeat(Box(h, BoxLine(R), BoxLine(last - 9 * R))) &&
      Count(Box(h, BoxLine(R), BoxLine(last - 9 * R)), d) == 0
    ensures var R := RowOf(last);
      NoRepeat(Box(h[last := d], BoxLine(R), BoxLine(last - 9 * R)))
  {
    var R := RowOf(last);
    var C := last - 9 * R;
    var br, bc := BoxLine(R), BoxLine(C);
    var s, t := Box(h, br, bc), Box(h[last := d], br, bc);
    var k := 3 * (R - 3 * br) + (C - 3 * bc);
    forall i | 0 <= i < Size && i != k
      ensures t[i] == s[i]
    {
      BoxAfterFill(h, last, d, br, bc, i);
    }
    BoxAfterFill(h, last, d, br, bc, k);
    CountZero(s, d);
    FillGroup(s, t, k, d);
  }

  /** The rows of `h` with d written into the gap stay free of repeats
      when d is not in the gap's row. */
  lemma FillRows(h: Board, last: int, d: int, f: Board)
    requires OneGap(h, last) && f == h[last := d] && forall r :: 0 <= r < Size ==> NoRepeat(Row(h, r))
    requires Count(Row(h, RowOf(last)), d) == 0
    ensures forall r :: 0 <= r < Size ==> NoRepeat(Row(f, r))
  {
    var R := RowOf(last);
    forall r | 0 <= r < Size
      ensures NoRepeat(Row(f, r))
    {
      if r == R {
        CountZero(Row(h, R), d);
        FillGroup(Row(h, R), Row(f, R), last - 9 * R, d);
      } else {
        assert Row(f, r) == Row(h, r);
      }
    }
  }

  /** The columns of `h` with d written into the gap stay free of repeats
      when d is not in the gap's column. */
  lemma FillColumns(h: Board, last: int, d: int, f: Board)
    requires OneGap(h, last) && f == h[last := d] && forall c :: 0 <= c < Size ==> NoRepeat(Column(h, c))
    requires Count(Column(h, last - 9 * RowOf(last)), d) == 0
    ensures forall c :: 0 <= c < Size ==> NoRepeat(Column(f, c))
  {
    var R := RowOf(last);
    var C := last - 9 * R;
    forall c | 0 <= c < Size
      ensures NoRepeat(Column(f, c))
    {
      if c == C {
        CountZero(Column(h, C), d);
        FillGroup(Column(h, C), Column(f, C), R, d);
      } else {
        assert Column(f, c) == Column(h, c);
      }
    }
  }

  /** Writing into the gap a digit that is in none of the gap's row, column
      and box gives a valid board. */
  lemma FillValid(h: Board, last: int, d: int)
    requires OneGap(h, last) && GridValid(h)
    requires Count(Row(h, RowOf(last)), d) == 0
    requires Count(Column(h, last - 9 * RowOf(last)), d) == 0
    requires Count(Box(h, BoxLine(RowOf(last)), BoxLine(last - 9 * RowOf(last))), d) == 0
    ensures GridValid(h[last := d])
  {
    var f := h[last := d];
    GridValidIff(h);
    GridValidIff(f);
    FillRows(h, last, d, f);
    FillColumns(h, last, d, f);
    forall br, bc | 0 <= br < 3 && 0 <= bc < 3
      ensures NoRepeat(Box(f, br, bc))
    {
      FillBox(h, last, d, br, bc);
    }
  }

  /** A digit missing from the gap's row of a valid board is missing from
      the gap's column too: every other column holds it once, and the rows
      hold it eight times in all. */
  lemma ColumnMisses(h: Board, last: int, d: int)
    requires OneGap(h, last) && 1 <= d <= Size
    requires forall r :: 0 <= r < Size ==> NoRepeat(Row(h, r))
    requires forall c :: 0 <= c < Size ==> NoRepeat(Column(h, c))
    requires Count(Row(h, RowOf(last)), d) == 0
    ensures Count(Column(h, last - 9 * RowOf(last)), d) == 0
  {
    var R := RowOf(last);
    var C := last - 9 * R;
    forall r | 0 <= r < Size && r != R
      ensures Count(Row(h, r), d) == 1
    {
      GapInRow(h, last, r);
      FullGroup(Row(h, r), d);
    }
    forall c | 0 <= c < Size && c != C
      ensures Count(Column(h, c), d) == 1
    {
      GapInColumn(h, last, c);
      FullGroup(Column(h, c), d);
    }
    CountZero(Column(h, C), d);
    RowsAndColumns(h, d);
  }

  /** A digit missing from the gap's row of a valid board is missing from
      the gap's box too: the other two boxes of its band hold it once each,
      and the band's rows hold it twice in all. */
  lemma BoxMisses(h: Board, last: int, d: int)
    requires OneGap(h, last) && 1 <= d <= Size
    requires forall r :: 0 <= r < Size ==> NoRepeat(Row(h, r))
    requires forall br, bc :: 0 <= br < 3 && 0 <= bc < 3 ==> NoRepeat(Box(h, br, bc))
    requires Count(Row(h, RowOf(last)), d) == 0
    ensures Count(Box(h, BoxLine(RowOf(last)), BoxLine(last - 9 * RowOf(last))), d) == 0
  {
    var R := RowOf(last);
    var br, bc := BoxLine(R), BoxLine(last - 9 * R);
    forall r | 3 * br <= r < 3 * br + 3 && r != R
      ensures Count(Row(h, r), d) == 1
    {
      GapInRow(h, last, r);
      FullGroup(Row(h, r), d);
    }
    forall j | 0 <= j < 3 && j != bc
      ensures Count(Box(h, br, j), d) == 1
    {
      GapInBox(h, last, br, j);
      FullGroup(Box(h, br, j), d);
    }
    CountZero(Box(h, br, bc), d);
    RowsAndBoxes(h, d, br);
  }

  /** A valid board whose only empty cell is `last` is completed by some
      digit d: the board with d written at `last` passes the check. */
  lemma FillGap(h: Board, last: int) returns (d: int)
    requires OneGap(h, last) && GridValid(h)
    ensures 1 <= d <= Size && GridValid(h[last := d])
  {
    var R := RowOf(last);
    GridValidIff(h);
    GapInRow(h, last, R);
    d := MissingDigit(Row(h, R));
    ColumnMisses(h, last, d);
    BoxMisses(h, last, d);
    FillValid(h, last, d);
  }
}
