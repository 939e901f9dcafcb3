/** Grids as values: a snapshot of a two-dimensional `int` array as a
    sequence of rows, and sums of the values in a rectangle of cells. */
module Grids {

  type Grid = seq<seq<int>>

  /** `s` has `n` rows of `n` cells each. */
  predicate IsSquare(s: Grid, n: int) {
    |s| == n && forall i :: 0 <= i < n ==> |s[i]| == n
  }

  /** The `n` x `n` grid of zeros. */
  function Zeros(n: nat): (z: Grid)
    ensures IsSquare(z, n)
    ensures forall i, j :: 0 <= i < n && 0 <= j < n ==> z[i][j] == 0
  {
    seq(n, _ => seq(n, _ => 0))
  }

  /** The contents of array `a`, row by row. */
  ghost function Cells(a: array2<int>): (s: Grid)
    reads a
    ensures |s| == a.Length0
    ensures forall i :: 0 <= i < a.Length0 ==> |s[i]| == a.Length1
    ensures forall i, j :: 0 <= i < a.Length0 && 0 <= j < a.Length1 ==> s[i][j] == a[i, j]
  {
    seq(a.Length0, i reads a => seq(a.Length1, j reads a =>
      if 0 <= i < a.Length0 && 0 <= j < a.Length1 then a[i, j] else 0))
  }

  /** Two square grids with the same cells are the same grid. */
  lemma SameCells(s: Grid, t: Grid, n: int)
    requires IsSquare(s, n) && IsSquare(t, n)
    requires forall i, j :: 0 <= i < n && 0 <= j < n ==> s[i][j] == t[i][j]
    ensures s == t
  {
    forall i | 0 <= i < n
      ensures s[i] == t[i]
    {
      assert forall j :: 0 <= j < n ==> s[i][j] == t[i][j];
    }
  }

  /** The `h` x `w` rectangle with top-left cell (i, j) lies inside `s`. */
  predicate Within(s: Grid, i: int, j: int, h: int, w: int) {
    0 <= i && 0 <= h && i + h <= |s| && 0 <= j && 0 <= w &&
    forall x :: i <= x < i + h ==> j + w <= |s[x]|
  }

  /** s[i][j] + s[i][j+1] + ... + s[i][j+w-1]. */
  function RowSum(s: Grid, i: int, j: int, w: int): int
    requires 0 <= i < |s| && 0 <= j && 0 <= w && j + w <= |s[i]|
    decreases w
  {
    if w == 0 then 0 else RowSum(s, i, j, w - 1) + s[i][j + w - 1]
  }

  /** The sum of the `h` x `w` rectangle of `s` whose top-left cell is (i, j). */
  function RectSum(s: Grid, i: int, j: int, h: int, w: int): int
    requires Within(s, i, j, h, w)
    decreases h
  {
    if h == 0 then 0 else RectSum(s, i, j, h - 1, w) + RowSum(s, i + h - 1, j, w)
  }
}

module RectSums {
  import opened Grids

  /** Every cell of the rectangle holds 0 or 1. */
  ghost predicate Binary(s: Grid, i: int, j: int, h: int, w: int)
    requires Within(s, i, j, h, w)
  {
    forall x, y :: i <= x < i + h && j <= y < j + w ==> s[x][y] == 0 || s[x][y] == 1
  }

  /** The coordinates of the live cells (value 1) of the rectangle. */
  ghost function LiveCells(s: Grid, i: int, j: int, h: int, w: int): set<(int, int)>
    requires Within(s, i, j, h, w)
  {
    set x, y | i <= x < i + h && j <= y < j + w && s[x][y] == 1 :: (x, y)
  }

  lemma {:induction false} RowSumSplit(s: Grid, i: int, j: int, w1: int, w2: int)
    requires 0 <= i < |s| && 0 <= j && 0 <= w1 && 0 <= w2 && j + w1 + w2 <= |s[i]|
    ensures RowSum(s, i, j, w1 + w2) == RowSum(s, i, j, w1) + RowSum(s, i, j + w1, w2)
    decreases w2
  {
    if w2 > 0 {
      RowSumSplit(s, i, j, w1, w2 - 1);
    }
  }

  /** A rectangle's sum is the sum of its upper `h1` rows and its lower `h2` rows. */
  lemma {:induction false} SplitRows(s: Grid, i: int, j: int, h1: int, h2: int, w: int)
    requires 0 <= h1 && 0 <= h2 && Within(s, i, j, h1 + h2, w)
    ensures Within(s, i, j, h1, w) && Within(s, i + h1, j, h2, w)
    ensures RectSum(s, i, j, h1 + h2, w) == RectSum(s, i, j, h1, w) + RectSum(s, i + h1, j, h2, w)
    decreases h2
  {
    if h2 > 0 {
      SplitRows(s, i, j, h1, h2 - 1, w);
    }
  }

  /** A rectangle's sum is the sum of its left `w1` columns and its right `w2` columns. */
  lemma {:induction false} SplitColumns(s: Grid, i: int, j: int, h: int, w1: int, w2: int)
    requires 0 <= w1 && 0 <= w2 && Within(s, i, j, h, w1 + w2)
    ensures Within(s, i, j, h, w1) && Within(s, i, j + w1, h, w2)
    ensures RectSum(s, i, j, h, w1 + w2) == RectSum(s, i, j, h, w1) + RectSum(s, i, j + w1, h, w2)
    decreases h
  {
    if h > 0 {
      SplitColumns(s, i, j, h - 1, w1, w2);
      RowSumSplit(s, i + h - 1, j, w1, w2);
    }
  }

  /** A rectangle of zeros sums to zero. */
  lemma {:induction false} ZeroSum(s: Grid, i: int, j: int, h: int, w: int)
    requires Within(s, i, j, h, w)
    requires forall x, y :: i <= x < i + h && j <= y < j + w ==> s[x][y] == 0
    ensures RectSum(s, i, j, h, w) == 0
    decreases h
  {
    if h > 0 {
      ZeroSum(s, i, j, h - 1, w);
      RowZeroSum(s, i + h - 1, j, w);
    }
  }

  lemma {:induction false} RowZeroSum(s: Grid, i: int, j: int, w: int)
    requires 0 <= i < |s| && 0 <= j && 0 <= w && j + w <= |s[i]|
    requires forall y :: j <= y < j + w ==> s[i][y] == 0
    ensures RowSum(s, i, j, w) == 0
    decreases w
  {
    if w > 0 {
      RowZeroSum(s, i, j, w - 1);
    }
  }

  /** A rectangle of 0/1 cells sums to between 0 and its area. */
  lemma {:induction false} BinaryBounds(s: Grid, i: int, j: int, h: int, w: int)
    requires Within(s, i, j, h, w) && Binary(s, i, j, h, w)
    ensures 0 <= RectSum(s, i, j, h, w) <= h * w
    decreases h
  {
    if h > 0 {
      BinaryBounds(s, i, j, h - 1, w);
      BinaryRowBounds(s, i + h - 1, j, w);
      assert (h - 1) * w + w == h * w;
    }
  }

  lemma {:induction false} BinaryRowBounds(s: Grid, i: int, j: int, w: int)
    requires 0 <= i < |s| && 0 <= j && 0 <= w && j + w <= |s[i]|
    requires forall y :: j <= y < j + w ==> s[i][y] == 0 || s[i][y] == 1
    ensures 0 <= RowSum(s, i, j, w) <= w
    decreases w
  {
    if w > 0 {
      BinaryRowBounds(s, i, j, w - 1);
    }
  }

  /** On 0/1 cells, a rectangle's sum is its number of live cells. */
  lemma {:induction false} SumCountsLive(s: Grid, i: int, j: int, h: int, w: int)
    requires Within(s, i, j, h, w) && Binary(s, i, j, h, w)
    ensures RectSum(s, i, j, h, w) == |LiveCells(s, i, j, h, w)|
    decreases h
  {
    if h > 0 {
      SumCountsLive(s, i, j, h - 1, w);
      RowCountsLive(s, i + h - 1, j, w);
      var upper := LiveCells(s, i, j, h - 1, w);
      var last := LiveCells(s, i + h - 1, j, 1, w);
      assert LiveCells(s, i, j, h, w) == upper + last;
      assert upper * last == {};
      assert RectSum(s, i + h - 1, j, 1, w) == RowSum(s, i + h - 1, j, w);
    }
  }

  lemma {:induction false} RowCountsLive(s: Grid, i: int, j: int, w: int)
    requires Within(s, i, j, 1, w) && Binary(s, i, j, 1, w)
    ensures RectSum(s, i, j, 1, w) == |LiveCells(s, i, j, 1, w)|
    decreases w
  {
    assert RectSum(s, i, j, 1, w) == RowSum(s, i, j, w);
    if w > 0 {
      RowCountsLive(s, i, j, w - 1);
      var left := LiveCells(s, i, j, 1, w - 1);
      var cell := if s[i][j + w - 1] == 1 then {(i, j + w - 1)} else {};
      assert LiveCells(s, i, j, 1, w) == left + cell;
      assert (i, j + w - 1) !in left;
    }
  }
}
