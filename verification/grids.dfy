/** Grayscale grids and exact block sums.

    A grayscale image (or a die-face glyph) is a rectangular grid of
    intensities 0..255, stored row by row.  The mean of a rectangle is kept
    as an exact pair (sum, count) rather than as a floating-point number.
 */
module Grids {

  /** A grid of intensities, one sequence per row. */
  type Grid = seq<seq<int>>

  /** Exact mean of a rectangle: `sum / count` as a rational number. */
  datatype Mean = Mean(sum: int, count: nat)

  function Min(a: int, b: int): int
  {
    if a <= b then a else b
  }

  /** Number of columns of a grid, as NumPy's `shape[1]` reports it. */
  function Width(g: Grid): nat
  {
    if |g| == 0 then 0 else |g[0]|
  }

  /** Every row has the same length. */
  predicate IsRectangular(g: Grid)
  {
    forall i :: 0 <= i < |g| ==> |g[i]| == Width(g)
  }

  /** `g` has exactly `rows` rows of exactly `cols` columns. */
  predicate HasShape(g: Grid, rows: int, cols: int)
  {
    |g| == rows && forall i :: 0 <= i < |g| ==> |g[i]| == cols
  }

  /** Every intensity is an 8-bit grayscale value. */
  predicate IsGray(g: Grid)
  {
    forall i, j :: 0 <= i < |g| && 0 <= j < |g[i]| ==> 0 <= g[i][j] <= 255
  }

  /** `g1` and `g2` hold the same values on the rectangle [r0, r1) x [c0, c1). */
  predicate AgreeOn(g1: Grid, g2: Grid, r0: int, r1: int, c0: int, c1: int)
  {
    forall i, j ::
      0 <= r0 <= i < r1 && c0 <= j < c1 && i < |g1| && i < |g2| && 0 <= j < |g1[i]| && j < |g2[i]|
      ==> g1[i][j] == g2[i][j]
  }

  /** Sum of `row[c0..c1]`. */
  function RowSum(row: seq<int>, c0: int, c1: int): int
    requires 0 <= c0 <= c1 <= |row|
    decreases c1 - c0
  {
    if c0 == c1 then 0 else RowSum(row, c0, c1 - 1) + row[c1 - 1]
  }

  /** Precondition of RegionSum: the rectangle lies inside the grid. */
  predicate InGrid(g: Grid, r0: int, r1: int, c0: int, c1: int)
  {
    0 <= r0 <= r1 <= |g| && 0 <= c0 <= c1 &&
    forall i :: r0 <= i < r1 ==> c1 <= |g[i]|
  }

  /** Sum of the intensities of the rectangle [r0, r1) x [c0, c1). */
  function RegionSum(g: Grid, r0: int, r1: int, c0: int, c1: int): int
    requires InGrid(g, r0, r1, c0, c1)
    decreases r1 - r0
  {
    if r0 == r1 then 0 else RegionSum(g, r0, r1 - 1, c0, c1) + RowSum(g[r1 - 1], c0, c1)
  }

  lemma {:induction false} RowSumBounds(row: seq<int>, c0: int, c1: int)
    requires 0 <= c0 <= c1 <= |row|
    requires forall j :: c0 <= j < c1 ==> 0 <= row[j] <= 255
    ensures 0 <= RowSum(row, c0, c1) <= 255 * (c1 - c0)
    decreases c1 - c0
  {
    if c0 < c1 {
      RowSumBounds(row, c0, c1 - 1);
    }
  }

  /** A rectangle of 8-bit intensities sums to between 0 and 255 per pixel. */
  lemma {:induction false} RegionSumBounds(g: Grid, r0: int, r1: int, c0: int, c1: int)
    requires InGrid(g, r0, r1, c0, c1)
    requires IsGray(g)
    ensures 0 <= RegionSum(g, r0, r1, c0, c1) <= 255 * ((r1 - r0) * (c1 - c0))
    decreases r1 - r0
  {
    if r0 < r1 {
      RegionSumBounds(g, r0, r1 - 1, c0, c1);
      RowSumBounds(g[r1 - 1], c0, c1);
      calc {
        255 * ((r1 - 1 - r0) * (c1 - c0)) + 255 * (c1 - c0);
        255 * ((r1 - r0) * (c1 - c0));
      }
    }
  }

  lemma {:induction false} RowSumAgree(row1: seq<int>, row2: seq<int>, c0: int, c1: int)
    requires 0 <= c0 <= c1 <= |row1| && c1 <= |row2|
    requires forall j :: c0 <= j < c1 ==> row1[j] == row2[j]
    ensures RowSum(row1, c0, c1) == RowSum(row2, c0, c1)
    decreases c1 - c0
  {
    if c0 < c1 {
      RowSumAgree(row1, row2, c0, c1 - 1);
    }
  }

  /** The sum of a rectangle depends only on the pixels inside it. */
  lemma {:induction false} RegionSumAgree(g1: Grid, g2: Grid, r0: int, r1: int, c0: int, c1: int)
    requires InGrid(g1, r0, r1, c0, c1) && InGrid(g2, r0, r1, c0, c1)
    requires AgreeOn(g1, g2, r0, r1, c0, c1)
    ensures RegionSum(g1, r0, r1, c0, c1) == RegionSum(g2, r0, r1, c0, c1)
    decreases r1 - r0
  {
    if r0 < r1 {
      RegionSumAgree(g1, g2, r0, r1 - 1, c0, c1);
      RowSumAgree(g1[r1 - 1], g2[r1 - 1], c0, c1);
    }
  }
}
