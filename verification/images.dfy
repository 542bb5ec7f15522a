/** The grayscale image being turned into dice.

    The pixels live in a mutable two-dimensional array (`self.img` in the
    Python class), updated in place one block at a time.  A rectangle of the
    image is addressed the way NumPy slices it: `img[x:x+h, y:y+w]` keeps
    the part of the rectangle that lies inside the image and silently drops
    the rest.
 */
module Images {
  import opened Grids

  /** The half-open range NumPy's slice `[lo:lo+len]` selects from an axis of
      length `n`, for non-negative `lo` and `len`: both ends are cut at `n`. */
  function SliceStart(lo: int, n: int): int
  {
    Min(lo, n)
  }

  function SliceEnd(lo: int, len: int, n: int): int
  {
    Min(lo + len, n)
  }

  /** Exact mean of the clipped rectangle `g[x:x+height, y:y+width]`, as
      `cv2.mean` returns it for a single-channel image (the sum and the
      pixel count rather than their floating-point quotient).  The row
      offset comes first, as in the source. */
  function AreaMean(g: Grid, x: int, y: int, width: int, height: int): (m: Mean)
    requires IsRectangular(g) && IsGray(g)
    requires 0 <= x && 0 <= y && 0 <= width && 0 <= height
    ensures m.count == (SliceEnd(x, height, |g|) - SliceStart(x, |g|)) *
                       (SliceEnd(y, width, Width(g)) - SliceStart(y, Width(g)))
    ensures m.count >= 1 <==> x < |g| && y < Width(g) && width >= 1 && height >= 1
    ensures 0 <= m.sum <= 255 * m.count
  {
    var r0, r1 := SliceStart(x, |g|), SliceEnd(x, height, |g|);
    var c0, c1 := SliceStart(y, Width(g)), SliceEnd(y, width, Width(g));
    RegionSumBounds(g, r0, r1, c0, c1);
    PositiveProduct(r1 - r0, c1 - c0);
    Mean(RegionSum(g, r0, r1, c0, c1), (r1 - r0) * (c1 - c0))
  }

  lemma PositiveProduct(a: nat, b: nat)
    ensures a * b >= 1 <==> a >= 1 && b >= 1
  {
    if a >= 1 && b >= 1 {
      assert a * b >= 1 * b;
    }
  }

  /** The mean of a rectangle depends only on the pixels inside it: two
      images of the same shape that agree there give the same mean. */
  lemma AreaMeanAgree(g1: Grid, g2: Grid, x: int, y: int, width: int, height: int)
    requires IsRectangular(g1) && IsGray(g1) && IsRectangular(g2) && IsGray(g2)
    requires |g1| == |g2| && Width(g1) == Width(g2)
    requires 0 <= x && 0 <= y && 0 <= width && 0 <= height
    requires AgreeOn(g1, g2, x, x + height, y, y + width)
    ensures AreaMean(g1, x, y, width, height) == AreaMean(g2, x, y, width, height)
  {
    var r0, r1 := SliceStart(x, |g1|), SliceEnd(x, height, |g1|);
    var c0, c1 := SliceStart(y, Width(g1)), SliceEnd(y, width, Width(g1));
    RegionSumAgree(g1, g2, r0, r1, c0, c1);
  }

  class Image {
    /** The pixels, `img[row, column]`. */
    var img: array2<int>

    /** Every pixel holds an 8-bit intensity. */
    ghost predicate Valid()
      reads this, img
    {
      forall i, j :: 0 <= i < img.Length0 && 0 <= j < img.Length1 ==> 0 <= img[i, j] <= 255
    }

    /** The pixels as a grid of rows. */
    function Pixels(): (g: Grid)
      reads this, img
      ensures HasShape(g, img.Length0, img.Length1) && IsRectangular(g)
      ensures img.Length0 >= 1 ==> Width(g) == img.Length1
      ensures forall i, j :: 0 <= i < img.Length0 && 0 <= j < img.Length1 ==> g[i][j] == img[i, j]
    {
      var a := img;
      seq(a.Length0, i requires 0 <= i < a.Length0 reads a =>
        seq(a.Length1, j requires 0 <= j < a.Length1 reads a => a[i, j]))
    }

    function GetImage(): (a: array2<int>)
      reads this
    {
      img
    }

    /** Overwrites the rectangle whose top-left pixel is (r, c) with
        `newImg`, cut to what fits: `min(rows of newImg, rows left below r)`
        rows and `min(columns of newImg, columns left right of c)` columns.
        Every other pixel keeps its value. */
    method SetImage(newImg: Grid, r: int, c: int)
      requires IsRectangular(newImg)
      requires 0 <= r <= img.Length0 && 0 <= c <= img.Length1
      modifies img
      ensures forall i, j :: 0 <= i < img.Length0 && 0 <= j < img.Length1 ==>
        img[i, j] == if r <= i < r + Min(|newImg|, img.Length0 - r) &&
                        c <= j < c + Min(Width(newImg), img.Length1 - c)
                     then newImg[i - r][j - c]
                     else old(img[i, j])
    {
      var imgRows, imgCols := img.Length0, img.Length1;
      var row, col := |newImg|, Width(newImg);
      var minRow := Min(row, imgRows - r);
      var minCol := Min(col, imgCols - c);
      forall i, j | r <= i < r + minRow && c <= j < c + minCol {
        img[i, j] := newImg[i - r][j - c];
      }
    }

    /** The mean intensity of `img[x:x+height, y:y+width]`.  Being a
        function, it cannot change the image. */
    function GetAreaMean(x: int, y: int, width: int, height: int): (m: Mean)
      reads this, img
      requires Valid()
      requires 0 <= x && 0 <= y && 0 <= width && 0 <= height
      ensures m.count >= 1 <==> x < img.Length0 && y < img.Length1 && width >= 1 && height >= 1
      ensures 0 <= m.sum <= 255 * m.count
    {
      AreaMean(Pixels(), x, y, width, height)
    }
  }
}
