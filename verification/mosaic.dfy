/** Building the image up from dice.

    The image is walked in blocks of `side x side` pixels: the block origins
    are `(r, c)` for `r in range(0, rows, side)` and `c in range(0, cols,
    side)`, row by row.  Each block's mean intensity picks a face, and the
    face's glyph is written over the block, clipped at the right and bottom
    edges.  The image is overwritten in place, so the mean of a block is read
    from an image whose earlier blocks are already dice; the blocks are
    disjoint, so that mean is still the mean of the original pixels.
 */
module Mosaic {
  import opened Grids
  import opened Faces
  import opened Dice
  import opened Images

  /** The rendered faces of one die style, keyed by face number. */
  type GlyphSet = map<int, Grid>

  /** All six faces are present, each a `side x side` grayscale bitmap. */
  predicate ValidGlyphs(glyphs: GlyphSet, side: int)
  {
    forall f :: 1 <= f <= 6 ==>
      f in glyphs && HasShape(glyphs[f], side, side) && IsRectangular(glyphs[f]) && IsGray(glyphs[f])
  }

  // ---------------------------------------------------------------------
  // The order in which blocks are visited

  /** Python's `range(lo, hi, step)` for a positive step. */
  function Steps(lo: int, hi: int, step: int): seq<int>
    requires step >= 1
    decreases hi - lo
  {
    if lo >= hi then [] else [lo] + Steps(lo + step, hi, step)
  }

  /** The pairs `(r, c)` for `c` in `cs`. */
  function Pairs(r: int, cs: seq<int>): (ps: seq<(int, int)>)
    ensures |ps| == |cs|
    ensures forall k :: 0 <= k < |cs| ==> ps[k] == (r, cs[k])
  {
    seq(|cs|, k requires 0 <= k < |cs| => (r, cs[k]))
  }

  /** The pairs `(r, c)` of a nested loop `for r in rs: for c in cs`. */
  function RowMajor(rs: seq<int>, cs: seq<int>): seq<(int, int)>
  {
    if rs == [] then [] else Pairs(rs[0], cs) + RowMajor(rs[1..], cs)
  }

  predicate Increasing(s: seq<int>)
  {
    forall k1, k2 :: 0 <= k1 < k2 < |s| ==> s[k1] < s[k2]
  }

  /** Row-major (lexicographic) order on pixel positions. */
  predicate Before(p: (int, int), q: (int, int))
  {
    p.0 < q.0 || (p.0 == q.0 && p.1 < q.1)
  }

  predicate LexIncreasing(s: seq<(int, int)>)
  {
    forall k1, k2 :: 0 <= k1 < k2 < |s| ==> Before(s[k1], s[k2])
  }

  /** The next multiple of `d` after a multiple of `d`. */
  lemma NextMultiple(a: int, d: int)
    requires d >= 1 && a % d == 0
    ensures (a + d) % d == 0
  {
    DivModUnique(a, d, a / d, 0);
    DivModUnique(a + d, d, a / d + 1, 0);
  }

  /** `range(lo, hi, step)` holds exactly the numbers from `lo` below `hi`
      that are a whole number of steps away from `lo`. */
  lemma {:induction false} StepsMembers(lo: int, hi: int, step: int, x: int)
    requires step >= 1
    ensures x in Steps(lo, hi, step) <==> lo <= x < hi && (x - lo) % step == 0
    decreases hi - lo
  {
    if lo < hi {
      StepsMembers(lo + step, hi, step, x);
      if lo + step <= x {
        DivModUnique(x - lo, step, (x - lo - step) / step + 1, (x - lo - step) % step);
      } else if lo < x {
        DivModUnique(x - lo, step, 0, x - lo);
      }
    }
  }

  lemma {:induction false} StepsIncreasing(lo: int, hi: int, step: int)
    requires step >= 1
    ensures Increasing(Steps(lo, hi, step))
    ensures forall k :: 0 <= k < |Steps(lo, hi, step)| ==> Steps(lo, hi, step)[k] >= lo
    decreases hi - lo
  {
    if lo < hi {
      StepsIncreasing(lo + step, hi, step);
    }
  }

  lemma {:induction false} RowMajorAppend(rs: seq<int>, r: int, cs: seq<int>)
    ensures RowMajor(rs + [r], cs) == RowMajor(rs, cs) + Pairs(r, cs)
  {
    if rs != [] {
      assert (rs + [r])[1..] == rs[1..] + [r];
      RowMajorAppend(rs[1..], r, cs);
    }
  }

  /** The nested loop visits exactly the pairs of a visited row and a
      visited column. */
  lemma {:induction false} RowMajorMembers(rs: seq<int>, cs: seq<int>, p: (int, int))
    ensures p in RowMajor(rs, cs) <==> p.0 in rs && p.1 in cs
  {
    if rs != [] {
      RowMajorMembers(rs[1..], cs, p);
      assert rs == [rs[0]] + rs[1..];
      if p.0 == rs[0] && p.1 in cs {
        var k :| 0 <= k < |cs| && cs[k] == p.1;
        assert Pairs(rs[0], cs)[k] == p;
      }
    }
  }

  /** With increasing rows and columns, the nested loop visits its pairs in
      strictly increasing row-major order, so no pair comes twice. */
  lemma {:induction false} RowMajorIncreasing(rs: seq<int>, cs: seq<int>)
    requires Increasing(rs) && Increasing(cs)
    ensures LexIncreasing(RowMajor(rs, cs))
  {
    if rs != [] {
      var head, tail := Pairs(rs[0], cs), RowMajor(rs[1..], cs);
      RowMajorIncreasing(rs[1..], cs);
      forall k | 0 <= k < |tail|
        ensures rs[0] < tail[k].0
      {
        RowMajorMembers(rs[1..], cs, tail[k]);
        var m :| 0 <= m < |rs[1..]| && rs[1..][m] == tail[k].0;
      }
      var s := head + tail;
      forall k1, k2 | 0 <= k1 < k2 < |s|
        ensures Before(s[k1], s[k2])
      {
        if k2 < |head| {
        } else if k1 < |head| {
          assert s[k2] == tail[k2 - |head|];
        } else {
          assert s[k1] == tail[k1 - |head|] && s[k2] == tail[k2 - |head|];
        }
      }
    }
  }

  // ---------------------------------------------------------------------
  // Blocks

  /** The block origins the compositing loop visits, in its order. */
  function Origins(rows: int, cols: int, side: int): seq<(int, int)>
    requires side >= 1
  {
    RowMajor(Steps(0, rows, side), Steps(0, cols, side))
  }

  /** Pixel (i, j) lies in the block at origin `o` as it is written: the
      `side x side` square clipped at the image's bottom and right edges. */
  predicate InBlock(o: (int, int), side: int, rows: int, cols: int, i: int, j: int)
  {
    o.0 <= i < Min(o.0 + side, rows) && o.1 <= j < Min(o.1 + side, cols)
  }

  /** Inside a block whose origin is a multiple of `side`, the offset from
      the origin is the remainder modulo `side`. */
  lemma BlockOffset(side: int, r: int, i: int)
    requires side >= 1 && r >= 0 && r % side == 0 && r <= i < r + side
    ensures i % side == i - r && i - i % side == r
  {
    DivModUnique(r, side, r / side, 0);
    DivModUnique(i, side, r / side, i - r);
  }

  /** A pixel lies in the block of exactly one visited origin: the one
      found by rounding its coordinates down to multiples of `side`. */
  lemma BlockOfPixel(rows: int, cols: int, side: int, o: (int, int), i: int, j: int)
    requires side >= 1 && 0 <= i < rows && 0 <= j < cols
    requires o in Origins(rows, cols, side)
    ensures InBlock(o, side, rows, cols, i, j) <==> o == (i - i % side, j - j % side)
  {
    RowMajorMembers(Steps(0, rows, side), Steps(0, cols, side), o);
    StepsMembers(0, rows, side, o.0);
    StepsMembers(0, cols, side, o.1);
    if o.0 <= i < o.0 + side {
      BlockOffset(side, o.0, i);
    }
    if o.1 <= j < o.1 + side {
      BlockOffset(side, o.1, j);
    }
  }

  /** Every pixel of the image lies in the block of some visited origin:
      the blocks cover the image, partial blocks at the edges included. */
  lemma PixelCovered(rows: int, cols: int, side: int, i: int, j: int)
    requires side >= 1 && 0 <= i < rows && 0 <= j < cols
    ensures var os := Origins(rows, cols, side);
      exists k :: 0 <= k < |os| && InBlock(os[k], side, rows, cols, i, j)
  {
    var os := Origins(rows, cols, side);
    var o := (i - i % side, j - j % side);
    DivModUnique(i - i % side, side, i / side, 0);
    DivModUnique(j - j % side, side, j / side, 0);
    StepsMembers(0, rows, side, o.0);
    StepsMembers(0, cols, side, o.1);
    RowMajorMembers(Steps(0, rows, side), Steps(0, cols, side), o);
    var k :| 0 <= k < |os| && os[k] == o;
    BlockOfPixel(rows, cols, side, o, i, j);
  }

  /** The blocks of two different visits share no pixel. */
  lemma BlocksDisjoint(rows: int, cols: int, side: int, k1: int, k2: int, i: int, j: int)
    requires side >= 1 && 0 <= i < rows && 0 <= j < cols
    requires 0 <= k1 < |Origins(rows, cols, side)| && 0 <= k2 < |Origins(rows, cols, side)| && k1 != k2
    ensures var os := Origins(rows, cols, side);
      !(InBlock(os[k1], side, rows, cols, i, j) && InBlock(os[k2], side, rows, cols, i, j))
  {
    var os := Origins(rows, cols, side);
    StepsIncreasing(0, rows, side);
    StepsIncreasing(0, cols, side);
    RowMajorIncreasing(Steps(0, rows, side), Steps(0, cols, side));
    assert os[k1] != os[k2] by {
      if k1 < k2 {
        assert Before(os[k1], os[k2]);
      } else {
        assert Before(os[k2], os[k1]);
      }
    }
    BlockOfPixel(rows, cols, side, os[k1], i, j);
    BlockOfPixel(rows, cols, side, os[k2], i, j);
  }

  // ---------------------------------------------------------------------
  // The finished mosaic

  /** The face chosen for the block at (r, c) of the original image. */
  function BlockFace(orig: Grid, side: int, direct: bool, r: int, c: int): (f: int)
    requires IsRectangular(orig) && IsGray(orig) && side >= 1
    requires 0 <= r < |orig| && 0 <= c < Width(orig)
    ensures 1 <= f <= 6
  {
    Face(direct, AreaMean(orig, r, c, side, side))
  }

  /** What pixel (i, j) holds in the finished mosaic: the pixel at the same
      offset within its block of the glyph of the face that the block's
      original mean picks. */
  function MosaicPixel(orig: Grid, side: int, direct: bool, glyphs: GlyphSet, i: int, j: int): int
    requires IsRectangular(orig) && IsGray(orig) && side >= 1 && ValidGlyphs(glyphs, side)
    requires 0 <= i < |orig| && 0 <= j < Width(orig)
  {
    var f := BlockFace(orig, side, direct, i - i % side, j - j % side);
    glyphs[f][i % side][j % side]
  }

  /** Within the block at origin (r, c) the mosaic is the block's glyph,
      shifted to the origin. */
  lemma BlockPixel(orig: Grid, side: int, direct: bool, glyphs: GlyphSet, r: int, c: int, i: int, j: int)
    requires IsRectangular(orig) && IsGray(orig) && side >= 1 && ValidGlyphs(glyphs, side)
    requires 0 <= r && r % side == 0 && 0 <= c && c % side == 0
    requires r <= i < r + side && c <= j < c + side && i < |orig| && j < Width(orig)
    ensures MosaicPixel(orig, side, direct, glyphs, i, j) ==
            glyphs[BlockFace(orig, side, direct, r, c)][i - r][j - c]
  {
    BlockOffset(side, r, i);
    BlockOffset(side, c, j);
  }

  /** The two-by-two example: a checkerboard of black and white pixels,
      blocks of one pixel, one-pixel glyphs 10, 20, ..., 60 for faces 1 to 6
      and a direct style give the checkerboard of glyphs 1 and 6. */
  lemma CheckerboardMeans(orig: Grid)
    requires orig == [[0, 255], [255, 0]]
    ensures IsRectangular(orig) && IsGray(orig)
    ensures AreaMean(orig, 0, 0, 1, 1) == Mean(0, 1) && AreaMean(orig, 0, 1, 1, 1) == Mean(255, 1)
    ensures AreaMean(orig, 1, 0, 1, 1) == Mean(255, 1) && AreaMean(orig, 1, 1, 1, 1) == Mean(0, 1)
  {
    assert IsRectangular(orig) && IsGray(orig) by {
      forall i, j | 0 <= i < |orig| && 0 <= j < |orig[i]|
        ensures 0 <= orig[i][j] <= 255
      {
        assert i == 0 || i == 1;
      }
    }
    assert Width(orig) == 2;
    assert RowSum(orig[0], 1, 2) == 255 && RowSum(orig[1], 0, 1) == 255 && RowSum(orig[1], 1, 2) == 0;
    assert RegionSum(orig, 1, 2, 0, 1) == RowSum(orig[1], 0, 1);
    assert RegionSum(orig, 1, 2, 1, 2) == RowSum(orig[1], 1, 2);
  }

  lemma CheckerboardFaces(orig: Grid)
    requires orig == [[0, 255], [255, 0]]
    ensures IsRectangular(orig) && IsGray(orig)
    ensures BlockFace(orig, 1, true, 0, 0) == 1 && BlockFace(orig, 1, true, 1, 1) == 1
    ensures BlockFace(orig, 1, true, 0, 1) == 6 && BlockFace(orig, 1, true, 1, 0) == 6
  {
    CheckerboardMeans(orig);
    PixelFaces();
  }

  /** A single black pixel picks face 1 and a single white one face 6. */
  lemma PixelFaces()
    ensures Face(true, Mean(0, 1)) == 1 && Face(true, Mean(255, 1)) == 6
  {
    FaceEndpoints(1);
  }

  lemma CheckerboardGlyphs(glyphs: GlyphSet)
    requires glyphs == map f | 1 <= f <= 6 :: [[10 * f]]
    ensures ValidGlyphs(glyphs, 1) && glyphs[1] == [[10]] && glyphs[6] == [[60]]
  {
    forall f | 1 <= f <= 6
      ensures f in glyphs && glyphs[f] == [[10 * f]]
    {
    }
  }

  lemma CheckerboardExample(orig: Grid, glyphs: GlyphSet)
    requires orig == [[0, 255], [255, 0]]
    requires glyphs == map f | 1 <= f <= 6 :: [[10 * f]]
    ensures ValidGlyphs(glyphs, 1) && IsRectangular(orig) && IsGray(orig)
    ensures MosaicPixel(orig, 1, true, glyphs, 0, 0) == 10
    ensures MosaicPixel(orig, 1, true, glyphs, 0, 1) == 60
    ensures MosaicPixel(orig, 1, true, glyphs, 1, 0) == 60
    ensures MosaicPixel(orig, 1, true, glyphs, 1, 1) == 10
  {
    CheckerboardFaces(orig);
    CheckerboardGlyphs(glyphs);
  }

  // ---------------------------------------------------------------------
  // The compositing loop

  class Img2dice {
    const image: Image
    const die: Die
    /** The six glyphs, rendered once by `Converter.svg2png` when the
        compositor is built. */
    const diceImages: GlyphSet

    constructor(image: Image, die: Die, diceImages: GlyphSet)
      ensures this.image == image && this.die == die && this.diceImages == diceImages
    {
      this.image := image;
      this.die := die;
      this.diceImages := diceImages;
    }

    /** Pixel (i, j) is finished once the loop has reached the block at
        (r, c): it lies in an earlier block row, or in the current block row
        left of column c. */
    static predicate Done(r: int, c: int, side: int, i: int, j: int)
    {
      i < r || (i < r + side && j < c)
    }

    /** The pixels of the finished blocks hold the mosaic, all others the
        original image. */
    ghost predicate Progress(orig: Grid, side: int, direct: bool, r: int, c: int)
      reads this, image, image.img
      requires IsRectangular(orig) && IsGray(orig) && side >= 1 && ValidGlyphs(diceImages, side)
      requires HasShape(orig, image.img.Length0, image.img.Length1)
    {
      forall i, j :: 0 <= i < image.img.Length0 && 0 <= j < image.img.Length1 ==>
        image.img[i, j] ==
        if Done(r, c, side, i, j) then MosaicPixel(orig, side, direct, diceImages, i, j) else orig[i][j]
    }

    /** One turn of the inner loop: reads the mean of the block at (r, c),
        which no earlier turn has written, picks its face and writes the
        face's glyph over the block. */
    method PlaceBlock(ghost orig: Grid, side: int, direct: bool, r: int, c: int)
      requires image.Valid()
      requires IsRectangular(orig) && IsGray(orig) && side >= 1 && ValidGlyphs(diceImages, side)
      requires HasShape(orig, image.img.Length0, image.img.Length1)
      requires 0 <= r < image.img.Length0 && r % side == 0
      requires 0 <= c < image.img.Length1 && c % side == 0
      requires Progress(orig, side, direct, r, c)
      modifies image.img
      ensures image.Valid()
      ensures Progress(orig, side, direct, r, c + side)
    {
      // The block at (r, c) still holds the original pixels.
      AreaMeanAgree(image.Pixels(), orig, r, c, side, side);
      var mean := image.GetAreaMean(r, c, side, side);
      var dieNum := Face(direct, mean);
      assert dieNum == BlockFace(orig, side, direct, r, c);
      image.SetImage(diceImages[dieNum], r, c);
      forall i, j | r <= i < r + side && c <= j < c + side && i < image.img.Length0 && j < image.img.Length1
        ensures MosaicPixel(orig, side, direct, diceImages, i, j) == diceImages[dieNum][i - r][j - c]
      {
        BlockPixel(orig, side, direct, diceImages, r, c, i, j);
      }
    }

    /** The inner loop: places the blocks of the block row starting at row
        r, left to right.  `placed` lists their origins in that order. */
    method PlaceRow(ghost orig: Grid, side: int, direct: bool, r: int) returns (ghost placed: seq<(int, int)>)
      requires image.Valid()
      requires IsRectangular(orig) && IsGray(orig) && side >= 1 && ValidGlyphs(diceImages, side)
      requires HasShape(orig, image.img.Length0, image.img.Length1)
      requires 0 <= r < image.img.Length0 && r % side == 0
      requires Progress(orig, side, direct, r, 0)
      modifies image.img
      ensures image.Valid()
      ensures Progress(orig, side, direct, r + side, 0)
      ensures placed == Pairs(r, Steps(0, image.img.Length1, side))
    {
      var col := image.img.Length1;
      ghost var colsDone: seq<int> := [];
      placed := [];
      var c := 0;
      while c < col
        invariant 0 <= c && c % side == 0
        invariant Steps(0, col, side) == colsDone + Steps(c, col, side)
        invariant placed == Pairs(r, colsDone)
        invariant image.Valid()
        invariant Progress(orig, side, direct, r, c)
      {
        PlaceBlock(orig, side, direct, r, c);
        placed := placed + [(r, c)];
        assert Steps(c, col, side) == [c] + Steps(c + side, col, side);
        assert Steps(0, col, side) == (colsDone + [c]) + Steps(c + side, col, side);
        colsDone := colsDone + [c];
        NextMultiple(c, side);
        c := c + side;
      }
      assert colsDone == Steps(0, col, side);
    }

    /** Replaces every block of the image by the glyph of the face its mean
        picks, in place, and returns the image.  `visited` lists the block
        origins in the order the loop takes them.  A negative side makes
        Python's `range` empty, and then nothing changes. */
    method MakeMosaic() returns (result: array2<int>, ghost visited: seq<(int, int)>)
      requires image.Valid()
      requires die.side != 0
      requires die.side >= 1 ==> ValidGlyphs(diceImages, die.side)
      modifies image.img
      ensures result == image.img && image.Valid()
      ensures die.side < 0 ==> visited == [] && unchanged(image.img)
      ensures die.side >= 1 ==> visited == Origins(image.img.Length0, image.img.Length1, die.side)
      ensures die.side >= 1 ==> forall i, j :: 0 <= i < image.img.Length0 && 0 <= j < image.img.Length1 ==>
        image.img[i, j] ==
        MosaicPixel(old(image.Pixels()), die.side, IsDirectStyle(die.style), diceImages, i, j)
    {
      var row := image.img.Length0;
      var side := die.side;
      var style := die.style;
      var direct := IsDirectStyle(style);
      ghost var orig := image.Pixels();
      visited := [];
      if side >= 1 {
        ghost var allCols := Steps(0, image.img.Length1, side);
        ghost var rowsDone: seq<int> := [];
        var r := 0;
        while r < row
          invariant 0 <= r && r % side == 0
          invariant Steps(0, row, side) == rowsDone + Steps(r, row, side)
          invariant visited == RowMajor(rowsDone, allCols)
          invariant image.Valid()
          invariant Progress(orig, side, direct, r, 0)
        {
          var placed := PlaceRow(orig, side, direct, r);
          RowMajorAppend(rowsDone, r, allCols);
          visited := visited + placed;
          assert Steps(r, row, side) == [r] + Steps(r + side, row, side);
          assert Steps(0, row, side) == (rowsDone + [r]) + Steps(r + side, row, side);
          rowsDone := rowsDone + [r];
          NextMultiple(r, side);
          r := r + side;
        }
        assert rowsDone == Steps(0, row, side);
      }
      result := image.GetImage();
    }
  }
}
