# image2dice in Dafny

A verified model of the mosaic algorithm of `image2dice`. The tool turns a grayscale picture into a picture built from dice. It cuts the image into `side x side` blocks and reduces each block to its mean intensity. That mean picks one of the six faces of the chosen die style, and the face's bitmap (its glyph) is written over the block in place. Blocks at the right and bottom edges are clipped.

The project has five modules, one file each:

- `grids.dfy` (`Grids`): grids of intensities, exact block sums, and the `Mean` pair (sum, count) that stands for `cv2.mean`.
- `faces.dfy` (`Faces`): the quantiser `int(level * 5 / 255 + 1)`, with its style-dependent polarity. `level` is the mean for styles `'5'` and `'6'` and `abs(255 - mean)` for every other style.
- `dice.dfy` (`Dice`): `Die`, a value holding a style string and a side length. It includes Python's `str(int)`, because `Die.__init__` stores `str(style)`.
- `images.dfy` (`Images`): the class `Image`, whose pixels are an `array2<int>`. It has `SetImage`, a clipped write done as a parallel `forall`, the same as NumPy's slice assignment. It also has `GetAreaMean`, the mean of a rectangle clipped the way NumPy slices clip.
- `mosaic.dfy` (`Mosaic`): the class `Img2dice` and its nested row-major loop. The module also models `range(0, n, side)`, the order in which block origins are visited, and proves that the blocks partition the image.

Main results:

- **Face formula.** For every mean in [0, 255] the face is in 1..6, so the glyph lookup never misses, and a mean of 255 gives 6, never 7. The endpoints follow the style's polarity. The face is monotone in the mean: non-decreasing for styles `'5'` and `'6'`, non-increasing for all others. With exact reals, the face equals `floor(level * 5 / 255 + 1)`.
- **Compositing loop.** `MakeMosaic` visits the block origins at multiples of `side` in row-major order. After it runs, every pixel `(i, j)` holds `glyph[face(block at (i - i % side, j - j % side))][i % side][j % side]`, where the face comes from the mean of the *original* image. This holds even though earlier blocks were overwritten in place.
- **Partition.** Every pixel lies in the block of exactly one visited origin (`PixelCovered`, `BlocksDisjoint`), so every pixel is written exactly once.

`Die` is never changed after it is built, so it is a datatype, and `NewDie` models `Die.__init__`. The getters `getStyle`, `getSide` and `Image.getImage` are field reads. `Image.GetAreaMean` applies `AreaMean` to the current pixels; the properties are stated on `AreaMean`.

For the inverted styles a mean of 0 gives face 6 (`abs(255 - 0) * 5 / 255 + 1 = 6`), as the docstring at image2dice/img2dice.py:199-201 says.

## Model

| member | source | states |
|---|---|---|
| `Grids.RegionSumBounds` | image2dice/img2dice.py:146-150 | a rectangle of 8-bit pixels sums to between 0 and 255 per pixel, so every block mean lies in [0, 255] |
| `Grids.RegionSumAgree` | image2dice/img2dice.py:146-150 | the sum of a rectangle depends only on the pixels inside it |
| `Images.AreaMean` | image2dice/img2dice.py:128-150 | the mean of `img[x:x+height, y:y+width]` counts exactly the pixels of the rectangle clipped at the image edges; the region is non-empty iff the origin is inside the image and both lengths are positive; the sum lies between 0 and 255 times the count |
| `Images.Image.GetAreaMean` | image2dice/img2dice.py:128-150 | `AreaMean` of the current pixels: the block is non-empty exactly when its origin is inside the image and both lengths are positive, and its mean lies in [0, 255] |
| `Images.AreaMeanAgree` | image2dice/img2dice.py:146-150 | two images that agree on a rectangle give it the same mean, which is why reading from the partly overwritten image is sound |
| `Images.Image.SetImage` | image2dice/img2dice.py:104-126 | writes exactly the cells `[r, r+min(glyph rows, rows-r)) x [c, c+min(glyph cols, cols-c))`; cell `(r+i, c+j)` gets `newImg[i][j]`; every other pixel keeps its value; no index leaves the array |
| `Faces.Face` | image2dice/img2dice.py:219-224 | the face is in 1..6, and it is the floor of `5 * level / 255` plus one, stated without division: `255*count*(f-1) <= 5*levelSum < 255*count*f` |
| `Faces.DieNum` | image2dice/img2dice.py:221-224 | the face chosen under a style string is in 1..6, so `diceImages[dieNum]` (keys 1..6) never misses |
| `Faces.FaceEndpoints` | image2dice/img2dice.py:199-201 | styles 5 and 6 map 0 to 1 and 255 to 6; every other style maps 0 to 6 and 255 to 1; the top of the range gives 6, never 7 |
| `Faces.FaceMonotone` | image2dice/img2dice.py:221-224 | for a fixed style the face is non-decreasing in the mean for styles 5 and 6 and non-increasing for the others, across blocks of any pixel counts |
| `Faces.FaceIsFloorOfScaledMean` | image2dice/img2dice.py:222-224 | with exact reals, the face equals `int(mean*5/255 + 1)` for styles 5 and 6 and `int(abs(255-mean)*5/255 + 1)` for the others |
| `Faces.LevelTimesCount` | image2dice/img2dice.py:224 | `abs(255 - mean)` times the pixel count is `255*count - sum`; the `abs` changes nothing because the mean never exceeds 255 |
| `Dice.NatToString` | image2dice/img2dice.py:70 | `str` of a natural number is a non-empty string of digits with no leading zero unless the number is 0 |
| `Dice.IntToString` | image2dice/img2dice.py:70 | `str` of an integer starts with a minus sign exactly when the integer is negative |
| `Dice.NatToStringRoundTrip` | image2dice/img2dice.py:70 | reading the digits back gives the number |
| `Dice.IntToStringRoundTrip` | image2dice/img2dice.py:70 | parsing the text of `str(n)` gives `n` back, negative numbers included |
| `Dice.NewDie` | image2dice/img2dice.py:68-71 | a falsy side (missing or 0) becomes exactly 1 and any other is kept, so the side is never 0 and it is positive unless a negative side was given; a falsy style becomes exactly "1" and any other becomes `str(style)`, which starts with `-` exactly for a negative style |
| `Dice.NewDieStyleRoundTrip` | image2dice/img2dice.py:70 | the stored style reads back as the style given, or as 1 when it was missing or 0 |
| `Dice.NewDieIsDirect` | image2dice/img2dice.py:70 | a die uses the direct formula (`style in ['5', '6']`) exactly when it was built with style 5 or 6; the default style "1" is inverted |
| `Mosaic.StepsMembers` | image2dice/img2dice.py:216-217 | `range(lo, hi, step)` holds exactly the numbers in `[lo, hi)` that are a whole number of steps from `lo` |
| `Mosaic.StepsIncreasing` | image2dice/img2dice.py:216-217 | `range` with a positive step is strictly increasing and starts at `lo` |
| `Mosaic.RowMajorAppend` | image2dice/img2dice.py:216-217 | one more outer-loop turn appends the row's pairs to the visit order |
| `Mosaic.RowMajorMembers` | image2dice/img2dice.py:216-217 | the nested loop visits exactly the pairs of a row value and a column value |
| `Mosaic.RowMajorIncreasing` | image2dice/img2dice.py:216-217 | the nested loop visits its pairs in strictly increasing row-major order, so no origin is visited twice |
| `Mosaic.BlockOffset` | image2dice/img2dice.py:122-126 | inside a block whose origin is a multiple of `side`, the offset from the origin is the coordinate modulo `side` |
| `Mosaic.BlockOfPixel` | image2dice/img2dice.py:216-227 | a pixel lies in the clipped block of a visited origin iff that origin is the pixel's coordinates rounded down to multiples of `side` |
| `Mosaic.PixelCovered` | image2dice/img2dice.py:216-227 | every pixel, including those of partial blocks at the right and bottom edges, lies in the block of some visited origin |
| `Mosaic.BlocksDisjoint` | image2dice/img2dice.py:216-227 | the clipped blocks of two different visits share no pixel |
| `Mosaic.BlockFace` | image2dice/img2dice.py:218-224 | the face picked for a block of the original image is in 1..6 |
| `Mosaic.BlockPixel` | image2dice/img2dice.py:122-126 | within the block at an origin, the finished mosaic is the block's glyph shifted to that origin |
| `Mosaic.CheckerboardExample` | image2dice/img2dice.py:216-227 | the 2x2 black and white checkerboard with side 1, glyphs 10..60 and a direct style becomes `[[10, 60], [60, 10]]` |
| `Mosaic.Img2dice.constructor` | image2dice/img2dice.py:189-194 | the compositor keeps the image, the die and the six glyphs it is given |
| `Mosaic.Img2dice.PlaceBlock` | image2dice/img2dice.py:218-227 | one inner-loop turn reads the block's mean, which still comes from the original pixels; it writes the face's glyph and finishes that block without touching any other pixel |
| `Mosaic.Img2dice.PlaceRow` | image2dice/img2dice.py:217-227 | the inner loop finishes one block row, visiting `(r, c)` for `c` in `range(0, cols, side)` in order |
| `Mosaic.Img2dice.MakeMosaic` | image2dice/img2dice.py:196-230 | visits exactly the origins of `range(0, rows, side) x range(0, cols, side)` in row-major order; afterwards every pixel holds the glyph pixel of its block's face, computed from the original image; the result is the image itself, still 8-bit; a negative side (an empty `range`) changes nothing |

## Left out

- `Converter` (image2dice/img2dice.py:13-55) renders SVG files through `cairosvg` and reads them back with OpenCV. These are foreign library calls and file I/O. The six glyphs are a parameter instead, required to be six `side x side` 8-bit bitmaps with keys 1..6.
- `Image.__init__` and `Image.saveImg` (image2dice/img2dice.py:95-98, 152-173) decode and encode images, read the clock for the file name and write to disk. The model starts from a pixel array that is already loaded.
- `isImageFile`, `getArgs` and the `__main__` block (image2dice/img2dice.py:235-323) parse arguments, check the file system and show a window.
- The `print` calls (image2dice/img2dice.py:53-54, 229) write to the console.
- Floating point: `cv2.mean` and `mean * 5 / 255` compute in doubles. The model uses exact rationals, an idealisation. Rounding in the float computation could move a mean that lies extremely close to a face boundary to the neighbouring face.
- Images.Image.SetImage: requires `0 <= r <= rows` and `0 <= c <= cols`. The loop always meets this. NumPy's negative-index slicing, which other origins would reach, is not modelled.
- Mosaic.Img2dice.MakeMosaic: requires every glyph to be exactly `side x side`. Glyphs of other sizes, which would write past a block or leave part of it unwritten, are not modelled. A side of 0 is excluded because `Die` never produces it.
- Mosaic.Img2dice.MakeMosaic: "each pixel is written exactly once" is stated through the visit order (`visited`) together with `PixelCovered`, `BlocksDisjoint` and the clipped write of `SetImage`. The model does not count writes.
- Dice.NewDie: only integer or missing arguments are modelled, which is what the command line passes. `str` of other Python objects is not modelled.
- Pixel values are `int` constrained to 0..255 by `Image.Valid`. NumPy's `uint8` wrap-around never arises, because only glyph values are stored.
