/** Intensity-to-face quantisation.

    A block's mean intensity (0..255) is reduced to one of the six die faces
    with `int(level * 5 / 255 + 1)`, where `level` is the mean itself for the
    styles "5" and "6" and `abs(255 - mean)` for every other style.  With the
    mean held exactly as sum / count, `level * 5 / 255` is the rational
    `5 * levelSum / (255 * count)`, and `int` of a non-negative number is its
    floor, so the face is an integer division plus one.
 */
module Faces {
  import opened Grids

  function Abs(x: int): nat
  {
    if x < 0 then -x else x
  }

  /** The styles whose faces get brighter as the face number grows. */
  predicate IsDirectStyle(style: string)
  {
    style == "5" || style == "6"
  }

  /** A mean of 8-bit intensities over a non-empty block. */
  predicate IsPixelMean(m: Mean)
  {
    m.count >= 1 && 0 <= m.sum <= 255 * m.count
  }

  /** `level * count`, where `level` is the quantity the style quantises:
      the mean itself, or its distance `abs(255 - mean)` from white. */
  function LevelSum(direct: bool, m: Mean): int
  {
    if direct then m.sum else Abs(255 * m.count - m.sum)
  }

  /** 0 <= a / b <= k whenever 0 <= a <= k * b. */
  lemma DivBounds(a: int, b: int, k: int)
    requires b >= 1 && 0 <= a <= k * b
    ensures 0 <= a / b <= k
  {
    var q := a / b;
    assert a == b * q + a % b;
  }

  /** The quotient and remainder of a division are the only ones. */
  lemma DivModUnique(a: int, d: int, q: int, r: int)
    requires d >= 1 && a == d * q + r && 0 <= r < d
    ensures a / d == q && a % d == r
  {
    var q', r' := a / d, a % d;
    assert d * (q - q') == r' - r;
    if q > q' {
      MulAtLeast(d, q - q');
    } else if q < q' {
      MulAtLeast(d, q' - q);
    }
  }

  lemma MulAtLeast(d: int, k: int)
    requires d >= 1 && k >= 1
    ensures d * k >= d
  {
  }

  /** a / b is the floor of the rational a / b. */
  lemma DivFloor(a: int, b: int)
    requires b >= 1
    ensures b * (a / b) <= a < b * (a / b + 1)
  {
    assert a == b * (a / b) + a % b;
  }

  /** The face number for a block whose exact mean is `m`.
      `direct` is `style in ['5', '6']`. */
  function Face(direct: bool, m: Mean): (f: int)
    requires IsPixelMean(m)
    ensures 1 <= f <= 6
    ensures 255 * m.count * (f - 1) <= 5 * LevelSum(direct, m) < 255 * m.count * f
  {
    var level := LevelSum(direct, m);
    var d := 255 * m.count;
    DivBounds(5 * level, d, 5);
    DivFloor(5 * level, d);
    5 * level / d + 1
  }

  /** The face number for a block mean under a given style string. */
  function DieNum(style: string, m: Mean): (f: int)
    requires IsPixelMean(m)
    ensures 1 <= f <= 6
  {
    Face(IsDirectStyle(style), m)
  }

  /** Black and white blocks land on the extreme faces, with the polarity
      of the style: direct styles send 0 to 1 and 255 to 6, the others send
      0 to 6 and 255 to 1.  In particular the top of the range gives 6,
      never 7. */
  lemma FaceEndpoints(count: nat)
    requires count >= 1
    ensures Face(true, Mean(0, count)) == 1
    ensures Face(true, Mean(255 * count, count)) == 6
    ensures Face(false, Mean(0, count)) == 6
    ensures Face(false, Mean(255 * count, count)) == 1
  {
    var d := 255 * count;
    DivModUnique(0, d, 0, 0);
    DivModUnique(5 * d, d, 5, 0);
    assert LevelSum(false, Mean(0, count)) == d;
    assert LevelSum(false, Mean(d, count)) == 0;
  }

  /** Integer division is monotone in the rational a / b. */
  lemma DivMonotone(a1: int, b1: int, a2: int, b2: int)
    requires b1 >= 1 && b2 >= 1 && a1 >= 0
    requires a1 * b2 <= a2 * b1
    ensures a1 / b1 <= a2 / b2
  {
    var q1, q2 := a1 / b1, a2 / b2;
    DivFloor(a1, b1);
    DivFloor(a2, b2);
    calc {
      b1 * (b2 * q1);
      == b2 * (b1 * q1);
      <= { MulMonotone(b2, b1 * q1, a1); }
      b2 * a1;
      <= a2 * b1;
      < { MulStrict(b1, a2, b2 * (q2 + 1)); }
      b1 * (b2 * (q2 + 1));
    }
    MulCancel(b1, b2 * q1, b2 * (q2 + 1));
    MulCancel(b2, q1, q2 + 1);
  }

  lemma MulMonotone(k: int, x: int, y: int)
    requires k >= 0 && x <= y
    ensures k * x <= k * y
  {
  }

  lemma MulCancel(k: int, x: int, y: int)
    requires k >= 1 && k * x < k * y
    ensures x < y
  {
  }

  lemma MulStrict(k: int, x: int, y: int)
    requires k >= 1 && x < y
    ensures k * x < k * y
  {
  }

  /** For a fixed style the face is monotone in the block mean: brighter
      blocks get higher faces under a direct style and lower faces under
      every other style.  `m1` has the lower mean: m1.sum / m1.count <=
      m2.sum / m2.count, written without division. */
  lemma FaceMonotone(m1: Mean, m2: Mean)
    requires IsPixelMean(m1) && IsPixelMean(m2)
    requires m1.sum * m2.count <= m2.sum * m1.count
    ensures Face(true, m1) <= Face(true, m2)
    ensures Face(false, m1) >= Face(false, m2)
  {
    var c1, c2 := m1.count, m2.count;
    var s1, s2 := m1.sum, m2.sum;
    // direct: 5 * s1 / (255 * c1) <= 5 * s2 / (255 * c2)
    calc {
      (5 * s1) * (255 * c2);
      == 1275 * (s1 * c2);
      <= 1275 * (s2 * c1);
      == (5 * s2) * (255 * c1);
    }
    DivMonotone(5 * s1, 255 * c1, 5 * s2, 255 * c2);
    // inverted: the distance from white shrinks as the mean grows
    var l1, l2 := 255 * c1 - s1, 255 * c2 - s2;
    assert LevelSum(false, m1) == l1 && LevelSum(false, m2) == l2;
    calc {
      (5 * l2) * (255 * c1);
      == 1275 * (255 * (c1 * c2) - s2 * c1);
      <= 1275 * (255 * (c1 * c2) - s1 * c2);
      == (5 * l1) * (255 * c2);
    }
    DivMonotone(5 * l2, 255 * c2, 5 * l1, 255 * c1);
  }

  /** The quantity the style quantises, as a real number: the mean
      `sum / count`, or `abs(255 - mean)`. */
  function Level(direct: bool, m: Mean): real
    requires m.count >= 1
  {
    var mean := m.sum as real / m.count as real;
    if direct then mean else if 255.0 - mean < 0.0 then mean - 255.0 else 255.0 - mean
  }

  /** f - 1 <= 5 * l / (255 * c) < f, for positive c, without division. */
  predicate ScaledBounds(c: real, l: real, f: int)
  {
    255.0 * c * (f - 1) as real <= 5.0 * l < 255.0 * c * f as real
  }

  lemma RealFloorScaled(y: real, c: real, l: real, f: int)
    requires c >= 1.0 && y * c == l && ScaledBounds(c, l, f)
    ensures (y * 5.0 / 255.0 + 1.0).Floor == f
  {
    assert 5.0 * l == c * (5.0 * y);
    assert 255.0 * (f - 1) as real <= 5.0 * y < 255.0 * f as real by {
      RealCancel(c, 255.0 * (f - 1) as real, 5.0 * y);
      RealCancel(c, 5.0 * y, 255.0 * f as real);
    }
  }

  lemma RealCancel(c: real, a: real, b: real)
    requires c >= 1.0
    ensures c * a <= c * b ==> a <= b
    ensures c * a < c * b ==> a < b
  {
  }

  /** The real level times the pixel count is the integer level sum. */
  lemma LevelTimesCount(direct: bool, m: Mean)
    requires IsPixelMean(m)
    ensures Level(direct, m) * m.count as real == LevelSum(direct, m) as real
  {
    var c := m.count as real;
    var mean := m.sum as real / c;
    assert mean * c == m.sum as real;
    if !direct {
      assert mean <= 255.0 by {
        assert m.sum as real <= 255.0 * c;
        RealCancel(c, mean, 255.0);
      }
      assert (255.0 - mean) * c == (255 * m.count - m.sum) as real;
    }
  }

  /** The floor characterisation of Face, carried over to the reals. */
  lemma FaceBoundsReal(direct: bool, m: Mean)
    requires IsPixelMean(m)
    ensures ScaledBounds(m.count as real, LevelSum(direct, m) as real, Face(direct, m))
  {
    var n, lv, f := m.count, LevelSum(direct, m), Face(direct, m);
    CastProduct(255 * n, f - 1);
    CastProduct(255 * n, f);
    assert (255 * n * (f - 1)) as real <= (5 * lv) as real < (255 * n * f) as real;
  }

  lemma CastProduct(a: int, b: int)
    ensures (a * b) as real == a as real * b as real
  {
  }

  /** With exact real arithmetic in place of floating point, Face is
      `int(level * 5 / 255 + 1)` literally: the floor of the scaled level,
      plus one. */
  lemma FaceIsFloorOfScaledMean(direct: bool, m: Mean)
    requires IsPixelMean(m)
    ensures Face(direct, m) == (Level(direct, m) * 5.0 / 255.0 + 1.0).Floor
  {
    LevelTimesCount(direct, m);
    FaceBoundsReal(direct, m);
    RealFloorScaled(Level(direct, m), m.count as real, LevelSum(direct, m) as real, Face(direct, m));
  }
}
