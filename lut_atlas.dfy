/**
 * The 3D colour LUT as the filter stores it: a square atlas image of
 * 6 x 6 tiles, each tile a 33 x 33 slice of the cube at one blue level,
 * and the interpolation that reads it.
 */
module LutAtlas {
  import opened Rgba

  // The function bodies below write these sizes as the literals 33, 198 and
  // 6: with literal factors and divisors the solver stays in linear arithmetic.

  /** Samples per cube axis. */
  const CubeSize: int := 33
  /** Width (and height) of the atlas image in texels. */
  const AtlasWidth: int := 198
  /** Tiles per atlas row: AtlasWidth / CubeSize. */
  const TilesX: int := 6
  /** Length of the atlas's RGBA byte buffer. */
  const AtlasBytes: int := 198 * 198 * 4
  /** Largest normalised channel value the lookup accepts, (CubeSize - 1) / CubeSize. */
  const ClampMax: real := 32.0 / 33.0

  function Min(a: int, b: int): int { if a <= b then a else b }
  function MinR(a: real, b: real): real { if a <= b then a else b }
  function MaxR(a: real, b: real): real { if a <= b then b else a }

  /** Byte offset of texel (x, y) of the atlas: row-major, four bytes a texel. */
  function TexelIndex(x: int, y: int): (idx: int)
    requires 0 <= x < AtlasWidth && 0 <= y < AtlasWidth
    ensures 0 <= idx && idx + 3 < AtlasBytes && idx % 4 == 0
    ensures idx / 4 % AtlasWidth == x && idx / 4 / AtlasWidth == y
  {
    (y * 198 + x) * 4
  }

  /** Channel k of atlas texel (x, y). */
  function Texel(lut: seq<Byte>, x: int, y: int, k: int): Byte
    requires |lut| == AtlasBytes
    requires 0 <= x < AtlasWidth && 0 <= y < AtlasWidth && 0 <= k < 3
  {
    lut[TexelIndex(x, y) + k]
  }

  /**
   * Byte offset of cube cell (i, j, bz): red index i and green index j within
   * the tile of blue level bz, which is tile bz % 6 of tile row bz / 6.
   */
  function CellIndex(i: int, j: int, bz: int): (idx: int)
    requires 0 <= i < CubeSize && 0 <= j < CubeSize && 0 <= bz < CubeSize
    ensures 0 <= idx && idx + 3 < AtlasBytes && idx % 4 == 0
  {
    TexelIndex(bz % 6 * 33 + i, bz / 6 * 33 + j)
  }

  /** A number written as q * 33 + r with 0 <= r < 33 determines q and r. */
  lemma SplitUnique(q: int, r: int, q': int, r': int)
    requires 0 <= r < 33 && 0 <= r' < 33
    requires q * 33 + r == q' * 33 + r'
    ensures q == q' && r == r'
  {
  }

  /** Distinct cells of the cube occupy distinct texels of the atlas. */
  lemma CellIndexInjective(i: int, j: int, bz: int, i': int, j': int, bz': int)
    requires 0 <= i < CubeSize && 0 <= j < CubeSize && 0 <= bz < CubeSize
    requires 0 <= i' < CubeSize && 0 <= j' < CubeSize && 0 <= bz' < CubeSize
    requires CellIndex(i, j, bz) == CellIndex(i', j', bz')
    ensures i == i' && j == j' && bz == bz'
  {
    var idx := CellIndex(i, j, bz);
    assert bz % 6 * 33 + i == idx / 4 % AtlasWidth == bz' % 6 * 33 + i';
    assert bz / 6 * 33 + j == idx / 4 / AtlasWidth == bz' / 6 * 33 + j';
    SplitUnique(bz % 6, i, bz' % 6, i');
    SplitUnique(bz / 6, j, bz' / 6, j');
  }

  /** Channel k of cube cell (i, j, bz). */
  function CubeTexel(lut: seq<Byte>, i: int, j: int, bz: int, k: int): Byte
    requires |lut| == AtlasBytes
    requires 0 <= i < CubeSize && 0 <= j < CubeSize && 0 <= bz < CubeSize && 0 <= k < 3
  {
    lut[CellIndex(i, j, bz) + k]
  }

  /** The `lerp` helper: a + (b - a) * t. */
  function Lerp(a: real, b: real, t: real): (c: real)
    ensures t == 0.0 ==> c == a
    ensures t == 1.0 ==> c == b
  {
    a + (b - a) * t
  }

  /** For a weight in [0, 1], lerp stays between its end points. */
  lemma LerpBetween(a: real, b: real, t: real)
    requires 0.0 <= t <= 1.0
    ensures MinR(a, b) <= Lerp(a, b, t) <= MaxR(a, b)
  {
    var d := b - a;
    if a <= b {
      ScaleBetween(d, t);
    } else {
      ScaleBetween(-d, t);
    }
  }

  /** A non-negative length scaled by a weight in [0, 1] lies in [0, length]. */
  lemma ScaleBetween(d: real, t: real)
    requires 0.0 <= d && 0.0 <= t <= 1.0
    ensures 0.0 <= d * t <= d
  {
    assert d * (1.0 - t) >= 0.0;
  }

  /**
   * Bilinear interpolation of four corner values: first along x with weight
   * fx (c00 to c10 and c01 to c11), then the two results along y with weight fy.
   */
  function Bilinear(c00: real, c10: real, c01: real, c11: real, fx: real, fy: real): (c: real)
    ensures fx == 0.0 && fy == 0.0 ==> c == c00
    ensures fx == 1.0 && fy == 0.0 ==> c == c10
    ensures fx == 0.0 && fy == 1.0 ==> c == c01
    ensures fx == 1.0 && fy == 1.0 ==> c == c11
  {
    Lerp(Lerp(c00, c10, fx), Lerp(c01, c11, fx), fy)
  }

  function Min4(a: real, b: real, c: real, d: real): real { MinR(MinR(a, b), MinR(c, d)) }
  function Max4(a: real, b: real, c: real, d: real): real { MaxR(MaxR(a, b), MaxR(c, d)) }

  /** With weights in [0, 1] the interpolated value lies between the least and the greatest corner. */
  lemma BilinearBetween(c00: real, c10: real, c01: real, c11: real, fx: real, fy: real)
    requires 0.0 <= fx <= 1.0 && 0.0 <= fy <= 1.0
    ensures Min4(c00, c10, c01, c11) <= Bilinear(c00, c10, c01, c11, fx, fy) <= Max4(c00, c10, c01, c11)
  {
    LerpBetween(c00, c10, fx);
    LerpBetween(c01, c11, fx);
    LerpBetween(Lerp(c00, c10, fx), Lerp(c01, c11, fx), fy);
  }
}
