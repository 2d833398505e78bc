/**
 * The LUT mapping pass of the photo drop handler: every pixel of the photo's
 * RGBA buffer that is not a near-white highlight has its R, G and B replaced,
 * in place, by a bilinear sample of the atlas tile of its blue level.
 */
module ColorTransform {
  import opened Rgba
  import opened LutAtlas

  /** A channel byte normalised to [0, 1]. */
  function Norm(c: Byte): real
  {
    c as real / 255.0
  }

  /**
   * The highlight bypass: every channel above 0.99, or the Rec. 709 luma
   * 0.2126 r + 0.7152 g + 0.0722 b above 0.98 (channels normalised).
   */
  predicate IsHighlight(p: Pixel)
  {
    var r0, g0, b0 := Norm(p.r), Norm(p.g), Norm(p.b);
    var luma := 0.2126 * r0 + 0.7152 * g0 + 0.0722 * b0;
    (r0 > 0.99 && g0 > 0.99 && b0 > 0.99) || luma > 0.98
  }

  /** The bypass in whole bytes: all channels at least 253, or 2126 R + 7152 G + 722 B above 2499000. */
  lemma HighlightInBytes(p: Pixel)
    ensures IsHighlight(p) <==>
      (p.r >= 253 && p.g >= 253 && p.b >= 253) || 2126 * p.r + 7152 * p.g + 722 * p.b > 2499000
  {
    assert Norm(p.r) > 0.99 <==> p.r >= 253;
    assert Norm(p.g) > 0.99 <==> p.g >= 253;
    assert Norm(p.b) > 0.99 <==> p.b >= 253;
  }

  /** A normalised channel limited to ClampMax, so that the lookup stays inside the cube. */
  function Clamp(c: Byte): (v: real)
    ensures 0.0 <= v <= ClampMax
    ensures c <= 247 ==> v == Norm(c)
    ensures c >= 248 ==> v == ClampMax
  {
    if Norm(c) <= ClampMax then Norm(c) else ClampMax
  }

  /** The blue level whose tile is read: the nearest cell below b * 32, with no blending across levels. */
  function BlueSlice(b: real): (bz: int)
    requires 0.0 <= b <= ClampMax
    ensures 0 <= bz <= CubeSize - 2
  {
    (b * 32.0).Floor
  }

  /**
   * Where the lookup reads the atlas: the tile (tx, ty) of the blue level,
   * the four texel positions x0, x1 (columns) and y0, y1 (rows) and the
   * interpolation weights fx, fy.
   */
  datatype Footprint = Footprint(tx: int, ty: int, x0: int, y0: int, x1: int, y1: int, fx: real, fy: real)
  {
    /** Every position is a texel of the atlas and both weights lie in [0, 1). */
    predicate InAtlas()
    {
      0 <= x0 < AtlasWidth && 0 <= x1 < AtlasWidth && 0 <= y0 < AtlasWidth && 0 <= y1 < AtlasWidth &&
      0.0 <= fx < 1.0 && 0.0 <= fy < 1.0
    }
  }

  /** The coordinate arithmetic for clamped channels r, g, b. */
  function Locate(r: real, g: real, b: real): (f: Footprint)
    requires 0.0 <= r <= ClampMax && 0.0 <= g <= ClampMax && 0.0 <= b <= ClampMax
    ensures f.InAtlas()
    ensures 0 <= f.tx < TilesX && 0 <= f.ty < TilesX && f.ty * 6 + f.tx == BlueSlice(b)
    ensures f.tx * 33 <= f.x0 <= f.tx * 33 + 32
    ensures f.ty * 33 <= f.y0 <= f.ty * 33 + 32
    ensures f.x1 == f.x0 + 1 || f.x1 == f.x0
    ensures f.y1 == f.y0 + 1 || f.y1 == f.y0
    // the neighbour outside the tile (or the clamped one at the atlas edge) gets weight zero
    ensures f.x0 == f.tx * 33 + 32 ==> f.fx == 0.0
    ensures f.y0 == f.ty * 33 + 32 ==> f.fy == 0.0
  {
    var bz := BlueSlice(b);
    var tx := bz % 6;
    var ty := bz / 6;
    var u := (tx as real + r) * 33.0;
    var v := (ty as real + g) * 33.0;
    var x0 := u.Floor;
    var y0 := v.Floor;
    var x1 := Min(x0 + 1, AtlasWidth - 1);
    var y1 := Min(y0 + 1, AtlasWidth - 1);
    Footprint(tx, ty, x0, y0, x1, y1, u - x0 as real, v - y0 as real)
  }

  /** The footprint of a (non-highlight) pixel: clamp its channels, then locate. */
  function PixelFootprint(p: Pixel): Footprint
  {
    Locate(Clamp(p.r), Clamp(p.g), Clamp(p.b))
  }

  /** Channel k of the bilinear sample of the four texels of footprint f. */
  function Interpolate(lut: seq<Byte>, f: Footprint, k: int): (v: real)
    requires |lut| == AtlasBytes && f.InAtlas() && 0 <= k < 3
    ensures f.fx == 0.0 && f.fy == 0.0 ==> v == Texel(lut, f.x0, f.y0, k) as real
  {
    Bilinear(Texel(lut, f.x0, f.y0, k) as real, Texel(lut, f.x1, f.y0, k) as real,
             Texel(lut, f.x0, f.y1, k) as real, Texel(lut, f.x1, f.y1, k) as real, f.fx, f.fy)
  }

  /** c lies between the least and the greatest channel-k byte of the four texels of f. */
  predicate WithinCorners(lut: seq<Byte>, f: Footprint, k: int, c: int)
    requires |lut| == AtlasBytes && f.InAtlas() && 0 <= k < 3
  {
    var c00, c10 := Texel(lut, f.x0, f.y0, k) as real, Texel(lut, f.x1, f.y0, k) as real;
    var c01, c11 := Texel(lut, f.x0, f.y1, k) as real, Texel(lut, f.x1, f.y1, k) as real;
    Min4(c00, c10, c01, c11) <= c as real <= Max4(c00, c10, c01, c11)
  }

  /** The byte a channel's interpolated value is stored as, and the bound it keeps. */
  function SampleByte(lut: seq<Byte>, f: Footprint, k: int): (c: Byte)
    requires |lut| == AtlasBytes && f.InAtlas() && 0 <= k < 3
    ensures WithinCorners(lut, f, k, c)
  {
    var c00, c10 := Texel(lut, f.x0, f.y0, k), Texel(lut, f.x1, f.y0, k);
    var c01, c11 := Texel(lut, f.x0, f.y1, k), Texel(lut, f.x1, f.y1, k);
    var x := Interpolate(lut, f, k);
    BilinearBetween(c00 as real, c10 as real, c01 as real, c11 as real, f.fx, f.fy);
    var lo := if c00 <= c10 && c00 <= c01 && c00 <= c11 then c00
              else if c10 <= c01 && c10 <= c11 then c10
              else if c01 <= c11 then c01 else c11;
    var hi := if c00 >= c10 && c00 >= c01 && c00 >= c11 then c00
              else if c10 >= c01 && c10 >= c11 then c10
              else if c01 >= c11 then c01 else c11;
    ToByteBetween(x, lo, hi);
    ToByte(x)
  }

  /**
   * The new R, G, B of one pixel: a highlight keeps its colour whatever the
   * atlas holds; any other pixel gets the interpolated atlas colour, each
   * channel between the least and the greatest of its four texels.
   */
  function MapPixel(lut: seq<Byte>, p: Pixel): (q: Pixel)
    requires |lut| == AtlasBytes
    ensures IsHighlight(p) ==> q == p
    ensures !IsHighlight(p) ==>
      var f := PixelFootprint(p);
      WithinCorners(lut, f, 0, q.r) && WithinCorners(lut, f, 1, q.g) && WithinCorners(lut, f, 2, q.b)
  {
    if IsHighlight(p) then p
    else
      var f := PixelFootprint(p);
      Pixel(SampleByte(lut, f, 0), SampleByte(lut, f, 1), SampleByte(lut, f, 2))
  }

  /**
   * Bilinear interpolation inside blue slice bz of the cube, between cell
   * (i, j) and its upper neighbours, clamped to the last cell of each axis.
   */
  function CubeBilinear(lut: seq<Byte>, i: int, j: int, bz: int, fx: real, fy: real, k: int): real
    requires |lut| == AtlasBytes && 0 <= k < 3
    requires 0 <= i < CubeSize && 0 <= j < CubeSize && 0 <= bz < CubeSize
  {
    var i1, j1 := Min(i + 1, CubeSize - 1), Min(j + 1, CubeSize - 1);
    Bilinear(CubeTexel(lut, i, j, bz, k) as real, CubeTexel(lut, i1, j, bz, k) as real,
             CubeTexel(lut, i, j1, bz, k) as real, CubeTexel(lut, i1, j1, bz, k) as real, fx, fy)
  }

  /**
   * Reference reading of the cube, independent of the atlas layout: in blue
   * slice BlueSlice(b), bilinear interpolation around the point (33 r, 33 g).
   */
  function CubeLookup(lut: seq<Byte>, r: real, g: real, b: real, k: int): real
    requires |lut| == AtlasBytes && 0 <= k < 3
    requires 0.0 <= r <= ClampMax && 0.0 <= g <= ClampMax && 0.0 <= b <= ClampMax
  {
    var i, j := (r * 33.0).Floor, (g * 33.0).Floor;
    assert 0 <= i < CubeSize && 0 <= j < CubeSize;
    CubeBilinear(lut, i, j, BlueSlice(b), r * 33.0 - i as real, g * 33.0 - j as real, k)
  }

  /** floor(33 t + c) for an integer c is floor(33 t) + c. */
  lemma FloorShift(t: real, c: int)
    ensures ((c as real + t) * 33.0).Floor == c * 33 + (t * 33.0).Floor
  {
    assert (c as real + t) * 33.0 == (c * 33) as real + t * 33.0;
  }

  /**
   * The footprint in cube terms: x0 and y0 are the cells floor(33 r) and
   * floor(33 g) of the tile of blue level BlueSlice(b), and fx, fy the
   * fractional parts of 33 r and 33 g.
   */
  lemma LocateCells(r: real, g: real, b: real)
    requires 0.0 <= r <= ClampMax && 0.0 <= g <= ClampMax && 0.0 <= b <= ClampMax
    ensures var f := Locate(r, g, b);
      f.tx == BlueSlice(b) % 6 && f.ty == BlueSlice(b) / 6 &&
      f.x0 == f.tx * 33 + (r * 33.0).Floor && f.y0 == f.ty * 33 + (g * 33.0).Floor &&
      f.fx == r * 33.0 - (r * 33.0).Floor as real && f.fy == g * 33.0 - (g * 33.0).Floor as real &&
      (f.fx == 0.0 || ((r * 33.0).Floor < CubeSize - 1 && f.x1 == f.x0 + 1)) &&
      (f.fy == 0.0 || ((g * 33.0).Floor < CubeSize - 1 && f.y1 == f.y0 + 1))
  {
    var f := Locate(r, g, b);
    FloorShift(r, f.tx);
    FloorShift(g, f.ty);
  }

  /**
   * Two bilinear interpolations agree when their corners agree wherever the
   * weights give those corners a say.
   */
  lemma BilinearAgree(a00: real, a10: real, a01: real, a11: real,
                      c00: real, c10: real, c01: real, c11: real, fx: real, fy: real)
    requires a00 == c00 && (fx == 0.0 || a10 == c10)
    requires fy == 0.0 || (a01 == c01 && (fx == 0.0 || a11 == c11))
    ensures Bilinear(a00, a10, a01, a11, fx, fy) == Bilinear(c00, c10, c01, c11, fx, fy)
  {
  }

  /** The atlas texel at the position of cube cell (i, j, bz) holds that cell. */
  lemma TexelIsCell(lut: seq<Byte>, x: int, y: int, i: int, j: int, bz: int, k: int)
    requires |lut| == AtlasBytes && 0 <= k < 3
    requires 0 <= i < CubeSize && 0 <= j < CubeSize && 0 <= bz < CubeSize
    requires x == bz % 6 * 33 + i && y == bz / 6 * 33 + j
    ensures 0 <= x < AtlasWidth && 0 <= y < AtlasWidth
    ensures Texel(lut, x, y, k) == CubeTexel(lut, i, j, bz, k)
  {
  }

  /**
   * A footprint that starts at cube cell (i, j) of the tile of level bz, and
   * whose x1 (y1) is the next cell unless its weight fx (fy) is zero, samples
   * those cells of the cube.
   */
  lemma FootprintReadsCells(lut: seq<Byte>, f: Footprint, i: int, j: int, bz: int, k: int)
    requires |lut| == AtlasBytes && f.InAtlas() && 0 <= k < 3
    requires 0 <= i < CubeSize && 0 <= j < CubeSize && 0 <= bz < CubeSize
    requires f.x0 == bz % 6 * 33 + i && f.y0 == bz / 6 * 33 + j
    requires f.fx == 0.0 || (i < CubeSize - 1 && f.x1 == f.x0 + 1)
    requires f.fy == 0.0 || (j < CubeSize - 1 && f.y1 == f.y0 + 1)
    ensures Interpolate(lut, f, k) == CubeBilinear(lut, i, j, bz, f.fx, f.fy, k)
  {
    var i1, j1 := Min(i + 1, CubeSize - 1), Min(j + 1, CubeSize - 1);
    TexelIsCell(lut, f.x0, f.y0, i, j, bz, k);
    if f.fx != 0.0 {
      TexelIsCell(lut, f.x1, f.y0, i1, j, bz, k);
    }
    if f.fy != 0.0 {
      TexelIsCell(lut, f.x0, f.y1, i, j1, bz, k);
      if f.fx != 0.0 {
        TexelIsCell(lut, f.x1, f.y1, i1, j1, bz, k);
      }
    }
    BilinearAgree(Texel(lut, f.x0, f.y0, k) as real, Texel(lut, f.x1, f.y0, k) as real,
                  Texel(lut, f.x0, f.y1, k) as real, Texel(lut, f.x1, f.y1, k) as real,
                  CubeTexel(lut, i, j, bz, k) as real, CubeTexel(lut, i1, j, bz, k) as real,
                  CubeTexel(lut, i, j1, bz, k) as real, CubeTexel(lut, i1, j1, bz, k) as real,
                  f.fx, f.fy);
  }

  /**
   * The atlas arithmetic reads exactly the cube: the sample taken through the
   * tile layout equals the reference cube lookup, so the texel beyond a tile
   * edge never contributes.
   */
  lemma AtlasSampleIsCubeLookup(lut: seq<Byte>, r: real, g: real, b: real, k: int)
    requires |lut| == AtlasBytes && 0 <= k < 3
    requires 0.0 <= r <= ClampMax && 0.0 <= g <= ClampMax && 0.0 <= b <= ClampMax
    ensures Interpolate(lut, Locate(r, g, b), k) == CubeLookup(lut, r, g, b, k)
  {
    var f := Locate(r, g, b);
    var i, j := (r * 33.0).Floor, (g * 33.0).Floor;
    LocateCells(r, g, b);
    FootprintReadsCells(lut, f, i, j, BlueSlice(b), k);
  }

  /** One RGBA pixel (four bytes) after the mapping: new colour, same alpha. */
  function MapPixelBytes(lut: seq<Byte>, px: seq<Byte>): (out: seq<Byte>)
    requires |lut| == AtlasBytes && |px| == 4
    ensures |out| == 4 && out[3] == px[3]
    ensures IsHighlight(PixelAt(px, 0)) ==> out == px
  {
    var q := MapPixel(lut, PixelAt(px, 0));
    [q.r, q.g, q.b, px[3]]
  }

  /**
   * The first n pixels of t are the pixels of s as the mapping pass leaves
   * them; for n = |s| / 4 this is the whole result of the pass over s.
   */
  predicate LutMapped(lut: seq<Byte>, s: seq<Byte>, t: seq<Byte>, n: int)
    requires |lut| == AtlasBytes && 0 <= n && 4 * n <= |s| == |t|
  {
    forall m :: 0 <= m < n ==> PixelBytes(t, m) == MapPixelBytes(lut, PixelBytes(s, m))
  }

  /** One more mapped pixel, with the pixels before it untouched, extends the mapped prefix. */
  lemma LutMappedStep(lut: seq<Byte>, s: seq<Byte>, t0: seq<Byte>, t1: seq<Byte>, n: int)
    requires |lut| == AtlasBytes && 0 <= n && 4 * n + 4 <= |s| == |t0| == |t1|
    requires LutMapped(lut, s, t0, n)
    requires t1[..4 * n] == t0[..4 * n]
    requires PixelBytes(t1, n) == MapPixelBytes(lut, PixelBytes(s, n))
    ensures LutMapped(lut, s, t1, n + 1)
  {
    PixelsKept(t0, t1, n);
  }

  /** The mapping pass has one result: two buffers that both map all of s are equal. */
  lemma LutMappedUnique(lut: seq<Byte>, s: seq<Byte>, t1: seq<Byte>, t2: seq<Byte>)
    requires |lut| == AtlasBytes && |s| % 4 == 0 && |t1| == |s| && |t2| == |s|
    requires LutMapped(lut, s, t1, |s| / 4) && LutMapped(lut, s, t2, |s| / 4)
    ensures t1 == t2
  {
    forall j | 0 <= j < |s|
      ensures t1[j] == t2[j]
    {
      var m := j / 4;
      assert PixelBytes(t1, m) == PixelBytes(t2, m);
      assert t1[j] == PixelBytes(t1, m)[j - 4 * m] && t2[j] == PixelBytes(t2, m)[j - 4 * m];
    }
  }

  /**
   * Per pixel of a mapped buffer: the alpha byte is never written, a
   * highlight keeps all four bytes whatever the atlas holds, and any other
   * pixel's colour bytes lie between the least and the greatest of the
   * texels they were read from.
   */
  lemma LutMappedPixel(lut: seq<Byte>, s: seq<Byte>, t: seq<Byte>, m: int)
    requires |lut| == AtlasBytes && |s| % 4 == 0 && |t| == |s|
    requires LutMapped(lut, s, t, |s| / 4) && 0 <= m < |s| / 4
    ensures t[4 * m + 3] == s[4 * m + 3]
    ensures IsHighlight(PixelAt(s, 4 * m)) ==> PixelBytes(t, m) == PixelBytes(s, m)
    ensures !IsHighlight(PixelAt(s, 4 * m)) ==>
      var f := PixelFootprint(PixelAt(s, 4 * m));
      WithinCorners(lut, f, 0, t[4 * m]) && WithinCorners(lut, f, 1, t[4 * m + 1]) &&
      WithinCorners(lut, f, 2, t[4 * m + 2])
  {
    var px, out := PixelBytes(s, m), PixelBytes(t, m);
    assert out == MapPixelBytes(lut, px);
    assert PixelAt(px, 0) == PixelAt(s, 4 * m);
    assert t[4 * m] == out[0] && t[4 * m + 1] == out[1] && t[4 * m + 2] == out[2] && t[4 * m + 3] == out[3];
  }

  /** MapPixelBytes writes the mapped colour q over R, G and B and keeps alpha. */
  lemma MapPixelBytesSampled(lut: seq<Byte>, px: seq<Byte>, q: Pixel)
    requires |lut| == AtlasBytes && |px| == 4 && q == MapPixel(lut, PixelAt(px, 0))
    ensures MapPixelBytes(lut, px) == [q.r, q.g, q.b, px[3]]
  {
  }

  /** For a pixel that is not a highlight, MapPixel stores the three interpolated channels. */
  lemma MapPixelStoresSample(lut: seq<Byte>, p: Pixel)
    requires |lut| == AtlasBytes && !IsHighlight(p)
    ensures var f := PixelFootprint(p);
      MapPixel(lut, p) ==
      Pixel(ToByte(Interpolate(lut, f, 0)), ToByte(Interpolate(lut, f, 1)), ToByte(Interpolate(lut, f, 2)))
  {
  }

  /**
   * The stored colour of a pixel that is not a highlight, in terms of the
   * layout-independent cube lookup: each channel is the bilinear reading of
   * the cube at its clamped colour, passed through the byte store.
   */
  lemma MapPixelIsCubeLookup(lut: seq<Byte>, p: Pixel)
    requires |lut| == AtlasBytes && !IsHighlight(p)
    ensures var r, g, b := Clamp(p.r), Clamp(p.g), Clamp(p.b);
      MapPixel(lut, p) == Pixel(ToByte(CubeLookup(lut, r, g, b, 0)), ToByte(CubeLookup(lut, r, g, b, 1)),
                                ToByte(CubeLookup(lut, r, g, b, 2)))
  {
    var r, g, b := Clamp(p.r), Clamp(p.g), Clamp(p.b);
    MapPixelStoresSample(lut, p);
    AtlasSampleIsCubeLookup(lut, r, g, b, 0);
    AtlasSampleIsCubeLookup(lut, r, g, b, 1);
    AtlasSampleIsCubeLookup(lut, r, g, b, 2);
  }

  /** Channel k of the sample, read through the four texel offsets as the loop computes them. */
  lemma InterpolateAt(lut: seq<Byte>, f: Footprint, idx00: int, idx10: int, idx01: int, idx11: int, k: int)
    requires |lut| == AtlasBytes && f.InAtlas() && 0 <= k < 3
    requires idx00 == TexelIndex(f.x0, f.y0) && idx10 == TexelIndex(f.x1, f.y0)
    requires idx01 == TexelIndex(f.x0, f.y1) && idx11 == TexelIndex(f.x1, f.y1)
    ensures Interpolate(lut, f, k) ==
      Bilinear(lut[idx00 + k] as real, lut[idx10 + k] as real, lut[idx01 + k] as real, lut[idx11 + k] as real, f.fx, f.fy)
  {
  }

  /**
   * The body of the mapping loop for a pixel that is not a highlight: clamp,
   * pick the tile of the blue level, locate the four texels and interpolate
   * each channel, storing the result as bytes.
   */
  method SamplePixel(lut: seq<Byte>, p: Pixel) returns (q: Pixel)
    requires |lut| == AtlasBytes && !IsHighlight(p)
    ensures q == MapPixel(lut, p)
  {
    var f := Locate(Clamp(p.r), Clamp(p.g), Clamp(p.b));
    var idx00 := TexelIndex(f.x0, f.y0);
    var idx10 := TexelIndex(f.x1, f.y0);
    var idx01 := TexelIndex(f.x0, f.y1);
    var idx11 := TexelIndex(f.x1, f.y1);
    var rf := Bilinear(lut[idx00] as real, lut[idx10] as real, lut[idx01] as real, lut[idx11] as real, f.fx, f.fy);
    var gf := Bilinear(lut[idx00 + 1] as real, lut[idx10 + 1] as real, lut[idx01 + 1] as real, lut[idx11 + 1] as real, f.fx, f.fy);
    var bf := Bilinear(lut[idx00 + 2] as real, lut[idx10 + 2] as real, lut[idx01 + 2] as real, lut[idx11 + 2] as real, f.fx, f.fy);
    InterpolateAt(lut, f, idx00, idx10, idx01, idx11, 0);
    InterpolateAt(lut, f, idx00, idx10, idx01, idx11, 1);
    InterpolateAt(lut, f, idx00, idx10, idx01, idx11, 2);
    MapPixelStoresSample(lut, p);
    q := Pixel(ToByte(rf), ToByte(gf), ToByte(bf));
  }

  /**
   * One iteration of the mapping loop, on the pixel at byte offset i: a
   * highlight is skipped, any other pixel has R, G and B overwritten by its
   * sample; alpha and every other byte of the buffer stay as they were.
   */
  method MapPixelInPlace(data: array<Byte>, lut: seq<Byte>, i: int)
    requires |lut| == AtlasBytes && 0 <= i && i + 4 <= data.Length
    modifies data
    ensures data[..i] == old(data[..i]) && data[i + 4..] == old(data[i + 4..])
    ensures data[i..i + 4] == MapPixelBytes(lut, old(data[i..i + 4]))
  {
    ghost var before := data[..];
    ghost var px := data[i..i + 4];
    var p := Pixel(data[i], data[i + 1], data[i + 2]);
    assert p == PixelAt(px, 0);
    if IsHighlight(p) {
      return;
    }
    var q := SamplePixel(lut, p);
    data[i], data[i + 1], data[i + 2] := q.r, q.g, q.b;
    MapPixelBytesSampled(lut, px, q);
    assert data[i..i + 4] == [q.r, q.g, q.b, px[3]];
    assert data[..i] == before[..i];
  }

  /**
   * The mapping pass of the drop handler: walks the buffer four bytes at a
   * time and maps every pixel in place, leaving the buffer's length alone.
   */
  method ApplyLut(data: array<Byte>, lut: seq<Byte>)
    requires |lut| == AtlasBytes && data.Length % 4 == 0
    modifies data
    ensures LutMapped(lut, old(data[..]), data[..], data.Length / 4)
  {
    ghost var s := data[..];
    var i := 0;
    ghost var n := 0;
    while i < data.Length
      invariant 0 <= n && i == 4 * n && i <= data.Length
      invariant LutMapped(lut, s, data[..], n)
      invariant data[i..] == s[i..]
    {
      ghost var before := data[..];
      assert before[i..i + 4] == s[i..i + 4] == PixelBytes(s, n) by {
        assert before[i..][..4] == before[i..i + 4] && s[i..][..4] == s[i..i + 4];
      }
      MapPixelInPlace(data, lut, i);
      assert data[..i] == before[..i];
      assert data[..][i..i + 4] == PixelBytes(data[..], n);
      LutMappedStep(lut, s, before, data[..], n);
      assert data[i + 4..] == s[i + 4..] by {
        assert before[i..][4..] == before[i + 4..] && s[i..][4..] == s[i + 4..];
      }
      i, n := i + 4, n + 1;
    }
  }
}
