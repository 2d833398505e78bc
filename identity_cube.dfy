/**
 * The identity cube and what the mapping pass does with it. Cube index n
 * of 0..32 stands for the level n / 32, so an identity atlas stores
 * ToByte(255 n / 32) at each cell. The pass locates red and green at
 * 33 r and 33 g, so such an atlas does not give back the colour it is
 * sampled with.
 */
module IdentityCube {
  import opened Rgba
  import opened LutAtlas
  import opened ColorTransform

  /** The byte of cube index n when index n stands for the level n / 32. */
  function Level(n: int): Byte
  {
    ToByte(n as real * 255.0 / 32.0)
  }

  /** Every cell (i, j, bz) of the atlas holds the colour (Level(i), Level(j), Level(bz)). */
  predicate IsIdentityCube(lut: seq<Byte>)
    requires |lut| == AtlasBytes
  {
    forall i, j, bz :: 0 <= i < CubeSize && 0 <= j < CubeSize && 0 <= bz < CubeSize ==>
      CubeTexel(lut, i, j, bz, 0) == Level(i) && CubeTexel(lut, i, j, bz, 1) == Level(j) &&
      CubeTexel(lut, i, j, bz, 2) == Level(bz)
  }

  /**
   * Byte idx of the identity atlas: alpha is opaque, the tiles of the
   * blue levels 33 to 35 (which no cell uses) are black, every other texel
   * holds the colour of its cell.
   */
  function IdentityByte(idx: int): Byte
    requires 0 <= idx
  {
    var x, y, k := idx / 4 % AtlasWidth, idx / 4 / AtlasWidth, idx % 4;
    var bz := y / 33 * 6 + x / 33;
    if k == 3 then 255
    else if bz >= CubeSize then 0
    else if k == 0 then Level(x % 33)
    else if k == 1 then Level(y % 33)
    else Level(bz)
  }

  /** The identity atlas as an RGBA byte buffer. */
  function IdentityAtlas(): (lut: seq<Byte>)
    ensures |lut| == AtlasBytes
  {
    seq(AtlasBytes, idx requires 0 <= idx => IdentityByte(idx))
  }

  /** 4 q + r with 0 <= r < 4 splits back into q and r. */
  lemma SplitFour(q: int, r: int)
    requires 0 <= q && 0 <= r < 4
    ensures (q * 4 + r) / 4 == q && (q * 4 + r) % 4 == r
  {
  }

  /** The byte of the identity atlas at channel k of cell (i, j, bz) is that cell's level. */
  lemma IdentityByteOfCell(i: int, j: int, bz: int, k: int)
    requires 0 <= i < CubeSize && 0 <= j < CubeSize && 0 <= bz < CubeSize && 0 <= k < 3
    ensures IdentityByte(CellIndex(i, j, bz) + k) == Level(if k == 0 then i else if k == 1 then j else bz)
  {
    var x, y := bz % 6 * 33 + i, bz / 6 * 33 + j;
    var idx := CellIndex(i, j, bz);
    assert idx == TexelIndex(x, y);
    var a := idx / 4;
    assert idx == a * 4;
    SplitFour(a, k);
    assert (idx + k) / 4 % AtlasWidth == x && (idx + k) / 4 / AtlasWidth == y && (idx + k) % 4 == k;
    SplitUnique(bz % 6, i, x / 33, x % 33);
    SplitUnique(bz / 6, j, y / 33, y % 33);
    assert y / 33 * 6 + x / 33 == bz;
  }

  /** Channel k of cell (i, j, bz) of the identity atlas. */
  lemma IdentityCell(i: int, j: int, bz: int, k: int)
    requires 0 <= i < CubeSize && 0 <= j < CubeSize && 0 <= bz < CubeSize && 0 <= k < 3
    ensures CubeTexel(IdentityAtlas(), i, j, bz, k) == Level(if k == 0 then i else if k == 1 then j else bz)
  {
    IdentityByteOfCell(i, j, bz, k);
  }

  /** The identity atlas holds the identity cube, so identity cubes exist. */
  lemma IdentityAtlasIsIdentityCube()
    ensures IsIdentityCube(IdentityAtlas())
  {
    forall i, j, bz | 0 <= i < CubeSize && 0 <= j < CubeSize && 0 <= bz < CubeSize
      ensures CubeTexel(IdentityAtlas(), i, j, bz, 0) == Level(i)
      ensures CubeTexel(IdentityAtlas(), i, j, bz, 1) == Level(j)
      ensures CubeTexel(IdentityAtlas(), i, j, bz, 2) == Level(bz)
    {
      IdentityCell(i, j, bz, 0);
      IdentityCell(i, j, bz, 1);
      IdentityCell(i, j, bz, 2);
    }
  }

  /**
   * The numbers behind IdentityCubeDrift: 200 / 255 lies at 33 * 200 / 255 =
   * 25 + 15/17 on the cube axis; cells 25 and 26 hold 199 and 207; the
   * interpolated 199 + 8 * 15/17 is stored as 206.
   */
  lemma DriftArithmetic()
    ensures var u := 200.0 / 255.0 * 33.0;
      u.Floor == 25 && Level(25) == 199 && Level(26) == 207 && Level(0) == 0 &&
      ToByte(Lerp(199.0, 207.0, u - 25.0)) == 206
  {
    var u := 200.0 / 255.0 * 33.0;
    assert u - 25.0 == 15.0 / 17.0;
    assert Lerp(199.0, 207.0, u - 25.0) == 199.0 + 120.0 / 17.0;
  }

  /** The footprint of the pixel (200, 0, 0) reads cells 25 and 26 of row 0 of blue level 0. */
  lemma DriftCells(lut: seq<Byte>, k: int)
    requires |lut| == AtlasBytes && 0 <= k < 3
    ensures Interpolate(lut, PixelFootprint(Pixel(200, 0, 0)), k) ==
      CubeBilinear(lut, 25, 0, 0, 200.0 / 255.0 * 33.0 - 25.0, 0.0, k)
  {
    var r, g, b := Clamp(200), Clamp(0), Clamp(0);
    assert r == 200.0 / 255.0 && g == 0.0 && b == 0.0;
    DriftArithmetic();
    assert (g * 33.0).Floor == 0 && BlueSlice(b) == 0;
    AtlasSampleIsCubeLookup(lut, r, g, b, k);
  }

  /** In an identity cube, the samples of (200, 0, 0) are 199 + 8 * 15/17, 0 and 0. */
  lemma DriftSample(lut: seq<Byte>)
    requires |lut| == AtlasBytes && IsIdentityCube(lut)
    ensures var f, fx := PixelFootprint(Pixel(200, 0, 0)), 200.0 / 255.0 * 33.0 - 25.0;
      Interpolate(lut, f, 0) == Lerp(199.0, 207.0, fx) &&
      Interpolate(lut, f, 1) == 0.0 && Interpolate(lut, f, 2) == 0.0
  {
    var fx := 200.0 / 255.0 * 33.0 - 25.0;
    DriftArithmetic();
    assert CubeTexel(lut, 25, 0, 0, 0) == 199 && CubeTexel(lut, 26, 0, 0, 0) == 207;
    assert CubeTexel(lut, 25, 0, 0, 1) == 0 && CubeTexel(lut, 26, 0, 0, 1) == 0;
    assert CubeTexel(lut, 25, 0, 0, 2) == 0 && CubeTexel(lut, 26, 0, 0, 2) == 0;
    DriftCells(lut, 0);
    DriftCells(lut, 1);
    DriftCells(lut, 2);
  }

  /**
   * Through any identity atlas the pixel (200, 0, 0) comes out as
   * (206, 0, 0): red sits at cube position 33 * 200 / 255, between
   * cells 25 (199) and 26 (207), where an identity reading would place
   * it at 32 * 200 / 255.
   */
  lemma IdentityCubeDrift(lut: seq<Byte>)
    requires |lut| == AtlasBytes && IsIdentityCube(lut)
    ensures MapPixel(lut, Pixel(200, 0, 0)) == Pixel(206, 0, 0)
  {
    var p := Pixel(200, 0, 0);
    HighlightInBytes(p);
    DriftSample(lut);
    DriftArithmetic();
    MapPixelStoresSample(lut, p);
  }

  /**
   * A grey pixel (v, v, v) is a highlight exactly when v >= 250: the luma
   * weights sum to one, so the luma test decides before the per-channel
   * test (v >= 253) does.
   */
  lemma GreyHighlight(v: Byte)
    ensures IsHighlight(Pixel(v, v, v)) <==> v >= 250
  {
    HighlightInBytes(Pixel(v, v, v));
  }
}
