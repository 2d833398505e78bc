# Fuji film filter: the pixel pipeline of the photo drop handler

This project models the per-pixel core of the photo drop handler
(`onDrop` in `src/components/FujiFilterCanvas.tsx`) and proves properties of it.

- **The 3D LUT as an atlas.** The LUT is a 198 × 198 RGBA image holding 6 × 6 tiles.
  Each tile is a 33 × 33 slice of a 33-point colour cube at one blue level:
  level `bz` sits in tile column `bz % 6` and tile row `bz / 6`.
- **The LUT mapping pass** rewrites the photo's RGBA buffer in place, four bytes a pixel.
  - A pixel passes unchanged when it is a near-white highlight: every channel is above 0.99, or the Rec. 709 luma is above 0.98.
  - Any other pixel is clamped to 32/33.
  - Its blue picks one tile, `bz = floor(32 b)`, with no blending between blue levels.
  - Red and green are located inside that tile at `(tile + r) * 33`.
  - The four neighbouring texels are blended with the `lerp` helper: first along x, then along y.
  - Each result is stored into the byte array. That store clamps to [0, 255] and rounds half to even.
  - Alpha is never written.
- **The brightness pass of the bloom** builds a new zero-filled buffer of the same size.
  It copies into it every mapped pixel whose luminance `0.299 R + 0.587 G + 0.114 B` exceeds 200.
- **The guard.** Nothing happens while no atlas has been loaded.

Modules, one file each:

| file | module | content |
|---|---|---|
| `rgba.dfy` | `Rgba` | bytes, pixels, and the store into the byte array (`ToByte`) |
| `lut_atlas.dfy` | `LutAtlas` | atlas geometry, texel and cube-cell addressing, `Lerp` and bilinear blending |
| `color_transform.dfy` | `ColorTransform` | the mapping pass: highlight test, clamp, footprint arithmetic, per-pixel map, the reference cube lookup, the in-place loop |
| `bloom.dfy` | `Bloom` | the brightness pass |
| `pipeline.dfy` | `Pipeline` | the drop handler's pixel work and its no-atlas guard |
| `identity_cube.dfy` | `IdentityCube` | the identity cube and what the pass does with it |

How the model is specified:

- Arithmetic on the normalised channels uses exact `real` numbers.
- The photo buffer is an `array` that the passes change in place.
- The atlas is a sequence of bytes, which the handler only reads.
- Each pass is proved against a per-pixel specification. `LutMapped` and `Extracted` say that pixel `m` of the result is the mapped or extracted pixel `m` of the input.

An identity atlas (cell `n` holding level `n/32`) does not give back its input:

- The code locates red and green at 33 r and 33 g, while blue uses 32 b.
- So `IdentityCubeDrift` proves that any identity atlas maps the pixel (200, 0, 0) to (206, 0, 0).
- `IdentityAtlasIsIdentityCube` shows that such an atlas exists.

## Model

| member | source | states |
|---|---|---|
| `Rgba.ToByte` | src/components/FujiFilterCanvas.tsx:103-105 | A number stored into the byte array becomes 0 at or below 0 and 255 at or above 255. Otherwise it becomes a byte within 0.5 of it, and an exact tie rounds to the even byte. |
| `Rgba.ToByteBetween` | src/components/FujiFilterCanvas.tsx:103-105 | A number between two bytes is stored as a byte between them. |
| `Rgba.ToByteOfByte` | src/components/FujiFilterCanvas.tsx:103-105 | Storing a whole byte value stores that byte. |
| `LutAtlas.TexelIndex` | src/components/FujiFilterCanvas.tsx:81-84 | The offset `(y * 198 + x) * 4` of a texel inside the atlas is in bounds, with room for all four channels, and is a multiple of 4. Dividing by 4 gives back x as the remainder mod 198 and y as the quotient. |
| `LutAtlas.CellIndex` | src/components/FujiFilterCanvas.tsx:68-72 | By definition, cube cell (i, j, bz) is the texel at column `bz % 6 * 33 + i` and row `bz / 6 * 33 + j`. The contract states that this offset lies inside the atlas, with room for four channels, and is a multiple of 4. |
| `LutAtlas.CellIndexInjective` | src/components/FujiFilterCanvas.tsx:68-72 | The tile layout places distinct cube cells at distinct texels. |
| `LutAtlas.Lerp` | src/components/FujiFilterCanvas.tsx:86 | `lerp(a, b, 0) = a` and `lerp(a, b, 1) = b`. |
| `LutAtlas.LerpBetween` | src/components/FujiFilterCanvas.tsx:86 | For a weight in [0, 1], `lerp` stays between its two end points. |
| `LutAtlas.Bilinear` | src/components/FujiFilterCanvas.tsx:88-101 | By definition: `lerp` along x with weight fx (row y0, then row y1), then `lerp` of the two results along y with weight fy. The contract gives each corner at its own weights: (0, 0) gives c00, (1, 0) c10, (0, 1) c01 and (1, 1) c11. |
| `LutAtlas.BilinearBetween` | src/components/FujiFilterCanvas.tsx:88-101 | Blending along x and then along y, with weights in [0, 1], gives a value between the least and the greatest of the four corners. |
| `ColorTransform.IsHighlight` | src/components/FujiFilterCanvas.tsx:53-61 | By definition: every normalised channel above 0.99, or the luma `0.2126 r + 0.7152 g + 0.0722 b` above 0.98. `HighlightInBytes` and `GreyHighlight` state what this means in bytes. |
| `ColorTransform.HighlightInBytes` | src/components/FujiFilterCanvas.tsx:53-61 | In whole bytes, the bypass holds exactly when every channel is at least 253, or when `2126 R + 7152 G + 722 B > 2499000`. |
| `ColorTransform.Clamp` | src/components/FujiFilterCanvas.tsx:63-65 | A clamped channel lies in [0, 32/33]. Bytes up to 247 keep their normalised value; bytes from 248 become 32/33. |
| `ColorTransform.BlueSlice` | src/components/FujiFilterCanvas.tsx:67 | The blue level `floor(32 b)` of a clamped blue lies in [0, 31]. Level 32 of the cube is never read. |
| `ColorTransform.Locate` | src/components/FujiFilterCanvas.tsx:67-79 | Every texel position is inside the atlas and both weights lie in [0, 1). The tile indices are below 6, with `ty * 6 + tx` the blue level. x0 and y0 lie inside their tile. `x1` is `x0` or `x0 + 1`, likewise `y1`. At the tile's last column fx is 0, and at its last row fy is 0. |
| `ColorTransform.LocateCells` | src/components/FujiFilterCanvas.tsx:71-79 | x0 is tile start + `floor(33 r)` and fx is the fractional part of 33 r; the same holds for y0, fy and g. A non-zero weight always has its next cell inside the tile. |
| `ColorTransform.Interpolate` | src/components/FujiFilterCanvas.tsx:81-101 | By definition: channel k of the four texels at (x0, y0), (x1, y0), (x0, y1) and (x1, y1), blended with `Bilinear` at weights fx and fy. The contract states that with both weights zero the result is the texel at (x0, y0). `AtlasSampleIsCubeLookup` states which cube cells these are. |
| `ColorTransform.SampleByte` | src/components/FujiFilterCanvas.tsx:88-105 | The stored channel lies between the least and the greatest of the four texel bytes it was blended from. |
| `ColorTransform.MapPixel` | src/components/FujiFilterCanvas.tsx:53-105 | A highlight keeps its colour whatever the atlas holds. Any other pixel gets, per channel, a byte between the least and the greatest of its four texels. |
| `ColorTransform.FootprintReadsCells` | src/components/FujiFilterCanvas.tsx:81-101 | A footprint that starts at cell (i, j) of the tile of level bz samples exactly the cube cells (i, j), (i+1, j), (i, j+1) and (i+1, j+1) of that level. This holds when its neighbours are the next cells wherever their weight is non-zero. |
| `ColorTransform.AtlasSampleIsCubeLookup` | src/components/FujiFilterCanvas.tsx:67-101 | The sample taken through the atlas equals a reference bilinear lookup in the cube. So the neighbour beyond a tile's edge, or the clamped one at the atlas's edge, never contributes. |
| `ColorTransform.MapPixelBytes` | src/components/FujiFilterCanvas.tsx:52-106 | A mapped pixel keeps its alpha byte, and a highlight keeps all four bytes. |
| `ColorTransform.LutMappedStep` | src/components/FujiFilterCanvas.tsx:52-106 | Loop invariant of the pass: mapping pixel n, with the earlier pixels untouched, extends the mapped prefix by one pixel. |
| `ColorTransform.LutMappedUnique` | src/components/FujiFilterCanvas.tsx:52-106 | The per-pixel specification of the pass fixes every byte of the result. |
| `ColorTransform.LutMappedPixel` | src/components/FujiFilterCanvas.tsx:52-106 | In the mapped buffer, every alpha byte is the original one and every highlight pixel is unchanged. Every other pixel's R, G and B lie between the least and the greatest of the texels read for it. |
| `ColorTransform.MapPixelIsCubeLookup` | src/components/FujiFilterCanvas.tsx:63-105 | A pixel that is not a highlight is stored, channel by channel, as the reference cube lookup at its clamped colour, passed through the byte store. The stored colour depends only on the cube the atlas holds, not on the tile layout. |
| `ColorTransform.SamplePixel` | src/components/FujiFilterCanvas.tsx:63-105 | The loop body's computation for a pixel that is not a highlight yields exactly the mapped colour `MapPixel`. That computation is clamp, tile, offsets, the three blends and the stores. |
| `ColorTransform.MapPixelInPlace` | src/components/FujiFilterCanvas.tsx:53-105 | One iteration rewrites the four bytes at offset i into the mapped pixel and leaves every other byte as it was. |
| `ColorTransform.ApplyLut` | src/components/FujiFilterCanvas.tsx:52-106 | After the loop, every pixel of the buffer is the mapped pixel of the original buffer (`LutMapped`). The length is unchanged. |
| `Bloom.IsBright` | src/components/FujiFilterCanvas.tsx:119-122 | By definition: `0.299 R + 0.587 G + 0.114 B > 200` on the byte scale. `BrightInBytes` and `BrightBounds` state what this means in whole numbers. |
| `Bloom.BrightInBytes` | src/components/FujiFilterCanvas.tsx:119-122 | The luminance test holds exactly when `299 R + 587 G + 114 B > 200000`. |
| `Bloom.BrightBounds` | src/components/FujiFilterCanvas.tsx:119-122 | A pixel whose channels all exceed 200 is bright, and a bright pixel has some channel above 200. |
| `Bloom.BrightPixelBytes` | src/components/FujiFilterCanvas.tsx:119-127 | In whole numbers: a pixel with `299 R + 587 G + 114 B > 200000` is copied whole, alpha included. Any other pixel stays four zero bytes. |
| `Bloom.BrightPixelIdempotent` | src/components/FujiFilterCanvas.tsx:119-127 | Extracting an extracted pixel changes nothing. |
| `Bloom.ExtractedStep` | src/components/FujiFilterCanvas.tsx:118-128 | Loop invariant of the pass: handling pixel n, with the earlier pixels untouched, extends the extracted prefix by one pixel. |
| `Bloom.ExtractedIdempotent` | src/components/FujiFilterCanvas.tsx:116-128 | Running the brightness pass on its own output gives that output again. |
| `Bloom.StorePixel` | src/components/FujiFilterCanvas.tsx:123-126 | The four stores set pixel n to the copied bytes and leave every other byte alone. |
| `Bloom.BrightPass` | src/components/FujiFilterCanvas.tsx:116-128 | The result is a new buffer of the source's length in which every pixel is the extracted source pixel (`Extracted`). The source is only read. |
| `Pipeline.OnDrop` | src/components/FujiFilterCanvas.tsx:26-128 | Without an atlas, the handler changes nothing and yields no extraction buffer. With one, the photo buffer holds the mapped photo (`LutMapped`), and the result is a new buffer holding the bright pixels of the mapped photo (`Extracted`). |
| `IdentityCube.IdentityByteOfCell` | src/components/FujiFilterCanvas.tsx:68-84 | The identity atlas holds, at the offset of channel k of cube cell (i, j, bz), that cell's level. |
| `IdentityCube.IdentityCell` | src/components/FujiFilterCanvas.tsx:68-84 | Channel k of cube cell (i, j, bz) of the identity atlas is the level of i, j or bz. |
| `IdentityCube.IdentityAtlasIsIdentityCube` | src/components/FujiFilterCanvas.tsx:68-84 | An atlas holding the identity cube exists. |
| `IdentityCube.DriftArithmetic` | src/components/FujiFilterCanvas.tsx:71-91 | 33 · 200/255 has floor 25. Cells 25 and 26 of an identity cube hold 199 and 207. Their blend, at weight 15/17, is stored as 206. |
| `IdentityCube.DriftCells` | src/components/FujiFilterCanvas.tsx:67-101 | The pixel (200, 0, 0) is sampled between cells 25 and 26 of row 0 of blue level 0, with weight 0 along y. |
| `IdentityCube.DriftSample` | src/components/FujiFilterCanvas.tsx:71-101 | In an identity cube, the three blended channels of (200, 0, 0) are 199 + 8 · 15/17, 0 and 0. |
| `IdentityCube.IdentityCubeDrift` | src/components/FujiFilterCanvas.tsx:52-105 | Every identity atlas maps the pixel (200, 0, 0) to (206, 0, 0), not back to (200, 0, 0). |
| `IdentityCube.GreyHighlight` | src/components/FujiFilterCanvas.tsx:56-61 | A grey pixel (v, v, v) is a highlight exactly when v ≥ 250. So the luma test, not the per-channel test (v ≥ 253), decides greys. |

## Left out

- The React component, the drop zone, `FileReader`, image decoding, `drawImage`, `getImageData`, `putImageData` and `console.log` are I/O. The passes take the decoded buffers as parameters.
- Loading the atlas image (lines 11-24) is I/O. The atlas is a parameter of the handler, and the no-atlas case is an `Option`.
- The only atlas the component loads is the 198 × 198 file of line 14, so the model fixes `W = 198` and requires exactly `198 * 198 * 4` bytes. The code reads `W` from the image and computes `tilesX = W / 33` (lines 43-45), so it would also read any square atlas of width 33 k with k ≥ 6. It checks neither the width nor squareness: other widths read the wrong texels or past the buffer. Only `W = 198` is modelled.
- The blur and additive composite of the bloom (from line 130 on) are canvas filters and compositing. They are not part of this model.
- The code computes in IEEE-754 doubles; the model uses exact reals. Results can differ where a rounding error crosses a decision boundary:
  - The pixel (144, 226, 213) has `299 R + 587 G + 114 B` exactly 200000. The model leaves it at zero in the brightness pass. In doubles its luminance comes out as 200.00000000000003, so the code copies it.
  - A red or green of 170 in tile column or row 1 gives the exact position 55. In doubles it comes out just below 55, so the code takes texel 54 with a weight of almost 1, where the model takes texel 55 with weight 0. In doubles the weight is 0.9999999999999929, off by about 7.1e-15, so the blend differs by 7.1e-15 · |t55 − t54|, at most about 1.8e-12. The stored byte cannot change: the exact blend is a fraction whose denominator divides 85², which is odd, so it lies at least 1/14450 from any half-integer.
  - The highlight thresholds have no exact ties among byte inputs, so the bypass is the same in both.
- The atlas buffer is modelled as an immutable sequence, not as an array. Aliasing between the atlas and the photo buffer is not modelled.
- The store into the byte array also turns NaN into 0. No NaN arises from byte inputs, so that case is not modelled.
