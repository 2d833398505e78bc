/**
 * The brightness pass of the bloom post-process: a new, zero-filled buffer
 * the size of the mapped photo receives a copy of every pixel whose weighted
 * luminance 0.299 R + 0.587 G + 0.114 B exceeds the threshold 200.
 */
module Bloom {
  import opened Rgba

  /** Luminance threshold of the brightness pass, on the 0-255 scale. */
  const Threshold: real := 200.0

  /** The luminance test on byte-scale channels (no normalisation). */
  predicate IsBright(p: Pixel)
  {
    0.299 * p.r as real + 0.587 * p.g as real + 0.114 * p.b as real > Threshold
  }

  /** The test in whole numbers: 299 R + 587 G + 114 B above 200000. */
  lemma BrightInBytes(p: Pixel)
    ensures IsBright(p) <==> 299 * p.r + 587 * p.g + 114 * p.b > 200000
  {
    var lum := 0.299 * p.r as real + 0.587 * p.g as real + 0.114 * p.b as real;
    assert lum * 1000.0 == (299 * p.r + 587 * p.g + 114 * p.b) as real;
  }

  /**
   * The weights sum to one, so the luminance lies between the least and the
   * greatest channel: a pixel whose channels all exceed 200 is bright, and a
   * bright pixel has some channel above 200.
   */
  lemma BrightBounds(p: Pixel)
    ensures p.r > 200 && p.g > 200 && p.b > 200 ==> IsBright(p)
    ensures IsBright(p) ==> p.r > 200 || p.g > 200 || p.b > 200
  {
    BrightInBytes(p);
  }

  /**
   * One pixel of the extraction buffer: the whole RGBA pixel, alpha
   * included, when 299 R + 587 G + 114 B exceeds 200000, four zeros otherwise.
   */
  function BrightPixelBytes(px: seq<Byte>): (out: seq<Byte>)
    requires |px| == 4
    ensures out == if 299 * (px[0] as int) + 587 * (px[1] as int) + 114 * (px[2] as int) > 200000
                   then px else [0, 0, 0, 0]
  {
    BrightInBytes(PixelAt(px, 0));
    if IsBright(PixelAt(px, 0)) then px else [0, 0, 0, 0]
  }

  /** Extracting from an extracted pixel changes nothing: the pass is idempotent pixel by pixel. */
  lemma BrightPixelIdempotent(px: seq<Byte>)
    requires |px| == 4
    ensures BrightPixelBytes(BrightPixelBytes(px)) == BrightPixelBytes(px)
  {
    if !IsBright(PixelAt(px, 0)) {
      assert PixelAt([0, 0, 0, 0], 0) == Pixel(0, 0, 0);
    }
  }

  /** The first n pixels of t are the pixels of s as the brightness pass extracts them. */
  predicate Extracted(s: seq<Byte>, t: seq<Byte>, n: int)
    requires 0 <= n && 4 * n <= |s| == |t|
  {
    forall m :: 0 <= m < n ==> PixelBytes(t, m) == BrightPixelBytes(PixelBytes(s, m))
  }

  /** One more extracted pixel, with the pixels before it untouched, extends the extracted prefix. */
  lemma ExtractedStep(s: seq<Byte>, t0: seq<Byte>, t1: seq<Byte>, n: int)
    requires 0 <= n && 4 * n + 4 <= |s| == |t0| == |t1|
    requires Extracted(s, t0, n)
    requires t1[..4 * n] == t0[..4 * n]
    requires PixelBytes(t1, n) == BrightPixelBytes(PixelBytes(s, n))
    ensures Extracted(s, t1, n + 1)
  {
    PixelsKept(t0, t1, n);
  }

  /** Running the brightness pass on its own output gives that output again. */
  lemma ExtractedIdempotent(s: seq<Byte>, t: seq<Byte>, u: seq<Byte>)
    requires |s| % 4 == 0 && |t| == |s| && |u| == |s|
    requires Extracted(s, t, |s| / 4) && Extracted(t, u, |s| / 4)
    ensures u == t
  {
    forall j | 0 <= j < |s|
      ensures u[j] == t[j]
    {
      var m := j / 4;
      BrightPixelIdempotent(PixelBytes(s, m));
      assert PixelBytes(u, m) == PixelBytes(t, m);
      assert u[j] == PixelBytes(u, m)[j - 4 * m] && t[j] == PixelBytes(t, m)[j - 4 * m];
    }
  }

  /** Writing the four bytes px at pixel n sets that pixel and leaves every other byte alone. */
  lemma StorePixel(before: seq<Byte>, after: seq<Byte>, n: int, px: seq<Byte>)
    requires 0 <= n && 4 * n + 4 <= |before| && |px| == 4
    requires after == before[4 * n := px[0]][4 * n + 1 := px[1]][4 * n + 2 := px[2]][4 * n + 3 := px[3]]
    ensures after[..4 * n] == before[..4 * n] && PixelBytes(after, n) == px
    ensures forall j :: 4 * n + 4 <= j < |after| ==> after[j] == before[j]
  {
  }

  /**
   * The brightness pass: allocates a zero-filled buffer of the source's size
   * and copies the four bytes of every bright source pixel into it; the
   * source itself is only read.
   */
  method BrightPass(src: array<Byte>) returns (bright: array<Byte>)
    requires src.Length % 4 == 0
    ensures fresh(bright) && bright.Length == src.Length && src[..] == old(src[..])
    ensures Extracted(src[..], bright[..], src.Length / 4)
  {
    bright := new Byte[src.Length](_ => 0);
    var i := 0;
    ghost var n := 0;
    while i < src.Length
      invariant 0 <= n && i == 4 * n && i <= src.Length
      invariant Extracted(src[..], bright[..], n)
      invariant forall j :: i <= j < bright.Length ==> bright[j] == 0
    {
      ghost var before := bright[..];
      ghost var px := PixelBytes(src[..], n);
      var p := Pixel(src[i], src[i + 1], src[i + 2]);
      assert p == PixelAt(px, 0);
      if IsBright(p) {
        bright[i], bright[i + 1], bright[i + 2], bright[i + 3] := src[i], src[i + 1], src[i + 2], src[i + 3];
        StorePixel(before, bright[..], n, px);
      } else {
        assert PixelBytes(bright[..], n) == [0, 0, 0, 0] by {
          assert bright[i] == 0 && bright[i + 1] == 0 && bright[i + 2] == 0 && bright[i + 3] == 0;
        }
      }
      ExtractedStep(src[..], before, bright[..], n);
      i, n := i + 4, n + 1;
    }
  }
}
