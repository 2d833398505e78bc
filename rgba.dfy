/** Bytes and pixels of an RGBA buffer (an ImageData's Uint8ClampedArray). */
module Rgba {

  /** One channel value as a Uint8ClampedArray stores it. */
  type Byte = x: int | 0 <= x < 256

  /** The colour channels of one pixel; alpha is handled by the buffer code. */
  datatype Pixel = Pixel(r: Byte, g: Byte, b: Byte)

  /** The R, G and B bytes of the pixel starting at offset i of a buffer. */
  function PixelAt(s: seq<Byte>, i: int): Pixel
    requires 0 <= i && i + 2 < |s|
  {
    Pixel(s[i], s[i + 1], s[i + 2])
  }

  /** The four bytes (R, G, B, A) of pixel m of an RGBA buffer. */
  function PixelBytes(s: seq<Byte>, m: int): seq<Byte>
    requires 0 <= m && 4 * m + 4 <= |s|
  {
    s[4 * m..4 * m + 4]
  }

  /** Two buffers that agree on their first n pixels' bytes agree on each of those pixels. */
  lemma PixelsKept(t0: seq<Byte>, t1: seq<Byte>, n: int)
    requires 0 <= 4 * n <= |t0| == |t1| && t1[..4 * n] == t0[..4 * n]
    ensures forall m :: 0 <= m < n ==> PixelBytes(t1, m) == PixelBytes(t0, m)
  {
    forall m | 0 <= m < n
      ensures PixelBytes(t1, m) == PixelBytes(t0, m)
    {
      assert PixelBytes(t1, m) == t1[..4 * n][4 * m..4 * m + 4];
      assert PixelBytes(t0, m) == t0[..4 * n][4 * m..4 * m + 4];
    }
  }

  /**
   * The byte that a store of the number x into a Uint8ClampedArray leaves:
   * x is clamped to [0, 255] and rounded to the nearest integer, ties to even.
   */
  function ToByte(x: real): (c: Byte)
    ensures x <= 0.0 ==> c == 0
    ensures x >= 255.0 ==> c == 255
    ensures 0.0 <= x <= 255.0 ==> -0.5 <= c as real - x <= 0.5
    ensures 0.0 <= x <= 255.0 && (c as real - x == 0.5 || x - c as real == 0.5) ==> c % 2 == 0
  {
    if x <= 0.0 then 0
    else if x >= 255.0 then 255
    else
      var f := x.Floor;
      var frac := x - f as real;
      if frac < 0.5 then f
      else if frac > 0.5 then f + 1
      else if f % 2 == 0 then f
      else f + 1
  }

  /** Storing a number that lies between two bytes stores a byte between them. */
  lemma ToByteBetween(x: real, lo: Byte, hi: Byte)
    requires lo as real <= x <= hi as real
    ensures lo <= ToByte(x) <= hi
  {
    var c := ToByte(x);
    assert c as real >= x - 0.5 >= lo as real - 0.5;
    assert c as real <= x + 0.5 <= hi as real + 0.5;
  }

  /** Storing a value that already is a byte stores that byte. */
  lemma ToByteOfByte(c: Byte)
    ensures ToByte(c as real) == c
  {
  }
}
