/**
 * Shared vocabulary of the palette engine: channel bytes, RGB colours and
 * the row-major RGBA byte buffers that the canvas hands out (four bytes per
 * pixel, in the order R, G, B, A).
 */
module Raster {

  /** One 8-bit channel value, as stored in a Uint8ClampedArray. */
  type Byte = x: int | 0 <= x < 256

  /** An RGB colour; the add-on passes these around as `[r, g, b]` arrays. */
  datatype Rgb = Rgb(r: Byte, g: Byte, b: Byte)

  /** The three colour channels, in the add-on's numbering 0 = R, 1 = G, 2 = B. */
  datatype Channel = R | G | B

  function Key(p: Rgb, ch: Channel): Byte
  {
    match ch
    case R => p.r
    case G => p.g
    case B => p.b
  }

  /** A buffer as produced by `getImageData`: whole pixels of four bytes each. */
  predicate IsRgbaBuffer(buf: seq<Byte>)
  {
    |buf| % 4 == 0
  }

  /** Number of pixels held by an RGBA buffer. */
  function PixelCount(buf: seq<Byte>): nat
  {
    |buf| / 4
  }

  /** A pixel offset below the end of an RGBA buffer has all four bytes inside it. */
  lemma WholePixel(buf: seq<Byte>, i: nat)
    requires IsRgbaBuffer(buf) && i % 4 == 0 && i < |buf|
    ensures i + 3 < |buf|
  {
  }

  /** The colour of the pixel whose red byte sits at offset `i`. */
  function PixelAt(buf: seq<Byte>, i: nat): (p: Rgb)
    requires i + 3 < |buf|
    ensures p.r == buf[i] && p.g == buf[i + 1] && p.b == buf[i + 2]
  {
    Rgb(buf[i], buf[i + 1], buf[i + 2])
  }
}
