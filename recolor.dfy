/**
 * The recolour engine (`swapImagePixels`): one pass over an RGBA buffer
 * that paints every pixel close to colour A with colour B and, failing
 * that, every pixel close to colour B with colour A. A is tested first, so
 * a pixel close to both becomes B. Alpha bytes are never written.
 */
module Recolor {
  import opened Raster
  import opened ColorMetric

  /** The default `threshold` of `swapImagePixels`. */
  const DefaultThreshold: nat := 30

  /**
   * The new colour of one pixel (lines 474-487): colour A, colour B or the
   * old colour, and the old colour whenever the pixel is far from both.
   */
  function RecolorPixel(p: Rgb, colorA: Rgb, colorB: Rgb, threshold: nat): (q: Rgb)
    ensures q == colorA || q == colorB || q == p
    ensures !Within(p, colorA, threshold) && Within(p, colorB, threshold) ==> q == colorA
    ensures !Within(p, colorA, threshold) && !Within(p, colorB, threshold) ==> q == p
  {
    if Within(p, colorA, threshold) then colorB
    else if Within(p, colorB, threshold) then colorA
    else p
  }

  /** Byte `k` (0 = R, 1 = G, 2 = B) of a colour. */
  function ChannelByte(c: Rgb, k: nat): Byte
    requires k < 3
  {
    if k == 0 then c.r else if k == 1 then c.g else c.b
  }

  /** The pixel that byte `j` belongs to. */
  function PixelOf(buf: seq<Byte>, j: nat): Rgb
    requires IsRgbaBuffer(buf) && j < |buf|
  {
    assert (j - j % 4) % 4 == 0;
    WholePixel(buf, j - j % 4);
    PixelAt(buf, j - j % 4)
  }

  /**
   * The buffer with `f` applied to every pixel's RGB and every alpha byte
   * kept. Stated for any `f` so that facts about the layout are proved once,
   * without the distance arithmetic of the recolouring.
   */
  function MapPixels(buf: seq<Byte>, f: Rgb -> Rgb): (out: seq<Byte>)
    requires IsRgbaBuffer(buf)
    ensures |out| == |buf|
  {
    seq(|buf|, j requires 0 <= j < |buf| => MappedByte(buf, f, j))
  }

  /** Byte `j` of the mapped buffer. */
  function MappedByte(buf: seq<Byte>, f: Rgb -> Rgb, j: nat): Byte
    requires IsRgbaBuffer(buf) && j < |buf|
  {
    if j % 4 == 3 then buf[j] else ChannelByte(f(PixelOf(buf, j)), j % 4)
  }

  /** Byte `k` of the pixel at offset `i` after mapping. */
  lemma MapPixelsByte(buf: seq<Byte>, f: Rgb -> Rgb, i: nat, k: nat)
    requires IsRgbaBuffer(buf) && i % 4 == 0 && i < |buf| && k < 4
    ensures i + 3 < |buf|
    ensures MapPixels(buf, f)[i + k] == if k == 3 then buf[i + 3] else ChannelByte(f(PixelAt(buf, i)), k)
  {
    WholePixel(buf, i);
    assert (i + k) % 4 == k;
    assert PixelOf(buf, i + k) == PixelAt(buf, i);
  }

  /** Pixel by pixel, the mapped buffer holds `f` of the old pixel and the old alpha. */
  lemma MapPixelsAt(buf: seq<Byte>, f: Rgb -> Rgb, i: nat)
    requires IsRgbaBuffer(buf) && i % 4 == 0 && i < |buf|
    ensures i + 3 < |buf|
    ensures PixelAt(MapPixels(buf, f), i) == f(PixelAt(buf, i))
    ensures MapPixels(buf, f)[i + 3] == buf[i + 3]
  {
    MapPixelsByte(buf, f, i, 0);
    MapPixelsByte(buf, f, i, 1);
    MapPixelsByte(buf, f, i, 2);
    MapPixelsByte(buf, f, i, 3);
  }

  /** Mapping twice gives the buffer back when `f` undoes itself on every pixel of it. */
  lemma MapPixelsTwice(buf: seq<Byte>, f: Rgb -> Rgb)
    requires IsRgbaBuffer(buf)
    requires forall i | 0 <= i < |buf| && i % 4 == 0 :: i + 3 < |buf| && f(f(PixelAt(buf, i))) == PixelAt(buf, i)
    ensures MapPixels(MapPixels(buf, f), f) == buf
  {
    forall j | 0 <= j < |buf| ensures MapPixels(MapPixels(buf, f), f)[j] == buf[j] {
      var i, k := PixelStart(j);
      assert i + 3 < |buf| && f(f(PixelAt(buf, i))) == PixelAt(buf, i);
      MapTwiceByte(buf, f, i, k);
    }
  }

  /** Byte `j` is byte `j % 4` of the pixel at the pixel boundary `j - j % 4`. */
  lemma PixelStart(j: nat) returns (i: nat, k: nat)
    ensures i % 4 == 0 && k < 4 && i + k == j
  {
    i, k := j - j % 4, j % 4;
  }

  lemma MapTwiceByte(buf: seq<Byte>, f: Rgb -> Rgb, i: nat, k: nat)
    requires IsRgbaBuffer(buf) && i % 4 == 0 && i < |buf| && k < 4
    requires i + 3 < |buf| && f(f(PixelAt(buf, i))) == PixelAt(buf, i)
    ensures MapPixels(MapPixels(buf, f), f)[i + k] == buf[i + k]
  {
    var once := MapPixels(buf, f);
    MapPixelsAt(buf, f, i);
    MapPixelsByte(once, f, i, k);
  }

  /** The recolouring of one pixel, as a function value. */
  function Recoloring(colorA: Rgb, colorB: Rgb, threshold: nat): Rgb -> Rgb
  {
    p => RecolorPixel(p, colorA, colorB, threshold)
  }

  /** The buffer after the loop of lines 468-488. */
  function Recolored(buf: seq<Byte>, colorA: Rgb, colorB: Rgb, threshold: nat): (out: seq<Byte>)
    requires IsRgbaBuffer(buf)
    ensures |out| == |buf|
  {
    MapPixels(buf, Recoloring(colorA, colorB, threshold))
  }

  /** The recoloured buffer keeps the alpha byte and holds `RecolorPixel` of the old colour, pixel by pixel. */
  lemma RecoloredAt(buf: seq<Byte>, colorA: Rgb, colorB: Rgb, threshold: nat, i: nat)
    requires IsRgbaBuffer(buf) && i % 4 == 0 && i < |buf|
    ensures i + 3 < |buf|
    ensures PixelAt(Recolored(buf, colorA, colorB, threshold), i) == RecolorPixel(PixelAt(buf, i), colorA, colorB, threshold)
    ensures Recolored(buf, colorA, colorB, threshold)[i + 3] == buf[i + 3]
  {
    MapPixelsAt(buf, Recoloring(colorA, colorB, threshold), i);
  }

  /**
   * A pixel within the threshold of A becomes B, whatever its distance to B:
   * colour A is tested first, so a pixel near both colours becomes B.
   */
  lemma NearAGoesToB(p: Rgb, colorA: Rgb, colorB: Rgb, threshold: nat)
    requires Within(p, colorA, threshold)
    ensures RecolorPixel(p, colorA, colorB, threshold) == colorB
  {
  }

  /** Colour A, colour B, or a colour farther than the threshold from both. */
  predicate Restorable(p: Rgb, colorA: Rgb, colorB: Rgb, threshold: nat)
  {
    p == colorA || p == colorB || (!Within(p, colorA, threshold) && !Within(p, colorB, threshold))
  }

  /**
   * When A and B are farther apart than the threshold, swapping twice gives
   * back A, B and every colour far from both; only the other near-A and
   * near-B colours are lost.
   */
  lemma SwapTwicePixel(p: Rgb, colorA: Rgb, colorB: Rgb, threshold: nat)
    requires !Within(colorA, colorB, threshold)
    requires Restorable(p, colorA, colorB, threshold)
    ensures RecolorPixel(RecolorPixel(p, colorA, colorB, threshold), colorA, colorB, threshold) == p
  {
    SqDistanceSymmetric(colorA, colorB);
  }

  /** A pixel near A other than A itself does not come back: the swap loses that shade. */
  lemma SwapTwiceFlattens(p: Rgb, colorA: Rgb, colorB: Rgb, threshold: nat)
    requires !Within(colorA, colorB, threshold)
    requires Within(p, colorA, threshold)
    ensures RecolorPixel(RecolorPixel(p, colorA, colorB, threshold), colorA, colorB, threshold) == colorA
  {
    SqDistanceSymmetric(colorA, colorB);
  }

  /**
   * An image made only of colours A and B and of colours far from both is
   * restored by a second swap, provided A and B are farther apart than the
   * threshold.
   */
  lemma SwapTwiceRestores(buf: seq<Byte>, colorA: Rgb, colorB: Rgb, threshold: nat)
    requires IsRgbaBuffer(buf)
    requires !Within(colorA, colorB, threshold)
    requires forall i | 0 <= i < |buf| && i % 4 == 0 ::
      i + 3 < |buf| && Restorable(PixelAt(buf, i), colorA, colorB, threshold)
    ensures Recolored(Recolored(buf, colorA, colorB, threshold), colorA, colorB, threshold) == buf
  {
    var f := Recoloring(colorA, colorB, threshold);
    forall i | 0 <= i < |buf| && i % 4 == 0 ensures i + 3 < |buf| && f(f(PixelAt(buf, i))) == PixelAt(buf, i) {
      SwapTwicePixel(PixelAt(buf, i), colorA, colorB, threshold);
    }
    MapPixelsTwice(buf, f);
  }

  /** Writes colour `c` into the RGB bytes of the pixel at offset `i` (lines 479-481, 484-486). */
  method WritePixel(pixels: array<Byte>, i: nat, c: Rgb)
    requires i + 2 < pixels.Length
    modifies pixels
    ensures pixels[..] == old(pixels[..])[i := c.r][i + 1 := c.g][i + 2 := c.b]
  {
    pixels[i] := c.r;
    pixels[i + 1] := c.g;
    pixels[i + 2] := c.b;
  }

  /** The pixel loop of lines 468-488, in place on the copied buffer. */
  method SwapImagePixels(pixels: array<Byte>, colorA: Rgb, colorB: Rgb, threshold: nat)
    requires IsRgbaBuffer(pixels[..])
    modifies pixels
    ensures pixels[..] == Recolored(old(pixels[..]), colorA, colorB, threshold)
  {
    ghost var original := pixels[..];
    ghost var target := Recolored(original, colorA, colorB, threshold);
    var i := 0;
    while i < pixels.Length
      invariant i % 4 == 0 && i <= pixels.Length
      invariant pixels[..] == target[..i] + original[i..]
      decreases pixels.Length - i
    {
      WholePixel(original, i);
      RecoloredAt(original, colorA, colorB, threshold, i);
      var pixel := Rgb(pixels[i], pixels[i + 1], pixels[i + 2]);
      assert pixel == PixelAt(original, i);
      ghost var before := pixels[..];
      if Within(pixel, colorA, threshold) {
        WritePixel(pixels, i, colorB);
      } else if Within(pixel, colorB, threshold) {
        WritePixel(pixels, i, colorA);
      }
      PixelStep(original, target, before, i, RecolorPixel(pixel, colorA, colorB, threshold));
      i := i + 4;
    }
    assert target[..i] == target;
  }

  /** One turn of the loop: the pixel at offset `i` now holds its target bytes. */
  lemma PixelStep(original: seq<Byte>, target: seq<Byte>, before: seq<Byte>, i: nat, q: Rgb)
    requires |target| == |original| && i + 3 < |original|
    requires before == target[..i] + original[i..]
    requires PixelAt(target, i) == q && target[i + 3] == original[i + 3]
    ensures before[i := q.r][i + 1 := q.g][i + 2 := q.b] == target[..i + 4] + original[i + 4..]
    ensures q == PixelAt(original, i) ==> before == target[..i + 4] + original[i + 4..]
  {
  }
}
