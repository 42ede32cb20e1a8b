/**
 * The sampling loop of `extractDominantColors`: every fourth pixel of the
 * (already downscaled) RGBA buffer, that is byte offsets 0, 16, 32, ...,
 * keeping the RGB of the pixels whose alpha byte exceeds 128, and then the
 * median-cut quantizer over what was kept.
 */
module Extraction {
  import opened Raster
  import opened MedianCut

  /** The byte stride of the sampler: four pixels of four bytes. */
  const Stride: nat := 16

  /** The alpha test of line 292. */
  predicate Opaque(buf: seq<Byte>, i: nat)
    requires i + 3 < |buf|
  {
    buf[i + 3] > 128
  }

  /** A visited offset holds a whole pixel, and the next visited offset is a pixel boundary too. */
  lemma NextSample(buf: seq<Byte>, i: nat)
    requires IsRgbaBuffer(buf) && i % 4 == 0 && i < |buf|
    ensures i + 3 < |buf| && (i + Stride) % 4 == 0
  {
    WholePixel(buf, i);
  }

  /** Two distinct offsets with the same residue modulo 16 are at least 16 apart. */
  lemma SameResidue(i: nat, j: nat)
    requires i < j && j % Stride == i % Stride
    ensures i + Stride <= j && (i + Stride) % Stride == i % Stride
  {
    var q := j / Stride - i / Stride;
    assert j - i == Stride * q;
  }

  /** The offsets `i, i + 16, ...` below `|buf|` whose pixel passes the alpha test. */
  function KeptOffsets(buf: seq<Byte>, i: nat): seq<nat>
    requires IsRgbaBuffer(buf) && i % 4 == 0
    decreases |buf| - i
  {
    if i >= |buf| then []
    else
      NextSample(buf, i);
      (if Opaque(buf, i) then [i] else []) + KeptOffsets(buf, i + Stride)
  }

  /**
   * What the loop pushes from offset `i` on, in buffer order. At most one
   * pixel in four survives: `|px| <= ceil((|buf| - i) / 16)`, that is,
   * `16 |px| < |buf| - i + 16`.
   */
  function OpaqueFrom(buf: seq<Byte>, i: nat): (px: seq<Rgb>)
    requires IsRgbaBuffer(buf) && i % 4 == 0
    ensures i < |buf| ==> Stride * |px| < |buf| - i + Stride
    decreases |buf| - i
  {
    if i >= |buf| then []
    else
      NextSample(buf, i);
      (if Opaque(buf, i) then [PixelAt(buf, i)] else []) + OpaqueFrom(buf, i + Stride)
  }

  /** Every kept offset is a sampled offset at or after `i` whose pixel is opaque. */
  lemma {:induction false} KeptOffsetsSound(buf: seq<Byte>, i: nat)
    requires IsRgbaBuffer(buf) && i % 4 == 0
    ensures forall k | 0 <= k < |KeptOffsets(buf, i)| :: KeptInRange(buf, i, KeptOffsets(buf, i)[k])
    decreases |buf| - i
  {
    if i < |buf| {
      KeptOffsetsSound(buf, i + Stride);
      assert (i + Stride) % Stride == i % Stride;
      var rest := KeptOffsets(buf, i + Stride);
      var offs := KeptOffsets(buf, i);
      assert forall k | 0 <= k < |rest| :: KeptInRange(buf, i + Stride, rest[k]);
      if Opaque(buf, i) {
        assert offs == [i] + rest;
        assert forall k | 0 < k < |offs| :: offs[k] == rest[k - 1];
      } else {
        assert offs == rest;
      }
    }
  }

  /** The kept offsets are in increasing order: the sampler keeps buffer order. */
  lemma {:induction false} KeptOffsetsIncreasing(buf: seq<Byte>, i: nat)
    requires IsRgbaBuffer(buf) && i % 4 == 0
    ensures forall k, l | 0 <= k < l < |KeptOffsets(buf, i)| :: KeptOffsets(buf, i)[k] < KeptOffsets(buf, i)[l]
    decreases |buf| - i
  {
    if i < |buf| {
      KeptOffsetsIncreasing(buf, i + Stride);
      KeptOffsetsSound(buf, i + Stride);
      var rest := KeptOffsets(buf, i + Stride);
      var offs := KeptOffsets(buf, i);
      if Opaque(buf, i) {
        assert offs == [i] + rest;
        forall k, l | 0 <= k < l < |offs| ensures offs[k] < offs[l] {
          assert offs[l] == rest[l - 1];
          assert KeptInRange(buf, i + Stride, rest[l - 1]);
          if k > 0 {
            assert offs[k] == rest[k - 1];
          }
        }
      } else {
        assert offs == rest;
      }
    }
  }

  /** `j` is an offset the sampler visits from `i` on, and its pixel passes the alpha test. */
  predicate KeptInRange(buf: seq<Byte>, i: nat, j: nat)
  {
    i <= j && j + 3 < |buf| && j % Stride == i % Stride && Opaque(buf, j)
  }

  /** Every sampled offset whose pixel is opaque is kept. */
  lemma {:induction false} KeptOffsetsComplete(buf: seq<Byte>, i: nat, j: nat)
    requires IsRgbaBuffer(buf) && i % 4 == 0
    requires KeptInRange(buf, i, j)
    ensures j in KeptOffsets(buf, i)
    decreases |buf| - i
  {
    NextSample(buf, i);
    if j != i {
      SameResidue(i, j);
      KeptOffsetsComplete(buf, i + Stride, j);
    }
  }

  /** The loop's output is the colour at each kept offset, in order. */
  lemma {:induction false} OpaqueFromAtOffsets(buf: seq<Byte>, i: nat)
    requires IsRgbaBuffer(buf) && i % 4 == 0
    ensures var offs := KeptOffsets(buf, i);
      && |OpaqueFrom(buf, i)| == |offs|
      && forall k | 0 <= k < |offs| :: offs[k] + 3 < |buf| && OpaqueFrom(buf, i)[k] == PixelAt(buf, offs[k])
    decreases |buf| - i
  {
    if i < |buf| {
      OpaqueFromAtOffsets(buf, i + Stride);
    }
  }

  /** A fully transparent buffer yields no pixels. */
  lemma {:induction false} TransparentYieldsNothing(buf: seq<Byte>, i: nat)
    requires IsRgbaBuffer(buf) && i % 4 == 0
    requires forall j | 0 <= j < |buf| && j % 4 == 3 :: buf[j] <= 128
    ensures OpaqueFrom(buf, i) == []
    decreases |buf| - i
  {
    if i < |buf| {
      assert (i + 3) % 4 == 3;
      TransparentYieldsNothing(buf, i + Stride);
    }
  }

  /** One turn of the loop: the pixel at `i` when opaque, then the rest. */
  lemma OpaqueStep(buf: seq<Byte>, i: nat)
    requires IsRgbaBuffer(buf) && i % 4 == 0 && i < |buf|
    ensures i + 3 < |buf| && (i + Stride) % 4 == 0
    ensures OpaqueFrom(buf, i) == (if buf[i + 3] > 128 then [Rgb(buf[i], buf[i + 1], buf[i + 2])] else []) + OpaqueFrom(buf, i + Stride)
  {
    NextSample(buf, i);
  }

  /** One turn of the loop at offset `i`: push the pixel when its alpha byte exceeds 128. */
  method SampleTurn(pixels: seq<Byte>, i: nat, pixelArray: seq<Rgb>) returns (pushed: seq<Rgb>)
    requires IsRgbaBuffer(pixels) && i % 4 == 0 && i < |pixels|
    ensures (i + Stride) % 4 == 0
    ensures pushed + OpaqueFrom(pixels, i + Stride) == pixelArray + OpaqueFrom(pixels, i)
  {
    OpaqueStep(pixels, i);
    var r, g, b, a := pixels[i], pixels[i + 1], pixels[i + 2], pixels[i + 3];
    pushed := pixelArray;
    if a > 128 {
      pushed := pixelArray + [Rgb(r, g, b)];
    }
  }

  /** The loop of lines 285-295. */
  method SampleOpaquePixels(pixels: seq<Byte>) returns (pixelArray: seq<Rgb>)
    requires IsRgbaBuffer(pixels)
    ensures pixelArray == OpaqueFrom(pixels, 0)
  {
    pixelArray := [];
    var i := 0;
    while i < |pixels|
      invariant i % 4 == 0
      invariant pixelArray + OpaqueFrom(pixels, i) == OpaqueFrom(pixels, 0)
      decreases |pixels| - i
    {
      pixelArray := SampleTurn(pixels, i, pixelArray);
      i := i + Stride;
    }
  }

  /**
   * `extractDominantColors` after the downscale: sample, then quantize the
   * kept pixels. The quantizer's loop does not end on every sample, so the
   * caller must supply one on which it does (`SplitEnds`). The colours are
   * the quantizer's: the means of its final buckets, then pixels of the
   * sorted sample, all inside the sample's bounding box.
   */
  method ExtractDominantColors(pixels: seq<Byte>, colorCount: nat)
    returns (dominantColors: seq<Rgb>, ghost buckets: seq<seq<Rgb>>, ghost rounds: nat)
    requires IsRgbaBuffer(pixels)
    requires SplitEnds(OpaqueFrom(pixels, 0), colorCount)
    ensures |dominantColors| <= colorCount
    ensures OpaqueFrom(pixels, 0) == [] ==> dominantColors == []
    ensures OpaqueFrom(pixels, 0) != [] ==> |dominantColors| == colorCount
    ensures buckets == SplitRounds([OpaqueFrom(pixels, 0)], rounds, colorCount)
    ensures !KeepSplitting(buckets, colorCount)
    ensures multiset(Flatten(buckets)) == multiset(OpaqueFrom(pixels, 0))
    ensures var means := MeansOf(buckets);
      if |means| >= colorCount then dominantColors == means[..colorCount]
      else |means| <= |dominantColors| && dominantColors[..|means|] == means &&
           forall j | |means| <= j < |dominantColors| ::
             dominantColors[j] in EveryHundredth(InputAfterSplit(OpaqueFrom(pixels, 0), colorCount), 0)
    ensures forall j | 0 <= j < |dominantColors| :: InBoundingBox(dominantColors[j], OpaqueFrom(pixels, 0))
  {
    var sample := SampleOpaquePixels(pixels);
    var pixelArray := new Rgb[|sample|](i requires 0 <= i < |sample| => sample[i]);
    assert pixelArray[..] == sample;
    dominantColors, buckets, rounds := QuantizeColors(pixelArray, colorCount);
  }
}
