/**
 * The coverage estimator (`calculateColorPercentages`): every tenth pixel
 * of the full-size RGBA buffer (byte offsets 0, 40, 80, ...) is classified
 * to its nearest palette entry, the hits per entry are counted, and each
 * count becomes a share of the sampled pixels in percent.
 */
module Coverage {
  import opened Raster
  import opened ColorMetric

  /** Every tenth pixel: a byte stride of `4 * 10`. */
  const SampleStride: nat := 40

  /** The pixels the loop of line 89 visits from offset `i` on, in buffer order. */
  function SampledFrom(buf: seq<Byte>, i: nat): seq<Rgb>
    requires IsRgbaBuffer(buf) && i % 4 == 0
    decreases |buf| - i
  {
    if i >= |buf| then []
    else
      WholePixel(buf, i);
      assert (i + SampleStride) % 4 == 0;
      [PixelAt(buf, i)] + SampledFrom(buf, i + SampleStride)
  }

  /** One turn of the sampling loop: the pixel at `i`, then the samples from `i + 40`. */
  lemma SampleStep(buf: seq<Byte>, i: nat)
    requires IsRgbaBuffer(buf) && i % 4 == 0 && i < |buf|
    ensures i + 3 < |buf| && (i + SampleStride) % 4 == 0
    ensures SampledFrom(buf, i) == [PixelAt(buf, i)] + SampledFrom(buf, i + SampleStride)
  {
    WholePixel(buf, i);
  }

  /** The `k`-th sampled pixel is the pixel at byte offset `i + 40 k`. */
  lemma {:induction false} SampledAt(buf: seq<Byte>, i: nat)
    requires IsRgbaBuffer(buf) && i % 4 == 0
    ensures forall k | 0 <= k < |SampledFrom(buf, i)| ::
      i + SampleStride * k + 3 < |buf| && SampledFrom(buf, i)[k] == PixelAt(buf, i + SampleStride * k)
    decreases |buf| - i
  {
    if i < |buf| {
      SampledAt(buf, i + SampleStride);
      var rest := SampledFrom(buf, i + SampleStride);
      forall k | 0 < k < |SampledFrom(buf, i)|
        ensures i + SampleStride * k + 3 < |buf| && SampledFrom(buf, i)[k] == PixelAt(buf, i + SampleStride * k)
      {
        assert SampledFrom(buf, i)[k] == rest[k - 1];
        assert i + SampleStride + SampleStride * (k - 1) == i + SampleStride * k;
      }
    }
  }

  /** From offset `i`, the loop runs `ceil((|buf| - i) / 40)` times. */
  lemma {:induction false} SampledFromLength(buf: seq<Byte>, i: nat)
    requires IsRgbaBuffer(buf) && i % 4 == 0
    ensures |SampledFrom(buf, i)| == if i < |buf| then (|buf| - i + SampleStride - 1) / SampleStride else 0
    decreases |buf| - i
  {
    if i < |buf| {
      SampledFromLength(buf, i + SampleStride);
    }
  }

  /** `sampledPixels` ends at `ceil(pixelCount / 10)`. */
  lemma SampleCount(buf: seq<Byte>)
    requires IsRgbaBuffer(buf)
    ensures |SampledFrom(buf, 0)| == (PixelCount(buf) + 9) / 10
  {
    SampledFromLength(buf, 0);
    var n := PixelCount(buf);
    var q, r := (n + 9) / 10, (n + 9) % 10;
    assert |buf| == 4 * n;
    assert n + 9 == 10 * q + r;
    assert |buf| + SampleStride - 1 == SampleStride * q + (4 * r + 3);
    assert 0 <= 4 * r + 3 < SampleStride;
  }

  /**
   * The `colorCounts` array after the loop has counted `ps`, one increment
   * per pixel in the slot `classify` gives it. Stated for any classifier, so
   * that the counting facts are proved without the distance arithmetic.
   */
  function CountsBy(ps: seq<Rgb>, classify: Rgb -> nat, n: nat): (counts: seq<nat>)
    requires forall p :: classify(p) < n
    ensures |counts| == n
  {
    if ps == [] then seq(n, _ => 0)
    else
      var counts := CountsBy(ps[..|ps| - 1], classify, n);
      var c := classify(ps[|ps| - 1]);
      counts[c := counts[c] + 1]
  }

  /** `findClosestColor` against the palette, as a function value. */
  function ClassifierOf(colors: seq<Rgb>): Rgb -> nat
  {
    p => Nearest(p, colors)
  }

  /** The counts of the loop of lines 89-98 against a non-empty palette. */
  function CountsOf(ps: seq<Rgb>, colors: seq<Rgb>): (counts: seq<nat>)
    requires colors != []
    ensures |counts| == |colors|
  {
    CountsBy(ps, ClassifierOf(colors), |colors|)
  }

  /** The slot of each pixel, in order. */
  function Classes(ps: seq<Rgb>, classify: Rgb -> nat): (classes: seq<nat>)
    ensures |classes| == |ps|
  {
    seq(|ps|, k requires 0 <= k < |ps| => classify(ps[k]))
  }

  /** Counting one more pixel adds one to the count of its slot. */
  lemma CountsByAppend(ps: seq<Rgb>, p: Rgb, classify: Rgb -> nat, n: nat)
    requires forall q :: classify(q) < n
    ensures var before := CountsBy(ps, classify, n);
      var c := classify(p);
      CountsBy(ps + [p], classify, n) == before[c := before[c] + 1]
  {
    var qs := ps + [p];
    assert qs != [] && qs[|qs| - 1] == p;
    assert qs[..|qs| - 1] == ps;
  }

  /** Slot `k` holds the number of pixels the classifier sends to `k`. */
  lemma {:induction false} CountsAreMultiplicities(ps: seq<Rgb>, classify: Rgb -> nat, n: nat)
    requires forall q :: classify(q) < n
    ensures forall k | 0 <= k < n :: CountsBy(ps, classify, n)[k] == multiset(Classes(ps, classify))[k]
  {
    if ps != [] {
      var init := ps[..|ps| - 1];
      CountsAreMultiplicities(init, classify, n);
      assert Classes(ps, classify) == Classes(init, classify) + [classify(ps[|ps| - 1])];
    }
  }

  function Sum(s: seq<nat>): nat
  {
    if s == [] then 0 else Sum(s[..|s| - 1]) + s[|s| - 1]
  }

  lemma {:induction false} SumIncrement(s: seq<nat>, c: nat)
    requires c < |s|
    ensures Sum(s[c := s[c] + 1]) == Sum(s) + 1
  {
    var t := s[c := s[c] + 1];
    if c < |s| - 1 {
      assert t[..|t| - 1] == s[..|s| - 1][c := s[c] + 1];
      SumIncrement(s[..|s| - 1], c);
    } else {
      assert t[..|t| - 1] == s[..|s| - 1];
    }
  }

  lemma {:induction false} SumZeros(n: nat)
    ensures Sum(seq(n, _ => 0)) == 0
  {
    if n > 0 {
      assert seq(n, _ => 0)[..n - 1] == seq(n - 1, _ => 0);
      SumZeros(n - 1);
    }
  }

  /** Every sampled pixel is counted exactly once: the counts add up to `sampledPixels`. */
  lemma {:induction false} CountsSum(ps: seq<Rgb>, classify: Rgb -> nat, n: nat)
    requires forall q :: classify(q) < n
    ensures Sum(CountsBy(ps, classify, n)) == |ps|
  {
    if ps == [] {
      SumZeros(n);
    } else {
      var init := ps[..|ps| - 1];
      CountsSum(init, classify, n);
      SumIncrement(CountsBy(init, classify, n), classify(ps[|ps| - 1]));
    }
  }

  /** No slot counts more than all pixels. */
  lemma {:induction false} CountsBounded(ps: seq<Rgb>, classify: Rgb -> nat, n: nat, k: nat)
    requires (forall q :: classify(q) < n) && k < n
    ensures CountsBy(ps, classify, n)[k] <= |ps|
  {
    if ps != [] {
      CountsBounded(ps[..|ps| - 1], classify, n, k);
    }
  }

  /** `(count / sampledPixels) * 100`, exactly. */
  function Percent(count: nat, sampled: nat): real
    requires sampled > 0
  {
    (count as real / sampled as real) * 100.0
  }

  /** The `map` of lines 101-103. */
  function Percentages(counts: seq<nat>, sampled: nat): (p: seq<real>)
    requires sampled > 0
    ensures |p| == |counts|
  {
    seq(|counts|, k requires 0 <= k < |counts| => Percent(counts[k], sampled))
  }

  function SumReal(s: seq<real>): real
  {
    if s == [] then 0.0 else SumReal(s[..|s| - 1]) + s[|s| - 1]
  }

  lemma {:induction false} PercentagesSumScaled(counts: seq<nat>, sampled: nat)
    requires sampled > 0
    ensures SumReal(Percentages(counts, sampled)) == (Sum(counts) as real / sampled as real) * 100.0
  {
    if counts != [] {
      var init := counts[..|counts| - 1];
      var last := counts[|counts| - 1];
      var p := Percentages(counts, sampled);
      assert p[..|p| - 1] == Percentages(init, sampled);
      assert p[|p| - 1] == Percent(last, sampled);
      PercentagesSumScaled(init, sampled);
      ScaledAdd(Sum(init) as real, last as real, sampled as real);
    }
  }

  lemma ScaledAdd(a: real, b: real, s: real)
    requires s > 0.0
    ensures (a / s) * 100.0 + (b / s) * 100.0 == ((a + b) / s) * 100.0
  {
    assert (a + b) / s == a / s + b / s;
  }

  /** When the counts add up to the sample size, the percentages add up to 100. */
  lemma PercentagesSum(counts: seq<nat>, sampled: nat)
    requires sampled > 0 && Sum(counts) == sampled
    ensures SumReal(Percentages(counts, sampled)) == 100.0
  {
    PercentagesSumScaled(counts, sampled);
    PercentOfAll(sampled);
  }

  /** All of the sample is 100%, none of it 0%. */
  lemma PercentOfAll(sampled: nat)
    requires sampled > 0
    ensures Percent(sampled, sampled) == 100.0 && Percent(0, sampled) == 0.0
  {
    assert sampled as real > 0.0;
    assert sampled as real / sampled as real == 1.0;
  }

  /** A count no larger than the sample size is a percentage between 0 and 100. */
  lemma PercentBounds(count: nat, sampled: nat)
    requires 0 < sampled && count <= sampled
    ensures 0.0 <= Percent(count, sampled) <= 100.0
  {
    assert count as real / sampled as real <= 1.0;
  }

  /** The result of `calculateColorPercentages` for a buffer and a non-empty palette. */
  function CoveragePercentages(buf: seq<Byte>, colors: seq<Rgb>): (shares: seq<real>)
    requires IsRgbaBuffer(buf) && |buf| > 0 && colors != []
    ensures |shares| == |colors|
  {
    var sample := SampledFrom(buf, 0);
    Percentages(CountsOf(sample, colors), |sample|)
  }

  /** One percentage per palette entry, each within [0, 100], summing to 100. */
  lemma CoverageWellFormed(buf: seq<Byte>, colors: seq<Rgb>)
    requires IsRgbaBuffer(buf) && |buf| > 0 && colors != []
    ensures |CoveragePercentages(buf, colors)| == |colors|
    ensures forall k | 0 <= k < |colors| :: 0.0 <= CoveragePercentages(buf, colors)[k] <= 100.0
    ensures SumReal(CoveragePercentages(buf, colors)) == 100.0
  {
    var sample := SampledFrom(buf, 0);
    var counts := CountsOf(sample, colors);
    CountsSum(sample, ClassifierOf(colors), |colors|);
    PercentagesSum(counts, |sample|);
    forall k | 0 <= k < |colors| ensures 0.0 <= CoveragePercentages(buf, colors)[k] <= 100.0 {
      CountsBounded(sample, ClassifierOf(colors), |colors|, k);
      PercentBounds(counts[k], |sample|);
    }
  }

  /** Pixels that the classifier all sends to slot `j` are all counted there, and nothing elsewhere. */
  lemma {:induction false} CountsUniform(ps: seq<Rgb>, classify: Rgb -> nat, n: nat, j: nat)
    requires (forall q :: classify(q) < n) && j < n
    requires forall k | 0 <= k < |ps| :: classify(ps[k]) == j
    ensures forall k | 0 <= k < n :: CountsBy(ps, classify, n)[k] == if k == j then |ps| else 0
  {
    if ps != [] {
      CountsUniform(ps[..|ps| - 1], classify, n, j);
    }
  }

  /**
   * An image painted in palette entry `j` (its first occurrence) is
   * estimated at 100% for `j` and 0% for every other entry.
   */
  lemma SingleColorCoverage(buf: seq<Byte>, colors: seq<Rgb>, j: nat)
    requires IsRgbaBuffer(buf) && |buf| > 0
    requires j < |colors| && forall i | 0 <= i < j :: colors[i] != colors[j]
    requires forall i | 0 <= i < |buf| && i % 4 == 0 :: i + 3 < |buf| && PixelAt(buf, i) == colors[j]
    ensures forall k | 0 <= k < |colors| :: CoveragePercentages(buf, colors)[k] == if k == j then 100.0 else 0.0
  {
    var sample := SampledFrom(buf, 0);
    SampledAt(buf, 0);
    forall k | 0 <= k < |sample| ensures sample[k] == colors[j] {
      assert (SampleStride * k) % 4 == 0;
    }
    NearestOfMember(colors[j], colors, j);
    CountsUniform(sample, ClassifierOf(colors), |colors|, j);
    PercentOfAll(|sample|);
  }

  /** What the counting loop keeps true at byte offset `i`, having sampled `seen`. */
  ghost predicate Counting(pixels: seq<Byte>, colors: seq<Rgb>, i: nat, seen: seq<Rgb>, sampled: nat, counts: seq<nat>)
    requires IsRgbaBuffer(pixels) && colors != []
  {
    && i % 4 == 0
    && seen + SampledFrom(pixels, i) == SampledFrom(pixels, 0)
    && sampled == |seen|
    && counts == CountsOf(seen, colors)
  }

  lemma CountingStep(pixels: seq<Byte>, colors: seq<Rgb>, i: nat, seen: seq<Rgb>, sampled: nat, counts: seq<nat>)
    requires IsRgbaBuffer(pixels) && colors != [] && i < |pixels|
    requires Counting(pixels, colors, i, seen, sampled, counts)
    ensures i + 3 < |pixels|
    ensures var c := Nearest(PixelAt(pixels, i), colors);
      Counting(pixels, colors, i + SampleStride, seen + [PixelAt(pixels, i)], sampled + 1, counts[c := counts[c] + 1])
  {
    SampleStep(pixels, i);
    var p := PixelAt(pixels, i);
    assert (seen + [p]) + SampledFrom(pixels, i + SampleStride) == seen + SampledFrom(pixels, i);
    CountsByAppend(seen, p, ClassifierOf(colors), |colors|);
  }

  lemma CountingDone(pixels: seq<Byte>, colors: seq<Rgb>, i: nat, seen: seq<Rgb>, sampled: nat, counts: seq<nat>)
    requires IsRgbaBuffer(pixels) && |pixels| > 0 && colors != [] && i >= |pixels|
    requires Counting(pixels, colors, i, seen, sampled, counts)
    ensures sampled > 0 && Percentages(counts, sampled) == CoveragePercentages(pixels, colors)
  {
    assert SampledFrom(pixels, i) == [];
    assert seen == SampledFrom(pixels, 0);
    SampleStep(pixels, 0);
    assert sampled > 0;
  }

  /**
   * The counting loop of lines 82-98 over `pixels`, followed by the
   * percentage map. Only a non-empty palette and a non-empty image reach
   * this in the add-on (the palette check comes first, and a sample of a
   * non-empty image is never empty).
   */
  method CalculateColorPercentages(pixels: seq<Byte>, dominantColors: seq<Rgb>) returns (percentages: seq<real>)
    requires IsRgbaBuffer(pixels) && |pixels| > 0 && dominantColors != []
    ensures percentages == CoveragePercentages(pixels, dominantColors)
  {
    var colorCounts := new nat[|dominantColors|](_ => 0);
    var sampledPixels := 0;
    ghost var seen: seq<Rgb> := [];
    var i := 0;
    while i < |pixels|
      invariant Counting(pixels, dominantColors, i, seen, sampledPixels, colorCounts[..])
      decreases |pixels| - i
    {
      CountingStep(pixels, dominantColors, i, seen, sampledPixels, colorCounts[..]);
      var pixelRgb := Rgb(pixels[i], pixels[i + 1], pixels[i + 2]);
      var closestIndex := FindClosestColor(pixelRgb, dominantColors);
      CountOne(colorCounts, closestIndex);
      sampledPixels := sampledPixels + 1;
      seen := seen + [pixelRgb];
      i := i + SampleStride;
    }
    CountingDone(pixels, dominantColors, i, seen, sampledPixels, colorCounts[..]);
    percentages := Percentages(colorCounts[..], sampledPixels);
  }

  /** `colorCounts[closestIndex]++`. */
  method CountOne(counts: array<nat>, c: nat)
    requires c < counts.Length
    modifies counts
    ensures counts[..] == old(counts[..])[c := old(counts[c]) + 1]
  {
    counts[c] := counts[c] + 1;
  }
}
