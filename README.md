# PaletteSwap palette engine, in Dafny

PaletteSwap is an Adobe Express add-on. It extracts the five dominant
colours of an uploaded image and shows them as a colour bar, each segment as
wide as its colour's share of the image. It lets the user pick two segments
and swap those two colours in the image. Everything happens in
`src/ui/index.js`. This project models the engine inside that file and proves
properties of it. The engine has these parts:

- **Colour metric and classifier** (`colorDistance`, `findClosestColor`): module `ColorMetric`.
- **Extraction sampler** (the loop of `extractDominantColors`): module `Extraction`.
  It keeps every fourth pixel of the downscaled image when its alpha byte exceeds 128.
- **Median-cut quantizer** (`quantizeColors`): module `MedianCut`.
  - A FIFO queue of buckets. Each popped bucket is sorted on its widest channel and cut at half its length.
  - The buckets are then averaged with half-up rounding.
  - A shortfall is topped up with pixels drawn from every hundredth position of the input.
- **Coverage estimator** (`calculateColorPercentages`): module `Coverage`.
  It classifies every tenth pixel to its nearest palette entry and turns the counts into percentages.
- **Recolour engine** (`swapImagePixels`): module `Recolor`.
  Pixels near colour A become B; failing that, pixels near B become A. Alpha is never written.
- **Session**: module `Session`, class `PaletteSession`.
  - It holds the palette, the selection of at most two segments and the image pixels.
  - It covers the load handler, the click handler and the swap button.
- **Display helpers** (`rgbToHex`, `isLightColor`): module `ColorText`.
- **Shared types**: module `Raster` holds bytes, RGB colours and the RGBA buffer layout.

Arithmetic is exact throughout:

- **Distances are squared integers.** `Math.sqrt` is monotone, so `distance < minDistance` is the same comparison on squared distances.
- **The threshold test uses the square.** `distance <= 30` is `SqDistance <= 900`.
- **Rounding is on integers.** `Math.round(sum / n)` of a non-negative sum is `(2 sum + n) div 2n`.
- **Percentages are exact.** They are `count / sampled * 100` over Dafny's reals.

Imperative code stays imperative:

- **Loops become methods.** The loops are `while`/`for` methods proved against specification functions: `Nearest`, `OpaqueFrom`, `SplitRounds`, `MeansOf`, `CoveragePercentages` and `Recolored`.
- **In-place writes stay in place.**
  - The counting array is an `array<nat>`.
  - The recoloured buffer is an `array<Byte>` written in place.
  - The caller's pixel array is an `array<Rgb>`, which the first split sorts in place.
- **The session is a class** whose methods reassign its fields.

## Model

| member | source | states |
|---|---|---|
| ColorMetric.SqDistance | src/ui/index.js:46-52 | the (squared) colour distance is zero exactly when the two colours are equal |
| ColorMetric.SqDistanceSymmetric | src/ui/index.js:46-52 | the distance from p to q equals the distance from q to p |
| ColorMetric.Nearest | src/ui/index.js:55-68 | the classifier returns 0 on an empty palette and an index inside the palette otherwise |
| ColorMetric.NearestIsFirstMinimum | src/ui/index.js:55-68 | on a non-empty palette the returned entry is at least as close as every entry, and strictly closer than every earlier entry (the comparison is a strict `<`) |
| ColorMetric.NearestIsUnique | src/ui/index.js:55-68 | any index with those two properties is the returned one: the result is the first closest entry |
| ColorMetric.NearestOfMember | src/ui/index.js:55-68 | a pixel whose colour is in the palette is classified to the first occurrence of that colour |
| ColorMetric.NearestSingle | src/ui/index.js:55-68 | a one-entry palette classifies every pixel to index 0 |
| ColorMetric.FindClosestColor | src/ui/index.js:55-68 | the scan with its running minimum (initially infinite) returns the first closest index |
| Extraction.OpaqueFrom | src/ui/index.js:285-295 | the pixels the loop pushes from an offset on; at most `ceil(len / 16)` of them (which ones is stated by the rows below) |
| Extraction.KeptOffsetsSound | src/ui/index.js:285-295 | every kept offset is a visited offset (same residue modulo 16, inside the buffer) whose alpha byte exceeds 128 |
| Extraction.KeptOffsetsComplete | src/ui/index.js:285-295 | every visited offset whose alpha byte exceeds 128 is kept |
| Extraction.KeptOffsetsIncreasing | src/ui/index.js:285-295 | kept offsets are strictly increasing: the sampler keeps buffer order |
| Extraction.OpaqueFromAtOffsets | src/ui/index.js:285-295 | the k-th pushed colour is the (R,G,B) of the k-th kept offset |
| Extraction.TransparentYieldsNothing | src/ui/index.js:285-295 | a buffer whose alpha bytes are all at most 128 yields no pixel |
| Extraction.SampleOpaquePixels | src/ui/index.js:285-295 | the loop pushes exactly the opaque sampled pixels, in order |
| Extraction.ExtractDominantColors | src/ui/index.js:254-300 | on a sample on which the split loop ends: at most `colorCount` colours, none when no sampled pixel is opaque and exactly `colorCount` otherwise; the colours are the means of the final buckets of the quantizer run on the opaque sample, then pixels of the sorted sample, all inside the sample's bounding box |
| MedianCut.MinOf | src/ui/index.js:183-195 | the folded `Math.min` is below every channel value, is 255 on an empty bucket, and stays in 0..255 |
| MedianCut.MaxOf | src/ui/index.js:183-195 | the folded `Math.max` is above every channel value, is 0 on an empty bucket, and stays in 0..255 |
| MedianCut.ExtremesAttained | src/ui/index.js:183-195 | on a non-empty bucket both extremes are values some pixel has |
| MedianCut.ChannelRanges | src/ui/index.js:183-199 | the accumulator loop yields max minus min of each channel, non-negative on a non-empty bucket |
| MedianCut.ChooseChannel | src/ui/index.js:202-207 | the chosen channel has a maximal range; G is chosen iff it is strictly widest; B only when wider than R |
| MedianCut.SortBy | src/ui/index.js:209 | the stable sort on one channel keeps the length; the two rows below give permutation and order |
| MedianCut.SortByPermutes | src/ui/index.js:209 | the sort of a bucket is a permutation of it |
| MedianCut.SortBySorted | src/ui/index.js:209 | the sort is ascending on the chosen channel |
| MedianCut.Halves | src/ui/index.js:211-214 | the two pushed halves have sizes `floor(n/2)` and `n - floor(n/2)` |
| MedianCut.HalvesPermute | src/ui/index.js:209-214 | the two halves together are a permutation of the bucket |
| MedianCut.HalvesOrdered | src/ui/index.js:209-214 | both halves are sorted on the split channel and no pixel of the first half is above one of the second |
| MedianCut.SplitStep | src/ui/index.js:179-214 | a turn shrinks the queue by one when the popped bucket is empty and grows it by one otherwise |
| MedianCut.SplitStepKeepsPixels | src/ui/index.js:179-214 | a turn neither adds nor loses a pixel (multiset of all queued pixels kept) |
| MedianCut.SplitRoundsKeepPixels | src/ui/index.js:178-214 | any number of turns of the loop keeps the multiset of queued pixels |
| MedianCut.LevelTurn | src/ui/index.js:178-214 | bucket sizes at one depth of the split tree differ by at most one, and while the queue has fewer buckets than pixels the popped bucket is never empty |
| MedianCut.RoundsGrow | src/ui/index.js:178-214 | with at least `colorCount` pixels, every turn while the loop runs adds one bucket: after r turns there are r + 1 buckets |
| MedianCut.EnoughPixelsEnd | src/ui/index.js:178-214 | the loop ends on an empty input and on every input of at least `colorCount` pixels |
| MedianCut.SortForSplit | src/ui/index.js:183-212 | ranges, channel choice, sort and median of a popped bucket give exactly its two halves |
| MedianCut.SplitTurn | src/ui/index.js:179-214 | one turn computes the next queue; when the popped bucket is the caller's array, that array is left sorted |
| MedianCut.Overwrite | src/ui/index.js:209 | the in-place sort leaves the caller's array holding the sorted bucket |
| MedianCut.SplitLoopTurn | src/ui/index.js:178-214 | one turn keeps the loop invariant: the queue is the one after one more turn, pixels are kept, the caller's array is sorted, and the queue never outgrows `max(colorCount, 1)` |
| MedianCut.SplitBuckets | src/ui/index.js:174-215 | on an input on which the loop ends, it stops with its condition false, with all pixels kept, with exactly `max(colorCount, 1)` buckets on a non-empty input, and with the caller's array sorted on its split channel unless no split happened |
| MedianCut.SinglePixelCycles | src/ui/index.js:178-215 | with one pixel and `colorCount >= 3` the queue alternates between `[[p]]` and `[[], [p]]` with the loop condition true: the loop does not end |
| MedianCut.SinglePixelNeverEnds | src/ui/index.js:178-215 | on one pixel with `colorCount >= 3` no number of turns makes the loop condition false |
| MedianCut.ThreePixelsEnd | src/ui/index.js:178-215 | three equal pixels with `colorCount` 5 stop after six turns with buckets `[p], [], [p], [], [p]`: fewer pixels than `colorCount` can still end |
| MedianCut.RoundedMean | src/ui/index.js:229-231 | `Math.round(sum / n)` is the integer m with `m - 1/2 <= sum/n < m + 1/2` |
| MedianCut.RoundedMeanBounds | src/ui/index.js:229-231 | if the sum lies between `n*lo` and `n*hi`, the rounded mean lies between `lo` and `hi` |
| MedianCut.MeanChannelBounds | src/ui/index.js:218-233 | each channel of a bucket's rounded mean lies between that channel's minimum and maximum |
| MedianCut.Mean | src/ui/index.js:218-233 | a bucket's colour lies inside its bounding box, hence in 0..255 |
| MedianCut.MeanOfUniform | src/ui/index.js:218-233 | a bucket of one colour averages to that colour |
| MedianCut.BucketMean | src/ui/index.js:221-232 | the sum loop yields, per channel, the integer within one half of the exact average `sum / n` (half-up rounding), which is the bucket's mean |
| MedianCut.MeansOf | src/ui/index.js:218-233 | at most one colour per bucket, exactly one per bucket when no bucket is empty |
| MedianCut.EmptyQueueHasNoMeans | src/ui/index.js:218-233 | a queue without pixels yields no colour |
| MedianCut.AverageBuckets | src/ui/index.js:218-233 | the averaging loop yields the means of the non-empty buckets in queue order |
| MedianCut.EveryHundredthAt | src/ui/index.js:237-240 | the sample has `ceil(n/100)` entries and entry k is input pixel `100k` |
| MedianCut.SampleEveryHundredth | src/ui/index.js:237-240 | the sampling loop over the sorted array collects exactly every 100th pixel, in order |
| MedianCut.Backfill | src/ui/index.js:236-248 | enough colours are left as they are; otherwise the list is topped up to `colorCount` (or left alone when there are no pixels), keeping its prefix, with extras drawn from the every-100th sample |
| MedianCut.ColorsFromBuckets | src/ui/index.js:218-250 | averaging, backfill and slice give at most `colorCount` colours, exactly `colorCount` on a non-empty input, and the bucket means first |
| MedianCut.QuantizeColors | src/ui/index.js:172-251 | on an input on which the split loop ends: `quantizeColors([], k)` is `[]`; the result never exceeds `colorCount` and has exactly `colorCount` entries on a non-empty input; it starts with the means of the final buckets; backfilled colours come from the sorted input; the final buckets hold exactly the input pixels; every colour lies in the input's bounding box |
| MedianCut.MeansInBox | src/ui/index.js:218-233 | the mean of every bucket drawn from a set of pixels lies in that set's bounding box |
| Coverage.SampledAt | src/ui/index.js:89-93 | the k-th sampled pixel is the pixel at byte offset `40k` |
| Coverage.SampleCount | src/ui/index.js:89-98 | `sampledPixels` ends at `ceil(pixelCount / 10)` |
| Coverage.CountsOf | src/ui/index.js:82-98 | `colorCounts` has one slot per palette entry (its contents are given by the next rows) |
| Coverage.CountsAreMultiplicities | src/ui/index.js:89-98 | slot k of `colorCounts` is the number of sampled pixels whose nearest entry is k |
| Coverage.CountsSum | src/ui/index.js:89-98 | the counts add up to the number of sampled pixels |
| Coverage.CountsBounded | src/ui/index.js:89-98 | no count exceeds the number of sampled pixels |
| Coverage.CountsUniform | src/ui/index.js:89-98 | when every sampled pixel has the same nearest entry, that entry counts them all and the others count none |
| Coverage.Percentages | src/ui/index.js:101-103 | one percentage per count |
| Coverage.PercentOfAll | src/ui/index.js:101-103 | the whole sample is 100% and none of it 0% |
| Coverage.PercentBounds | src/ui/index.js:101-103 | a count no larger than the sample is a percentage in [0, 100] |
| Coverage.PercentagesSum | src/ui/index.js:101-103 | when the counts add up to the sample size, the percentages add up to 100 |
| Coverage.CoveragePercentages | src/ui/index.js:82-103 | one share per palette entry (its values are given by the rows around it) |
| Coverage.CoverageWellFormed | src/ui/index.js:82-103 | one percentage per palette entry, each in [0, 100], summing to 100 |
| Coverage.SingleColorCoverage | src/ui/index.js:82-103 | an image painted in one palette colour is estimated at 100% for that entry and 0% for the others |
| Coverage.CalculateColorPercentages | src/ui/index.js:82-103 | the counting loop and the percentage map compute the coverage of the buffer |
| Coverage.CountOne | src/ui/index.js:96 | `colorCounts[closestIndex]++` increments that slot and leaves every other slot |
| Recolor.MapPixelsAt | src/ui/index.js:468-488 | a per-pixel rewrite of the RGB bytes puts the new colour at every pixel and keeps its alpha byte |
| Recolor.MapPixelsTwice | src/ui/index.js:468-488 | rewriting twice gives the buffer back when the pixel map undoes itself on every pixel |
| Recolor.Recolored | src/ui/index.js:468-488 | the recoloured buffer has the length of the original |
| Recolor.RecoloredAt | src/ui/index.js:468-488 | every pixel becomes B when near A, else A when near B, else stays; its alpha byte is unchanged |
| Recolor.RecolorPixel | src/ui/index.js:474-487 | the new colour is A, B or the old one; a pixel not near A but near B becomes A; a pixel farther than the threshold from both keeps its colour |
| Recolor.NearAGoesToB | src/ui/index.js:477-482 | a pixel near A becomes B whatever its distance to B, because A is tested first; so a pixel near both becomes B |
| Recolor.SwapTwicePixel | src/ui/index.js:474-487 | when A and B are farther apart than the threshold, a second swap restores A, B and every colour far from both |
| Recolor.SwapTwiceFlattens | src/ui/index.js:474-487 | a second swap turns every other shade near A into A itself: the swap is not invertible on those |
| Recolor.SwapTwiceRestores | src/ui/index.js:468-488 | an image made of A, B and colours far from both is restored by swapping again, when A and B are farther apart than the threshold |
| Recolor.WritePixel | src/ui/index.js:479-486 | the three RGB bytes of the pixel are written and every other byte, alpha included, is kept |
| Recolor.SwapImagePixels | src/ui/index.js:468-488 | the in-place loop leaves the array equal to the recoloured buffer |
| ColorText.ToHex | src/ui/index.js:112 | `toString(16)` of a byte has one digit exactly below 16, else two |
| ColorText.Pad2Digits | src/ui/index.js:111-114 | each padded group is the byte's two lower-case base-16 digits, high digit first |
| ColorText.RgbToHex | src/ui/index.js:110-115 | the code is seven characters long and starts with '#' |
| ColorText.RgbToHexRoundTrip | src/ui/index.js:110-115 | reading the code back gives the colour |
| ColorText.RgbToHexInjective | src/ui/index.js:110-115 | different colours have different codes |
| ColorText.IsLightColor | src/ui/index.js:118-121 | light exactly when `299 r + 587 g + 114 b > 128000`: the real division against 128 loses nothing |
| ColorText.GreyIsLightAbove128 | src/ui/index.js:118-121 | a grey `(v, v, v)` is light exactly when `v > 128` |
| ColorText.LightIsMonotone | src/ui/index.js:118-121 | raising channels never turns a light colour dark |
| Session.WithShares | src/ui/index.js:352-355 | pairing colours with percentages keeps both sequences |
| Session.Remove | src/ui/index.js:153 | the filter keeps exactly the other selected indices |
| Session.RemoveAbsent | src/ui/index.js:153 | filtering out an unselected index changes nothing |
| Session.Toggle | src/ui/index.js:150-158 | a click selects the clicked index iff it was unselected and fewer than two were selected; no other index changes state |
| Session.ToggleKeepsSelectionOk | src/ui/index.js:150-158 | the selection keeps at most two distinct indices of the palette |
| Session.ToggleTwice | src/ui/index.js:150-158 | two clicks on an unselected segment, when there is room, give the selection back |
| Session.SwapAt | src/ui/index.js:523-528 | the exchange moves exactly the two entries |
| Session.SwapAtTwice | src/ui/index.js:523-528 | the exchange undoes itself |
| Session.SwapAtPermutes | src/ui/index.js:523-528 | the exchange is a permutation of the palette |
| Session.ColorsOfSwap | src/ui/index.js:523-528 | exchanging two entries exchanges their colours |
| Session.PaletteSession.constructor | src/ui/index.js:39-43 | the panel starts with no image, no palette and no selection |
| Session.PaletteSession.LoadImage | src/ui/index.js:326-359 | on a sample on which the quantizer ends: an empty palette is an error that changes nothing; otherwise five colours, each inside the bounding box of the opaque sample, with their coverage of the full image are stored, with its pixels, and the selection is cleared |
| Session.PaletteSession.StorePalette | src/ui/index.js:339-359 | the stored palette has the given colours, each with its coverage of the full image; the image is stored and the selection cleared, and the session invariant holds |
| Session.PaletteSession.Click | src/ui/index.js:150-161 | the selection is toggled and nothing else changes |
| Session.PaletteSession.SwapSelected | src/ui/index.js:457-549 | with two selected segments, their colours are exchanged, a copy of the image is recoloured in place with the pre-swap colours and threshold 30 and stored, every percentage is recomputed over the new pixels and the selection is cleared; otherwise nothing changes |
| Session.PaletteSession.Recount | src/ui/index.js:535-540 | a step of the swap: every percentage becomes the coverage of its colour over the current pixels; colours, pixels and selection are kept |

## Left out

- DOM and UI are not modelled. That covers element lookup, `renderColorPalette`, `updateSwapButtonState`, messages and styles, and the import button.
- File and image I/O is not modelled. That covers `FileReader`, `Image`, and the canvas draw/read/write calls.
  - The model's inputs are the RGBA byte buffers the canvas would produce.
  - `LoadImage` takes the downscaled and the full-size buffer as parameters.
- The downscale to 200 pixels on the longest side is not modelled. It is floating point done by the canvas; only the buffer it yields enters the model.
- Promises and `await` carry no meaning here: every handler runs to completion.
- `swapImagePixels` is modelled inside `Session.PaletteSession.SwapSelected`, its only caller. Its early return without an image is unreachable there, because two segments can only be selected once a palette exists.
- `Math.random` in the backfill is an arbitrary choice (`:|`) of a position in the every-100th sample. Only membership and counts are proved.
- `Math.sqrt` and floating-point percentages are left out. Squared distances and exact real percentages stand in for them; `toFixed(1)` belongs to the display.
- `QuantizeColors`, `SplitBuckets`, `ExtractDominantColors` and `LoadImage` require an input on which the split loop ends (`SplitEnds`: some number of turns makes its condition false). This is exactly the set of inputs on which the source's loop terminates; on the others it runs forever and the page never finishes loading.
  - `EnoughPixelsEnd` shows that every empty input and every input of at least `colorCount` pixels qualifies.
  - Smaller inputs can qualify too: three equal pixels with `colorCount` 5 end after six turns (`ThreePixelsEnd`).
  - One pixel with `colorCount` 3 or more never ends (`SinglePixelNeverEnds`). So a sample with a single opaque pixel never finishes loading.
  - The model does not characterise which small inputs end beyond these cases.
- `Session.PaletteSession.LoadImage` requires that a non-empty sample come from a non-empty full-size buffer, which the downscale guarantees.
- `Session.PaletteSession.LoadImage` states that the stored colours lie in the bounding box of the opaque sample. Which colours they are is stated by `ExtractDominantColors`. The bucket queue behind them is a ghost result of that method and is not repeated in the session's contract.
- `CalculateColorPercentages` requires a non-empty image and a non-empty palette. A zero-pixel image would divide 0 by 0 (NaN percentages), and the add-on never passes an empty palette: it rejects one first.
- After a swap the source re-reads the image from a PNG data URL before counting. The model counts on the recoloured buffer directly. The two agree except on pixels whose alpha is below 255: the canvas stores premultiplied alpha, so their RGB may change in the round trip, and a fully transparent pixel loses its RGB and is counted as (0, 0, 0). This round trip is not modelled.
- The `currentImage.complete` test before the re-estimation is always true after the awaited reload, so the re-estimation is unconditional.
- The palette entries are updated in place in the source. The model reassigns the `palette` sequence, so the aliasing of entry objects is not modelled.
- The swap handler first exchanges both `color` and `percentage` of the two entries. Only the colours are visible in the final state, because every percentage is then recomputed.
- The stability of `Array.prototype.sort` is modelled by defining the sort as a stable insertion sort. No separate stability lemma is stated.
