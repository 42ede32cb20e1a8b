/**
 * The state the panel keeps between events: the palette shown in the colour
 * bar (`currentPaletteData`), the selected segments (`selectedColorIndices`)
 * and the pixels of the loaded image (`currentImageData`), with the three
 * handlers that change them: loading an image, clicking a segment and the
 * swap button.
 */
module Session {
  import opened Raster
  import opened MedianCut
  import opened Extraction
  import opened Coverage
  import opened Recolor

  /** One segment of the colour bar: a dominant colour and its share of the image, in percent. */
  datatype PaletteEntry = PaletteEntry(color: Rgb, percentage: real)

  /** The number of colours asked of `extractDominantColors` when an image is loaded (line 332). */
  const PaletteSize: nat := 5

  /** The colours of the palette, in order (line 537). */
  function Colors(palette: seq<PaletteEntry>): seq<Rgb>
  {
    seq(|palette|, k requires 0 <= k < |palette| => palette[k].color)
  }

  /** The percentages of the palette, in order. */
  function Shares(palette: seq<PaletteEntry>): seq<real>
  {
    seq(|palette|, k requires 0 <= k < |palette| => palette[k].percentage)
  }

  /** Pairs each colour with the percentage at the same index (lines 352-355, 538-540). */
  function WithShares(colors: seq<Rgb>, shares: seq<real>): (palette: seq<PaletteEntry>)
    requires |colors| == |shares|
    ensures Colors(palette) == colors && Shares(palette) == shares
  {
    seq(|colors|, k requires 0 <= k < |colors| => PaletteEntry(colors[k], shares[k]))
  }

  /** At most two distinct segments, each one of the palette. */
  predicate SelectionOk(selection: seq<nat>, size: nat)
  {
    && |selection| <= 2
    && (forall k | 0 <= k < |selection| :: selection[k] < size)
    && (|selection| == 2 ==> selection[0] != selection[1])
  }

  /** `selection.filter(idx => idx !== x)` (line 153): exactly the other indices are kept. */
  function Remove(selection: seq<nat>, x: nat): (rest: seq<nat>)
    ensures |rest| <= |selection|
    ensures forall y :: y in rest <==> y in selection && y != x
  {
    if selection == [] then []
    else
      assert selection == [selection[0]] + selection[1..];
      (if selection[0] == x then [] else [selection[0]]) + Remove(selection[1..], x)
  }

  /** Removing an index that is not selected changes nothing. */
  lemma {:induction false} RemoveAbsent(selection: seq<nat>, x: nat)
    requires x !in selection
    ensures Remove(selection, x) == selection
  {
    if selection != [] {
      assert selection[1..] == selection[|selection| - |selection[1..]|..];
      RemoveAbsent(selection[1..], x);
      assert selection == [selection[0]] + selection[1..];
    }
  }

  /**
   * The click handler's update of the selection (lines 150-158). A click
   * selects the clicked index exactly when it was not selected and fewer
   * than two were; every other index keeps its state.
   */
  function Toggle(selection: seq<nat>, x: nat): (toggled: seq<nat>)
    ensures x in toggled <==> x !in selection && |selection| < 2
    ensures forall y | y != x :: y in toggled <==> y in selection
  {
    if x in selection then Remove(selection, x)
    else if |selection| < 2 then selection + [x]
    else selection
  }

  /** A click on a segment of the palette keeps the selection well formed. */
  lemma ToggleKeepsSelectionOk(selection: seq<nat>, size: nat, x: nat)
    requires SelectionOk(selection, size) && x < size
    ensures SelectionOk(Toggle(selection, x), size)
  {
    if x in selection && |selection| == 2 {
      var y := if selection[0] == x then selection[1] else selection[0];
      assert y in Remove(selection, x);
      assert Remove(selection, x) == [y] by {
        assert Remove(selection, x)[0] in Remove(selection, x);
        assert |Remove(selection, x)| <= 1 by {
          assert selection == [selection[0], selection[1]];
          assert Remove(selection[1..], x) == (if selection[1] == x then [] else [selection[1]]) + Remove([], x);
        }
      }
    }
  }

  /** Clicking an unselected segment twice, when there was room, leaves the selection as it was. */
  lemma ToggleTwice(selection: seq<nat>, x: nat)
    requires x !in selection && |selection| < 2
    ensures Toggle(Toggle(selection, x), x) == selection
  {
    var once := selection + [x];
    assert once[..|selection|] == selection;
    if selection == [] {
      assert once == [x];
      assert Remove([x], x) == [] + Remove([], x);
    } else {
      assert once == [selection[0], x];
      assert Remove(once, x) == [selection[0]] + Remove([x], x);
      assert Remove([x], x) == [] + Remove([], x);
    }
  }

  /** `s` with the entries at `a` and `b` exchanged: exactly those two entries move. */
  function SwapAt<T>(s: seq<T>, a: nat, b: nat): (t: seq<T>)
    requires a < |s| && b < |s|
    ensures |t| == |s| && t[a] == s[b] && t[b] == s[a]
    ensures forall k | 0 <= k < |s| && k != a && k != b :: t[k] == s[k]
  {
    s[a := s[b]][b := s[a]]
  }

  /** The exchange undoes itself. */
  lemma SwapAtTwice<T>(s: seq<T>, a: nat, b: nat)
    requires a < |s| && b < |s|
    ensures SwapAt(SwapAt(s, a, b), a, b) == s
  {
  }

  /** The exchange is a permutation. */
  lemma SwapAtPermutes<T>(s: seq<T>, a: nat, b: nat)
    requires a < |s| && b < |s|
    ensures multiset(SwapAt(s, a, b)) == multiset(s)
  {
    if a != b {
      assert multiset(s[a := s[b]]) == multiset(s) - multiset{s[a]} + multiset{s[b]};
    }
  }

  /** Exchanging two palette entries exchanges their colours. */
  lemma ColorsOfSwap(palette: seq<PaletteEntry>, a: nat, b: nat)
    requires a < |palette| && b < |palette|
    ensures Colors(SwapAt(palette, a, b)) == SwapAt(Colors(palette), a, b)
  {
  }

  class PaletteSession {
    /** `currentPaletteData`. */
    var palette: seq<PaletteEntry>
    /** `selectedColorIndices`. */
    var selection: seq<nat>
    /** The RGBA bytes of `currentImageData`. */
    var imageData: seq<Byte>
    /** Whether an image has been loaded (`currentCanvas` is set). */
    var hasImage: bool

    /**
     * Between events the selection names at most two distinct segments; an
     * image is loaded exactly when there is a palette; and each percentage is
     * the share of the current image that the coverage pass gives its colour.
     */
    ghost predicate Valid()
      reads this
    {
      && SelectionOk(selection, |palette|)
      && (!hasImage ==> palette == [] && selection == [])
      && (hasImage ==>
            && IsRgbaBuffer(imageData) && |imageData| > 0 && palette != []
            && Shares(palette) == CoveragePercentages(imageData, Colors(palette)))
    }

    /** The panel before any image is chosen (lines 39-43). */
    constructor()
      ensures Valid() && !hasImage
      ensures palette == [] && selection == [] && imageData == []
    {
      palette := [];
      selection := [];
      imageData := [];
      hasImage := false;
    }

    /**
     * The `img.onload` handler (lines 326-380). `small` is the image drawn at
     * most 200 pixels on its longer side and `full` at its natural size. An
     * empty palette is the error of line 336 and changes nothing; otherwise the
     * palette, its percentages over the full image and the pixels are stored
     * and the selection is cleared.
     */
    method LoadImage(small: seq<Byte>, full: seq<Byte>) returns (loaded: bool)
      requires Valid()
      requires IsRgbaBuffer(small) && IsRgbaBuffer(full)
      requires SplitEnds(OpaqueFrom(small, 0), PaletteSize)
      requires OpaqueFrom(small, 0) != [] ==> |full| > 0
      modifies this
      ensures Valid()
      ensures loaded <==> OpaqueFrom(small, 0) != []
      ensures !loaded ==> palette == old(palette) && selection == old(selection)
                          && imageData == old(imageData) && hasImage == old(hasImage)
      ensures loaded ==> hasImage && imageData == full && |palette| == PaletteSize && selection == []
      ensures loaded ==> forall k | 0 <= k < |palette| :: InBoundingBox(Colors(palette)[k], OpaqueFrom(small, 0))
    {
      var colors;
      ghost var buckets, rounds;
      colors, buckets, rounds := ExtractDominantColors(small, PaletteSize);
      if |colors| == 0 {
        return false;
      }
      StorePalette(colors, full);
      loaded := true;
    }

    /**
     * Lines 339-359 of the load handler: the coverage of each colour over the
     * full image, then the stored image, the palette and a cleared selection.
     */
    method StorePalette(colors: seq<Rgb>, full: seq<Byte>)
      requires IsRgbaBuffer(full) && |full| > 0 && colors != []
      modifies this
      ensures Valid() && hasImage && imageData == full && selection == []
      ensures Colors(palette) == colors && Shares(palette) == CoveragePercentages(full, colors)
    {
      var percentages := CalculateColorPercentages(full, colors);
      CoverageWellFormed(full, colors);
      hasImage, imageData, palette, selection := true, full, WithShares(colors, percentages), [];
    }

    /** The click handler of a segment (lines 150-161). */
    method Click(colorIndex: nat)
      requires Valid() && colorIndex < |palette|
      modifies this
      ensures Valid()
      ensures selection == Toggle(old(selection), colorIndex)
      ensures palette == old(palette) && imageData == old(imageData) && hasImage == old(hasImage)
    {
      ToggleKeepsSelectionOk(selection, |palette|, colorIndex);
      if colorIndex in selection {
        selection := Remove(selection, colorIndex);
      } else if |selection| < 2 {
        selection := selection + [colorIndex];
      }
    }

    /**
     * The swap button (lines 509-549). With two distinct segments selected it
     * exchanges their entries, recolours a copy of the pixels from the first
     * selected colour to the second and back with the default threshold
     * (`swapImagePixels`, lines 457-497), stores it, recomputes every
     * percentage over the new pixels and clears the selection; otherwise it
     * does nothing.
     */
    method SwapSelected()
      requires Valid()
      modifies this
      ensures Valid()
      ensures |old(selection)| != 2 ==>
        palette == old(palette) && selection == old(selection) && imageData == old(imageData)
      ensures |old(selection)| == 2 ==>
        var a, b := old(selection)[0], old(selection)[1];
        && a < |old(palette)| && b < |old(palette)|
        && Colors(palette) == SwapAt(Colors(old(palette)), a, b)
        && imageData == Recolored(old(imageData), old(palette)[a].color, old(palette)[b].color, DefaultThreshold)
        && selection == []
      ensures hasImage == old(hasImage)
    {
      if |selection| != 2 || selection[0] == selection[1] {
        return;
      }
      var indexA, indexB := selection[0], selection[1];
      var colorA, colorB := palette[indexA].color, palette[indexB].color;
      ColorsOfSwap(palette, indexA, indexB);
      palette := SwapAt(palette, indexA, indexB);
      var pixels := new Byte[|imageData|](i requires 0 <= i < |imageData| reads this => imageData[i]);
      assert pixels[..] == imageData;
      SwapImagePixels(pixels, colorA, colorB, DefaultThreshold);
      imageData := pixels[..];
      Recount();
      selection := [];
    }

    /**
     * Lines 535-540: every percentage is recomputed over the current pixels.
     * This is a step inside `SwapSelected`, which calls it after replacing the
     * pixels, when the stored percentages no longer match them; it therefore
     * does not assume `Valid()`, and `SwapSelected` restores it.
     */
    method Recount()
      requires IsRgbaBuffer(imageData) && |imageData| > 0 && palette != []
      modifies this
      ensures imageData == old(imageData) && selection == old(selection) && hasImage == old(hasImage)
      ensures Colors(palette) == old(Colors(palette)) && palette != []
      ensures Shares(palette) == CoveragePercentages(imageData, Colors(palette))
    {
      var colors := Colors(palette);
      var newPercentages := CalculateColorPercentages(imageData, colors);
      CoverageWellFormed(imageData, colors);
      palette := WithShares(colors, newPercentages);
    }
  }
}
