/**
 * The colour metric (`colorDistance`) and the nearest-colour classifier
 * (`findClosestColor`). Distances are kept squared: the square root of the
 * add-on is monotone, so every comparison it makes on distances is the same
 * comparison on squared distances, and no floating point is needed.
 */
module ColorMetric {
  import opened Raster

  /** Squared Euclidean distance between two colours in RGB space. */
  function SqDistance(p: Rgb, q: Rgb): (d: nat)
    ensures d == 0 <==> p == q
  {
    Square(q.r - p.r) + Square(q.g - p.g) + Square(q.b - p.b)
  }

  function Square(x: int): (s: nat)
    ensures s == 0 <==> x == 0
  {
    if x == 0 then 0 else assert x * x > 0 by { if x < 0 { assert x * x == (-x) * (-x); } } x * x
  }

  lemma SqDistanceSymmetric(p: Rgb, q: Rgb)
    ensures SqDistance(p, q) == SqDistance(q, p)
  {
  }

  /** `distance <= threshold` in the add-on is exactly `SqDistance <= threshold * threshold`. */
  predicate Within(p: Rgb, q: Rgb, threshold: nat)
  {
    SqDistance(p, q) <= threshold * threshold
  }

  /**
   * The index `findClosestColor` returns, scanning the palette from the left
   * and replacing the candidate only on a strictly smaller distance.
   * On an empty palette the scan never replaces its initial index 0.
   */
  function Nearest(p: Rgb, colors: seq<Rgb>): (k: nat)
    ensures colors == [] ==> k == 0
    ensures colors != [] ==> k < |colors|
  {
    if |colors| <= 1 then 0
    else
      var k := Nearest(p, colors[..|colors| - 1]);
      if SqDistance(p, colors[|colors| - 1]) < SqDistance(p, colors[k]) then |colors| - 1 else k
  }

  /**
   * On a non-empty palette the index is an argmin of the distance, and the
   * first one: every earlier entry is strictly farther.
   */
  lemma {:induction false} NearestIsFirstMinimum(p: Rgb, colors: seq<Rgb>)
    requires colors != []
    ensures forall j | 0 <= j < |colors| :: SqDistance(p, colors[Nearest(p, colors)]) <= SqDistance(p, colors[j])
    ensures forall j | 0 <= j < Nearest(p, colors) :: SqDistance(p, colors[Nearest(p, colors)]) < SqDistance(p, colors[j])
  {
    if |colors| > 1 {
      var init := colors[..|colors| - 1];
      NearestIsFirstMinimum(p, init);
      assert forall j | 0 <= j < |init| :: init[j] == colors[j];
    }
  }

  /** The two properties of `Nearest` pin down one index: the first minimum. */
  lemma NearestIsUnique(p: Rgb, colors: seq<Rgb>, k: nat)
    requires k < |colors|
    requires forall j | 0 <= j < |colors| :: SqDistance(p, colors[k]) <= SqDistance(p, colors[j])
    requires forall j | 0 <= j < k :: SqDistance(p, colors[k]) < SqDistance(p, colors[j])
    ensures k == Nearest(p, colors)
  {
    NearestIsFirstMinimum(p, colors);
  }

  /** A colour that occurs in the palette is classified to its first occurrence. */
  lemma NearestOfMember(p: Rgb, colors: seq<Rgb>, j: nat)
    requires j < |colors| && colors[j] == p
    requires forall i | 0 <= i < j :: colors[i] != p
    ensures Nearest(p, colors) == j
  {
    NearestIsUnique(p, colors, j);
  }

  /** A one-entry palette classifies every pixel to index 0. */
  lemma NearestSingle(p: Rgb, c: Rgb)
    ensures Nearest(p, [c]) == 0
  {
  }

  /**
   * `findClosestColor`: one pass over the palette; `found == false` stands
   * for the initial `minDistance = Infinity`, which the first entry always beats.
   */
  method FindClosestColor(pixel: Rgb, colors: seq<Rgb>) returns (closestIndex: nat)
    ensures closestIndex == Nearest(pixel, colors)
  {
    var found := false;
    var minDistance := 0;
    closestIndex := 0;
    for index := 0 to |colors|
      invariant found <==> index > 0
      invariant found ==> closestIndex == Nearest(pixel, colors[..index])
      invariant !found ==> closestIndex == 0
      invariant found ==> minDistance == SqDistance(pixel, colors[closestIndex])
    {
      var distance := SqDistance(pixel, colors[index]);
      if !found || distance < minDistance {
        minDistance := distance;
        closestIndex := index;
        found := true;
      }
      assert colors[..index + 1][..index] == colors[..index];
    }
    assert colors[..|colors|] == colors;
  }
}
