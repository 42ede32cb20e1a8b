/**
 * The median-cut quantizer (`quantizeColors`): a FIFO queue of pixel
 * buckets, each popped bucket sorted along one channel and cut at half its
 * length, then every non-empty bucket replaced by its rounded mean, and a
 * shortfall topped up with pixels drawn from every hundredth input pixel.
 */
module MedianCut {
  import opened Raster

  // ---------------------------------------------------------------------
  // Channel statistics of a bucket (the min/max accumulators, lines 183-199)
  // ---------------------------------------------------------------------

  function Min(x: int, y: int): int { if x <= y then x else y }
  function Max(x: int, y: int): int { if x >= y then x else y }

  /** `Math.min` folded over the bucket, starting from 255. */
  function MinOf(s: seq<Rgb>, ch: Channel): (m: int)
    ensures forall i | 0 <= i < |s| :: m <= Key(s[i], ch)
    ensures s == [] ==> m == 255
    ensures 0 <= m <= 255
  {
    if s == [] then 255
    else
      var m := MinOf(s[..|s| - 1], ch);
      assert forall i | 0 <= i < |s| - 1 :: s[..|s| - 1][i] == s[i];
      Min(m, Key(s[|s| - 1], ch))
  }

  /** `Math.max` folded over the bucket, starting from 0. */
  function MaxOf(s: seq<Rgb>, ch: Channel): (m: int)
    ensures forall i | 0 <= i < |s| :: Key(s[i], ch) <= m
    ensures s == [] ==> m == 0
    ensures 0 <= m <= 255
  {
    if s == [] then 0
    else
      var m := MaxOf(s[..|s| - 1], ch);
      assert forall i | 0 <= i < |s| - 1 :: s[..|s| - 1][i] == s[i];
      Max(m, Key(s[|s| - 1], ch))
  }

  /** Over a non-empty bucket both extremes are values some pixel has. */
  lemma {:induction false} ExtremesAttained(s: seq<Rgb>, ch: Channel)
    requires s != []
    ensures exists i | 0 <= i < |s| :: MinOf(s, ch) == Key(s[i], ch)
    ensures exists i | 0 <= i < |s| :: MaxOf(s, ch) == Key(s[i], ch)
  {
    var n := |s| - 1;
    if n > 0 {
      var init := s[..n];
      ExtremesAttained(init, ch);
      var i :| 0 <= i < n && MinOf(init, ch) == Key(init[i], ch);
      var j :| 0 <= j < n && MaxOf(init, ch) == Key(init[j], ch);
      assert init[i] == s[i] && init[j] == s[j];
      if MinOf(s, ch) != Key(s[n], ch) {
        assert MinOf(s, ch) == Key(s[i], ch);
      }
      if MaxOf(s, ch) != Key(s[n], ch) {
        assert MaxOf(s, ch) == Key(s[j], ch);
      }
    } else {
      assert MinOf(s, ch) == Key(s[0], ch) && MaxOf(s, ch) == Key(s[0], ch);
    }
  }

  function Range(s: seq<Rgb>, ch: Channel): int
  {
    MaxOf(s, ch) - MinOf(s, ch)
  }

  /** The accumulator loop of lines 183-199, one pass over the bucket. */
  method ChannelRanges(bucket: seq<Rgb>) returns (rRange: int, gRange: int, bRange: int)
    ensures rRange == Range(bucket, R) && gRange == Range(bucket, G) && bRange == Range(bucket, B)
    ensures bucket != [] ==> rRange >= 0 && gRange >= 0 && bRange >= 0
  {
    var rMin, rMax := 255, 0;
    var gMin, gMax := 255, 0;
    var bMin, bMax := 255, 0;
    for i := 0 to |bucket|
      invariant rMin == MinOf(bucket[..i], R) && rMax == MaxOf(bucket[..i], R)
      invariant gMin == MinOf(bucket[..i], G) && gMax == MaxOf(bucket[..i], G)
      invariant bMin == MinOf(bucket[..i], B) && bMax == MaxOf(bucket[..i], B)
    {
      var pixel := bucket[i];
      assert bucket[..i + 1][..i] == bucket[..i];
      rMin, rMax := Min(rMin, pixel.r), Max(rMax, pixel.r);
      gMin, gMax := Min(gMin, pixel.g), Max(gMax, pixel.g);
      bMin, bMax := Min(bMin, pixel.b), Max(bMax, pixel.b);
    }
    assert bucket[..|bucket|] == bucket;
    rRange, gRange, bRange := rMax - rMin, gMax - gMin, bMax - bMin;
  }

  /**
   * The channel choice of lines 202-207. It is an argmax of the three
   * ranges, but not a symmetric one: G wins only when strictly widest,
   * B beats R only when strictly wider, and R takes every remaining tie.
   */
  function ChooseChannel(rRange: int, gRange: int, bRange: int): (ch: Channel)
    ensures var w := match ch case R => rRange case G => gRange case B => bRange;
            w >= rRange && w >= gRange && w >= bRange
    ensures ch == G <==> gRange > rRange && gRange > bRange
    ensures ch == B ==> bRange > rRange
  {
    if gRange > rRange && gRange > bRange then G
    else if bRange > rRange then B
    else R
  }

  function SplitChannel(bucket: seq<Rgb>): Channel
  {
    ChooseChannel(Range(bucket, R), Range(bucket, G), Range(bucket, B))
  }

  // ---------------------------------------------------------------------
  // Sorting (`bucket.sort((a, b) => a[c] - b[c])`, line 209)
  // ---------------------------------------------------------------------

  ghost predicate SortedOn(s: seq<Rgb>, ch: Channel)
  {
    forall i, j | 0 <= i < j < |s| :: Key(s[i], ch) <= Key(s[j], ch)
  }

  /** Inserts `x` after every element whose key is not greater than its own. */
  function Insert(s: seq<Rgb>, x: Rgb, ch: Channel): (t: seq<Rgb>)
    ensures |t| == |s| + 1
  {
    if s == [] then [x]
    else if Key(x, ch) < Key(s[0], ch) then [x] + s
    else [s[0]] + Insert(s[1..], x, ch)
  }

  lemma {:induction false} InsertPermutes(s: seq<Rgb>, x: Rgb, ch: Channel)
    ensures multiset(Insert(s, x, ch)) == multiset(s) + multiset{x}
  {
    if s != [] && Key(s[0], ch) <= Key(x, ch) {
      assert s == [s[0]] + s[1..];
      InsertPermutes(s[1..], x, ch);
    }
  }

  /** A key bound shared by `x` and every element of `s` holds for every element of the insertion. */
  lemma {:induction false} InsertAbove(s: seq<Rgb>, x: Rgb, ch: Channel, k: int)
    requires k <= Key(x, ch) && forall i | 0 <= i < |s| :: k <= Key(s[i], ch)
    ensures forall i | 0 <= i < |Insert(s, x, ch)| :: k <= Key(Insert(s, x, ch)[i], ch)
  {
    if s != [] && Key(s[0], ch) <= Key(x, ch) {
      InsertAbove(s[1..], x, ch, k);
      var t := Insert(s, x, ch);
      forall i | 0 <= i < |t| ensures k <= Key(t[i], ch) {
        if i > 0 {
          assert t[i] == Insert(s[1..], x, ch)[i - 1];
        }
      }
    }
  }

  /** A sorted sequence stays sorted when an element no greater than all of it is put in front. */
  lemma ConsSorted(h: Rgb, t: seq<Rgb>, ch: Channel)
    requires SortedOn(t, ch) && forall i | 0 <= i < |t| :: Key(h, ch) <= Key(t[i], ch)
    ensures SortedOn([h] + t, ch)
  {
    var s := [h] + t;
    forall i, j | 0 <= i < j < |s| ensures Key(s[i], ch) <= Key(s[j], ch) {
      assert s[j] == t[j - 1];
      if i > 0 {
        assert s[i] == t[i - 1];
      }
    }
  }

  lemma {:induction false} InsertKeepsSorted(s: seq<Rgb>, x: Rgb, ch: Channel)
    requires SortedOn(s, ch)
    ensures SortedOn(Insert(s, x, ch), ch)
  {
    if s == [] {
    } else if Key(x, ch) < Key(s[0], ch) {
      ConsSorted(x, s, ch);
    } else {
      var rest := s[1..];
      InsertKeepsSorted(rest, x, ch);
      assert forall i | 0 <= i < |rest| :: rest[i] == s[i + 1];
      InsertAbove(rest, x, ch, Key(s[0], ch));
      ConsSorted(s[0], Insert(rest, x, ch), ch);
    }
  }

  /**
   * A stable sort on one channel: JavaScript's `Array.prototype.sort` is
   * stable, so its result is the one of this insertion sort.
   */
  function SortBy(s: seq<Rgb>, ch: Channel): (t: seq<Rgb>)
    ensures |t| == |s|
  {
    if s == [] then [] else Insert(SortBy(s[..|s| - 1], ch), s[|s| - 1], ch)
  }

  /** The sort is a permutation of the bucket... */
  lemma {:induction false} SortByPermutes(s: seq<Rgb>, ch: Channel)
    ensures multiset(SortBy(s, ch)) == multiset(s)
  {
    if s != [] {
      assert s == s[..|s| - 1] + [s[|s| - 1]];
      SortByPermutes(s[..|s| - 1], ch);
      InsertPermutes(SortBy(s[..|s| - 1], ch), s[|s| - 1], ch);
    }
  }

  /** ... in ascending order of the chosen channel. */
  lemma {:induction false} SortBySorted(s: seq<Rgb>, ch: Channel)
    ensures SortedOn(SortBy(s, ch), ch)
  {
    if s != [] {
      SortBySorted(s[..|s| - 1], ch);
      InsertKeepsSorted(SortBy(s[..|s| - 1], ch), s[|s| - 1], ch);
    }
  }

  // ---------------------------------------------------------------------
  // The split loop (lines 174-215)
  // ---------------------------------------------------------------------

  /** All pixels of a queue of buckets, in queue order. */
  ghost function Flatten(queue: seq<seq<Rgb>>): seq<Rgb>
  {
    if queue == [] then [] else queue[0] + Flatten(queue[1..])
  }

  lemma {:induction false} FlattenAppend(p: seq<seq<Rgb>>, q: seq<seq<Rgb>>)
    ensures Flatten(p + q) == Flatten(p) + Flatten(q)
  {
    if p != [] {
      assert (p + q)[1..] == p[1..] + q;
      FlattenAppend(p[1..], q);
    } else {
      assert p + q == q;
    }
  }

  /** A queue of buckets holding at most one pixel each holds at most one pixel per bucket. */
  lemma {:induction false} SmallQueue(queue: seq<seq<Rgb>>)
    requires forall i | 0 <= i < |queue| :: |queue[i]| <= 1
    ensures |Flatten(queue)| <= |queue|
  {
    if queue != [] {
      SmallQueue(queue[1..]);
    }
  }

  /**
   * The two halves pushed for a non-empty bucket (lines 209-214): the
   * bucket sorted on its split channel and cut at `floor(n / 2)`.
   */
  function Halves(bucket: seq<Rgb>): (h: (seq<Rgb>, seq<Rgb>))
    ensures |h.0| == |bucket| / 2 && |h.1| == |bucket| - |bucket| / 2
  {
    var sorted := SortBy(bucket, SplitChannel(bucket));
    var median := |bucket| / 2;
    (sorted[..median], sorted[median..])
  }

  /** The halves together are the bucket, reordered. */
  lemma HalvesPermute(bucket: seq<Rgb>)
    ensures multiset(Halves(bucket).0 + Halves(bucket).1) == multiset(bucket)
  {
    var h := Halves(bucket);
    assert h.0 + h.1 == SortBy(bucket, SplitChannel(bucket));
    SortByPermutes(bucket, SplitChannel(bucket));
  }

  /**
   * Both halves are in ascending order of the split channel, and no pixel
   * of the first half lies above a pixel of the second on that channel.
   */
  lemma HalvesOrdered(bucket: seq<Rgb>)
    ensures SortedOn(Halves(bucket).0, SplitChannel(bucket))
    ensures SortedOn(Halves(bucket).1, SplitChannel(bucket))
    ensures forall i, j | 0 <= i < |Halves(bucket).0| && 0 <= j < |Halves(bucket).1| ::
      Key(Halves(bucket).0[i], SplitChannel(bucket)) <= Key(Halves(bucket).1[j], SplitChannel(bucket))
  {
    var ch := SplitChannel(bucket);
    var sorted := SortBy(bucket, ch);
    var h := Halves(bucket);
    var median := |bucket| / 2;
    SortBySorted(bucket, ch);
    assert forall i | 0 <= i < |h.0| :: h.0[i] == sorted[i];
    assert forall j | 0 <= j < |h.1| :: h.1[j] == sorted[median + j];
  }

  /** One turn of the loop: pop the head, drop it when empty, else push its halves. */
  function SplitStep(queue: seq<seq<Rgb>>): (next: seq<seq<Rgb>>)
    requires queue != []
    ensures |next| == if queue[0] == [] then |queue| - 1 else |queue| + 1
  {
    var bucket := queue[0];
    if |bucket| == 0 then queue[1..]
    else
      var h := Halves(bucket);
      queue[1..] + [h.0, h.1]
  }

  /** A turn moves pixels between buckets but never adds or loses one. */
  lemma SplitStepKeepsPixels(queue: seq<seq<Rgb>>)
    requires queue != []
    ensures multiset(Flatten(SplitStep(queue))) == multiset(Flatten(queue))
    ensures |Flatten(SplitStep(queue))| == |Flatten(queue)|
  {
    var bucket := queue[0];
    assert Flatten(queue) == bucket + Flatten(queue[1..]);
    if bucket != [] {
      var h := Halves(bucket);
      HalvesPermute(bucket);
      FlattenAppend(queue[1..], [h.0, h.1]);
      assert Flatten([h.0, h.1]) == h.0 + h.1 by {
        assert Flatten([h.1]) == h.1 + Flatten([]);
      }
    }
  }

  /** The loop condition of line 178. */
  predicate KeepSplitting(queue: seq<seq<Rgb>>, colorCount: nat)
  {
    |queue| < colorCount && |queue| > 0
  }

  /**
   * The queue after `m` turns of the loop; once the loop condition fails,
   * further turns leave the queue as it is.
   */
  ghost function SplitRounds(queue: seq<seq<Rgb>>, m: nat, colorCount: nat): seq<seq<Rgb>>
  {
    if m == 0 then queue
    else
      var before := SplitRounds(queue, m - 1, colorCount);
      if KeepSplitting(before, colorCount) then SplitStep(before) else before
  }

  /** Any number of turns moves pixels between buckets but never adds or loses one. */
  lemma {:induction false} SplitRoundsKeepPixels(queue: seq<seq<Rgb>>, m: nat, colorCount: nat)
    ensures multiset(Flatten(SplitRounds(queue, m, colorCount))) == multiset(Flatten(queue))
  {
    if m > 0 {
      SplitRoundsKeepPixels(queue, m - 1, colorCount);
      var before := SplitRounds(queue, m - 1, colorCount);
      if KeepSplitting(before, colorCount) {
        assert SplitRounds(queue, m, colorCount) == SplitStep(before);
        SplitStepKeepsPixels(before);
      } else {
        assert SplitRounds(queue, m, colorCount) == before;
      }
    }
  }

  /** The split loop ends on `input`: after some number of turns its condition is false. */
  ghost predicate SplitEnds(input: seq<Rgb>, colorCount: nat)
  {
    exists m: nat :: !KeepSplitting(SplitRounds([input], m, colorCount), colorCount)
  }

  /** The caller's array after the first turn has sorted it in place. */
  function SortedInput(s: seq<Rgb>): seq<Rgb>
  {
    SortBy(s, SplitChannel(s))
  }

  /** The caller's array once the loop is over: sorted by the first turn, untouched when no turn ran. */
  function InputAfterSplit(input: seq<Rgb>, colorCount: nat): seq<Rgb>
  {
    if colorCount <= 1 then input else SortedInput(input)
  }

  /**
   * Shape of the queue during the split loop: the first `upper` buckets
   * come from one depth of the split tree and hold `level` or `level + 1`
   * pixels; the rest are their children, one depth further down.
   */
  ghost predicate LevelShape(queue: seq<seq<Rgb>>, level: nat, upper: nat)
  {
    && upper <= |queue|
    && (forall i | 0 <= i < upper :: level <= |queue[i]| <= level + 1)
    && (forall i | upper <= i < |queue| :: level / 2 <= |queue[i]| <= level / 2 + 1)
  }

  lemma NextLevel(queue: seq<seq<Rgb>>, level: nat)
    requires LevelShape(queue, level, 0)
    ensures LevelShape(queue, level / 2, |queue|)
  {
  }

  lemma StepKeepsLevel(queue: seq<seq<Rgb>>, level: nat, upper: nat)
    requires LevelShape(queue, level, upper) && 0 < upper
    ensures LevelShape(SplitStep(queue), level, upper - 1)
  {
    var next := SplitStep(queue);
    if queue[0] != [] {
      var n := |queue[0]|;
      assert level <= n <= level + 1;
      var h := Halves(queue[0]);
      assert next == queue[1..] + [h.0, h.1];
      assert level / 2 <= |h.0| <= level / 2 + 1 && level / 2 <= |h.1| <= level / 2 + 1;
      forall i | upper - 1 <= i < |next|
        ensures level / 2 <= |next[i]| <= level / 2 + 1
      {
        if i < |queue| - 1 {
          assert next[i] == queue[i + 1];
        }
      }
    }
  }

  /**
   * While fewer buckets than pixels remain, the head of a level-shaped
   * queue is not empty: otherwise every bucket would hold at most one pixel.
   */
  lemma HeadNotEmpty(queue: seq<seq<Rgb>>, level: nat, upper: nat)
    requires LevelShape(queue, level, upper) && 0 < upper
    requires |queue| < |Flatten(queue)|
    ensures queue[0] != []
  {
    if level == 0 {
      SmallQueue(queue);
    }
  }

  /**
   * One turn keeps the queue level-shaped, moving one depth down once the
   * current depth is used up; and the popped head is not empty while fewer
   * buckets than pixels remain.
   */
  lemma LevelTurn(queue: seq<seq<Rgb>>, level: nat, upper: nat) returns (level': nat, upper': nat)
    requires LevelShape(queue, level, upper) && queue != []
    ensures LevelShape(SplitStep(queue), level', upper')
    ensures |queue| < |Flatten(queue)| ==> queue[0] != []
  {
    level', upper' := level, upper;
    if upper == 0 {
      NextLevel(queue, level);
      level', upper' := level / 2, |queue|;
    }
    StepKeepsLevel(queue, level', upper');
    if |queue| < |Flatten(queue)| {
      HeadNotEmpty(queue, level', upper');
    }
    upper' := upper' - 1;
  }

  /** While fewer buckets than pixels remain, a turn on a level-shaped queue adds one bucket. */
  lemma GrowStep(queue: seq<seq<Rgb>>, level: nat, upper: nat, n: nat) returns (level': nat, upper': nat)
    requires LevelShape(queue, level, upper) && queue != []
    requires |Flatten(queue)| == n && |queue| < n
    ensures |SplitStep(queue)| == |queue| + 1
    ensures LevelShape(SplitStep(queue), level', upper')
    ensures |Flatten(SplitStep(queue))| == n
  {
    level', upper' := LevelTurn(queue, level, upper);
    SplitStepKeepsPixels(queue);
  }

  /**
   * On an input of at least `colorCount` pixels, each turn of the loop adds
   * one bucket: after `r` turns the queue holds `r + 1` buckets, every pixel
   * and the level shape.
   */
  lemma {:induction false} RoundsGrow(input: seq<Rgb>, colorCount: nat, r: nat) returns (level: nat, upper: nat)
    requires input != [] && colorCount <= |input| && r < Max(colorCount, 1)
    ensures |SplitRounds([input], r, colorCount)| == r + 1
    ensures LevelShape(SplitRounds([input], r, colorCount), level, upper)
    ensures |Flatten(SplitRounds([input], r, colorCount))| == |input|
  {
    if r == 0 {
      assert Flatten([input]) == input + Flatten([]);
      level, upper := |input|, 1;
    } else {
      var before := SplitRounds([input], r - 1, colorCount);
      var l, u := RoundsGrow(input, colorCount, r - 1);
      assert KeepSplitting(before, colorCount);
      assert SplitRounds([input], r, colorCount) == SplitStep(before);
      level, upper := GrowStep(before, l, u, |input|);
    }
  }

  /** With no pixels, or with at least `colorCount` of them, the split loop ends. */
  lemma EnoughPixelsEnd(input: seq<Rgb>, colorCount: nat)
    requires input == [] || colorCount <= |input|
    ensures SplitEnds(input, colorCount)
  {
    if input == [] {
      if colorCount <= 1 {
        assert !KeepSplitting(SplitRounds([input], 0, colorCount), colorCount);
      } else {
        assert SplitRounds([input], 1, colorCount) == [];
        assert !KeepSplitting(SplitRounds([input], 1, colorCount), colorCount);
      }
    } else {
      var m := Max(colorCount, 1) - 1;
      var _, _ := RoundsGrow(input, colorCount, m);
      assert !KeepSplitting(SplitRounds([input], m, colorCount), colorCount);
    }
  }

  /** Lines 183-212 for one popped, non-empty bucket: choose a channel, sort, find the cut. */
  method SortForSplit(bucket: seq<Rgb>) returns (sorted: seq<Rgb>, median: nat)
    requires bucket != []
    ensures sorted == SortBy(bucket, SplitChannel(bucket))
    ensures median == |bucket| / 2 && |sorted| == |bucket|
    ensures (sorted[..median], sorted[median..]) == Halves(bucket)
  {
    var rRange, gRange, bRange := ChannelRanges(bucket);
    var sortChannel := ChooseChannel(rRange, gRange, bRange);
    sorted := SortBy(bucket, sortChannel);
    median := |bucket| / 2;
  }

  /** `bucket.sort` on the caller's array: its elements are replaced by the sorted sequence. */
  method Overwrite(a: array<Rgb>, s: seq<Rgb>)
    requires |s| == a.Length
    modifies a
    ensures a[..] == s
  {
    forall i | 0 <= i < a.Length {
      a[i] := s[i];
    }
  }

  /**
   * One turn of the loop of line 178 (lines 179-214). When the popped bucket
   * is the caller's array, its in-place sort is visible to the caller.
   */
  method SplitTurn(pixels: array<Rgb>, buckets: seq<seq<Rgb>>, isCallerArray: bool) returns (next: seq<seq<Rgb>>)
    requires buckets != []
    requires isCallerArray ==> buckets[0] == pixels[..]
    modifies pixels
    ensures next == SplitStep(buckets)
    ensures pixels[..] == if isCallerArray then SortedInput(old(pixels[..])) else old(pixels[..])
  {
    var bucket := buckets[0];
    next := buckets[1..];
    if |bucket| == 0 {
      assert isCallerArray ==> SortedInput(pixels[..]) == [];
      return;
    }
    var sorted, median := SortForSplit(bucket);
    if isCallerArray {
      Overwrite(pixels, sorted);
    }
    next := next + [sorted[..median], sorted[median..]];
  }

  /** What the split loop keeps true after `rounds` turns. */
  ghost predicate SplitInvariant(input: seq<Rgb>, current: seq<Rgb>, buckets: seq<seq<Rgb>>, rounds: nat,
                                 aliased: bool, colorCount: nat)
  {
    && buckets == SplitRounds([input], rounds, colorCount)
    && multiset(Flatten(buckets)) == multiset(input)
    && |Flatten(buckets)| == |input|
    && (aliased <==> rounds == 0)
    && (aliased ==> current == input && buckets == [input])
    && (!aliased ==> current == SortedInput(input) && colorCount >= 2)
    && |buckets| <= Max(colorCount, 1)
  }

  /** One turn of the split loop keeps `SplitInvariant`. */
  method SplitLoopTurn(pixels: array<Rgb>, buckets: seq<seq<Rgb>>, aliased: bool, colorCount: nat,
                       ghost input: seq<Rgb>, ghost rounds: nat)
    returns (next: seq<seq<Rgb>>, aliased': bool, ghost rounds': nat)
    requires SplitInvariant(input, pixels[..], buckets, rounds, aliased, colorCount)
    requires KeepSplitting(buckets, colorCount)
    modifies pixels
    ensures !aliased' && rounds' == rounds + 1
    ensures SplitInvariant(input, pixels[..], next, rounds', aliased', colorCount)
  {
    aliased', rounds' := false, rounds + 1;
    SplitStepKeepsPixels(buckets);
    next := SplitTurn(pixels, buckets, aliased);
  }

  /** The loop is still running after `rounds` turns, so `rounds` is not a number of turns after which it has stopped. */
  lemma NotYetEnded(input: seq<Rgb>, colorCount: nat, rounds: nat, m: nat)
    requires KeepSplitting(SplitRounds([input], rounds, colorCount), colorCount)
    requires !KeepSplitting(SplitRounds([input], m, colorCount), colorCount)
    ensures rounds != m
  {
  }

  /**
   * The split loop. The first bucket is the caller's array itself, so the
   * first turn's sort reorders `pixels` (line 174 with line 209); every
   * later bucket is a fresh slice.
   *
   * The loop does not end on every input, so the caller must supply one on
   * which it does (`SplitEnds`); `EnoughPixelsEnd` shows that every empty
   * input and every input of at least `colorCount` pixels is one.
   */
  method SplitBuckets(pixels: array<Rgb>, colorCount: nat) returns (buckets: seq<seq<Rgb>>, ghost rounds: nat)
    requires SplitEnds(pixels[..], colorCount)
    modifies pixels
    ensures buckets == SplitRounds([old(pixels[..])], rounds, colorCount)
    ensures !KeepSplitting(buckets, colorCount)
    ensures multiset(Flatten(buckets)) == multiset(old(pixels[..]))
    ensures pixels.Length > 0 ==> |buckets| == Max(colorCount, 1)
    ensures pixels[..] == InputAfterSplit(old(pixels[..]), colorCount)
  {
    ghost var input := pixels[..];
    ghost var m: nat :| !KeepSplitting(SplitRounds([input], m, colorCount), colorCount);
    buckets := [pixels[..]];
    rounds := 0;
    var aliased := true;
    SplitStart(input, colorCount);
    while |buckets| < colorCount && |buckets| > 0
      invariant SplitInvariant(input, pixels[..], buckets, rounds, aliased, colorCount)
      invariant rounds <= m
      decreases m - rounds
    {
      NotYetEnded(input, colorCount, rounds, m);
      buckets, aliased, rounds := SplitLoopTurn(pixels, buckets, aliased, colorCount, input, rounds);
    }
    SplitExit(input, pixels[..], buckets, rounds, aliased, colorCount);
  }

  lemma SplitStart(input: seq<Rgb>, colorCount: nat)
    ensures SplitInvariant(input, input, [input], 0, true, colorCount)
  {
    assert Flatten([input]) == input + Flatten([]);
  }

  lemma SplitExit(input: seq<Rgb>, current: seq<Rgb>, buckets: seq<seq<Rgb>>, rounds: nat,
                  aliased: bool, colorCount: nat)
    requires SplitInvariant(input, current, buckets, rounds, aliased, colorCount)
    requires !KeepSplitting(buckets, colorCount)
    ensures input != [] ==> |buckets| == Max(colorCount, 1)
    ensures current == InputAfterSplit(input, colorCount)
  {
    if input != [] {
      assert buckets != [];
    }
  }

  // ---------------------------------------------------------------------
  // Averaging (lines 218-233)
  // ---------------------------------------------------------------------

  function ChannelSum(s: seq<Rgb>, ch: Channel): nat
  {
    if s == [] then 0 else ChannelSum(s[..|s| - 1], ch) + Key(s[|s| - 1], ch)
  }

  /**
   * `Math.round(sum / n)` for a non-negative sum: the integer nearest to
   * `sum / n`, with halves rounded up.
   */
  function RoundedMean(sum: nat, n: nat): (m: int)
    requires n > 0
    ensures 2 * n * m - n <= 2 * sum < 2 * n * m + n
  {
    var m := (2 * sum + n) / (2 * n);
    assert (2 * n) * m <= 2 * sum + n < (2 * n) * m + 2 * n;
    m
  }

  lemma {:induction false} ChannelSumBounds(s: seq<Rgb>, ch: Channel, lo: int, hi: int)
    requires forall i | 0 <= i < |s| :: lo <= Key(s[i], ch) <= hi
    ensures |s| * lo <= ChannelSum(s, ch) <= |s| * hi
  {
    if s != [] {
      ChannelSumBounds(s[..|s| - 1], ch, lo, hi);
      assert (|s| - 1) * lo + lo == |s| * lo;
      assert (|s| - 1) * hi + hi == |s| * hi;
    }
  }

  lemma HalfStep(x: int, n: int)
    requires n > 0 && 2 * n * x <= n
    ensures x <= 0
  {
    assert 2 * n * x - 2 * n == 2 * n * (x - 1);
  }

  lemma RoundedMeanBounds(sum: nat, n: nat, lo: int, hi: int)
    requires n > 0 && n * lo <= sum <= n * hi
    ensures lo <= RoundedMean(sum, n) <= hi
  {
    var m := RoundedMean(sum, n);
    assert 2 * n * (lo - m) == 2 * (n * lo) - 2 * n * m;
    assert 2 * n * (m - hi) == 2 * n * m - 2 * (n * hi);
    HalfStep(lo - m, n);
    HalfStep(m - hi, n);
  }

  /** The rounded mean of one channel lies between that channel's minimum and maximum. */
  lemma MeanChannelBounds(bucket: seq<Rgb>, ch: Channel)
    requires bucket != []
    ensures MinOf(bucket, ch) <= RoundedMean(ChannelSum(bucket, ch), |bucket|) <= MaxOf(bucket, ch)
  {
    ChannelSumBounds(bucket, ch, 0, 255);
    ChannelSumBounds(bucket, ch, MinOf(bucket, ch), MaxOf(bucket, ch));
    RoundedMeanBounds(ChannelSum(bucket, ch), |bucket|, MinOf(bucket, ch), MaxOf(bucket, ch));
  }

  /** The representative colour of a non-empty bucket. */
  function Mean(bucket: seq<Rgb>): (c: Rgb)
    requires bucket != []
    ensures MinOf(bucket, R) <= c.r <= MaxOf(bucket, R)
    ensures MinOf(bucket, G) <= c.g <= MaxOf(bucket, G)
    ensures MinOf(bucket, B) <= c.b <= MaxOf(bucket, B)
  {
    MeanChannelBounds(bucket, R);
    MeanChannelBounds(bucket, G);
    MeanChannelBounds(bucket, B);
    ChannelSumBounds(bucket, R, 0, 255);
    ChannelSumBounds(bucket, G, 0, 255);
    ChannelSumBounds(bucket, B, 0, 255);
    var n := |bucket|;
    Rgb(RoundedMean(ChannelSum(bucket, R), n), RoundedMean(ChannelSum(bucket, G), n), RoundedMean(ChannelSum(bucket, B), n))
  }

  /** A bucket of one colour averages to that colour. */
  lemma {:induction false} MeanOfUniform(bucket: seq<Rgb>, c: Rgb)
    requires bucket != [] && forall i | 0 <= i < |bucket| :: bucket[i] == c
    ensures Mean(bucket) == c
  {
    var m := Mean(bucket);
    ExtremesAttained(bucket, R);
    ExtremesAttained(bucket, G);
    ExtremesAttained(bucket, B);
    assert MinOf(bucket, R) == c.r && MaxOf(bucket, R) == c.r;
    assert MinOf(bucket, G) == c.g && MaxOf(bucket, G) == c.g;
    assert MinOf(bucket, B) == c.b && MaxOf(bucket, B) == c.b;
  }

  /**
   * The sum loop of lines 221-232 for one bucket: each channel of the result
   * is `Math.round(sum / n)` of the channel's sum, the integer within one half
   * of the exact average.
   */
  method BucketMean(bucket: seq<Rgb>) returns (color: Rgb)
    requires bucket != []
    ensures color == Mean(bucket)
    ensures var n := |bucket|;
      && 2 * n * color.r - n <= 2 * ChannelSum(bucket, R) < 2 * n * color.r + n
      && 2 * n * color.g - n <= 2 * ChannelSum(bucket, G) < 2 * n * color.g + n
      && 2 * n * color.b - n <= 2 * ChannelSum(bucket, B) < 2 * n * color.b + n
    ensures MinOf(bucket, R) <= color.r <= MaxOf(bucket, R)
    ensures MinOf(bucket, G) <= color.g <= MaxOf(bucket, G)
    ensures MinOf(bucket, B) <= color.b <= MaxOf(bucket, B)
  {
    var rSum, gSum, bSum := 0, 0, 0;
    for i := 0 to |bucket|
      invariant rSum == ChannelSum(bucket[..i], R)
      invariant gSum == ChannelSum(bucket[..i], G)
      invariant bSum == ChannelSum(bucket[..i], B)
    {
      assert bucket[..i + 1][..i] == bucket[..i];
      rSum := rSum + bucket[i].r;
      gSum := gSum + bucket[i].g;
      bSum := bSum + bucket[i].b;
    }
    assert bucket[..|bucket|] == bucket;
    var n := |bucket|;
    assert Mean(bucket) == Rgb(RoundedMean(rSum, n), RoundedMean(gSum, n), RoundedMean(bSum, n));
    color := Rgb((2 * rSum + n) / (2 * n), (2 * gSum + n) / (2 * n), (2 * bSum + n) / (2 * n));
  }

  /** The means of the non-empty buckets, in queue order. */
  function MeansOf(buckets: seq<seq<Rgb>>): (colors: seq<Rgb>)
    ensures |colors| <= |buckets|
    ensures (forall i | 0 <= i < |buckets| :: buckets[i] != []) ==> |colors| == |buckets|
  {
    if buckets == [] then []
    else
      var init := buckets[..|buckets| - 1];
      var last := buckets[|buckets| - 1];
      var colors := MeansOf(init);
      assert forall i | 0 <= i < |init| :: init[i] == buckets[i];
      if last == [] then colors else colors + [Mean(last)]
  }

  /** The averaging loop of lines 218-233. */
  method AverageBuckets(buckets: seq<seq<Rgb>>) returns (finalColors: seq<Rgb>)
    ensures finalColors == MeansOf(buckets)
  {
    finalColors := [];
    for i := 0 to |buckets|
      invariant finalColors == MeansOf(buckets[..i])
    {
      assert buckets[..i + 1][..i] == buckets[..i];
      if |buckets[i]| == 0 {
        continue;
      }
      var color := BucketMean(buckets[i]);
      finalColors := finalColors + [color];
    }
    assert buckets[..|buckets|] == buckets;
  }

  // ---------------------------------------------------------------------
  // Backfill and truncation (lines 236-250)
  // ---------------------------------------------------------------------

  /** `pixels[i]` for `i = from, from + 100, ...` below `|pixels|`. */
  function EveryHundredth(pixels: seq<Rgb>, from: nat): (s: seq<Rgb>)
    ensures |s| > 0 <==> from < |pixels|
    decreases |pixels| - from
  {
    if from >= |pixels| then [] else [pixels[from]] + EveryHundredth(pixels, from + 100)
  }

  /** The sample has `ceil((n - from) / 100)` entries, and entry `k` is input pixel `from + 100 k`. */
  lemma {:induction false} EveryHundredthAt(pixels: seq<Rgb>, from: nat)
    ensures |EveryHundredth(pixels, from)| == if from < |pixels| then (|pixels| - from + 99) / 100 else 0
    ensures forall k | 0 <= k < |EveryHundredth(pixels, from)| ::
      from + 100 * k < |pixels| && EveryHundredth(pixels, from)[k] == pixels[from + 100 * k]
    decreases |pixels| - from
  {
    if from < |pixels| {
      EveryHundredthAt(pixels, from + 100);
      var s := EveryHundredth(pixels, from);
      var rest := EveryHundredth(pixels, from + 100);
      forall k | 0 < k < |s| ensures from + 100 * k < |pixels| && s[k] == pixels[from + 100 * k] {
        assert s[k] == rest[k - 1];
        assert from + 100 + 100 * (k - 1) == from + 100 * k;
      }
    }
  }

  /** The sampling loop of lines 237-240. */
  method SampleEveryHundredth(pixels: array<Rgb>) returns (allPixels: seq<Rgb>)
    ensures allPixels == EveryHundredth(pixels[..], 0)
  {
    allPixels := [];
    var i := 0;
    while i < pixels.Length
      invariant allPixels + EveryHundredth(pixels[..], i) == EveryHundredth(pixels[..], 0)
      decreases pixels.Length - i
    {
      assert EveryHundredth(pixels[..], i) == [pixels[i]] + EveryHundredth(pixels[..], i + 100);
      allPixels := allPixels + [pixels[i]];
      i := i + 100;
    }
    assert EveryHundredth(pixels[..], i) == [];
  }

  /**
   * Tops the colours up to `colorCount` with pixels from every hundredth
   * position of the (already sorted) pixel array. `Math.random` becomes an
   * arbitrary choice of position: nothing is assumed about which one.
   */
  method Backfill(finalColors: seq<Rgb>, pixels: array<Rgb>, colorCount: nat) returns (colors: seq<Rgb>)
    ensures |finalColors| >= colorCount ==> colors == finalColors
    ensures |finalColors| < colorCount ==>
      |colors| == (if pixels.Length == 0 then |finalColors| else colorCount)
    ensures colors[..|finalColors|] == finalColors
    ensures forall j | |finalColors| <= j < |colors| :: colors[j] in EveryHundredth(pixels[..], 0)
  {
    colors := finalColors;
    if |finalColors| < colorCount {
      var allPixels := SampleEveryHundredth(pixels);
      var remaining := colorCount - |finalColors|;
      var k := 0;
      while k < remaining && |allPixels| > 0
        invariant 0 <= k <= remaining
        invariant |allPixels| == 0 ==> k == 0
        invariant |colors| == |finalColors| + k
        invariant colors[..|finalColors|] == finalColors
        invariant forall j | |finalColors| <= j < |colors| :: colors[j] in allPixels
      {
        var randomIndex :| 0 <= randomIndex < |allPixels|;
        colors := colors + [allPixels[randomIndex]];
        k := k + 1;
      }
    }
  }

  /**
   * Lines 218-250 once the queue is split: the bucket means in queue order,
   * topped up by the backfill, cut to `colorCount` entries.
   */
  method ColorsFromBuckets(buckets: seq<seq<Rgb>>, pixels: array<Rgb>, colorCount: nat) returns (colors: seq<Rgb>)
    requires multiset(Flatten(buckets)) == multiset(pixels[..])
    requires pixels.Length > 0 ==> |buckets| == Max(colorCount, 1)
    ensures |colors| <= colorCount
    ensures pixels.Length == 0 ==> colors == []
    ensures pixels.Length > 0 ==> |colors| == colorCount
    ensures var means := MeansOf(buckets);
      if |means| >= colorCount then colors == means[..colorCount]
      else |means| <= |colors| && colors[..|means|] == means &&
           forall j | |means| <= j < |colors| :: colors[j] in EveryHundredth(pixels[..], 0)
  {
    var finalColors := AverageBuckets(buckets);
    if pixels.Length == 0 {
      assert pixels[..] == [];
      assert |Flatten(buckets)| == |multiset(Flatten(buckets))| == 0;
      EmptyQueueHasNoMeans(buckets);
    }
    var filled := Backfill(finalColors, pixels, colorCount);
    colors := filled[..Min(colorCount, |filled|)];
  }

  /**
   * `quantizeColors`. The caller's array ends up sorted when the split loop
   * ran at all; the colours are computed from the final queue and the
   * sorted array.
   */
  method QuantizeColors(pixels: array<Rgb>, colorCount: nat)
    returns (colors: seq<Rgb>, ghost buckets: seq<seq<Rgb>>, ghost rounds: nat)
    requires SplitEnds(pixels[..], colorCount)
    modifies pixels
    ensures pixels[..] == InputAfterSplit(old(pixels[..]), colorCount)
    ensures buckets == SplitRounds([old(pixels[..])], rounds, colorCount)
    ensures !KeepSplitting(buckets, colorCount)
    ensures multiset(Flatten(buckets)) == multiset(old(pixels[..]))
    ensures |colors| <= colorCount
    ensures pixels.Length == 0 ==> colors == []
    ensures pixels.Length > 0 ==> |colors| == colorCount
    ensures var means := MeansOf(buckets);
      if |means| >= colorCount then colors == means[..colorCount]
      else |means| <= |colors| && colors[..|means|] == means &&
           forall j | |means| <= j < |colors| :: colors[j] in EveryHundredth(pixels[..], 0)
    ensures forall j | 0 <= j < |colors| :: InBoundingBox(colors[j], old(pixels[..]))
  {
    ghost var input := pixels[..];
    var queue;
    queue, rounds := SplitBuckets(pixels, colorCount);
    buckets := queue;
    SortByPermutes(input, SplitChannel(input));
    colors := ColorsFromBuckets(queue, pixels, colorCount);
    ghost var extra := EveryHundredth(pixels[..], 0);
    forall x | x in Flatten(queue) ensures x in input {
      assert x in multiset(Flatten(queue));
    }
    MeansInBox(queue, input);
    forall x | x in extra ensures x in input {
      EveryHundredthMembers(pixels[..], x);
      assert x in multiset(pixels[..]);
    }
    ColorsInBox(colors, MeansOf(queue), extra, input, colorCount);
  }

  /** Each channel of `c` lies between the least and the greatest value of that channel over `s`. */
  predicate InBoundingBox(c: Rgb, s: seq<Rgb>)
  {
    && MinOf(s, R) <= c.r <= MaxOf(s, R)
    && MinOf(s, G) <= c.g <= MaxOf(s, G)
    && MinOf(s, B) <= c.b <= MaxOf(s, B)
  }

  /** A pixel of `s` lies in the bounding box of `s`. */
  lemma MemberInBox(x: Rgb, s: seq<Rgb>)
    requires x in s
    ensures InBoundingBox(x, s)
  {
    var i :| 0 <= i < |s| && s[i] == x;
  }

  /** A bucket drawn from `s` has its extremes inside those of `s`. */
  lemma SubBox(b: seq<Rgb>, s: seq<Rgb>, ch: Channel)
    requires b != [] && forall x | x in b :: x in s
    ensures MinOf(s, ch) <= MinOf(b, ch) && MaxOf(b, ch) <= MaxOf(s, ch)
  {
    ExtremesAttained(b, ch);
    var i :| 0 <= i < |b| && MinOf(b, ch) == Key(b[i], ch);
    var j :| 0 <= j < |b| && MaxOf(b, ch) == Key(b[j], ch);
    assert b[i] in s && b[j] in s;
    var i' :| 0 <= i' < |s| && s[i'] == b[i];
    var j' :| 0 <= j' < |s| && s[j'] == b[j];
  }

  /** The mean of every non-empty bucket whose pixels come from `s` lies in the bounding box of `s`. */
  lemma {:induction false} MeansInBox(buckets: seq<seq<Rgb>>, s: seq<Rgb>)
    requires forall x | x in Flatten(buckets) :: x in s
    ensures forall c | c in MeansOf(buckets) :: InBoundingBox(c, s)
  {
    if buckets != [] {
      var init := buckets[..|buckets| - 1];
      var last := buckets[|buckets| - 1];
      assert buckets == init + [last];
      FlattenAppend(init, [last]);
      assert Flatten([last]) == last + Flatten([]);
      MeansInBox(init, s);
      if last != [] {
        SubBox(last, s, R);
        SubBox(last, s, G);
        SubBox(last, s, B);
      }
    }
  }

  /** Every entry of the every-100th sample is a pixel of the array. */
  lemma EveryHundredthMembers(pixels: seq<Rgb>, x: Rgb)
    requires x in EveryHundredth(pixels, 0)
    ensures x in pixels
  {
    EveryHundredthAt(pixels, 0);
    var k :| 0 <= k < |EveryHundredth(pixels, 0)| && EveryHundredth(pixels, 0)[k] == x;
    assert pixels[100 * k] == x;
  }

  /** Means inside the box followed by backfilled pixels of `input` stay inside the box. */
  lemma ColorsInBox(colors: seq<Rgb>, means: seq<Rgb>, extra: seq<Rgb>, input: seq<Rgb>, colorCount: nat)
    requires forall c | c in means :: InBoundingBox(c, input)
    requires forall x | x in extra :: x in input
    requires if |means| >= colorCount then colors == means[..colorCount]
             else |means| <= |colors| && colors[..|means|] == means &&
                  forall j | |means| <= j < |colors| :: colors[j] in extra
    ensures forall j | 0 <= j < |colors| :: InBoundingBox(colors[j], input)
  {
    forall j | 0 <= j < |colors| ensures InBoundingBox(colors[j], input) {
      if j < |means| {
        assert colors[j] == means[j];
        assert means[j] in means;
      } else {
        MemberInBox(colors[j], input);
      }
    }
  }

  lemma {:induction false} EmptyQueueHasNoMeans(buckets: seq<seq<Rgb>>)
    requires Flatten(buckets) == []
    ensures MeansOf(buckets) == []
  {
    if buckets != [] {
      var init := buckets[..|buckets| - 1];
      FlattenAppend(init, [buckets[|buckets| - 1]]);
      assert buckets == init + [buckets[|buckets| - 1]];
      assert Flatten([buckets[|buckets| - 1]]) == buckets[|buckets| - 1] + Flatten([]);
      EmptyQueueHasNoMeans(init);
    }
  }

  /**
   * The split loop does not end for every input: one pixel with
   * `colorCount >= 3` alternates between `[[p]]` and `[[], [p]]` while the
   * loop condition keeps holding.
   */
  lemma SinglePixelCycles(p: Rgb, colorCount: nat)
    requires colorCount >= 3
    ensures KeepSplitting([[p]], colorCount) && SplitStep([[p]]) == [[], [p]]
    ensures KeepSplitting([[], [p]], colorCount) && SplitStep([[], [p]]) == [[p]]
  {
    assert SortBy([p], SplitChannel([p])) == [p];
  }

  lemma {:induction false} SinglePixelRounds(p: Rgb, colorCount: nat, m: nat)
    requires colorCount >= 3
    ensures SplitRounds([[p]], m, colorCount) == [[p]] || SplitRounds([[p]], m, colorCount) == [[], [p]]
  {
    if m > 0 {
      SinglePixelRounds(p, colorCount, m - 1);
      SinglePixelCycles(p, colorCount);
    }
  }

  /** Hence on one pixel with `colorCount >= 3` the loop never ends. */
  lemma SinglePixelNeverEnds(p: Rgb, colorCount: nat)
    requires colorCount >= 3
    ensures !SplitEnds([p], colorCount)
  {
    forall m: nat ensures KeepSplitting(SplitRounds([[p]], m, colorCount), colorCount) {
      SinglePixelRounds(p, colorCount, m);
    }
  }

  /** Sorting copies of one pixel leaves them as they are. */
  lemma SortEqual(p: Rgb, ch: Channel)
    ensures SortBy([p], ch) == [p] && SortBy([p, p], ch) == [p, p] && SortBy([p, p, p], ch) == [p, p, p]
  {
    assert [p, p][..1] == [p] && [p, p, p][..2] == [p, p];
    assert Insert([p], p, ch) == [p] + Insert([], p, ch);
    assert Insert([p, p], p, ch) == [p] + Insert([p], p, ch);
  }

  /** A bucket of one, two or three copies of a pixel is cut into copies of it. */
  lemma EqualHalves(p: Rgb)
    ensures Halves([p]) == ([], [p])
    ensures Halves([p, p]) == ([p], [p])
    ensures Halves([p, p, p]) == ([p], [p, p])
  {
    SortEqual(p, SplitChannel([p]));
    SortEqual(p, SplitChannel([p, p]));
    SortEqual(p, SplitChannel([p, p, p]));
    HalvesOfSorted([p]);
    HalvesOfSorted([p, p]);
    HalvesOfSorted([p, p, p]);
    assert [p, p][..1] == [p] && [p, p][1..] == [p];
    assert [p, p, p][..1] == [p] && [p, p, p][1..] == [p, p];
  }

  /** A bucket its sort leaves unchanged is cut where it stands. */
  lemma HalvesOfSorted(bucket: seq<Rgb>)
    requires SortBy(bucket, SplitChannel(bucket)) == bucket
    ensures Halves(bucket) == (bucket[..|bucket| / 2], bucket[|bucket| / 2..])
  {
  }

  /**
   * Fewer pixels than `colorCount` do not always make the loop run forever:
   * three equal pixels and `colorCount == 5` stop after six turns, with two
   * empty buckets among the five.
   */
  lemma ThreePixelsEnd(p: Rgb)
    ensures SplitRounds([[p, p, p]], 6, 5) == [[p], [], [p], [], [p]]
    ensures SplitEnds([p, p, p], 5)
  {
    EqualHalves(p);
    assert SplitRounds([[p, p, p]], 1, 5) == [[p], [p, p]];
    assert SplitRounds([[p, p, p]], 2, 5) == [[p, p], [], [p]];
    assert SplitRounds([[p, p, p]], 3, 5) == [[], [p], [p], [p]];
    assert SplitRounds([[p, p, p]], 4, 5) == [[p], [p], [p]];
    assert SplitRounds([[p, p, p]], 5, 5) == [[p], [p], [], [p]];
    assert !KeepSplitting(SplitRounds([[p, p, p]], 6, 5), 5);
  }
}
