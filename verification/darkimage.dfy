/**
 * The dark-frame test `VideoThumbnailer::isDarkImage`: walk the histogram's
 * keys in ascending order while they are below 15, add up their counts, and
 * call the frame dark when that sum exceeds half the pixel count.
 */
module DarkImage {

  import opened Wrappers
  import opened Frame
  import opened Histogram

  /** Luminances below this are dark. */
  const DarkThreshold: int := 15

  /**
   * The least key of `h` at or after `from`: `begin()` is `NextKey(h, 0)` and
   * `++iter` from key `k` is `NextKey(h, k + 1)`; `None` is `end()`.
   */
  function NextKey(h: Histogram, from: nat): (r: Option<byte>)
    decreases 256 - from
    ensures r.Some? ==> r.value in h && from <= r.value as int
    ensures r.Some? ==> forall k: byte :: from <= k as int < r.value as int ==> k !in h
    ensures r.None? <==> forall k: byte :: from <= k as int ==> k !in h
  {
    if from >= 256 then None
    else if from as byte in h then Some(from as byte)
    else NextKey(h, from + 1)
  }

  /** C++ `int` division, which truncates toward zero (Dafny's `/` is Euclidean). */
  function TruncatingDiv(a: int, b: int): (q: int)
    requires b > 0
    ensures a >= 0 ==> q * b <= a < q * b + b
    ensures a < 0 ==> q * b - b < a <= q * b
  {
    if a >= 0 then a / b else -((-a) / b)
  }

  /** The histogram holds a key of 15 or more, at which the unchecked scan stops. */
  predicate HasStopKey(h: Histogram)
  {
    exists k: byte :: k in h && k as int >= DarkThreshold
  }

  /** Keys in `[a, b)` absent from `h` add nothing to a sum that ends at `b`. */
  lemma {:induction false} SumCountsGap(h: Histogram, lo: int, a: int, b: int)
    requires lo <= a <= b
    requires forall k: byte :: a <= k as int < b ==> k !in h
    ensures SumCounts(h, lo, b) == SumCounts(h, lo, a)
    decreases b - a
  {
    if b > a {
      SumCountsGap(h, lo, a, b - 1);
      if 0 <= b - 1 < 256 {
        assert (b - 1) as byte !in h;
      }
    }
  }

  /**
   * `isDarkImage` as written. The loop stops only at a key >= 15: there is no
   * `iter != histogram.end()` test, so the histogram must hold such a key.
   */
  method IsDarkImage(numPixels: int, histogram: Histogram) returns (dark: bool)
    requires HasStopKey(histogram)
    ensures dark <==> SumCounts(histogram, 0, DarkThreshold) > TruncatingDiv(numPixels, 2)
  {
    ghost var stop: byte :| stop in histogram && stop as int >= DarkThreshold;
    var darkPixels := 0;
    ghost var scanned := 0;
    var iter := NextKey(histogram, 0);
    while iter.value as int < DarkThreshold
      invariant 0 <= scanned <= DarkThreshold
      invariant iter == NextKey(histogram, scanned) && iter.Some?
      invariant darkPixels == SumCounts(histogram, 0, scanned)
      decreases 256 - scanned
    {
      SumCountsGap(histogram, 0, scanned, iter.value as int);
      darkPixels := darkPixels + histogram[iter.value];
      scanned := iter.value as int + 1;
      iter := NextKey(histogram, iter.value as int + 1);
    }
    SumCountsGap(histogram, 0, scanned, DarkThreshold);
    dark := darkPixels > TruncatingDiv(numPixels, 2);
  }

  /**
   * `isDarkImage` with the end-of-map test added: the loop also stops at
   * `end()`, so every histogram is accepted.
   */
  method IsDarkImageChecked(numPixels: int, histogram: Histogram) returns (dark: bool)
    ensures dark <==> SumCounts(histogram, 0, DarkThreshold) > TruncatingDiv(numPixels, 2)
  {
    var darkPixels := 0;
    ghost var scanned := 0;
    var iter := NextKey(histogram, 0);
    while iter.Some? && iter.value as int < DarkThreshold
      invariant 0 <= scanned <= DarkThreshold
      invariant iter == NextKey(histogram, scanned)
      invariant darkPixels == SumCounts(histogram, 0, scanned)
      decreases 256 - scanned
    {
      SumCountsGap(histogram, 0, scanned, iter.value as int);
      darkPixels := darkPixels + histogram[iter.value];
      scanned := iter.value as int + 1;
      iter := NextKey(histogram, iter.value as int + 1);
    }
    SumCountsGap(histogram, 0, scanned, DarkThreshold);
    dark := darkPixels > TruncatingDiv(numPixels, 2);
  }

  /**
   * The histogram of an all-dark frame, {0: 100}: `begin()` is key 0, below
   * 15, and `++iter` from it is already `end()`, which the loop condition of
   * the unchecked scan then dereferences.
   */
  lemma AllDarkHistogramReachesEnd()
    ensures NextKey(map[0 := 100], 0) == Some(0)
    ensures NextKey(map[0 := 100], 1) == None
    ensures !HasStopKey(map[0 := 100])
  {
  }

  /**
   * Counting the pixel luminances `lums` into an empty histogram (as for one
   * frame): the dark sum is the number of luminances below 15, and the
   * unchecked scan's precondition holds exactly when some luminance is 15 or more.
   */
  lemma DarkPixelsOfCounted(lums: seq<byte>)
    ensures SumCounts(AddAll(map[], lums), 0, DarkThreshold) == CountInRange(lums, 0, DarkThreshold)
    ensures HasStopKey(AddAll(map[], lums)) <==> CountInRange(lums, DarkThreshold, 256) > 0
  {
    SumCountsAddAll(map[], lums, 0, DarkThreshold);
    SumCountsEmpty(0, DarkThreshold);
    AddAllKeys(map[], lums);
    BrightPixelWitness(lums);
    var h := AddAll(map[], lums);
    if HasStopKey(h) {
      var k: byte :| k in h && k as int >= DarkThreshold;
      assert k in lums;
    }
    if exists k: byte :: k in lums && k as int >= DarkThreshold {
      var k: byte :| k in lums && k as int >= DarkThreshold;
      assert k in h;
    }
  }

  /** Some luminance of `lums` is 15 or more exactly when their count is positive. */
  lemma {:induction false} BrightPixelWitness(lums: seq<byte>)
    ensures (exists k: byte :: k in lums && k as int >= DarkThreshold) <==> CountInRange(lums, DarkThreshold, 256) > 0
  {
    if |lums| > 0 {
      var init := lums[..|lums| - 1];
      var last := lums[|lums| - 1];
      BrightPixelWitness(init);
      assert lums == init + [last];
      if last as int >= DarkThreshold {
        assert last in lums;
      } else {
        assert forall k: byte :: k in lums <==> k in init || k == last;
      }
    }
  }
}
