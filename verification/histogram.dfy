/**
 * The luminance histogram of a frame (`VideoThumbnailer::generateHistogram`):
 * a map from an 8-bit luminance to the number of pixels having it.
 */
module Histogram {

  import opened Frame

  /** `std::map<byte, int>`; a key that is absent counts 0. */
  type Histogram = map<byte, int>

  /**
   * Luminance of one pixel with the weights 0.299, 0.587 and 0.114, truncated
   * to a byte. Computed here in exact integer arithmetic.
   */
  function Luminance(r: byte, g: byte, b: byte): byte
  {
    ((299 * r as int + 587 * g as int + 114 * b as int) / 1000) as byte
  }

  /** Luminance of pixel `c` of row `i`, from the three bytes at `i * lineSize + 3 * c`. */
  function PixelLuminance(frame: VideoFrame, i: nat, c: nat): byte
    requires WellFormed(frame) && i < Rows(frame) && c < Columns(frame)
  {
    PixelByteInBounds(frame, i, c, 2);
    var p := i * frame.lineSize + 3 * c;
    Luminance(frame.frameData[p], frame.frameData[p + 1], frame.frameData[p + 2])
  }

  /** Luminances of the first `n` pixels of row `i`, left to right. */
  function RowLuminances(frame: VideoFrame, i: nat, n: nat): (lums: seq<byte>)
    requires WellFormed(frame) && i < Rows(frame) && n <= Columns(frame)
    ensures |lums| == n
  {
    if n == 0 then [] else RowLuminances(frame, i, n - 1) + [PixelLuminance(frame, i, n - 1)]
  }

  /** The `c`-th luminance of row `i` is that of pixel `c` of row `i`. */
  lemma {:induction false} RowLuminancesAt(frame: VideoFrame, i: nat, n: nat, c: nat)
    requires WellFormed(frame) && i < Rows(frame) && n <= Columns(frame)
    requires c < n
    ensures RowLuminances(frame, i, n)[c] == PixelLuminance(frame, i, c)
  {
    if c < n - 1 {
      RowLuminancesAt(frame, i, n - 1, c);
    }
  }

  /** Luminances of every pixel of the first `rows` rows, in scan order. */
  function FrameLuminances(frame: VideoFrame, rows: nat): (lums: seq<byte>)
    requires WellFormed(frame) && rows <= Rows(frame)
    ensures |lums| == rows * Columns(frame)
  {
    if rows == 0 then []
    else FrameLuminances(frame, rows - 1) + RowLuminances(frame, rows - 1, Columns(frame))
  }

  /** Pixel `c` of row `r` sits at position `RowStart(frame, r) + c` of the scan-order luminances. */
  lemma {:induction false} FrameLuminancesAt(frame: VideoFrame, rows: nat, r: nat, c: nat)
    requires WellFormed(frame) && rows <= Rows(frame)
    requires r < rows && c < Columns(frame)
    ensures RowStart(frame, r) + c < |FrameLuminances(frame, rows)|
    ensures FrameLuminances(frame, rows)[RowStart(frame, r) + c] == PixelLuminance(frame, r, c)
  {
    var prefix := FrameLuminances(frame, rows - 1);
    var row := RowLuminances(frame, rows - 1, Columns(frame));
    assert FrameLuminances(frame, rows) == prefix + row;
    if r < rows - 1 {
      FrameLuminancesAt(frame, rows - 1, r, c);
    } else {
      assert RowStart(frame, r) == |prefix|;
      RowLuminancesAt(frame, r, Columns(frame), c);
    }
  }

  /** Where row `r`'s luminances begin in scan order: after `r` full rows. */
  function RowStart(frame: VideoFrame, r: nat): nat
  {
    r * Columns(frame)
  }

  /** `histogram[k]` read without inserting: 0 for an absent key or a `k` outside 0..255. */
  function CountOf(h: Histogram, k: int): int
  {
    if 0 <= k < 256 && k as byte in h then h[k as byte] else 0
  }

  /** `histogram[x] += 1`: an absent key is first inserted with count 0. */
  function Increment(h: Histogram, x: byte): Histogram
  {
    h[x := CountOf(h, x as int) + 1]
  }

  /** An increment adds `x` as a key, raises bucket `x` by one and leaves every other bucket alone. */
  lemma IncrementCount(h: Histogram, x: byte, k: int)
    ensures Increment(h, x).Keys == h.Keys + {x}
    ensures CountOf(Increment(h, x), k) == CountOf(h, k) + (if k == x as int then 1 else 0)
  {
  }

  /** The histogram `h` after one increment per luminance of `lums`, in order. */
  function AddAll(h: Histogram, lums: seq<byte>): Histogram
  {
    if |lums| == 0 then h else Increment(AddAll(h, lums[..|lums| - 1]), lums[|lums| - 1])
  }

  /** Sum of the counts of the keys `lo <= k < hi`. */
  function SumCounts(h: Histogram, lo: int, hi: int): int
    decreases hi - lo
  {
    if hi <= lo then 0 else SumCounts(h, lo, hi - 1) + CountOf(h, hi - 1)
  }

  /** Sum of all counts of `h`. */
  function Total(h: Histogram): int
  {
    SumCounts(h, 0, 256)
  }

  /** Number of the luminances of `lums` in `lo <= l < hi`. */
  function CountInRange(lums: seq<byte>, lo: int, hi: int): nat
  {
    if |lums| == 0 then 0
    else CountInRange(lums[..|lums| - 1], lo, hi) + (if lo <= lums[|lums| - 1] as int < hi then 1 else 0)
  }

  lemma AddAllSnoc(h: Histogram, lums: seq<byte>, x: byte)
    ensures AddAll(h, lums + [x]) == Increment(AddAll(h, lums), x)
  {
    assert (lums + [x])[..|lums|] == lums;
  }

  /** One increment adds one to the sum over any key range holding its key, and nothing otherwise. */
  lemma {:induction false} SumCountsIncrement(h: Histogram, x: byte, lo: int, hi: int)
    ensures SumCounts(Increment(h, x), lo, hi) == SumCounts(h, lo, hi) + (if lo <= x as int < hi then 1 else 0)
    decreases hi - lo
  {
    if hi > lo {
      SumCountsIncrement(h, x, lo, hi - 1);
      IncrementCount(h, x, hi - 1);
    }
  }

  /** Counting `lums` into `h` adds to each key range the number of luminances in it. */
  lemma {:induction false} SumCountsAddAll(h: Histogram, lums: seq<byte>, lo: int, hi: int)
    ensures SumCounts(AddAll(h, lums), lo, hi) == SumCounts(h, lo, hi) + CountInRange(lums, lo, hi)
  {
    if |lums| > 0 {
      var init := lums[..|lums| - 1];
      SumCountsAddAll(h, init, lo, hi);
      SumCountsIncrement(AddAll(h, init), lums[|lums| - 1], lo, hi);
    }
  }

  /** Every luminance is a byte, so the full key range counts all of them. */
  lemma {:induction false} CountInRangeAll(lums: seq<byte>)
    ensures CountInRange(lums, 0, 256) == |lums|
  {
    if |lums| > 0 {
      CountInRangeAll(lums[..|lums| - 1]);
    }
  }

  /** Bucket `l` grows by the number of occurrences of `l` in `lums`. */
  lemma {:induction false} AddAllBucket(h: Histogram, lums: seq<byte>, l: byte)
    ensures CountOf(AddAll(h, lums), l as int) == CountOf(h, l as int) + multiset(lums)[l]
  {
    if |lums| > 0 {
      var init := lums[..|lums| - 1];
      AddAllBucket(h, init, l);
      IncrementCount(AddAll(h, init), lums[|lums| - 1], l as int);
      assert lums == init + [lums[|lums| - 1]];
    }
  }

  /** Counting `lums` into `h` adds exactly the luminances of `lums` as keys. */
  lemma {:induction false} AddAllKeys(h: Histogram, lums: seq<byte>)
    ensures AddAll(h, lums).Keys == h.Keys + set l | l in lums
  {
    if |lums| > 0 {
      var init := lums[..|lums| - 1];
      AddAllKeys(h, init);
      IncrementCount(AddAll(h, init), lums[|lums| - 1], 0);
      assert lums == init + [lums[|lums| - 1]];
    }
  }

  /** An empty histogram sums to 0 over any range. */
  lemma {:induction false} SumCountsEmpty(lo: int, hi: int)
    ensures SumCounts(map[], lo, hi) == 0
    decreases hi - lo
  {
    if hi > lo {
      SumCountsEmpty(lo, hi - 1);
    }
  }

  /**
   * Counting `lums` into `h`: the total grows by |lums|, each bucket by the
   * occurrences of its luminance, and the keys by the luminances seen.
   */
  lemma CountingPreservesPixels(h: Histogram, lums: seq<byte>)
    ensures Total(AddAll(h, lums)) == Total(h) + |lums|
    ensures forall l: byte :: CountOf(AddAll(h, lums), l as int) == CountOf(h, l as int) + multiset(lums)[l]
    ensures AddAll(h, lums).Keys == h.Keys + set l | l in lums
  {
    SumCountsAddAll(h, lums, 0, 256);
    CountInRangeAll(lums);
    forall l: byte ensures CountOf(AddAll(h, lums), l as int) == CountOf(h, l as int) + multiset(lums)[l] {
      AddAllBucket(h, lums, l);
    }
    AddAllKeys(h, lums);
  }

  /** Counting a whole frame adds width * height to the total. */
  lemma FrameTotal(h: Histogram, frame: VideoFrame)
    requires WellFormed(frame)
    ensures Total(AddAll(h, FrameLuminances(frame, Rows(frame)))) == Total(h) + Rows(frame) * Columns(frame)
  {
    var lums := FrameLuminances(frame, Rows(frame));
    SumCountsAddAll(h, lums, 0, 256);
    CountInRangeAll(lums);
  }

  /** The three bytes at `p == i * lineSize + 3 * c` are in the buffer and give pixel `c` of row `i`. */
  lemma PixelAt(frame: VideoFrame, i: nat, c: nat, p: int)
    requires WellFormed(frame) && i < Rows(frame) && c < Columns(frame)
    requires p == i * frame.lineSize + 3 * c
    ensures 0 <= p && p + 2 < |frame.frameData|
    ensures Luminance(frame.frameData[p], frame.frameData[p + 1], frame.frameData[p + 2]) == PixelLuminance(frame, i, c)
  {
    PixelByteInBounds(frame, i, c, 2);
  }

  /** Counting `a + b` is counting `a`, then `b`. */
  lemma {:induction false} AddAllAppend(h: Histogram, a: seq<byte>, b: seq<byte>)
    ensures AddAll(h, a + b) == AddAll(AddAll(h, a), b)
  {
    if |b| > 0 {
      var init := b[..|b| - 1];
      AddAllAppend(h, a, init);
      assert (a + b)[..|a + b| - 1] == a + init;
    } else {
      assert a + b == a;
    }
  }

  /**
   * `generateHistogram`: for every row `i < height` (starting at
   * `pixelIndex = i * lineSize`) and every pixel `j / 3` with `j < width * 3`
   * in steps of 3, increment the bucket of the pixel's luminance. The
   * histogram passed in is added to, not cleared.
   */
  method GenerateHistogram(frame: VideoFrame, histogram: Histogram) returns (updated: Histogram)
    requires WellFormed(frame)
    ensures updated == AddAll(histogram, FrameLuminances(frame, Rows(frame)))
    ensures Total(updated) == Total(histogram) + Rows(frame) * Columns(frame)
  {
    updated := histogram;
    var i := 0;
    while i < frame.height
      invariant 0 <= i <= Rows(frame)
      invariant updated == AddAll(histogram, FrameLuminances(frame, i))
    {
      ghost var rowStart := updated;
      var pixelIndex := i * frame.lineSize;
      var j := 0;
      ghost var c := 0;
      while j < frame.width * 3
        invariant 0 <= c <= Columns(frame) && j == 3 * c
        invariant updated == AddAll(rowStart, RowLuminances(frame, i, c))
      {
        PixelAt(frame, i, c, pixelIndex + j);
        var r := frame.frameData[pixelIndex + j];
        var g := frame.frameData[pixelIndex + j + 1];
        var b := frame.frameData[pixelIndex + j + 2];
        var luminance := Luminance(r, g, b);
        AddAllSnoc(rowStart, RowLuminances(frame, i, c), luminance);
        updated := Increment(updated, luminance);
        j, c := j + 3, c + 1;
      }
      AddAllAppend(histogram, FrameLuminances(frame, i), RowLuminances(frame, i, Columns(frame)));
      i := i + 1;
    }
    FrameTotal(histogram, frame);
  }
}
