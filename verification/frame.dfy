/**
 * A decoded video frame: `width` x `height` RGB pixels of three bytes each,
 * stored row after row, each row `lineSize` bytes long (a row may end in
 * padding beyond its 3 * width pixel bytes).
 */
module Frame {

  newtype byte = b: int | 0 <= b < 256

  datatype VideoFrame = VideoFrame(width: int, height: int, lineSize: int, frameData: seq<byte>)

  /** Number of rows a `for (i = 0; i < height; ++i)` loop visits. */
  function Rows(frame: VideoFrame): nat
  {
    if frame.height > 0 then frame.height else 0
  }

  /** Number of pixels a row loop over `j < width * 3` in steps of 3 visits. */
  function Columns(frame: VideoFrame): nat
  {
    if frame.width > 0 then frame.width else 0
  }

  /**
   * What the decoder guarantees of a non-empty frame: a row has room for its
   * pixels, and the buffer holds `height` rows.
   */
  predicate WellFormed(frame: VideoFrame)
  {
    Rows(frame) > 0 && Columns(frame) > 0 ==>
      3 * frame.width <= frame.lineSize && frame.height * frame.lineSize <= |frame.frameData|
  }

  /**
   * Channel `k` of pixel `c` in row `i` is at `i * lineSize + 3 * c + k`, inside
   * row `i` and so inside the buffer.
   */
  lemma PixelByteInBounds(frame: VideoFrame, i: nat, c: nat, k: nat)
    requires WellFormed(frame) && i < Rows(frame) && c < Columns(frame) && k < 3
    ensures i * frame.lineSize <= i * frame.lineSize + 3 * c + k < (i + 1) * frame.lineSize
    ensures (i + 1) * frame.lineSize <= |frame.frameData|
  {
    assert (i + 1) * frame.lineSize == i * frame.lineSize + frame.lineSize;
    assert (i + 1) * frame.lineSize <= frame.height * frame.lineSize by {
      assert frame.height * frame.lineSize == (i + 1) * frame.lineSize + (frame.height - i - 1) * frame.lineSize;
      assert (frame.height - i - 1) * frame.lineSize >= 0;
    }
  }
}
