/**
 * `VideoThumbnailer::generateThumbnail` and `writePng`: after the decoder
 * has produced a scaled frame, point at each row of it and hand the rows,
 * with the freedesktop thumbnail text keys, to the PNG writer.
 */
module Thumbnailer {

  import opened Wrappers
  import opened Frame
  import MimeType

  /**
   * Offsets of the rows of a frame, one per row, `lineSize` bytes apart, so
   * that each row pointer skips the previous row's padding.
   */
  method RowOffsets(frame: VideoFrame) returns (rowOffsets: seq<int>)
    ensures |rowOffsets| == Rows(frame)
    ensures forall i :: 0 <= i < |rowOffsets| ==> rowOffsets[i] == i * frame.lineSize
    ensures frame.lineSize > 0 ==> forall i, j :: 0 <= i < j < |rowOffsets| ==> rowOffsets[i] < rowOffsets[j]
    ensures WellFormed(frame) && Columns(frame) > 0 ==>
      forall i :: 0 <= i < |rowOffsets| ==> 0 <= rowOffsets[i] && rowOffsets[i] + 3 * frame.width <= |frame.frameData|
  {
    rowOffsets := [];
    var i := 0;
    while i < frame.height
      invariant 0 <= i <= Rows(frame) && |rowOffsets| == i
      invariant forall k :: 0 <= k < i ==> rowOffsets[k] == k * frame.lineSize
    {
      rowOffsets := rowOffsets + [i * frame.lineSize];
      i := i + 1;
    }
    if frame.lineSize > 0 {
      forall i, j | 0 <= i < j < |rowOffsets| ensures rowOffsets[i] < rowOffsets[j] {
        RowsAreOrdered(frame.lineSize, i, j);
      }
    }
    if WellFormed(frame) && Columns(frame) > 0 {
      forall i | 0 <= i < |rowOffsets|
        ensures 0 <= rowOffsets[i] && rowOffsets[i] + 3 * frame.width <= |frame.frameData|
      {
        PixelByteInBounds(frame, i, frame.width - 1, 2);
      }
    }
  }

  /** Rows further down start at higher offsets when rows have positive length. */
  lemma RowsAreOrdered(lineSize: int, i: nat, j: nat)
    requires lineSize > 0 && i < j
    ensures i * lineSize < j * lineSize
  {
    assert j * lineSize == i * lineSize + (j - i) * lineSize;
  }

  /** What `stat` reports about the video file, as the decimal strings written to the PNG. */
  datatype FileStat = FileStat(mtime: string, size: string)

  /** The calls made on the PNG writer, in order. */
  datatype WriterCall =
    | CreateWriter(outputFile: string)
    | SetPngText(key: string, value: string)
    | WriteFrame(rowOffsets: seq<int>, width: int, height: int)

  /** The writer calls made, and the message of the exception thrown, if one was. */
  datatype WriteOutcome = WriteOutcome(calls: seq<WriterCall>, thrown: Option<string>)

  const MTimeKey := "Thumb::MTime"
  const SizeKey := "Thumb::Size"
  const MimetypeKey := "Thumb::Mimetype"
  const UriKey := "Thumb::URI"
  const LengthKey := "Thumb::Movie::Length"
  const StatError := "Could not stat file"

  /** The text chunks set by `calls`, as (key, value) pairs in the order they are set. */
  function TextChunks(calls: seq<WriterCall>): seq<(string, string)>
  {
    if |calls| == 0 then []
    else (if calls[0].SetPngText? then [(calls[0].key, calls[0].value)] else []) + TextChunks(calls[1..])
  }

  /** How many frames `calls` writes. */
  function FrameWrites(calls: seq<WriterCall>): nat
  {
    if |calls| == 0 then 0
    else (if calls[0].WriteFrame? then 1 else 0) + FrameWrites(calls[1..])
  }

  /** The text chunks and frame writes of `a + b` are those of `a`, then of `b`. */
  lemma {:induction false} CallsAppend(a: seq<WriterCall>, b: seq<WriterCall>)
    ensures TextChunks(a + b) == TextChunks(a) + TextChunks(b)
    ensures FrameWrites(a + b) == FrameWrites(a) + FrameWrites(b)
  {
    if |a| > 0 {
      CallsAppend(a[1..], b);
      assert (a + b)[1..] == a[1..] + b;
    } else {
      assert a + b == b;
    }
  }

  /** The text chunks and frame writes of a single call. */
  lemma CallsSingleton(c: WriterCall)
    ensures TextChunks([c]) == if c.SetPngText? then [(c.key, c.value)] else []
    ensures FrameWrites([c]) == if c.WriteFrame? then 1 else 0
  {
    assert [c][1..] == [];
  }

  /** The Mimetype chunk, present only for a non-empty MIME type. */
  function MimetypeChunk(mimeType: string): seq<(string, string)>
  {
    if mimeType != "" then [(MimetypeKey, mimeType)] else []
  }

  /** The metadata `writePng` sets, in order: MTime, Size, Mimetype when known, URI, Movie::Length. */
  function MetadataChunks(mtime: string, size: string, mimeType: string, uri: string, length: string): seq<(string, string)>
  {
    [(MTimeKey, mtime), (SizeKey, size)] + MimetypeChunk(mimeType) + [(UriKey, uri), (LengthKey, length)]
  }

  /** One `setPngText` call per chunk, in order. */
  function SetAll(chunks: seq<(string, string)>): (calls: seq<WriterCall>)
    ensures |calls| == |chunks|
    ensures TextChunks(calls) == chunks && FrameWrites(calls) == 0
  {
    if |chunks| == 0 then []
    else
      var calls := [SetPngText(chunks[0].0, chunks[0].1)] + SetAll(chunks[1..]);
      assert calls[1..] == SetAll(chunks[1..]);
      calls
  }

  /**
   * The writer calls of `writePng` once `stat` has succeeded: the writer's
   * creation, one `setPngText` per metadata chunk, and the frame, written
   * once and last; no other call.
   */
  function CallsAfterStat(outputFile: string, videoFileName: string, frame: VideoFrame, rowOffsets: seq<int>,
                          info: FileStat, durationText: string): (calls: seq<WriterCall>)
    ensures |calls| > 1 && calls[0] == CreateWriter(outputFile)
    ensures calls[|calls| - 1] == WriteFrame(rowOffsets, frame.width, frame.height)
    ensures FrameWrites(calls) == 1
    ensures TextChunks(calls) ==
      MetadataChunks(info.mtime, info.size, MimeType.GetMimeType(videoFileName), videoFileName, durationText)
    ensures |calls| ==
      |MetadataChunks(info.mtime, info.size, MimeType.GetMimeType(videoFileName), videoFileName, durationText)| + 2
  {
    var chunks := MetadataChunks(info.mtime, info.size, MimeType.GetMimeType(videoFileName), videoFileName, durationText);
    var create, texts, write := CreateWriter(outputFile), SetAll(chunks), WriteFrame(rowOffsets, frame.width, frame.height);
    CallsSingleton(create);
    CallsSingleton(write);
    CallsAppend([create], texts);
    CallsAppend([create] + texts, [write]);
    assert [] + chunks + [] == chunks;
    [create] + texts + [write]
  }

  /**
   * `writePng`: construct the writer on the output file, then stat the
   * video file. A failed stat throws before any text is set or any frame is
   * written; otherwise the calls are those of `CallsAfterStat`.
   */
  function WritePng(outputFile: string, videoFileName: string, frame: VideoFrame, rowOffsets: seq<int>,
                    stat: Option<FileStat>, durationText: string): (outcome: WriteOutcome)
    ensures |outcome.calls| > 0 && outcome.calls[0] == CreateWriter(outputFile)
    ensures stat.None? ==> outcome.thrown == Some(StatError) && |outcome.calls| == 1
    ensures stat.None? ==> TextChunks(outcome.calls) == [] && FrameWrites(outcome.calls) == 0
    ensures stat.Some? ==> outcome.thrown.None?
    ensures stat.Some? ==> outcome.calls[|outcome.calls| - 1] == WriteFrame(rowOffsets, frame.width, frame.height)
    ensures stat.Some? ==> FrameWrites(outcome.calls) == 1
    ensures stat.Some? ==>
      TextChunks(outcome.calls) ==
        MetadataChunks(stat.value.mtime, stat.value.size, MimeType.GetMimeType(videoFileName), videoFileName, durationText)
    ensures stat.Some? ==>
      |outcome.calls| ==
        |MetadataChunks(stat.value.mtime, stat.value.size, MimeType.GetMimeType(videoFileName), videoFileName, durationText)| + 2
  {
    match stat
    case None =>
      CallsSingleton(CreateWriter(outputFile));
      WriteOutcome([CreateWriter(outputFile)], Some(StatError))
    case Some(info) =>
      WriteOutcome(CallsAfterStat(outputFile, videoFileName, frame, rowOffsets, info, durationText), None)
  }

  /** Each call sets at most one chunk. */
  lemma {:induction false} TextChunksAtMost(calls: seq<WriterCall>)
    ensures |TextChunks(calls)| <= |calls|
  {
    if |calls| > 0 {
      TextChunksAtMost(calls[1..]);
    }
  }

  /** Calls that set as many chunks as there are calls are one `setPngText` per chunk. */
  lemma {:induction false} OnlyTextCalls(calls: seq<WriterCall>)
    requires |TextChunks(calls)| == |calls|
    ensures calls == SetAll(TextChunks(calls))
  {
    if |calls| > 0 {
      TextChunksAtMost(calls[1..]);
      assert calls[0].SetPngText?;
      OnlyTextCalls(calls[1..]);
      assert TextChunks(calls)[1..] == TextChunks(calls[1..]);
    }
  }

  /**
   * The success-path contract of `writePng` fixes the whole call list: any
   * calls that start with the writer's creation, end with the frame, set
   * `chunks` and number `|chunks| + 2` are creation, one `setPngText` per
   * chunk in order, and the frame.
   */
  lemma {:induction false} SuccessContractFixesCalls(calls: seq<WriterCall>, chunks: seq<(string, string)>,
                                                     outputFile: string, rowOffsets: seq<int>, width: int, height: int)
    requires |calls| > 0 && calls[0] == CreateWriter(outputFile)
    requires calls[|calls| - 1] == WriteFrame(rowOffsets, width, height)
    requires TextChunks(calls) == chunks && |calls| == |chunks| + 2
    ensures calls == [CreateWriter(outputFile)] + SetAll(chunks) + [WriteFrame(rowOffsets, width, height)]
  {
    var middle := calls[1..|calls| - 1];
    assert calls == [calls[0]] + middle + [calls[|calls| - 1]];
    CallsSingleton(calls[0]);
    CallsSingleton(calls[|calls| - 1]);
    CallsAppend([calls[0]], middle);
    CallsAppend([calls[0]] + middle, [calls[|calls| - 1]]);
    assert TextChunks(middle) == chunks;
    OnlyTextCalls(middle);
  }

  /** Keys of the metadata list are pairwise distinct; Mimetype is among them exactly when known. */
  lemma MetadataChunkKeys(mtime: string, size: string, mimeType: string, uri: string, length: string)
    ensures var chunks := MetadataChunks(mtime, size, mimeType, uri, length);
      && |chunks| == (if mimeType != "" then 5 else 4)
      && (forall i, j :: 0 <= i < j < |chunks| ==> chunks[i].0 != chunks[j].0)
      && ((exists i :: 0 <= i < |chunks| && chunks[i].0 == MimetypeKey) <==> mimeType != "")
  {
    var chunks := MetadataChunks(mtime, size, mimeType, uri, length);
    if mimeType != "" {
      assert chunks == [(MTimeKey, mtime), (SizeKey, size), (MimetypeKey, mimeType), (UriKey, uri), (LengthKey, length)];
      assert chunks[2].0 == MimetypeKey;
    } else {
      assert chunks == [(MTimeKey, mtime), (SizeKey, size), (UriKey, uri), (LengthKey, length)];
    }
  }

  /**
   * Metadata of a successful write: five text chunks with pairwise distinct
   * keys when the extension has a MIME type, four (no Mimetype) otherwise.
   */
  lemma MetadataKeys(outputFile: string, videoFileName: string, frame: VideoFrame, rowOffsets: seq<int>,
                     info: FileStat, durationText: string)
    ensures var chunks := TextChunks(WritePng(outputFile, videoFileName, frame, rowOffsets, Some(info), durationText).calls);
      && |chunks| == (if MimeType.GetMimeType(videoFileName) != "" then 5 else 4)
      && (forall i, j :: 0 <= i < j < |chunks| ==> chunks[i].0 != chunks[j].0)
      && ((exists i :: 0 <= i < |chunks| && chunks[i].0 == MimetypeKey) <==> MimeType.GetMimeType(videoFileName) != "")
  {
    var mimeType := MimeType.GetMimeType(videoFileName);
    var chunks := TextChunks(WritePng(outputFile, videoFileName, frame, rowOffsets, Some(info), durationText).calls);
    assert chunks == MetadataChunks(info.mtime, info.size, mimeType, videoFileName, durationText);
    MetadataChunkKeys(info.mtime, info.size, mimeType, videoFileName, durationText);
  }

  /** What `seek(getDuration() / 10)` did: moved the decoder, or threw with a message. */
  datatype SeekResult = Seeked | SeekFailed(message: string)

  /**
   * `generateThumbnail`, from the seek on. A failed seek is caught and its
   * message logged, and generation goes on with the frame the decoder then
   * returns; the row offsets of that frame go to `writePng`.
   */
  method GenerateThumbnail(outputFile: string, videoFileName: string, seek: SeekResult, frame: VideoFrame,
                           stat: Option<FileStat>, durationText: string)
    returns (log: seq<string>, outcome: WriteOutcome)
    ensures log == if seek.SeekFailed? then [seek.message] else []
    ensures outcome == WritePng(outputFile, videoFileName, frame, seq(Rows(frame), i => i * frame.lineSize), stat, durationText)
  {
    log := [];
    match seek {
      case SeekFailed(message) =>
        log := log + [message];
      case Seeked =>
    }
    var rowOffsets := RowOffsets(frame);
    assert rowOffsets == seq(Rows(frame), i => i * frame.lineSize);
    outcome := WritePng(outputFile, videoFileName, frame, rowOffsets, stat, durationText);
  }
}
