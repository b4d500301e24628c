# VideoThumbnailer (ffmpegthumbnailer 1.0), modelled in Dafny

This project models the logic of `VideoThumbnailer` in ffmpegthumbnailer 1.0. That class turns one frame of a
video into a PNG thumbnail that carries the freedesktop.org thumbnail metadata. The model covers these parts:

- **File name to MIME type** (`extension.dfy`, `mimetype.dfy`).
  - `getExtension` returns everything after the last `.` of the file name, or the empty string when there is no `.`.
  - `getMimeType` runs that extension through a chain of `if`s in which the first match wins. The chain is modelled
    as an ordered table of branches (`MimeBranches`) and a first-match search over it. The second `"mp4"` branch can
    never be taken, and a lemma shows this.
- **Frame layout** (`frame.dfy`, `thumbnailer.dfy`).
  - A frame holds packed RGB24 bytes. Row `i` starts at byte `i * lineSize`, and `lineSize` may include padding.
  - `generateThumbnail` records one row offset per row. The model proves that these offsets lie inside the buffer
    of a well-formed frame of positive width.
- **Writing the PNG** (`thumbnailer.dfy`).
  - `writePng` is modelled as the ordered list of calls it makes on the PNG writer. When `stat` fails, the model
    records the exception it throws instead.
  - `generateThumbnail` is modelled from the seek onwards. A seek that fails is caught and logged, and the
    thumbnail is still written.
- **Luminance histogram** (`histogram.dfy`).
  - `generateHistogram` is modelled as the nested loop over rows and pixels that it is. It counts each pixel's
    luminance into a map from byte to count. A Dafny `map` has no order: the ascending key order of `std::map`
    enters the model through `DarkImage.NextKey`, which is how the dark-frame test walks the keys.
  - The method is proved equal to counting the luminances of all pixels in scan order. Counting is proved to add
    exactly `width * height` for non-negative sizes (`Rows × Columns`, the sizes clamped at 0, in general) to the histogram's total and to raise each bucket by that luminance's number of
    occurrences.
- **Dark-frame test** (`darkimage.dfy`).
  - `isDarkImage` walks the map's keys in ascending order while they are below 15 and sums their counts. It
    reports a dark frame when that sum exceeds half the pixel count, computed with C++ truncating division.
  - The loop has no end-of-map test (see Findings). The method as written therefore needs a key of at least 15 in
    the histogram. The corrected method does not.

The decoder (`MovieDecoder`), the PNG library, `stat` and `toString` are external. The model receives their
results as parameters: the decoded `VideoFrame`, the seek outcome, the `stat` result as rendered strings, and the
duration as a string.

## Model

| member | source | states |
|---|---|---|
| Extension.LastDot | tags/ffmpegthumbnailer-1.0/src/videothumbnailer.cpp:121-123 | `rfind('.')`: the result is the position of a `.` with no `.` after it, and it is absent exactly when the name has no `.` |
| Extension.GetExtension | tags/ffmpegthumbnailer-1.0/src/videothumbnailer.cpp:118-129 | with no `.` the extension is empty; otherwise it has no `.`, and the name is a prefix, a `.` and the extension |
| Extension.ExtensionAfterLastDot | tags/ffmpegthumbnailer-1.0/src/videothumbnailer.cpp:118-129 | for any prefix and any dot-free `ext`, the extension of `prefix + "." + ext` is exactly `ext` (the inverse of building a name) |
| MimeType.FirstMatch | tags/ffmpegthumbnailer-1.0/src/videothumbnailer.cpp:80-115 | an `if`/`else if` chain takes the first branch listing the extension: the least such index, and none exactly when no branch lists it |
| MimeType.MimeBranches | tags/ffmpegthumbnailer-1.0/src/videothumbnailer.cpp:80-111 | definition, no contract: the eight branches of the chain in source order, each with the extensions it tests and the MIME type it returns |
| MimeType.MimeTypeOf | tags/ffmpegthumbnailer-1.0/src/videothumbnailer.cpp:80-115 | the result is empty exactly when no branch lists the extension |
| MimeType.GetMimeType | tags/ffmpegthumbnailer-1.0/src/videothumbnailer.cpp:76-78 | a name without `.` has the empty MIME type; the case of a dotted name is stated by `MimeType.MimeTypeOfFileName` |
| MimeType.MimeTypeFromBranch | tags/ffmpegthumbnailer-1.0/src/videothumbnailer.cpp:80-111 | an extension listed in branch `i` and in no earlier branch gets branch `i`'s MIME type |
| MimeType.MimeTypeTable | tags/ffmpegthumbnailer-1.0/src/videothumbnailer.cpp:80-111 | each of the twelve listed extensions (avi, mpeg, mpg, mpe, vob, qt, mov, asf, asx, wm, mp4, flv) maps to the MIME type in the code, with mp4 mapping to video/x-ms-wmv |
| MimeType.UnlistedExtensionHasNoMimeType | tags/ffmpegthumbnailer-1.0/src/videothumbnailer.cpp:112-115 | any extension outside those twelve gets the empty MIME type |
| MimeType.ShadowedBranchNeverMatches | tags/ffmpegthumbnailer-1.0/src/videothumbnailer.cpp:100-107 | in a first-match chain, a branch whose extensions all occur in an earlier branch is never selected |
| MimeType.Mp4VideoMp4BranchIsDead | tags/ffmpegthumbnailer-1.0/src/videothumbnailer.cpp:100-107 | the second `"mp4"` branch is never taken, so no extension yields `video/mp4` |
| MimeType.MimeTypeOfFileName | tags/ffmpegthumbnailer-1.0/src/videothumbnailer.cpp:76-78 | for a name `prefix.ext` with a dot-free `ext`, the MIME type depends only on `ext` |
| MimeType.MatchingIsCaseSensitive | tags/ffmpegthumbnailer-1.0/src/videothumbnailer.cpp:100-103 | comparisons are exact: `MP4` has no MIME type while `mp4` gets video/x-ms-wmv |
| Frame.PixelByteInBounds | tags/ffmpegthumbnailer-1.0/src/videothumbnailer.cpp:135-140 | in a well-formed frame, the three bytes of pixel `c` of row `i` lie inside row `i`, and the row lies inside the buffer |
| Histogram.Luminance | tags/ffmpegthumbnailer-1.0/src/videothumbnailer.cpp:142 | definition, no contract: the weighted sum 0.299 r + 0.587 g + 0.114 b truncated to a byte |
| Histogram.PixelLuminance | tags/ffmpegthumbnailer-1.0/src/videothumbnailer.cpp:138-142 | definition, no contract: the luminance of the three bytes read at `i * lineSize + 3 * c` |
| Histogram.RowLuminances | tags/ffmpegthumbnailer-1.0/src/videothumbnailer.cpp:136-143 | one luminance per visited pixel of the row (its contents are stated by `Histogram.RowLuminancesAt`) |
| Histogram.RowLuminancesAt | tags/ffmpegthumbnailer-1.0/src/videothumbnailer.cpp:136-142 | the `c`-th luminance of a row is the luminance of the three bytes of pixel `c` of that row |
| Histogram.FrameLuminances | tags/ffmpegthumbnailer-1.0/src/videothumbnailer.cpp:133-145 | one luminance per pixel of the visited rows: rows × columns of them (contents in `Histogram.FrameLuminancesAt`) |
| Histogram.FrameLuminancesAt | tags/ffmpegthumbnailer-1.0/src/videothumbnailer.cpp:133-145 | in row-major scan order, position `r * Columns + c` holds the luminance of pixel `c` of row `r` |
| Histogram.Increment | tags/ffmpegthumbnailer-1.0/src/videothumbnailer.cpp:143 | definition, no contract: `histogram[l] += 1`, inserting an absent key with count 0 first |
| Histogram.AddAll | tags/ffmpegthumbnailer-1.0/src/videothumbnailer.cpp:133-145 | definition, no contract: the increments of the loop, one per luminance in order |
| Histogram.IncrementCount | tags/ffmpegthumbnailer-1.0/src/videothumbnailer.cpp:143 | `histogram[l] += 1` inserts `l` if it is absent, raises bucket `l` by one and leaves every other bucket unchanged |
| Histogram.AddAllSnoc | tags/ffmpegthumbnailer-1.0/src/videothumbnailer.cpp:143 | counting one more luminance is one more increment |
| Histogram.SumCountsIncrement | tags/ffmpegthumbnailer-1.0/src/videothumbnailer.cpp:143 | an increment raises a range sum by one exactly when the luminance is in the range |
| Histogram.SumCountsAddAll | tags/ffmpegthumbnailer-1.0/src/videothumbnailer.cpp:131-146 | counting luminances raises the sum over a key range by the number of counted luminances in that range |
| Histogram.CountInRangeAll | tags/ffmpegthumbnailer-1.0/src/videothumbnailer.cpp:142 | every byte luminance lies in 0..255 |
| Histogram.AddAllBucket | tags/ffmpegthumbnailer-1.0/src/videothumbnailer.cpp:143 | after counting, each bucket has grown by the number of occurrences of its luminance |
| Histogram.AddAllKeys | tags/ffmpegthumbnailer-1.0/src/videothumbnailer.cpp:143 | after counting, the keys are the old keys plus the counted luminances |
| Histogram.SumCountsEmpty | tags/ffmpegthumbnailer-1.0/src/videothumbnailer.cpp:131 | an empty histogram sums to zero over any range |
| Histogram.CountingPreservesPixels | tags/ffmpegthumbnailer-1.0/src/videothumbnailer.cpp:131-146 | counting adds exactly one to the total per pixel, each bucket grows by the multiplicity of its luminance, and the keys grow by the luminances seen |
| Histogram.FrameTotal | tags/ffmpegthumbnailer-1.0/src/videothumbnailer.cpp:133-145 | counting a whole frame adds Rows × Columns to the total: width × height for non-negative sizes, and 0 when either size is 0 or negative, as the loops then do not run |
| Histogram.PixelAt | tags/ffmpegthumbnailer-1.0/src/videothumbnailer.cpp:135-142 | the reads at `pixelIndex + j`, `+1` and `+2` are in bounds and give that pixel's luminance |
| Histogram.AddAllAppend | tags/ffmpegthumbnailer-1.0/src/videothumbnailer.cpp:133-145 | counting rows one after another is counting their concatenation |
| Histogram.GenerateHistogram | tags/ffmpegthumbnailer-1.0/src/videothumbnailer.cpp:131-146 | the nested loop leaves the histogram equal to the input with every pixel's luminance counted in scan order, and the total grows by Rows × Columns (width × height for non-negative sizes) |
| DarkImage.NextKey | tags/ffmpegthumbnailer-1.0/src/videothumbnailer.cpp:152-153 | `begin()`/`++iter` on an ordered map: the least key at or after a position, absent exactly when there is none (`end()`) |
| DarkImage.TruncatingDiv | tags/ffmpegthumbnailer-1.0/src/videothumbnailer.cpp:158 | C++ `int` division truncates toward zero, for both signs of `numPixels` |
| DarkImage.SumCountsGap | tags/ffmpegthumbnailer-1.0/src/videothumbnailer.cpp:153-156 | keys the iterator skips because they are absent add nothing to the dark sum |
| DarkImage.IsDarkImage | tags/ffmpegthumbnailer-1.0/src/videothumbnailer.cpp:148-158 | as written, given a key of at least 15 to stop at: dark exactly when the counts of luminances below 15 exceed `numPixels / 2` |
| DarkImage.IsDarkImageChecked | tags/ffmpegthumbnailer-1.0/src/videothumbnailer.cpp:148-158 | with the end-of-map test, for every histogram: dark exactly when the counts of luminances below 15 exceed `numPixels / 2` |
| DarkImage.AllDarkHistogramReachesEnd | tags/ffmpegthumbnailer-1.0/src/videothumbnailer.cpp:153 | for the histogram {0: 100}, `++iter` after key 0 is `end()`, and the histogram has no key at which the unchecked loop stops |
| DarkImage.DarkPixelsOfCounted | tags/ffmpegthumbnailer-1.0/src/videothumbnailer.cpp:131-158 | for a histogram counted from pixels, the dark sum is the number of pixels below 15, and the unchecked loop is safe exactly when some pixel is 15 or brighter |
| DarkImage.BrightPixelWitness | tags/ffmpegthumbnailer-1.0/src/videothumbnailer.cpp:153 | a luminance of 15 or more occurs exactly when their count is positive |
| Thumbnailer.RowOffsets | tags/ffmpegthumbnailer-1.0/src/videothumbnailer.cpp:41-45 | one offset per row, row `i` at `i * lineSize`, strictly increasing for positive `lineSize`, and each row's `3 * width` bytes inside the buffer of a well-formed frame of positive width |
| Thumbnailer.RowsAreOrdered | tags/ffmpegthumbnailer-1.0/src/videothumbnailer.cpp:44 | with positive `lineSize`, lower rows start at higher offsets |
| Thumbnailer.CallsAppend | tags/ffmpegthumbnailer-1.0/src/videothumbnailer.cpp:57-73 | the text chunks and frame writes of consecutive calls are those of each part, in order |
| Thumbnailer.CallsSingleton | tags/ffmpegthumbnailer-1.0/src/videothumbnailer.cpp:57-73 | one `setPngText` adds one chunk, one `writeFrame` one frame write |
| Thumbnailer.MetadataChunks | tags/ffmpegthumbnailer-1.0/src/videothumbnailer.cpp:57-72 | definition, no contract: the text chunks in the order they are set, MTime, Size, Mimetype only when non-empty, URI, Movie::Length |
| Thumbnailer.SetAll | tags/ffmpegthumbnailer-1.0/src/videothumbnailer.cpp:57-72 | one `setPngText` call per metadata chunk: the calls set exactly those chunks, in order, and write no frame |
| Thumbnailer.CallsAfterStat | tags/ffmpegthumbnailer-1.0/src/videothumbnailer.cpp:52-73 | after a successful `stat`: exactly two calls more than there are chunks, the writer created first and the frame written once and last, so every call between them sets a chunk; the chunks are MTime, Size, then Mimetype only when the MIME type is non-empty, then URI and Movie::Length |
| Thumbnailer.WritePng | tags/ffmpegthumbnailer-1.0/src/videothumbnailer.cpp:50-74 | a failed `stat` throws "Could not stat file" after only creating the writer, with no text and no frame; otherwise nothing is thrown and the calls are exactly those above: creation, one `setPngText` per chunk in that order, then the frame |
| Thumbnailer.TextChunksAtMost | tags/ffmpegthumbnailer-1.0/src/videothumbnailer.cpp:57-72 | each writer call sets at most one text chunk |
| Thumbnailer.OnlyTextCalls | tags/ffmpegthumbnailer-1.0/src/videothumbnailer.cpp:57-72 | calls that set as many chunks as there are calls are exactly one `setPngText` per chunk, in order |
| Thumbnailer.SuccessContractFixesCalls | tags/ffmpegthumbnailer-1.0/src/videothumbnailer.cpp:52-73 | any call list that starts with creating the writer, ends with writing the frame, sets the given chunks and has two calls more than there are chunks is exactly: create, one `setPngText` per chunk in order, write the frame; so the contract of `WritePng` fixes its whole call list |
| Thumbnailer.MetadataChunkKeys | tags/ffmpegthumbnailer-1.0/src/videothumbnailer.cpp:57-72 | the metadata keys are pairwise distinct, five with a MIME type and four without; Mimetype is present exactly when the MIME type is non-empty |
| Thumbnailer.MetadataKeys | tags/ffmpegthumbnailer-1.0/src/videothumbnailer.cpp:55-72 | a successful write sets five distinct keys when `getMimeType` is non-empty and four otherwise, with Mimetype present exactly in the first case |
| Thumbnailer.GenerateThumbnail | tags/ffmpegthumbnailer-1.0/src/videothumbnailer.cpp:30-47 | a failed seek only logs its message; the PNG is written from the frame's row offsets whatever the seek did |

## Left out

- Decoding, scaling and seeking (`MovieDecoder`) are not part of this model. The decoded frame and the outcome of
  the seek are parameters, and the first `decodeVideoFrame` call is not modelled.
- The constructor and destructor are not modelled. They only store the file name and own the decoder.
- `stat`, `toString` and the PNG library are external. The model takes `stat`'s result as already-rendered strings
  and the duration as text, and records the writer calls instead of producing bytes.
- Console output (`cout`) is modelled as a sequence of logged messages.
- Histogram.Luminance: computes `0.299 r + 0.587 g + 0.114 b` in exact rational arithmetic before truncating. The
  source computes it in double precision, where a sum that should be an integer can fall just below it and
  truncate one lower. Floating point is not modelled.
- Histogram.GenerateHistogram: its `ensures` gives the result as a function of the pixels and states the total.
  The per-bucket and per-key facts about that function are in `Histogram.CountingPreservesPixels`, not repeated
  in the method.
- 32-bit `int` overflow of `i * lineSize`, `pixelIndex + j`, the counts and `darkPixels` is not modelled:
  integers are unbounded.
- Thumbnailer.WritePng: `rowPointers.front()` on an empty row vector (a frame of height 0) is undefined behaviour
  in C++. The model still records a `writeFrame` call with no rows.
- Which `mp4` MIME type is returned: the code is followed, giving `video/x-ms-wmv` from the first of the two
  `"mp4"` branches. `video/mp4`, which the second branch would give, is unreachable (`Mp4VideoMp4BranchIsDead`).
- The PNG writer's own exceptions are not modelled: a `PngWriter` that cannot open the output file, or a failing
  `setPngText` or `writeFrame`. The only exception the model produces is the stat failure ("Could not stat file"),
  recorded in the `thrown` field of the outcome, which `generateThumbnail` passes on unchanged.

## Findings

| source | as written | input that shows it | evidently intended | confidence | as-written member | corrected member |
|---|---|---|---|---|---|---|
| tags/ffmpegthumbnailer-1.0/src/videothumbnailer.cpp:153 | the loop `for (iter = histogram.begin(); iter->first < 15; ++iter)` has no `iter != histogram.end()` test | the histogram {0: 100} of an all-dark 10×10 frame: after key 0 the iterator is `end()`, and the loop condition dereferences it (also `begin()` of an empty histogram) | stop at the end of the map, so that the dark sum covers every key below 15 | not executed | DarkImage.AllDarkHistogramReachesEnd | DarkImage.IsDarkImageChecked |
