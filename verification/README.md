# media_shrinker, modelled in Dafny

media_shrinker shrinks a directory of photos and videos. It lists the source directory
and keeps the files it knows how to shrink: `.mp4` videos and `.jpg`/`.jpeg`/`.png`
images. It marks the files that already have a same-named counterpart in the destination
directory as converted. It then walks the list in name order. Each waiting file is
shrunk into a temp directory: ffmpeg for videos, a resize and re-encode for images. The
result is moved into the destination, or the original is copied there when the
"shrunk" file came out larger. Only converted sources are deleted, and only when cleaning
was asked for. A fold over the file list produces the statistics printed before and after
the run. An older video-only converter repeatedly shrinks the largest unconverted video.
A small terminal interface shows the file list in a scrollable, clipped viewport.

The model consists of pure functions over immutable records. Every call into the outside
world becomes a value passed in, and the model's decisions read its outcome only
through that value. Those calls are
directory listings, stats, renames, removals, ffprobe and ffmpeg runs and image
decoding. For example:

- The per-file outcomes of a whole run are one function from file name to `FileIo`.
- ffmpeg's stderr is a `Stderr` value: its `\r`-terminated chunks, the text after the
  last one, and how the stream ended.

Modules follow the program's files:

| module | models |
|---|---|
| `Wrappers` | `Option`, `Result` and `Outcome` (pass, or fail with an error) |
| `Text` | `strings.LastIndex` / `Index`, ASCII `strings.ToLower`, `%d` / `%02d` |
| `Types` | the records and enums of types.go, and `path.Join` of a directory and a file name |
| `Seqs` | first match in a sequence (the `break` loops of the diffs) |
| `Catalog` | `path.Ext`, `guessMediaType`, `ListMediaFiles`, the destination diff, the `BytesSize` unit |
| `Ordering` | byte-wise string order and the sort by name |
| `Stats` | `accumelate` / `AccumelateStats` |
| `Timestamps` | `ParseTime_FF` / `ParseTime` (`Sscanf "%d:%d:%d.%d"`), `FormatTime`, the duration tolerances |
| `Videos` | videos.go `ShrinkMovie`: width policy, ffmpeg arguments, `time=` extraction, read loop, result order |
| `Pictures` | pictures.go: width policy, encoder choice, the image error chain |
| `Process` | `ProcessMediaFile`, `removeMediaFile`, `DoProcess` |
| `Legacy` | main.go: `ListVideos`, the old diff, largest-first selection, the old `ShrinkMovie` |
| `Tui` | tui.go: scrolling, `RectContains`, viewport clipping, `SplitV`, `IMScrollArea` |

Timestamps parsed from ffmpeg are integer centiseconds. The durations reported by ffprobe
are `real`s. Integers are unbounded except in two places: `Sscanf` rejects a value that
does not fit in 64 bits, and `ParseTime_FF` sums the whole seconds in Go's 64-bit `int`,
which wraps.

A file's error is not confined to the error stage: the record keeps an error next to
any stage (types.go:63), and the code records errors at other stages too:

- a missing input leaves the file `Waiting` with an error (process.go:87-92);
- a missing temp output leaves it `InProgress` with an error (process.go:125-130);
- a failed move or output stat leaves it `Success` with an error (process.go:144-156).

## Model

| member | source | states |
|---|---|---|
| `Types.MediaTypeName` | process.go:12-20 | the unknown type alone prints as `!unknown!`; every known type prints as a non-empty lower-case word |
| `Types.MediaTypeNameInjective` | process.go:12-20 | the four media types print as four different names |
| `Text.LowerAscii` | process.go:23 | lower-casing keeps the length, changes a character exactly when it is an ASCII capital, turns each capital into the matching small letter, and leaves no capital behind |
| `Text.LowerEqualsIff` | process.go:23-29 | a lower-cased text equals a text without capitals exactly when the two agree ignoring ASCII case |
| `Types.JoinIsPathIn` | process.go:85 | the joined path is the bare name for an empty directory, and otherwise the directory, one `/` and the name |
| `Types.JoinInjective` | process.go:94-95 | within one directory, distinct names give distinct paths, and equal names equal paths |
| `Catalog.Ext` | process.go:23 | the extension is the name's suffix from its last dot, with no later dot or slash; it is empty only when every dot is followed by a slash |
| `Catalog.GuessMediaType` | process.go:22-30 | a name is a video exactly when its extension is `.mp4` ignoring ASCII case, a JPEG exactly for `.jpg` or `.jpeg`, and a PNG exactly for `.png` |
| `Catalog.GuessIgnoresCase` | process.go:22-30 | classification depends only on the lower-cased extension: a name and its lower-cased form classify alike |
| `Catalog.NoDotIsUnknown` | process.go:22-30 | a name without a dot has no extension and so is of unknown type |
| `Catalog.ListMediaFiles` | process.go:32-58 | a failed open or listing returns the matching error; otherwise the result holds one fresh record (waiting, no output size, not deleted) for each entry of a known type, in directory order, each once, and nothing else |
| `Catalog.KnownEntriesCatalog` | process.go:41-56 | the filtering loop keeps each known-type entry exactly once, in directory order, and nothing else |
| `Catalog.CatalogUnique` | process.go:41-56 | that description fixes the list: two lists that both satisfy it are equal |
| `Seqs.FilterMapSelects` | process.go:41-56 | appending the image of each kept element, left to right, yields the images of exactly the kept elements, in order, each once |
| `Seqs.FilterMapUnique` | process.go:41-56 | at most one list is the images of exactly the kept elements in order |
| `Catalog.ResolveStages` | process.go:206-224 | a source with a same-named destination file becomes converted, with the size of the first such destination file; every other source is left exactly as it was |
| `Catalog.BytesUnit` | process.go:60-75 | the unit is the largest of KB, MB, GB whose factor the size strictly exceeds, bytes otherwise |
| `Catalog.BytesUnitMonotone` | process.go:64-75 | a larger size never gets a smaller unit |
| `Catalog.OneMiBInKB` | process.go:68-72 | exactly 1 MiB is reported in KB, because the thresholds are strict |
| `Seqs.FindFirst` | process.go:216-221 | the index found is the first match, and `None` means no element matches |
| `Ordering.LessTotal` | process.go:230-232 | any two different names are ordered one way or the other |
| `Ordering.LessTransitive` | process.go:230-232 | the name order is transitive |
| `Ordering.SortByName` | process.go:228-232 | the result is ordered by name and is a permutation of the input |
| `Stats.Accumulate` | process.go:164-175 | a file without an output size, or with an error, leaves the counters alone; a counted file adds one to the count, and also to the deleted count when it was deleted |
| `Stats.AccumulateStats` | process.go:187-192 | the deleted counters never exceed the corresponding totals, and the count never exceeds the number of files |
| `Stats.CountZeroIff` | process.go:164-175 | the count is zero exactly when no file has an output size and no error |
| `Stats.AccumulateAppend` | process.go:187-192 | the statistics of a concatenation are the sum of the statistics of its parts |
| `Stats.SortPreservesStats` | process.go:228-239 | sorting the files does not change their statistics |
| `Timestamps.ScanInt` | videos.go:18 | a scanned integer consumes at least one character and fits in 64 bits |
| `Timestamps.ScanIntReads` | videos.go:18 | a `%d` that succeeds has read scan space, an optional sign and a whole run of digits; its value is the run's decimal value, negated after a `-`, and it ends where the run ends |
| `Timestamps.ReadsIntScans` | videos.go:18 | wherever the text holds such an integer, `%d` reads exactly that value and end when the value fits in 64 bits, and nothing otherwise |
| `Timestamps.Scanf` | videos.go:18 | scanning assigns at most one value per `%d` verb of the format, each fitting in 64 bits |
| `Timestamps.ScanfTrace` | videos.go:18 | scanning matches the format items one after another from the start, stops at the first literal that differs or `%d` that fails, and returns, in order, the value each `%d` before that point read |
| `Timestamps.Wrap64` | videos.go:20 | Go's `int` arithmetic gives the 64-bit value congruent to the exact one, which is the exact one when it fits |
| `Timestamps.ParseTimeFF` | videos.go:16-21 | a text whose first field does not scan parses to zero; the whole seconds are a wrapped 64-bit sum, so the result stays within 101 times the 64-bit range |
| `Timestamps.FormatTime` | videos.go:23-28 | the text is hours, minutes and seconds separated by colons, minutes and seconds below 60, and it denotes exactly the given number of seconds |
| `Timestamps.FormatParseRoundTrip` | videos.go:16-28 | parsing a formatted whole number of seconds that fits in 64 bits gives it back, as centiseconds |
| `Timestamps.ParseFullTimestamp` | videos.go:16-21 | `HH:MM:SS.cc` parses to hours·3600 + minutes·60 + seconds in centiseconds, plus cc |
| `Timestamps.NotAvailableIsZero` | videos.go:16-21 | a timestamp ffmpeg prints as `N/A` parses to zero, because no field is assigned |
| `Timestamps.DurationsRoughlyEqual` | videos.go:38-41 | two durations match when they differ by less than one second |
| `Timestamps.DurationsEqual` | main.go:104-106 | two durations match when they differ by less than a tenth of a second |
| `Timestamps.ToleranceFacts` | main.go:104-106 | both tolerances are symmetric and reflexive, the tight one implies the loose one, and half a second passes only the loose one |
| `Videos.TargetWidth` | videos.go:78-81 | the target is 720 for a strictly portrait video and 1080 otherwise |
| `Videos.ScaleFilterInjective` | videos.go:88 | different widths give different scale filters |
| `Videos.FfmpegArgs` | videos.go:84-91 | the arguments always start `-y -i <input>` and end `-c:v libx264 -crf 26 <output>`; a scale filter to the target width is added only when the video is wider than the target |
| `Videos.NoUpscale` | videos.go:84-89 | any scale filter in the arguments narrows the video to its target width |
| `Videos.ExtractTimestamp` | videos.go:119-131 | the extracted token contains no space; a line without `time=` gives none |
| `Videos.ExtractStatusLine` | videos.go:119-131 | the token is the text after the last `time=` up to the next space |
| `Videos.UnterminatedTimestamp` | videos.go:124-128 | a `time=` with no space after it gives no token, and the chunk is skipped |
| `Videos.ReadChunk` | videos.go:104-117 | a read reports no error exactly while complete chunks remain, returning them in order; from then on every read reports how the stream ended, first with the final text and afterwards with empty text |
| `Videos.ProgressAppend` | videos.go:119-131 | each chunk's progress report is independent of the others, so the reports of a concatenation are the two parts' reports in order |
| `Videos.SilentChunks` | videos.go:119-123 | chunks without `time=` report nothing |
| `Videos.ReadProgress` | videos.go:104-140 | the loop ends at the first read error, end of stream included, reports every complete chunk in order and discards the text read with the error |
| `Videos.ShrinkMovie` | videos.go:70-165 | ffmpeg is started only after the input probe succeeds, and with exactly the argument list above; the result passes exactly when the probe, ffmpeg's exit, the output probe and the one-second duration check all pass |
| `Videos.FirstFailureReported` | videos.go:70-165 | the error returned is that of the first step that failed, with that step's own cause or durations |
| `Videos.OutputDoesNotDecide` | videos.go:104-164 | what ffmpeg prints does not affect the result |
| `Pictures.ResizeImage` | pictures.go:12-23 | the width requested is the image's own width or its limit, whichever is smaller, so an image is never widened; the height is left to the resampler |
| `Pictures.SquareUsesLandscapeLimit` | pictures.go:15 | a square image is limited to 2048 |
| `Pictures.SmallImageKeepsWidth` | pictures.go:18-20 | an image within its limit keeps its width |
| `Pictures.ShrinkImage` | pictures.go:41-62 | the encoder runs only after open, decode and create succeed, and then decides the result; an earlier failure names the input path |
| `Pictures.ShrinkPNG` | pictures.go:64-66 | PNG files are encoded at the best compression, and pass exactly when all four steps pass |
| `Pictures.ShrinkJPG` | pictures.go:68-70 | JPEG files are encoded at quality 90, and pass exactly when all four steps pass |
| `Pictures.FirstImageFailureReported` | pictures.go:41-62 | the error names the first step that failed, with that step's cause |
| `Process.Shrink` | process.go:105-114 | a video is shrunk by the video shrink and an image by the encoder for its format; the result passes exactly when that shrink passes |
| `Process.ProcessMediaFile` | process.go:77-162 | nothing happens unless the file is waiting and of a known type; the shrink is requested exactly when the input is found, from the input path to the temp path; the original is copied instead of the output exactly when the output is larger; the output size changes only on the fully successful path, and then to the confirmed size |
| `Process.ShrinkFailureRecorded` | process.go:116-123 | a failed shrink leaves the file in the error stage with that error, its output size unchanged and nothing moved |
| `Process.MissingInputStaysWaiting` | process.go:87-92 | a missing input only records the error |
| `Process.CleanSuccessIff` | process.go:125-161 | a file ends successful without an error exactly when every step passes, and its output size is then the confirmed one |
| `Process.RemoveMediaFile` | process.go:287-295 | the deleted flag is set exactly when the removal succeeds, and nothing else changes |
| `Process.Prepass` | process.go:246-253 | in a cleaning run a converted, not yet deleted file is marked deleted exactly when its removal succeeds; every other file is left as it is, and nothing but the deleted flag ever changes |
| `Process.LoopStep` | process.go:257-273 | a converted file still present in a cleaning run has its removal retried and is marked deleted exactly when the retry succeeds; a waiting file is processed exactly as `ProcessMediaFile` does, and then, in a cleaning run after a clean success, marked deleted exactly when its removal succeeds; any other file is left alone |
| `Process.FileKeepsConsistent` | process.go:246-273 | a file that is deleted was converted, or was shrunk without error |
| `Process.Requests` | process.go:257-266 | the shrink requests made are exactly those of the files dispatched |
| `Process.RequestsInOrder` | process.go:257-266 | the requests are those of the steps that dispatched one, each once and in processing order, and nothing else |
| `Process.Execute` | process.go:239-276 | each file keeps its identity, and the statistics are taken before and after processing |
| `Process.DoProcess` | process.go:194-285 | a failed listing of either directory ends the run with its error; when both succeed the run succeeds, ends with one record per listed source file, holding the same files ordered by name, and prints first the statistics of the diffed catalog |
| `Process.RunKeepsEntries` | process.go:206-276 | the diff, the sort and processing neither add, drop nor rename a file: the records hold the same type, directory, name and size as the listing, counted with multiplicity |
| `Process.SameEntriesStaySorted` | process.go:230-276 | processing does not disturb the name order |
| `Process.BeforeStatsOfCatalog` | process.go:239 | the statistics printed first are those of the diffed catalog |
| `Process.DispatchOnlyWaiting` | process.go:256-266 | every shrink request is for a waiting file of a known type; a report-only run makes none |
| `Process.WaitingAreDispatched` | process.go:256-266 | every waiting file of a known type whose input exists is shrunk |
| `Process.RunKeepsConsistent` | process.go:244-274 | over a whole run, no file is deleted unless it was converted or cleanly shrunk |
| `Process.NoCleanNoDelete` | process.go:246-272 | without cleaning, nothing is deleted |
| `Process.PlanConsistent` | process.go:195-232 | the sorted, diffed catalog starts consistent |
| `Process.ResolvedConsistent` | process.go:213-223 | the diff keeps records consistent |
| `Process.AllConverted` | process.go:213-223 | when every source has a destination counterpart, every file is marked converted |
| `Process.ConvertedDirectoryIsNoop` | process.go:256-274 | a fully converted directory shrinks nothing |
| `Process.NothingWaitingNothingDispatched` | process.go:262-264 | with no waiting file, nothing is shrunk |
| `Process.DoProcessDeletionSafety` | process.go:194-295 | after a whole run, every deleted source was converted or cleanly shrunk |
| `Process.ReportOnlyShrinksNothing` | process.go:256 | a report-only run shrinks nothing |
| `Legacy.VideoEntriesList` | main.go:44-62 | the filtering loop keeps each entry with extension `.mp4` and size of at least 1 MiB exactly once, in directory order, and nothing else |
| `Legacy.VideoListUnique` | main.go:44-62 | that description fixes the list: two lists that both satisfy it are equal |
| `Legacy.ListVideos` | main.go:31-63 | a failed open or listing ends the program, modelled as its error; otherwise the `.mp4` entries of at least 1 MiB are kept, in directory order, each once, and nothing else |
| `Legacy.UpperCaseExtensionSkipped` | main.go:47-50 | the old listing is case-sensitive: a `.MP4` file is skipped although the new catalog takes it as a video |
| `Legacy.Statuses` | main.go:258-274 | each source is shrunk exactly when a same-named destination file exists, with the first such file's size; no status starts with an error |
| `Legacy.LargestAmong` | main.go:320-333 | the choice is an unshrunk movie of the largest size, the earliest among equals; there is none exactly when every movie is shrunk |
| `Legacy.SelectLargest` | main.go:320-337 | the selection loop finds the earliest largest unshrunk movie |
| `Legacy.SelectionUnique` | main.go:326-332 | at most one movie satisfies that description |
| `Legacy.SelectionIgnoresHadError` | main.go:320-341 | marking a movie as failed does not change the selection |
| `Legacy.LegacyArgs` | main.go:141-151 | the old command always scales to the target width |
| `Legacy.LegacyUpscales` | main.go:141-151 | every video narrower than its target is scaled up to the target width by the old command, while the new command adds no filter |
| `Legacy.LegacyAgreesWhenWider` | main.go:141-151 | for a video wider than its target, the old and the new command ask for the same scale filter |
| `Legacy.Stamp` | main.go:167-180 | a chunk yields a value exactly when it holds a usable timestamp |
| `Legacy.ReadLoopVia` | main.go:164-193 | whatever the timestamps parse to, when the loop ends within its iterations it has reported at least one value and at most one per iteration, and it stopped on a chunk that yielded a value and came with a read error |
| `Legacy.ReadLoopAsWritten` | main.go:164-193 | when the loop ends within its iterations it has reported at least one value and at most one per iteration, and it stopped on a chunk that carried a timestamp and came with a read error |
| `Legacy.AsWrittenAgreesWhenItEnds` | main.go:164-193 | when the final text has a usable timestamp, the loop as written ends after one read per complete chunk plus one, with exactly the reports of the corrected loop |
| `Legacy.ViaFrom` | main.go:164-193 | from any complete chunk on, the loop as written reports that chunk's and every later chunk's value, then the final text's |
| `Legacy.AsWrittenNeverEnds` | main.go:164-193 | as written, the read loop never ends when the text after the last `\r` has no usable timestamp |
| `Legacy.EarlyFailureHangs` | main.go:164-193 | ffmpeg failing at once, with only "Conversion failed!" on stderr, hangs the loop |
| `Legacy.ReadLoopFixed` | main.go:164-193 | the loop that looks at the read error before skipping always ends and reports every chunk, then the final text |
| `Legacy.LegacyShrinkMovie` | main.go:134-229 | ffmpeg runs only after the input probe, and its progress is read by the corrected loop; the movie is marked shrunk, with the confirmed size, exactly when the probe, ffmpeg, the temp probe, the 0.1 s duration check and the output stat all pass; a failure changes nothing |
| `Legacy.FinalizeRule` | main.go:203-227 | the temp file is removed exactly when its probe fails; it is moved exactly when the durations agree within 0.1 s; the input is removed exactly when cleaning and everything passed |
| `Legacy.HalfSecondOffIsRejected` | main.go:209-214 | half a second of difference passes the new tolerance but not the old one, and nothing is moved |
| `Legacy.ConvertStep` | main.go:317-347 | a step ends the loop exactly when every movie is shrunk; otherwise it shrinks the earliest largest unshrunk movie and changes no other: after a pass that movie is the shrunk result, after a failure it is unchanged but marked as having failed, and stays unshrunk |
| `Legacy.FailureIsRetried` | main.go:320-341 | after a failed shrink the same movie is selected again |
| `Tui.ScrollUp` | tui.go:176-183 | scrolling up moves one row up and never above row 0 |
| `Tui.ScrollDown` | tui.go:185-190 | scrolling down moves one row down and never past the last row of content |
| `Tui.ScrollDownThenUp` | tui.go:176-190 | away from the bottom, scrolling down then up returns to the same row |
| `Tui.ScrollUpThenDown` | tui.go:176-190 | away from the top, scrolling up then down returns to the same row |
| `Tui.ScrollStaysInRange` | tui.go:176-190 | a position on a row of content stays on one |
| `Tui.EmptyAreaScrollsToMinusOne` | tui.go:185-190 | with no content, scrolling down sets the position to -1 |
| `Tui.RectContains` | tui.go:384-387 | a point is inside exactly when its offset from the corner is below the width and the height; an empty rectangle holds nothing |
| `Tui.RectContainsShift` | tui.go:384-387 | moving the rectangle and the point by the same offset does not change containment |
| `Tui.AsViewPort` | tui.go:261-265 | the whole terminal: no surface below it, its corner at the origin, the screen's size |
| `Tui.TerminalWrites` | tui.go:228-265 | on the whole terminal a write lands at its own coordinates, exactly when it lies within the screen's size |
| `Tui.Within` | tui.go:257-259 | a write through a viewport made on another is clipped to the child's rectangle, shifted by its corner and written through the parent |
| `Tui.SetContent` | tui.go:228-242 | a write is kept exactly when it lies within the viewport's size, and lands shifted by the viewport's corner |
| `Tui.SetContentLandsInRect` | tui.go:228-242 | a write through a viewport is kept exactly when the shifted cell is in its rectangle, whose edges are half-open |
| `Tui.NestedWrite` | tui.go:228-242 | a write through a viewport drawn on another is clipped by both and shifted by both corners |
| `Tui.DividerLeft` | tui.go:340-351 | the left end becomes a tee to the right over a vertical line, a cross over a tee to the left, and the plain line over anything else |
| `Tui.DividerRight` | tui.go:340-357 | the right end becomes a tee to the left over a vertical line, a cross over a tee to the right, and the plain line over anything else |
| `Tui.DividerJoins` | tui.go:340-357 | each end reaches inwards; over a vertical line open on its inner side it keeps every arm already drawn and adds the inward one |
| `Tui.DividerCells` | tui.go:359-364 | the divider covers every column of row `at` and nothing off that row |
| `Tui.SplitVAsWritten` | tui.go:323-334 | the top part is `at` rows high and the bottom part starts at row `at + 1`; the two parts and the divider add up to the height |
| `Tui.SplitV` | tui.go:323-334 | the corrected split: both parts sit at the left edge of the viewport, the top part at its top row |
| `Tui.SplitTiles` | tui.go:323-364 | every row of the viewport belongs to exactly one of the top part, the divider and the bottom part |
| `Tui.SplitStaysInside` | tui.go:323-334 | a write through either part of the split is a write through the viewport |
| `Tui.SplitAtOriginAgrees` | tui.go:113-114 | for the whole terminal, the only viewport the program splits, the split as written is the corrected one |
| `Tui.SplitAwayFromOriginOverlaps` | tui.go:323-334 | as written, splitting a viewport 5 rows down makes the top part draw into the bottom part |
| `Tui.ScrollAreaFrame` | tui.go:277-321 | a wheel event scrolls only when it is inside the viewport; the viewport is returned unchanged when the content fits, one column narrower otherwise |
| `Tui.ContentAvoidsScrollBar` | tui.go:305-320 | when there is a scroll bar, the content never draws in its column |
| `Tui.FileListScrollBar` | tui.go:117 | the file list, two rows per file, gets a scroll bar exactly when those rows overflow the viewport |
| `Tui.WheelScrollsOnlyInside` | tui.go:279-290 | a wheel-down event moves the list one row when it is inside the viewport and leaves it alone otherwise |

## Left out

- Processes, pipes and the filesystem: every stat, rename, copy, removal, probe, ffmpeg
  run, image decode and encode is an outcome supplied as a parameter. Setting file times
  (process.go:159) and creating the destination and temp directories (process.go:202-203)
  change nothing the model decides, so they are omitted.
- copy.go is not part of this model. Its outcome is the `copy` field of `FileIo`.
- Probing a video's size (parsing ffprobe's output) is not part of this model. Its
  result is the probe outcome.
- Floating point: percentages, the progress ratio, the scroll thumb position and the
  numeric text of `BytesSize` are omitted. Only the unit choice is modelled.
- `Timestamps.FormatTime`: takes whole seconds. The source truncates a float before
  formatting.
- `Timestamps.ParseTimeFF`: the fraction is added as an integer number of centiseconds,
  not as a float. The wrap of the whole seconds is modelled; the float conversion is not.
- `Types.Join`: joins with one `/`, or gives the bare name for an empty directory. It does
  not perform `path.Join`'s cleaning of `.`,
  `..` and repeated slashes.
- `Text.LowerAscii`: lowers ASCII letters only. `strings.ToLower` also lowers non-ASCII
  letters, none of which occur in the extensions compared.
- Integer width: sizes are unbounded naturals. The int64 overflow of the counters is not
  modelled.
- `Types.ProcessingRequest`: holds the input and output paths only. Its `Target` and
  `UI` fields (types.go:76-82) are left out, and with them the progress percentage that
  videos.go:135 writes into `request.Target`. process.go:100-103 builds the request
  without a `Target`, so as written that write dereferences a nil pointer at the first
  timestamp parsed; the model records no percentage.
- Errors carry the cause they wrap, not the message text.
  - process.go:145 wraps a stale stat error instead of the move error, so
    `FinalMoveFailed` carries no cause.
- Concurrency: the UI goroutine, `Update`/`PostEvent`, and the unsynchronised reads of
  the file list by the renderer.
- Terminal rendering: screen setup, styles, `Render`, `Print` and its rune widths, the
  event loop, and `SplitRectH`, whose field arithmetic (tui.go:374-382) is incoherent.
- `SplitVf` is omitted: it only multiplies the height by a float before calling `SplitV`.
- The type definitions of `Rect`, `Point`, `ViewPort` and `TuiScrollArea`, and the
  `filesView`/`messagesView` fields, are not in the source files. Their fields are
  inferred from their use in tui.go.
- The old converter's `verify` command (main.go:276-305) and its status printing are
  left out: they only print and remove files.
- The old converter's loop (main.go:317-347) never ends once a movie keeps failing:
  `HadError` is set but never consulted. One selection step is modelled, and
  `Legacy.FailureIsRetried` shows the same movie chosen again.
- The command-line front ends (cmd/shrinker.go, shrinker/main.go) only parse flags.
- The snapshot does not compile as shown: process.go:107-111 calls the shrink functions
  with one argument, and videos.go:139 uses an undefined `progress`. The model takes each
  shrink as a function of its request and its outcomes.
- `Videos.ReadChunk`: after a read error other than end of stream, later reads are
  taken to repeat that error. The loops modelled stop at the first error, except the old
  one in its defect case.
- `Process.DoProcess`: `sort.Slice` is not stable, but the model sorts by insertion.
  This is equivalent here: the names in one directory listing are distinct, so any
  order by name is the same order.
- `Timestamps.ScanInt`: its own contract states only that it advances and stays within
  64 bits. The value it reads is stated by `Timestamps.ScanIntReads` and
  `Timestamps.ReadsIntScans`.
- `Timestamps.Scanf`: its own contract bounds the number and range of the values. Which
  values it returns, and in what order, is stated by `Timestamps.ScanfTrace`.

## Findings

| source | as written | input that shows it | evidently intended | confidence | as-written member | corrected member |
|---|---|---|---|---|---|---|
| main.go:164-193 | the read loop `continue`s on a chunk without a usable timestamp before it looks at the read error, and after the end every read returns empty text | ffmpeg fails at once and its stderr is only "Conversion failed!\n"; the loop spins for ever | stop at the first read error whatever the chunk held, reporting the final text's timestamp if it has one; videos.go:106-117 also stops at the first error, but discards that text | medium, not executed | `Legacy.AsWrittenNeverEnds` | `Legacy.ReadLoopFixed` |
| tui.go:323-334 | both parts of a split copy the whole rectangle of the viewport, corner included, and are then drawn through it, so they are shifted by its corner twice | split a viewport at row 5 of the terminal, 20 rows high, at 10: the top part's row 9 lands on terminal row 19, inside the bottom part | both parts placed relative to the viewport, the top part at its top-left corner (the bottom part's `at + 1` is already relative) | low, not executed; the program only splits the whole terminal, where the two agree | `Tui.SplitAwayFromOriginOverlaps` | `Tui.SplitV` |
