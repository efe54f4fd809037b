/** The video shrink (videos.go): the width policy, the ffmpeg argument list, progress
    extraction from ffmpeg's status output, and the sequencing of the shrink's checks.
    Running ffprobe and ffmpeg is not modelled: their outcomes are supplied as a `VideoIo`. */
module Videos {
  import opened Wrappers
  import opened Text
  import opened Types
  import opened Timestamps

  /** What ffprobe reports about a video's first stream; the duration is in seconds. */
  datatype VideoSize = VideoSize(width: int, height: int, duration: real)

  /** The width a video is scaled to: 720 for a strictly portrait video, 1080 otherwise. */
  function TargetWidth(size: VideoSize): (w: nat)
    ensures w == 720 || w == 1080
    ensures w == 720 <==> size.width < size.height
  {
    if size.width < size.height then 720 else 1080
  }

  /** The ffmpeg filter `scale=W:-1`: width `w`, height chosen to keep the aspect ratio. */
  function ScaleFilter(w: nat): string
  {
    "scale=" + Decimal(w) + ":-1"
  }

  /** Different widths give different filters, so the filter names the width exactly. */
  lemma ScaleFilterInjective(a: nat, b: nat)
    ensures ScaleFilter(a) == ScaleFilter(b) <==> a == b
  {
    if ScaleFilter(a) == ScaleFilter(b) {
      var fa, fb := ScaleFilter(a), ScaleFilter(b);
      assert fa[6..|fa| - 3] == Decimal(a);
      assert fb[6..|fb| - 3] == Decimal(b);
      DecimalRoundTrip(a);
      DecimalRoundTrip(b);
    }
  }

  /** The ffmpeg arguments: overwrite, read the input, scale down only when the video is
      wider than its target width, encode with x264 at CRF 26, write the output. */
  function FfmpegArgs(request: ProcessingRequest, size: VideoSize): (args: seq<string>)
    ensures |args| == (if size.width > TargetWidth(size) then 10 else 8)
    ensures args[..3] == ["-y", "-i", request.inputPath]
    ensures args[|args| - 5..] == ["-c:v", "libx264", "-crf", "26", request.outputPath]
    ensures |args| == 10 ==> args[3..5] == ["-vf", ScaleFilter(TargetWidth(size))]
  {
    var head := ["-y", "-i", request.inputPath];
    var scale := if size.width > TargetWidth(size) then ["-vf", ScaleFilter(TargetWidth(size))] else [];
    head + scale + ["-c:v", "libx264", "-crf", "26"] + [request.outputPath]
  }

  /** No upscaling: whenever a scale filter is requested its width is below the video's
      width, and a video no wider than its target is re-encoded at its own size. */
  lemma NoUpscale(request: ProcessingRequest, size: VideoSize, w: nat)
    requires ScaleFilter(w) in FfmpegArgs(request, size)[3..|FfmpegArgs(request, size)| - 5]
    ensures w < size.width && w == TargetWidth(size)
  {
    var args := FfmpegArgs(request, size);
    var middle := args[3..|args| - 5];
    if |args| == 8 {
      assert false;
    } else {
      assert middle == ["-vf", ScaleFilter(TargetWidth(size))];
      ScaleFilterInjective(w, TargetWidth(size));
    }
  }

  /** The marker that precedes the timestamp in an ffmpeg status line. */
  const TimeKey: string := "time="

  /** The progress timestamp of one status line: the text after the last `time=` up to the
      first following space. A line without a `time=`, or with no space after the last one,
      yields nothing. */
  function ExtractTimestamp(line: string): (r: Option<string>)
    ensures r.Some? ==> forall k :: 0 <= k < |r.value| ==> r.value[k] != ' '
    ensures (forall j: nat :: !OccursAt(line, TimeKey, j)) ==> r.None?
  {
    match LastIndexOf(line, TimeKey)
    case None => None
    case Some(i) =>
      var ts := line[i + |TimeKey|..];
      match IndexOf(ts, " ")
      case None => None
      case Some(j) =>
        assert forall k :: 0 <= k < j ==> ts[k] != ' ' by {
          forall k | 0 <= k < j ensures ts[k] != ' ' {
            assert !OccursAt(ts, " ", k);
            assert ts[k..k + 1] == [ts[k]];
          }
        }
        Some(ts[..j])
  }

  /** `TimeKey` cannot overlap itself: no proper suffix of it starts with 't'. */
  lemma KeyAfterKey(pre: string, rest: string, j: nat)
    requires |pre| < j < |pre| + |TimeKey|
    ensures !OccursAt(pre + TimeKey + rest, TimeKey, j)
  {
    var line := pre + TimeKey + rest;
    assert line[j] == TimeKey[j - |pre|] != 't';
    if j + |TimeKey| <= |line| {
      assert line[j..j + |TimeKey|][0] == line[j];
    }
  }

  /** In `pre + TimeKey + rest`, when `rest` holds no `time=`, the last one is the one
      after `pre`, and the text after it is `rest`. */
  lemma LastKeyAt(pre: string, rest: string)
    requires forall j: nat :: !OccursAt(rest, TimeKey, j)
    ensures LastIndexOf(pre + TimeKey + rest, TimeKey) == Some(|pre|)
    ensures (pre + TimeKey + rest)[|pre| + |TimeKey|..] == rest
  {
    var line := pre + TimeKey + rest;
    var q := |pre| + |TimeKey|;
    assert line[|pre|..q] == TimeKey;
    assert line[q..] == rest;
    assert OccursAt(line, TimeKey, |pre|);
    forall j: nat | |pre| < j
      ensures !OccursAt(line, TimeKey, j)
    {
      if j < q {
        KeyAfterKey(pre, rest, j);
      } else if j + |TimeKey| <= |line| {
        assert line[j..j + |TimeKey|] == rest[j - q..j - q + |TimeKey|];
        assert !OccursAt(rest, TimeKey, j - q);
      }
    }
  }

  /** A status line `pre time=<ts> <post>` yields exactly `ts`, when `ts` has no space and
      nothing after it contains another `time=`. */
  lemma ExtractStatusLine(pre: string, ts: string, post: string)
    requires forall k :: 0 <= k < |ts| ==> ts[k] != ' '
    requires forall j: nat :: !OccursAt(ts + " " + post, TimeKey, j)
    ensures ExtractTimestamp(pre + TimeKey + ts + " " + post) == Some(ts)
  {
    var rest := ts + " " + post;
    assert pre + TimeKey + ts + " " + post == pre + TimeKey + rest;
    LastKeyAt(pre, rest);
    assert OccursAt(rest, " ", |ts|) by {
      assert rest[|ts|..|ts| + 1] == " ";
    }
    forall j: nat | j < |ts|
      ensures !OccursAt(rest, " ", j)
    {
      assert rest[j] == ts[j];
    }
    assert rest[..|ts|] == ts;
  }

  /** A `time=` followed by no space at all yields nothing: the line is skipped. */
  lemma UnterminatedTimestamp(pre: string, tail: string)
    requires forall k :: 0 <= k < |tail| ==> tail[k] != ' '
    requires forall j: nat :: !OccursAt(tail, TimeKey, j)
    ensures ExtractTimestamp(pre + TimeKey + tail) == None
  {
    LastKeyAt(pre, tail);
    forall j: nat
      ensures !OccursAt(tail, " ", j)
    {
      if j + 1 <= |tail| {
        assert tail[j..j + 1] == [tail[j]];
      }
    }
  }

  /** How ffmpeg's stderr stream ends. */
  datatype StreamEnd = Eof | ReadError(cause: string)

  /** ffmpeg's stderr as `ReadString('\r')` sees it: the complete `\r`-terminated chunks,
      then the text after the last `\r`, delivered together with the stream's end. */
  datatype Stderr = Stderr(chunks: seq<string>, last: string, end: StreamEnd)

  /** The `k`-th `ReadString('\r')` call: a complete chunk with no error, then the final
      partial text with the end condition, then empty text with the same end condition. */
  function ReadChunk(s: Stderr, k: nat): (r: (string, Option<StreamEnd>))
    ensures r.1.None? <==> k < |s.chunks|
    ensures k >= |s.chunks| ==> r.1 == Some(s.end)
    ensures k < |s.chunks| ==> r.0 == s.chunks[k]
    ensures k == |s.chunks| ==> r.0 == s.last
    ensures k > |s.chunks| ==> r.0 == ""
  {
    if k < |s.chunks| then (s.chunks[k], None)
    else if k == |s.chunks| then (s.last, Some(s.end))
    else ("", Some(s.end))
  }

  /** The progress one chunk reports: the centiseconds of its timestamp, if it has one. */
  function Report(line: string): seq<int>
  {
    match ExtractTimestamp(line)
    case None => []
    case Some(ts) => [ParseTimeFF(ts)]
  }

  /** The progress reports of a sequence of complete chunks, in order. */
  function Progress(chunks: seq<string>): (r: seq<int>)
    ensures |r| <= |chunks|
    decreases |chunks|
  {
    if |chunks| == 0 then []
    else Progress(chunks[..|chunks| - 1]) + Report(chunks[|chunks| - 1])
  }

  /** Progress is reported chunk by chunk, so it distributes over concatenation. */
  lemma {:induction false} ProgressAppend(a: seq<string>, b: seq<string>)
    ensures Progress(a + b) == Progress(a) + Progress(b)
    decreases |b|
  {
    if |b| > 0 {
      var init, z := b[..|b| - 1], b[|b| - 1];
      assert (a + b)[..|a + b| - 1] == a + init;
      assert (a + b)[|a + b| - 1] == z;
      ProgressAppend(a, init);
      assert Progress(a + b) == Progress(a) + Progress(init) + Report(z);
    } else {
      assert a + b == a;
    }
  }

  /** Chunks without a `time=` report nothing, so the reports come from status lines only. */
  lemma {:induction false} SilentChunks(chunks: seq<string>)
    requires forall k, j: nat :: 0 <= k < |chunks| ==> !OccursAt(chunks[k], TimeKey, j)
    ensures Progress(chunks) == []
    decreases |chunks|
  {
    if |chunks| > 0 {
      SilentChunks(chunks[..|chunks| - 1]);
      var c := chunks[|chunks| - 1];
      assert forall j: nat :: !OccursAt(c, TimeKey, j);
    }
  }

  /** Reading one more chunk appends that chunk's report. */
  lemma ProgressStep(chunks: seq<string>, k: nat)
    requires k < |chunks|
    ensures Progress(chunks[..k + 1]) == Progress(chunks[..k]) + Report(chunks[k])
  {
    assert chunks[..k + 1][..k] == chunks[..k];
  }

  /** The read loop of `ShrinkMovie`: read `\r`-terminated chunks until the first read
      error (end of stream included), whose text is discarded; skip chunks without a usable
      timestamp; report the rest. */
  method ReadProgress(s: Stderr) returns (reports: seq<int>)
    ensures reports == Progress(s.chunks)
  {
    reports := [];
    var k := 0;
    while true
      invariant 0 <= k <= |s.chunks|
      invariant reports == Progress(s.chunks[..k])
      decreases |s.chunks| - k
    {
      var read := ReadChunk(s, k);
      if read.1.Some? {
        break;
      }
      ProgressStep(s.chunks, k);
      reports := reports + Report(read.0);
      k := k + 1;
    }
    assert s.chunks[..k] == s.chunks;
  }

  /** The outcomes of the external steps of one video shrink. */
  datatype VideoIo = VideoIo(
    probeInput: Result<VideoSize, string>,
    stderr: Stderr,
    wait: Outcome<string>,
    probeOutput: Result<VideoSize, string>)

  /** What one video shrink did: the ffmpeg command it started, if any, the progress it
      reported, and its result. */
  datatype MovieRun = MovieRun(command: Option<seq<string>>, progress: seq<int>,
                               result: Outcome<VideoError>)

  /** `ShrinkMovie`: probe the input, run ffmpeg while following its progress, wait for it,
      probe the output, and accept it only if its duration is within a second of the
      input's. */
  function ShrinkMovie(request: ProcessingRequest, io: VideoIo): (r: MovieRun)
    ensures r.command.Some? <==> io.probeInput.Success?
    ensures r.command.Some? ==> r.command.value == FfmpegArgs(request, io.probeInput.value)
    ensures r.command.Some? ==> r.progress == Progress(io.stderr.chunks)
    ensures r.result.Pass? <==>
              && io.probeInput.Success? && io.wait.Pass? && io.probeOutput.Success?
              && DurationsRoughlyEqual(io.probeInput.value.duration, io.probeOutput.value.duration)
  {
    match io.probeInput
    case Failure(e) => MovieRun(None, [], Fail(ProbeInputFailed(e)))
    case Success(size) =>
      var result :=
        if io.wait.Fail? then Fail(TranscoderFailed(io.wait.error))
        else if io.probeOutput.Failure? then Fail(ProbeOutputFailed(io.probeOutput.error))
        else if !DurationsRoughlyEqual(size.duration, io.probeOutput.value.duration) then
          Fail(DurationMismatch(size.duration, io.probeOutput.value.duration))
        else Pass;
      MovieRun(Some(FfmpegArgs(request, size)), Progress(io.stderr.chunks), result)
  }

  /** The error names the first step that failed, with that step's own cause. */
  lemma FirstFailureReported(request: ProcessingRequest, io: VideoIo, cause: string, a: real, b: real)
    ensures (ShrinkMovie(request, io).result == Fail(ProbeInputFailed(cause)))
              <==> io.probeInput == Failure(cause)
    ensures (ShrinkMovie(request, io).result == Fail(TranscoderFailed(cause)))
              <==> io.probeInput.Success? && io.wait == Fail(cause)
    ensures (ShrinkMovie(request, io).result == Fail(ProbeOutputFailed(cause)))
              <==> io.probeInput.Success? && io.wait.Pass? && io.probeOutput == Failure(cause)
    ensures (ShrinkMovie(request, io).result == Fail(DurationMismatch(a, b)))
              <==> && io.probeInput.Success? && io.wait.Pass? && io.probeOutput.Success?
                   && a == io.probeInput.value.duration && b == io.probeOutput.value.duration
                   && !DurationsRoughlyEqual(a, b)
  {
  }

  /** What ffmpeg printed, and how its stderr stream ended, never decide the result: a
      read error only stops the progress reporting. */
  lemma OutputDoesNotDecide(request: ProcessingRequest, io: VideoIo, other: Stderr)
    ensures ShrinkMovie(request, io.(stderr := other)).result == ShrinkMovie(request, io).result
  {
  }
}
