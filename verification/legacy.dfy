/** The older, video-only converter (main.go): its listing filter, its diff, the choice of
    the largest file not yet shrunk, and its `ShrinkMovie` with the finalize rule that
    moves the temp file only when the durations agree within a tenth of a second. */
module Legacy {
  import opened Wrappers
  import opened Text
  import opened Types
  import Seqs
  import Catalog
  import opened Timestamps
  import opened Videos

  /** A listed source or destination video. */
  datatype VideoFile = VideoFile(dir: string, name: string, size: nat)

  /** The converter's record of one source video. */
  datatype VideoFileStatus = VideoFileStatus(
    name: string,
    size: nat,
    isShrunk: bool,
    shrunkSize: nat,
    hadError: bool)

  /** The converter's configuration. */
  datatype Converter = Converter(srcDir: string, dstDir: string, tmpDir: string, doClean: bool)

  /** One mebibyte, the smallest size the converter bothers with. */
  const MiB: nat := 1024 * 1024

  /** The entries `ListVideos` keeps: extension exactly ".mp4" (case matters) and at
      least one mebibyte. */
  predicate IsLegacyVideo(e: Catalog.DirEntry)
  {
    Catalog.Ext(e.name) == ".mp4" && e.size >= MiB
  }

  /** The record the old listing makes of an entry. */
  function EntryVideo(dir: string, e: Catalog.DirEntry): VideoFile
  {
    VideoFile(dir, e.name, e.size)
  }

  /** `EntryVideo` for one directory, as a function of the entry. */
  function VideoIn(dir: string): Catalog.DirEntry -> VideoFile
  {
    e => EntryVideo(dir, e)
  }

  /** `files` is the video list of `entries` through the positions `idx`: one record for
      each kept entry, each once and in directory order. */
  ghost predicate VideoListVia(dir: string, entries: seq<Catalog.DirEntry>, files: seq<VideoFile>, idx: seq<nat>)
  {
    Seqs.FilterMapVia(entries, IsLegacyVideo, VideoIn(dir), files, idx)
  }

  /** `files` holds exactly the kept entries, in directory order and each once. */
  ghost predicate IsVideoListOf(dir: string, entries: seq<Catalog.DirEntry>, files: seq<VideoFile>)
  {
    exists idx :: VideoListVia(dir, entries, files, idx)
  }

  /** The filtering loop of `ListVideos`, appending in directory order. */
  function VideoEntries(dir: string, entries: seq<Catalog.DirEntry>): seq<VideoFile>
  {
    Seqs.FilterMap(entries, IsLegacyVideo, VideoIn(dir))
  }

  /** The filtering loop keeps exactly the large enough `.mp4` entries, in order. */
  lemma VideoEntriesList(dir: string, entries: seq<Catalog.DirEntry>)
    ensures IsVideoListOf(dir, entries, VideoEntries(dir, entries))
  {
    var idx := Seqs.FilterMapSelects(entries, IsLegacyVideo, VideoIn(dir));
    assert VideoListVia(dir, entries, VideoEntries(dir, entries), idx);
  }

  /** The video list of a listing is unique: nothing else satisfies the description. */
  lemma VideoListUnique(dir: string, entries: seq<Catalog.DirEntry>, a: seq<VideoFile>, b: seq<VideoFile>)
    requires IsVideoListOf(dir, entries, a) && IsVideoListOf(dir, entries, b)
    ensures a == b
  {
    var ia :| VideoListVia(dir, entries, a, ia);
    var ib :| VideoListVia(dir, entries, b, ib);
    Seqs.FilterMapUnique(entries, IsLegacyVideo, VideoIn(dir), a, ia, b, ib);
  }

  /** `ListVideos`. Either directory failure ends the program with exit status 1, which is
      modelled as a failed listing. */
  function ListVideos(dir: string, listing: Catalog.Listing): (r: Result<seq<VideoFile>, ScanError>)
    ensures listing.open.Fail? ==> r == Failure(OpenDirFailed(dir, listing.open.error))
    ensures listing.open.Pass? && listing.entries.Failure? ==>
              r == Failure(ListDirFailed(dir, listing.entries.error))
    ensures r.Success? ==> listing.open.Pass? && listing.entries.Success?
    ensures r.Success? ==> IsVideoListOf(dir, listing.entries.value, r.value)
  {
    if listing.open.Fail? then Failure(OpenDirFailed(dir, listing.open.error))
    else if listing.entries.Failure? then Failure(ListDirFailed(dir, listing.entries.error))
    else
      VideoEntriesList(dir, listing.entries.value);
      Success(VideoEntries(dir, listing.entries.value))
  }

  /** Unlike the newer catalog, the old filter is case-sensitive: a file ending in an
      upper-case `.MP4` is a video to the catalog but is never listed here. */
  lemma UpperCaseExtensionSkipped(name: string, size: nat)
    requires Catalog.Ext(name) == ".MP4"
    ensures !IsLegacyVideo(Catalog.DirEntry(name, size))
    ensures Catalog.GuessMediaType(name) == Video
  {
    assert LowerAscii(".MP4") == ".mp4";
  }

  /** The diff of `main` for one source video: shrunk, with the first same-named
      destination video's size, when there is one. */
  function Status(v: VideoFile, dst: seq<VideoFile>): VideoFileStatus
  {
    match Seqs.FindFirst(dst, (d: VideoFile) => d.name == v.name)
    case None => VideoFileStatus(v.name, v.size, false, 0, false)
    case Some(k) => VideoFileStatus(v.name, v.size, true, dst[k].size, false)
  }

  /** The diff of `main`: one status per source video, in listing order. A source is
      shrunk exactly when some destination video has its name, and then takes the size
      of the first one. */
  function Statuses(src: seq<VideoFile>, dst: seq<VideoFile>): (r: seq<VideoFileStatus>)
    ensures |r| == |src|
    ensures forall i :: 0 <= i < |src| ==>
              r[i].name == src[i].name && r[i].size == src[i].size && !r[i].hadError
    ensures forall i :: 0 <= i < |src| ==>
              (r[i].isShrunk <==> exists k :: 0 <= k < |dst| && dst[k].name == src[i].name)
    ensures forall i, k :: 0 <= i < |src| && 0 <= k < |dst| && dst[k].name == src[i].name
              && (forall j :: 0 <= j < k ==> dst[j].name != src[i].name)
              ==> r[i].shrunkSize == dst[k].size
    ensures forall i :: 0 <= i < |src| && !r[i].isShrunk ==> r[i].shrunkSize == 0
  {
    seq(|src|, i requires 0 <= i < |src| => Status(src[i], dst))
  }

  /** The selection scan of the convert loop over the first `n` records: the first
      unshrunk record, replaced by any later one that is strictly larger. */
  function LargestAmong(movies: seq<VideoFileStatus>, n: nat): (r: Option<nat>)
    requires n <= |movies|
    ensures r.None? <==> forall i :: 0 <= i < n ==> movies[i].isShrunk
    ensures r.Some? ==> r.value < n && !movies[r.value].isShrunk
    ensures r.Some? ==> forall i :: 0 <= i < n && !movies[i].isShrunk ==>
                          movies[i].size <= movies[r.value].size
    ensures r.Some? ==> forall i :: 0 <= i < r.value && !movies[i].isShrunk ==>
                          movies[i].size < movies[r.value].size
    decreases n
  {
    if n == 0 then None
    else
      var best := LargestAmong(movies, n - 1);
      var m := movies[n - 1];
      if m.isShrunk then best
      else if best.None? then Some(n - 1)
      else if m.size > movies[best.value].size then Some(n - 1)
      else best
  }

  /** The largest unshrunk record, the earliest among equals; none when all are shrunk. */
  function LargestUnshrunk(movies: seq<VideoFileStatus>): Option<nat>
  {
    LargestAmong(movies, |movies|)
  }

  /** The selection loop as written: one pass keeping the best candidate so far. */
  method SelectLargest(movies: seq<VideoFileStatus>) returns (largest: Option<nat>)
    ensures largest == LargestUnshrunk(movies)
  {
    largest := None;
    var i := 0;
    while i < |movies|
      invariant 0 <= i <= |movies|
      invariant largest == LargestAmong(movies, i)
    {
      var movie := movies[i];
      if !movie.isShrunk {
        if largest.None? {
          largest := Some(i);
        } else if movie.size > movies[largest.value].size {
          largest := Some(i);
        }
      }
      i := i + 1;
    }
  }

  /** At most one index meets the selection's description, so it is determined by the
      shrunk flags and the sizes alone. */
  lemma SelectionUnique(movies: seq<VideoFileStatus>, a: nat, b: nat)
    requires a < |movies| && b < |movies| && !movies[a].isShrunk && !movies[b].isShrunk
    requires forall i :: 0 <= i < |movies| && !movies[i].isShrunk ==> movies[i].size <= movies[a].size
    requires forall i :: 0 <= i < a && !movies[i].isShrunk ==> movies[i].size < movies[a].size
    requires forall i :: 0 <= i < |movies| && !movies[i].isShrunk ==> movies[i].size <= movies[b].size
    requires forall i :: 0 <= i < b && !movies[i].isShrunk ==> movies[i].size < movies[b].size
    ensures a == b
  {
  }

  /** Recording an error on a record does not change the selection: `HadError` is never
      consulted, so a movie whose shrink failed is chosen again. */
  lemma {:induction false} SelectionIgnoresHadError(movies: seq<VideoFileStatus>, k: nat)
    requires k < |movies|
    ensures LargestUnshrunk(movies[k := movies[k].(hadError := true)]) == LargestUnshrunk(movies)
  {
    var marked := movies[k := movies[k].(hadError := true)];
    assert forall i :: 0 <= i < |movies| ==>
             marked[i].isShrunk == movies[i].isShrunk && marked[i].size == movies[i].size;
    var a, b := LargestUnshrunk(marked), LargestUnshrunk(movies);
    if a.Some? && b.Some? {
      SelectionUnique(movies, a.value, b.value);
    }
  }

  /** The ffmpeg arguments of the old converter: the scale filter is always there, with
      the same 720/1080 target, and nothing else but the input and the temp output. */
  function LegacyArgs(inpath: string, temppath: string, size: VideoSize): (args: seq<string>)
    ensures |args| == 6 && args[3] == "-vf" && args[4] == ScaleFilter(TargetWidth(size))
    ensures args[..3] == ["-y", "-i", inpath] && args[5] == temppath
  {
    ["-y", "-i", inpath, "-vf", ScaleFilter(TargetWidth(size)), temppath]
  }

  /** With no upscale guard, every video narrower than its target is scaled up to it by
      the old command, while the new command puts no filter between the input and the
      encoder options. */
  lemma LegacyUpscales(inpath: string, temppath: string, size: VideoSize)
    requires size.width < TargetWidth(size)
    ensures LegacyArgs(inpath, temppath, size)[3..5] == ["-vf", ScaleFilter(TargetWidth(size))]
    ensures TargetWidth(size) > size.width
    ensures var args := FfmpegArgs(ProcessingRequest(inpath, temppath), size);
            |args| == 8 && args[3..|args| - 5] == []
  {
  }

  /** For a video wider than its target, the old and the new command ask for the same
      scale filter. */
  lemma LegacyAgreesWhenWider(inpath: string, temppath: string, size: VideoSize)
    requires size.width > TargetWidth(size)
    ensures LegacyArgs(inpath, temppath, size)[3..5]
            == FfmpegArgs(ProcessingRequest(inpath, temppath), size)[3..5]
  {
  }

  /** The value one chunk reports, if any: its timestamp in centiseconds. */
  function Stamp(line: string): (r: Option<int>)
    ensures r.Some? <==> ExtractTimestamp(line).Some?
  {
    match ExtractTimestamp(line)
    case None => None
    case Some(ts) => Some(ParseTimeFF(ts))
  }

  /** The reports of one chunk when `stamp` reads its value. */
  function ReportVia(line: string, stamp: string -> Option<int>): seq<int>
  {
    match stamp(line)
    case None => []
    case Some(v) => [v]
  }

  /** The old read loop as written, with `stamp` reading each chunk's value: read a
      chunk, skip it when it has none, otherwise report it and stop if the read also
      returned an error. `None` means the loop is still running after `fuel`
      iterations. */
  function ReadLoopVia(s: Stderr, k: nat, fuel: nat, stamp: string -> Option<int>): (r: Option<seq<int>>)
    ensures r.Some? ==> 1 <= |r.value| <= fuel
    ensures r.Some? ==> exists j :: k <= j < k + fuel && ReadChunk(s, j).1.Some?
                                    && stamp(ReadChunk(s, j).0).Some?
    decreases fuel
  {
    if fuel == 0 then None
    else
      var read := ReadChunk(s, k);
      match stamp(read.0)
      case None => ReadLoopVia(s, k + 1, fuel - 1, stamp)
      case Some(v) =>
        if read.1.Some? then Some([v])
        else match ReadLoopVia(s, k + 1, fuel - 1, stamp)
          case None => None
          case Some(rest) => Some([v] + rest)
  }

  /** The old read loop as written, parsing timestamps as the program does. The error
      is looked at only after the skips, so the loop ends only at a read that both
      returned an error and held a usable timestamp. */
  function ReadLoopAsWritten(s: Stderr, k: nat, fuel: nat): (r: Option<seq<int>>)
    ensures r.Some? ==> 1 <= |r.value| <= fuel
    ensures r.Some? ==> exists j :: k <= j < k + fuel && ReadChunk(s, j).1.Some?
                                    && ExtractTimestamp(ReadChunk(s, j).0).Some?
  {
    ReadLoopVia(s, k, fuel, Stamp)
  }

  /** The empty text read after the end holds no timestamp. */
  lemma EmptyHasNoTimestamp()
    ensures ExtractTimestamp("") == None
  {
    assert forall j: nat :: !OccursAt("", TimeKey, j);
  }

  /** The defect: when the text after the last `\r` has no usable timestamp, the loop
      never ends. Every later read returns empty text with the end condition, which is
      skipped before the end condition is looked at. */
  lemma {:induction false} AsWrittenNeverEnds(s: Stderr, k: nat, fuel: nat)
    requires ExtractTimestamp(s.last) == None
    ensures ReadLoopAsWritten(s, k, fuel) == None
    decreases fuel
  {
    if fuel > 0 {
      EmptyHasNoTimestamp();
      AsWrittenNeverEnds(s, k + 1, fuel - 1);
      if k >= |s.chunks| {
        assert ExtractTimestamp(ReadChunk(s, k).0) == None;
      }
    }
  }

  /** A text without the letter 't' holds no `time=`. */
  lemma NoKeyWithoutT(line: string)
    requires forall i :: 0 <= i < |line| ==> line[i] != 't'
    ensures ExtractTimestamp(line) == None
  {
    forall j: nat
      ensures !OccursAt(line, TimeKey, j)
    {
      if j + |TimeKey| <= |line| {
        assert line[j..j + |TimeKey|][0] == line[j];
      }
    }
  }

  /** A concrete case: ffmpeg gives up at once and its whole stderr is
      "Conversion failed!\n"; the loop as written spins on it for ever. */
  lemma EarlyFailureHangs(fuel: nat)
    ensures ReadLoopAsWritten(Stderr([], "Conversion failed!\n", Eof), 0, fuel) == None
  {
    NoKeyWithoutT("Conversion failed!\n");
    AsWrittenNeverEnds(Stderr([], "Conversion failed!\n", Eof), 0, fuel);
  }

  /** Wherever the loop as written does end, it agrees with the fixed loop: given a
      timestamp in the final text, one read per complete chunk plus one reports every
      complete chunk and then the final text. */
  lemma AsWrittenAgreesWhenItEnds(s: Stderr)
    requires ExtractTimestamp(s.last).Some?
    ensures ReadLoopAsWritten(s, 0, |s.chunks| + 1) == Some(LegacyProgress(s))
  {
    ViaFrom(s, 0, |s.chunks| + 1, Stamp);
    ProgressIsVia(s.chunks);
    ReportIsVia(s.last);
  }

  /** The reports of the complete chunks from the `k`-th on. */
  function ProgressVia(chunks: seq<string>, k: nat, stamp: string -> Option<int>): seq<int>
    decreases |chunks| - k
  {
    if k >= |chunks| then [] else ReportVia(chunks[k], stamp) + ProgressVia(chunks, k + 1, stamp)
  }

  /** Reading a chunk's reports through `Stamp` gives its progress reports. */
  lemma ReportIsVia(line: string)
    ensures ReportVia(line, Stamp) == Report(line)
  {
  }

  /** The progress reports of the complete chunks, read from the first chunk on. */
  lemma {:induction false} ProgressIsVia(chunks: seq<string>)
    ensures Progress(chunks) == ProgressVia(chunks, 0, Stamp)
    decreases |chunks|
  {
    if |chunks| == 0 {
      assert Progress(chunks) == [];
    } else {
      var init, last := chunks[..|chunks| - 1], chunks[|chunks| - 1];
      assert init + [last] == chunks;
      ProgressIsVia(init);
      ProgressViaAppend(init, last, 0, Stamp);
      ReportIsVia(last);
    }
  }

  /** A chunk added at the end adds its reports at the end. */
  lemma {:induction false} ProgressViaAppend(xs: seq<string>, x: string, k: nat, stamp: string -> Option<int>)
    requires k <= |xs|
    ensures ProgressVia(xs + [x], k, stamp) == ProgressVia(xs, k, stamp) + ReportVia(x, stamp)
    decreases |xs| - k
  {
    var ys := xs + [x];
    if k == |xs| {
      assert ys[k] == x;
      assert ProgressVia(ys, k + 1, stamp) == [];
      assert ProgressVia(ys, k, stamp) == ReportVia(x, stamp) + [];
      assert ProgressVia(xs, k, stamp) == [];
    } else {
      ProgressViaAppend(xs, x, k + 1, stamp);
      assert ys[k] == xs[k];
      assert ProgressVia(ys, k, stamp) == ReportVia(xs[k], stamp) + ProgressVia(ys, k + 1, stamp);
      assert ProgressVia(xs, k, stamp) == ReportVia(xs[k], stamp) + ProgressVia(xs, k + 1, stamp);
    }
  }

  /** The loop as written, started at the `k`-th read with just enough iterations left. */
  lemma {:induction false} ViaFrom(s: Stderr, k: nat, fuel: nat, stamp: string -> Option<int>)
    requires k <= |s.chunks| && k + fuel == |s.chunks| + 1 && stamp(s.last).Some?
    ensures ReadLoopVia(s, k, fuel, stamp)
            == Some(ProgressVia(s.chunks, k, stamp) + ReportVia(s.last, stamp))
    decreases fuel
  {
    if k == |s.chunks| {
      ViaLast(s, stamp);
      ViaEnd(s, stamp);
    } else {
      ViaFrom(s, k + 1, fuel - 1, stamp);
      ViaNext(s, k, fuel, stamp);
    }
  }

  /** The base of `ViaFrom`: the last read alone. */
  lemma ViaEnd(s: Stderr, stamp: string -> Option<int>)
    requires ReadLoopVia(s, |s.chunks|, 1, stamp) == Some(ReportVia(s.last, stamp))
    ensures ReadLoopVia(s, |s.chunks|, 1, stamp)
            == Some(ProgressVia(s.chunks, |s.chunks|, stamp) + ReportVia(s.last, stamp))
  {
    assert ProgressVia(s.chunks, |s.chunks|, stamp) == [];
    assert [] + ReportVia(s.last, stamp) == ReportVia(s.last, stamp);
  }

  /** The step of `ViaFrom`: one complete chunk before the rest. */
  lemma ViaNext(s: Stderr, k: nat, fuel: nat, stamp: string -> Option<int>)
    requires k < |s.chunks| && fuel > 0
    requires ReadLoopVia(s, k + 1, fuel - 1, stamp)
             == Some(ProgressVia(s.chunks, k + 1, stamp) + ReportVia(s.last, stamp))
    ensures ReadLoopVia(s, k, fuel, stamp)
            == Some(ProgressVia(s.chunks, k, stamp) + ReportVia(s.last, stamp))
  {
    var rest := ProgressVia(s.chunks, k + 1, stamp) + ReportVia(s.last, stamp);
    ViaChunk(s, k, fuel, stamp, rest);
    var here := ReportVia(s.chunks[k], stamp);
    assert ProgressVia(s.chunks, k, stamp) == here + ProgressVia(s.chunks, k + 1, stamp);
    assert here + rest == (here + ProgressVia(s.chunks, k + 1, stamp)) + ReportVia(s.last, stamp);
  }

  /** The last read of the loop as written: the final text, with its timestamp. */
  lemma ViaLast(s: Stderr, stamp: string -> Option<int>)
    requires stamp(s.last).Some?
    ensures ReadLoopVia(s, |s.chunks|, 1, stamp) == Some(ReportVia(s.last, stamp))
  {
    assert ReadChunk(s, |s.chunks|) == (s.last, Some(s.end));
  }

  /** A read of a complete chunk by the loop as written reports it, then carries on. */
  lemma ViaChunk(s: Stderr, k: nat, fuel: nat, stamp: string -> Option<int>, rest: seq<int>)
    requires k < |s.chunks| && fuel > 0 && ReadLoopVia(s, k + 1, fuel - 1, stamp) == Some(rest)
    ensures ReadLoopVia(s, k, fuel, stamp) == Some(ReportVia(s.chunks[k], stamp) + rest)
  {
    var c := s.chunks[k];
    var read := ReadChunk(s, k);
    assert read.1.None? && read.0 == c;
    match stamp(c)
    case None =>
      assert ReportVia(c, stamp) + rest == rest;
    case Some(v) =>
      assert ReportVia(c, stamp) == [v];
  }

  /** The progress of the old loop: every complete chunk, then the final text. */
  function LegacyProgress(s: Stderr): (r: seq<int>)
    ensures |r| <= |s.chunks| + 1
  {
    Progress(s.chunks) + Report(s.last)
  }

  /** The read loop as evidently intended: parse each chunk, report its timestamp if it
      has one, then stop at the first read error whether or not the chunk had one. It
      always ends, after one read per complete chunk plus one, having reported every
      complete chunk and then the final text. */
  method ReadLoopFixed(s: Stderr) returns (reports: seq<int>)
    ensures reports == LegacyProgress(s)
  {
    reports := [];
    var k := 0;
    while true
      invariant 0 <= k <= |s.chunks|
      invariant reports == Progress(s.chunks[..k])
      decreases |s.chunks| - k
    {
      var read := ReadChunk(s, k);
      if read.1.Some? {
        reports := reports + Report(read.0);
        break;
      }
      ProgressStep(s.chunks, k);
      reports := reports + Report(read.0);
      k := k + 1;
    }
    assert s.chunks[..k] == s.chunks;
  }

  /** The error of the old shrink: one of the video errors, or an output that could not
      be confirmed. */
  datatype LegacyError = ConversionFailed(video: VideoError) | OutputNotConfirmed(cause: string)

  /** The filesystem changes the old shrink makes. Their outcomes are ignored. */
  datatype FsAction =
    | RemoveTemp(path: string)
    | MoveTemp(from: string, to: string)
    | RemoveInput(path: string)

  /** The outcomes of the external steps of one old shrink. */
  datatype LegacyIo = LegacyIo(
    probeInput: Result<VideoSize, string>,
    stderr: Stderr,
    wait: Outcome<string>,
    probeTemp: Result<VideoSize, string>,
    outputStat: Result<nat, string>)

  /** What one old shrink did. */
  datatype LegacyRun = LegacyRun(
    command: Option<seq<string>>,
    progress: seq<int>,
    actions: seq<FsAction>,
    movie: VideoFileStatus,
    result: Outcome<LegacyError>)

  /** `Converter.ShrinkMovie`. After ffmpeg exits: a failed probe of the temp file removes
      it; a duration off by 0.1 s or more leaves it in place; otherwise it is moved to the
      destination, the move's own outcome ignored. Only a confirmed output marks the
      record shrunk, and only then, in a cleaning run, is the input removed. */
  function LegacyShrinkMovie(app: Converter, movie: VideoFileStatus, io: LegacyIo): (r: LegacyRun)
    ensures r.movie.(isShrunk := movie.isShrunk, shrunkSize := movie.shrunkSize) == movie
    ensures r.command.Some? <==> io.probeInput.Success?
    ensures r.command.Some? ==> r.progress == LegacyProgress(io.stderr)
    ensures r.result.Pass? <==>
              && io.probeInput.Success? && io.wait.Pass? && io.probeTemp.Success?
              && DurationsEqual(io.probeInput.value.duration, io.probeTemp.value.duration)
              && io.outputStat.Success?
    ensures r.result.Pass? ==> r.movie.isShrunk && r.movie.shrunkSize == io.outputStat.value
    ensures r.result.Fail? ==> r.movie == movie
  {
    var inpath := Join(app.srcDir, movie.name);
    var outpath := Join(app.dstDir, movie.name);
    var temppath := Join(app.tmpDir, movie.name);
    match io.probeInput
    case Failure(e) => LegacyRun(None, [], [], movie, Fail(ConversionFailed(ProbeInputFailed(e))))
    case Success(size) =>
      var command := Some(LegacyArgs(inpath, temppath, size));
      var progress := LegacyProgress(io.stderr);
      if io.wait.Fail? then
        LegacyRun(command, progress, [], movie, Fail(ConversionFailed(TranscoderFailed(io.wait.error))))
      else match io.probeTemp
        case Failure(e) =>
          LegacyRun(command, progress, [RemoveTemp(temppath)], movie,
                    Fail(ConversionFailed(ProbeOutputFailed(e))))
        case Success(outSize) =>
          if !DurationsEqual(size.duration, outSize.duration) then
            LegacyRun(command, progress, [], movie,
                      Fail(ConversionFailed(DurationMismatch(size.duration, outSize.duration))))
          else
            var moved := [MoveTemp(temppath, outpath)];
            match io.outputStat
            case Failure(e) => LegacyRun(command, progress, moved, movie, Fail(OutputNotConfirmed(e)))
            case Success(n) =>
              var removed := if app.doClean then [RemoveInput(inpath)] else [];
              LegacyRun(command, progress, moved + removed,
                        movie.(isShrunk := true, shrunkSize := n), Pass)
  }

  /** The finalize rule: the temp file is removed exactly when its probe fails after a
      clean ffmpeg exit; it is moved exactly when the durations agree within 0.1 s; the
      input is removed only in a cleaning run after a confirmed output, and last. */
  lemma FinalizeRule(app: Converter, movie: VideoFileStatus, io: LegacyIo)
    ensures var r := LegacyShrinkMovie(app, movie, io);
            var temppath := Join(app.tmpDir, movie.name);
            (RemoveTemp(temppath) in r.actions) <==>
              (io.probeInput.Success? && io.wait.Pass? && io.probeTemp.Failure?)
    ensures var r := LegacyShrinkMovie(app, movie, io);
            var temppath, outpath := Join(app.tmpDir, movie.name), Join(app.dstDir, movie.name);
            (MoveTemp(temppath, outpath) in r.actions) <==>
              (&& io.probeInput.Success? && io.wait.Pass? && io.probeTemp.Success?
               && DurationsEqual(io.probeInput.value.duration, io.probeTemp.value.duration))
    ensures var r := LegacyShrinkMovie(app, movie, io);
            var inpath := Join(app.srcDir, movie.name);
            (RemoveInput(inpath) in r.actions) <==> (app.doClean && r.result.Pass?)
    ensures var r := LegacyShrinkMovie(app, movie, io);
            |r.actions| == 2 ==> r.actions[0].MoveTemp? && r.actions[1].RemoveInput?
  {
    FinalizeRemovesTemp(app, movie, io);
    FinalizeMovesTemp(app, movie, io);
    FinalizeRemovesInput(app, movie, io);
  }

  lemma FinalizeRemovesTemp(app: Converter, movie: VideoFileStatus, io: LegacyIo)
    ensures var r := LegacyShrinkMovie(app, movie, io);
            var temppath := Join(app.tmpDir, movie.name);
            (RemoveTemp(temppath) in r.actions) <==>
              (io.probeInput.Success? && io.wait.Pass? && io.probeTemp.Failure?)
  {
  }

  lemma FinalizeMovesTemp(app: Converter, movie: VideoFileStatus, io: LegacyIo)
    ensures var r := LegacyShrinkMovie(app, movie, io);
            var temppath, outpath := Join(app.tmpDir, movie.name), Join(app.dstDir, movie.name);
            (MoveTemp(temppath, outpath) in r.actions) <==>
              (&& io.probeInput.Success? && io.wait.Pass? && io.probeTemp.Success?
               && DurationsEqual(io.probeInput.value.duration, io.probeTemp.value.duration))
  {
  }

  lemma FinalizeRemovesInput(app: Converter, movie: VideoFileStatus, io: LegacyIo)
    ensures var r := LegacyShrinkMovie(app, movie, io);
            var inpath := Join(app.srcDir, movie.name);
            (RemoveInput(inpath) in r.actions) <==> (app.doClean && r.result.Pass?)
  {
  }

  /** The tighter tolerance: a 0.5 s difference passes the newer check but fails here,
      leaving the temp file unmoved. */
  lemma HalfSecondOffIsRejected(app: Converter, movie: VideoFileStatus, io: LegacyIo)
    requires io.probeInput.Success? && io.wait.Pass? && io.probeTemp.Success?
    requires io.probeTemp.value.duration == io.probeInput.value.duration + 0.5
    ensures LegacyShrinkMovie(app, movie, io).actions == []
    ensures LegacyShrinkMovie(app, movie, io).result.Fail?
    ensures DurationsRoughlyEqual(io.probeInput.value.duration, io.probeTemp.value.duration)
  {
  }

  /** One round of the convert loop: pick the largest unshrunk video and shrink it,
      recording a failure in `HadError`. `None` when every video is shrunk. */
  function ConvertStep(app: Converter, movies: seq<VideoFileStatus>, ioOf: string -> LegacyIo)
    : (r: Option<(nat, seq<VideoFileStatus>)>)
    ensures r.None? <==> forall i :: 0 <= i < |movies| ==> movies[i].isShrunk
    ensures r.Some? ==> r.value.0 < |movies| && |r.value.1| == |movies|
    ensures r.Some? ==> forall i :: 0 <= i < |movies| && i != r.value.0 ==> r.value.1[i] == movies[i]
    ensures r.Some? ==> Some(r.value.0) == LargestUnshrunk(movies)
    ensures r.Some? ==>
              var k := r.value.0;
              var run := LegacyShrinkMovie(app, movies[k], ioOf(movies[k].name));
              && (run.result.Pass? ==> r.value.1[k] == run.movie && r.value.1[k].isShrunk)
              && (run.result.Fail? ==> r.value.1[k] == movies[k].(hadError := true))
              && !r.value.1[k].isShrunk == run.result.Fail?
  {
    match LargestUnshrunk(movies)
    case None => None
    case Some(k) =>
      var run := LegacyShrinkMovie(app, movies[k], ioOf(movies[k].name));
      var updated := if run.result.Fail? then run.movie.(hadError := true) else run.movie;
      Some((k, movies[k := updated]))
  }

  /** A failing video is picked again by the next round, with the same outcomes: the
      convert loop as written does not move past it. */
  lemma FailureIsRetried(app: Converter, movies: seq<VideoFileStatus>, ioOf: string -> LegacyIo)
    requires ConvertStep(app, movies, ioOf).Some?
    requires LegacyShrinkMovie(app, movies[ConvertStep(app, movies, ioOf).value.0],
                               ioOf(movies[ConvertStep(app, movies, ioOf).value.0].name)).result.Fail?
    ensures LargestUnshrunk(ConvertStep(app, movies, ioOf).value.1) == Some(ConvertStep(app, movies, ioOf).value.0)
  {
    var k := ConvertStep(app, movies, ioOf).value.0;
    SelectionIgnoresHadError(movies, k);
  }
}
