/** The per-run pipeline of process.go: the per-file state machine `ProcessMediaFile`,
    source removal, and `DoProcess`, which lists, diffs, sorts, cleans and processes. Every
    filesystem call and every shrink is replaced by its supplied outcome. */
module Process {
  import opened Wrappers
  import opened Types
  import Catalog
  import Ordering
  import Stats
  import Videos
  import Pictures
  import Seqs

  /** The outcomes of the calls made for one file. `removal` is the first `os.Remove` of
      the source: in the clean pass for an already converted file, or right after a
      successful conversion. `removalRetry` is the second attempt the processing loop
      makes on an already converted file whose first removal failed. */
  datatype FileIo = FileIo(
    inputStat: Result<nat, string>,
    video: Videos.VideoIo,
    image: Pictures.ImageIo,
    tempStat: Result<nat, string>,
    rename: Outcome<string>,
    copy: Outcome<string>,
    outputStat: Result<nat, string>,
    removal: Outcome<string>,
    removalRetry: Outcome<string>)

  /** How the output was put in place: the shrunk temp file renamed, or the input copied
      because the shrunk file came out larger. */
  datatype Move = RenameTemp | CopyInput

  /** The effect of processing one file: its new record, the shrink request made for it,
      and the move attempted for it. */
  datatype FileStep = FileStep(file: MediaFile, request: Option<ProcessingRequest>, move: Option<Move>)

  function ImageOutcome(o: Outcome<ImageError>): Outcome<ShrinkError>
  {
    match o
    case Pass => Pass
    case Fail(e) => Fail(ImageFailed(e))
  }

  /** The dispatch on the media type. The `default` branch only logs, leaving the result
      empty; the guard of `ProcessMediaFile` keeps unknown types from reaching it. */
  function Shrink(t: MediaType, request: ProcessingRequest, io: FileIo): (r: Outcome<ShrinkError>)
    ensures r.Fail? ==> (r.error.VideoFailed? <==> t == Video)
    ensures t == Video ==> (r.Pass? <==> Videos.ShrinkMovie(request, io.video).result.Pass?)
    ensures t == JPG ==> (r.Pass? <==> Pictures.ShrinkJPG(request, io.image).result.Pass?)
    ensures t == PNG ==> (r.Pass? <==> Pictures.ShrinkPNG(request, io.image).result.Pass?)
  {
    match t
    case Video =>
      (match Videos.ShrinkMovie(request, io.video).result
       case Pass => Pass
       case Fail(e) => Fail(VideoFailed(e)))
    case JPG => ImageOutcome(Pictures.ShrinkJPG(request, io.image).result)
    case PNG => ImageOutcome(Pictures.ShrinkPNG(request, io.image).result)
    case UnknownType => Pass
  }

  /** The fields a processing step never changes. */
  predicate SameEntry(a: MediaFile, b: MediaFile)
  {
    a.mediaType == b.mediaType && a.dir == b.dir && a.name == b.name && a.size == b.size
  }

  /** The request sent to the shrinker: read the source, write the temp directory. */
  function RequestFor(opts: Options, f: MediaFile): ProcessingRequest
  {
    ProcessingRequest(Join(f.dir, f.name), Join(opts.tmpDir, f.name))
  }

  /** `ProcessMediaFile`. Only a waiting file of a known type is touched. A missing input
      records the error and leaves the stage `Waiting`; a failed shrink ends in
      `ProcessingError`; a missing temp file records the error and leaves the stage
      `ProcessingInProgress`. Otherwise the stage becomes `ProcessingSuccess` and the
      output is put in place: by copying the input when the shrunk file is larger, by
      renaming it otherwise. A failed move or output check records the error; only a
      confirmed output sets the shrunk size. */
  function ProcessMediaFile(opts: Options, f: MediaFile, io: FileIo): (r: FileStep)
    ensures SameEntry(r.file, f) && r.file.deleted == f.deleted
    ensures f.stage != Waiting || f.mediaType == UnknownType ==> r == FileStep(f, None, None)
    ensures r.request.Some? <==> f.stage == Waiting && f.mediaType != UnknownType && io.inputStat.Success?
    ensures r.request.Some? ==> r.request.value == RequestFor(opts, f)
    ensures r.file.stage == AlreadyProcessed ==> f.stage == AlreadyProcessed
    ensures r.move.Some? ==> r.request.Some? && io.tempStat.Success?
    ensures r.move.Some? ==> (r.move.value == CopyInput <==> io.tempStat.value > io.inputStat.value)
    ensures r.file.shrunkSize != f.shrunkSize ==>
              && r.file.stage == ProcessingSuccess && r.file.error == None
              && io.outputStat.Success? && r.file.shrunkSize == io.outputStat.value
  {
    if f.stage != Waiting || f.mediaType == UnknownType then FileStep(f, None, None)
    else match io.inputStat
      case Failure(e) => FileStep(f.(error := Some(InputMissing(e))), None, None)
      case Success(inputSize) =>
        var request := RequestFor(opts, f);
        var active := f.(stage := ProcessingInProgress);
        match Shrink(f.mediaType, request, io)
        case Fail(e) =>
          FileStep(active.(stage := ProcessingError, error := Some(ShrinkFailed(e))), Some(request), None)
        case Pass =>
          match io.tempStat
          case Failure(e) => FileStep(active.(error := Some(OutputMissing(e))), Some(request), None)
          case Success(tempSize) =>
            var done := active.(stage := ProcessingSuccess, error := None);
            var move := if tempSize > inputSize then CopyInput else RenameTemp;
            var moved := if move == CopyInput then io.copy else io.rename;
            if moved.Fail? then FileStep(done.(error := Some(FinalMoveFailed)), Some(request), Some(move))
            else match io.outputStat
              case Failure(e) =>
                FileStep(done.(error := Some(OutputUnconfirmed(e))), Some(request), Some(move))
              case Success(outputSize) =>
                FileStep(done.(shrunkSize := outputSize), Some(request), Some(move))
  }

  /** A failed shrink leaves the file in `ProcessingError` with that error and no shrunk
      size, and nothing is moved. */
  lemma ShrinkFailureRecorded(opts: Options, f: MediaFile, io: FileIo)
    requires f.stage == Waiting && f.mediaType != UnknownType && io.inputStat.Success?
    requires Shrink(f.mediaType, RequestFor(opts, f), io).Fail?
    ensures var r := ProcessMediaFile(opts, f, io);
            && r.file.stage == ProcessingError
            && r.file.error == Some(ShrinkFailed(Shrink(f.mediaType, RequestFor(opts, f), io).error))
            && r.file.shrunkSize == f.shrunkSize && r.move == None
  {
  }

  /** A missing input records the error but leaves the file `Waiting`, and nothing is
      requested. */
  lemma MissingInputStaysWaiting(opts: Options, f: MediaFile, io: FileIo)
    requires f.stage == Waiting && f.mediaType != UnknownType && io.inputStat.Failure?
    ensures ProcessMediaFile(opts, f, io).file == f.(error := Some(InputMissing(io.inputStat.error)))
  {
  }

  /** The only way to a clean success: the input is there, the shrink passes, the temp
      file is there, the move succeeds and the output is confirmed; the shrunk size is then
      the confirmed output's size. */
  lemma CleanSuccessIff(opts: Options, f: MediaFile, io: FileIo)
    requires f.stage == Waiting && f.mediaType != UnknownType
    ensures var r := ProcessMediaFile(opts, f, io);
            (r.file.stage == ProcessingSuccess && r.file.error == None) <==>
              && io.inputStat.Success? && Shrink(f.mediaType, RequestFor(opts, f), io).Pass?
              && io.tempStat.Success?
              && (if io.tempStat.value > io.inputStat.value then io.copy else io.rename).Pass?
              && io.outputStat.Success?
    ensures var r := ProcessMediaFile(opts, f, io);
            r.file.stage == ProcessingSuccess && r.file.error == None ==>
              r.file.shrunkSize == io.outputStat.value
  {
  }

  /** `removeMediaFile`: the file is marked deleted exactly when its removal succeeds;
      nothing else about it changes. */
  function RemoveMediaFile(f: MediaFile, removal: Outcome<string>): (r: MediaFile)
    ensures r.deleted == (f.deleted || removal.Pass?)
    ensures r.(deleted := f.deleted) == f
  {
    if removal.Pass? then f.(deleted := true) else f
  }

  /** Whether a cleaning run removes this file as already converted. */
  predicate DueForCleanup(opts: Options, f: MediaFile)
  {
    opts.doClean && f.stage == AlreadyProcessed && !f.deleted
  }

  /** The clean pass of `DoProcess` on one file: remove an already converted source. */
  function Prepass(opts: Options, f: MediaFile, io: FileIo): (r: MediaFile)
    ensures SameEntry(r, f) && r.stage == f.stage && r.shrunkSize == f.shrunkSize && r.error == f.error
    ensures r.deleted != f.deleted ==> DueForCleanup(opts, f) && io.removal.Pass?
    ensures DueForCleanup(opts, f) ==> r.deleted == io.removal.Pass?
    ensures !DueForCleanup(opts, f) ==> r == f
  {
    if DueForCleanup(opts, f) then RemoveMediaFile(f, io.removal) else f
  }

  /** One iteration of the processing loop of `DoProcess`: retry the removal of an already
      converted source, skip anything not waiting, otherwise process the file and, in a
      cleaning run, remove the source after a clean success. */
  function LoopStep(opts: Options, f: MediaFile, io: FileIo): (r: FileStep)
    ensures SameEntry(r.file, f)
    ensures r.request.Some? ==> f.stage == Waiting && f.mediaType != UnknownType
    ensures r.request.Some? ==> r.request.value == RequestFor(opts, f)
    ensures f.stage != Waiting && !DueForCleanup(opts, f) ==> r == FileStep(f, None, None)
    ensures r.file.deleted != f.deleted ==>
              opts.doClean && (f.stage == AlreadyProcessed
                               || (r.file.stage == ProcessingSuccess && r.file.error == None))
    ensures DueForCleanup(opts, f) ==> r == FileStep(f.(deleted := io.removalRetry.Pass?), None, None)
    ensures f.stage == Waiting ==>
              var step := ProcessMediaFile(opts, f, io);
              && r.file.(deleted := f.deleted) == step.file
              && r.request == step.request && r.move == step.move
    ensures f.stage == Waiting ==>
              (r.file.deleted <==> f.deleted || (opts.doClean && r.file.stage == ProcessingSuccess
                                                 && r.file.error == None && io.removal.Pass?))
  {
    var g := if DueForCleanup(opts, f) then RemoveMediaFile(f, io.removalRetry) else f;
    if g.stage != Waiting then FileStep(g, None, None)
    else
      var step := ProcessMediaFile(opts, g, io);
      if step.file.error == None && step.file.stage == ProcessingSuccess && opts.doClean then
        step.(file := RemoveMediaFile(step.file, io.removal))
      else step
  }

  /** Deletion safety for one file: the clean pass and the loop keep a consistent record
      consistent, so a deleted source was always converted first. */
  lemma FileKeepsConsistent(opts: Options, f: MediaFile, io: FileIo)
    requires Consistent(f)
    ensures Consistent(Prepass(opts, f, io))
    ensures Consistent(LoopStep(opts, Prepass(opts, f, io), io).file)
  {
    var g := Prepass(opts, f, io);
    var h := if DueForCleanup(opts, g) then RemoveMediaFile(g, io.removalRetry) else g;
    assert Consistent(h);
    if h.stage == Waiting {
      assert h.shrunkSize == 0 && !h.deleted;
      var step := ProcessMediaFile(opts, h, io);
      assert Consistent(step.file);
    }
  }

  /** The requests of the processed files, in processing order. */
  function Requests(steps: seq<FileStep>): (r: seq<ProcessingRequest>)
    ensures |r| <= |steps|
    ensures forall q :: q in r ==> exists i :: 0 <= i < |steps| && steps[i].request == Some(q)
    ensures forall i :: 0 <= i < |steps| && steps[i].request.Some? ==> steps[i].request.value in r
    ensures (forall i :: 0 <= i < |steps| ==> steps[i].request.None?) ==> r == []
    decreases |steps|
  {
    if |steps| == 0 then []
    else
      var last := steps[|steps| - 1];
      var init := Requests(steps[..|steps| - 1]);
      assert forall i :: 0 <= i < |steps| - 1 ==> steps[..|steps| - 1][i] == steps[i];
      init + (if last.request.Some? then [last.request.value] else [])
  }

  /** Whether a step made a shrink request. */
  predicate Dispatches(s: FileStep)
  {
    s.request.Some?
  }

  /** The request a step made; only asked of steps that made one. */
  function RequestOf(s: FileStep): ProcessingRequest
  {
    match s.request
    case Some(q) => q
    case None => ProcessingRequest("", "")
  }

  /** The requests are those of the dispatching steps, each once and in processing
      order, through the positions returned. */
  lemma RequestsInOrder(steps: seq<FileStep>) returns (idx: seq<nat>)
    ensures Seqs.FilterMapVia(steps, Dispatches, RequestOf, Requests(steps), idx)
  {
    RequestsFilter(steps);
    idx := Seqs.FilterMapSelects(steps, Dispatches, RequestOf);
  }

  /** The loop collecting the requests is the filtering loop over the steps. */
  lemma {:induction false} RequestsFilter(steps: seq<FileStep>)
    ensures Requests(steps) == Seqs.FilterMap(steps, Dispatches, RequestOf)
    decreases |steps|
  {
    if |steps| > 0 {
      RequestsFilter(steps[..|steps| - 1]);
    }
  }

  /** What a run leaves behind: the final records, the statistics printed before and after
      processing, and the shrink requests made, in order. */
  datatype Run = Run(files: seq<MediaFile>, before: ShrunkStats, after: ShrunkStats,
                     dispatched: seq<ProcessingRequest>)

  /** The work list: the source catalog, diffed against the destination, in name order. */
  function Plan(srcFiles: seq<MediaFile>, dstFiles: seq<MediaFile>): (plan: seq<MediaFile>)
    ensures Ordering.SortedByName(plan)
    ensures multiset(plan) == multiset(Catalog.ResolveStages(srcFiles, dstFiles))
  {
    Ordering.SortByName(Catalog.ResolveStages(srcFiles, dstFiles))
  }

  /** The clean pass of `DoProcess`, file by file. */
  function CleanPass(opts: Options, plan: seq<MediaFile>, ioOf: string -> FileIo): (r: seq<MediaFile>)
    ensures |r| == |plan|
    ensures forall i :: 0 <= i < |plan| ==> r[i] == Prepass(opts, plan[i], ioOf(plan[i].name))
  {
    seq(|plan|, i requires 0 <= i < |plan| => Prepass(opts, plan[i], ioOf(plan[i].name)))
  }

  /** The processing loop of `DoProcess`, file by file: no file's step depends on another's. */
  function LoopPass(opts: Options, files: seq<MediaFile>, ioOf: string -> FileIo): (r: seq<FileStep>)
    ensures |r| == |files|
    ensures forall i :: 0 <= i < |files| ==> r[i] == LoopStep(opts, files[i], ioOf(files[i].name))
  {
    seq(|files|, i requires 0 <= i < |files| => LoopStep(opts, files[i], ioOf(files[i].name)))
  }

  /** The records the steps leave. */
  function FilesOf(steps: seq<FileStep>): (r: seq<MediaFile>)
    ensures |r| == |steps|
    ensures forall i :: 0 <= i < |steps| ==> r[i] == steps[i].file
  {
    seq(|steps|, i requires 0 <= i < |steps| => steps[i].file)
  }

  /** The clean pass over the whole work list, then (unless only reporting) the
      processing loop over it. */
  function Execute(opts: Options, plan: seq<MediaFile>, ioOf: string -> FileIo): (r: Run)
    ensures |r.files| == |plan|
    ensures forall i :: 0 <= i < |plan| ==> SameEntry(r.files[i], plan[i])
    ensures r.before == Stats.AccumulateStats(plan) && r.after == Stats.AccumulateStats(r.files)
  {
    var cleaned := CleanPass(opts, plan, ioOf);
    if opts.reportOnly then Run(cleaned, Stats.AccumulateStats(plan), Stats.AccumulateStats(cleaned), [])
    else
      var steps := LoopPass(opts, cleaned, ioOf);
      var files := FilesOf(steps);
      Run(files, Stats.AccumulateStats(plan), Stats.AccumulateStats(files), Requests(steps))
  }

  /** `DoProcess`: list the source and destination directories (either failure ends the
      run), mark the converted files, sort by name, then clean and process. Creating the
      destination and temp directories is not modelled. */
  function DoProcess(opts: Options, src: Catalog.Listing, dst: Catalog.Listing,
                     ioOf: string -> FileIo): (r: Result<Run, ScanError>)
    ensures Catalog.ListMediaFiles(opts.srcDir, src).Failure? ==>
              r == Failure(Catalog.ListMediaFiles(opts.srcDir, src).error)
    ensures Catalog.ListMediaFiles(opts.srcDir, src).Success? && Catalog.ListMediaFiles(opts.dstDir, dst).Failure? ==>
              r == Failure(Catalog.ListMediaFiles(opts.dstDir, dst).error)
    ensures r.Success? ==> Ordering.SortedByName(r.value.files)
    ensures Catalog.ListMediaFiles(opts.srcDir, src).Success? && Catalog.ListMediaFiles(opts.dstDir, dst).Success? ==>
              var srcFiles := Catalog.ListMediaFiles(opts.srcDir, src).value;
              var dstFiles := Catalog.ListMediaFiles(opts.dstDir, dst).value;
              && r.Success? && |r.value.files| == |srcFiles|
              && multiset(Seqs.MapSeq(r.value.files, EntryOf)) == multiset(Seqs.MapSeq(srcFiles, EntryOf))
              && r.value.before == Stats.AccumulateStats(Catalog.ResolveStages(srcFiles, dstFiles))
  {
    match Catalog.ListMediaFiles(opts.srcDir, src)
    case Failure(e) => Failure(e)
    case Success(srcFiles) =>
      match Catalog.ListMediaFiles(opts.dstDir, dst)
      case Failure(e) => Failure(e)
      case Success(dstFiles) =>
        var plan := Plan(srcFiles, dstFiles);
        var run := Execute(opts, plan, ioOf);
        SameEntriesStaySorted(plan, run.files);
        RunKeepsEntries(opts, srcFiles, dstFiles, ioOf);
        BeforeStatsOfCatalog(opts, srcFiles, dstFiles, ioOf);
        Success(run)
  }

  /** The fields that identify a file on disk; a processing step never changes them. */
  function EntryOf(f: MediaFile): (MediaType, string, string, nat)
  {
    (f.mediaType, f.dir, f.name, f.size)
  }

  /** A run ends with one record per listed source file, holding the same entries in
      name order: nothing is added, dropped or renamed. */
  lemma RunKeepsEntries(opts: Options, srcFiles: seq<MediaFile>, dstFiles: seq<MediaFile>,
                        ioOf: string -> FileIo)
    ensures var files := Execute(opts, Plan(srcFiles, dstFiles), ioOf).files;
            && |files| == |srcFiles|
            && multiset(Seqs.MapSeq(files, EntryOf)) == multiset(Seqs.MapSeq(srcFiles, EntryOf))
  {
    var resolved := Catalog.ResolveStages(srcFiles, dstFiles);
    var plan := Plan(srcFiles, dstFiles);
    var files := Execute(opts, plan, ioOf).files;
    assert |plan| == |resolved| by {
      assert |multiset(plan)| == |multiset(resolved)|;
    }
    SameEntriesSameImage(files, plan);
    Seqs.MapPreservesMultiset(plan, resolved, EntryOf);
    ResolvedEntries(srcFiles, dstFiles);
  }

  /** Records that keep their entries, one for one, have the same entries. */
  lemma SameEntriesSameImage(files: seq<MediaFile>, plan: seq<MediaFile>)
    requires |files| == |plan| && forall i :: 0 <= i < |plan| ==> SameEntry(files[i], plan[i])
    ensures Seqs.MapSeq(files, EntryOf) == Seqs.MapSeq(plan, EntryOf)
  {
    forall i | 0 <= i < |plan|
      ensures EntryOf(files[i]) == EntryOf(plan[i])
    {
      assert SameEntry(files[i], plan[i]);
    }
  }

  /** The diff changes stages and sizes only. */
  lemma ResolvedEntries(srcFiles: seq<MediaFile>, dstFiles: seq<MediaFile>)
    ensures Seqs.MapSeq(Catalog.ResolveStages(srcFiles, dstFiles), EntryOf) == Seqs.MapSeq(srcFiles, EntryOf)
  {
    var resolved := Catalog.ResolveStages(srcFiles, dstFiles);
    forall i | 0 <= i < |srcFiles|
      ensures EntryOf(resolved[i]) == EntryOf(srcFiles[i])
    {
      assert resolved[i] == Catalog.Resolve(srcFiles[i], dstFiles);
    }
  }

  /** Records that keep their entries, one for one, keep their name order. */
  lemma SameEntriesStaySorted(plan: seq<MediaFile>, files: seq<MediaFile>)
    requires Ordering.SortedByName(plan) && |files| == |plan|
    requires forall i :: 0 <= i < |plan| ==> SameEntry(files[i], plan[i])
    ensures Ordering.SortedByName(files)
  {
    forall i, j | 0 <= i < j < |files|
      ensures Ordering.LessEq(files[i].name, files[j].name)
    {
      assert SameEntry(files[i], plan[i]) && SameEntry(files[j], plan[j]);
    }
  }

  /** The statistics printed before processing are those of the diffed catalog: sorting
      does not change them. */
  lemma BeforeStatsOfCatalog(opts: Options, srcFiles: seq<MediaFile>, dstFiles: seq<MediaFile>,
                             ioOf: string -> FileIo)
    ensures Execute(opts, Plan(srcFiles, dstFiles), ioOf).before
              == Stats.AccumulateStats(Catalog.ResolveStages(srcFiles, dstFiles))
  {
    Stats.SortPreservesStats(Catalog.ResolveStages(srcFiles, dstFiles));
  }

  /** Only waiting files of a known type are dispatched, each with its own request, and
      a report-only run dispatches nothing. */
  lemma {:induction false} DispatchOnlyWaiting(opts: Options, plan: seq<MediaFile>, ioOf: string -> FileIo)
    ensures opts.reportOnly ==> Execute(opts, plan, ioOf).dispatched == []
    ensures forall q :: q in Execute(opts, plan, ioOf).dispatched ==>
              exists i :: 0 <= i < |plan| && plan[i].stage == Waiting && plan[i].mediaType != UnknownType
                          && q == RequestFor(opts, plan[i])
  {
    if !opts.reportOnly {
      var cleaned := CleanPass(opts, plan, ioOf);
      var steps := LoopPass(opts, cleaned, ioOf);
      assert Execute(opts, plan, ioOf).dispatched == Requests(steps);
      forall q | q in Requests(steps)
        ensures exists i :: 0 <= i < |plan| && plan[i].stage == Waiting && plan[i].mediaType != UnknownType
                            && q == RequestFor(opts, plan[i])
      {
        var i :| 0 <= i < |steps| && steps[i].request == Some(q);
        assert steps[i] == LoopStep(opts, cleaned[i], ioOf(cleaned[i].name));
        assert SameEntry(cleaned[i], plan[i]) && cleaned[i].stage == plan[i].stage;
      }
    }
  }

  /** Every waiting file of a known type whose input is found is dispatched. */
  lemma {:induction false} WaitingAreDispatched(opts: Options, plan: seq<MediaFile>, ioOf: string -> FileIo, i: nat)
    requires !opts.reportOnly && i < |plan|
    requires plan[i].stage == Waiting && plan[i].mediaType != UnknownType
    requires ioOf(plan[i].name).inputStat.Success?
    ensures RequestFor(opts, plan[i]) in Execute(opts, plan, ioOf).dispatched
  {
    var cleaned := CleanPass(opts, plan, ioOf);
    var steps := LoopPass(opts, cleaned, ioOf);
    assert cleaned[i] == plan[i];
    assert steps[i].request == Some(RequestFor(opts, plan[i]));
  }

  /** Deletion safety for the whole run: starting from consistent records, every final
      record is consistent, so no source is deleted before it was converted. */
  lemma {:induction false} RunKeepsConsistent(opts: Options, plan: seq<MediaFile>, ioOf: string -> FileIo)
    requires forall f :: f in plan ==> Consistent(f)
    ensures forall f :: f in Execute(opts, plan, ioOf).files ==> Consistent(f)
  {
    var cleaned := CleanPass(opts, plan, ioOf);
    forall i | 0 <= i < |plan|
      ensures Consistent(cleaned[i])
      ensures Consistent(LoopStep(opts, cleaned[i], ioOf(cleaned[i].name)).file)
    {
      FileKeepsConsistent(opts, plan[i], ioOf(plan[i].name));
    }
  }

  /** Without cleaning, no source is ever deleted. */
  lemma {:induction false} NoCleanNoDelete(opts: Options, plan: seq<MediaFile>, ioOf: string -> FileIo)
    requires !opts.doClean
    ensures forall i :: 0 <= i < |plan| ==> Execute(opts, plan, ioOf).files[i].deleted == plan[i].deleted
  {
    var cleaned := CleanPass(opts, plan, ioOf);
    forall i | 0 <= i < |plan|
      ensures cleaned[i].deleted == plan[i].deleted
    {
    }
  }

  /** The diffed catalog is consistent: fresh records, and converted ones carrying only a
      destination size. */
  lemma PlanConsistent(srcDir: string, entries: seq<Catalog.DirEntry>, srcFiles: seq<MediaFile>,
                       dstFiles: seq<MediaFile>)
    requires Catalog.IsCatalogOf(srcDir, entries, srcFiles)
    ensures forall f :: f in Plan(srcFiles, dstFiles) ==> Consistent(f)
  {
    CatalogConsistent(srcDir, entries, srcFiles);
    ResolvedConsistent(srcFiles, dstFiles);
    var resolved := Catalog.ResolveStages(srcFiles, dstFiles);
    forall f | f in Plan(srcFiles, dstFiles)
      ensures Consistent(f)
    {
      assert f in multiset(resolved);
    }
  }

  /** A freshly listed catalog is consistent. */
  lemma CatalogConsistent(dir: string, entries: seq<Catalog.DirEntry>, files: seq<MediaFile>)
    requires Catalog.IsCatalogOf(dir, entries, files)
    ensures forall f :: f in files ==> Consistent(f)
  {
    var idx :| Catalog.CatalogVia(dir, entries, files, idx);
    forall f | f in files
      ensures Consistent(f)
    {
      var k :| 0 <= k < |files| && files[k] == f;
      assert f == Catalog.EntryRecord(dir, entries[idx[k]]);
      FreshConsistent(dir, entries[idx[k]]);
    }
  }

  /** A freshly listed record is consistent. */
  lemma FreshConsistent(dir: string, e: Catalog.DirEntry)
    ensures Consistent(Catalog.EntryRecord(dir, e))
  {
  }

  /** The diff keeps a consistent catalog consistent. */
  lemma ResolvedConsistent(srcFiles: seq<MediaFile>, dstFiles: seq<MediaFile>)
    requires forall f :: f in srcFiles ==> Consistent(f)
    ensures forall f :: f in Catalog.ResolveStages(srcFiles, dstFiles) ==> Consistent(f)
  {
    var resolved := Catalog.ResolveStages(srcFiles, dstFiles);
    forall i | 0 <= i < |resolved|
      ensures Consistent(resolved[i])
    {
      assert srcFiles[i] in srcFiles;
      assert resolved[i] == Catalog.Resolve(srcFiles[i], dstFiles);
      ResolveKeepsConsistent(srcFiles[i], dstFiles);
    }
  }

  /** Marking a record converted keeps it consistent. */
  lemma ResolveKeepsConsistent(f: MediaFile, dstFiles: seq<MediaFile>)
    requires Consistent(f)
    ensures Consistent(Catalog.Resolve(f, dstFiles))
  {
  }

  /** A source with a same-named destination file is marked converted by the diff. */
  lemma MatchedIsConverted(f: MediaFile, dstFiles: seq<MediaFile>, k: nat)
    requires k < |dstFiles| && dstFiles[k].name == f.name
    ensures Catalog.Resolve(f, dstFiles).stage == AlreadyProcessed
  {
  }

  /** When every source has a same-named destination file, the whole work list is marked
      converted. */
  lemma AllConverted(srcFiles: seq<MediaFile>, dstFiles: seq<MediaFile>)
    requires forall f :: f in srcFiles ==> exists d :: d in dstFiles && d.name == f.name
    ensures forall f :: f in Plan(srcFiles, dstFiles) ==> f.stage == AlreadyProcessed && f.stage != Waiting
  {
    var resolved := Catalog.ResolveStages(srcFiles, dstFiles);
    forall f | f in Plan(srcFiles, dstFiles)
      ensures f.stage == AlreadyProcessed
    {
      assert f in multiset(resolved);
      var j :| 0 <= j < |resolved| && resolved[j] == f;
      assert srcFiles[j] in srcFiles;
      var d :| d in dstFiles && d.name == srcFiles[j].name;
      var k :| 0 <= k < |dstFiles| && dstFiles[k] == d;
      MatchedIsConverted(srcFiles[j], dstFiles, k);
    }
  }

  /** Re-running on a fully converted directory dispatches nothing: every source has a
      same-named destination file and so is skipped. */
  lemma ConvertedDirectoryIsNoop(opts: Options, srcFiles: seq<MediaFile>,
                                 dstFiles: seq<MediaFile>, ioOf: string -> FileIo)
    requires forall f :: f in srcFiles ==> exists d :: d in dstFiles && d.name == f.name
    ensures Execute(opts, Plan(srcFiles, dstFiles), ioOf).dispatched == []
  {
    var plan := Plan(srcFiles, dstFiles);
    AllConverted(srcFiles, dstFiles);
    NothingWaitingNothingDispatched(opts, plan, ioOf);
  }

  /** With no waiting file in the work list, nothing is dispatched. */
  lemma NothingWaitingNothingDispatched(opts: Options, plan: seq<MediaFile>, ioOf: string -> FileIo)
    requires forall f :: f in plan ==> f.stage != Waiting
    ensures Execute(opts, plan, ioOf).dispatched == []
  {
    if !opts.reportOnly {
      var cleaned := CleanPass(opts, plan, ioOf);
      var steps := LoopPass(opts, cleaned, ioOf);
      forall i | 0 <= i < |steps|
        ensures steps[i].request.None?
      {
        assert plan[i] in plan;
      }
    }
  }

  /** Deletion safety of a whole `DoProcess` run: every final record is consistent, so a
      deleted source was either converted by an earlier run or converted cleanly now. */
  lemma DoProcessDeletionSafety(opts: Options, src: Catalog.Listing, dst: Catalog.Listing,
                                ioOf: string -> FileIo)
    ensures var r := DoProcess(opts, src, dst, ioOf);
            r.Success? ==> forall f :: f in r.value.files ==> Consistent(f)
  {
    var srcList := Catalog.ListMediaFiles(opts.srcDir, src);
    var dstList := Catalog.ListMediaFiles(opts.dstDir, dst);
    if srcList.Success? && dstList.Success? {
      PlanConsistent(opts.srcDir, src.entries.value, srcList.value, dstList.value);
      RunKeepsConsistent(opts, Plan(srcList.value, dstList.value), ioOf);
    }
  }

  /** A report-only run lists, diffs and cleans but dispatches no shrink. */
  lemma ReportOnlyShrinksNothing(opts: Options, src: Catalog.Listing, dst: Catalog.Listing,
                                 ioOf: string -> FileIo)
    requires opts.reportOnly
    ensures var r := DoProcess(opts, src, dst, ioOf);
            r.Success? ==> r.value.dispatched == []
  {
  }
}
