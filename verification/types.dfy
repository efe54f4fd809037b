/** The records and enumerations shared by the whole pipeline (types.go), together with
    the errors the pipeline records. Go's `error` values become datatypes that say which
    step failed; the text of the underlying cause is kept as an opaque string. */
module Types {
  import opened Wrappers

  /** The kind of media a file holds, decided by its extension. `UnknownType` is the
      zero value. */
  datatype MediaType = UnknownType | Video | JPG | PNG

  /** The per-file lifecycle. `Waiting` is the zero value; `AlreadyProcessed` marks a file
      whose shrunk version was found by an earlier run. */
  datatype ProcessingStage =
    | Waiting
    | ProcessingInProgress
    | ProcessingError
    | ProcessingSuccess
    | AlreadyProcessed

  /** Why a video shrink failed. */
  datatype VideoError =
    | ProbeInputFailed(cause: string)
    | TranscoderFailed(cause: string)
    | ProbeOutputFailed(cause: string)
    | DurationMismatch(inputDuration: real, outputDuration: real)

  /** Why an image shrink failed; `path` is the path the error message names. */
  datatype ImageError =
    | OpenFailed(path: string, cause: string)
    | DecodeFailed(path: string, cause: string)
    | CreateFailed(path: string, cause: string)
    | EncodeFailed(cause: string)

  /** The error a shrink operation returns. */
  datatype ShrinkError = VideoFailed(video: VideoError) | ImageFailed(image: ImageError)

  /** The error recorded on a media file by the per-file pipeline. */
  datatype FileError =
    | InputMissing(cause: string)
    | ShrinkFailed(shrink: ShrinkError)
    | OutputMissing(cause: string)
    | FinalMoveFailed
    | OutputUnconfirmed(cause: string)

  /** The error that aborts a whole run: a directory that cannot be opened or listed. */
  datatype ScanError = OpenDirFailed(dir: string, cause: string) | ListDirFailed(dir: string, cause: string)

  /** One discovered file. The progress fields (percentage, processed duration) and the
      wall-clock bracket are not part of the model. */
  datatype MediaFile = MediaFile(
    mediaType: MediaType,
    dir: string,
    name: string,
    size: nat,
    stage: ProcessingStage,
    shrunkSize: nat,
    error: Option<FileError>,
    deleted: bool)

  /** What a shrink operation is asked to do: read one path and write another. */
  datatype ProcessingRequest = ProcessingRequest(inputPath: string, outputPath: string)

  /** The six counters folded from the file list. */
  datatype ShrunkStats = ShrunkStats(
    count: nat,
    sizeBefore: nat,
    sizeAfter: nat,
    deletedCount: nat,
    deletedSize: nat,
    deletedShrunkSize: nat)

  /** The run configuration. */
  datatype Options = Options(
    srcDir: string,
    dstDir: string,
    tmpDir: string,
    doClean: bool,
    reportOnly: bool)

  /** The counters before anything is folded in. */
  const ZeroStats := ShrunkStats(0, 0, 0, 0, 0, 0)

  /** A freshly listed entry: every field other than the four given keeps its zero value. */
  function NewMediaFile(dir: string, name: string, mediaType: MediaType, size: nat): MediaFile
  {
    MediaFile(mediaType, dir, name, size, Waiting, 0, None, false)
  }

  /** Go's `MediaType.String`. */
  function MediaTypeName(t: MediaType): (r: string)
    ensures r == "!unknown!" <==> t == UnknownType
    ensures t != UnknownType ==> |r| > 0 && forall i :: 0 <= i < |r| ==> 'a' <= r[i] <= 'z'
  {
    match t
    case UnknownType => "!unknown!"
    case Video => "video"
    case JPG => "jpg"
    case PNG => "png"
  }

  /** Distinct media types print differently. */
  lemma MediaTypeNameInjective(a: MediaType, b: MediaType)
    ensures MediaTypeName(a) == MediaTypeName(b) <==> a == b
  {
  }

  /** `r` names `name` inside `dir`: the name itself at the top level, otherwise the
      directory, a '/', then the name. */
  predicate IsPathIn(r: string, dir: string, name: string)
  {
    && |r| >= |name| && r[|r| - |name|..] == name
    && (dir == "" ==> r == name)
    && (dir != "" ==> |r| == |dir| + 1 + |name| && r[..|dir|] == dir && r[|dir|] == '/')
  }

  /** `path.Join(dir, name)` for a plain file name. Go's `path.Clean` normalisation of the
      directory part is not modelled. */
  function Join(dir: string, name: string): string
  {
    if dir == "" then name else dir + "/" + name
  }

  /** The joined path is the name inside the directory. */
  lemma JoinIsPathIn(dir: string, name: string)
    ensures IsPathIn(Join(dir, name), dir, name)
  {
  }

  /** Within one directory, distinct names give distinct paths. */
  lemma JoinInjective(dir: string, a: string, b: string)
    ensures Join(dir, a) == Join(dir, b) <==> a == b
  {
    if dir != "" && Join(dir, a) == Join(dir, b) {
      assert (dir + "/" + a)[|dir| + 1..] == a;
      assert (dir + "/" + b)[|dir| + 1..] == b;
    }
  }

  /** The record-level invariant the pipeline keeps: a recorded shrunk size means the file
      was converted (now or earlier), and a removed source was converted first. */
  predicate Consistent(f: MediaFile)
  {
    && (f.shrunkSize > 0 ==> f.stage in {ProcessingSuccess, AlreadyProcessed})
    && (f.deleted ==> f.stage == AlreadyProcessed
                      || (f.stage == ProcessingSuccess && f.error == None))
  }

}
