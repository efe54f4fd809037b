/** The image shrink (pictures.go): the width policy, the encoder chosen for each format,
    and the open → decode → create → encode failure chain. Decoding, resampling and
    encoding themselves are not modelled: their outcomes are supplied as an `ImageIo`. */
module Pictures {
  import opened Wrappers
  import opened Types

  /** The pixel dimensions of a decoded image. */
  datatype ImageSize = ImageSize(width: nat, height: nat)

  /** The dimensions handed to the resampler; a zero height asks it to keep the aspect
      ratio. */
  datatype ResizeRequest = ResizeRequest(width: nat, height: nat)

  /** The widest an image may stay: 1080 for a strictly portrait image, 2048 otherwise. */
  function WidthLimit(size: ImageSize): nat
  {
    if size.height > size.width then 1080 else 2048
  }

  /** `ResizeImage`: shrink to the width limit, never widen, and let the height follow. The
      chosen width is the smaller of the image's width and its limit. */
  function ResizeImage(size: ImageSize): (r: ResizeRequest)
    ensures r.height == 0
    ensures r.width <= size.width && r.width <= WidthLimit(size)
    ensures r.width == size.width || r.width == WidthLimit(size)
  {
    var desired := WidthLimit(size);
    ResizeRequest(if size.width < desired then size.width else desired, 0)
  }

  /** A square image is not portrait, so it gets the landscape limit of 2048. */
  lemma SquareUsesLandscapeLimit(n: nat)
    ensures ResizeImage(ImageSize(n, n)).width == if n < 2048 then n else 2048
  {
  }

  /** An image already within its limit keeps its width. */
  lemma SmallImageKeepsWidth(size: ImageSize)
    requires size.width <= WidthLimit(size)
    ensures ResizeImage(size) == ResizeRequest(size.width, 0)
  {
  }

  /** The compression levels of Go's PNG encoder. */
  datatype PngLevel = DefaultCompression | NoCompression | BestSpeed | BestCompression

  /** An encoder together with its settings. */
  datatype Encoder = PngEncoder(level: PngLevel) | JpegEncoder(quality: nat)

  /** `encodePng`: PNG at the best compression. */
  const EncodePng: Encoder := PngEncoder(BestCompression)

  /** `encodeJpeg`: JPEG at quality 90. */
  const EncodeJpeg: Encoder := JpegEncoder(90)

  /** The outcomes of the external steps of one image shrink. */
  datatype ImageIo = ImageIo(
    open: Outcome<string>,
    decode: Result<ImageSize, string>,
    create: Outcome<string>,
    encode: Outcome<string>)

  /** What one image shrink did: the resize it requested and the encoder it ran, if it got
      that far, and its result. */
  datatype ImageRun = ImageRun(resized: Option<ResizeRequest>, encodedWith: Option<Encoder>,
                               result: Outcome<ImageError>)

  /** `ShrinkImage`: open, decode, resize, create the output and encode into it. Each of
      the first three failures returns before anything is encoded; otherwise the result is
      the encoder's. The create failure names the input path, as the message is written. */
  function ShrinkImage(request: ProcessingRequest, io: ImageIo, encoder: Encoder): (r: ImageRun)
    ensures r.encodedWith.Some? <==> io.open.Pass? && io.decode.Success? && io.create.Pass?
    ensures r.encodedWith.Some? ==> r.encodedWith.value == encoder
    ensures r.resized.Some? <==> io.open.Pass? && io.decode.Success?
    ensures r.resized.Some? ==> r.resized.value == ResizeImage(io.decode.value)
    ensures r.encodedWith.Some? ==> (r.result.Pass? <==> io.encode.Pass?)
    ensures r.encodedWith.None? ==> r.result.Fail? && !r.result.error.EncodeFailed?
    ensures r.result.Fail? ==> r.result.error.EncodeFailed? || r.result.error.path == request.inputPath
  {
    if io.open.Fail? then ImageRun(None, None, Fail(OpenFailed(request.inputPath, io.open.error)))
    else if io.decode.Failure? then
      ImageRun(None, None, Fail(DecodeFailed(request.inputPath, io.decode.error)))
    else
      var resized := ResizeImage(io.decode.value);
      if io.create.Fail? then
        ImageRun(Some(resized), None, Fail(CreateFailed(request.inputPath, io.create.error)))
      else
        ImageRun(Some(resized), Some(encoder),
                 if io.encode.Fail? then Fail(EncodeFailed(io.encode.error)) else Pass)
  }

  /** `ShrinkPNG`: the image shrink with the PNG encoder. */
  function ShrinkPNG(request: ProcessingRequest, io: ImageIo): (r: ImageRun)
    ensures r.encodedWith.Some? ==> r.encodedWith.value == PngEncoder(BestCompression)
    ensures r.result.Pass? <==> io.open.Pass? && io.decode.Success? && io.create.Pass? && io.encode.Pass?
  {
    ShrinkImage(request, io, EncodePng)
  }

  /** `ShrinkJPG`: the image shrink with the JPEG encoder. */
  function ShrinkJPG(request: ProcessingRequest, io: ImageIo): (r: ImageRun)
    ensures r.encodedWith.Some? ==> r.encodedWith.value == JpegEncoder(90)
    ensures r.result.Pass? <==> io.open.Pass? && io.decode.Success? && io.create.Pass? && io.encode.Pass?
  {
    ShrinkImage(request, io, EncodeJpeg)
  }

  /** The error names the first step that failed, with that step's own cause. */
  lemma FirstImageFailureReported(request: ProcessingRequest, io: ImageIo, e: Encoder, cause: string)
    ensures (ShrinkImage(request, io, e).result == Fail(OpenFailed(request.inputPath, cause)))
              <==> io.open == Fail(cause)
    ensures (ShrinkImage(request, io, e).result == Fail(DecodeFailed(request.inputPath, cause)))
              <==> io.open.Pass? && io.decode == Failure(cause)
    ensures (ShrinkImage(request, io, e).result == Fail(CreateFailed(request.inputPath, cause)))
              <==> io.open.Pass? && io.decode.Success? && io.create == Fail(cause)
    ensures (ShrinkImage(request, io, e).result == Fail(EncodeFailed(cause)))
              <==> io.open.Pass? && io.decode.Success? && io.create.Pass? && io.encode == Fail(cause)
  {
  }
}
