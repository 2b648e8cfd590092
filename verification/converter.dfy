/** One pass of the loop body: open the entry, convert its colour mode when
    needed, and save it as WebP, with any raised error caught and reported. */
module Converter {
  import opened Results
  import opened Text
  import opened Paths
  import opened Naming
  import opened Modes

  /** The text of a caught exception. */
  type Error = Str

  /** The fixed `format` argument of every save. */
  const SaveFormat: Str := "WEBP"

  /** The fixed `method` argument of every save (`method` is a Dafny keyword,
      so a request records it in its `compressionMethod` field). */
  const SaveMethod: int := 3

  /** The arguments of one `img.save(...)` call. */
  datatype SaveRequest<Img> = SaveRequest(image: Img, path: Str, format: Str, quality: int, compressionMethod: int)

  /** The image library as seen by the converter: every call either returns a
      value or raises an error. Pixel data is the opaque type `Img`. */
  datatype Codec<!Img> = Codec(
    open: Str -> Result<Img, Error>,
    modeOf: Img -> Str,
    convert: (Img, Str) -> Result<Img, Error>,
    save: SaveRequest<Img> -> Result<(), Error>)

  /** The arguments of one run. `quality` is passed to the library unchecked. */
  datatype Config = Config(inputFolder: Str, outputFolder: Str, quality: int)

  /** What became of one attempted entry. */
  datatype Status = Converted | Failed(error: Error)

  /** The record of one attempted entry: the paths derived from its name, the
      save call made (absent when opening or converting raised), and its status. */
  datatype Attempt<Img> = Attempt(
    filename: Str,
    inputPath: Str,
    baseName: Str,
    outputPath: Str,
    request: Option<SaveRequest<Img>>,
    status: Status)

  /** The image handed to `save`: the opened image, converted to RGB when its
      mode needs it. */
  function Prepare<Img>(codec: Codec<Img>, img: Img): Result<Img, Error> {
    if NeedsRgb(codec.modeOf(img)) then codec.convert(img, Rgb) else Ok(img)
  }

  /** The body of the `try`: the first step that raises decides the reported
      error, and later steps are not performed. */
  function ConvertOne<Img>(codec: Codec<Img>, cfg: Config, filename: Str): (a: Attempt<Img>)
    ensures a.filename == filename
    ensures a.inputPath == Join(cfg.inputFolder, filename)
    ensures a.baseName == Stem(filename)
    ensures a.outputPath == OutputPath(cfg.outputFolder, filename)
    ensures EndsWith(a.outputPath, TargetExtension)
    ensures a.request.Some? ==>
              && a.request.value.path == a.outputPath
              && a.request.value.format == SaveFormat
              && a.request.value.quality == cfg.quality
              && a.request.value.compressionMethod == SaveMethod
    ensures a.request.Some? <==>
              codec.open(a.inputPath).Ok? && Prepare(codec, codec.open(a.inputPath).value).Ok?
    ensures a.request.Some? ==>
              a.request.value.image == Prepare(codec, codec.open(a.inputPath).value).value
    ensures a.status.Converted? <==> a.request.Some? && codec.save(a.request.value).Ok?
    ensures codec.open(a.inputPath).Err? ==>
              a.status == Failed(codec.open(a.inputPath).error)
    ensures codec.open(a.inputPath).Ok? && a.request.None? ==>
              a.status == Failed(Prepare(codec, codec.open(a.inputPath).value).error)
    ensures a.request.Some? && codec.save(a.request.value).Err? ==>
              a.status == Failed(codec.save(a.request.value).error)
  {
    var inputPath := Join(cfg.inputFolder, filename);
    var baseName := Stem(filename);
    var outputPath := Join(cfg.outputFolder, baseName + TargetExtension);
    match codec.open(inputPath)
    case Err(e) => Attempt(filename, inputPath, baseName, outputPath, None, Failed(e))
    case Ok(img) =>
      (match Prepare(codec, img)
       case Err(e) => Attempt(filename, inputPath, baseName, outputPath, None, Failed(e))
       case Ok(prepared) =>
         var req := SaveRequest(prepared, outputPath, SaveFormat, cfg.quality, SaveMethod);
         (match codec.save(req)
          case Err(e) => Attempt(filename, inputPath, baseName, outputPath, Some(req), Failed(e))
          case Ok(_) => Attempt(filename, inputPath, baseName, outputPath, Some(req), Converted)))
  }

  /** A library whose `convert(img, m)` yields an image of mode `m`. */
  ghost predicate ConvertYieldsMode<Img(!new)>(codec: Codec<Img>) {
    forall img, m :: codec.convert(img, m).Ok? ==> codec.modeOf(codec.convert(img, m).value) == m
  }

  /** With such a library, every image handed to `save` carries the normalised
      mode of the opened image, and so is never RGBA or P. */
  lemma SavedModeIsNormalized<Img(!new)>(codec: Codec<Img>, cfg: Config, filename: Str)
    requires ConvertYieldsMode(codec)
    ensures var a := ConvertOne(codec, cfg, filename);
            a.request.Some? ==>
              && codec.modeOf(a.request.value.image) == NormalizeMode(codec.modeOf(codec.open(a.inputPath).value))
              && !NeedsRgb(codec.modeOf(a.request.value.image))
  {
  }
}
