/** `Run`: choose the paths, load the input, traverse it with the caller's
    transform, and choose the encoder for the output. Reading and writing files
    and the encoders themselves are outside the model: the loader is a parameter,
    and the outcome says what would be encoded and written where. */
module Img {
  import opened Geometry
  import opened Pixels
  import opened Buffer
  import opened Engine
  import opened Dispatch

  datatype Option<+T> = None | Some(value: T)

  /** A decoded input image: its bounds and its pixels, already converted to NRGBA. */
  datatype Decoded = Decoded(bounds: Bounds, at: Source)

  /** How a run ends. `Write` stands for encoding `image` with `codec` and writing
      the bytes to `path`. */
  datatype Outcome =
    | UsageShown
    | CannotRead(path: string)
    | UnknownType(ext: string)
    | Write(path: string, codec: Codec, image: NRGBAImage)

  method Run(args: seq<string>, load: string -> Option<Decoded>, change: Transform)
    returns (outcome: Outcome, ghost handed: seq<PixelValue>)
    ensures SelectPaths(args).Usage? ==> outcome == UsageShown && handed == []
    ensures SelectPaths(args).Paths? && load(SelectPaths(args).input).None? ==>
      outcome == CannotRead(SelectPaths(args).input) && handed == []
    ensures SelectPaths(args).Paths? && load(SelectPaths(args).input).Some? ==>
      var d, outPath := load(SelectPaths(args).input).value, SelectPaths(args).output;
      // the transform runs over the whole image before the extension is looked at
      handed == Handed(d.bounds, d.at) &&
      (SelectCodec(outPath).Unknown? ==> outcome == UnknownType(SelectCodec(outPath).ext)) &&
      (!SelectCodec(outPath).Unknown? ==>
        outcome.Write? && outcome.path == outPath && outcome.codec == SelectCodec(outPath) &&
        outcome.image.Rect == Cropped(d.bounds, FinalSize(d.bounds, Results(change, handed))) &&
        Holds(outcome.image, d.bounds, Results(change, handed)))
  {
    handed := [];
    var invocation := SelectPaths(args);
    if invocation.Usage? {
      return UsageShown, handed;
    }
    var inPath, outPath := invocation.input, invocation.output;
    var img := load(inPath);
    if img.None? {
      return CannotRead(inPath), handed;
    }
    var outImg;
    outImg, handed := Traverse(img.value.bounds, img.value.at, change);
    var codec := SelectCodec(outPath);
    if codec.Unknown? {
      return UnknownType(codec.ext), handed;
    }
    outcome := Write(outPath, codec, outImg);
  }
}
