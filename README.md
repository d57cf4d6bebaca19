# img: a per-pixel image transformation harness, modelled in Dafny

`img.Run(change)` is a one-call command-line driver. It takes an input path and an
optional output path from the argument vector and decodes the input image. It hands
every pixel, as a fresh `Pixel` record, to the caller's `change` function. It writes
each resulting colour back into a new non-premultiplied (NRGBA) image at the position
the record holds after the call, and crops that image to the size the last pixel
reported. Finally it encodes the image as PNG, JPEG (quality 100), GIF or BMP,
chosen by the lower-cased extension of the output path.

The model has six modules, one file each:

- `Geometry` (geometry.dfy): `image.Point` and `image.Rectangle`. `Order(b)` is the
  column-major sequence in which the two nested loops visit a rectangle. Lemmas show
  that it holds every point of `b` exactly once, and that point `p` sits at position
  `(p.X - Min.X) * Dy + (p.Y - Min.Y)`.
- `Pixels` (pixel.dfy): the 8-bit `NRGBA` colour and the `Pixel` record.
  `PixelValue` is a snapshot of the record. The class `Pixel` is the record reached
  through its pointer, with `SetRGB`, `SetRGBA`, and `Apply`, which stands for the
  callback `change(&p)`. The callback is a function value `Transform`: it maps the
  record's value before the call to its value after.
- `Buffer` (nrgba.dfy): the output `image.NRGBA`. It has a mutable `Rect` and a
  two-dimensional colour array that is fixed when the image is allocated.
- `Engine` (engine.dfy): `Traverse` is the loop of `Run` from the allocation of the
  output to the crop, as an imperative method with nested `while` loops. It is
  proved against the specification functions `Handed`, `Results`, `CellAfter`,
  `FinalSize` and `Cropped`. The lemmas beside it give the properties of those
  functions: coverage, the write-back round trip, last-write-wins sizing, and the
  crop.
- `Dispatch` (dispatch.dfy): argument-count path selection, `filepath.Ext`, ASCII
  lower-casing, and the extension-to-encoder switch.
- `Img` (img.dfy): `Run`, which puts the pieces together. The loader is a parameter.
  The outcome names what would be encoded and written.

Behaviour of the code worth noting:

- The pixel handed to the transform always carries the source size `b.Dx(), b.Dy()`.
  It never carries the size tracked so far (img.go:62).
- Coordinates are absolute. They run from `b.Min`, not from zero (img.go:58-59).
- The transform runs over the whole image before the output extension is looked
  at. So an unsupported extension is reported only after every pixel has been
  transformed (img.go:58-90).
- A write-back aimed outside the bounds is silently ignored. The image library
  does this, not the program (img.go:68).

## Model

| member | source | states |
|---|---|---|
| `Geometry.Order` | img.go:58-59 | defined as the columns Min.X … Max.X-1, each from Min.Y to Max.Y-1; its length, positions and coverage are stated by OrderLength, OrderAt and OrderCovers |
| `Geometry.ColumnAt` | img.go:59 | the inner loop visits the rows Min.Y … Max.Y-1 of one column, in order, once each |
| `Geometry.ColumnsLength` | img.go:58-59 | the nested loops visit (x1-x0)·(y1-y0) points |
| `Geometry.ColumnsSplit` | img.go:58 | the columns x0 … x1-1 are the columns x0 … x-1 followed by the columns x … x1-1, for any x between |
| `Geometry.ColumnsAt` | img.go:58-59 | point (x, y) is visited at step (x-x0)·height + (y-y0): x outer, y inner |
| `Geometry.ColumnSnoc` | img.go:59 | one more inner iteration appends exactly the point (x, y) to what has been visited |
| `Geometry.ColumnsSnoc` | img.go:58 | one more outer iteration appends exactly column x to what has been visited |
| `Geometry.ColumnsMembers` | img.go:58-59 | the visited points are exactly those of the rectangle, and no point is visited twice |
| `Geometry.OrderLength` | img.go:58-59 | a traversal of bounds b has b.Dx()·b.Dy() steps |
| `Geometry.OrderAt` | img.go:58-59 | every point p of b is visited at step Index(b, p), the column-major position |
| `Geometry.OrderCovers` | img.go:58-59 | the traversal visits every point of b and nothing else, each exactly once |
| `Geometry.OrderLast` | img.go:58-59 | for non-empty bounds the last point visited is (Max.X-1, Max.Y-1) |
| `Pixels.Pixel.constructor` | img.go:61-65 | the composite literal holds exactly the given size, position and colour |
| `Pixels.Pixel.SetRGB` | img.go:25-27 | sets R, G, B to the arguments and A to 255; ImageW, ImageH, X, Y unchanged |
| `Pixels.Pixel.SetRGBA` | img.go:29-31 | sets exactly R, G, B, A to the arguments; ImageW, ImageH, X, Y unchanged |
| `Pixels.Pixel.Apply` | img.go:66 | after the callback the record holds the transform's image of what it held before |
| `Buffer.NRGBAImage.constructor` | img.go:56 | the new output has Rect == b, storage of exactly b.Dx() × b.Dy() cells, all the zero colour |
| `Buffer.NRGBAImage.SetNRGBA` | img.go:68 | a point inside Rect gets colour c in its own cell and no other cell changes; a point outside leaves every cell unchanged |
| `Engine.FreshPixel` | img.go:60-65 | the record built for point p carries the source size b.Dx() × b.Dy(), the position p and the converted source colour at p |
| `Engine.CellAfter` | img.go:68 | defined by scanning the write-backs from the last one; CellAfterIsLastWrite and CellAfterSnoc state what it means |
| `Engine.CellAfterIsLastWrite` | img.go:58-68 | a cell no write-back is aimed at keeps the zero colour; otherwise it holds the colour of a write-back aimed at it after which none other is aimed at it |
| `Engine.FinalSize` | img.go:57-69 | defined as the source size while nothing has been visited, else the size the last result holds; SizeFromLastPixel and EmptyBoundsKeepSize state it for a whole traversal |
| `Engine.Cropped` | img.go:72-73 | the crop keeps Min and has exactly the given width and height |
| `Engine.CellAfterSnoc` | img.go:68 | one more write-back sets the cell it is aimed at to its colour and leaves every other cell as it was |
| `Engine.Visit` | img.go:60-69 | the pixel handed over is the fresh record for (x, y); the transform's result is written back into the output at the position it now holds; the tracked size becomes the size it now holds |
| `Engine.Traverse` | img.go:55-73 | the pixels handed to the transform are exactly Handed(b, src), in order; each output cell holds the last colour written at its point, or zero; Rect becomes Min .. Min + the last reported (ImageW, ImageH) |
| `Engine.HandedCoversBounds` | img.go:58-65 | the transform is called b.Dx()·b.Dy() times; every call gets the source size, a point of b and its source colour; no point twice; point p at call Index(b, p) |
| `Engine.StationaryPrefix` | img.go:58-68 | with a position-keeping transform, after n calls a visited point holds its transformed colour and an unvisited one holds zero |
| `Engine.StationaryWriteBack` | img.go:58-68 | with a position-keeping transform every in-bounds cell ends up with the transformed colour of its own pixel |
| `Engine.IdentityRoundTrip` | img.go:58-73 | the identity transform reproduces the converted source colour in every in-bounds cell and keeps Rect == b |
| `Engine.SizeFromLastPixel` | img.go:57-69 | for non-empty bounds the tracked size is what the transform reported for the last pixel visited, (Max.X-1, Max.Y-1) |
| `Engine.EmptyBoundsKeepSize` | img.go:57-73 | with empty bounds the transform is never called and the output keeps Rect == b |
| `Engine.ShrinkByOne` | img.go:69-73 | a transform reporting (W-1, H-1) for every pixel yields the rectangle Min .. Max - (1, 1) |
| `Dispatch.SelectPaths` | img.go:34-47 | fewer than 2 or more than 3 arguments means usage; otherwise input is args[1] and output is the last argument |
| `Dispatch.InPlaceWithoutOutput` | img.go:43-47 | with only an input path, the output path is the input path |
| `Dispatch.Ext` | img.go:77 | defined by scanning back to the last '.' or '/'; ExtIsFinalDotSuffix, ExtOfSuffix and ExtIgnoresDirectories characterise it |
| `Dispatch.ExtIsFinalDotSuffix` | img.go:77 | the result is a suffix of the path; if it is not empty, it starts with '.' and has no other '.' and no '/'; if it is empty, every '.' in the path has a '/' after it |
| `Dispatch.ExtOfSuffix` | img.go:77 | a '.' followed by neither '.' nor '/' is the extension of any path it ends |
| `Dispatch.ExtIgnoresDirectories` | img.go:77 | a final path element without a '.' has no extension, whatever dots the directories hold |
| `Dispatch.LowerChar` | img.go:77 | a capital ASCII letter becomes the matching small letter, every other character stays; no capital letter is returned |
| `Dispatch.Lower` | img.go:77 | same length; each capital ASCII letter becomes its matching small letter, every other character stays, and no capital letter is left |
| `Dispatch.SelectCodec` | img.go:77-90 | PNG exactly for .png, JPEG at quality 100 exactly for .jpg or .jpeg, GIF exactly for .gif, BMP exactly for .bmp, each after lower-casing the extension; any other extension gives Unknown carrying it lower-cased |
| `Dispatch.LoweredSuffix` | img.go:77 | a suffix that lower-cases to a dot followed by neither dots nor separators is, lower-cased, the lower-cased extension of any path it ends |
| `Dispatch.PngAnyCase` | img.go:77-80 | any path ending in .png in any mix of cases (.png, .PNG, .Png, …) selects PNG |
| `Dispatch.JpegAnyCase` | img.go:77-82 | any path ending in .jpg or .jpeg in any mix of cases selects JPEG at quality 100 |
| `Dispatch.GifAnyCase` | img.go:77-84 | any path ending in .gif in any mix of cases selects GIF |
| `Dispatch.BmpAnyCase` | img.go:77-86 | any path ending in .bmp in any mix of cases selects BMP |
| `Dispatch.UnsupportedIsUnknown` | img.go:77-89 | any other extension is refused as the unknown type, reported lower-cased |
| `Dispatch.TiffIsUnknown` | img.go:77-89 | a path ending in .TIFF is refused as the unknown type ".tiff" |
| `Dispatch.NoExtensionIsUnknown` | img.go:77-89 | a path whose final element has no dot is refused as the unknown type "" |
| `Img.Run` | img.go:33-95 | the outcome is usage for a bad argument count, a read failure when the loader fails, and otherwise the traversal runs over the whole image; after that the outcome is an unknown type or a write to the output path with the selected encoder and the traversed, cropped image |

## Left out

- File I/O: opening and decoding the input (`loadImage`) is the parameter `load`. The `Write` outcome stands for encoding and `ioutil.WriteFile`. A failed write only prints a message, so it is not a separate outcome.
- The encoders and the decoder are library code. So is the arithmetic of `color.NRGBAModel.Convert`: the source image is a function from points to already converted NRGBA colours.
- Console output: the usage text, the error messages, and the command-name cosmetics (`filepath.Base`, `TrimSuffix`) are reduced to which outcome a run has.
- An empty argument vector: the usage branch of the source then indexes `os.Args[0]` and would panic. The model reports usage. The operating system always supplies the program name.
- What an encoder does with the cropped image is not modelled. `Run` does not check the reported size, so the crop may give a rectangle larger than the storage, or one with negative extent. The model records that rectangle as the code sets it.
- Go's `int` is 64 bits wide. The model's integers are unbounded, so an overflow of `Min.X + newW` is not modelled.
- `Dispatch.Ext`: follows `filepath.Ext` on Unix-like systems only. On Windows, `\` is also a separator.
- `Dispatch.SelectCodec`: lower-cases only ASCII letters, where `strings.ToLower` follows Unicode. Go lower-cases a few non-ASCII letters to ASCII ones, such as U+0130 (capital I with dot) to `i`. So an extension like `.G\u0130F` selects GIF in the source but is unknown in the model.
- `Pixels.Pixel.Apply`: the callback is any Go function. The model describes it only by its net effect on the record, so side effects outside the record are not modelled.
