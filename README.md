# Image normalisation of the YOLO test harness, in Dafny

This project models the image preparation in `YoloSharpTest/ImageLoader.cs`. It is the step that runs before an image is handed to the object detector, and it has two operations.

- **`Load`** takes a decoded bitmap and its optional Exif Orientation property item (tag ID 0x0112).
  - It decodes the item's value as a little-endian `ushort`.
  - It maps codes 1 to 8 (`TopLeft` … `LeftBottom`) to a GDI+ `RotateFlipType`, and rotates and flips the bitmap in place.
  - It overwrites the item with code 1 (`TopLeft`).
  - It then copies the pixels, unscaled, into a fresh 32-bit ARGB bitmap of the same size.
- **`AddBorder`** letterboxes an image so that its width / height ratio meets a target ratio.
  - A non-positive ratio gives a plain copy.
  - Otherwise the image is drawn on a canvas that keeps one side of the input. The other side is the truncated product `h * ratio`, or the truncated quotient `w / ratio`.
  - The canvas is cleared to opaque black, and the image is drawn unscaled. It is centred along the padded axis with a floor-divided margin.

The project has five modules.

- `Raster` (raster.dfy) holds the values.
  - Pixels are `Color`, four `uint8` channels.
  - A raster is a `Grid`, a sequence of rows.
  - `Blit` is an unscaled, clipped copy of one raster onto another; `Crop` cuts a window out of a raster.
- `RotateFlip` (rotate_flip.dfy) holds the geometry of GDI+ `RotateFlipType`: rotate clockwise, then mirror.
  - It is defined from one quarter turn and two mirrors.
  - `SourceOf` is the closed-form index map a rotating loop uses.
- `Exif` (exif.dfy) holds the Orientation tag: its byte codec, its eight named codes and the loader's switch.
- `Gdi` (bitmap.dfy) holds the GDI+ `Bitmap` as a class.
  - It has a mutable `array2<Color>` pixel buffer and the Orientation item.
  - `RotateFlip`, `Graphics.Clear` and `Graphics.DrawImage` are written as loops over the buffer.
  - `SetOrientation` stands for `SetPropertyItem` on the Orientation item; it assigns the item's value bytes.
- `ImageLoader` (image_loader.dfy) holds `Load` and `AddBorder` as methods on bitmaps.
  - Each is proved against a function on rasters: `Normalized` and `Letterboxed`.
  - Lemmas state what those functions promise.

Three facts about the code that are easy to misread:
- The free canvas side in `AddBorder` is truncated by an `(int)` cast (ImageLoader.cs:104, 118), not rounded.
- `Load` returns a new bitmap, created at ImageLoader.cs:77. A new bitmap carries no property items, so the returned bitmap has no Orientation item at all. The reset to `TopLeft` (ImageLoader.cs:73-74) happens only on the intermediate bitmap. Either way no later load transforms the pixels again; `NormalizedIdempotent` proves both cases.
- The branch in `AddBorder` is chosen by the strict `<` at ImageLoader.cs:102. A 3000 by 4000 (portrait) image with a ratio of 1.333 has 0.75 < 1.333, so the width is padded: the canvas is `(int)(4000 * 1.333)` wide and 4000 tall.

## Model

| member | source | states |
|---|---|---|
| Exif.ToUInt16 | YoloSharpTest/ImageLoader.cs:41 | `BitConverter.ToUInt16(value, 0)` yields a value exactly when there are at least two bytes (otherwise it throws), and that value is `value[0] + 256 * value[1]`: little-endian |
| Exif.GetBytes | YoloSharpTest/ImageLoader.cs:73 | `BitConverter.GetBytes(ushort)` yields exactly two bytes, low byte first: `b[0] + 256 * b[1]` is the value |
| Exif.ToUInt16OfGetBytes | YoloSharpTest/ImageLoader.cs:73 | decoding the bytes written for a value gives the value back (little-endian round trip), so the reset tag reads as 1 |
| Exif.GetBytesOfToUInt16 | YoloSharpTest/ImageLoader.cs:41 | re-encoding a decoded value reproduces the first two bytes it was read from |
| Exif.Code | YoloSharpTest/ImageLoader.cs:12-22 | every named orientation has a code between 1 and 8 |
| Exif.Named | YoloSharpTest/ImageLoader.cs:12-22 | a tag value has a name exactly when it is 1 to 8, and the name's code is that value |
| Exif.NamedOfCode | YoloSharpTest/ImageLoader.cs:12-22 | the name of each orientation's code is that orientation (the enum is one-to-one) |
| Exif.RotationFor | YoloSharpTest/ImageLoader.cs:39-69 | the switch selects a width/height-swapping transform exactly for codes 5 to 8, and `RotateNoneFlipNone` exactly for codes outside 2 to 8 |
| Exif.RotationForInjective | YoloSharpTest/ImageLoader.cs:44-69 | distinct codes 1 to 8 select transforms that act differently: they turn the same 2 by 2 image of four different pixels into different pictures |
| Exif.RotationForUprights | YoloSharpTest/ImageLoader.cs:44-69 | for every code 1 to 8, the selected transform moves each stored pixel to the place the orientation's name (side of the 0th row, side of the 0th column) prescribes for the upright picture |
| RotateFlip.Rot90 | YoloSharpTest/ImageLoader.cs:71 | a quarter turn exchanges width and height |
| RotateFlip.FlipX | YoloSharpTest/ImageLoader.cs:71 | a horizontal mirror keeps the size |
| RotateFlip.FlipY | YoloSharpTest/ImageLoader.cs:71 | a vertical mirror keeps the size |
| RotateFlip.Transform | YoloSharpTest/ImageLoader.cs:71 | `RotateFlip(t)` swaps width and height exactly when `t` turns by 90 or 270 degrees, and otherwise keeps them |
| RotateFlip.TransformAt | YoloSharpTest/ImageLoader.cs:71 | every output pixel of the rotate-then-mirror transform is the input pixel at the closed-form position `SourceOf` names, which lies inside the input |
| RotateFlip.Inverse | YoloSharpTest/ImageLoader.cs:71 | the inverse of a transform swaps the axes exactly when the transform does |
| RotateFlip.InverseRestores | YoloSharpTest/ImageLoader.cs:71 | rotating and flipping loses no pixel: applying the inverse transform afterwards restores the input exactly |
| RotateFlip.IdentityKeeps | YoloSharpTest/ImageLoader.cs:39 | `RotateNoneFlipNone` leaves every image unchanged |
| Raster.BlitCovering | YoloSharpTest/ImageLoader.cs:80-83 | drawing an image onto a canvas of its own size at (0, 0) leaves exactly the image, whatever the canvas held |
| Raster.CropOfBlit | YoloSharpTest/ImageLoader.cs:110-112 | cutting the destination rectangle back out of the canvas after drawing gives the drawn image unchanged |
| Gdi.Bitmap.constructor | YoloSharpTest/ImageLoader.cs:77 | `new Bitmap(w, h)` is a fresh w by h buffer, fully transparent, with no Orientation item |
| Gdi.Bitmap.Decoded | YoloSharpTest/ImageLoader.cs:32 | the decoded bitmap holds the given raster and Orientation item |
| Gdi.Bitmap.RotateFlip | YoloSharpTest/ImageLoader.cs:71 | the buffer is replaced by `Transform(t, old contents)` and the property items are left alone |
| Gdi.Transformed | YoloSharpTest/ImageLoader.cs:71 | the buffer built by the rotating loop has the transformed size and agrees with `Transform` at every pixel |
| Gdi.Bitmap.SetOrientation | YoloSharpTest/ImageLoader.cs:74 | `SetPropertyItem` makes the Orientation item hold the given bytes |
| Gdi.Bitmap.Clear | YoloSharpTest/ImageLoader.cs:107 | after `Graphics.Clear(c)` every pixel is `c` |
| Gdi.Bitmap.DrawImage | YoloSharpTest/ImageLoader.cs:80-83 | drawing with equal source and destination rectangles copies the source unscaled onto the destination rectangle; pixels outside it, and parts clipped by the canvas edge, keep their old value |
| ImageLoader.Normalized | YoloSharpTest/ImageLoader.cs:35-75 | loading fails exactly when an Orientation item is present with fewer than two value bytes; otherwise the result is a well-formed image |
| ImageLoader.ResetTag | YoloSharpTest/ImageLoader.cs:73 | the bytes written back into the Orientation item decode to 1 (`TopLeft`) |
| ImageLoader.NormalizedSize | YoloSharpTest/ImageLoader.cs:44-71 | codes 5 to 8 exchange width and height; codes 1 to 4, unknown codes and an absent item keep them |
| ImageLoader.NormalizedKeepsUpright | YoloSharpTest/ImageLoader.cs:35-47 | with no Orientation item, or code `TopLeft`, or an unknown code, the pixels are exactly the decoded ones |
| ImageLoader.NormalizedIdempotent | YoloSharpTest/ImageLoader.cs:73-74 | loading the result again, with no item or with the reset `TopLeft` item, changes nothing |
| ImageLoader.NormalizedInvertible | YoloSharpTest/ImageLoader.cs:71 | the inverse of the transform `Selected` picks for the tag recovers the decoded raster, so no pixel is lost |
| ImageLoader.ApplyOrientation | YoloSharpTest/ImageLoader.cs:35-75 | the bitmap is rotated/flipped in place as `Normalized` prescribes and a present item is reset to `TopLeft`; a too-short item fails, as `ToUInt16` throws there, and leaves the bitmap's pixels and item exactly as they were, since the throw comes before lines 71 and 74 |
| ImageLoader.Load | YoloSharpTest/ImageLoader.cs:29-87 | the result is a fresh bitmap holding exactly `Normalized(decoded, tag)` with no Orientation item, or the failure of a too-short item |
| ImageLoader.CanvasSize | YoloSharpTest/ImageLoader.cs:101-118 | when w/h < ratio the height is kept and the width is the truncation of h*ratio, at least w; otherwise (an exact match included) the width is kept and the height is the largest n with n*ratio <= w, at least h |
| ImageLoader.Margin | YoloSharpTest/ImageLoader.cs:109 | the leading margin is at most the trailing margin, which is at most one more |
| ImageLoader.Placement | YoloSharpTest/ImageLoader.cs:109-124 | the image placed at the centring offset lies wholly inside the canvas |
| ImageLoader.Letterboxed | YoloSharpTest/ImageLoader.cs:95-130 | the letterboxed raster is a well-formed image |
| ImageLoader.LetterboxedWidthBranch | YoloSharpTest/ImageLoader.cs:102-112 | in the padded-width branch the canvas is the truncated h*ratio wide (at least w) and h tall, black, with the image at ((width - w) / 2, 0) |
| ImageLoader.LetterboxedHeightBranch | YoloSharpTest/ImageLoader.cs:116-126 | in the padded-height branch the canvas is w wide and the truncated w/ratio tall (at least h), black, with the image at (0, (height - h) / 2) |
| ImageLoader.LetterboxedContainsImage | YoloSharpTest/ImageLoader.cs:107-126 | every pixel inside the placed window equals the input: cropping it out gives the input back |
| ImageLoader.LetterboxedBorderIsBlack | YoloSharpTest/ImageLoader.cs:105-127 | every pixel outside the placed window is opaque black |
| ImageLoader.LetterboxedExactRatio | YoloSharpTest/ImageLoader.cs:101-118 | when w/h equals the ratio exactly, the canvas has the input's size, the offset is (0, 0) and the result is the input |
| ImageLoader.AddBorder | YoloSharpTest/ImageLoader.cs:95-130 | the result is a fresh bitmap holding exactly `Letterboxed(input, ratio)` |
| ImageLoader.Copy | YoloSharpTest/ImageLoader.cs:97-100 | `new Bitmap(bmp)` is a fresh bitmap with the same size and pixels |
| ImageLoader.PadWidth | YoloSharpTest/ImageLoader.cs:102-115 | the first branch produces `Letterboxed(input, ratio)` |
| ImageLoader.PadHeight | YoloSharpTest/ImageLoader.cs:116-129 | the second branch produces `Letterboxed(input, ratio)` |
| ImageLoader.Framed | YoloSharpTest/ImageLoader.cs:104-113 | allocate, clear to black and draw unscaled at the offset gives the black canvas with the image blitted on it |

## Left out

- Image file decoding: `new Bitmap(filename)` (ImageLoader.cs:32) and how GDI+ reads property items are library code. The decoded raster and the Orientation item's value bytes are inputs to `Load`.
- The `using` blocks and `Dispose` calls, which only control object lifetimes.
- ImageLoader.Load: the first Orientation item found by `FirstOrDefault` is the only one modelled. A file with several items of ID 0x0112 is not represented.
- Exif.ToUInt16: models a little-endian machine; `BitConverter` follows the machine's byte order.
- ImageLoader.CanvasSize: the ratio is an exact real, not a 32-bit `float`. The IEEE rounding of `1f * w / h`, `h * ratio` and `w / ratio` can move a borderline comparison or truncation by one, and that is not modelled. `(int)` is modelled as the floor, which is the same for the non-negative values it sees.
- Gdi.Bitmap.DrawImage: modelled as a plain copy of each pixel. GDI+ draws with the default source-over compositing, which blends in premultiplied ARGB, so only source pixels with alpha 255 are copied exactly. A fully transparent source pixel leaves the destination's value: (0, 0, 0, 0) in `Load` (lines 80-83) and black in `AddBorder` (lines 112, 126). A translucent one is blended and rounded. In both methods the model keeps such pixels' channels unchanged, so for images with transparency it differs from GDI+.
- Gdi.Bitmap.Decoded: the other pixel formats a decoded bitmap can have (indexed, 24-bit, 16-bit) are not modelled. Every bitmap here is 32-bit ARGB.
- Allocation failure, and `int` overflow of very large canvases (a huge ratio), are not modelled. Sizes are unbounded naturals.
- `YoloSharpTest/Form1.cs` is not part of this model. It holds the WinForms user interface, the call into the detector, drawing of the results, saving files and the HSV colour conversion.
