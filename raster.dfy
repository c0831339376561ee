/**
  Values shared by the image loader: byte-sized integers, 32-bit ARGB pixels,
  rectangular pixel grids, and the Option/Result wrappers used for the
  metadata lookup and for failures.
 */
module Raster {

  /** An unsigned byte (C# `byte`). */
  newtype uint8 = x: int | 0 <= x < 0x100

  /** An unsigned 16-bit integer (C# `ushort`). */
  newtype uint16 = x: int | 0 <= x < 0x1_0000

  datatype Option<+T> = None | Some(value: T)

  datatype Result<+T, +E> = Ok(value: T) | Err(error: E)

  /** One pixel of a 32-bit ARGB bitmap: 8 bits each of alpha, red, green, blue. */
  datatype Color = Color(a: uint8, r: uint8, g: uint8, b: uint8)

  /** Opaque black, the colour `Graphics.Clear(Color.Black)` paints. */
  const Black: Color := Color(0xFF, 0, 0, 0)

  /** Fully transparent black, the contents of a freshly allocated ARGB bitmap. */
  const Transparent: Color := Color(0, 0, 0, 0)

  /** A raster as a sequence of rows, row 0 at the top, column 0 at the left. */
  type Grid = seq<seq<Color>>

  /** `g` has exactly `h` rows of exactly `w` pixels each. */
  predicate IsRect(g: Grid, w: nat, h: nat) {
    |g| == h && forall y :: 0 <= y < h ==> |g[y]| == w
  }

  /** A decoded bitmap: GDI+ bitmaps are at least one pixel wide and tall. */
  predicate IsImage(g: Grid) {
    |g| > 0 && |g[0]| > 0 && IsRect(g, |g[0]|, |g|)
  }

  function Width(g: Grid): nat
    requires IsImage(g)
  {
    |g[0]|
  }

  function Height(g: Grid): nat
    requires IsImage(g)
  {
    |g|
  }

  /** A `w` by `h` raster every pixel of which is `c`. */
  function Filled(w: nat, h: nat, c: Color): (g: Grid)
    ensures IsRect(g, w, h)
  {
    seq(h, _ => seq(w, _ => c))
  }

  /** True when (x, y) lies in the `w` by `h` rectangle whose top-left corner is (dx, dy). */
  predicate InRect(x: int, y: int, dx: int, dy: int, w: nat, h: nat) {
    dx <= x < dx + w && dy <= y < dy + h
  }

  /**
    The result of copying all of `img`, unscaled, onto `canvas` with its
    top-left corner at (dx, dy): pixels covered by the copy take `img`'s
    value, the others keep the canvas's, and whatever falls outside the
    canvas is clipped.
   */
  function Blit(canvas: Grid, cw: nat, ch: nat, img: Grid, dx: int, dy: int): (r: Grid)
    requires IsRect(canvas, cw, ch) && IsImage(img)
    ensures IsRect(r, cw, ch)
  {
    seq(ch, y requires 0 <= y < ch =>
      seq(cw, x requires 0 <= x < cw =>
        if InRect(x, y, dx, dy, Width(img), Height(img)) then img[y - dy][x - dx] else canvas[y][x]))
  }

  lemma BlitAt(canvas: Grid, cw: nat, ch: nat, img: Grid, dx: int, dy: int, y: int, x: int)
    requires IsRect(canvas, cw, ch) && IsImage(img) && 0 <= y < ch && 0 <= x < cw
    ensures InRect(x, y, dx, dy, Width(img), Height(img)) ==>
              Blit(canvas, cw, ch, img, dx, dy)[y][x] == img[y - dy][x - dx]
    ensures !InRect(x, y, dx, dy, Width(img), Height(img)) ==>
              Blit(canvas, cw, ch, img, dx, dy)[y][x] == canvas[y][x]
  {
  }

  /** Copying an image onto a canvas of its own size at (0, 0) leaves exactly the image. */
  lemma {:induction false} BlitCovering(canvas: Grid, img: Grid)
    requires IsImage(img) && IsRect(canvas, Width(img), Height(img))
    ensures Blit(canvas, Width(img), Height(img), img, 0, 0) == img
  {
    var w, h := Width(img), Height(img);
    var b := Blit(canvas, w, h, img, 0, 0);
    forall y, x | 0 <= y < h && 0 <= x < w
      ensures b[y][x] == img[y][x]
    {
      BlitAt(canvas, w, h, img, 0, 0, y, x);
    }
    SameGrid(b, img, w, h);
  }

  /** The `w` by `h` window of `g` whose top-left corner is (dx, dy). */
  function Crop(g: Grid, dx: nat, dy: nat, w: nat, h: nat): (r: Grid)
    requires |g| >= dy + h && forall y :: dy <= y < dy + h ==> |g[y]| >= dx + w
    ensures IsRect(r, w, h)
  {
    seq(h, y requires 0 <= y < h => g[dy + y][dx .. dx + w])
  }

  /**
    Copying an image onto a canvas and cutting the same window back out
    returns the image unchanged, whatever the canvas held.
   */
  lemma {:induction false} CropOfBlit(canvas: Grid, cw: nat, ch: nat, img: Grid, dx: nat, dy: nat)
    requires IsRect(canvas, cw, ch) && IsImage(img)
    requires dx + Width(img) <= cw && dy + Height(img) <= ch
    ensures Crop(Blit(canvas, cw, ch, img, dx, dy), dx, dy, Width(img), Height(img)) == img
  {
    var w, h := Width(img), Height(img);
    var b := Blit(canvas, cw, ch, img, dx, dy);
    var c := Crop(b, dx, dy, w, h);
    forall y | 0 <= y < h
      ensures c[y] == img[y]
    {
      assert |img[y]| == w;
      forall x | 0 <= x < w
        ensures c[y][x] == img[y][x]
      {
        assert c[y][x] == b[dy + y][dx + x];
      }
    }
  }

  /** Two rasters of one size that agree pixel by pixel are equal. */
  lemma {:induction false} SameGrid(a: Grid, b: Grid, w: nat, h: nat)
    requires IsRect(a, w, h) && IsRect(b, w, h)
    requires forall y, x :: 0 <= y < h && 0 <= x < w ==> a[y][x] == b[y][x]
    ensures a == b
  {
    forall y | 0 <= y < h
      ensures a[y] == b[y]
    {
      assert |a[y]| == w == |b[y]|;
    }
  }
}
