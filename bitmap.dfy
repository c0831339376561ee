/**
  The parts of a GDI+ `Bitmap` and `Graphics` surface the image loader uses:
  a 32-bit ARGB pixel buffer that is updated in place, and the bitmap's
  Orientation property item.
 */
module Gdi {
  import opened Raster
  import opened RotateFlip

  class Bitmap {
    /** The pixel buffer: `Height()` rows of `Width()` pixels. */
    var pixels: array2<Color>
    /** The value bytes of the Orientation property item (ID 0x0112), when the bitmap has one. */
    var orientation: Option<seq<uint8>>

    ghost predicate Valid()
      reads this`pixels
    {
      pixels.Length0 > 0 && pixels.Length1 > 0
    }

    function Width(): nat
      reads this`pixels
    {
      pixels.Length1
    }

    function Height(): nat
      reads this`pixels
    {
      pixels.Length0
    }

    /** The buffer's contents as a raster. */
    ghost function Content(): (g: Grid)
      requires Valid()
      reads this`pixels, pixels
      ensures IsImage(g) && Raster.Width(g) == Width() && Raster.Height(g) == Height()
      ensures forall y, x :: 0 <= y < Height() && 0 <= x < Width() ==> g[y][x] == pixels[y, x]
    {
      var p := pixels;
      seq(p.Length0, y reads p requires 0 <= y < p.Length0 =>
        seq(p.Length1, x reads p requires 0 <= x < p.Length1 => p[y, x]))
    }

    /** `new Bitmap(w, h)`: a fresh ARGB bitmap, fully transparent, with no property items. */
    constructor (w: nat, h: nat)
      requires w > 0 && h > 0
      ensures Valid() && fresh(pixels)
      ensures Width() == w && Height() == h
      ensures Content() == Filled(w, h, Transparent)
      ensures orientation == None
    {
      pixels := new Color[h, w]((y, x) => Transparent);
      orientation := None;
      new;
      SameGrid(Content(), Filled(w, h, Transparent), w, h);
    }

    /**
      `new Bitmap(filename)` after a successful decode: the decoded raster and,
      if the file carries one, the Orientation property item's value.
     */
    constructor Decoded(g: Grid, tag: Option<seq<uint8>>)
      requires IsImage(g)
      ensures Valid() && fresh(pixels)
      ensures Content() == g && orientation == tag
    {
      var w, h := Raster.Width(g), Raster.Height(g);
      pixels := new Color[h, w]((y, x) requires 0 <= y < h && 0 <= x < w => g[y][x]);
      orientation := tag;
      new;
      SameGrid(Content(), g, w, h);
    }

    /**
      `Bitmap.RotateFlip(t)`: the buffer is replaced by the rotated and
      mirrored one; property items are untouched.
     */
    method RotateFlip(t: RotateFlipType)
      requires Valid()
      modifies this
      ensures Valid() && fresh(pixels)
      ensures Content() == Transform(t, old(Content()))
      ensures orientation == old(orientation)
    {
      ghost var want := Transform(t, Content());
      pixels := Transformed(pixels, t, Content());
      SameGrid(Content(), want, Width(), Height());
    }

    /** `SetPropertyItem` on the Orientation item: its value becomes `value`. */
    method SetOrientation(value: seq<uint8>)
      modifies this`orientation
      ensures orientation == Some(value)
    {
      orientation := Some(value);
    }

    /** `Graphics.Clear(c)`: every pixel becomes `c`. */
    method Clear(c: Color)
      requires Valid()
      modifies pixels
      ensures Content() == Filled(Width(), Height(), c)
    {
      var w, h := Width(), Height();
      var y := 0;
      while y < h
        invariant 0 <= y <= h
        invariant forall r, x :: 0 <= r < y && 0 <= x < w ==> pixels[r, x] == c
      {
        var x := 0;
        while x < w
          invariant 0 <= x <= w
          invariant forall r, x' :: 0 <= r < y && 0 <= x' < w ==> pixels[r, x'] == c
          invariant forall x' :: 0 <= x' < x ==> pixels[y, x'] == c
        {
          pixels[y, x] := c;
          x := x + 1;
        }
        y := y + 1;
      }
      SameGrid(Content(), Filled(w, h, c), w, h);
    }

    /**
      `Graphics.DrawImage(src, dest, srcRect, GraphicsUnit.Pixel)` with the
      whole of `src` as source rectangle and a destination rectangle of the
      same size at (dx, dy): an unscaled copy, clipped to this bitmap.
     */
    method DrawImage(src: Bitmap, dx: int, dy: int)
      requires Valid() && src.Valid() && src.pixels != pixels
      modifies pixels
      ensures Content() == Blit(old(Content()), Width(), Height(), old(src.Content()), dx, dy)
    {
      ghost var canvas := Content();
      ghost var img := src.Content();
      ghost var want := Blit(canvas, Width(), Height(), img, dx, dy);
      var w, h := Width(), Height();
      var sw, sh := src.Width(), src.Height();
      var y := 0;
      while y < h
        invariant 0 <= y <= h
        invariant forall r, c :: 0 <= r < h && 0 <= c < w ==>
          pixels[r, c] == if r < y then want[r][c] else canvas[r][c]
      {
        var x := 0;
        while x < w
          invariant 0 <= x <= w
          invariant forall r, c :: 0 <= r < h && 0 <= c < w ==>
            pixels[r, c] == if r < y || (r == y && c < x) then want[r][c] else canvas[r][c]
        {
          BlitAt(canvas, w, h, img, dx, dy, y, x);
          if dx <= x < dx + sw && dy <= y < dy + sh {
            pixels[y, x] := src.pixels[y - dy, x - dx];
          }
          x := x + 1;
        }
        y := y + 1;
      }
      SameGrid(Content(), want, w, h);
    }
  }

  /**
    The buffer `RotateFlip` builds: pixel (y, x) of the result is read from
    the source position `SourceOf` gives.
   */
  method Transformed(p: array2<Color>, t: RotateFlipType, ghost g: Grid) returns (out: array2<Color>)
    requires IsImage(g) && p.Length0 == Height(g) && p.Length1 == Width(g)
    requires forall y, x :: 0 <= y < p.Length0 && 0 <= x < p.Length1 ==> p[y, x] == g[y][x]
    ensures fresh(out)
    ensures out.Length0 == Height(Transform(t, g)) && out.Length1 == Width(Transform(t, g))
    ensures forall y, x :: 0 <= y < out.Length0 && 0 <= x < out.Length1 ==> out[y, x] == Transform(t, g)[y][x]
  {
    ghost var want := Transform(t, g);
    var (ow, oh) := TransformedSize(t, p.Length1, p.Length0);
    out := new Color[oh, ow];
    var y := 0;
    while y < oh
      invariant 0 <= y <= oh
      invariant forall r, c :: 0 <= r < y && 0 <= c < ow ==> out[r, c] == want[r][c]
    {
      var x := 0;
      while x < ow
        invariant 0 <= x <= ow
        invariant forall r, c :: 0 <= r < y && 0 <= c < ow ==> out[r, c] == want[r][c]
        invariant forall c :: 0 <= c < x ==> out[y, c] == want[y][c]
      {
        TransformAt(t, g, y, x);
        var (sy, sx) := SourceOf(t, p.Length1, p.Length0, y, x);
        out[y, x] := p[sy, sx];
        x := x + 1;
      }
      y := y + 1;
    }
  }
}
