/**
  The image normalisation that runs before detection: `Load` applies the
  Exif Orientation tag to the decoded pixels and copies them into a fresh
  32-bit ARGB bitmap; `AddBorder` letterboxes an image with black borders so
  that its width / height ratio matches the detector's input.
 */
module ImageLoader {
  import opened Raster
  import opened RotateFlip
  import opened Exif
  import opened Gdi

  /** `BitConverter.ToUInt16` threw: the Orientation value held fewer than two bytes. */
  datatype LoadError = MalformedOrientation

  /**
    The transform `Load` applies for the Orientation item's value, if it has
    one it can decode: the switch's choice, or `RotateNoneFlipNone`.
   */
  function Selected(tag: Option<seq<uint8>>): RotateFlipType {
    if tag.Some? && |tag.value| >= 2 then RotationFor(ToUInt16(tag.value).value) else RotateNoneFlipNone
  }

  /**
    The raster `Load` returns for a decoded raster `g` and the value of its
    Orientation item, if it has one.
   */
  function Normalized(g: Grid, tag: Option<seq<uint8>>): (r: Result<Grid, LoadError>)
    requires IsImage(g)
    ensures r.Err? <==> tag.Some? && |tag.value| < 2
    ensures r.Ok? ==> IsImage(r.value)
  {
    match tag
    case None => Ok(g)
    case Some(value) =>
      if |value| < 2 then Err(MalformedOrientation)
      else Ok(Transform(Selected(tag), g))
  }

  /** The value written back into the Orientation item: the bytes of code 1, TopLeft. */
  function ResetTag(): (value: seq<uint8>)
    ensures ToUInt16(value) == Some(1)
  {
    ToUInt16OfGetBytes(Code(TopLeft));
    GetBytes(Code(TopLeft))
  }

  /** Codes 5 to 8 exchange width and height; every other outcome keeps them. */
  lemma {:induction false} NormalizedSize(g: Grid, tag: Option<seq<uint8>>)
    requires IsImage(g) && Normalized(g, tag).Ok?
    ensures var r := Normalized(g, tag).value;
            var swapped := tag.Some? && 5 <= ToUInt16(tag.value).value <= 8;
            (swapped ==> Width(r) == Height(g) && Height(r) == Width(g)) &&
            (!swapped ==> Width(r) == Width(g) && Height(r) == Height(g))
  {
    if tag.Some? {
      assert Normalized(g, tag).value == Transform(Selected(tag), g);
    }
  }

  /**
    A tag that is absent, or whose value is not one of the eight named codes,
    or is TopLeft, leaves the pixels exactly as decoded.
   */
  lemma {:induction false} NormalizedKeepsUpright(g: Grid, tag: Option<seq<uint8>>)
    requires IsImage(g)
    requires tag.Some? ==> |tag.value| >= 2 && !(2 <= ToUInt16(tag.value).value <= 8)
    ensures Normalized(g, tag) == Ok(g)
  {
    if tag.Some? {
      IdentityKeeps(g);
    }
  }

  /**
    Normalising again changes nothing: the returned bitmap carries no
    Orientation item, and the bitmap whose item was reset to TopLeft would
    not be transformed either.
   */
  lemma {:induction false} NormalizedIdempotent(g: Grid, tag: Option<seq<uint8>>)
    requires IsImage(g) && Normalized(g, tag).Ok?
    ensures var r := Normalized(g, tag).value;
            Normalized(r, None) == Ok(r) && Normalized(r, Some(ResetTag())) == Ok(r)
  {
    var r := Normalized(g, tag).value;
    NormalizedKeepsUpright(r, Some(ResetTag()));
  }

  /** No pixel is lost: the inverse transform recovers the decoded raster. */
  lemma {:induction false} NormalizedInvertible(g: Grid, tag: Option<seq<uint8>>)
    requires IsImage(g) && Normalized(g, tag).Ok?
    ensures Transform(Inverse(Selected(tag)), Normalized(g, tag).value) == g
  {
    IdentityKeeps(g);
    InverseRestores(Selected(tag), g);
  }

  /**
    Lines 35-75 of `Load`: look up the Orientation item; if there is one,
    decode it, rotate and flip the bitmap in place, and overwrite the item
    with TopLeft. Fails, before touching the bitmap, when the item's value
    is too short to decode.
   */
  method ApplyOrientation(bitmap: Bitmap) returns (r: Result<(), LoadError>)
    requires bitmap.Valid()
    modifies bitmap
    ensures bitmap.Valid()
    ensures r.Err? <==> Normalized(old(bitmap.Content()), old(bitmap.orientation)).Err?
    ensures r.Err? ==> unchanged(bitmap) && unchanged(bitmap.pixels)
    ensures r.Ok? ==> bitmap.Content() == Normalized(old(bitmap.Content()), old(bitmap.orientation)).value
    ensures r.Ok? ==> bitmap.orientation == if old(bitmap.orientation).Some? then Some(ResetTag()) else None
  {
    match bitmap.orientation
    case None =>
      return Ok(());
    case Some(value) =>
      var code := ToUInt16(value);
      if code.None? {
        return Err(MalformedOrientation);
      }
      var rotation := RotationFor(code.value);
      bitmap.RotateFlip(rotation);
      bitmap.SetOrientation(ResetTag());
      return Ok(());
  }

  /**
    `Load`: decode (given here as the decoded raster and its Orientation
    item), orient, then copy into a fresh ARGB bitmap of the same size. The
    returned bitmap has no property items.
   */
  method Load(decoded: Grid, tag: Option<seq<uint8>>) returns (r: Result<Bitmap, LoadError>)
    requires IsImage(decoded)
    ensures r.Err? <==> Normalized(decoded, tag).Err?
    ensures r.Ok? ==> fresh(r.value) && fresh(r.value.pixels) && r.value.Valid()
    ensures r.Ok? ==> r.value.Content() == Normalized(decoded, tag).value && r.value.orientation == None
  {
    var bitmap := new Bitmap.Decoded(decoded, tag);
    var oriented := ApplyOrientation(bitmap);
    if oriented.Err? {
      return Err(oriented.error);
    }
    var result := new Bitmap(bitmap.Width(), bitmap.Height());
    result.DrawImage(bitmap, 0, 0);
    BlitCovering(Filled(bitmap.Width(), bitmap.Height(), Transparent), bitmap.Content());
    return Ok(result);
  }

  /**
    The branch `AddBorder` takes: the image is narrower than the target
    (width / height strictly below the ratio), so the width is padded. An
    exact match takes the other branch.
   */
  predicate PadsWidth(w: nat, h: nat, ratio: real)
    requires h > 0
  {
    (w as real) / (h as real) < ratio
  }

  lemma MulMonotone(a: real, b: real, c: real)
    requires c > 0.0
    ensures a <= b ==> a * c <= b * c
    ensures a < b ==> a * c < b * c
  {
  }

  lemma DivMul(a: real, c: real)
    requires c != 0.0
    ensures (a / c) * c == a
  {
  }

  /** A quotient is below `r` exactly when the dividend is below `r` times the divisor. */
  lemma {:induction false} QuotientBelow(a: real, b: real, r: real)
    requires b > 0.0
    ensures a / b < r <==> a < b * r
  {
    DivMul(a, b);
    MulMonotone(a / b, r, b);
    MulMonotone(r, a / b, b);
  }

  /** `b` is at most `a / r` exactly when `b` times `r` is at most `a`. */
  lemma {:induction false} QuotientAtLeast(a: real, b: real, r: real)
    requires r > 0.0
    ensures b <= a / r <==> b * r <= a
  {
    DivMul(a, r);
    MulMonotone(b, a / r, r);
    MulMonotone(a / r, b, r);
  }

  lemma Distrib(f: real, c: real)
    ensures (f + 1.0) * c == f * c + c
  {
  }

  /** If `q` times `c` is `a` and `f` is at most `q`, then `f` times `c` is at most `a`. */
  lemma {:induction false} BracketBelow(a: real, q: real, f: real, c: real)
    requires c > 0.0 && q * c == a && f <= q
    ensures f * c <= a
  {
    MulMonotone(f, q, c);
  }

  /** If `q` times `c` is `a` and `q` is below `f + 1`, then `a` is below `f` times `c` plus `c`. */
  lemma {:induction false} BracketAbove(a: real, q: real, f: real, c: real)
    requires c > 0.0 && q * c == a && q < f + 1.0
    ensures a < f * c + c
  {
    MulMonotone(q, f + 1.0, c);
    Distrib(f, c);
  }

  lemma {:induction false} RatioBelow(w: nat, h: nat, ratio: real)
    requires h > 0
    ensures PadsWidth(w, h, ratio) <==> (w as real) < (h as real) * ratio
  {
    QuotientBelow(w as real, h as real, ratio);
  }

  lemma {:induction false} RatioAtLeast(w: nat, h: nat, ratio: real)
    requires h > 0 && ratio > 0.0
    ensures !PadsWidth(w, h, ratio) <==> (h as real) <= (w as real) / ratio
  {
    RatioBelow(w, h, ratio);
    QuotientAtLeast(w as real, h as real, ratio);
  }

  /** A whole width `n` below `h` times `ratio` by less than one is at least `w`. */
  lemma {:induction false} FloorProduct(w: nat, h: nat, ratio: real, n: int)
    requires h > 0 && (w as real) < (h as real) * ratio
    requires n as real <= (h as real) * ratio < n as real + 1.0
    ensures w <= n
  {
  }

  /**
    A whole height `n` within one of `w / ratio` from below brackets `w`
    between `n` and `n + 1` multiples of `ratio`, and is at least `h`.
   */
  lemma {:induction false} FloorQuotient(w: nat, h: nat, ratio: real, n: int)
    requires ratio > 0.0 && (h as real) <= (w as real) / ratio
    requires n as real <= (w as real) / ratio < n as real + 1.0
    ensures h <= n
    ensures (n as real) * ratio <= (w as real) < (n as real) * ratio + ratio
  {
    DivMul(w as real, ratio);
    BracketBelow(w as real, (w as real) / ratio, n as real, ratio);
    BracketAbove(w as real, (w as real) / ratio, n as real, ratio);
  }

  /**
    Width and height of the canvas `AddBorder` allocates for a `w` by `h`
    image and a positive ratio. One side is kept; the other is the truncated
    product or quotient, the largest whole size whose ratio does not exceed
    (when padding the width) or fall below (when padding the height) the target.
   */
  function CanvasSize(w: nat, h: nat, ratio: real): (size: (nat, nat))
    requires w > 0 && h > 0 && ratio > 0.0
    ensures PadsWidth(w, h, ratio) ==>
              size.1 == h && w <= size.0 &&
              size.0 as real <= (h as real) * ratio < size.0 as real + 1.0
    ensures !PadsWidth(w, h, ratio) ==>
              size.0 == w && h <= size.1 &&
              (size.1 as real) * ratio <= (w as real) < (size.1 as real) * ratio + ratio
  {
    RatioBelow(w, h, ratio);
    RatioAtLeast(w, h, ratio);
    if PadsWidth(w, h, ratio) then
      var n := ((h as real) * ratio).Floor;
      FloorProduct(w, h, ratio, n);
      (n, h)
    else
      var n := ((w as real) / ratio).Floor;
      FloorQuotient(w, h, ratio, n);
      (w, n)
  }

  /** The leading margin when `inner` pixels are centred in `outer`: half the slack, rounded down. */
  function Margin(outer: nat, inner: nat): (lead: nat)
    requires inner <= outer
    ensures lead <= outer - inner - lead <= lead + 1
  {
    (outer - inner) / 2
  }

  /** Top-left corner at which `AddBorder` draws the `w` by `h` image on its canvas. */
  function Placement(w: nat, h: nat, ratio: real): (offset: (nat, nat))
    requires w > 0 && h > 0 && ratio > 0.0
    ensures var (ow, oh) := CanvasSize(w, h, ratio);
            offset.0 + w <= ow && offset.1 + h <= oh
  {
    var (ow, oh) := CanvasSize(w, h, ratio);
    if PadsWidth(w, h, ratio) then (Margin(ow, w), 0) else (0, Margin(oh, h))
  }

  /** The raster `AddBorder` returns. */
  function Letterboxed(g: Grid, ratio: real): (r: Grid)
    requires IsImage(g)
    ensures IsImage(r)
  {
    if ratio <= 0.0 then g
    else
      var size := CanvasSize(Width(g), Height(g), ratio);
      var at := Placement(Width(g), Height(g), ratio);
      Blit(Filled(size.0, size.1, Black), size.0, size.1, g, at.0, at.1)
  }

  /** In the padded-width branch the canvas is the truncated `h * ratio` wide, the image centred across. */
  lemma {:induction false} LetterboxedWidthBranch(g: Grid, ratio: real, width: int, s: int)
    requires IsImage(g) && ratio > 0.0 && PadsWidth(Width(g), Height(g), ratio)
    requires width == ((Height(g) as real) * ratio).Floor && s == (width - Width(g)) / 2
    ensures width >= Width(g)
    ensures Letterboxed(g, ratio) == Blit(Filled(width, Height(g), Black), width, Height(g), g, s, 0)
  {
    var size := CanvasSize(Width(g), Height(g), ratio);
    assert size.0 == width;
  }

  /** In the padded-height branch the canvas is the truncated `w / ratio` tall, the image centred down. */
  lemma {:induction false} LetterboxedHeightBranch(g: Grid, ratio: real, height: int, s: int)
    requires IsImage(g) && ratio > 0.0 && !PadsWidth(Width(g), Height(g), ratio)
    requires height == ((Width(g) as real) / ratio).Floor && s == (height - Height(g)) / 2
    ensures height >= Height(g)
    ensures Letterboxed(g, ratio) == Blit(Filled(Width(g), height, Black), Width(g), height, g, 0, s)
  {
    var size := CanvasSize(Width(g), Height(g), ratio);
    assert size.1 == height;
  }

  /**
    The original image sits, unscaled, inside the letterboxed one: cropping
    the placed window gives it back.
   */
  lemma {:induction false} LetterboxedContainsImage(g: Grid, ratio: real)
    requires IsImage(g) && ratio > 0.0
    ensures var (dx, dy) := Placement(Width(g), Height(g), ratio);
            var r := Letterboxed(g, ratio);
            |r| >= dy + Height(g) && (forall y :: dy <= y < dy + Height(g) ==> |r[y]| >= dx + Width(g)) &&
            Crop(r, dx, dy, Width(g), Height(g)) == g
  {
    var (ow, oh) := CanvasSize(Width(g), Height(g), ratio);
    var (dx, dy) := Placement(Width(g), Height(g), ratio);
    CropOfBlit(Filled(ow, oh, Black), ow, oh, g, dx, dy);
  }

  /** Every pixel of the letterboxed image outside the placed window is opaque black. */
  lemma {:induction false} LetterboxedBorderIsBlack(g: Grid, ratio: real, y: int, x: int)
    requires IsImage(g) && ratio > 0.0
    requires var r := Letterboxed(g, ratio); 0 <= y < Height(r) && 0 <= x < Width(r)
    requires var (dx, dy) := Placement(Width(g), Height(g), ratio);
             !InRect(x, y, dx, dy, Width(g), Height(g))
    ensures Letterboxed(g, ratio)[y][x] == Black
  {
    var (ow, oh) := CanvasSize(Width(g), Height(g), ratio);
    var (dx, dy) := Placement(Width(g), Height(g), ratio);
    BlitAt(Filled(ow, oh, Black), ow, oh, g, dx, dy, y, x);
  }

  /** When the image already has the target ratio, letterboxing returns it unchanged. */
  lemma {:induction false} LetterboxedExactRatio(g: Grid, ratio: real)
    requires IsImage(g) && ratio > 0.0
    requires (Width(g) as real) / (Height(g) as real) == ratio
    ensures CanvasSize(Width(g), Height(g), ratio) == (Width(g), Height(g))
    ensures Placement(Width(g), Height(g), ratio) == (0, 0)
    ensures Letterboxed(g, ratio) == g
  {
    var w, h := Width(g), Height(g);
    var q := (w as real) / (h as real);
    assert q * (h as real) == w as real;
    assert (w as real) / ratio == h as real;
    BlitCovering(Filled(w, h, Black), g);
  }

  /**
    `AddBorder`: for a non-positive ratio a plain copy; otherwise a canvas of
    `CanvasSize`, cleared to black, with the image drawn unscaled at `Placement`.
   */
  method AddBorder(bmp: Bitmap, ratio: real) returns (output: Bitmap)
    requires bmp.Valid()
    ensures fresh(output) && fresh(output.pixels) && output.Valid()
    ensures output.Content() == Letterboxed(bmp.Content(), ratio)
    ensures output.orientation == None
  {
    if ratio <= 0.0 {
      output := Copy(bmp);
      return;
    }
    var a := (bmp.Width() as real) / (bmp.Height() as real);
    if a < ratio {
      output := PadWidth(bmp, ratio);
    } else {
      output := PadHeight(bmp, ratio);
    }
  }

  /** The first branch of `AddBorder`: black bars left and right. */
  method PadWidth(bmp: Bitmap, ratio: real) returns (output: Bitmap)
    requires bmp.Valid() && ratio > 0.0 && PadsWidth(bmp.Width(), bmp.Height(), ratio)
    ensures fresh(output) && fresh(output.pixels) && output.Valid()
    ensures output.Content() == Letterboxed(bmp.Content(), ratio)
    ensures output.orientation == None
  {
    ghost var g := bmp.Content();
    var w, h := bmp.Width(), bmp.Height();
    var width := ((h as real) * ratio).Floor;
    var s := (width - w) / 2;
    LetterboxedWidthBranch(g, ratio, width, s);
    output := Framed(bmp, width, h, s, 0);
  }

  /** The second branch of `AddBorder`: black bars above and below. */
  method PadHeight(bmp: Bitmap, ratio: real) returns (output: Bitmap)
    requires bmp.Valid() && ratio > 0.0 && !PadsWidth(bmp.Width(), bmp.Height(), ratio)
    ensures fresh(output) && fresh(output.pixels) && output.Valid()
    ensures output.Content() == Letterboxed(bmp.Content(), ratio)
    ensures output.orientation == None
  {
    ghost var g := bmp.Content();
    var w, h := bmp.Width(), bmp.Height();
    var height := ((w as real) / ratio).Floor;
    var s := (height - h) / 2;
    LetterboxedHeightBranch(g, ratio, height, s);
    output := Framed(bmp, w, height, 0, s);
  }

  /** `new Bitmap(bmp)`: a fresh bitmap of the same size holding the same pixels. */
  method Copy(bmp: Bitmap) returns (output: Bitmap)
    requires bmp.Valid()
    ensures fresh(output) && fresh(output.pixels) && output.Valid()
    ensures output.Content() == bmp.Content()
    ensures output.orientation == None
  {
    output := new Bitmap(bmp.Width(), bmp.Height());
    output.DrawImage(bmp, 0, 0);
    BlitCovering(Filled(bmp.Width(), bmp.Height(), Transparent), bmp.Content());
  }

  /**
    One branch of `AddBorder`: a new `width` by `height` bitmap, cleared to
    black, with `bmp` drawn unscaled at (dx, dy).
   */
  method Framed(bmp: Bitmap, width: nat, height: nat, dx: int, dy: int) returns (output: Bitmap)
    requires bmp.Valid() && width > 0 && height > 0
    ensures fresh(output) && fresh(output.pixels) && output.Valid()
    ensures output.Content() == Blit(Filled(width, height, Black), width, height, bmp.Content(), dx, dy)
    ensures output.orientation == None
  {
    output := new Bitmap(width, height);
    output.Clear(Black);
    output.DrawImage(bmp, dx, dy);
  }
}
