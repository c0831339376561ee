/**
  The geometry of GDI+ `RotateFlipType`: a clockwise rotation by a multiple
  of 90 degrees followed by a mirror. The reference meaning (`Transform`) is
  built from a single quarter turn and two mirrors; `SourceOf` is the
  closed-form pixel map a rotating loop uses, and `TransformAt` ties the two.
 */
module RotateFlip {
  import opened Raster

  /** Clockwise rotation, applied first. */
  datatype Turn = Turn0 | Turn90 | Turn180 | Turn270

  /** Mirror applied after the rotation: X swaps left and right, Y swaps top and bottom. */
  datatype Mirror = NoMirror | MirrorX | MirrorY | MirrorXY

  /** A GDI+ `RotateFlipType` value; its sixteen names denote eight distinct transforms. */
  datatype RotateFlipType = RotateFlipType(turn: Turn, mirror: Mirror)

  const RotateNoneFlipNone: RotateFlipType := RotateFlipType(Turn0, NoMirror)
  const RotateNoneFlipX: RotateFlipType := RotateFlipType(Turn0, MirrorX)
  const RotateNoneFlipY: RotateFlipType := RotateFlipType(Turn0, MirrorY)
  const Rotate90FlipNone: RotateFlipType := RotateFlipType(Turn90, NoMirror)
  const Rotate90FlipY: RotateFlipType := RotateFlipType(Turn90, MirrorY)
  const Rotate180FlipNone: RotateFlipType := RotateFlipType(Turn180, NoMirror)
  const Rotate270FlipNone: RotateFlipType := RotateFlipType(Turn270, NoMirror)
  const Rotate270FlipY: RotateFlipType := RotateFlipType(Turn270, MirrorY)

  /** A quarter turn clockwise: the bottom-left pixel becomes the top-left one. */
  function Rot90(g: Grid): (r: Grid)
    requires IsImage(g)
    ensures IsImage(r) && Width(r) == Height(g) && Height(r) == Width(g)
  {
    var w, h := Width(g), Height(g);
    seq(w, y requires 0 <= y < w => seq(h, x requires 0 <= x < h => g[h - 1 - x][y]))
  }

  /** Left and right exchanged. */
  function FlipX(g: Grid): (r: Grid)
    requires IsImage(g)
    ensures IsImage(r) && Width(r) == Width(g) && Height(r) == Height(g)
  {
    var w, h := Width(g), Height(g);
    seq(h, y requires 0 <= y < h => seq(w, x requires 0 <= x < w => g[y][w - 1 - x]))
  }

  /** Top and bottom exchanged. */
  function FlipY(g: Grid): (r: Grid)
    requires IsImage(g)
    ensures IsImage(r) && Width(r) == Width(g) && Height(r) == Height(g)
  {
    var w, h := Width(g), Height(g);
    seq(h, y requires 0 <= y < h => seq(w, x requires 0 <= x < w => g[h - 1 - y][x]))
  }

  function Rotate(t: Turn, g: Grid): (r: Grid)
    requires IsImage(g)
    ensures IsImage(r)
  {
    match t
    case Turn0 => g
    case Turn90 => Rot90(g)
    case Turn180 => Rot90(Rot90(g))
    case Turn270 => Rot90(Rot90(Rot90(g)))
  }

  function Reflect(m: Mirror, g: Grid): (r: Grid)
    requires IsImage(g)
    ensures IsImage(r) && Width(r) == Width(g) && Height(r) == Height(g)
  {
    match m
    case NoMirror => g
    case MirrorX => FlipX(g)
    case MirrorY => FlipY(g)
    case MirrorXY => FlipY(FlipX(g))
  }

  /** True when the transform exchanges width and height. */
  predicate SwapsAxes(t: RotateFlipType) {
    t.turn == Turn90 || t.turn == Turn270
  }

  /** `Bitmap.RotateFlip(t)` as a value: rotate clockwise, then mirror. */
  function Transform(t: RotateFlipType, g: Grid): (r: Grid)
    requires IsImage(g)
    ensures IsImage(r)
    ensures SwapsAxes(t) ==> Width(r) == Height(g) && Height(r) == Width(g)
    ensures !SwapsAxes(t) ==> Width(r) == Width(g) && Height(r) == Height(g)
  {
    Reflect(t.mirror, Rotate(t.turn, g))
  }

  /** Output width and height of `t` applied to a `w` by `h` image. */
  function TransformedSize(t: RotateFlipType, w: nat, h: nat): (nat, nat) {
    if SwapsAxes(t) then (h, w) else (w, h)
  }

  /** Row and column of the `w` by `h` input that rotation `t` moves to (y, x). */
  function TurnSource(t: Turn, w: nat, h: nat, y: int, x: int): (int, int) {
    match t
    case Turn0 => (y, x)
    case Turn90 => (h - 1 - x, y)
    case Turn180 => (h - 1 - y, w - 1 - x)
    case Turn270 => (x, w - 1 - y)
  }

  /** Row and column of a `w` by `h` image that mirror `m` moves to (y, x). */
  function MirrorSource(m: Mirror, w: nat, h: nat, y: int, x: int): (int, int) {
    (if m == MirrorY || m == MirrorXY then h - 1 - y else y,
     if m == MirrorX || m == MirrorXY then w - 1 - x else x)
  }

  /**
    For the pixel at row `y`, column `x` of the transformed image, the row and
    column of the `w` by `h` input it comes from.
   */
  function SourceOf(t: RotateFlipType, w: nat, h: nat, y: int, x: int): (int, int) {
    var (ow, oh) := TransformedSize(t, w, h);
    var (my, mx) := MirrorSource(t.mirror, ow, oh, y, x);
    TurnSource(t.turn, w, h, my, mx)
  }

  lemma Rot90At(g: Grid, y: int, x: int)
    requires IsImage(g) && 0 <= y < Width(g) && 0 <= x < Height(g)
    ensures Rot90(g)[y][x] == g[Height(g) - 1 - x][y]
  {
  }

  lemma {:induction false} Rot180At(g: Grid, y: int, x: int)
    requires IsImage(g) && 0 <= y < Height(g) && 0 <= x < Width(g)
    ensures Rot90(Rot90(g))[y][x] == g[Height(g) - 1 - y][Width(g) - 1 - x]
  {
    var r1 := Rot90(g);
    Rot90At(r1, y, x);
    Rot90At(g, Width(g) - 1 - x, y);
  }

  lemma {:induction false} Rot270At(g: Grid, y: int, x: int)
    requires IsImage(g) && 0 <= y < Width(g) && 0 <= x < Height(g)
    ensures Rot90(Rot90(Rot90(g)))[y][x] == g[x][Width(g) - 1 - y]
  {
    var r1 := Rot90(g);
    Rot180At(r1, y, x);
    Rot90At(g, Width(g) - 1 - y, x);
  }

  lemma {:induction false} RotateAt(t: Turn, g: Grid, y: int, x: int)
    requires IsImage(g)
    requires 0 <= x < TransformedSize(RotateFlipType(t, NoMirror), Width(g), Height(g)).0
    requires 0 <= y < TransformedSize(RotateFlipType(t, NoMirror), Width(g), Height(g)).1
    ensures var r := Rotate(t, g);
            var (sy, sx) := TurnSource(t, Width(g), Height(g), y, x);
            0 <= sy < Height(g) && 0 <= sx < Width(g) &&
            Width(r) == TransformedSize(RotateFlipType(t, NoMirror), Width(g), Height(g)).0 &&
            Height(r) == TransformedSize(RotateFlipType(t, NoMirror), Width(g), Height(g)).1 &&
            r[y][x] == g[sy][sx]
  {
    match t
    case Turn0 =>
    case Turn90 => Rot90At(g, y, x);
    case Turn180 => Rot180At(g, y, x);
    case Turn270 => Rot270At(g, y, x);
  }

  lemma {:induction false} ReflectAt(m: Mirror, g: Grid, y: int, x: int)
    requires IsImage(g) && 0 <= y < Height(g) && 0 <= x < Width(g)
    ensures var (sy, sx) := MirrorSource(m, Width(g), Height(g), y, x);
            0 <= sy < Height(g) && 0 <= sx < Width(g) &&
            Reflect(m, g)[y][x] == g[sy][sx]
  {
    if m == MirrorXY {
      var f := FlipX(g);
      assert FlipY(f)[y][x] == f[Height(g) - 1 - y][x];
    }
  }

  /** The closed-form map `SourceOf` picks exactly the pixel `Transform` puts at (y, x). */
  lemma {:induction false} TransformAt(t: RotateFlipType, g: Grid, y: int, x: int)
    requires IsImage(g)
    requires 0 <= x < TransformedSize(t, Width(g), Height(g)).0
    requires 0 <= y < TransformedSize(t, Width(g), Height(g)).1
    ensures var r := Transform(t, g);
            var (sy, sx) := SourceOf(t, Width(g), Height(g), y, x);
            0 <= sy < Height(g) && 0 <= sx < Width(g) &&
            Width(r) == TransformedSize(t, Width(g), Height(g)).0 &&
            Height(r) == TransformedSize(t, Width(g), Height(g)).1 &&
            r[y][x] == g[sy][sx]
  {
    var rot := Rotate(t.turn, g);
    var (ow, oh) := TransformedSize(t, Width(g), Height(g));
    var (my, mx) := MirrorSource(t.mirror, ow, oh, y, x);
    RotateAt(t.turn, g, 0, 0);
    ReflectAt(t.mirror, rot, y, x);
    RotateAt(t.turn, g, my, mx);
  }

  /** The transform that undoes `t`: a mirror-with-turn is its own inverse, a plain turn reverses. */
  function Inverse(t: RotateFlipType): (u: RotateFlipType)
    ensures SwapsAxes(u) == SwapsAxes(t)
  {
    if t.mirror == MirrorX || t.mirror == MirrorY then t
    else
      var back := match t.turn
        case Turn0 => Turn0
        case Turn90 => Turn270
        case Turn180 => Turn180
        case Turn270 => Turn90;
      RotateFlipType(back, t.mirror)
  }

  /** Following the inverse's source map and then `t`'s leads back to the starting pixel. */
  lemma {:induction false} SourceOfInverse(t: RotateFlipType, w: nat, h: nat, y: int, x: int)
    requires 0 <= y < h && 0 <= x < w
    ensures var (ow, oh) := TransformedSize(t, w, h);
            var (my, mx) := SourceOf(Inverse(t), ow, oh, y, x);
            SourceOf(t, w, h, my, mx) == (y, x)
  {
    match t.mirror {
      case NoMirror =>
        match t.turn { case Turn0 => case Turn90 => case Turn180 => case Turn270 => }
      case MirrorX =>
        match t.turn { case Turn0 => case Turn90 => case Turn180 => case Turn270 => }
      case MirrorY =>
        match t.turn { case Turn0 => case Turn90 => case Turn180 => case Turn270 => }
      case MirrorXY =>
        match t.turn { case Turn0 => case Turn90 => case Turn180 => case Turn270 => }
    }
  }

  lemma {:induction false} InverseRestoresAt(t: RotateFlipType, g: Grid, y: int, x: int)
    requires IsImage(g) && 0 <= y < Height(g) && 0 <= x < Width(g)
    ensures var back := Transform(Inverse(t), Transform(t, g));
            Width(back) == Width(g) && Height(back) == Height(g) && back[y][x] == g[y][x]
  {
    var once := Transform(t, g);
    var u := Inverse(t);
    TransformAt(u, once, y, x);
    var (my, mx) := SourceOf(u, Width(once), Height(once), y, x);
    TransformAt(t, g, my, mx);
    SourceOfInverse(t, Width(g), Height(g), y, x);
  }

  /** Rotating and flipping loses no pixel: the inverse transform restores the input exactly. */
  lemma {:induction false} InverseRestores(t: RotateFlipType, g: Grid)
    requires IsImage(g)
    ensures Transform(Inverse(t), Transform(t, g)) == g
  {
    var back := Transform(Inverse(t), Transform(t, g));
    InverseRestoresAt(t, g, 0, 0);
    forall y, x | 0 <= y < Height(g) && 0 <= x < Width(g)
      ensures back[y][x] == g[y][x]
    {
      InverseRestoresAt(t, g, y, x);
    }
    SameGrid(back, g, Width(g), Height(g));
  }

  /** The identity transform leaves every image as it is. */
  lemma {:induction false} IdentityKeeps(g: Grid)
    requires IsImage(g)
    ensures Transform(RotateNoneFlipNone, g) == g
  {
  }
}
