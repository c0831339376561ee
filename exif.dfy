/**
  The Exif Orientation tag (tag ID 0x0112, Exif 2.3 / TIFF 6.0): how its
  value bytes are read and written, the eight orientation codes, and the
  `RotateFlipType` the loader picks for each code.
 */
module Exif {
  import opened Raster
  import opened RotateFlip

  /**
    `BitConverter.ToUInt16(value, 0)` on a little-endian machine: the first
    two bytes, low byte first. Fewer than two bytes make it throw.
   */
  function ToUInt16(value: seq<uint8>): (r: Option<uint16>)
    ensures r.Some? <==> |value| >= 2
    ensures r.Some? ==> r.value as int == value[0] as int + 0x100 * value[1] as int
  {
    if |value| < 2 then None
    else Some((value[0] as int + 0x100 * value[1] as int) as uint16)
  }

  /** `BitConverter.GetBytes(ushort)` on a little-endian machine: low byte, then high byte. */
  function GetBytes(v: uint16): (b: seq<uint8>)
    ensures |b| == 2
    ensures b[0] as int + 0x100 * b[1] as int == v as int
  {
    [(v % 0x100) as uint8, (v / 0x100) as uint8]
  }

  /** Writing a value and reading it back gives the value. */
  lemma {:induction false} ToUInt16OfGetBytes(v: uint16)
    ensures ToUInt16(GetBytes(v)) == Some(v)
  {
    var b := GetBytes(v);
    assert b[0] as int + 0x100 * b[1] as int == v as int;
  }

  /** Reading the first two bytes and writing them back reproduces those bytes. */
  lemma {:induction false} GetBytesOfToUInt16(value: seq<uint8>)
    requires |value| >= 2
    ensures GetBytes(ToUInt16(value).value) == value[..2]
  {
    var v := ToUInt16(value).value;
    assert v as int == value[0] as int + 0x100 * value[1] as int;
    assert (v % 0x100) as int == value[0] as int;
    assert (v / 0x100) as int == value[1] as int;
  }

  /**
    The eight named orientation codes. Each name gives the visual side on
    which the stored image's 0th row lies, then the side of its 0th column.
   */
  datatype ExifOrientation =
    | TopLeft | TopRight | BottomRight | BottomLeft
    | LeftTop | RightTop | RightBottom | LeftBottom

  /** The numeric tag value of each named orientation. */
  function Code(o: ExifOrientation): (v: uint16)
    ensures 1 <= v <= 8
  {
    match o
    case TopLeft => 1
    case TopRight => 2
    case BottomRight => 3
    case BottomLeft => 4
    case LeftTop => 5
    case RightTop => 6
    case RightBottom => 7
    case LeftBottom => 8
  }

  /** The named orientation a tag value denotes, if any: only 1 to 8 have names. */
  function Named(v: uint16): (o: Option<ExifOrientation>)
    ensures o.Some? <==> 1 <= v <= 8
    ensures o.Some? ==> Code(o.value) == v
  {
    if v == 1 then Some(TopLeft)
    else if v == 2 then Some(TopRight)
    else if v == 3 then Some(BottomRight)
    else if v == 4 then Some(BottomLeft)
    else if v == 5 then Some(LeftTop)
    else if v == 6 then Some(RightTop)
    else if v == 7 then Some(RightBottom)
    else if v == 8 then Some(LeftBottom)
    else None
  }

  /** Every named orientation is found again from its code. */
  lemma NamedOfCode(o: ExifOrientation)
    ensures Named(Code(o)) == Some(o)
  {
  }

  /**
    The transform the loader applies for a tag value: the switch over the
    named codes, with any other value leaving `RotateNoneFlipNone`.
   */
  function RotationFor(v: uint16): (t: RotateFlipType)
    ensures SwapsAxes(t) <==> 5 <= v <= 8
    ensures t == RotateNoneFlipNone <==> !(2 <= v <= 8)
  {
    match Named(v)
    case None => RotateNoneFlipNone
    case Some(o) =>
      match o
      case TopLeft => RotateNoneFlipNone
      case TopRight => RotateNoneFlipX
      case BottomRight => Rotate180FlipNone
      case BottomLeft => RotateNoneFlipY
      case LeftTop => Rotate270FlipY
      case RightTop => Rotate90FlipNone
      case RightBottom => Rotate90FlipY
      case LeftBottom => Rotate270FlipNone
  }

  /**
    A 2 by 2 image whose four pixels differ, so that any two of the eight
    rotate/flip transforms produce different results from it.
   */
  const Corners: Grid := [[Color(0, 0, 0, 0), Color(0, 0, 0, 1)], [Color(0, 0, 0, 2), Color(0, 0, 0, 3)]]

  /**
    Distinct named codes select transforms that act differently: on the
    2 by 2 image `Corners` they give different pictures. (Several GDI+ names
    denote one transform, so distinct `RotateFlipType` values alone would
    not show this.)
   */
  lemma {:induction false} RotationForInjective(v: uint16, u: uint16)
    requires 1 <= v <= 8 && 1 <= u <= 8 && v != u
    ensures Transform(RotationFor(v), Corners) != Transform(RotationFor(u), Corners)
  {
    var tv, tu := RotationFor(v), RotationFor(u);
    CornerSourcesDiffer(v, u);
    TopRowOfCorners(tv);
    TopRowOfCorners(tu);
  }

  /** Pixel (0, x) of a transformed `Corners` is the corner `SourceOf` names, identified by its blue channel. */
  lemma {:induction false} TopRowOfCorners(t: RotateFlipType)
    ensures var r := Transform(t, Corners);
            |r| > 0 && |r[0]| == 2 &&
            r[0][0].b as int == CornerIndex(SourceOf(t, 2, 2, 0, 0)) &&
            r[0][1].b as int == CornerIndex(SourceOf(t, 2, 2, 0, 1))
  {
    TransformAt(t, Corners, 0, 0);
    TransformAt(t, Corners, 0, 1);
    var (y0, x0) := SourceOf(t, 2, 2, 0, 0);
    var (y1, x1) := SourceOf(t, 2, 2, 0, 1);
    assert Corners[y0][x0].b as int == 2 * y0 + x0;
    assert Corners[y1][x1].b as int == 2 * y1 + x1;
  }

  function CornerIndex(p: (int, int)): int {
    2 * p.0 + p.1
  }

  /** The eight transforms send the top two pixels of a 2 by 2 image to eight different source pairs. */
  lemma {:induction false} CornerSourcesDiffer(v: uint16, u: uint16)
    requires 1 <= v <= 8 && 1 <= u <= 8 && v != u
    ensures CornerIndex(SourceOf(RotationFor(v), 2, 2, 0, 0)) != CornerIndex(SourceOf(RotationFor(u), 2, 2, 0, 0)) ||
            CornerIndex(SourceOf(RotationFor(v), 2, 2, 0, 1)) != CornerIndex(SourceOf(RotationFor(u), 2, 2, 0, 1))
  {
  }

  datatype Side = Top | Bottom | Left | Right

  /** The sides an orientation's name puts the stored 0th row and 0th column on. */
  function Sides(o: ExifOrientation): (Side, Side) {
    match o
    case TopLeft => (Top, Left)
    case TopRight => (Top, Right)
    case BottomRight => (Bottom, Right)
    case BottomLeft => (Bottom, Left)
    case LeftTop => (Left, Top)
    case RightTop => (Right, Top)
    case RightBottom => (Right, Bottom)
    case LeftBottom => (Left, Bottom)
  }

  /**
    Where the stored pixel at row `y`, column `x` of a `w` by `h` image must
    appear in the upright picture the tag describes: stored row `y` lies `y`
    pixels in from the 0th-row side, stored column `x` lies `x` pixels in
    from the 0th-column side. The result is (row, column) of the upright
    picture, which is `h` wide and `w` tall when the 0th row is vertical.
   */
  function UprightPosition(o: ExifOrientation, w: nat, h: nat, y: int, x: int): (int, int) {
    var (rowSide, colSide) := Sides(o);
    var (ow, oh) := if rowSide == Left || rowSide == Right then (h, w) else (w, h);
    var row :=
      if rowSide == Top then y
      else if rowSide == Bottom then oh - 1 - y
      else if colSide == Top then x
      else oh - 1 - x;
    var col :=
      if rowSide == Left then y
      else if rowSide == Right then ow - 1 - y
      else if colSide == Left then x
      else ow - 1 - x;
    (row, col)
  }

  /**
    The table is right: for every named code, the transform it selects moves
    each stored pixel to the place in the upright picture that the
    orientation's name prescribes.
   */
  lemma {:induction false} RotationForUprights(v: uint16, g: Grid, y: int, x: int)
    requires 1 <= v <= 8 && IsImage(g)
    requires 0 <= y < Height(g) && 0 <= x < Width(g)
    ensures var r := Transform(RotationFor(v), g);
            var (row, col) := UprightPosition(Named(v).value, Width(g), Height(g), y, x);
            0 <= row < Height(r) && 0 <= col < Width(r) && r[row][col] == g[y][x]
  {
    var t := RotationFor(v);
    var (row, col) := UprightPosition(Named(v).value, Width(g), Height(g), y, x);
    var (ow, oh) := TransformedSize(t, Width(g), Height(g));
    assert 0 <= row < oh && 0 <= col < ow;
    TransformAt(t, g, row, col);
    assert SourceOf(t, Width(g), Height(g), row, col) == (y, x);
  }
}
