/** LineSquare of util/image.go: an image that is a colour on a band along
    the edges of a rectangle and transparent inside. Coordinates are measured
    from (0, 0), not from the rectangle's Min corner. */
module Image {
  import opened Common

  datatype Point = Point(x: int, y: int)

  /** image.Rectangle: Min inclusive, Max exclusive. */
  datatype Rectangle = Rectangle(min: Point, max: Point) {
    function Dx(): int { max.x - min.x }
    function Dy(): int { max.y - min.y }
  }

  /** The colour models the core refers to. */
  datatype ColorModel = RGBAModel

  datatype LineSquare = LineSquare(size: Rectangle, border: nat, clr: Color) {

    /** Always the RGBA model. */
    function ColorModel(): (cm: ColorModel)
      ensures cm == RGBAModel
    {
      RGBAModel
    }

    /** The rectangle the square was given, unchanged. */
    function Bounds(): (r: Rectangle)
      ensures r == size
    {
      size
    }

    /** The colour of pixel (x, y): the square's colour within `border` of
        column 0 or of column Dx, or of row 0 or of row Dy; transparent
        elsewhere. The tests use <=, so column 0 and row 0 are coloured
        even when the border is 0. */
    function At(x: int, y: int): (c: Color)
      ensures c == clr || c == Transparent
      ensures x <= border || y <= border ==> c == clr
      ensures x >= size.Dx() - border || y >= size.Dy() - border ==> c == clr
      ensures border < x < size.Dx() - border && border < y < size.Dy() - border ==> c == Transparent
    {
      if x <= border || x >= size.Dx() - border then clr
      else if y <= border || y >= size.Dy() - border then clr
      else Transparent
    }
  }

  /** The picture does not depend on where the rectangle lies, only on its
      width and height: At ignores Min. */
  lemma AtIgnoresPosition(ls: LineSquare, dx: int, dy: int, x: int, y: int)
    ensures var moved := Rectangle(Point(ls.size.min.x + dx, ls.size.min.y + dy),
                                   Point(ls.size.max.x + dx, ls.size.max.y + dy));
            ls.(size := moved).At(x, y) == ls.At(x, y)
  {
  }

  /** The band is symmetric: mirroring a pixel about the square's centre
      lines, x to Dx - x or y to Dy - y, keeps its colour. */
  lemma AtMirrored(ls: LineSquare, x: int, y: int)
    ensures ls.At(ls.size.Dx() - x, y) == ls.At(x, y)
    ensures ls.At(x, ls.size.Dy() - y) == ls.At(x, y)
  {
  }

  /** A wider border colours every pixel a narrower one does. */
  lemma AtBorderMonotone(ls: LineSquare, wider: nat, x: int, y: int)
    requires wider >= ls.border
    requires ls.At(x, y) == ls.clr
    ensures ls.(border := wider).At(x, y) == ls.clr
  {
  }
}
