/** The slice of Go's `image` and `image/color` packages that the driver, the
    image wrappers and the font code rely on: points, half-open rectangles,
    16-bit RGBA colours and an image as a colour function over the plane. */
module Imaging {

  datatype Point = Point(x: int, y: int) {
    function Add(q: Point): Point { Point(x + q.x, y + q.y) }
  }

  /** A rectangle with inclusive `min` and exclusive `max`, like image.Rectangle. */
  datatype Rect = Rect(min: Point, max: Point) {
    function Dx(): int { max.x - min.x }
    function Dy(): int { max.y - min.y }

    /** image.Rectangle.Empty */
    predicate Empty() { min.x >= max.x || min.y >= max.y }

    /** image.Point.In */
    predicate Contains(p: Point) {
      min.x <= p.x < max.x && min.y <= p.y < max.y
    }

    /** image.Rectangle.Add: translation by `p`. */
    function Add(p: Point): (r: Rect)
      ensures r.Dx() == Dx() && r.Dy() == Dy()
    {
      Rect(min.Add(p), max.Add(p))
    }

    /** image.Rectangle.In: every point of this rectangle is in `s`; an
        empty rectangle is in every rectangle. */
    predicate In(s: Rect) {
      Empty() || (s.min.x <= min.x && max.x <= s.max.x && s.min.y <= min.y && max.y <= s.max.y)
    }

    /** image.Rectangle.Union: the smallest rectangle holding both, where an
        empty operand contributes nothing. */
    function Union(s: Rect): (u: Rect)
      ensures Empty() ==> u == s
      ensures !Empty() && s.Empty() ==> u == this
    {
      if Empty() then s
      else if s.Empty() then this
      else Rect(Point(Min(min.x, s.min.x), Min(min.y, s.min.y)),
                Point(Max(max.x, s.max.x), Max(max.y, s.max.y)))
    }
  }

  /** A translated rectangle holds exactly the translated points. */
  lemma AddContains(r: Rect, p: Point, q: Point)
    ensures r.Contains(q) <==> r.Add(p).Contains(q.Add(p))
  {
  }

  /** The union holds every point of either operand. */
  lemma UnionContains(r: Rect, s: Rect, q: Point)
    requires r.Contains(q) || s.Contains(q)
    ensures r.Union(s).Contains(q)
  {
  }

  /** The union is the least rectangle holding both: any rectangle holding
      both operands holds it. */
  lemma UnionLeast(r: Rect, s: Rect, b: Rect)
    requires r.In(b) && s.In(b)
    ensures r.Union(s).In(b)
  {
  }

  function Min(a: int, b: int): int { if a <= b then a else b }
  function Max(a: int, b: int): int { if a >= b then a else b }

  /** image.Rect: builds a rectangle from two corners, swapping coordinates
      so that the result is well-formed. */
  function MakeRect(x0: int, y0: int, x1: int, y1: int): (r: Rect)
    ensures r.min.x <= r.max.x && r.min.y <= r.max.y
    ensures {r.min.x, r.max.x} == {x0, x1} && {r.min.y, r.max.y} == {y0, y1}
  {
    var (lx, hx) := if x0 > x1 then (x1, x0) else (x0, x1);
    var (ly, hy) := if y0 > y1 then (y1, y0) else (y0, y1);
    Rect(Point(lx, ly), Point(hx, hy))
  }

  predicate WellFormed(r: Rect) { r.min.x <= r.max.x && r.min.y <= r.max.y }

  /** The four 16-bit alpha-premultiplied channels that color.Color.RGBA returns. */
  datatype Color = Color(r: int, g: int, b: int, a: int)

  const Transparent: Color := Color(0, 0, 0, 0)
  const Opaque: Color := Color(0xffff, 0xffff, 0xffff, 0xffff)

  /** A colour model is only ever passed through, so it is kept as a name. */
  datatype ColorModel = ColorModel(name: string)

  /** image.Image: bounds, a colour for every point of the plane, and a model. */
  datatype Image = Image(bounds: Rect, at: (int, int) -> Color, model: ColorModel)
}
