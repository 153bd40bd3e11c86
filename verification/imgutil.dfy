/** The two image.Image wrappers of the label pipeline: integer up-scaling
    and a 90-degree left rotation. Both only remap coordinates; colours and the
    colour model come from the wrapped image. */
module ImgUtil {
  import opened Imaging

  function Abs(x: int): nat
  {
    if x < 0 then -x else x
  }

  /** Go's integer division, which truncates toward zero: the quotient of the
      magnitudes, negated when exactly one operand is negative. */
  function GoDiv(a: int, b: int): (q: int)
    requires b != 0
    ensures Abs(q) == Abs(a) / Abs(b)
    ensures (a < 0) == (b < 0) ==> q >= 0
    ensures (a < 0) != (b < 0) ==> q <= 0
  {
    if a >= 0 then
      if b > 0 then QuotNat(a, b); a / b
      else QuotNat(a, -b); -(a / -b)
    else
      if b > 0 then QuotNat(-a, b); -((-a) / b)
      else QuotNat(-a, -b); (-a) / (-b)
  }

  /** The quotient of the magnitudes, as a magnitude. */
  lemma QuotNat(x: int, y: int)
    requires x >= 0 && y > 0
    ensures x / y >= 0 && Abs(x / y) == Abs(-(x / y)) == x / y
    ensures Abs(x) == Abs(-x) == x && Abs(y) == Abs(-y) == y
  {
    var q := x / y;
    assert x == q * y + x % y && x % y < y;
    if q < 0 {
      MulMono(-1, q, y);
      assert false;
    }
  }

  /** Truncation toward zero: q * b lies on the same side of zero as `a`, no
      further from zero than `a`, and less than one |b| short of it. */
  lemma GoDivTruncates(a: int, b: int)
    requires b != 0
    ensures var q := GoDiv(a, b);
      && Abs(q * b) <= Abs(a) < Abs(q * b) + Abs(b)
      && (q * b == 0 || (q * b < 0) == (a < 0))
  {
    var q, m, n := GoDiv(a, b), Abs(a), Abs(b);
    assert m == (m / n) * n + m % n;
    assert Abs(q * b) == Abs(q) * n by {
      if q < 0 {
        if b < 0 { assert q * b == (-q) * (-b); } else { assert -(q * b) == (-q) * b; }
      } else {
        if b < 0 { assert -(q * b) == q * (-b); }
      }
    }
  }

  lemma MulMono(a: int, b: int, s: int)
    requires s >= 1 && a >= b
    ensures a * s >= b * s
  {
    assert a * s - b * s == (a - b) * s;
  }

  /** Euclidean division by a positive divisor is determined by quotient and remainder. */
  lemma DivUnique(x: int, s: int, q: int, r: int)
    requires s >= 1 && 0 <= r < s && x == q * s + r
    ensures x / s == q
  {
    var d := q - x / s;
    assert d * s == x % s - r by {
      assert x == (x / s) * s + x % s;
      assert q * s - (x / s) * s == d * s;
    }
    if d > 0 {
      MulMono(d, 1, s);
      assert false;
    } else if d < 0 {
      MulMono(-1, d, s);
      assert false;
    }
  }

  /** Source coordinate read for one destination axis of Scale.At:
      negative coordinates are first shifted by scale-1. */
  function ScaleAxis(v: int, scale: int): int
    requires scale != 0
  {
    GoDiv(if v < 0 then v - scale + 1 else v, scale)
  }

  /** The shift turns Go's truncating division into floor division, so for a
      positive scale every destination coordinate reads floor(v / scale). */
  lemma {:induction false} ScaleAxisIsFloor(v: int, scale: int)
    requires scale >= 1
    ensures ScaleAxis(v, scale) == v / scale
  {
    if v < 0 {
      var n := scale - 1 - v;
      var q, r := n / scale, n % scale;
      assert n == q * scale + r;
      assert v == (-q) * scale + (scale - 1 - r);
      DivUnique(v, scale, -q, scale - 1 - r);
    }
  }

  /** Scale.Bounds: every coordinate multiplied by the scale. */
  function ScaleBounds(r: Rect, scale: int): Rect
  {
    MakeRect(r.min.x * scale, r.min.y * scale, r.max.x * scale, r.max.y * scale)
  }

  /** Scale.At */
  function ScaleAt(src: Image, scale: int, x: int, y: int): Color
    requires scale != 0
  {
    src.at(ScaleAxis(x, scale), ScaleAxis(y, scale))
  }

  lemma FloorBounds(v: int, lo: int, hi: int, s: int)
    requires s >= 1 && lo * s <= v < hi * s
    ensures lo <= v / s < hi
  {
    var q, r := v / s, v % s;
    assert v == q * s + r;
    if q < lo {
      assert (lo - 1) * s == lo * s - s;
      MulMono(lo - 1, q, s);
      assert false;
    }
    if q >= hi {
      MulMono(q, hi, s);
      assert false;
    }
  }

  /** One axis of ScaleCoversSource. */
  lemma AxisCover(lo: int, hi: int, u: int, s: int)
    requires s >= 1 && lo <= u < hi
    ensures lo * s <= u * s < hi * s
    ensures ScaleAxis(u * s, s) == u
  {
    MulMono(u, lo, s);
    MulMono(hi, u + 1, s);
    assert (u + 1) * s == u * s + s;
    ScaleAxisIsFloor(u * s, s);
    DivUnique(u * s, s, u, 0);
  }

  /** For a positive scale the scaled bounds are exactly the multiplied
      corners, and every point inside them reads a point inside the source. */
  lemma {:induction false} ScaleInBounds(r: Rect, scale: int, p: Point)
    requires scale >= 1 && WellFormed(r)
    requires ScaleBounds(r, scale).Contains(p)
    ensures ScaleBounds(r, scale).min == Point(r.min.x * scale, r.min.y * scale)
    ensures ScaleBounds(r, scale).max == Point(r.max.x * scale, r.max.y * scale)
    ensures r.Contains(Point(ScaleAxis(p.x, scale), ScaleAxis(p.y, scale)))
  {
    MulMono(r.max.x, r.min.x, scale);
    MulMono(r.max.y, r.min.y, scale);
    ScaleAxisIsFloor(p.x, scale);
    ScaleAxisIsFloor(p.y, scale);
    FloorBounds(p.x, r.min.x, r.max.x, scale);
    FloorBounds(p.y, r.min.y, r.max.y, scale);
  }

  /** Conversely, every source pixel is shown: (u, v) is read at (u*scale, v*scale). */
  lemma {:induction false} ScaleCoversSource(r: Rect, scale: int, q: Point)
    requires scale >= 1 && WellFormed(r) && r.Contains(q)
    ensures ScaleBounds(r, scale).Contains(Point(q.x * scale, q.y * scale))
    ensures ScaleAxis(q.x * scale, scale) == q.x && ScaleAxis(q.y * scale, scale) == q.y
  {
    MulMono(r.max.x, r.min.x, scale);
    MulMono(r.max.y, r.min.y, scale);
    AxisCover(r.min.x, r.max.x, q.x, scale);
    AxisCover(r.min.y, r.max.y, q.y, scale);
  }

  /** The Scale wrapper as an image: same colour model, scaled bounds, and for
      a positive scale each pixel is the floor-divided source pixel. */
  function Scaled(src: Image, scale: int): (img: Image)
    requires scale != 0
    ensures img.model == src.model
    ensures img.bounds == ScaleBounds(src.bounds, scale)
    ensures scale >= 1 ==> forall x: int, y: int :: img.at(x, y) == src.at(x / scale, y / scale)
  {
    var img := Image(ScaleBounds(src.bounds, scale), (x: int, y: int) => ScaleAt(src, scale, x, y), src.model);
    if scale >= 1 then
      assert forall x: int, y: int :: img.at(x, y) == src.at(x / scale, y / scale) by {
        forall x: int, y: int ensures img.at(x, y) == src.at(x / scale, y / scale) {
          ScaleAxisIsFloor(x, scale);
          ScaleAxisIsFloor(y, scale);
        }
      }
      img
    else img
  }

  /** LeftRotate.Bounds */
  function RotateBounds(r: Rect): Rect
  {
    MakeRect(r.min.y, -(r.max.x - 1), r.max.y, -(r.min.x - 1))
  }

  /** LeftRotate.At: the point (x, y) shows source pixel (-y, x). */
  function RotateSource(p: Point): Point
  {
    Point(-p.y, p.x)
  }

  /** The rotated bounds swap width and height, and RotateSource is a bijection
      from the rotated bounds onto the source bounds. */
  lemma {:induction false} RotateInBounds(r: Rect)
    requires WellFormed(r)
    ensures RotateBounds(r).Dx() == r.Dy() && RotateBounds(r).Dy() == r.Dx()
    ensures forall p :: RotateBounds(r).Contains(p) ==> r.Contains(RotateSource(p))
    ensures forall q :: r.Contains(q) ==>
      RotateBounds(r).Contains(Point(q.y, -q.x)) && RotateSource(Point(q.y, -q.x)) == q
  {
    assert RotateBounds(r) == Rect(Point(r.min.y, -(r.max.x - 1)), Point(r.max.y, -(r.min.x - 1)));
  }

  /** The LeftRotate wrapper as an image. */
  function Rotated(src: Image): (img: Image)
    ensures img.model == src.model
    ensures img.bounds == RotateBounds(src.bounds)
    ensures forall x: int, y: int :: img.at(x, y) == src.at(-y, x)
  {
    var img := Image(RotateBounds(src.bounds),
                     (x: int, y: int) => var q := RotateSource(Point(x, y)); src.at(q.x, q.y),
                     src.model);
    assert forall x: int, y: int :: img.at(x, y) == src.at(-y, x) by {
      forall x: int, y: int ensures img.at(x, y) == src.at(-y, x) {
        assert RotateSource(Point(x, y)) == Point(-y, x);
      }
    }
    img
  }
}
