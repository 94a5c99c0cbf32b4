/**
 * The polynomial helpers of `ia2/math.py`: colour scaling, midpoints, squared
 * distances, slopes and the closest point of a segment. Everything here is
 * exact arithmetic over `real`; the trigonometric and square-root helpers of
 * the same file are not part of this model.
 */
module Geometry {
  import opened Base

  datatype Point = Point(x: real, y: real)

  /** A colour with channels in cairo's 0..1 range. */
  datatype Color = Color(r: real, g: real, b: real)

  function Sub(p: Point, q: Point): Point
  {
    Point(p.x - q.x, p.y - q.y)
  }

  function Dot(u: Point, v: Point): real
  {
    u.x * v.x + u.y * v.y
  }

  /** The point `a + t·(b − a)` of the line through `a` and `b`. */
  function Lerp(a: Point, b: Point, t: real): Point
  {
    Point(a.x + t * (b.x - a.x), a.y + t * (b.y - a.y))
  }

  /** `p` lies on the closed segment from `a` to `b`. */
  ghost predicate OnSegment(p: Point, a: Point, b: Point)
  {
    exists t: real {:trigger Lerp(a, b, t)} :: 0.0 <= t <= 1.0 && p == Lerp(a, b, t)
  }

  /** `rgb(r, g, b)`: 0..255 channel values scaled to 0..1. */
  function Rgb(r: real, g: real, b: real): (c: Color)
    ensures c.r * 255.0 == r && c.g * 255.0 == g && c.b * 255.0 == b
  {
    Color(r / 255.0, g / 255.0, b / 255.0)
  }

  lemma RgbExamples()
    ensures Rgb(255.0, 0.0, 0.0) == Color(1.0, 0.0, 0.0)
    ensures Rgb(0.0, 0.0, 0.0) == Color(0.0, 0.0, 0.0)
  {
  }

  /** `midpoint(p1, p2)`, computed as the source does: `x2 + (x1 − x2)/2`. */
  function Midpoint(p1: Point, p2: Point): (m: Point)
    ensures m.x == (p1.x + p2.x) / 2.0 && m.y == (p1.y + p2.y) / 2.0
  {
    Point(p2.x + (p1.x - p2.x) / 2.0, p2.y + (p1.y - p2.y) / 2.0)
  }

  /** The midpoint does not depend on argument order, is `Lerp` at one half and is equidistant. */
  lemma MidpointSymmetric(p1: Point, p2: Point)
    ensures Midpoint(p1, p2) == Midpoint(p2, p1)
    ensures Midpoint(p1, p2) == Lerp(p1, p2, 0.5)
    ensures Distance2(p1, Midpoint(p1, p2)) == Distance2(p2, Midpoint(p1, p2))
  {
    var m := Midpoint(p1, p2);
    var hx := (p2.x - p1.x) / 2.0;
    var hy := (p2.y - p1.y) / 2.0;
    assert m.x - p1.x == hx && m.x - p2.x == -hx;
    assert m.y - p1.y == hy && m.y - p2.y == -hy;
    calc {
      Distance2(p1, m);
      == hx * hx + hy * hy;
      == (-hx) * (-hx) + (-hy) * (-hy);
      == Distance2(p2, m);
    }
  }

  /** `distance2(p1, p2)`: the squared Euclidean distance. */
  function Distance2(p1: Point, p2: Point): real
  {
    (p2.x - p1.x) * (p2.x - p1.x) + (p2.y - p1.y) * (p2.y - p1.y)
  }

  /** The squared distance is non-negative, zero exactly on equal points, and symmetric. */
  lemma Distance2Facts(p1: Point, p2: Point)
    ensures 0.0 <= Distance2(p1, p2)
    ensures Distance2(p1, p2) == 0.0 <==> p1 == p2
    ensures Distance2(p1, p2) == Distance2(p2, p1)
  {
    var dx := p2.x - p1.x;
    var dy := p2.y - p1.y;
    SumOfSquares(dx, dy);
    calc { Distance2(p1, p2); == dx * dx + dy * dy; >= 0.0; }
    if p1 != p2 {
      assert dx != 0.0 || dy != 0.0;
      calc { Distance2(p1, p2); == dx * dx + dy * dy; > 0.0; }
    }
    calc {
      Distance2(p2, p1);
      == (-dx) * (-dx) + (-dy) * (-dy);
      == dx * dx + dy * dy;
      == Distance2(p1, p2);
    }
  }

  lemma SumOfSquares(a: real, b: real)
    ensures 0.0 <= a * a + b * b
    ensures a != 0.0 || b != 0.0 ==> a * a + b * b > 0.0
  {
    SquareFacts(a);
    SquareFacts(b);
  }

  lemma SquareFacts(v: real)
    ensures 0.0 <= v * v
    ensures v != 0.0 ==> v * v > 0.0
  {
    if v < 0.0 {
      assert (-v) * (-v) > 0.0;
    } else if v > 0.0 {
      assert v * v > 0.0;
    }
  }

  /** A quotient of a non-negative numerator by a larger-or-equal positive denominator. */
  lemma RatioBounds(d: real, n: real)
    requires 0.0 < n
    ensures d <= n ==> d / n <= 1.0
    ensures 0.0 <= d ==> 0.0 <= d / n
  {
    var t := d / n;
    assert t * n == d;
    if t > 1.0 {
      assert n * t > n * 1.0;
    }
    if t < 0.0 {
      assert n * t < n * 0.0;
    }
  }

  lemma NonnegProduct(a: real, b: real)
    requires 0.0 <= a && 0.0 <= b
    ensures 0.0 <= a * b
  {
  }

  lemma Distance2Example()
    ensures Distance2(Point(0.0, 0.0), Point(3.0, 4.0)) == 25.0
  {
  }

  /**
   * `slope(p1, p2)`: rise over run. A vertical pair divides by zero, which
   * Python reports as ZeroDivisionError.
   */
  function Slope(p1: Point, p2: Point): (r: Result<real>)
    ensures r.Err? <==> p1.x == p2.x
    ensures r.Err? ==> r.error == ZeroDivisionError
    ensures r.Ok? ==> p2.y == p1.y + r.value * (p2.x - p1.x)
  {
    if p2.x - p1.x == 0.0 then Err(ZeroDivisionError)
    else Ok((p2.y - p1.y) / (p2.x - p1.x))
  }

  /**
   * `closest_point_to_line(point, start, end)`: the point of the segment
   * nearest to `p`. A degenerate segment answers its start; a point beyond
   * either end answers that end; otherwise the orthogonal projection.
   */
  function ClosestPointToLine(p: Point, a: Point, b: Point): (r: Point)
    ensures OnSegment(r, a, b)
    ensures a == b ==> r == a
    ensures a != b && Dot(Sub(b, a), Sub(p, b)) > 0.0 ==> r == b
    ensures a != b && Dot(Sub(b, a), Sub(p, b)) <= 0.0 && Dot(Sub(b, a), Sub(p, a)) < 0.0 ==> r == a
  {
    if a == b then
      assert a == Lerp(a, b, 0.0);
      a
    else
      var ab := Sub(b, a);
      if Dot(ab, Sub(p, b)) > 0.0 then
        assert b == Lerp(a, b, 1.0);
        b
      else if Dot(ab, Sub(p, a)) < 0.0 then
        assert a == Lerp(a, b, 0.0);
        a
      else
        var t := ProjectionParameter(p, a, b);
        Lerp(a, b, t)
  }

  /**
   * The projection parameter of the interior case: `dot(P−A, AB) / |AB|²`.
   * When `P` lies between the two perpendiculars at the ends it is in [0, 1].
   */
  function ProjectionParameter(p: Point, a: Point, b: Point): (t: real)
    requires a != b
    requires Dot(Sub(b, a), Sub(p, b)) <= 0.0 && Dot(Sub(b, a), Sub(p, a)) >= 0.0
    ensures 0.0 <= t <= 1.0
    ensures t * Dot(Sub(b, a), Sub(b, a)) == Dot(Sub(p, a), Sub(b, a))
  {
    var ab := Sub(b, a);
    var n := Dot(ab, ab);
    assert n > 0.0 by {
      assert ab.x != 0.0 || ab.y != 0.0;
      SumOfSquares(ab.x, ab.y);
      calc { n; == ab.x * ab.x + ab.y * ab.y; > 0.0; }
    }
    var d := Dot(Sub(p, a), ab);
    assert d - n == Dot(ab, Sub(p, b));
    RatioBounds(d, n);
    d / n
  }

  /**
   * Moving from `base` along `w` by `c` cannot bring a point nearer to `p`
   * when `c·dot(base − p, w) >= 0`.
   */
  lemma MoveAway(p: Point, base: Point, w: Point, c: real)
    requires 0.0 <= c * Dot(Sub(base, p), w)
    ensures Distance2(p, base) <= Distance2(p, Point(base.x + c * w.x, base.y + c * w.y))
  {
    var ux := base.x - p.x;
    var uy := base.y - p.y;
    OffsetIsFarther(ux, uy, w.x, w.y, c);
    calc {
      Distance2(p, Point(base.x + c * w.x, base.y + c * w.y));
      == (ux + c * w.x) * (ux + c * w.x) + (uy + c * w.y) * (uy + c * w.y);
      >= ux * ux + uy * uy;
      == Distance2(p, base);
    }
  }

  lemma OffsetIsFarther(ux: real, uy: real, wx: real, wy: real, c: real)
    requires 0.0 <= c * (ux * wx + uy * wy)
    ensures ux * ux + uy * uy <= (ux + c * wx) * (ux + c * wx) + (uy + c * wy) * (uy + c * wy)
  {
    SquareFacts(c);
    SumOfSquares(wx, wy);
    NonnegProduct(c * c, wx * wx + wy * wy);
    calc {
      (ux + c * wx) * (ux + c * wx) + (uy + c * wy) * (uy + c * wy);
      == ux * ux + uy * uy + 2.0 * (c * (ux * wx + uy * wy)) + (c * c) * (wx * wx + wy * wy);
      >= ux * ux + uy * uy;
    }
  }

  /**
   * The answer of ClosestPointToLine is at least as near to `p` as every
   * other point of the segment.
   */
  lemma ClosestPointIsNearest(p: Point, a: Point, b: Point, s: real)
    requires 0.0 <= s <= 1.0
    ensures Distance2(p, ClosestPointToLine(p, a, b)) <= Distance2(p, Lerp(a, b, s))
  {
    var w := Sub(b, a);
    if a == b {
      assert Lerp(a, b, s) == a;
    } else if Dot(w, Sub(p, b)) > 0.0 {
      NearestBeyondEnd(p, a, b, s);
    } else if Dot(w, Sub(p, a)) < 0.0 {
      NearestBeforeStart(p, a, b, s);
    } else {
      NearestInterior(p, a, b, s);
    }
  }

  /** Beyond the end: `q = b + (s − 1)·w` and `dot(b − p, w) < 0`. */
  lemma NearestBeyondEnd(p: Point, a: Point, b: Point, s: real)
    requires 0.0 <= s <= 1.0
    requires Dot(Sub(b, a), Sub(p, b)) > 0.0
    ensures Distance2(p, b) <= Distance2(p, Lerp(a, b, s))
  {
    var w := Sub(b, a);
    var c := s - 1.0;
    assert Lerp(a, b, s) == Point(b.x + c * w.x, b.y + c * w.y);
    NonnegProduct(1.0 - s, Dot(w, Sub(p, b)));
    assert c * Dot(Sub(b, p), w) == (1.0 - s) * Dot(w, Sub(p, b));
    MoveAway(p, b, w, c);
  }

  /** Before the start: `q = a + s·w` and `dot(a − p, w) > 0`. */
  lemma NearestBeforeStart(p: Point, a: Point, b: Point, s: real)
    requires 0.0 <= s <= 1.0
    requires Dot(Sub(b, a), Sub(p, a)) < 0.0
    ensures Distance2(p, a) <= Distance2(p, Lerp(a, b, s))
  {
    var w := Sub(b, a);
    assert Lerp(a, b, s) == Point(a.x + s * w.x, a.y + s * w.y);
    NonnegProduct(s, -Dot(w, Sub(p, a)));
    assert s * Dot(Sub(a, p), w) == s * (-Dot(w, Sub(p, a)));
    MoveAway(p, a, w, s);
  }

  /** Interior: `q = r + (s − t)·w` and `r − p` is orthogonal to `w`. */
  lemma NearestInterior(p: Point, a: Point, b: Point, s: real)
    requires 0.0 <= s <= 1.0
    requires a != b
    requires Dot(Sub(b, a), Sub(p, b)) <= 0.0 && Dot(Sub(b, a), Sub(p, a)) >= 0.0
    ensures Distance2(p, Lerp(a, b, ProjectionParameter(p, a, b))) <= Distance2(p, Lerp(a, b, s))
  {
    var w := Sub(b, a);
    var t := ProjectionParameter(p, a, b);
    var r := Lerp(a, b, t);
    var c := s - t;
    assert Dot(Sub(r, p), w) == t * Dot(w, w) - Dot(Sub(p, a), w);
    assert Lerp(a, b, s) == Point(r.x + c * w.x, r.y + c * w.y);
    MoveAway(p, r, w, c);
  }
}
