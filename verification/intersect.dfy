/**
 * `ia2/intersect.py`: the intersection of two lines by Cramer's rule and
 * Sutherland–Hodgman clipping of a polygon against an axis-aligned
 * rectangle. Coordinates are exact reals; the circle intersections of the
 * same file need square roots and are not part of this model.
 */
module Intersect {
  import opened Base
  import opened Geometry

  /** `q` lies on the line through `a` and `b` (the cross product vanishes). */
  predicate OnLine(q: Point, a: Point, b: Point)
  {
    (q.x - a.x) * (b.y - a.y) - (q.y - a.y) * (b.x - a.x) == 0.0
  }

  /** The determinant of `line_intersect`: zero exactly for parallel or degenerate lines. */
  function Denominator(p1: Point, p2: Point, p3: Point, p4: Point): real
  {
    (p1.x - p2.x) * (p3.y - p4.y) - (p1.y - p2.y) * (p3.x - p4.x)
  }

  /**
   * `line_intersect(p1, p2, p3, p4)`: None for parallel lines, otherwise the
   * point `p1 + t·(p2 − p1)`, which lies on both lines.
   */
  function LineIntersect(p1: Point, p2: Point, p3: Point, p4: Point): (r: Option<Point>)
    ensures r.None? <==> Denominator(p1, p2, p3, p4) == 0.0
    ensures r.Some? ==> OnLine(r.value, p1, p2) && OnLine(r.value, p3, p4)
  {
    var d := Denominator(p1, p2, p3, p4);
    if d == 0.0 then None
    else
      var n := (p1.x - p3.x) * (p3.y - p4.y) - (p1.y - p3.y) * (p3.x - p4.x);
      var t := n / d;
      var q := Point(p1.x + t * (p2.x - p1.x), p1.y + t * (p2.y - p1.y));
      IntersectionOnBoth(p1, p2, p3, p4, n, d, t);
      Some(q)
  }

  lemma IntersectionOnBoth(p1: Point, p2: Point, p3: Point, p4: Point, n: real, d: real, t: real)
    requires d == Denominator(p1, p2, p3, p4) && d != 0.0
    requires n == (p1.x - p3.x) * (p3.y - p4.y) - (p1.y - p3.y) * (p3.x - p4.x)
    requires t == n / d
    ensures OnLine(Point(p1.x + t * (p2.x - p1.x), p1.y + t * (p2.y - p1.y)), p1, p2)
    ensures OnLine(Point(p1.x + t * (p2.x - p1.x), p1.y + t * (p2.y - p1.y)), p3, p4)
  {
    var ux, uy := p2.x - p1.x, p2.y - p1.y;
    var wx, wy := p4.x - p3.x, p4.y - p3.y;
    var a, b := p1.x - p3.x, p1.y - p3.y;
    assert t * d == n;
    calc {
      (t * ux) * uy - (t * uy) * ux;
      == 0.0;
    }
    calc {
      (a + t * ux) * wy - (b + t * uy) * wx;
      == (a * wy - b * wx) + t * (ux * wy - uy * wx);
      == { assert ux * wy - uy * wx == d; }
         (a * wy - b * wx) + t * d;
      == { assert a * wy - b * wx == -n; }
         -n + t * d;
      == 0.0;
    }
  }

  lemma LineIntersectExamples()
    ensures LineIntersect(Point(0.0, 0.0), Point(2.0, 2.0), Point(0.0, 2.0), Point(2.0, 0.0)) == Some(Point(1.0, 1.0))
    ensures LineIntersect(Point(0.0, 0.0), Point(1.0, 0.0), Point(0.0, 1.0), Point(1.0, 1.0)) == None
  {
    assert Denominator(Point(0.0, 0.0), Point(2.0, 2.0), Point(0.0, 2.0), Point(2.0, 0.0)) == -8.0;
  }

  /** The four edges of the clip rectangle: left, right, bottom, top. */
  datatype Side = L | R | B | T

  /** The coordinate a side constrains: x for L and R, y for B and T. */
  function Coord(p: Point, side: Side): real
  {
    if side == L || side == R then p.x else p.y
  }

  /** `_inside` on the constrained coordinate alone. */
  predicate InsideCoord(c: real, side: Side, val: real)
  {
    match side
    case L => c >= val
    case R => c <= val
    case B => c >= val
    case T => c <= val
  }

  /** `_inside(p, side, val)`. */
  predicate Inside(p: Point, side: Side, val: real)
  {
    InsideCoord(Coord(p, side), side, val)
  }

  /** The `1e-12` guard of `_intersect` against an edge parallel to the clip line. */
  const Epsilon: real := 1.0 / 1000000000000.0

  /**
   * `_intersect(p1, p2, side, val)`: the point of the edge `p1 → p2` on the
   * clip line. The constrained coordinate is exactly `val`; a near-parallel
   * edge keeps the other coordinate of `p1`.
   */
  function IntersectEdge(p1: Point, p2: Point, side: Side, val: real): (r: Point)
    ensures Coord(r, side) == val
    ensures Inside(r, side, val)
  {
    var dx, dy := p2.x - p1.x, p2.y - p1.y;
    if side == L || side == R then
      if Abs(dx) < Epsilon then Point(val, p1.y)
      else
        var t := (val - p1.x) / dx;
        Point(val, p1.y + t * dy)
    else
      if Abs(dy) < Epsilon then Point(p1.x, val)
      else
        var t := (val - p1.y) / dy;
        Point(p1.x + t * dx, val)
  }

  /** `c` lies in the closed interval spanned by `a` and `b`. */
  predicate Between(c: real, a: real, b: real)
  {
    (a <= c <= b) || (b <= c <= a)
  }

  /** The coordinate a side leaves free: y for L and R, x for B and T. */
  function Other(p: Point, side: Side): real
  {
    if side == L || side == R then p.y else p.x
  }

  /**
   * For an edge that crosses the clip line (one end inside, one outside),
   * the free coordinate of the intersection lies between the ends' ones.
   */
  lemma CrossingIsBetween(p1: Point, p2: Point, side: Side, val: real)
    requires Inside(p1, side, val) != Inside(p2, side, val)
    ensures Between(Other(IntersectEdge(p1, p2, side, val), side), Other(p1, side), Other(p2, side))
  {
    var c1, c2 := Coord(p1, side), Coord(p2, side);
    var o1, o2 := Other(p1, side), Other(p2, side);
    assert Between(val, c1, c2);
    CrossingAt(c1, c2, o1, o2, val);
    assert Other(IntersectEdge(p1, p2, side, val), side) == Crossing(c1, c2, o1, o2, val);
  }

  /** The free coordinate `IntersectEdge` computes, from the ends' coordinates. */
  function Crossing(c1: real, c2: real, o1: real, o2: real, val: real): real
  {
    if Abs(c2 - c1) < Epsilon then o1 else o1 + (val - c1) / (c2 - c1) * (o2 - o1)
  }

  lemma CrossingAt(c1: real, c2: real, o1: real, o2: real, val: real)
    requires Between(val, c1, c2)
    ensures Between(Crossing(c1, c2, o1, o2, val), o1, o2)
  {
    var dc := c2 - c1;
    if Abs(dc) >= Epsilon {
      var t := (val - c1) / dc;
      ParameterInUnit(val - c1, dc);
      InterpolationIsBetween(o1, o2, t);
      assert Crossing(c1, c2, o1, o2, val) == o1 + t * (o2 - o1);
    }
  }

  /** `n / d` is in [0, 1] when `n` lies between 0 and `d`. */
  lemma ParameterInUnit(n: real, d: real)
    requires d != 0.0
    requires Between(n, 0.0, d)
    ensures 0.0 <= n / d <= 1.0
  {
    if d > 0.0 {
      RatioBounds(n, d);
    } else {
      RatioBounds(-n, -d);
      assert (-n) / (-d) == n / d;
    }
  }

  lemma InterpolationIsBetween(a: real, b: real, t: real)
    requires 0.0 <= t <= 1.0
    ensures Between(a + t * (b - a), a, b)
  {
    if a <= b {
      NonnegProduct(t, b - a);
      NonnegProduct(1.0 - t, b - a);
      calc { b - (a + t * (b - a)); == (1.0 - t) * (b - a); >= 0.0; }
    } else {
      NonnegProduct(t, a - b);
      NonnegProduct(1.0 - t, a - b);
      calc { a - (a + t * (b - a)); == t * (a - b); >= 0.0; }
      calc { (a + t * (b - a)) - b; == (1.0 - t) * (a - b); >= 0.0; }
    }
  }

  /** The vertices one edge `prev → curr` contributes to `_clip_edge`'s output. */
  function EdgeOutput(prev: Point, curr: Point, side: Side, val: real): (out: seq<Point>)
    ensures Inside(prev, side, val) && Inside(curr, side, val) ==> out == [curr]
    ensures !Inside(prev, side, val) && Inside(curr, side, val) ==> out == [IntersectEdge(prev, curr, side, val), curr]
    ensures Inside(prev, side, val) && !Inside(curr, side, val) ==> out == [IntersectEdge(prev, curr, side, val)]
    ensures !Inside(prev, side, val) && !Inside(curr, side, val) ==> out == []
  {
    if Inside(curr, side, val) then
      if !Inside(prev, side, val) then [IntersectEdge(prev, curr, side, val), curr] else [curr]
    else if Inside(prev, side, val) then [IntersectEdge(prev, curr, side, val)]
    else []
  }

  /** `pts[i - 1]` with Python's wrap-around at `i == 0`. */
  function Prev(pts: seq<Point>, i: nat): Point
    requires i < |pts|
  {
    if i == 0 then pts[|pts| - 1] else pts[i - 1]
  }

  /** The output of `_clip_edge` for the first `k` vertices of `pts`. */
  function ClipPrefix(pts: seq<Point>, side: Side, val: real, k: nat): seq<Point>
    requires k <= |pts|
  {
    if k == 0 then [] else ClipPrefix(pts, side, val, k - 1) + EdgeOutput(Prev(pts, k - 1), pts[k - 1], side, val)
  }

  /** `_clip_edge(pts, side, val)`: one Sutherland–Hodgman stage. */
  function ClipEdge(pts: seq<Point>, side: Side, val: real): (out: seq<Point>)
    ensures pts == [] ==> out == []
  {
    ClipPrefix(pts, side, val, |pts|)
  }

  predicate AllInside(pts: seq<Point>, side: Side, val: real)
  {
    forall i :: 0 <= i < |pts| ==> Inside(pts[i], side, val)
  }

  /** A stage emits at most two vertices per input vertex, and only inside ones. */
  lemma {:induction false} ClipPrefixFacts(pts: seq<Point>, side: Side, val: real, k: nat)
    requires k <= |pts|
    ensures |ClipPrefix(pts, side, val, k)| <= 2 * k
    ensures AllInside(ClipPrefix(pts, side, val, k), side, val)
  {
    if k > 0 {
      ClipPrefixFacts(pts, side, val, k - 1);
    }
  }

  /** When every vertex is already inside, a stage returns its input unchanged. */
  lemma {:induction false} ClipPrefixAllInside(pts: seq<Point>, side: Side, val: real, k: nat)
    requires k <= |pts|
    requires AllInside(pts, side, val)
    ensures ClipPrefix(pts, side, val, k) == pts[..k]
  {
    if k > 0 {
      ClipPrefixAllInside(pts, side, val, k - 1);
      assert Inside(Prev(pts, k - 1), side, val);
      assert pts[..k] == pts[..k - 1] + [pts[k - 1]];
    }
  }

  lemma ClipEdgeFacts(pts: seq<Point>, side: Side, val: real)
    ensures |ClipEdge(pts, side, val)| <= 2 * |pts|
    ensures AllInside(ClipEdge(pts, side, val), side, val)
    ensures AllInside(pts, side, val) ==> ClipEdge(pts, side, val) == pts
  {
    ClipPrefixFacts(pts, side, val, |pts|);
    if AllInside(pts, side, val) {
      ClipPrefixAllInside(pts, side, val, |pts|);
      assert pts[..|pts|] == pts;
    }
  }

  /**
   * A constraint `(s2, v2)` that every input vertex satisfies survives a
   * stage `(side, val)`, provided a point with `Coord == val` satisfies it
   * whenever the two sides constrain the same coordinate.
   */
  predicate Compatible(side: Side, val: real, s2: Side, v2: real)
  {
    (side == L || side == R) == (s2 == L || s2 == R) ==> InsideCoord(val, s2, v2)
  }

  lemma {:induction false} ClipPrefixKeeps(pts: seq<Point>, side: Side, val: real, k: nat, s2: Side, v2: real)
    requires k <= |pts|
    requires AllInside(pts, s2, v2)
    requires Compatible(side, val, s2, v2)
    ensures AllInside(ClipPrefix(pts, side, val, k), s2, v2)
  {
    if k > 0 {
      ClipPrefixKeeps(pts, side, val, k - 1, s2, v2);
      var prev, curr := Prev(pts, k - 1), pts[k - 1];
      assert Inside(prev, s2, v2) && Inside(curr, s2, v2);
      if Inside(prev, side, val) != Inside(curr, side, val) {
        IntersectionKeeps(prev, curr, side, val, s2, v2);
      }
    }
  }

  lemma IntersectionKeeps(p1: Point, p2: Point, side: Side, val: real, s2: Side, v2: real)
    requires Inside(p1, side, val) != Inside(p2, side, val)
    requires Inside(p1, s2, v2) && Inside(p2, s2, v2)
    requires Compatible(side, val, s2, v2)
    ensures Inside(IntersectEdge(p1, p2, side, val), s2, v2)
  {
    var r := IntersectEdge(p1, p2, side, val);
    if (side == L || side == R) != (s2 == L || s2 == R) {
      CrossingIsBetween(p1, p2, side, val);
      assert Coord(r, s2) == Other(r, side);
      assert Coord(p1, s2) == Other(p1, side) && Coord(p2, s2) == Other(p2, side);
    }
  }

  lemma ClipEdgeKeeps(pts: seq<Point>, side: Side, val: real, s2: Side, v2: real)
    requires AllInside(pts, s2, v2)
    requires Compatible(side, val, s2, v2)
    ensures AllInside(ClipEdge(pts, side, val), s2, v2)
  {
    ClipPrefixKeeps(pts, side, val, |pts|, s2, v2);
  }

  /** The rectangle `[xmin, xmax] × [ymin, ymax]`, as the four constraints. */
  predicate InRect(p: Point, xmin: real, ymin: real, xmax: real, ymax: real)
  {
    Inside(p, L, xmin) && Inside(p, R, xmax) && Inside(p, B, ymin) && Inside(p, T, ymax)
  }

  /**
   * `clip_polygon(poly, xmin, ymin, xmax, ymax)`: clip against L, R, B, T in
   * that order, answering `[]` as soon as a stage leaves nothing.
   */
  function ClipPolygon(poly: seq<Point>, xmin: real, ymin: real, xmax: real, ymax: real): (r: seq<Point>)
    ensures poly == [] ==> r == []
  {
    var r1 := ClipEdge(poly, L, xmin);
    if r1 == [] then [] else
    var r2 := ClipEdge(r1, R, xmax);
    if r2 == [] then [] else
    var r3 := ClipEdge(r2, B, ymin);
    if r3 == [] then [] else
    var r4 := ClipEdge(r3, T, ymax);
    if r4 == [] then [] else r4
  }

  /**
   * Over a well-formed rectangle every output vertex lies inside it, the
   * output has at most 16 vertices per input vertex, and a polygon already
   * inside the rectangle is returned unchanged.
   */
  lemma ClipPolygonFacts(poly: seq<Point>, xmin: real, ymin: real, xmax: real, ymax: real)
    ensures |ClipPolygon(poly, xmin, ymin, xmax, ymax)| <= 16 * |poly|
    ensures xmin <= xmax && ymin <= ymax ==>
      forall i :: 0 <= i < |ClipPolygon(poly, xmin, ymin, xmax, ymax)| ==>
        InRect(ClipPolygon(poly, xmin, ymin, xmax, ymax)[i], xmin, ymin, xmax, ymax)
    ensures (forall i :: 0 <= i < |poly| ==> InRect(poly[i], xmin, ymin, xmax, ymax)) ==>
      ClipPolygon(poly, xmin, ymin, xmax, ymax) == poly
  {
    var r1 := ClipEdge(poly, L, xmin);
    var r2 := ClipEdge(r1, R, xmax);
    var r3 := ClipEdge(r2, B, ymin);
    var r4 := ClipEdge(r3, T, ymax);
    assert ClipPolygon(poly, xmin, ymin, xmax, ymax) == r4;
    assert |r4| <= 16 * |poly| by {
      ClipEdgeFacts(poly, L, xmin);
      ClipEdgeFacts(r1, R, xmax);
      ClipEdgeFacts(r2, B, ymin);
      ClipEdgeFacts(r3, T, ymax);
    }
    if xmin <= xmax && ymin <= ymax {
      assert AllInside(r4, L, xmin) && AllInside(r4, R, xmax) && AllInside(r4, B, ymin) && AllInside(r4, T, ymax) by {
        ClipEdgeFacts(poly, L, xmin);
        ClipEdgeFacts(r1, R, xmax);
        ClipEdgeFacts(r2, B, ymin);
        ClipEdgeFacts(r3, T, ymax);
        ClipEdgeKeeps(r1, R, xmax, L, xmin);
        ClipEdgeKeeps(r2, B, ymin, L, xmin);
        ClipEdgeKeeps(r2, B, ymin, R, xmax);
        ClipEdgeKeeps(r3, T, ymax, L, xmin);
        ClipEdgeKeeps(r3, T, ymax, R, xmax);
        ClipEdgeKeeps(r3, T, ymax, B, ymin);
      }
    }
    if forall i :: 0 <= i < |poly| ==> InRect(poly[i], xmin, ymin, xmax, ymax) {
      assert AllInside(poly, L, xmin) && AllInside(poly, R, xmax) && AllInside(poly, B, ymin) && AllInside(poly, T, ymax);
      ClipEdgeFacts(poly, L, xmin);
      ClipEdgeFacts(poly, R, xmax);
      ClipEdgeFacts(poly, B, ymin);
      ClipEdgeFacts(poly, T, ymax);
    }
  }

  lemma ClipPolygonExample()
    ensures ClipPolygon([Point(-1.0, 0.5), Point(2.0, 0.5)], 0.0, 0.0, 1.0, 1.0)
         == [Point(1.0, 0.5), Point(0.0, 0.5), Point(0.0, 0.5), Point(1.0, 0.5)]
  {
    var a, b, m0, m1 := Point(-1.0, 0.5), Point(2.0, 0.5), Point(0.0, 0.5), Point(1.0, 0.5);
    assert IntersectEdge(b, a, L, 0.0) == m0;
    assert IntersectEdge(a, b, L, 0.0) == m0;
    var r1 := [m0, m0, b];
    assert ClipPrefix([a, b], L, 0.0, 1) == [m0];
    assert ClipEdge([a, b], L, 0.0) == r1;
    assert IntersectEdge(b, m0, R, 1.0) == m1;
    assert IntersectEdge(m0, b, R, 1.0) == m1;
    assert ClipPrefix(r1, R, 1.0, 1) == [m1, m0];
    assert ClipPrefix(r1, R, 1.0, 2) == [m1, m0, m0];
    var r2 := [m1, m0, m0, m1];
    assert ClipEdge(r1, R, 1.0) == r2;
    assert AllInside(r2, B, 0.0) && AllInside(r2, T, 1.0);
    ClipEdgeFacts(r2, B, 0.0);
    ClipEdgeFacts(r2, T, 1.0);
    assert ClipEdge(r2, B, 0.0) == r2 && ClipEdge(r2, T, 1.0) == r2;
  }
}
