/**
 * `ia2/bezier.py`: de Casteljau evaluation of a Bezier curve and the way
 * `draw_bezier_path` turns a start point and a list of `(p1, p2, p3)`
 * control triples with missing coordinates into the cubic segments it hands
 * to cairo. The cairo calls themselves are not part of this model.
 */
module Bezier {
  import opened Base
  import opened Geometry

  /**
   * `np.linspace(0, 1, num)`: `num` evenly spaced values from 0 to 1
   * inclusive; a negative count raises ValueError.
   */
  function Linspace(num: int): (r: Result<seq<real>>)
    ensures r.Err? <==> num < 0
    ensures r.Err? ==> r.error == ValueError
    ensures r.Ok? ==> |r.value| == num
    ensures r.Ok? && num >= 1 ==> r.value[0] == 0.0
    ensures r.Ok? && num >= 2 ==> r.value[num - 1] == 1.0
    ensures r.Ok? ==> forall i :: 0 <= i < |r.value| ==> 0.0 <= r.value[i] <= 1.0
  {
    if num < 0 then Err(ValueError)
    else if num == 1 then Ok([0.0])
    else
      var s := seq(num, (i: int) requires 0 <= i < num => i as real / (num - 1) as real);
      assert forall i :: 0 <= i < num ==> 0.0 <= s[i] <= 1.0 by {
        forall i | 0 <= i < num
          ensures 0.0 <= s[i] <= 1.0
        {
          RatioBounds(i as real, (num - 1) as real);
        }
      }
      assert num >= 2 ==> s[num - 1] == 1.0 by {
        if num >= 2 {
          assert s[num - 1] == (num - 1) as real / (num - 1) as real;
          DivSelf((num - 1) as real);
        }
      }
      Ok(s)
  }

  /** `(1 − t)·p + t·q`, written as the source writes it. */
  function Mix(p: Point, q: Point, t: real): Point
  {
    Point((1.0 - t) * p.x + t * q.x, (1.0 - t) * p.y + t * q.y)
  }

  /** One round of de Casteljau: each neighbouring pair mixed at `t`. */
  function Round(pts: seq<Point>, t: real): (r: seq<Point>)
    requires |pts| >= 1
    ensures |r| == |pts| - 1
    ensures forall i :: 0 <= i < |r| ==> r[i] == Mix(pts[i], pts[i + 1], t)
  {
    seq(|pts| - 1, (i: int) requires 0 <= i < |pts| - 1 => Mix(pts[i], pts[i + 1], t))
  }

  /** The inner `de_casteljau(t, points)`: rounds until one point is left. */
  function DeCasteljau(t: real, pts: seq<Point>): Point
    requires |pts| >= 1
    decreases |pts|
  {
    if |pts| == 1 then pts[0] else DeCasteljau(t, Round(pts, t))
  }

  /** At `t = 0` the curve is at its first control point. */
  lemma {:induction false} DeCasteljauAtZero(pts: seq<Point>)
    requires |pts| >= 1
    decreases |pts|
    ensures DeCasteljau(0.0, pts) == pts[0]
  {
    if |pts| > 1 {
      var r := Round(pts, 0.0);
      assert r[0] == pts[0];
      DeCasteljauAtZero(r);
    }
  }

  /** At `t = 1` the curve is at its last control point. */
  lemma {:induction false} DeCasteljauAtOne(pts: seq<Point>)
    requires |pts| >= 1
    decreases |pts|
    ensures DeCasteljau(1.0, pts) == pts[|pts| - 1]
  {
    if |pts| > 1 {
      var r := Round(pts, 1.0);
      assert r[|r| - 1] == pts[|pts| - 1];
      DeCasteljauAtOne(r);
    }
  }

  /** The linear form `a·x + b·y` that describes a line or a half-plane. */
  function Affine(p: Point, a: real, b: real): real
  {
    a * p.x + b * p.y
  }

  /** Mixing two points mixes their affine values with the same weights. */
  lemma MixAffine(p: Point, q: Point, t: real, a: real, b: real)
    ensures Affine(Mix(p, q, t), a, b) == (1.0 - t) * Affine(p, a, b) + t * Affine(q, a, b)
  {
    calc {
      Affine(Mix(p, q, t), a, b);
      == a * ((1.0 - t) * p.x + t * q.x) + b * ((1.0 - t) * p.y + t * q.y);
      == (1.0 - t) * (a * p.x + b * p.y) + t * (a * q.x + b * q.y);
    }
  }

  /** Control points on the line `a·x + b·y = c` give a curve point on it, for every `t`. */
  lemma {:induction false} DeCasteljauOnLine(t: real, pts: seq<Point>, a: real, b: real, c: real)
    requires |pts| >= 1
    requires forall i :: 0 <= i < |pts| ==> Affine(pts[i], a, b) == c
    ensures Affine(DeCasteljau(t, pts), a, b) == c
    decreases |pts|
  {
    if |pts| > 1 {
      var r := Round(pts, t);
      forall i | 0 <= i < |r|
        ensures Affine(r[i], a, b) == c
      {
        MixAffine(pts[i], pts[i + 1], t, a, b);
        calc {
          Affine(r[i], a, b);
          == (1.0 - t) * Affine(pts[i], a, b) + t * Affine(pts[i + 1], a, b);
          == (1.0 - t) * c + t * c;
          == c;
        }
      }
      DeCasteljauOnLine(t, r, a, b, c);
    }
  }

  /**
   * Control points in the half-plane `a·x + b·y <= c` give curve points in
   * it for `t` in [0, 1] (the convex-hull property, one side at a time).
   */
  lemma {:induction false} DeCasteljauInHalfPlane(t: real, pts: seq<Point>, a: real, b: real, c: real)
    requires 0.0 <= t <= 1.0
    requires |pts| >= 1
    requires forall i :: 0 <= i < |pts| ==> Affine(pts[i], a, b) <= c
    ensures Affine(DeCasteljau(t, pts), a, b) <= c
    decreases |pts|
  {
    if |pts| > 1 {
      var r := Round(pts, t);
      forall i | 0 <= i < |r|
        ensures Affine(r[i], a, b) <= c
      {
        MixInHalfPlane(pts[i], pts[i + 1], t, a, b, c);
      }
      DeCasteljauInHalfPlane(t, r, a, b, c);
    }
  }

  lemma MixInHalfPlane(p: Point, q: Point, t: real, a: real, b: real, c: real)
    requires 0.0 <= t <= 1.0
    requires Affine(p, a, b) <= c && Affine(q, a, b) <= c
    ensures Affine(Mix(p, q, t), a, b) <= c
  {
    var u, v := Affine(p, a, b), Affine(q, a, b);
    MixAffine(p, q, t, a, b);
    NonnegProduct(1.0 - t, c - u);
    NonnegProduct(t, c - v);
    calc {
      c - Affine(Mix(p, q, t), a, b);
      == c - ((1.0 - t) * u + t * v);
      == (1.0 - t) * (c - u) + t * (c - v);
      >= 0.0;
    }
  }

  /**
   * `bezier_curve(control_points, num_points)`: the curve sampled at
   * `linspace(0, 1, num_points)`. With no control points, the first sample
   * indexes an empty list and raises IndexError.
   */
  function BezierCurve(cps: seq<Point>, num: int := 100): (r: Result<seq<Point>>)
    ensures r.Err? <==> num < 0 || (|cps| == 0 && num > 0)
    ensures r.Ok? ==> |r.value| == num
  {
    match Linspace(num)
    case Err(e) => Err(e)
    case Ok(ts) =>
      if |ts| == 0 then Ok([])
      else if |cps| == 0 then Err(IndexError)
      else Ok(seq(|ts|, (i: int) requires 0 <= i < |ts| => DeCasteljau(ts[i], cps)))
  }

  /**
   * Without `num_points` the curve has 100 points, from the first control
   * point to the last; with no control points it raises IndexError.
   */
  lemma BezierCurveDefault(cps: seq<Point>)
    ensures |cps| == 0 ==> BezierCurve(cps) == Err(IndexError)
    ensures |cps| > 0 ==> BezierCurve(cps).Ok? && |BezierCurve(cps).value| == 100 &&
                          BezierCurve(cps).value[0] == cps[0] && BezierCurve(cps).value[99] == cps[|cps| - 1]
  {
    if |cps| > 0 {
      BezierCurveEndpoints(cps, 100);
    }
  }

  /** The curve starts at the first control point and ends at the last one. */
  lemma BezierCurveEndpoints(cps: seq<Point>, num: int)
    requires |cps| >= 1 && num >= 1
    ensures BezierCurve(cps, num).Ok?
    ensures BezierCurve(cps, num).value[0] == cps[0]
    ensures num >= 2 ==> BezierCurve(cps, num).value[num - 1] == cps[|cps| - 1]
  {
    DeCasteljauAtZero(cps);
    DeCasteljauAtOne(cps);
  }

  /** Collinear control points give a curve on the same line. */
  lemma BezierCurveOnLine(cps: seq<Point>, num: int, a: real, b: real, c: real)
    requires forall i :: 0 <= i < |cps| ==> Affine(cps[i], a, b) == c
    requires BezierCurve(cps, num).Ok?
    ensures forall i :: 0 <= i < |BezierCurve(cps, num).value| ==>
      Affine(BezierCurve(cps, num).value[i], a, b) == c
  {
    var out := BezierCurve(cps, num).value;
    forall i | 0 <= i < |out|
      ensures Affine(out[i], a, b) == c
    {
      DeCasteljauOnLine(Linspace(num).value[i], cps, a, b, c);
    }
  }

  /** Every sample stays in each half-plane that holds all control points. */
  lemma BezierCurveInHalfPlane(cps: seq<Point>, num: int, a: real, b: real, c: real)
    requires forall i :: 0 <= i < |cps| ==> Affine(cps[i], a, b) <= c
    requires BezierCurve(cps, num).Ok?
    ensures forall i :: 0 <= i < |BezierCurve(cps, num).value| ==>
      Affine(BezierCurve(cps, num).value[i], a, b) <= c
  {
    var out := BezierCurve(cps, num).value;
    forall i | 0 <= i < |out|
      ensures Affine(out[i], a, b) <= c
    {
      DeCasteljauInHalfPlane(Linspace(num).value[i], cps, a, b, c);
    }
  }

  // ---------------------------------------------------------------------
  // Control-point normalisation of draw_bezier_path
  // ---------------------------------------------------------------------

  /** A control point whose coordinates may be `None`. */
  datatype CtrlPoint = CtrlPoint(x: Option<real>, y: Option<real>)

  /** One `(p1, p2, p3)` entry of `points`. */
  datatype Triple = Triple(p1: CtrlPoint, p2: CtrlPoint, p3: CtrlPoint)

  /** One `curve_to(p1, p2, p3)` call: two controls and an end point. */
  datatype Segment = Segment(c1: CtrlPoint, c2: CtrlPoint, end: CtrlPoint)

  /** A triple is drawn when its end point has an x coordinate. */
  predicate Emits(tr: Triple)
  {
    tr.p3.x.Some?
  }

  /** The path's triples that are drawn, in order. */
  function Emitting(ts: seq<Triple>): (r: seq<Triple>)
    ensures |r| <= |ts|
    ensures forall i :: 0 <= i < |r| ==> Emits(r[i])
  {
    if |ts| == 0 then []
    else (if Emits(ts[0]) then [ts[0]] else []) + Emitting(ts[1..])
  }

  /**
   * The stroke loop of `draw_bezier_path` from one iteration on: `last` is
   * the previous end point and `carried` the first control point of a
   * triple that was skipped for lack of an end point.
   */
  function Normalise(last: CtrlPoint, carried: Option<CtrlPoint>, ts: seq<Triple>): (segs: seq<Segment>)
    ensures |segs| == |Emitting(ts)|
    ensures forall i :: 0 <= i < |segs| ==> segs[i].end == Emitting(ts)[i].p3
    ensures forall i :: 0 <= i < |segs| ==> segs[i].end.x.Some? && segs[i].c2.x.Some?
    decreases |ts|
  {
    if |ts| == 0 then []
    else
      var tr := ts[0];
      var p1 := if tr.p1.x.None? then last else tr.p1;
      if tr.p3.x.None? then
        assert Emitting(ts) == Emitting(ts[1..]);
        Normalise(last, if carried.Some? then carried else Some(p1), ts[1..])
      else
        var p2 := if tr.p2.x.None? then tr.p3 else tr.p2;
        var c1 := if carried.Some? then carried.value else p1;
        var rest := Normalise(tr.p3, None, ts[1..]);
        var e := Emitting(ts[1..]);
        assert Emitting(ts) == [tr] + e;
        var segs := [Segment(c1, p2, tr.p3)] + rest;
        assert forall i :: 0 < i < |segs| ==> segs[i] == rest[i - 1] && ([tr] + e)[i] == e[i - 1];
        segs
  }

  /**
   * `draw_bezier_path(anim, p0, points, …)`: nothing is drawn when `p0` has
   * no x coordinate; otherwise the path moves to `p0` and draws the
   * normalised segments.
   */
  function BezierPath(p0: CtrlPoint, ts: seq<Triple>): (r: Option<seq<Segment>>)
    ensures r.None? <==> p0.x.None?
    ensures r.Some? ==> |r.value| == |Emitting(ts)|
  {
    if p0.x.None? then None else Some(Normalise(p0, None, ts))
  }

  /** A triple with every coordinate present. */
  predicate Complete(tr: Triple)
  {
    tr.p1.x.Some? && tr.p2.x.Some? && tr.p3.x.Some?
  }

  /** A path whose triples are all complete is drawn exactly as given. */
  lemma {:induction false} NormaliseComplete(last: CtrlPoint, ts: seq<Triple>)
    requires forall i :: 0 <= i < |ts| ==> Complete(ts[i])
    ensures Normalise(last, None, ts) == seq(|ts|, (i: int) requires 0 <= i < |ts| => Segment(ts[i].p1, ts[i].p2, ts[i].p3))
    decreases |ts|
  {
    if |ts| > 0 {
      NormaliseComplete(ts[0].p3, ts[1..]);
    }
  }

  /**
   * A run of skipped triples followed by a drawn one yields one segment:
   * its first control is the (resolved) first control of the run's first
   * triple, a missing second control falls back to the end point, and the
   * next segment continues from that end point.
   */
  lemma {:induction false} NormaliseGroup(last: CtrlPoint, skipped: seq<Triple>, tr: Triple, rest: seq<Triple>)
    requires forall i :: 0 <= i < |skipped| ==> !Emits(skipped[i])
    requires Emits(tr)
    ensures var first := if |skipped| > 0 then skipped[0] else tr;
            Normalise(last, None, skipped + [tr] + rest)
            == [Segment(if first.p1.x.None? then last else first.p1,
                        if tr.p2.x.None? then tr.p3 else tr.p2,
                        tr.p3)]
               + Normalise(tr.p3, None, rest)
  {
    if |skipped| > 0 {
      var first := skipped[0];
      var c := if first.p1.x.None? then last else first.p1;
      assert (skipped + [tr] + rest)[1..] == skipped[1..] + [tr] + rest;
      NormaliseCarried(last, c, skipped[1..], tr, rest);
    } else {
      assert skipped + [tr] + rest == [tr] + rest;
      assert ([tr] + rest)[1..] == rest;
    }
  }

  lemma {:induction false} NormaliseCarried(last: CtrlPoint, c: CtrlPoint, skipped: seq<Triple>, tr: Triple, rest: seq<Triple>)
    requires forall i :: 0 <= i < |skipped| ==> !Emits(skipped[i])
    requires Emits(tr)
    ensures Normalise(last, Some(c), skipped + [tr] + rest)
         == [Segment(c, if tr.p2.x.None? then tr.p3 else tr.p2, tr.p3)] + Normalise(tr.p3, None, rest)
  {
    if |skipped| > 0 {
      assert (skipped + [tr] + rest)[1..] == skipped[1..] + [tr] + rest;
      NormaliseCarried(last, c, skipped[1..], tr, rest);
    } else {
      assert skipped + [tr] + rest == [tr] + rest;
      assert ([tr] + rest)[1..] == rest;
    }
  }
}
