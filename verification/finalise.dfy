/**
 * The audio finalisers of `ia2/context.py` and `ia2/audio.py`: the session
 * buffer is allocated as `int(rate * (length + 3))` zeros and, when the
 * session ends, divided by its peak absolute value. The video contexts
 * guard against a silent buffer; the `wav` context manager does not.
 */
module Finalise {
  import opened Base

  /** `np.max(np.abs(xs))`: the empty array has no maximum. */
  function Peak(xs: seq<real>): (r: Result<real>)
    ensures r.Err? <==> |xs| == 0
    ensures r.Err? ==> r.error == ValueError
    ensures r.Ok? ==> 0.0 <= r.value
    ensures r.Ok? ==> forall i :: 0 <= i < |xs| ==> Abs(xs[i]) <= r.value
    ensures r.Ok? ==> exists i :: 0 <= i < |xs| && Abs(xs[i]) == r.value
  {
    if |xs| == 0 then Err(ValueError)
    else if |xs| == 1 then Ok(Abs(xs[0]))
    else
      var m := Peak(xs[..|xs| - 1]).value;
      var last := Abs(xs[|xs| - 1]);
      assert forall i :: 0 <= i < |xs| - 1 ==> xs[i] == xs[..|xs| - 1][i];
      Ok(if last > m then last else m)
  }

  /** `y` scaled back up by `m`. */
  function Times(y: real, m: real): real
  {
    y * m
  }

  /** Every sample divided by `c`. */
  function Divide(xs: seq<real>, c: real): (r: seq<real>)
    requires c != 0.0
    ensures |r| == |xs|
    ensures forall i :: 0 <= i < |xs| ==> Times(r[i], c) == xs[i]
  {
    seq(|xs|, i requires 0 <= i < |xs| => xs[i] / c)
  }

  /**
   * The guarded normalisation of `ffmpeg_wav`, `pygame_interactive` and
   * `opengl_interactive`: divide by the peak unless the peak is 0.
   */
  function Normalise(xs: seq<real>): (r: Result<seq<real>>)
    ensures r.Err? <==> |xs| == 0
    ensures r.Err? ==> r.error == ValueError
    ensures r.Ok? ==> |r.value| == |xs|
    ensures r.Ok? && Peak(xs).value == 0.0 ==> r.value == xs
    ensures r.Ok? && Peak(xs).value != 0.0 ==>
              forall i :: 0 <= i < |xs| ==> Times(r.value[i], Peak(xs).value) == xs[i]
  {
    match Peak(xs)
    case Err(e) => Err(e)
    case Ok(m) => if m != 0.0 then Ok(Divide(xs, m)) else Ok(xs)
  }

  /** Multiplying by a positive factor keeps a strict order. */
  lemma MulStrict(a: real, b: real, m: real)
    requires 0.0 < m && a < b
    ensures Times(a, m) < Times(b, m)
  {
    var d := b - a;
    assert d * m > 0.0;
    assert b * m == a * m + d * m;
  }

  /** Scaling is odd in its first argument. */
  lemma TimesNeg(y: real, m: real)
    ensures Times(-y, m) == -Times(y, m)
  {
  }

  /** Where a positive `y` scales `m` to, against `m` itself. */
  lemma PositiveRange(y: real, m: real)
    requires 0.0 < m && 0.0 < y
    ensures 1.0 < y ==> m < Times(y, m)
    ensures y < 1.0 ==> 0.0 < Times(y, m) < m
  {
    MulStrict(0.0, y, m);
    assert Times(0.0, m) == 0.0 && Times(1.0, m) == m;
    if 1.0 < y {
      MulStrict(1.0, y, m);
    } else if y < 1.0 {
      MulStrict(y, 1.0, m);
    }
  }

  /** Where `y * m` lies for a positive `m`, by the position of `y` against -1, 0 and 1. */
  lemma ProductRange(y: real, m: real)
    requires 0.0 < m
    ensures 1.0 < y ==> m < Times(y, m)
    ensures 0.0 < y < 1.0 ==> 0.0 < Times(y, m) < m
    ensures y == 0.0 ==> Times(y, m) == 0.0
    ensures -1.0 < y < 0.0 ==> -m < Times(y, m) < 0.0
    ensures y < -1.0 ==> Times(y, m) < -m
  {
    if 0.0 < y {
      PositiveRange(y, m);
    } else if y < 0.0 {
      PositiveRange(-y, m);
      TimesNeg(y, m);
    }
  }

  /** A sample `y` whose product with the peak `m` is a sample `x` of the original buffer. */
  lemma ScaledBound(y: real, m: real, x: real)
    requires 0.0 < m && Times(y, m) == x && Abs(x) <= m
    ensures Abs(y) <= 1.0
    ensures Abs(x) == m ==> Abs(y) == 1.0
  {
    ProductRange(y, m);
  }

  /**
   * After normalising, an audible buffer peaks at exactly 1 and a silent
   * one is still silent (peak 0).
   */
  lemma {:induction false} NormalisedPeak(xs: seq<real>)
    requires |xs| > 0
    ensures Peak(Normalise(xs).value) == Ok(if Peak(xs).value == 0.0 then 0.0 else 1.0)
  {
    var m := Peak(xs).value;
    var r := Normalise(xs).value;
    if m != 0.0 {
      var i :| 0 <= i < |xs| && Abs(xs[i]) == m;
      forall j | 0 <= j < |r|
        ensures Abs(r[j]) <= 1.0
      {
        ScaledBound(r[j], m, xs[j]);
      }
      ScaledBound(r[i], m, xs[i]);
      PeakIs(r, 1.0);
    } else {
      assert r == xs;
    }
  }

  /** A value that bounds every sample and is reached by one of them is the peak. */
  lemma PeakIs(xs: seq<real>, m: real)
    requires |xs| > 0
    requires forall j :: 0 <= j < |xs| ==> Abs(xs[j]) <= m
    requires exists j :: 0 <= j < |xs| && Abs(xs[j]) == m
    ensures Peak(xs) == Ok(m)
  {
    var p := Peak(xs).value;
    var j :| 0 <= j < |xs| && Abs(xs[j]) == m;
    var k :| 0 <= k < |xs| && Abs(xs[k]) == p;
    assert Abs(xs[j]) <= p;
    assert Abs(xs[k]) <= m;
  }

  /** Normalising twice is normalising once. */
  lemma {:induction false} NormaliseIdempotent(xs: seq<real>)
    requires |xs| > 0
    ensures Normalise(Normalise(xs).value) == Normalise(xs)
  {
    var r := Normalise(xs).value;
    NormalisedPeak(xs);
    if Peak(xs).value != 0.0 {
      assert Peak(r).value == 1.0;
      var d := Divide(r, 1.0);
      assert forall i :: 0 <= i < |r| ==> d[i] == r[i];
      assert d == r;
    }
  }

  /** `np.zeros(int(rate * (length + 3)))`: a negative size raises. */
  function BufferLength(rate: int, length: real): (r: Result<nat>)
    ensures r.Ok? <==> -1.0 < rate as real * (length + 3.0)
    ensures r.Err? ==> r.error == ValueError
    ensures r.Ok? && 0.0 <= rate as real * (length + 3.0) ==>
              r.value as real <= rate as real * (length + 3.0) < r.value as real + 1.0
    ensures r.Ok? && rate as real * (length + 3.0) < 0.0 ==> r.value == 0
  {
    var n := Trunc(rate as real * (length + 3.0));
    if n < 0 then Err(ValueError) else Ok(n)
  }

  function Zeros(n: nat): (z: seq<real>)
    ensures |z| == n && forall i :: 0 <= i < n ==> z[i] == 0.0
  {
    seq(n, _ => 0.0)
  }

  /**
   * A session that mixed nothing into its buffer ends with the buffer
   * unchanged, unless the buffer is empty, where `np.max` raises.
   */
  lemma UntouchedBuffer(rate: int, length: real)
    requires BufferLength(rate, length).Ok?
    ensures var n := BufferLength(rate, length).value;
            Normalise(Zeros(n)) == if n == 0 then Err(ValueError) else Ok(Zeros(n))
  {
    var n := BufferLength(rate, length).value;
    if n > 0 {
      assert Abs(Zeros(n)[0]) == 0.0;
      PeakIs(Zeros(n), 0.0);
    }
  }

  // ---------------------------------------------------------------------
  // The unguarded normalisation of `wav`
  // ---------------------------------------------------------------------

  /** A float32 sample as numpy produces it: a number or NaN. */
  datatype Sample = Num(x: real) | NaN

  /** `data /= np.max(np.abs(data))` with no guard: 0 / 0 is NaN. */
  function WavNormaliseAsWritten(xs: seq<real>): (r: Result<seq<Sample>>)
    ensures r.Err? <==> |xs| == 0
    ensures r.Ok? ==> |r.value| == |xs|
    ensures r.Ok? && Peak(xs).value == 0.0 ==> forall i :: 0 <= i < |xs| ==> r.value[i] == NaN
  {
    match Peak(xs)
    case Err(e) => Err(e)
    case Ok(m) =>
      Ok(seq(|xs|, i requires 0 <= i < |xs| => if m == 0.0 then NaN else Num(xs[i] / m)))
  }

  /** The `wav` finaliser with the guard the other finalisers have. */
  function WavNormalise(xs: seq<real>): (r: Result<seq<Sample>>)
    ensures r.Err? <==> |xs| == 0
    ensures r.Ok? ==> |r.value| == |xs| && forall i :: 0 <= i < |xs| ==> r.value[i].Num?
    ensures r.Ok? ==> forall i :: 0 <= i < |xs| ==> r.value[i] == Num(Normalise(xs).value[i])
  {
    match Normalise(xs)
    case Err(e) => Err(e)
    case Ok(ys) => Ok(seq(|ys|, i requires 0 <= i < |ys| => Num(ys[i])))
  }

  /** A silent `wav` session writes NaN samples as written, zeros once guarded. */
  lemma SilentWavIsNaN()
    ensures WavNormaliseAsWritten([0.0, 0.0]) == Ok([NaN, NaN])
    ensures WavNormalise([0.0, 0.0]) == Ok([Num(0.0), Num(0.0)])
  {
    var z := [0.0, 0.0];
    assert Abs(z[0]) == 0.0 && Abs(z[1]) == 0.0;
    PeakIs(z, 0.0);
    assert WavNormaliseAsWritten(z).value == [NaN, NaN];
    assert Normalise(z).value == z;
    assert WavNormalise(z).value == [Num(0.0), Num(0.0)];
  }

  /** On any buffer with a non-zero peak the guard changes nothing. */
  lemma {:induction false} WavGuardOnlyMattersWhenSilent(xs: seq<real>)
    requires |xs| > 0 && Peak(xs).value != 0.0
    ensures WavNormaliseAsWritten(xs) == WavNormalise(xs)
  {
    var a, b := WavNormaliseAsWritten(xs).value, WavNormalise(xs).value;
    var m := Peak(xs).value;
    var d := Normalise(xs).value;
    assert d == Divide(xs, m);
    forall i | 0 <= i < |xs|
      ensures a[i] == b[i]
    {
      assert d[i] == xs[i] / m;
    }
    assert a == b;
  }
}
