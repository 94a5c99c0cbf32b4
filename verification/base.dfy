/**
 * Shared vocabulary of the model: optional values, the Python exceptions the
 * library can raise, and the few Python built-ins whose exact arithmetic or
 * indexing behaviour the other modules rely on (`int()` on a float, float `%`,
 * negative list indices and `[start:end]` slices).
 */
module Base {

  /** Python's `None`-or-value. */
  datatype Option<+T> = None | Some(value: T)

  /** The exceptions the modelled code raises (or lets propagate). */
  datatype Error =
    | IndexError
    | KeyError
    | ValueError
    | TypeError
    | ZeroDivisionError
    | StatisticsError
    | StopAnimation     // raised by a session's own code to end a recording early
    | StopInteractive   // raised when the window is closed

  /** A computation that either returns a value or raises one of the errors above. */
  datatype Result<+T> = Ok(value: T) | Err(error: Error)

  /** Python `int(x)` on a float: truncation toward zero. */
  function Trunc(x: real): (n: int)
    ensures 0.0 <= x ==> n as real <= x < n as real + 1.0
    ensures x < 0.0 ==> x <= n as real < x + 1.0 && n <= 0
  {
    if x >= 0.0 then x.Floor else -((-x).Floor)
  }

  /** Python float `a % b`: the remainder takes the sign of the divisor. */
  function PyMod(a: real, b: real): (r: real)
    requires b != 0.0
    ensures 0.0 < b ==> 0.0 <= r < b
    ensures b < 0.0 ==> b < r <= 0.0
    ensures exists q: int {:trigger q as real} :: a == b * q as real + r
  {
    FloorRemainder(a, b);
    a - b * (a / b).Floor as real
  }

  lemma FloorRemainder(a: real, b: real)
    requires b != 0.0
    ensures var r := a - b * (a / b).Floor as real;
            (0.0 < b ==> 0.0 <= r < b) && (b < 0.0 ==> b < r <= 0.0)
  {
    var x := a / b;
    var q := x.Floor;
    var f := x - q as real;
    var r := a - b * q as real;
    assert a == b * x;
    assert b * f == b * x - b * q as real;
    assert r == b * f;
    ScaleFraction(b, f);
    if 0.0 < b {
      assert 0.0 <= r < b;
    } else {
      assert b < r <= 0.0;
    }
  }

  lemma ScaleFraction(b: real, f: real)
    requires 0.0 <= f < 1.0
    ensures 0.0 < b ==> 0.0 <= b * f < b
    ensures b < 0.0 ==> b < b * f <= 0.0
  {
    if 0.0 < b {
      assert b * f < b * 1.0;
    } else if b < 0.0 {
      assert b * 1.0 < b * f;
    }
  }

  lemma DivSelf(n: real)
    requires n != 0.0
    ensures n / n == 1.0
  {
  }

  /** The quotient of Python's `divmod(a, b)` on floats. */
  function PyFloorDiv(a: real, b: real): int
    requires b != 0.0
  {
    (a / b).Floor
  }

  lemma {:induction false} DivModConsistent(a: real, b: real)
    requires b != 0.0
    ensures a == b * PyFloorDiv(a, b) as real + PyMod(a, b)
  {
  }

  /**
   * Python list indexing `s[i]`: negative indices count from the end, and
   * anything outside `[-len, len)` raises IndexError.
   */
  function PyIndex(len: nat, i: int): (r: Option<nat>)
    ensures r.Some? <==> -(len as int) <= i < len
    ensures r.Some? ==> r.value < len && (r.value == i || r.value == i + len)
  {
    if 0 <= i < len then Some(i)
    else if -(len as int) <= i < 0 then Some(i + len)
    else None
  }

  function PyGet<T>(s: seq<T>, i: int): (r: Result<T>)
    ensures r.Ok? <==> -|s| <= i < |s|
    ensures 0 <= i < |s| ==> r == Ok(s[i])
    ensures -|s| <= i < 0 ==> r == Ok(s[i + |s|])
    ensures r.Ok? ==> r.value == s[PyIndex(|s|, i).value]
    ensures r.Err? ==> r.error == IndexError
  {
    match PyIndex(|s|, i)
    case Some(k) => Ok(s[k])
    case None => Err(IndexError)
  }

  function PySet<T>(s: seq<T>, i: int, v: T): (r: Result<seq<T>>)
    ensures r.Ok? <==> -|s| <= i < |s|
    ensures r.Ok? ==> |r.value| == |s|
    ensures 0 <= i < |s| ==> r == Ok(s[i := v])
    ensures r.Ok? ==> r.value == s[PyIndex(|s|, i).value := v]
    ensures r.Err? ==> r.error == IndexError
  {
    match PyIndex(|s|, i)
    case Some(k) => Ok(s[k := v])
    case None => Err(IndexError)
  }

  /** One bound of a Python slice, after negative wrap-around and clamping. */
  function SliceBound(len: nat, b: int): (r: nat)
    ensures r <= len
    ensures 0 <= b <= len ==> r == b
    ensures -(len as int) <= b < 0 ==> r == b + len
    ensures b < -(len as int) ==> r == 0
    ensures len < b ==> r == len
  {
    if b < 0 then (if b + len < 0 then 0 else b + len)
    else if b > len then len
    else b
  }

  /** Python `s[start:end]` (step 1); `end == None` means "to the end". */
  function PySlice<T>(s: seq<T>, start: int, end: Option<int>): (r: seq<T>)
    ensures var a := SliceBound(|s|, start);
            var b := if end.None? then |s| else SliceBound(|s|, end.value);
            r == if a <= b then s[a..b] else []
  {
    var a := SliceBound(|s|, start);
    var b := if end.None? then |s| else SliceBound(|s|, end.value);
    if a <= b then s[a..b] else []
  }

  function Min(a: int, b: int): (m: int)
    ensures m <= a && m <= b && (m == a || m == b)
  {
    if a <= b then a else b
  }

  function Max(a: int, b: int): (m: int)
    ensures a <= m && b <= m && (m == a || m == b)
  {
    if a <= b then b else a
  }

  function Abs(x: real): (r: real)
    ensures 0.0 <= r && (r == x || r == -x)
  {
    if x < 0.0 then -x else x
  }

  /** `sum(xs)` over reals. */
  function Sum(xs: seq<real>): real
  {
    if |xs| == 0 then 0.0 else Sum(xs[..|xs| - 1]) + xs[|xs| - 1]
  }

  /** `statistics.mean(xs)`: the empty sequence raises StatisticsError. */
  function Mean(xs: seq<real>): (r: Result<real>)
    ensures r.Err? <==> |xs| == 0
    ensures r.Ok? ==> r.value * |xs| as real == Sum(xs)
  {
    if |xs| == 0 then Err(StatisticsError) else Ok(Sum(xs) / |xs| as real)
  }

  lemma {:induction false} MeanOfConstant(xs: seq<real>, c: real)
    requires |xs| > 0
    requires forall i :: 0 <= i < |xs| ==> xs[i] == c
    ensures Mean(xs) == Ok(c)
  {
    SumOfConstant(xs, c);
    var n := |xs| as real;
    assert n != 0.0;
    assert Sum(xs) / n == (n * c) / n == c;
  }

  lemma {:induction false} SumOfConstant(xs: seq<real>, c: real)
    requires forall i :: 0 <= i < |xs| ==> xs[i] == c
    ensures Sum(xs) == |xs| as real * c
  {
    if |xs| > 0 {
      SumOfConstant(xs[..|xs| - 1], c);
    }
  }
}
