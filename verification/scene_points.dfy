/**
 * The point adapters of `ia2/scene.py`. Each adapter is a view over mutable
 * coordinate lists whose entries may be `None`; reading through the view
 * computes a coordinate, writing through it stores whatever makes the next
 * read return the written value. Coordinates are `Option<real>`, the lists
 * `seq<Option<real>>`, and a write answers the updated lists.
 */
module ScenePoints {
  import opened Base

  /** A coordinate list such as `[10, None]`. */
  type Coords = seq<Option<real>>

  // ---------------------------------------------------------------------
  // ScaledPoint
  // ---------------------------------------------------------------------

  /** `ScaledPoint(p, origin, scalefactor, rotation)`; the rotation is never read. */
  datatype ScaledPoint = ScaledPoint(p: Coords, origin: seq<real>, scale: real)

  /** The read direction of a ScaledPoint: `(x − origin) / scalefactor`. */
  function Unscale(x: real, o: real, s: real): real
    requires s != 0.0
  {
    (x - o) / s
  }

  /** The write direction of a ScaledPoint: `value·scalefactor + origin`. */
  function Rescale(v: real, o: real, s: real): real
  {
    v * s + o
  }

  /** For a non-zero scale, reading and writing are inverse to each other. */
  lemma ScaleInverse(v: real, x: real, o: real, s: real)
    requires s != 0.0
    ensures Unscale(Rescale(v, o, s), o, s) == v
    ensures Rescale(Unscale(x, o, s), o, s) == x
  {
    calc {
      Unscale(Rescale(v, o, s), o, s);
      == ((v * s + o) - o) / s;
      == (v * s) / s;
      == v;
    }
    var q := (x - o) / s;
    assert q * s == x - o;
    calc {
      Rescale(Unscale(x, o, s), o, s);
      == q * s + o;
      == x;
    }
  }

  /**
   * `ScaledPoint[i]`: None where `p[i]` is None, otherwise
   * `(p[i] − origin[i]) / scalefactor`; a zero scale divides by zero.
   */
  function ScaledGet(sp: ScaledPoint, i: int): (r: Result<Option<real>>)
    ensures r.Ok? <==> PyGet(sp.p, i) == Ok(None) || (PyGet(sp.p, i).Ok? && PyGet(sp.origin, i).Ok? && sp.scale != 0.0)
    ensures PyGet(sp.p, i) == Ok(None) ==> r == Ok(None)
    ensures r.Ok? && r.value.Some? ==>
      PyGet(sp.p, i).Ok? && PyGet(sp.p, i).value.Some? && PyGet(sp.origin, i).Ok? &&
      Rescale(r.value.value, PyGet(sp.origin, i).value, sp.scale) == PyGet(sp.p, i).value.value
    ensures r.Err? ==> r.error == IndexError || (r.error == ZeroDivisionError && sp.scale == 0.0)
  {
    match PyGet<Option<real>>(sp.p, i)
    case Err(e) => Err(e)
    case Ok(None) => Ok(None)
    case Ok(Some(x)) =>
      match PyGet(sp.origin, i)
      case Err(e) => Err(e)
      case Ok(o) =>
        if sp.scale == 0.0 then Err(ZeroDivisionError)
        else
          ScaleInverse(0.0, x, o, sp.scale);
          Ok(Some(Unscale(x, o, sp.scale)))
  }

  /**
   * `ScaledPoint[i] = value`: stores `value·scalefactor + origin[i]` in
   * `p[i]`. A None value cannot be multiplied and raises TypeError.
   */
  function ScaledSet(sp: ScaledPoint, i: int, value: Option<real>): (r: Result<ScaledPoint>)
    ensures r.Ok? <==> value.Some? && PyIndex(|sp.origin|, i).Some? && PyIndex(|sp.p|, i).Some?
    ensures value.None? ==> r == Err(TypeError)
    ensures r.Ok? ==> r.value.origin == sp.origin && r.value.scale == sp.scale && |r.value.p| == |sp.p|
    ensures r.Ok? ==> r.value.p[PyIndex(|sp.p|, i).value] == Some(Rescale(value.value, PyGet(sp.origin, i).value, sp.scale))
    ensures r.Ok? ==> forall j :: 0 <= j < |sp.p| && j != PyIndex(|sp.p|, i).value ==> r.value.p[j] == sp.p[j]
  {
    match value
    case None => Err(TypeError)
    case Some(v) =>
      match PyGet(sp.origin, i)
      case Err(e) => Err(e)
      case Ok(o) =>
        match PySet(sp.p, i, Some(Rescale(v, o, sp.scale)))
        case Err(e) => Err(e)
        case Ok(p2) => Ok(sp.(p := p2))
  }

  /** Writing through a ScaledPoint with a non-zero scale and reading back gives the written value. */
  lemma ScaledWriteRead(sp: ScaledPoint, i: int, v: real)
    requires sp.scale != 0.0
    requires ScaledSet(sp, i, Some(v)).Ok?
    ensures ScaledGet(ScaledSet(sp, i, Some(v)).value, i) == Ok(Some(v))
  {
    ScaleInverse(v, 0.0, PyGet(sp.origin, i).value, sp.scale);
  }

  /** Reading a present coordinate and writing it back leaves the point unchanged. */
  lemma ScaledReadWrite(sp: ScaledPoint, i: int)
    requires sp.scale != 0.0
    requires ScaledGet(sp, i).Ok? && ScaledGet(sp, i).value.Some?
    ensures ScaledSet(sp, i, ScaledGet(sp, i).value) == Ok(sp)
  {
    var k := PyIndex(|sp.p|, i).value;
    assert sp.p[k := sp.p[k]] == sp.p;
  }

  // ---------------------------------------------------------------------
  // DeltaPoint (also exported as ComputedPoint)
  // ---------------------------------------------------------------------

  /** `DeltaPoint(p, offset)`: a point shown at `p + offset`. */
  datatype DeltaPoint = DeltaPoint(p: Coords, offset: Coords)

  /** `DeltaPoint[i]`: None if either `p[i]` or `offset[i]` is None, else their sum. */
  function DeltaGet(dp: DeltaPoint, i: int): (r: Result<Option<real>>)
    ensures r.Ok? <==> PyIndex(|dp.p|, i).Some? && (PyGet(dp.p, i) == Ok(None) || PyIndex(|dp.offset|, i).Some?)
    ensures r.Err? ==> r.error == IndexError
    ensures r.Ok? ==> (r.value.Some? <==> PyGet(dp.p, i).value.Some? && PyGet(dp.offset, i).Ok? && PyGet(dp.offset, i).value.Some?)
    ensures r.Ok? && r.value.Some? ==> r.value.value == PyGet(dp.p, i).value.value + PyGet(dp.offset, i).value.value
  {
    match PyGet<Option<real>>(dp.p, i)
    case Err(e) => Err(e)
    case Ok(None) => Ok(None)
    case Ok(Some(a)) =>
      match PyGet<Option<real>>(dp.offset, i)
      case Err(e) => Err(e)
      case Ok(None) => Ok(None)
      case Ok(Some(b)) => Ok(Some(a + b))
  }

  /**
   * `DeltaPoint[i] = value`: None clears `offset[i]`; otherwise `offset[i]`
   * becomes `value − p[i]`, which raises TypeError when `p[i]` is None.
   */
  function DeltaSet(dp: DeltaPoint, i: int, value: Option<real>): (r: Result<DeltaPoint>)
    ensures value.None? ==> (r.Ok? <==> PyIndex(|dp.offset|, i).Some?)
    ensures value.Some? ==> (r.Ok? <==> PyGet(dp.p, i).Ok? && PyGet(dp.p, i).value.Some? && PyIndex(|dp.offset|, i).Some?)
    ensures value.Some? && PyGet(dp.p, i) == Ok(None) ==> r == Err(TypeError)
    ensures r.Ok? ==> r.value.p == dp.p && |r.value.offset| == |dp.offset|
    ensures r.Ok? && value.None? ==> r.value.offset[PyIndex(|dp.offset|, i).value] == None
    ensures r.Ok? && value.Some? ==> r.value.offset[PyIndex(|dp.offset|, i).value] == Some(value.value - PyGet(dp.p, i).value.value)
    ensures r.Ok? ==> forall j :: 0 <= j < |dp.offset| && j != PyIndex(|dp.offset|, i).value ==> r.value.offset[j] == dp.offset[j]
  {
    match value
    case None =>
      (match PySet(dp.offset, i, None)
       case Err(e) => Err(e)
       case Ok(o) => Ok(dp.(offset := o)))
    case Some(v) =>
      match PyGet<Option<real>>(dp.p, i)
      case Err(e) => Err(e)
      case Ok(None) => Err(TypeError)
      case Ok(Some(a)) =>
        match PySet(dp.offset, i, Some(v - a))
        case Err(e) => Err(e)
        case Ok(o) => Ok(dp.(offset := o))
  }

  /** Whatever is written through a DeltaPoint is what the next read returns. */
  lemma DeltaWriteRead(dp: DeltaPoint, i: int, value: Option<real>)
    requires PyIndex(|dp.p|, i).Some?
    requires DeltaSet(dp, i, value).Ok?
    ensures DeltaGet(DeltaSet(dp, i, value).value, i) == Ok(value)
  {
  }

  // ---------------------------------------------------------------------
  // PointWrapper
  // ---------------------------------------------------------------------

  /** `PointWrapper(p)`: the wrapped point may itself be None. */
  datatype PointWrapper = PointWrapper(p: Option<Coords>)

  /** `PointWrapper[i]`: None if the point or its coordinate is None. */
  function WrapperGet(pw: PointWrapper, i: int): (r: Result<Option<real>>)
    ensures pw.p.None? ==> r == Ok(None)
    ensures pw.p.Some? ==> r == PyGet(pw.p.value, i)
  {
    match pw.p
    case None => Ok(None)
    case Some(c) => PyGet(c, i)
  }

  /**
   * `PointWrapper[i] = value`: a None value drops the whole point (every
   * coordinate then reads None); a value stored into a None point raises
   * TypeError.
   */
  function WrapperSet(pw: PointWrapper, i: int, value: Option<real>): (r: Result<PointWrapper>)
    ensures value.None? ==> r == Ok(PointWrapper(None))
    ensures value.Some? ==> (r.Ok? <==> pw.p.Some? && PyIndex(|pw.p.value|, i).Some?)
    ensures value.Some? && pw.p.None? ==> r == Err(TypeError)
    ensures value.Some? && r.Ok? ==> r.value.p.Some? && |r.value.p.value| == |pw.p.value|
    ensures value.Some? && r.Ok? ==> r.value.p.value[PyIndex(|pw.p.value|, i).value] == value
    ensures value.Some? && r.Ok? ==> forall j :: 0 <= j < |pw.p.value| && j != PyIndex(|pw.p.value|, i).value ==> r.value.p.value[j] == pw.p.value[j]
  {
    match value
    case None => Ok(PointWrapper(None))
    case Some(_) =>
      match pw.p
      case None => Err(TypeError)
      case Some(c) =>
        match PySet(c, i, value)
        case Err(e) => Err(e)
        case Ok(c2) => Ok(PointWrapper(Some(c2)))
  }

  /** Write-then-read through a PointWrapper returns the written value, None included. */
  lemma WrapperWriteRead(pw: PointWrapper, i: int, value: Option<real>)
    requires WrapperSet(pw, i, value).Ok?
    ensures WrapperGet(WrapperSet(pw, i, value).value, i) == Ok(value)
  {
  }

  /** Writing None through one index makes every index read None. */
  lemma WrapperNoneDropsPoint(pw: PointWrapper, i: int, j: int)
    ensures WrapperGet(WrapperSet(pw, i, None).value, j) == Ok(None)
  {
  }

  // ---------------------------------------------------------------------
  // TwoDMidPoint / ThreeDMidPoint
  // ---------------------------------------------------------------------

  /**
   * `TwoDMidPoint[i]` and `ThreeDMidPoint[i]` (the two classes share their
   * code): None if either end's coordinate is None, else their average.
   * `p1[i]` is not looked at when `p0[i]` is None.
   */
  function MidGet(p0: Coords, p1: Coords, i: int): (r: Result<Option<real>>)
    ensures PyIndex(|p0|, i).None? ==> r == Err(IndexError)
    ensures PyGet(p0, i) == Ok(None) ==> r == Ok(None)
    ensures PyGet(p0, i).Ok? && PyGet(p0, i).value.Some? ==>
      (PyIndex(|p1|, i).None? ==> r == Err(IndexError)) &&
      (PyGet(p1, i) == Ok(None) ==> r == Ok(None)) &&
      (PyGet(p1, i).Ok? && PyGet(p1, i).value.Some? ==> r.Ok? && r.value.Some?)
    ensures r.Ok? && r.value.Some? ==>
      PyGet(p0, i).value.Some? && PyGet(p1, i).Ok? && PyGet(p1, i).value.Some? &&
      r.value.value - PyGet(p0, i).value.value == PyGet(p1, i).value.value - r.value.value
  {
    match PyGet<Option<real>>(p0, i)
    case Err(e) => Err(e)
    case Ok(None) => Ok(None)
    case Ok(Some(a)) =>
      match PyGet<Option<real>>(p1, i)
      case Err(e) => Err(e)
      case Ok(None) => Ok(None)
      case Ok(Some(b)) => Ok(Some((a + b) / 2.0))
  }

  /** Where both coordinates are present the midpoint does not depend on the order of its ends. */
  lemma MidGetSymmetric(p0: Coords, p1: Coords, i: int)
    requires PyGet(p0, i).Ok? && PyGet(p0, i).value.Some?
    requires PyGet(p1, i).Ok? && PyGet(p1, i).value.Some?
    ensures MidGet(p0, p1, i) == MidGet(p1, p0, i)
    ensures MidGet(p0, p1, i).Ok? && MidGet(p0, p1, i).value.Some?
  {
  }

  // ---------------------------------------------------------------------
  // Value
  // ---------------------------------------------------------------------

  /** `Value(v)`: a one-slot container read with `+value` or `value[0]`. */
  datatype Value<T> = Value(value: T)

  function ValueGet<T>(v: Value<T>, key: int): (r: Result<T>)
    ensures r.Ok? <==> key == 0
    ensures r.Ok? ==> r.value == v.value
    ensures r.Err? ==> r.error == IndexError
  {
    if key == 0 then Ok(v.value) else Err(IndexError)
  }

  function ValueSet<T>(v: Value<T>, key: int, x: T): (r: Result<Value<T>>)
    ensures r.Ok? <==> key == 0
    ensures r.Err? ==> r.error == IndexError
  {
    if key == 0 then Ok(Value(x)) else Err(IndexError)
  }

  /** `len(Value(v))` is always 1. */
  function ValueLen<T>(v: Value<T>): nat
  {
    1
  }

  /** A Value reads back what was stored in slot 0, and `+value` agrees with `value[0]`. */
  lemma ValueWriteRead<T>(v: Value<T>, x: T)
    ensures ValueSet(v, 0, x).Ok?
    ensures ValueGet(ValueSet(v, 0, x).value, 0) == Ok(x)
    ensures ValueSet(v, 0, x).value.value == x
  {
  }
}
