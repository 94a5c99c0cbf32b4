/**
 * The typed records of `ia2/types.py`: the session contexts (only the fields
 * the frame loop and the audio code read), note durations derived from the
 * tempo, `Element` and `MemoryRange` with their index-or-IndexError
 * accessors, and the `MemoryMap` layout of named, contiguous ranges.
 */
module Records {
  import opened Base

  // ---------------------------------------------------------------------
  // Sessions
  // ---------------------------------------------------------------------

  /** The session classes; `save_frame`, `wait` and the renderers dispatch on them. */
  datatype Kind =
    | Animation
    | Image
    | Sequence
    | AnimationSequence
    | Interactive
    | InteractiveAnimation
    | OpenGLInteractive
    | OpenGLInteractiveAnimation

  /** The classes that declare a `current_frame` slot. */
  predicate HasCurrentFrame(k: Kind)
  {
    k in {Sequence, AnimationSequence, InteractiveAnimation, OpenGLInteractiveAnimation}
  }

  /** A pygame event type; only QUIT matters to the model. */
  datatype EventType = Quit | OtherEvent(code: int)

  /**
   * The state of a session that the modelled code reads or writes:
   * its class, frame rate, `current_frame` (absent on classes without the
   * slot) and the accumulated event list of the pygame sessions.
   */
  datatype Session = Session(kind: Kind, fps: int, currentFrame: Option<int>, events: seq<EventType>)

  predicate WellFormed(s: Session)
  {
    s.currentFrame.Some? <==> HasCurrentFrame(s.kind)
  }

  /** `Image(ctx, surface, width, height)`: a still image always runs at one frame per second. */
  function NewImage(): (s: Session)
    ensures WellFormed(s) && s.kind == Image
    ensures s.fps == 1
  {
    Session(Image, 1, None, [])
  }

  /**
   * Any other session class, constructed with frame rate `fps`, initial
   * `current_frame` (only kept where the class has the slot; the classes
   * without a constructor argument start at 0) and initial events.
   */
  function NewSession(kind: Kind, fps: int, currentFrame: int, events: seq<EventType>): (s: Session)
    requires kind != Image
    ensures WellFormed(s) && s.kind == kind && s.fps == fps && s.events == events
    ensures kind in {Sequence, AnimationSequence} ==> s.currentFrame == Some(0)
    ensures kind in {InteractiveAnimation, OpenGLInteractiveAnimation} ==> s.currentFrame == Some(currentFrame)
  {
    var cf := if kind in {Sequence, AnimationSequence} then Some(0)
              else if HasCurrentFrame(kind) then Some(currentFrame)
              else None;
    Session(kind, fps, cf, events)
  }

  // ---------------------------------------------------------------------
  // Note durations
  // ---------------------------------------------------------------------

  /** The note lengths of the sequence classes, in seconds. */
  datatype NoteLengths = NoteLengths(whole: real, half: real, quarter: real, eighth: real, sixteenth: real)

  /** `beat`: `60 / tempo` seconds; a zero tempo raises ZeroDivisionError. */
  function Beat(tempo: int): (r: Result<real>)
    ensures r.Err? <==> tempo == 0
    ensures r.Err? ==> r.error == ZeroDivisionError
    ensures r.Ok? ==> r.value * tempo as real == 60.0
  {
    if tempo == 0 then Err(ZeroDivisionError) else Ok(60.0 / tempo as real)
  }

  /** `whole`, `half`, `quarter`, `eighth`, `sixteenth`, all derived from `beat`. */
  function Durations(tempo: int): (r: Result<NoteLengths>)
    ensures r.Err? <==> tempo == 0
    ensures r.Ok? ==> var d, t := r.value, tempo as real;
      d.whole * t == 240.0 && d.half * t == 120.0 && d.quarter * t == 60.0 &&
      d.eighth * t == 30.0 && d.sixteenth * t == 15.0
    ensures r.Ok? ==> Beat(tempo) == Ok(r.value.quarter)
  {
    match Beat(tempo)
    case Err(e) => Err(e)
    case Ok(b) =>
      var t := tempo as real;
      calc { (b * 4.0) * t; == (b * t) * 4.0; == 240.0; }
      calc { (b * 2.0) * t; == (b * t) * 2.0; == 120.0; }
      calc { (b / 2.0) * t; == (b * t) / 2.0; == 30.0; }
      calc { (b / 4.0) * t; == (b * t) / 4.0; == 15.0; }
      Ok(NoteLengths(b * 4.0, b * 2.0, b, b / 2.0, b / 4.0))
  }

  /** The lengths are in the ratios 16 : 8 : 4 : 2 : 1. */
  lemma DurationRatios(tempo: int)
    requires tempo != 0
    ensures var d := Durations(tempo).value;
      d.whole == 16.0 * d.sixteenth && d.half == 8.0 * d.sixteenth &&
      d.quarter == 4.0 * d.sixteenth && d.eighth == 2.0 * d.sixteenth
  {
    var d := Durations(tempo).value;
    var t := tempo as real;
    assert d.whole * t == 16.0 * (d.sixteenth * t);
    assert d.half * t == 8.0 * (d.sixteenth * t);
    assert d.quarter * t == 4.0 * (d.sixteenth * t);
    assert d.eighth * t == 2.0 * (d.sixteenth * t);
    CancelFactor(d.whole, 16.0 * d.sixteenth, t);
    CancelFactor(d.half, 8.0 * d.sixteenth, t);
    CancelFactor(d.quarter, 4.0 * d.sixteenth, t);
    CancelFactor(d.eighth, 2.0 * d.sixteenth, t);
  }

  lemma CancelFactor(a: real, b: real, t: real)
    requires t != 0.0 && a * t == b * t
    ensures a == b
  {
    assert (a - b) * t == 0.0;
  }

  lemma DurationsAt120()
    ensures Durations(120) == Ok(NoteLengths(2.0, 1.0, 0.5, 0.25, 0.125))
  {
  }

  // ---------------------------------------------------------------------
  // Element and MemoryRange
  // ---------------------------------------------------------------------

  type Point2 = (real, real)
  type Point3 = (real, real, real)

  /**
   * An animation element. `G` is the generator that animates it; the
   * configuration and command fields hold arbitrary Python objects and are
   * not modelled.
   */
  datatype Element<G> = Element(
    name: string,
    generator: G,
    visible: bool,
    point: Option<Point2>,
    points: seq<Point2>,
    scalefactor: Option<real>,
    rotation: Option<real>,
    controlPoints: seq<Point2>,
    selected: bool,
    points3d: Option<seq<Point3>>)

  /** The constructor: absent `points` and `control_points` become empty lists. */
  function NewElement<G>(name: string, generator: G, visible: bool, point: Option<Point2>,
                         points: Option<seq<Point2>>, scalefactor: Option<real>, rotation: Option<real>,
                         controlPoints: Option<seq<Point2>>, selected: bool,
                         points3d: Option<seq<Point3>>): (e: Element<G>)
    ensures points.None? ==> e.points == []
    ensures points.Some? ==> e.points == points.value
    ensures controlPoints.None? ==> e.controlPoints == []
    ensures controlPoints.Some? ==> e.controlPoints == controlPoints.value
    ensures e.name == name && e.generator == generator && e.visible == visible && e.points3d == points3d
  {
    Element(name, generator, visible, point,
            if points.None? then [] else points.value,
            scalefactor, rotation,
            if controlPoints.None? then [] else controlPoints.value,
            selected, points3d)
  }

  /** `Element(name, gen)` with every keyword left at its default. */
  function DefaultElement<G>(name: string, generator: G): (e: Element<G>)
    ensures e.visible && !e.selected && e.points == [] && e.controlPoints == []
    ensures e.point.None? && e.points3d.None? && e.scalefactor.None? && e.rotation.None?
  {
    NewElement(name, generator, true, None, None, None, None, None, false, None)
  }

  /** What `element[k]` can return. */
  datatype ElementField<G> = NameField(name: string) | GeneratorField(generator: G) | VisibleField(visible: bool)

  /** `element[key]`: name, generator, visible for 0, 1, 2; anything else raises IndexError. */
  function ElementGet<G>(e: Element<G>, key: int): (r: Result<ElementField<G>>)
    ensures r.Ok? <==> 0 <= key <= 2
    ensures r.Err? ==> r.error == IndexError
  {
    if key == 0 then Ok(NameField(e.name))
    else if key == 1 then Ok(GeneratorField(e.generator))
    else if key == 2 then Ok(VisibleField(e.visible))
    else Err(IndexError)
  }

  /** `iter(element)`: the same triple, in index order. */
  function ElementIter<G>(e: Element<G>): (r: seq<ElementField<G>>)
    ensures |r| == 3
    ensures forall k :: 0 <= k < 3 ==> ElementGet(e, k) == Ok(r[k])
  {
    [NameField(e.name), GeneratorField(e.generator), VisibleField(e.visible)]
  }

  /** `name, generator, visible = element` recovers the three fields. */
  lemma ElementUnpack<G>(e: Element<G>)
    ensures ElementIter(e)[0].NameField? && ElementIter(e)[0].name == e.name
    ensures ElementIter(e)[1].GeneratorField? && ElementIter(e)[1].generator == e.generator
    ensures ElementIter(e)[2].VisibleField? && ElementIter(e)[2].visible == e.visible
  {
  }

  /** A named run of `n` items of `size` units each. */
  datatype MemoryRange = MemoryRange(name: string, size: int, n: int)

  datatype RangeField = NameOf(name: string) | CountOf(count: int)

  /** `memory_range[i]`: name, size, n for 0, 1, 2; anything else raises IndexError. */
  function RangeGet(m: MemoryRange, i: int): (r: Result<RangeField>)
    ensures r.Ok? <==> 0 <= i <= 2
    ensures r.Err? ==> r.error == IndexError
    ensures i == 0 ==> r == Ok(NameOf(m.name))
    ensures i == 1 ==> r == Ok(CountOf(m.size))
    ensures i == 2 ==> r == Ok(CountOf(m.n))
  {
    if i == 0 then Ok(NameOf(m.name))
    else if i == 1 then Ok(CountOf(m.size))
    else if i == 2 then Ok(CountOf(m.n))
    else Err(IndexError)
  }

  /** The three indexed fields determine the range: indexing loses nothing. */
  lemma RangeGetDetermines(m: MemoryRange, m': MemoryRange)
    requires forall i :: 0 <= i <= 2 ==> RangeGet(m, i) == RangeGet(m', i)
    ensures m == m'
  {
    assert RangeGet(m, 0) == RangeGet(m', 0);
    assert RangeGet(m, 1) == RangeGet(m', 1);
    assert RangeGet(m, 2) == RangeGet(m', 2);
  }

  /** Likewise the indexed fields of an element determine its (name, generator, visible). */
  lemma ElementGetDetermines<G>(e: Element<G>, e': Element<G>)
    requires forall k :: 0 <= k <= 2 ==> ElementGet(e, k) == ElementGet(e', k)
    ensures e.name == e'.name && e.generator == e'.generator && e.visible == e'.visible
  {
    assert ElementGet(e, 0) == ElementGet(e', 0);
    assert ElementGet(e, 1) == ElementGet(e', 1);
    assert ElementGet(e, 2) == ElementGet(e', 2);
  }

  // ---------------------------------------------------------------------
  // MemoryMap
  // ---------------------------------------------------------------------

  /** One entry of `indexes`: `[start, size, n]`. */
  datatype Layout = Layout(start: int, size: int, n: int)

  datatype MemoryMap = MemoryMap(ranges: seq<MemoryRange>, indexes: map<string, Layout>, length: int)

  /** The units a range occupies. */
  function Extent(m: MemoryRange): int
  {
    m.size * m.n
  }

  /** The units all the ranges occupy together. */
  function TotalExtent(rs: seq<MemoryRange>): int
  {
    if |rs| == 0 then 0 else TotalExtent(rs[..|rs| - 1]) + Extent(rs[|rs| - 1])
  }

  /** No later range reuses the name of range `i`. */
  ghost predicate LastWithName(rs: seq<MemoryRange>, i: int)
    requires 0 <= i < |rs|
  {
    forall j :: i < j < |rs| ==> rs[j].name != rs[i].name
  }

  /**
   * The `indexes` the constructor builds, walking the ranges in order with a
   * running offset; a repeated name keeps the layout of its last range.
   */
  function Indexes(rs: seq<MemoryRange>): (idx: map<string, Layout>)
  {
    if |rs| == 0 then map[]
    else
      var p, last := rs[..|rs| - 1], rs[|rs| - 1];
      Indexes(p)[last.name := Layout(TotalExtent(p), last.size, last.n)]
  }

  /** Exactly the names of the ranges are indexed. */
  lemma {:induction false} IndexesKeys(rs: seq<MemoryRange>, name: string)
    ensures name in Indexes(rs) <==> exists i :: 0 <= i < |rs| && rs[i].name == name
  {
    if |rs| > 0 {
      var p, last := rs[..|rs| - 1], rs[|rs| - 1];
      IndexesKeys(p, name);
      if name != last.name {
        assert forall i :: 0 <= i < |p| ==> p[i] == rs[i];
        if exists i :: 0 <= i < |rs| && rs[i].name == name {
          var i :| 0 <= i < |rs| && rs[i].name == name;
          assert p[i].name == name;
        }
      } else {
        assert rs[|rs| - 1].name == name;
      }
    }
  }

  /** The range that holds a name last sets its layout: its prefix-sum offset, size and count. */
  lemma {:induction false} IndexesLayout(rs: seq<MemoryRange>, i: int)
    requires 0 <= i < |rs| && LastWithName(rs, i)
    ensures rs[i].name in Indexes(rs)
    ensures Indexes(rs)[rs[i].name] == Layout(TotalExtent(rs[..i]), rs[i].size, rs[i].n)
  {
    var p := rs[..|rs| - 1];
    if i < |p| {
      assert LastWithName(p, i) by {
        forall j | i < j < |p|
          ensures p[j].name != p[i].name
        {
          assert p[j] == rs[j] && p[i] == rs[i];
        }
      }
      IndexesLayout(p, i);
      assert p[..i] == rs[..i];
      assert p[i] == rs[i];
    }
  }

  /** `MemoryMap(ranges)`; the default `None` is the empty list. */
  function NewMemoryMap(ranges: Option<seq<MemoryRange>>): (m: MemoryMap)
    ensures ranges.None? ==> m.ranges == [] && m.length == 0
    ensures ranges.Some? ==> m.ranges == ranges.value
    ensures m.indexes == Indexes(m.ranges)
    ensures m.length == TotalExtent(m.ranges)
    ensures |m.ranges| > 0 ==> var last := m.ranges[|m.ranges| - 1];
      m.indexes[last.name].start + Extent(last) == m.length
  {
    var rs := if ranges.None? then [] else ranges.value;
    if |rs| > 0 then
      IndexesLayout(rs, |rs| - 1);
      assert rs[..|rs| - 1] == rs[..|rs| - 1];
      MemoryMap(rs, Indexes(rs), TotalExtent(rs))
    else
      MemoryMap(rs, Indexes(rs), TotalExtent(rs))
  }

  /**
   * `len(memory_map)`: `__len__` returns `self.length`, and Python's `len`
   * raises ValueError when that is negative (a range with a negative size or
   * count can make it so).
   */
  function Length(m: MemoryMap): (r: Result<nat>)
    ensures r.Ok? <==> 0 <= m.length
    ensures r.Ok? ==> r.value == m.length
    ensures r.Err? ==> r.error == ValueError
  {
    if m.length < 0 then Err(ValueError) else Ok(m.length)
  }

  /** Ranges whose sizes and counts are not negative give a map whose `len` is their total extent. */
  lemma {:induction false} LengthOfRanges(rs: seq<MemoryRange>)
    requires forall i :: 0 <= i < |rs| ==> 0 <= rs[i].size && 0 <= rs[i].n
    ensures Length(NewMemoryMap(Some(rs))) == Ok(TotalExtent(rs))
  {
    ExtentsNonNegative(rs);
  }

  lemma {:induction false} ExtentsNonNegative(rs: seq<MemoryRange>)
    requires forall i :: 0 <= i < |rs| ==> 0 <= rs[i].size && 0 <= rs[i].n
    ensures 0 <= TotalExtent(rs)
  {
    if |rs| > 0 {
      var last := rs[|rs| - 1];
      assert 0 <= last.size * last.n by {
        assert 0 <= last.size && 0 <= last.n;
      }
      ExtentsNonNegative(rs[..|rs| - 1]);
    }
  }

  /** A negative count makes `len` raise ValueError. */
  lemma NegativeLengthRaises()
    ensures Length(NewMemoryMap(Some([MemoryRange("a", 4, -1)]))) == Err(ValueError)
  {
    var rs := [MemoryRange("a", 4, -1)];
    assert rs[..0] == [];
  }

  /** Each range starts exactly where the ones before it end. */
  lemma {:induction false} OffsetsArePrefixSums(rs: seq<MemoryRange>, i: int)
    requires 0 <= i < |rs|
    ensures TotalExtent(rs[..i + 1]) == TotalExtent(rs[..i]) + Extent(rs[i])
  {
    assert rs[..i + 1][..i] == rs[..i];
  }

  /** With non-negative extents, the ranges follow one another without overlapping. */
  lemma {:induction false} RangesDisjoint(rs: seq<MemoryRange>, i: int, j: int)
    requires 0 <= i < j <= |rs|
    requires forall k :: 0 <= k < |rs| ==> Extent(rs[k]) >= 0
    ensures TotalExtent(rs[..i]) + Extent(rs[i]) <= TotalExtent(rs[..j])
    decreases j - i
  {
    OffsetsArePrefixSums(rs, j - 1);
    if j - 1 > i {
      RangesDisjoint(rs, i, j - 1);
    }
  }

  /** Where item `i` of a range at `start` with items of `size` begins: `size` past item `i - 1`. */
  function Offset(start: int, size: int, i: nat): int
  {
    if i == 0 then start else Offset(start, size, i - 1) + size
  }

  /** Item `i` begins `i` sizes past the start. */
  lemma {:induction false} OffsetIs(start: int, size: int, i: nat)
    ensures Offset(start, size, i) == start + size * i
  {
    if i > 0 {
      OffsetIs(start, size, i - 1);
      assert size * i == size * (i - 1) + size;
    }
  }

  /** The `[start, end)` intervals of `count` items of `size` laid out from `start`. */
  function Items(start: int, size: int, count: nat): (r: seq<(int, int)>)
    ensures |r| == count
    ensures forall i :: 0 <= i < count ==> r[i].0 == Offset(start, size, i) && r[i].1 - r[i].0 == size
    ensures forall i :: 0 < i < count ==> r[i].0 == r[i - 1].1
    ensures count > 0 ==> r[0].0 == start && r[count - 1].1 == Offset(start, size, count)
  {
    seq(count, (i: int) requires 0 <= i => (Offset(start, size, i), Offset(start, size, i + 1)))
  }

  /** `memory_map.slices(name)`: the `[start, end)` interval of each of the range's items. */
  function Slices(m: MemoryMap, name: string): (r: Result<seq<(int, int)>>)
    ensures r.Err? <==> name !in m.indexes
    ensures r.Err? ==> r.error == KeyError
    ensures r.Ok? ==> var l := m.indexes[name];
      |r.value| == Max(l.n, 0) &&
      (forall i :: 0 <= i < |r.value| ==> r.value[i].1 - r.value[i].0 == l.size) &&
      (forall i :: 0 < i < |r.value| ==> r.value[i].0 == r.value[i - 1].1) &&
      (|r.value| > 0 ==> r.value[0].0 == l.start && r.value[|r.value| - 1].1 == Offset(l.start, l.size, l.n))
  {
    if name !in m.indexes then Err(KeyError)
    else
      var l := m.indexes[name];
      Ok(Items(l.start, l.size, Max(l.n, 0)))
  }

  lemma MemoryMapExamples()
    ensures Length(NewMemoryMap(Some([MemoryRange("a", 4, 2), MemoryRange("b", 8, 1)]))) == Ok(16)
    ensures Length(NewMemoryMap(None)) == Ok(0)
    ensures Slices(NewMemoryMap(Some([MemoryRange("a", 4, 3)])), "a") == Ok([(0, 4), (4, 8), (8, 12)])
  {
    var two := [MemoryRange("a", 4, 2), MemoryRange("b", 8, 1)];
    assert two[..1] == [two[0]] && two[..1][..0] == [];
    var rs := [MemoryRange("a", 4, 3)];
    assert rs[..0] == [];
    IndexesLayout(rs, 0);
    var m := NewMemoryMap(Some(rs));
    assert m.indexes["a"] == Layout(0, 4, 3);
    var r := Slices(m, "a").value;
    assert |r| == 3 && r[0] == (0, 4) && r[1] == (4, 8) && r[2] == (8, 12);
    assert r == [(0, 4), (4, 8), (8, 12)];
  }

  lemma MemoryMapTwoRanges()
    ensures var m := NewMemoryMap(Some([MemoryRange("x", 2, 2), MemoryRange("y", 3, 1)]));
      Length(m) == Ok(7) && Slices(m, "x") == Ok([(0, 2), (2, 4)]) && Slices(m, "y") == Ok([(4, 7)])
  {
    var rs := [MemoryRange("x", 2, 2), MemoryRange("y", 3, 1)];
    assert rs[..0] == [] && rs[..1] == [rs[0]] && rs[..1][..0] == [];
    IndexesLayout(rs, 0);
    IndexesLayout(rs, 1);
    var m := NewMemoryMap(Some(rs));
    assert m.indexes["x"] == Layout(0, 2, 2);
    assert m.indexes["y"] == Layout(4, 3, 1);
    var x := Slices(m, "x").value;
    assert |x| == 2 && x[0] == (0, 2) && x[1] == (2, 4);
    assert x == [(0, 2), (2, 4)];
    var y := Slices(m, "y").value;
    assert |y| == 1 && y[0] == (4, 7);
    assert y == [(4, 7)];
  }
}
