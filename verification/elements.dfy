/**
 * The cooperative element protocol of `ia2/frames.py`. An element is a
 * Python generator that the frame loop advances with `next()` once per
 * frame; the generator either yields (it stays), raises StopIteration (it
 * has finished and is dropped) or raises another exception (which
 * propagates). A generator is modelled by how many more values it yields and
 * how it ends; what it draws while doing so is outside the model.
 */
module Elements {
  import opened Base

  /** A generator that yields `left` more values and then stops (`ending == None`) or raises. */
  datatype Gen = Gen(left: nat, ending: Option<Error>)

  /** The outcome of one `next(generator)`. */
  datatype Step = Yielded(next: Gen) | Exhausted | Raised(error: Error)

  function Next(g: Gen): (r: Step)
    ensures r.Yielded? <==> g.left > 0
    ensures r.Yielded? ==> r.next == Gen(g.left - 1, g.ending)
    ensures r.Exhausted? <==> g.left == 0 && g.ending.None?
    ensures r.Raised? ==> Some(r.error) == g.ending
  {
    if g.left > 0 then Yielded(Gen(g.left - 1, g.ending))
    else if g.ending.None? then Exhausted
    else Raised(g.ending.value)
  }

  /** The generator will raise instead of stopping when next advanced (its fault is due). */
  predicate Fails(g: Gen)
  {
    g.left == 0 && g.ending.Some?
  }

  predicate Lives(g: Gen)
  {
    g.left > 0
  }

  // ---------------------------------------------------------------------
  // Reference combinators
  // ---------------------------------------------------------------------

  /** The generators still running after `m` more values: those with at least `m` left, advanced by `m`. */
  function AfterSteps(es: seq<Gen>, m: nat): (r: seq<Gen>)
    ensures |r| <= |es|
  {
    if |es| == 0 then []
    else AfterSteps(es[..|es| - 1], m) +
         (var g := es[|es| - 1]; if g.left >= m then [Gen(g.left - m, g.ending)] else [])
  }

  /** The generators that stop within their `m`-th advance (they have fewer than `m` values left). */
  function FinishedWithin(es: seq<Gen>, m: nat): (r: seq<Gen>)
  {
    if |es| == 0 then []
    else FinishedWithin(es[..|es| - 1], m) + (if es[|es| - 1].left < m then [es[|es| - 1]] else [])
  }

  /** Some generator would raise before `m` more advances complete. */
  predicate FailsWithin(es: seq<Gen>, m: nat)
  {
    exists i :: 0 <= i < |es| && es[i].ending.Some? && es[i].left < m
  }

  lemma {:induction false} AfterStepsAppend(a: seq<Gen>, b: seq<Gen>, m: nat)
    ensures AfterSteps(a + b, m) == AfterSteps(a, m) + AfterSteps(b, m)
    decreases |b|
  {
    if |b| == 0 {
      assert a + b == a;
    } else {
      var b' := b[..|b| - 1];
      assert (a + b)[..|a + b| - 1] == a + b';
      AfterStepsAppend(a, b', m);
    }
  }

  lemma {:induction false} AfterStepsSingle(g: Gen, m: nat)
    ensures AfterSteps([g], m) == if g.left >= m then [Gen(g.left - m, g.ending)] else []
  {
    assert [g][..0] == [];
  }

  // ---------------------------------------------------------------------
  // One pass of the frame loop (render_frames / render_image / render_elements)
  // ---------------------------------------------------------------------

  /** The list after a pass, and the generators that finished during it. */
  datatype Pass = Pass(kept: seq<Gen>, removed: seq<Gen>)

  /**
   * One frame's `for element in elements: next(element)` followed by the
   * removal of the finished ones; the first exception other than
   * StopIteration propagates.
   */
  function StepAll(es: seq<Gen>): (r: Result<Pass>)
    ensures r.Err? <==> exists i :: 0 <= i < |es| && Fails(es[i])
    ensures r.Err? ==> exists i :: 0 <= i < |es| && Fails(es[i]) && es[i].ending == Some(r.error) &&
                                  forall j :: 0 <= j < i ==> !Fails(es[j])
    ensures r.Ok? ==> |r.value.kept| + |r.value.removed| == |es|
  {
    if |es| == 0 then Ok(Pass([], []))
    else
      var rest := StepAll(es[1..]);
      assert forall i :: 0 < i < |es| ==> es[i] == es[1..][i - 1];
      match Next(es[0])
      case Raised(e) => Err(e)
      case Exhausted =>
        if rest.Err? then
          var i :| 0 <= i < |es[1..]| && Fails(es[1..][i]) && es[1..][i].ending == Some(rest.error) &&
                   forall j :: 0 <= j < i ==> !Fails(es[1..][j]);
          assert Fails(es[i + 1]);
          Err(rest.error)
        else Ok(Pass(rest.value.kept, [es[0]] + rest.value.removed))
      case Yielded(g) =>
        if rest.Err? then
          var i :| 0 <= i < |es[1..]| && Fails(es[1..][i]) && es[1..][i].ending == Some(rest.error) &&
                   forall j :: 0 <= j < i ==> !Fails(es[1..][j]);
          assert Fails(es[i + 1]);
          Err(rest.error)
        else Ok(Pass([g] + rest.value.kept, rest.value.removed))
  }

  /**
   * A successful pass keeps, in order, every generator that yielded (now one
   * value further on), and removes, in order, the ones that stopped.
   */
  lemma {:induction false} StepAllAdvancesEach(es: seq<Gen>)
    requires StepAll(es).Ok?
    ensures StepAll(es).value.kept == AfterSteps(es, 1)
    ensures StepAll(es).value.removed == FinishedWithin(es, 1)
  {
    if |es| > 0 {
      var t := es[1..];
      assert es == [es[0]] + t;
      StepAllAdvancesEach(t);
      AfterStepsAppend([es[0]], t, 1);
      AfterStepsSingle(es[0], 1);
      FinishedWithinAppend([es[0]], t, 1);
      assert [es[0]][..0] == [];
    }
  }

  lemma {:induction false} FinishedWithinAppend(a: seq<Gen>, b: seq<Gen>, m: nat)
    ensures FinishedWithin(a + b, m) == FinishedWithin(a, m) + FinishedWithin(b, m)
    decreases |b|
  {
    if |b| == 0 {
      assert a + b == a;
    } else {
      var b' := b[..|b| - 1];
      assert (a + b)[..|a + b| - 1] == a + b';
      FinishedWithinAppend(a, b', m);
    }
  }

  /** `m` consecutive passes; the first failing pass ends the loop. */
  function StepFrames(es: seq<Gen>, m: nat): (r: Result<seq<Gen>>)
    ensures r.Ok? ==> |r.value| <= |es|
  {
    if m == 0 then Ok(es)
    else
      match StepFrames(es, m - 1)
      case Err(e) => Err(e)
      case Ok(l) =>
        match StepAll(l)
        case Err(e) => Err(e)
        case Ok(p) => Ok(p.kept)
  }

  /** Advancing by `m` and then by one more is advancing by `m + 1`. */
  lemma {:induction false} AfterStepsCompose(es: seq<Gen>, m: nat)
    ensures AfterSteps(AfterSteps(es, m), 1) == AfterSteps(es, m + 1)
    decreases |es|
  {
    if |es| > 0 {
      var p, g := es[..|es| - 1], es[|es| - 1];
      AfterStepsCompose(p, m);
      var tail := if g.left >= m then [Gen(g.left - m, g.ending)] else [];
      AfterStepsAppend(AfterSteps(p, m), tail, 1);
      if g.left >= m {
        AfterStepsSingle(Gen(g.left - m, g.ending), 1);
      } else {
        assert AfterSteps(tail, 1) == [];
      }
    }
  }

  /** No generator among those advanced `m` times is about to raise, unless one raises within `m + 1`. */
  lemma {:induction false} NoFaultAfterSteps(es: seq<Gen>, m: nat)
    requires !FailsWithin(es, m + 1)
    ensures forall i :: 0 <= i < |AfterSteps(es, m)| ==> !Fails(AfterSteps(es, m)[i])
    decreases |es|
  {
    if |es| > 0 {
      var p, g := es[..|es| - 1], es[|es| - 1];
      assert !FailsWithin(p, m + 1) by {
        forall i | 0 <= i < |p|
          ensures !(p[i].ending.Some? && p[i].left < m + 1)
        {
          assert p[i] == es[i];
        }
      }
      NoFaultAfterSteps(p, m);
    }
  }

  /** A pass over generators none of which is about to raise succeeds. */
  lemma NoFaultPasses(l: seq<Gen>)
    requires forall i :: 0 <= i < |l| ==> !Fails(l[i])
    ensures StepAll(l).Ok?
  {
  }

  /** A generator about to raise makes the pass fail; one raising within `m + 1` steps does so by pass `m + 1`. */
  lemma {:induction false} FaultAfterSteps(es: seq<Gen>, m: nat, i: int)
    requires 0 <= i < |es| && es[i].ending.Some? && es[i].left == m
    ensures exists j :: 0 <= j < |AfterSteps(es, m)| && Fails(AfterSteps(es, m)[j])
    decreases |es|
  {
    var p, g := es[..|es| - 1], es[|es| - 1];
    var tail := if g.left >= m then [Gen(g.left - m, g.ending)] else [];
    assert AfterSteps(es, m) == AfterSteps(p, m) + tail;
    if i == |es| - 1 {
      assert AfterSteps(es, m)[|AfterSteps(p, m)|] == Gen(0, g.ending);
    } else {
      assert p[i] == es[i];
      FaultAfterSteps(p, m, i);
      var j :| 0 <= j < |AfterSteps(p, m)| && Fails(AfterSteps(p, m)[j]);
      assert AfterSteps(es, m)[j] == AfterSteps(p, m)[j];
    }
  }

  /**
   * The lifecycle in closed form: after `m` frames the list holds exactly the
   * generators with at least `m` values left, in their original order, each
   * advanced `m` times. So a generator that stops on its k-th `next` is
   * advanced once in each of the first k frames and is gone afterwards.
   */
  lemma {:induction false} StepFramesClosedForm(es: seq<Gen>, m: nat)
    requires !FailsWithin(es, m)
    ensures StepFrames(es, m) == Ok(AfterSteps(es, m))
  {
    if m == 0 {
      AfterStepsZero(es);
    } else {
      assert !FailsWithin(es, m - 1);
      StepFramesClosedForm(es, m - 1);
      StepFramesNext(es, m);
    }
  }

  /** One more frame of the closed form: the pass after `m - 1` frames advances the survivors once. */
  lemma StepFramesNext(es: seq<Gen>, m: nat)
    requires 0 < m && !FailsWithin(es, m)
    requires StepFrames(es, m - 1) == Ok(AfterSteps(es, m - 1))
    ensures StepFrames(es, m) == Ok(AfterSteps(es, m))
  {
    var l := AfterSteps(es, m - 1);
    NoFaultAfterSteps(es, m - 1);
    NoFaultPasses(l);
    var p := StepAll(l).value;
    StepAllAdvancesEach(l);
    AfterStepsCompose(es, m - 1);
    assert p.kept == AfterSteps(l, 1) == AfterSteps(es, m);
    assert StepFrames(es, m) == Ok(p.kept);
  }

  lemma {:induction false} AfterStepsZero(es: seq<Gen>)
    ensures AfterSteps(es, 0) == es
    decreases |es|
  {
    if |es| > 0 {
      AfterStepsZero(es[..|es| - 1]);
      assert es == es[..|es| - 1] + [es[|es| - 1]];
    }
  }

  /** If some generator raises within `m` advances, `m` frames end in an exception. */
  lemma {:induction false} StepFramesFails(es: seq<Gen>, m: nat)
    requires FailsWithin(es, m)
    ensures StepFrames(es, m).Err?
  {
    var i :| 0 <= i < |es| && es[i].ending.Some? && es[i].left < m;
    var k := es[i].left;
    // the first k frames either fail already or reach the generator's fault
    if StepFrames(es, k).Ok? {
      if FailsWithin(es, k) {
        StepFramesFails(es, k);
      } else {
        StepFramesClosedForm(es, k);
        FaultAfterSteps(es, k, i);
      }
    }
    StepFramesErrPersists(es, k, m);
  }

  /** Once the loop has raised it stays raised. */
  lemma {:induction false} StepFramesErrPersists(es: seq<Gen>, k: nat, m: nat)
    requires k < m
    requires StepFrames(es, k).Err? || (StepFrames(es, k).Ok? && StepAll(StepFrames(es, k).value).Err?)
    ensures StepFrames(es, m).Err?
    decreases m - k
  {
    assert StepFrames(es, k + 1).Err?;
    if k + 1 < m {
      StepFramesErrPersists(es, k + 1, m);
    }
  }

  /** A generator that stops on its k-th advance stays for k - 1 frames and is gone after frame k. */
  lemma Lifecycle(k: nat)
    requires k >= 1
    ensures StepFrames([Gen(k - 1, None)], k - 1) == Ok([Gen(0, None)])
    ensures StepFrames([Gen(k - 1, None)], k) == Ok([])
  {
    var es := [Gen(k - 1, None)];
    assert !FailsWithin(es, k);
    StepFramesClosedForm(es, k - 1);
    StepFramesClosedForm(es, k);
    AfterStepsSingle(es[0], k - 1);
    AfterStepsSingle(es[0], k);
  }

  // ---------------------------------------------------------------------
  // In-place passes (render_elements2 / render_elements_once)
  // ---------------------------------------------------------------------

  /** What one in-place pass leaves in a slot: a stopped generator becomes `None`. */
  function StepSlot(slot: Option<Gen>): (r: Option<Gen>)
    requires slot.Some? ==> !Fails(slot.value)
  {
    match slot
    case None => None
    case Some(g) => if g.left > 0 then Some(Gen(g.left - 1, g.ending)) else None
  }

  predicate SlotFails(slot: Option<Gen>)
  {
    slot.Some? && Fails(slot.value)
  }

  /**
   * `for i, element in enumerate(elements)`: skip `None`, advance the rest,
   * then write `None` into every slot whose generator stopped. Indices are
   * kept; the first other exception propagates.
   */
  function StepInPlace(slots: seq<Option<Gen>>): (r: Result<seq<Option<Gen>>>)
    ensures r.Err? <==> exists i :: 0 <= i < |slots| && SlotFails(slots[i])
    ensures r.Ok? ==> |r.value| == |slots| && forall i :: 0 <= i < |slots| ==> r.value[i] == StepSlot(slots[i])
  {
    if |slots| == 0 then Ok([])
    else if SlotFails(slots[0]) then Err(slots[0].value.ending.value)
    else
      match StepInPlace(slots[1..])
      case Err(e) =>
        var i :| 0 <= i < |slots[1..]| && SlotFails(slots[1..][i]);
        assert SlotFails(slots[i + 1]);
        Err(e)
      case Ok(rest) =>
        assert forall i :: 0 < i < |slots| ==> slots[i] == slots[1..][i - 1];
        Ok([StepSlot(slots[0])] + rest)
  }

  /** Slot `i` after `m` in-place frames. */
  function SlotAfter(slot: Option<Gen>, m: nat): Option<Gen>
  {
    match slot
    case None => None
    case Some(g) => if g.left >= m then Some(Gen(g.left - m, g.ending)) else None
  }

  /** `m` consecutive in-place passes over one list. */
  function StepInPlaceFrames(slots: seq<Option<Gen>>, m: nat): (r: Result<seq<Option<Gen>>>)
    ensures r.Ok? ==> |r.value| == |slots|
  {
    if m == 0 then Ok(slots)
    else
      match StepInPlaceFrames(slots, m - 1)
      case Err(e) => Err(e)
      case Ok(l) => StepInPlace(l)
  }

  /**
   * In place, indices never move: after `m` frames slot `i` holds its
   * generator advanced `m` times while it has values left, and `None` from
   * the frame it stopped on.
   */
  lemma {:induction false} StepInPlaceClosedForm(slots: seq<Option<Gen>>, m: nat)
    requires forall i :: 0 <= i < |slots| && slots[i].Some? && slots[i].value.ending.Some? ==> slots[i].value.left >= m
    ensures StepInPlaceFrames(slots, m).Ok?
    ensures forall i :: 0 <= i < |slots| ==> StepInPlaceFrames(slots, m).value[i] == SlotAfter(slots[i], m)
  {
    if m > 0 {
      StepInPlaceClosedForm(slots, m - 1);
      var l := StepInPlaceFrames(slots, m - 1).value;
      assert forall i :: 0 <= i < |l| ==> !SlotFails(l[i]);
      var r := StepInPlace(l);
      assert r.Ok? && StepInPlaceFrames(slots, m) == r;
      forall i | 0 <= i < |slots|
        ensures r.value[i] == SlotAfter(slots[i], m)
      {
        assert r.value[i] == StepSlot(l[i]);
      }
    }
  }
}
