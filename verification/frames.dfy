/**
 * The frame loop of `ia2/frames.py`: how many frames a duration lasts,
 * what `save_frame` does for each session class, the `frames`/`one_frame`
 * generators, `wait`, and the element renderers built on them. Output is
 * modelled as a trace of actions; drawing, pixel data and the clock are not
 * modelled, and window events arrive through a `poll` parameter.
 */
module Frames {
  import opened Base
  import opened Records
  import opened Elements

  /** What the loop does, in order: hand a frame number to the caller, or emit the surface. */
  datatype Action = Yield(frame: int) | Write | Display | GLDisplay

  /** `len(range(int(time * fps)))`. */
  function FrameCount(time: real, fps: int): (n: nat)
    ensures Trunc(time * fps as real) >= 0 ==> n == Trunc(time * fps as real)
    ensures Trunc(time * fps as real) < 0 ==> n == 0
  {
    var k := Trunc(time * fps as real);
    if k < 0 then 0 else k
  }

  /** What one window poll reports: new pygame events, and whether the OpenGL window is closing. */
  datatype Poll = Poll(events: seq<EventType>, closing: bool)

  /** The classes that record to the video pipe. */
  predicate Recording(k: Kind)
  {
    k in {Animation, AnimationSequence, InteractiveAnimation, OpenGLInteractiveAnimation}
  }

  /** The classes with a pygame window, whose event list accumulates. */
  predicate PygameWindow(k: Kind)
  {
    k in {Interactive, InteractiveAnimation}
  }

  predicate GLWindow(k: Kind)
  {
    k in {OpenGLInteractive, OpenGLInteractiveAnimation}
  }

  /** The result of `save_frame`: the session afterwards, what it did, and what it raised. */
  datatype Saved = Saved(session: Session, actions: seq<Action>, raised: Option<Error>)

  /**
   * `save_frame(anim)`: write for the recording classes, display for the
   * windowed ones, display then write for the windowed recording ones, and
   * nothing for `Image` and `Sequence`. A pygame display appends the polled
   * events to the session's list and raises StopInteractive when any QUIT
   * is in the accumulated list; an OpenGL display raises it when the window
   * is closing. Either raise comes before the recording write.
   */
  function SaveFrame(s: Session, p: Poll): (r: Saved)
    ensures r.session.kind == s.kind && r.session.fps == s.fps && r.session.currentFrame == s.currentFrame
    ensures PygameWindow(s.kind) ==> r.session.events == s.events + p.events
    ensures !PygameWindow(s.kind) ==> r.session.events == s.events
  {
    match s.kind
    case Animation => Saved(s, [Write], None)
    case AnimationSequence => Saved(s, [Write], None)
    case Interactive =>
      var s' := s.(events := s.events + p.events);
      if Quit in s'.events then Saved(s', [Display], Some(StopInteractive)) else Saved(s', [Display], None)
    case InteractiveAnimation =>
      var s' := s.(events := s.events + p.events);
      if Quit in s'.events then Saved(s', [Display], Some(StopInteractive)) else Saved(s', [Display, Write], None)
    case OpenGLInteractive =>
      if p.closing then Saved(s, [GLDisplay], Some(StopInteractive)) else Saved(s, [GLDisplay], None)
    case OpenGLInteractiveAnimation =>
      if p.closing then Saved(s, [GLDisplay], Some(StopInteractive)) else Saved(s, [GLDisplay, Write], None)
    case Image => Saved(s, [], None)
    case Sequence => Saved(s, [], None)
  }

  /** The quit condition a display checks. */
  predicate QuitRequested(s: Session, p: Poll)
  {
    (PygameWindow(s.kind) && Quit in s.events + p.events) || (GLWindow(s.kind) && p.closing)
  }

  /** A frame is written exactly when the class records and no quit interrupts the display. */
  lemma SaveFrameWrites(s: Session, p: Poll)
    ensures Write in SaveFrame(s, p).actions <==> Recording(s.kind) && !QuitRequested(s, p)
    ensures SaveFrame(s, p).raised.Some? <==> QuitRequested(s, p)
    ensures SaveFrame(s, p).raised.Some? ==> SaveFrame(s, p).raised == Some(StopInteractive) && Write !in SaveFrame(s, p).actions
    ensures (Display in SaveFrame(s, p).actions <==> PygameWindow(s.kind)) && (GLDisplay in SaveFrame(s, p).actions <==> GLWindow(s.kind))
  {
  }

  /** A QUIT stays in the accumulated list, so every later pygame display raises again. */
  lemma QuitPersists(s: Session, p: Poll, q: Poll)
    requires PygameWindow(s.kind) && SaveFrame(s, p).raised.Some?
    ensures SaveFrame(SaveFrame(s, p).session, q).raised == Some(StopInteractive)
  {
    var s' := SaveFrame(s, p).session;
    assert Quit in s.events + p.events;
    assert s'.events + q.events == (s.events + p.events) + q.events;
  }

  // ---------------------------------------------------------------------
  // frames / one_frame
  // ---------------------------------------------------------------------

  /** The state of a frame loop: the session, its trace, and what ended it early. */
  datatype Run = Run(session: Session, actions: seq<Action>, raised: Option<Error>)

  /** Frames `i` to `n - 1` of `frames(anim, time)`: yield the number, then `save_frame`. */
  function FramesFrom(s: Session, i: nat, n: nat, poll: nat -> Poll, acc: seq<Action>): (r: Run)
    decreases n - i
  {
    if i >= n then Run(s, acc, None)
    else
      var saved := SaveFrame(s, poll(i));
      var acc' := acc + [Yield(i)] + saved.actions;
      if saved.raised.Some? then Run(saved.session, acc', saved.raised)
      else FramesFrom(saved.session, i + 1, n, poll, acc')
  }

  /** `for frame in frames(anim, time): ...` with an empty loop body. */
  function FramesRun(s: Session, time: real, poll: nat -> Poll): (r: Run)
  {
    FramesFrom(s, 0, FrameCount(time, s.fps), poll, [])
  }

  /** `one_frame(anim)`: the same loop with exactly one frame. */
  function OneFrame(s: Session, poll: nat -> Poll): (r: Run)
    ensures r.actions == [Yield(0)] + SaveFrame(s, poll(0)).actions
    ensures r.raised.Some? <==> QuitRequested(s, poll(0))
  {
    SaveFrameWrites(s, poll(0));
    FramesFrom(s, 0, 1, poll, [])
  }

  /** The trace of `k` uninterrupted frames of a recording class: yield then write, `k` times. */
  function YieldWrite(i: nat, k: nat): seq<Action>
    decreases k
  {
    if k == 0 then [] else [Yield(i), Write] + YieldWrite(i + 1, k - 1)
  }

  /** Writes in a trace. */
  function CountWrites(t: seq<Action>): nat
  {
    if |t| == 0 then 0 else CountWrites(t[..|t| - 1]) + (if t[|t| - 1] == Write then 1 else 0)
  }

  lemma {:induction false} CountWritesAppend(a: seq<Action>, b: seq<Action>)
    ensures CountWrites(a + b) == CountWrites(a) + CountWrites(b)
    decreases |b|
  {
    if |b| == 0 {
      assert a + b == a;
    } else {
      assert (a + b)[..|a + b| - 1] == a + b[..|b| - 1];
      CountWritesAppend(a, b[..|b| - 1]);
    }
  }

  lemma {:induction false} YieldWriteCount(i: nat, k: nat)
    ensures |YieldWrite(i, k)| == 2 * k
    ensures CountWrites(YieldWrite(i, k)) == k
    ensures forall j :: 0 <= j < k ==> YieldWrite(i, k)[2 * j] == Yield(i + j) && YieldWrite(i, k)[2 * j + 1] == Write
    decreases k
  {
    if k > 0 {
      YieldWriteCount(i + 1, k - 1);
      var rest := YieldWrite(i + 1, k - 1);
      forall j | 0 < j < k
        ensures YieldWrite(i, k)[2 * j] == Yield(i + j) && YieldWrite(i, k)[2 * j + 1] == Write
      {
        assert YieldWrite(i, k)[2 * j] == rest[2 * (j - 1)];
        assert YieldWrite(i, k)[2 * j + 1] == rest[2 * (j - 1) + 1];
      }
      CountWritesAppend([Yield(i), Write], YieldWrite(i + 1, k - 1));
      assert [Yield(i), Write] == [Yield(i)] + [Write];
      CountWritesAppend([Yield(i)], [Write]);
      assert [Yield(i)][..0] == [];
    }
  }

  lemma {:induction false} FramesFromAnimation(s: Session, i: nat, n: nat, poll: nat -> Poll, acc: seq<Action>)
    requires s.kind in {Animation, AnimationSequence}
    requires i <= n
    ensures FramesFrom(s, i, n, poll, acc) == Run(s, acc + YieldWrite(i, n - i), None)
    decreases n - i
  {
    if i < n {
      FramesFromAnimation(s, i + 1, n, poll, acc + [Yield(i)] + [Write]);
      assert acc + [Yield(i)] + [Write] + YieldWrite(i + 1, n - i - 1) == acc + YieldWrite(i, n - i);
    } else {
      assert acc + [] == acc;
    }
  }

  /**
   * On a video session `frames(anim, time)` yields 0, 1, ..., n - 1 for
   * n = `int(time * fps)` and writes exactly one frame after each yield.
   */
  lemma FramesOnAnimation(s: Session, time: real, poll: nat -> Poll)
    requires s.kind in {Animation, AnimationSequence}
    ensures var n := FrameCount(time, s.fps);
      FramesRun(s, time, poll).raised.None? &&
      |FramesRun(s, time, poll).actions| == 2 * n &&
      CountWrites(FramesRun(s, time, poll).actions) == n &&
      forall j :: 0 <= j < n ==> FramesRun(s, time, poll).actions[2 * j] == Yield(j)
  {
    var n := FrameCount(time, s.fps);
    FramesFromAnimation(s, 0, n, poll, []);
    YieldWriteCount(0, n);
    assert [] + YieldWrite(0, n) == YieldWrite(0, n);
  }

  /** A still image lasts `int(time)` frames, since its frame rate is 1; it emits nothing. */
  lemma FramesOnImage(time: real, poll: nat -> Poll)
    ensures FrameCount(time, NewImage().fps) == FrameCount(time, 1)
    ensures CountWrites(FramesRun(NewImage(), time, poll).actions) == 0
  {
    var s := NewImage();
    FramesFromSilent(s, 0, FrameCount(time, 1), poll, []);
    YieldOnlySilent(0, FrameCount(time, 1));
    assert [] + YieldOnly(0, FrameCount(time, 1)) == YieldOnly(0, FrameCount(time, 1));
  }

  /** The trace of `k` frames of a class that neither writes nor displays. */
  function YieldOnly(i: nat, k: nat): seq<Action>
    decreases k
  {
    if k == 0 then [] else [Yield(i)] + YieldOnly(i + 1, k - 1)
  }

  lemma {:induction false} FramesFromSilent(s: Session, i: nat, n: nat, poll: nat -> Poll, acc: seq<Action>)
    requires s.kind in {Image, Sequence}
    requires i <= n
    ensures FramesFrom(s, i, n, poll, acc) == Run(s, acc + YieldOnly(i, n - i), None)
    decreases n - i
  {
    if i < n {
      var saved := SaveFrame(s, poll(i));
      assert saved.actions == [] && saved.raised.None? && saved.session == s;
      assert FramesFrom(s, i, n, poll, acc) == FramesFrom(s, i + 1, n, poll, acc + [Yield(i)] + []);
      assert acc + [Yield(i)] + [] == acc + [Yield(i)];
      FramesFromSilent(s, i + 1, n, poll, acc + [Yield(i)]);
      var rest := YieldOnly(i + 1, n - (i + 1));
      assert YieldOnly(i, n - i) == [Yield(i)] + rest;
      assert acc + [Yield(i)] + rest == acc + ([Yield(i)] + rest);
    } else {
      assert acc + [] == acc;
    }
  }

  /** The trace of a class that neither writes nor displays holds no write. */
  lemma {:induction false} YieldOnlySilent(i: nat, k: nat)
    ensures CountWrites(YieldOnly(i, k)) == 0
    decreases k
  {
    if k > 0 {
      YieldOnlySilent(i + 1, k - 1);
      CountWritesAppend([Yield(i)], YieldOnly(i + 1, k - 1));
      assert [Yield(i)][..0] == [];
    }
  }

  // ---------------------------------------------------------------------
  // wait
  // ---------------------------------------------------------------------

  /** What `wait` wrote and what it returned (`None` for Python's implicit `None`). */
  datatype Waited = Waited(writes: nat, returned: Option<int>)

  /**
   * `wait(anim, seconds)`: the video classes write the unchanged surface
   * `int(seconds * fps)` times and return that count; `InteractiveAnimation`
   * writes as many frames and returns None; `Interactive` only sleeps; the
   * other classes do nothing.
   */
  function Wait(s: Session, seconds: real): (r: Waited)
    ensures s.kind in {Animation, AnimationSequence, InteractiveAnimation} ==> r.writes == FrameCount(seconds, s.fps)
    ensures s.kind !in {Animation, AnimationSequence, InteractiveAnimation} ==> r.writes == 0
    ensures r.returned.Some? <==> s.kind in {Animation, AnimationSequence}
    ensures r.returned.Some? ==> r.returned.value == Trunc(seconds * s.fps as real)
    ensures r.returned.Some? && r.returned.value >= 0 ==> r.returned.value == r.writes
  {
    var k := Trunc(seconds * s.fps as real);
    match s.kind
    case Animation => Waited(FrameCount(seconds, s.fps), Some(k))
    case AnimationSequence => Waited(FrameCount(seconds, s.fps), Some(k))
    case InteractiveAnimation => Waited(FrameCount(seconds, s.fps), None)
    case _ => Waited(0, None)
  }

  // ---------------------------------------------------------------------
  // render_frames / render_image
  // ---------------------------------------------------------------------

  /** A render loop's state: the frame loop's, plus the element list. */
  datatype Render = Render(run: Run, elements: seq<Gen>)

  /**
   * Frames `i` to `n - 1` of `render_frames`: yield the frame number, set
   * `current_frame = start + i` when the session has one, advance every
   * element once and drop those that stopped, then `save_frame`. An element's
   * exception ends the loop before that frame is saved.
   */
  function RenderFrom(s: Session, es: seq<Gen>, start: int, i: nat, n: nat, poll: nat -> Poll, acc: seq<Action>): (r: Render)
    decreases n - i
  {
    if i >= n then Render(Run(s, acc, None), es)
    else
      var s1 := if s.currentFrame.Some? then s.(currentFrame := Some(start + i)) else s;
      var acc1 := acc + [Yield(i)];
      match StepAll(es)
      case Err(e) => Render(Run(s1, acc1, Some(e)), es)
      case Ok(pass) =>
        var saved := SaveFrame(s1, poll(i));
        var acc2 := acc1 + saved.actions;
        if saved.raised.Some? then Render(Run(saved.session, acc2, saved.raised), pass.kept)
        else RenderFrom(saved.session, pass.kept, start, i + 1, n, poll, acc2)
  }

  /** What `render_frames` returns, besides its effects. */
  datatype Rendered = Rendered(render: Render, returned: int)

  /**
   * `render_frames(anim, length, elements)`: the loop above over
   * `int(length * fps)` frames from `start = current_frame` (0 without the
   * slot); afterwards `current_frame` is incremented and returned, or 0 is
   * returned when there is no `current_frame`.
   */
  function RenderFrames(s: Session, length: real, es: seq<Gen>, poll: nat -> Poll): (r: Rendered)
  {
    var start := if s.currentFrame.Some? then s.currentFrame.value else 0;
    var loop := RenderFrom(s, es, start, 0, FrameCount(length, s.fps), poll, []);
    if loop.run.raised.Some? then Rendered(loop, 0)
    else
      var end := loop.run.session;
      if end.currentFrame.Some? then
        var cf := end.currentFrame.value + 1;
        Rendered(Render(loop.run.(session := end.(currentFrame := Some(cf))), loop.elements), cf)
      else Rendered(loop, 0)
  }

  /** The frame counter after the uninterrupted loop: start + i - 1 once a frame ran, else unchanged. */
  lemma {:induction false} RenderFromCounter(s: Session, es: seq<Gen>, start: int, i: nat, n: nat, poll: nat -> Poll, acc: seq<Action>)
    requires i <= n
    requires RenderFrom(s, es, start, i, n, poll, acc).run.raised.None?
    ensures var r := RenderFrom(s, es, start, i, n, poll, acc);
      r.run.session.currentFrame.Some? == s.currentFrame.Some? &&
      r.run.session.kind == s.kind && r.run.session.fps == s.fps &&
      (s.currentFrame.Some? && i < n ==> r.run.session.currentFrame == Some(start + n - 1)) &&
      (i == n ==> r.run.session.currentFrame == s.currentFrame)
    decreases n - i
  {
    if i < n {
      var s1 := if s.currentFrame.Some? then s.(currentFrame := Some(start + i)) else s;
      var pass := StepAll(es).value;
      var saved := SaveFrame(s1, poll(i));
      RenderFromCounter(saved.session, pass.kept, start, i + 1, n, poll, acc + [Yield(i)] + saved.actions);
    }
  }

  /**
   * The returned value: `start + n` after n >= 1 uninterrupted frames, and
   * `start + 1` when no frame ran (the counter is still incremented once);
   * 0 for a session without `current_frame`.
   */
  lemma RenderFramesReturns(s: Session, length: real, es: seq<Gen>, poll: nat -> Poll)
    requires RenderFrames(s, length, es, poll).render.run.raised.None?
    ensures var n := FrameCount(length, s.fps);
      var r := RenderFrames(s, length, es, poll);
      (s.currentFrame.None? ==> r.returned == 0) &&
      (s.currentFrame.Some? && n >= 1 ==> r.returned == s.currentFrame.value + n && r.render.run.session.currentFrame == Some(r.returned)) &&
      (s.currentFrame.Some? && n == 0 ==> r.returned == s.currentFrame.value + 1)
  {
    var start := if s.currentFrame.Some? then s.currentFrame.value else 0;
    RenderFromCounter(s, es, start, 0, FrameCount(length, s.fps), poll, []);
  }

  /** With no element raising, the list after `render_frames` is the closed form of `n` frames. */
  lemma {:induction false} RenderFromElements(s: Session, es: seq<Gen>, start: int, i: nat, n: nat, poll: nat -> Poll, acc: seq<Action>)
    requires i <= n
    requires !FailsWithin(es, n - i)
    requires RenderFrom(s, es, start, i, n, poll, acc).run.raised.None?
    ensures RenderFrom(s, es, start, i, n, poll, acc).elements == AfterSteps(es, n - i)
    decreases n - i
  {
    if i < n {
      var s2, acc2 := RenderFromStep(s, es, start, i, n, poll, acc);
      var m := n - (i + 1);
      RenderFromElements(s2, AfterSteps(es, 1), start, i + 1, n, poll, acc2);
      assert AfterSteps(AfterSteps(es, 1), m) == AfterSteps(es, 1 + m) by {
        AfterStepsCompose2(es, 1, m);
      }
      assert 1 + m == n - i;
    } else {
      assert RenderFrom(s, es, start, i, n, poll, acc).elements == es;
      AfterStepsZero(es);
    }
  }

  /** One uninterrupted frame of `render_frames`: the elements advance once. */
  lemma RenderFromStep(s: Session, es: seq<Gen>, start: int, i: nat, n: nat, poll: nat -> Poll, acc: seq<Action>)
      returns (s2: Session, acc2: seq<Action>)
    requires i < n
    requires !FailsWithin(es, n - i)
    requires RenderFrom(s, es, start, i, n, poll, acc).run.raised.None?
    ensures RenderFrom(s, es, start, i, n, poll, acc) == RenderFrom(s2, AfterSteps(es, 1), start, i + 1, n, poll, acc2)
    ensures RenderFrom(s2, AfterSteps(es, 1), start, i + 1, n, poll, acc2).run.raised.None?
    ensures !FailsWithin(AfterSteps(es, 1), n - (i + 1))
  {
    assert StepAll(es).Ok? by {
      NoFaultWithin(es, n - i);
    }
    var pass := StepAll(es).value;
    var s1 := if s.currentFrame.Some? then s.(currentFrame := Some(start + i)) else s;
    var saved := SaveFrame(s1, poll(i));
    s2, acc2 := saved.session, acc + [Yield(i)] + saved.actions;
    assert saved.raised.None?;
    assert pass.kept == AfterSteps(es, 1) by {
      StepAllAdvancesEach(es);
    }
    AfterStepsFaults(es, 1, n - i);
  }

  /** No generator raising within `t >= 1` advances means the next pass succeeds. */
  lemma NoFaultWithin(es: seq<Gen>, t: nat)
    requires 0 < t && !FailsWithin(es, t)
    ensures StepAll(es).Ok?
  {
    assert forall i :: 0 <= i < |es| ==> !Fails(es[i]);
  }

  /** A generator of the advanced list raising within `k` would have raised within `m + k` originally. */
  lemma {:induction false} AfterStepsFaults(es: seq<Gen>, m: nat, t: nat)
    requires m <= t && !FailsWithin(es, t)
    ensures !FailsWithin(AfterSteps(es, m), t - m)
    decreases |es|
  {
    if |es| > 0 {
      var p, g := es[..|es| - 1], es[|es| - 1];
      assert !FailsWithin(p, t) by {
        forall i | 0 <= i < |p|
          ensures !(p[i].ending.Some? && p[i].left < t)
        {
          assert p[i] == es[i];
        }
      }
      AfterStepsFaults(p, m, t);
      var tail: seq<Gen> := if g.left >= m then [Gen(g.left - m, g.ending)] else [];
      var a := AfterSteps(p, m);
      assert AfterSteps(es, m) == a + tail;
      forall i | 0 <= i < |a + tail|
        ensures !((a + tail)[i].ending.Some? && (a + tail)[i].left < t - m)
      {
        if i >= |a| {
          assert (a + tail)[i] == Gen(g.left - m, g.ending);
        } else {
          assert (a + tail)[i] == a[i];
        }
      }
    }
  }

  /** Advancing by `a` and then by `b` is advancing by `a + b`. */
  lemma {:induction false} AfterStepsCompose2(es: seq<Gen>, a: nat, b: nat)
    ensures AfterSteps(AfterSteps(es, a), b) == AfterSteps(es, a + b)
    decreases |es|
  {
    if |es| > 0 {
      var p, g := es[..|es| - 1], es[|es| - 1];
      AfterStepsCompose2(p, a, b);
      var tail := if g.left >= a then [Gen(g.left - a, g.ending)] else [];
      AfterStepsAppend(AfterSteps(p, a), tail, b);
      if g.left >= a {
        AfterStepsSingle(Gen(g.left - a, g.ending), b);
      } else {
        assert AfterSteps(tail, b) == [];
      }
    }
  }

  /**
   * `render_frames` leaves exactly the elements with at least `n` values
   * left, each advanced `n` times, when none of them raises.
   */
  lemma RenderFramesElements(s: Session, length: real, es: seq<Gen>, poll: nat -> Poll)
    requires !FailsWithin(es, FrameCount(length, s.fps))
    requires RenderFrames(s, length, es, poll).render.run.raised.None?
    ensures RenderFrames(s, length, es, poll).render.elements == AfterSteps(es, FrameCount(length, s.fps))
  {
    var start := if s.currentFrame.Some? then s.currentFrame.value else 0;
    var n := FrameCount(length, s.fps);
    var loop := RenderFrom(s, es, start, 0, n, poll, []);
    assert loop.run.raised.None?;
    assert RenderFrames(s, length, es, poll).render.elements == loop.elements;
    RenderFromElements(s, es, start, 0, n, poll, []);
  }

  /**
   * `render_image(img, elements)`: one frame of the same loop through
   * `one_frame`, on any session (the still image is the intended use); returns 0.
   * `one_frame` never writes `current_frame`, so the loop starts at the
   * session's own counter and leaves it as it was.
   */
  function RenderImage(img: Session, es: seq<Gen>, poll: nat -> Poll): (r: Rendered)
    ensures r.returned == 0
    ensures r.render.run.session.currentFrame == img.currentFrame
    ensures r.render.run.session.kind == img.kind && r.render.run.session.fps == img.fps
    ensures r.render.run.raised.None? ==> r.render.elements == AfterSteps(es, 1)
  {
    var start := if img.currentFrame.Some? then img.currentFrame.value else 0;
    var loop := RenderFrom(img, es, start, 0, 1, poll, []);
    if StepAll(es).Ok? then
      StepAllAdvancesEach(es);
      Rendered(loop, 0)
    else
      Rendered(loop, 0)
  }

  /** A `render_image` call on a session with a frame counter leaves the counter alone. */
  lemma RenderImageKeepsCounter(poll: nat -> Poll)
    ensures RenderImage(Session(AnimationSequence, 30, Some(5), []), [], poll).render.run.session.currentFrame == Some(5)
  {
  }

  // ---------------------------------------------------------------------
  // render_elements / render_elements2 / render_elements_once
  // ---------------------------------------------------------------------

  /** `max(int(length * fps), 1)`: these renderers always run at least one frame. */
  function RenderElementsCount(length: real, fps: int): (n: nat)
    ensures n >= 1
    ensures n == Max(Trunc(length * fps as real), 1)
  {
    var k := Trunc(length * fps as real);
    if k < 1 then 1 else k
  }

  /** `render_elements(anim, length, elements)`, run to exhaustion: the final list and each frame's removed elements. */
  function RenderElements(es: seq<Gen>, n: nat): (r: Result<(seq<Gen>, seq<seq<Gen>>)>)
    ensures r.Ok? ==> |r.value.1| == n
  {
    if n == 0 then Ok((es, []))
    else
      match RenderElements(es, n - 1)
      case Err(e) => Err(e)
      case Ok((l, removed)) =>
        match StepAll(l)
        case Err(e) => Err(e)
        case Ok(pass) => Ok((pass.kept, removed + [pass.removed]))
  }

  /** The list `render_elements` ends with is the one `n` frames of stepping produce. */
  lemma {:induction false} RenderElementsIsStepFrames(es: seq<Gen>, n: nat)
    ensures RenderElements(es, n).Ok? <==> StepFrames(es, n).Ok?
    ensures RenderElements(es, n).Ok? ==> RenderElements(es, n).value.0 == StepFrames(es, n).value
  {
    if n > 0 {
      RenderElementsIsStepFrames(es, n - 1);
    }
  }

  /** Frame `f` of `render_elements` yields the generators that stop on their `(f + 1)`-th advance. */
  lemma {:induction false} RenderElementsRemoved(es: seq<Gen>, n: nat, f: nat)
    requires !FailsWithin(es, n) && f < n
    ensures RenderElements(es, n).Ok?
    ensures RenderElements(es, n).value.1[f] == FinishedWithin(AfterSteps(es, f), 1)
  {
    assert RenderElements(es, n).Ok? by {
      StepFramesClosedForm(es, n);
      RenderElementsIsStepFrames(es, n);
    }
    RenderElementsPrefix(es, f + 1, n);
    assert !FailsWithin(es, f + 1);
    RenderElementsLast(es, f);
    assert RenderElements(es, n).value.1[..f + 1][f] == RenderElements(es, n).value.1[f];
  }

  /** The last frame of `f + 1` yields what the `(f + 1)`-th pass removes. */
  lemma RenderElementsLast(es: seq<Gen>, f: nat)
    requires !FailsWithin(es, f + 1)
    ensures RenderElements(es, f + 1).Ok?
    ensures RenderElements(es, f + 1).value.1[f] == FinishedWithin(AfterSteps(es, f), 1)
  {
    var l := AfterSteps(es, f);
    assert RenderElements(es, f).Ok? && RenderElements(es, f).value.0 == l by {
      StepFramesClosedForm(es, f);
      RenderElementsIsStepFrames(es, f);
    }
    assert StepAll(l).Ok? by {
      NoFaultAfterSteps(es, f);
      NoFaultPasses(l);
    }
    StepAllAdvancesEach(l);
    var prev := RenderElements(es, f).value.1;
    assert RenderElements(es, f + 1) == Ok((StepAll(l).value.kept, prev + [StepAll(l).value.removed]));
  }

  /** Running longer only appends frames. */
  lemma {:induction false} RenderElementsPrefix(es: seq<Gen>, k: nat, n: nat)
    requires k <= n && RenderElements(es, n).Ok?
    ensures RenderElements(es, k).Ok?
    ensures RenderElements(es, n).value.1[..k] == RenderElements(es, k).value.1
    decreases n - k
  {
    if k < n {
      RenderElementsPrefix(es, k, n - 1);
      var r := RenderElements(es, n - 1).value.1;
      assert RenderElements(es, n).value.1[..k] == r[..k];
    } else {
      assert RenderElements(es, n).value.1[..n] == RenderElements(es, n).value.1;
    }
  }

  /** One frame of `render_elements2`: an in-place pass over each list in turn. */
  function StepLists(lists: seq<seq<Option<Gen>>>): (r: Result<seq<seq<Option<Gen>>>>)
    ensures r.Ok? <==> forall j :: 0 <= j < |lists| ==> StepInPlace(lists[j]).Ok?
    ensures r.Ok? ==> |r.value| == |lists| && forall j :: 0 <= j < |lists| ==> r.value[j] == StepInPlace(lists[j]).value
  {
    if |lists| == 0 then Ok([])
    else
      match StepInPlace(lists[0])
      case Err(e) => Err(e)
      case Ok(first) =>
        match StepLists(lists[1..])
        case Err(e) =>
          var j :| 0 <= j < |lists[1..]| && StepInPlace(lists[1..][j]).Err?;
          assert StepInPlace(lists[j + 1]).Err?;
          Err(e)
        case Ok(rest) =>
          assert forall j :: 0 < j < |lists| ==> lists[j] == lists[1..][j - 1];
          Ok([first] + rest)
  }

  /** `render_elements_once(anim, *element_lists)`. */
  function RenderElementsOnce(lists: seq<seq<Option<Gen>>>): (r: Result<seq<seq<Option<Gen>>>>)
    ensures r.Ok? ==> |r.value| == |lists|
    ensures r.Ok? ==> forall j :: 0 <= j < |lists| ==> |r.value[j]| == |lists[j]|
    ensures r.Ok? ==> forall j, i :: 0 <= j < |lists| && 0 <= i < |lists[j]| ==>
      !SlotFails(lists[j][i]) && r.value[j][i] == StepSlot(lists[j][i])
  {
    StepLists(lists)
  }

  /** `render_elements2(anim, length, *element_lists)` over `n` frames. */
  function RenderElements2(lists: seq<seq<Option<Gen>>>, n: nat): (r: Result<seq<seq<Option<Gen>>>>)
    ensures r.Ok? ==> |r.value| == |lists|
  {
    if n == 0 then Ok(lists)
    else
      match RenderElements2(lists, n - 1)
      case Err(e) => Err(e)
      case Ok(ls) => StepLists(ls)
  }

  /**
   * Each list evolves on its own and keeps its length and indices: after `n`
   * frames slot `i` of list `j` is its generator advanced `n` times, or None
   * once that generator stopped.
   */
  lemma {:induction false} RenderElements2ClosedForm(lists: seq<seq<Option<Gen>>>, n: nat)
    requires forall j, i :: 0 <= j < |lists| && 0 <= i < |lists[j]| && lists[j][i].Some? && lists[j][i].value.ending.Some? ==>
      lists[j][i].value.left >= n
    ensures RenderElements2(lists, n).Ok?
    ensures forall j :: 0 <= j < |lists| ==>
      StepInPlaceFrames(lists[j], n).Ok? && RenderElements2(lists, n).value[j] == StepInPlaceFrames(lists[j], n).value
  {
    forall j | 0 <= j < |lists|
      ensures StepInPlaceFrames(lists[j], n).Ok?
    {
      StepInPlaceClosedForm(lists[j], n);
    }
    if n > 0 {
      RenderElements2ClosedForm(lists, n - 1);
      var ls := RenderElements2(lists, n - 1).value;
      forall j | 0 <= j < |ls|
        ensures StepInPlace(ls[j]).Ok?
      {
        StepInPlaceClosedForm(lists[j], n);
      }
    }
  }
}
