/**
 * The audio compositor of `ia2/audio.py`: the session buffer is a sequence
 * of samples, and a sample is mixed into it by a lead-in ramp followed by a
 * constant wet/dry blend. `fade_in_out` comes from `ia2/wave_table.py`,
 * which is not part of this model, so it is a parameter: a fade that keeps
 * the length of what it fades. `interpolate` is `sin_interpolate` of
 * `ia2/math.py`; its sine easing is not polynomial, so the ramp is a
 * parameter too, constrained by the facts that hold without trigonometry,
 * while the error of `np.linspace` on a negative count is modelled.
 */
module Audio {
  import opened Base

  /** `fade_in_out` keeps the number of samples. */
  ghost predicate IsFade(fade: seq<real> -> seq<real>)
  {
    forall s :: |fade(s)| == |s|
  }

  /**
   * `interpolate(0, w, n)` for `n >= 0`: `n` weights, eased from `sin(-pi/2)`
   * to `sin(pi/2)` and mapped onto `[0, w]`, so the first weight is 0 and,
   * with two or more, the last is `w`.
   */
  ghost predicate IsRamp(ramp: (real, int) -> seq<real>)
  {
    forall w, n :: 0 <= n ==>
      |ramp(w, n)| == n && (1 <= n ==> ramp(w, n)[0] == 0.0) && (2 <= n ==> ramp(w, n)[n - 1] == w)
  }

  /**
   * `interpolate(0, w, n)`: `np.linspace` raises ValueError for a negative
   * number of samples; otherwise the ramp's `n` weights.
   */
  function Interpolate(ramp: (real, int) -> seq<real>, w: real, n: int): (r: Result<seq<real>>)
    requires IsRamp(ramp)
    ensures r.Err? <==> n < 0
    ensures r.Err? ==> r.error == ValueError
    ensures r.Ok? ==> |r.value| == n
    ensures r.Ok? && 1 <= n ==> r.value[0] == 0.0
    ensures r.Ok? && 2 <= n ==> r.value[n - 1] == w
  {
    if n < 0 then Err(ValueError) else Ok(ramp(w, n))
  }

  /** The wet/dry blend `s * w + dry * (1 - w)` of one buffer slot. */
  function Blend(dry: real, s: real, w: real): real
  {
    s * w + dry * (1.0 - w)
  }

  /** Weight 1 replaces the dry value by the sample. */
  lemma BlendFull(dry: real, s: real)
    ensures Blend(dry, s, 1.0) == s
  {
  }

  /** The weight of two blends with weight `w`: `(1 - w)^2` of the dry value is left. */
  function TwiceWeight(w: real): real
  {
    1.0 - (1.0 - w) * (1.0 - w)
  }

  /** Blending the same sample twice with weight `w` is one blend with weight `TwiceWeight(w)`. */
  lemma BlendTwice(dry: real, s: real, w: real)
    ensures Blend(Blend(dry, s, w), s, w) == Blend(dry, s, TwiceWeight(w))
  {
    var v := 1.0 - w;
    calc {
      Blend(Blend(dry, s, w), s, w);
      s * w + (s * w + dry * v) * v;
      s * (w + w * v) + dry * (v * v);
      { assert w + w * v == 1.0 - v * v; }
      s * (1.0 - v * v) + dry * (v * v);
    }
  }

  /**
   * One iteration of a mixing loop,
   * `buf[start + k] = sc[k] * w + buf[start + k] * (1 - w)`, with numpy's
   * indexing: a negative buffer index counts from the end, and an index
   * outside the array raises IndexError.
   */
  function BlendAt(buf: seq<real>, start: int, sc: seq<real>, k: int, w: real): (r: Result<seq<real>>)
    ensures r.Ok? <==> -|sc| <= k < |sc| && -|buf| <= start + k < |buf|
    ensures r.Err? ==> r.error == IndexError
    ensures r.Ok? && 0 <= k && 0 <= start ==> r.value == buf[start + k := Blend(buf[start + k], sc[k], w)]
  {
    match PyGet(sc, k)
    case Err(e) => Err(e)
    case Ok(s) =>
      match PyGet(buf, start + k)
      case Err(e) => Err(e)
      case Ok(dry) => PySet(buf, start + k, Blend(dry, s, w))
  }

  /** `for k in range(lo, hi)`: blend `sc[k]` into `buf[start + k]` with weight `ws[k]`. */
  function MixLoop(buf: seq<real>, start: int, sc: seq<real>, ws: seq<real>, k: int, hi: int): (r: Result<seq<real>>)
    requires hi <= k || (0 <= k && hi <= |ws|)
    ensures r.Ok? ==> |r.value| == |buf|
    ensures r.Err? ==> r.error == IndexError
    decreases hi - k
  {
    if hi <= k then Ok(buf)
    else
      match BlendAt(buf, start, sc, k, ws[k])
      case Err(e) => Err(e)
      case Ok(b) => MixLoop(b, start, sc, ws, k + 1, hi)
  }

  /**
   * From a non-negative start, the loop over `[k, hi)` succeeds exactly when
   * every index it touches exists; it then blends each slot of
   * `[start + k, start + hi)` once, from the slot's original value, and
   * leaves every other slot alone.
   */
  lemma {:induction false} MixLoopResult(buf: seq<real>, start: int, sc: seq<real>, ws: seq<real>, k: int, hi: int)
    requires 0 <= start && 0 <= k <= hi <= |ws|
    ensures var r := MixLoop(buf, start, sc, ws, k, hi);
            (r.Ok? <==> k == hi || (hi <= |sc| && start + hi <= |buf|)) &&
            (r.Err? ==> r.error == IndexError) &&
            (r.Ok? ==> |r.value| == |buf|) &&
            (r.Ok? ==> forall j :: 0 <= j < |buf| ==>
               r.value[j] == if start + k <= j < start + hi then Blend(buf[j], sc[j - start], ws[j - start]) else buf[j])
    decreases hi - k
  {
    if k < hi {
      var step := BlendAt(buf, start, sc, k, ws[k]);
      if step.Ok? {
        var b := step.value;
        MixLoopResult(b, start, sc, ws, k + 1, hi);
        var r := MixLoop(b, start, sc, ws, k + 1, hi);
        if r.Ok? {
          forall j | 0 <= j < |buf|
            ensures r.value[j] == if start + k <= j < start + hi then Blend(buf[j], sc[j - start], ws[j - start]) else buf[j]
          {
            if j != start + k {
              assert b[j] == buf[j];
            }
          }
        }
      }
    }
  }

  /** The constant weights of the body loop. */
  function Flat(w: real, n: int): (ws: seq<real>)
    ensures |ws| == Max(n, 0) && forall i :: 0 <= i < |ws| ==> ws[i] == w
  {
    seq(Max(n, 0), _ => w)
  }

  /** `min(len(sample), int(rate * duration))`: how many samples a mix uses. */
  function TrimmedLength(len: nat, rate: int, duration: real): int
  {
    Min(len, Trunc(rate as real * duration))
  }

  /** `min(2000, n // 2)`: the length of the lead-in ramp (Dafny's `/` floors for a positive divisor, as `//` does). */
  function LeadIn(n: int): (lead: int)
    ensures lead <= 2000 && 2 * lead <= n
    ensures 0 <= n ==> 0 <= lead
    ensures 0 < n ==> lead < n
  {
    Min(2000, n / 2)
  }

  /**
   * `copy_sample`: the first `min(num_samples, int(rate * duration))`
   * samples; a negative count drops that many samples from the end, as a
   * Python slice does.
   */
  function CopySample(sample: seq<real>, numSamples: int, rate: int, duration: real): (r: seq<real>)
    ensures r <= sample
    ensures var n := Min(numSamples, Trunc(rate as real * duration));
            |r| == if 0 <= n then Min(n, |sample|) else Max(0, |sample| + n)
  {
    PySlice(sample, 0, Some(Min(numSamples, Trunc(rate as real * duration))))
  }

  /** Copying a copy changes nothing once the count is not negative. */
  lemma CopySampleIdempotent(sample: seq<real>, numSamples: int, rate: int, duration: real)
    requires 0 <= Min(numSamples, Trunc(rate as real * duration))
    ensures var c := CopySample(sample, numSamples, rate, duration);
            CopySample(c, numSamples, rate, duration) == c
  {
    var c := CopySample(sample, numSamples, rate, duration);
    var d := CopySample(c, numSamples, rate, duration);
    assert d <= c && |d| == |c|;
  }

  /**
   * The two loops of `mix_sample` from slot `start` on: the lead-in blends
   * with the ramp `wi`, the rest of the `n` samples with `weight`.
   */
  function MixAt(buf: seq<real>, start: int, sc: seq<real>, wi: seq<real>, weight: real, n: int): (r: Result<seq<real>>)
    requires LeadIn(n) <= |wi|
    ensures r.Ok? ==> |r.value| == |buf|
  {
    var lead := LeadIn(n);
    match MixLoop(buf, start, sc, wi, 0, lead)
    case Err(e) => Err(e)
    case Ok(b) => MixLoop(b, start, sc, Flat(weight, n), lead, n)
  }

  /** The weight slot `start + k` is blended with: the ramp in the lead-in, `weight` after it. */
  function SlotWeight(wi: seq<real>, weight: real, n: int, k: nat): real
    requires k < LeadIn(n) ==> k < |wi|
  {
    if k < LeadIn(n) then wi[k] else weight
  }

  /**
   * From a non-negative start, the two loops succeed exactly when the `n`
   * samples fit in the buffer after `start`, raise IndexError otherwise,
   * blend slot `start + k` with `wi[k]` in the lead-in and with `weight`
   * after it, and leave every slot outside `[start, start + n)` alone.
   */
  lemma MixAtResult(buf: seq<real>, start: int, sc: seq<real>, wi: seq<real>, weight: real, n: int)
    requires 0 <= start && 0 <= n && |sc| == n && LeadIn(n) <= |wi|
    ensures var r := MixAt(buf, start, sc, wi, weight, n);
            (r.Ok? <==> n == 0 || start + n <= |buf|) &&
            (r.Err? ==> r.error == IndexError) &&
            (r.Ok? ==> forall j :: 0 <= j < |buf| && !(start <= j < start + n) ==> r.value[j] == buf[j]) &&
            (r.Ok? ==> forall k :: 0 <= k < n ==>
               r.value[start + k] == Blend(buf[start + k], sc[k], SlotWeight(wi, weight, n, k)))
  {
    var lead := LeadIn(n);
    MixLoopResult(buf, start, sc, wi, 0, lead);
    var first := MixLoop(buf, start, sc, wi, 0, lead);
    if first.Ok? {
      MixLoopResult(first.value, start, sc, Flat(weight, n), lead, n);
      var r := MixLoop(first.value, start, sc, Flat(weight, n), lead, n);
      if r.Ok? {
        forall k | 0 <= k < n
          ensures r.value[start + k] == Blend(buf[start + k], sc[k], SlotWeight(wi, weight, n, k))
        {
          if k < lead {
            assert r.value[start + k] == first.value[start + k];
          }
        }
      }
    }
    if n == 0 {
      assert first == Ok(buf);
    }
  }

  /** Slot `start + k` of a successful mix, for one `k` in `[0, n)`. */
  lemma MixAtSlot(buf: seq<real>, start: int, sc: seq<real>, wi: seq<real>, weight: real, n: int, k: nat)
    requires 0 <= start && 0 <= n && |sc| == n && LeadIn(n) <= |wi| && start + n <= |buf| && k < n
    ensures var r := MixAt(buf, start, sc, wi, weight, n);
            r.Ok? && r.value[start + k] == Blend(buf[start + k], sc[k], SlotWeight(wi, weight, n, k))
  {
    MixAtResult(buf, start, sc, wi, weight, n);
  }

  /**
   * Mixing the same faded sample twice at the same place is one mix with
   * weight `1 - (1 - w)^2`, where `w` is the weight of that slot: `(1 - w)^2`
   * of what the buffer held there is left.
   */
  lemma MixTwice(buf: seq<real>, start: int, sc: seq<real>, wi: seq<real>, weight: real, n: int)
    requires 0 <= start && 0 <= n && |sc| == n && LeadIn(n) <= |wi| && start + n <= |buf|
    ensures var once := MixAt(buf, start, sc, wi, weight, n);
            once.Ok? &&
            var twice := MixAt(once.value, start, sc, wi, weight, n);
            twice.Ok? &&
            forall k :: 0 <= k < n ==>
              twice.value[start + k] == Blend(buf[start + k], sc[k], TwiceWeight(SlotWeight(wi, weight, n, k)))
  {
    if n == 0 {
      MixAtResult(buf, start, sc, wi, weight, n);
      MixAtResult(MixAt(buf, start, sc, wi, weight, n).value, start, sc, wi, weight, n);
    } else {
      MixAtSlot(buf, start, sc, wi, weight, n, 0);
      var once := MixAt(buf, start, sc, wi, weight, n).value;
      MixAtSlot(once, start, sc, wi, weight, n, 0);
      var twice := MixAt(once, start, sc, wi, weight, n).value;
      forall k | 0 <= k < n
        ensures twice[start + k] == Blend(buf[start + k], sc[k], TwiceWeight(SlotWeight(wi, weight, n, k)))
      {
        var a, w := start + k, SlotWeight(wi, weight, n, k);
        MixAtSlot(buf, start, sc, wi, weight, n, k);
        MixAtSlot(once, start, sc, wi, weight, n, k);
        BlendTwice(buf[a], sc[k], w);
        calc {
          twice[a];
          Blend(once[a], sc[k], w);
          Blend(Blend(buf[a], sc[k], w), sc[k], w);
          Blend(buf[a], sc[k], TwiceWeight(w));
        }
      }
    }
  }

  /** The samples `mix_sample` blends in: the trimmed sample, faded. */
  function Trimmed(sample: seq<real>, rate: int, duration: real, fade: seq<real> -> seq<real>): (sc: seq<real>)
    ensures IsFade(fade) && 0 <= TrimmedLength(|sample|, rate, duration) ==> |sc| == TrimmedLength(|sample|, rate, duration)
  {
    fade(PySlice(sample, 0, Some(TrimmedLength(|sample|, rate, duration))))
  }

  /**
   * `mix_sample`: trim the sample, fade it, blend the lead-in with the ramp
   * `interpolate(0, weight, lead_in)` and the rest with `weight`, from slot
   * `int(time * rate)` of the buffer on. A negative trimmed count gives a
   * negative lead-in, on which `interpolate` raises ValueError.
   */
  function MixSample(buf: seq<real>, sample: seq<real>, time: real, weight: real, duration: real, rate: int,
                     fade: seq<real> -> seq<real>, ramp: (real, int) -> seq<real>): (r: Result<seq<real>>)
    requires IsRamp(ramp)
    ensures r.Ok? ==> |r.value| == |buf|
    ensures TrimmedLength(|sample|, rate, duration) < 0 ==> r == Err(ValueError)
  {
    var n := TrimmedLength(|sample|, rate, duration);
    match Interpolate(ramp, weight, LeadIn(n))
    case Err(e) => Err(e)
    case Ok(wi) => MixAt(buf, Trunc(time * rate as real), Trimmed(sample, rate, duration, fade), wi, weight, n)
  }

  /**
   * From a non-negative start, `mix_sample` succeeds exactly when the
   * trimmed sample is empty or fits in the buffer after `start`; past the
   * end numpy raises IndexError, and a negative trimmed count (a negative
   * `rate` or `duration`) makes `interpolate` raise ValueError. With nothing
   * to mix the buffer is unchanged.
   */
  lemma MixSampleSucceeds(buf: seq<real>, sample: seq<real>, time: real, weight: real, duration: real, rate: int,
                          fade: seq<real> -> seq<real>, ramp: (real, int) -> seq<real>)
    requires IsFade(fade) && IsRamp(ramp)
    requires 0 <= Trunc(time * rate as real)
    ensures var n := TrimmedLength(|sample|, rate, duration);
            var r := MixSample(buf, sample, time, weight, duration, rate, fade, ramp);
            (r.Ok? <==> n == 0 || (0 < n && Trunc(time * rate as real) + n <= |buf|)) &&
            (r.Err? ==> r.error == if n < 0 then ValueError else IndexError) &&
            (n == 0 ==> r == Ok(buf))
  {
    var n := TrimmedLength(|sample|, rate, duration);
    if 0 <= n {
      var wi := ramp(weight, LeadIn(n));
      assert Interpolate(ramp, weight, LeadIn(n)) == Ok(wi);
      MixAtResult(buf, Trunc(time * rate as real), Trimmed(sample, rate, duration, fade), wi, weight, n);
      if n == 0 {
        var first := MixLoop(buf, Trunc(time * rate as real), Trimmed(sample, rate, duration, fade), wi, 0, 0);
        assert first == Ok(buf);
      }
    }
  }

  /**
   * When the trimmed sample fits in the buffer, `mix_sample` blends slot
   * `start + k` with the ramp weight `k` for `k < lead_in`, with `weight`
   * for `lead_in <= k < n`, and changes no slot outside `[start, start + n)`.
   */
  lemma MixSampleEffect(buf: seq<real>, sample: seq<real>, time: real, weight: real, duration: real, rate: int,
                        fade: seq<real> -> seq<real>, ramp: (real, int) -> seq<real>)
    requires IsFade(fade) && IsRamp(ramp)
    requires 0 <= Trunc(time * rate as real)
    requires 0 <= TrimmedLength(|sample|, rate, duration)
    requires Trunc(time * rate as real) + TrimmedLength(|sample|, rate, duration) <= |buf|
    ensures var n := TrimmedLength(|sample|, rate, duration);
            var start := Trunc(time * rate as real);
            var sc := fade(sample[..n]);
            var lead := LeadIn(n);
            var wi := ramp(weight, lead);
            var r := MixSample(buf, sample, time, weight, duration, rate, fade, ramp);
            r.Ok? && |r.value| == |buf| && |sc| == n && |wi| == lead &&
            (forall j :: 0 <= j < |buf| && !(start <= j < start + n) ==> r.value[j] == buf[j]) &&
            (forall k :: 0 <= k < n ==> r.value[start + k] == Blend(buf[start + k], sc[k], SlotWeight(wi, weight, n, k)))
  {
    var n := TrimmedLength(|sample|, rate, duration);
    var start := Trunc(time * rate as real);
    var sc := fade(sample[..n]);
    var wi := ramp(weight, LeadIn(n));
    assert PySlice(sample, 0, Some(n)) == sample[..n];
    assert Trimmed(sample, rate, duration, fade) == sc;
    assert Interpolate(ramp, weight, LeadIn(n)) == Ok(wi);
    assert MixSample(buf, sample, time, weight, duration, rate, fade, ramp) == MixAt(buf, start, sc, wi, weight, n);
    MixAtResult(buf, start, sc, wi, weight, n);
  }

  /** In the body of the mix, weight 1 replaces the buffer by the faded sample. */
  lemma WeightOneReplaces(buf: seq<real>, sample: seq<real>, time: real, duration: real, rate: int,
                          fade: seq<real> -> seq<real>, ramp: (real, int) -> seq<real>)
    requires IsFade(fade) && IsRamp(ramp)
    requires 0 <= Trunc(time * rate as real)
    requires 0 <= TrimmedLength(|sample|, rate, duration)
    requires Trunc(time * rate as real) + TrimmedLength(|sample|, rate, duration) <= |buf|
    ensures var n := TrimmedLength(|sample|, rate, duration);
            var start := Trunc(time * rate as real);
            var r := MixSample(buf, sample, time, 1.0, duration, rate, fade, ramp);
            r.Ok? && forall k :: LeadIn(n) <= k < n ==> r.value[start + k] == fade(sample[..n])[k]
  {
    MixSampleEffect(buf, sample, time, 1.0, duration, rate, fade, ramp);
  }

  // ---------------------------------------------------------------------
  // mix_sample2: the same mix written with slices
  // ---------------------------------------------------------------------

  /**
   * `write_lead_in`: the lead-in loop of `mix_sample` for a caller-given
   * sample count; it returns the buffer and the lead-in length it used.
   * A negative count makes `interpolate` raise ValueError before the loop.
   */
  function WriteLeadIn(buf: seq<real>, time: real, sc: seq<real>, num: int, weight: real, rate: int,
                       ramp: (real, int) -> seq<real>): (r: Result<(seq<real>, int)>)
    requires IsRamp(ramp)
    ensures r.Ok? ==> |r.value.0| == |buf| && r.value.1 == LeadIn(num)
    ensures num < 0 ==> r == Err(ValueError)
    ensures r.Err? && 0 <= num ==> r.error == IndexError
  {
    var lead := LeadIn(num);
    match Interpolate(ramp, weight, lead)
    case Err(e) => Err(e)
    case Ok(wi) =>
      match MixLoop(buf, Trunc(time * rate as real), sc, wi, 0, lead)
      case Err(e) => Err(e)
      case Ok(b) => Ok((b, lead))
  }

  /**
   * numpy's `a * w + b * (1 - w)` on two one-dimensional arrays: equal
   * lengths combine slot by slot, a length-1 array is stretched to the
   * other's length, and any other pair raises ValueError.
   */
  function Broadcast(a: seq<real>, b: seq<real>, w: real): (r: Result<seq<real>>)
    ensures r.Ok? <==> |a| == |b| || |a| == 1 || |b| == 1
    ensures r.Err? ==> r.error == ValueError
    ensures r.Ok? ==> |r.value| == if |a| == 1 then |b| else |a|
    ensures r.Ok? ==> forall i {:trigger r.value[i]} :: 0 <= i < |r.value| ==>
              r.value[i] == Blend(b[if |b| == 1 then 0 else i], a[if |a| == 1 then 0 else i], w)
    ensures |a| == |b| ==> r.Ok? && forall i {:trigger r.value[i]} :: 0 <= i < |a| ==> r.value[i] == Blend(b[i], a[i], w)
  {
    if |a| == |b| then Ok(seq(|a|, i requires 0 <= i < |a| => Blend(b[i], a[i], w)))
    else if |a| == 1 then Ok(seq(|b|, i requires 0 <= i < |b| => Blend(b[i], a[0], w)))
    else if |b| == 1 then Ok(seq(|a|, i requires 0 <= i < |a| => Blend(b[0], a[i], w)))
    else Err(ValueError)
  }

  /**
   * numpy's `buf[lo:hi] = v`: the slice bounds are clamped as for lists; `v`
   * must have the slice's length or length 1 (then it fills the slice),
   * otherwise ValueError.
   */
  function SliceAssign(buf: seq<real>, lo: int, hi: int, v: seq<real>): (r: Result<seq<real>>)
    ensures var a := SliceBound(|buf|, lo);
            var n := if a <= SliceBound(|buf|, hi) then SliceBound(|buf|, hi) - a else 0;
            (r.Ok? <==> |v| == n || |v| == 1) &&
            (r.Err? ==> r.error == ValueError) &&
            (r.Ok? ==> |r.value| == |buf|) &&
            (r.Ok? ==> forall j {:trigger r.value[j]} :: 0 <= j < |buf| && !(a <= j < a + n) ==> r.value[j] == buf[j]) &&
            (r.Ok? ==> forall j {:trigger r.value[j]} :: a <= j < a + n ==> r.value[j] == v[if |v| == n then j - a else 0])
  {
    var a := SliceBound(|buf|, lo);
    var b := SliceBound(|buf|, hi);
    var n := if a <= b then b - a else 0;
    if |v| == n || |v| == 1 then
      Ok(seq(|buf|, j requires 0 <= j < |buf| =>
        if a <= j < a + n then v[if |v| == n then j - a else 0] else buf[j]))
    else Err(ValueError)
  }

  /**
   * `write_sample`: blend `sc[lead_in:num]` into
   * `buf[lead_in + start : num + start]` in one slice assignment.
   */
  function WriteSample(buf: seq<real>, time: real, sc: seq<real>, num: int, weight: real, lead: int, rate: int): (r: Result<seq<real>>)
    ensures r.Ok? ==> |r.value| == |buf|
    ensures r.Err? ==> r.error == ValueError
  {
    WriteSampleAt(buf, Trunc(time * rate as real), sc, num, weight, lead)
  }

  /** The slice assignment of `write_sample` from slot `start` on. */
  function WriteSampleAt(buf: seq<real>, start: int, sc: seq<real>, num: int, weight: real, lead: int): (r: Result<seq<real>>)
    ensures r.Ok? ==> |r.value| == |buf|
    ensures r.Err? ==> r.error == ValueError
  {
    match Broadcast(PySlice(sc, lead, Some(num)), PySlice(buf, lead + start, Some(num + start)), weight)
    case Err(e) => Err(e)
    case Ok(v) => SliceAssign(buf, lead + start, num + start, v)
  }

  /**
   * In range, `write_sample` blends `sc[k]` into slot `start + k` with
   * `weight` for every `k` in `[lead, num)` and leaves the other slots alone.
   */
  lemma WriteSampleAtResult(buf: seq<real>, start: int, sc: seq<real>, num: int, weight: real, lead: int)
    requires 0 <= start && 0 <= lead <= num == |sc| && start + num <= |buf|
    ensures var r := WriteSampleAt(buf, start, sc, num, weight, lead);
            r.Ok? && |r.value| == |buf| &&
            forall j :: 0 <= j < |buf| ==>
              r.value[j] == if start + lead <= j < start + num then Blend(buf[j], sc[j - start], weight) else buf[j]
  {
    var a := PySlice(sc, lead, Some(num));
    var b := PySlice(buf, lead + start, Some(num + start));
    assert a == sc[lead..num];
    assert b == buf[lead + start..num + start];
    var v := Broadcast(a, b, weight).value;
    var r := SliceAssign(buf, lead + start, num + start, v);
    assert WriteSampleAt(buf, start, sc, num, weight, lead) == r;
    forall j | 0 <= j < |buf|
      ensures r.value[j] == if start + lead <= j < start + num then Blend(buf[j], sc[j - start], weight) else buf[j]
    {
      if lead + start <= j < num + start {
        var i := j - (lead + start);
        assert r.value[j] == v[i];
        assert v[i] == Blend(b[i], a[i], weight);
        assert b[i] == buf[j] && a[i] == sc[j - start];
      }
    }
  }

  /**
   * In range, the slice assignment of `write_sample` is the body loop of
   * `mix_sample`: both blend `sc[k]` into slot `start + k` with `weight`
   * for every `k` in `[lead, num)`.
   */
  lemma WriteSampleIsBodyLoop(buf: seq<real>, start: int, sc: seq<real>, num: int, weight: real, lead: int)
    requires 0 <= start && 0 <= lead <= num == |sc| && start + num <= |buf|
    ensures WriteSampleAt(buf, start, sc, num, weight, lead) == MixLoop(buf, start, sc, Flat(weight, num), lead, num)
  {
    var ws := Flat(weight, num);
    var rw := WriteSampleAt(buf, start, sc, num, weight, lead);
    var rm := MixLoop(buf, start, sc, ws, lead, num);
    WriteSampleAtResult(buf, start, sc, num, weight, lead);
    MixLoopResult(buf, start, sc, ws, lead, num);
    assert rw.Ok? && rm.Ok?;
    var w, m := rw.value, rm.value;
    forall j | 0 <= j < |buf|
      ensures w[j] == m[j]
    {
      if start + lead <= j < start + num {
        assert ws[j - start] == weight;
      }
    }
    assert w == m;
  }

  /**
   * `write_sample` handed a copy shorter than `num`: the slice of the copy
   * has `|sc| - lead` samples and the buffer slice `num - lead`. numpy
   * accepts that only when the copy is not short at all or its slice holds
   * exactly one sample, which is then smeared over the whole buffer slice;
   * in every other case it raises ValueError.
   */
  lemma WriteSampleAtOutcome(buf: seq<real>, start: int, sc: seq<real>, num: int, weight: real, lead: int)
    requires 0 <= start && 0 <= lead <= |sc| <= num && start + num <= |buf|
    ensures var r := WriteSampleAt(buf, start, sc, num, weight, lead);
            (r.Ok? <==> |sc| == num || |sc| - lead == 1) &&
            (r.Err? ==> r.error == ValueError) &&
            (r.Ok? ==> |r.value| == |buf|) &&
            (r.Ok? ==> forall j :: 0 <= j < |buf| ==>
               r.value[j] == if start + lead <= j < start + num
                             then Blend(buf[j], sc[if |sc| == num then j - start else lead], weight)
                             else buf[j])
  {
    if |sc| == num {
      WriteSampleAtResult(buf, start, sc, num, weight, lead);
    } else if |sc| - lead == 1 {
      WriteSampleSmears(buf, start, sc, num, weight, lead);
    } else {
      WriteSampleShortFails(buf, start, sc, num, weight, lead);
    }
  }

  /** A short copy whose slice holds one sample: that sample is blended into every slot of the buffer slice. */
  lemma WriteSampleSmears(buf: seq<real>, start: int, sc: seq<real>, num: int, weight: real, lead: int)
    requires 0 <= start && 0 <= lead && |sc| - lead == 1 && |sc| < num && start + num <= |buf|
    ensures var r := WriteSampleAt(buf, start, sc, num, weight, lead);
            r.Ok? && |r.value| == |buf| &&
            forall j {:trigger r.value[j]} :: start + lead <= j < start + num ==> r.value[j] == Blend(buf[j], sc[lead], weight)
    ensures var r := WriteSampleAt(buf, start, sc, num, weight, lead);
            r.Ok? && forall j {:trigger r.value[j]} :: 0 <= j < |buf| && !(start + lead <= j < start + num) ==> r.value[j] == buf[j]
  {
    WriteSampleSmearsUnfold(buf, start, sc, num, weight, lead);
    SmearAssign(buf, lead + start, num + start, sc[lead], weight);
  }

  /** Assigning the smeared slice blends `x` into exactly the slots of `[lo, hi)`. */
  lemma SmearAssign(buf: seq<real>, lo: int, hi: int, x: real, weight: real)
    requires 0 <= lo <= hi <= |buf|
    ensures var r := SliceAssign(buf, lo, hi, SmearValues(buf, lo, hi, x, weight));
            r.Ok? && |r.value| == |buf| &&
            forall j {:trigger r.value[j]} :: 0 <= j < |buf| ==> r.value[j] == if lo <= j < hi then Blend(buf[j], x, weight) else buf[j]
  {
    var v := SmearValues(buf, lo, hi, x, weight);
    SliceAssignInRange(buf, lo, hi, v);
    var r := SliceAssign(buf, lo, hi, v).value;
    forall j | 0 <= j < |buf|
      ensures r[j] == if lo <= j < hi then Blend(buf[j], x, weight) else buf[j]
    {
      if lo <= j < hi {
        assert r[j] == v[j - lo];
      }
    }
  }

  /** `buf[lo:hi]` with `x` blended into every slot. */
  function SmearValues(buf: seq<real>, lo: int, hi: int, x: real, weight: real): (v: seq<real>)
    requires 0 <= lo <= hi <= |buf|
    ensures |v| == hi - lo && forall i :: 0 <= i < hi - lo ==> v[i] == Blend(buf[lo + i], x, weight)
  {
    seq(hi - lo, i requires 0 <= i < hi - lo => Blend(buf[lo + i], x, weight))
  }

  /** With one sample in the copy's slice, `write_sample` assigns the smeared slice. */
  lemma WriteSampleSmearsUnfold(buf: seq<real>, start: int, sc: seq<real>, num: int, weight: real, lead: int)
    requires 0 <= start && 0 <= lead && |sc| - lead == 1 && |sc| < num && start + num <= |buf|
    ensures WriteSampleAt(buf, start, sc, num, weight, lead)
         == SliceAssign(buf, lead + start, num + start, SmearValues(buf, lead + start, num + start, sc[lead], weight))
  {
    var lo, hi := lead + start, num + start;
    assert PySlice(sc, lead, Some(num)) == [sc[lead]];
    var b := PySlice(buf, lo, Some(hi));
    assert b == buf[lo..hi];
    BroadcastOne(sc[lead], b, weight);
    assert Broadcast([sc[lead]], b, weight).value == SmearValues(buf, lo, hi, sc[lead], weight);
  }

  /** A length-1 array is stretched over the other operand: each slot is blended with the one sample. */
  lemma BroadcastOne(x: real, b: seq<real>, w: real)
    ensures var r := Broadcast([x], b, w);
            r.Ok? && |r.value| == |b| && forall i :: 0 <= i < |b| ==> r.value[i] == Blend(b[i], x, w)
  {
  }

  /** An in-range slice assignment of a value of the slice's length replaces exactly the slice. */
  lemma SliceAssignInRange(buf: seq<real>, lo: int, hi: int, v: seq<real>)
    requires 0 <= lo <= hi <= |buf| && |v| == hi - lo
    ensures var r := SliceAssign(buf, lo, hi, v);
            r.Ok? && |r.value| == |buf| &&
            forall j {:trigger r.value[j]} :: 0 <= j < |buf| ==> r.value[j] == if lo <= j < hi then v[j - lo] else buf[j]
  {
  }

  /** A short copy whose slice does not hold exactly one sample: numpy raises ValueError. */
  lemma WriteSampleShortFails(buf: seq<real>, start: int, sc: seq<real>, num: int, weight: real, lead: int)
    requires 0 <= start && 0 <= lead <= |sc| < num && |sc| - lead != 1 && start + num <= |buf|
    ensures WriteSampleAt(buf, start, sc, num, weight, lead) == Err(ValueError)
  {
    var a := PySlice(sc, lead, Some(num));
    var b := PySlice(buf, lead + start, Some(num + start));
    assert |a| == |sc| - lead;
    assert |b| == num - lead;
    if |b| == 1 {
      var v := Broadcast(a, b, weight).value;
      assert |v| == |a|;
      assert WriteSampleAt(buf, start, sc, num, weight, lead) == SliceAssign(buf, lead + start, num + start, v);
    }
  }

  /**
   * `write_lead_in` followed by `write_sample` for `num` samples: the lead-in
   * loop can raise IndexError, the slice assignment ValueError.
   */
  function WriteLeadInAndSample(buf: seq<real>, time: real, sc: seq<real>, num: int, weight: real, rate: int,
                                ramp: (real, int) -> seq<real>): (r: Result<seq<real>>)
    requires IsRamp(ramp)
    ensures r.Ok? ==> |r.value| == |buf|
    ensures r.Err? ==> r.error == IndexError || r.error == ValueError
  {
    match WriteLeadIn(buf, time, sc, num, weight, rate, ramp)
    case Err(e) => Err(e)
    case Ok(p) => WriteSample(p.0, time, sc, num, weight, p.1, rate)
  }

  /** `seq.current_frame / seq.fps`: the time of the current frame, for a non-zero fps. */
  function FrameTime(currentFrame: int, fps: int): real
    requires fps != 0
  {
    currentFrame as real / fps as real
  }

  /**
   * `mix_sample2` as written: the time is `current_frame / fps`, which
   * raises ZeroDivisionError for a zero fps; the rest is
   * `MixSample2AsWrittenAt` at that time.
   */
  function MixSample2AsWritten(buf: seq<real>, sample: seq<real>, currentFrame: int, fps: int, weight: real,
                               duration: real, rate: int, fade: seq<real> -> seq<real>,
                               ramp: (real, int) -> seq<real>): (r: Result<seq<real>>)
    requires IsRamp(ramp)
    ensures r == Err(ZeroDivisionError) <==> fps == 0
    ensures r.Ok? ==> |r.value| == |buf|
  {
    if fps == 0 then Err(ZeroDivisionError)
    else MixSample2AsWrittenAt(buf, sample, FrameTime(currentFrame, fps), weight, duration, rate, fade, ramp)
  }

  /**
   * The body of `mix_sample2` as written, once the time is known: the
   * untrimmed `len(sample)` is passed on to `write_lead_in` and
   * `write_sample`, although `sample_copy` holds only the trimmed samples.
   */
  function MixSample2AsWrittenAt(buf: seq<real>, sample: seq<real>, time: real, weight: real,
                                 duration: real, rate: int, fade: seq<real> -> seq<real>,
                                 ramp: (real, int) -> seq<real>): (r: Result<seq<real>>)
    requires IsRamp(ramp)
    ensures r.Ok? ==> |r.value| == |buf|
    ensures r.Err? ==> r.error == IndexError || r.error == ValueError
  {
    WriteLeadInAndSample(buf, time, fade(CopySample(sample, |sample|, rate, duration)), |sample|, weight, rate, ramp)
  }

  /** `mix_sample2` passing on the trimmed sample count, as `mix_sample` uses. */
  function MixSample2(buf: seq<real>, sample: seq<real>, currentFrame: int, fps: int, weight: real,
                      duration: real, rate: int, fade: seq<real> -> seq<real>,
                      ramp: (real, int) -> seq<real>): (r: Result<seq<real>>)
    requires IsRamp(ramp)
    ensures r == Err(ZeroDivisionError) <==> fps == 0
    ensures r.Ok? ==> |r.value| == |buf|
  {
    if fps == 0 then Err(ZeroDivisionError)
    else MixSample2At(buf, sample, FrameTime(currentFrame, fps), weight, duration, rate, fade, ramp)
  }

  /** The body of the corrected `mix_sample2`, once the time is known. */
  function MixSample2At(buf: seq<real>, sample: seq<real>, time: real, weight: real,
                        duration: real, rate: int, fade: seq<real> -> seq<real>,
                        ramp: (real, int) -> seq<real>): (r: Result<seq<real>>)
    requires IsRamp(ramp)
    ensures r.Ok? ==> |r.value| == |buf|
    ensures r.Err? ==> r.error == IndexError || r.error == ValueError
  {
    WriteLeadInAndSample(buf, time, fade(CopySample(sample, |sample|, rate, duration)),
                         TrimmedLength(|sample|, rate, duration), weight, rate, ramp)
  }

  /** When the sample is no longer than `int(rate * duration)`, the as-written and corrected `mix_sample2` agree. */
  lemma MixSample2AgreesWhenShort(buf: seq<real>, sample: seq<real>, currentFrame: int, fps: int, weight: real,
                                  duration: real, rate: int, fade: seq<real> -> seq<real>,
                                  ramp: (real, int) -> seq<real>)
    requires IsRamp(ramp)
    requires |sample| <= Trunc(rate as real * duration)
    ensures MixSample2AsWritten(buf, sample, currentFrame, fps, weight, duration, rate, fade, ramp)
         == MixSample2(buf, sample, currentFrame, fps, weight, duration, rate, fade, ramp)
  {
    assert TrimmedLength(|sample|, rate, duration) == |sample|;
  }

  /** The lead-in loop over `LeadIn(num)` slots with weights `wi`, then the slice write of `write_sample`. */
  function LeadThenWrite(buf: seq<real>, start: int, sc: seq<real>, wi: seq<real>, num: int, weight: real): (r: Result<seq<real>>)
    requires 0 <= num && |wi| == LeadIn(num)
    ensures r.Ok? ==> |r.value| == |buf|
    ensures r.Err? ==> r.error == IndexError || r.error == ValueError
  {
    match MixLoop(buf, start, sc, wi, 0, LeadIn(num))
    case Err(e) => Err(e)
    case Ok(b) => WriteSampleAt(b, start, sc, num, weight, LeadIn(num))
  }

  /**
   * The lead-in loop followed by the slice write, for a copy of at most
   * `num` samples that all fit after `start`: the loop raises IndexError
   * exactly when the lead-in is longer than the copy, and the slice write
   * then behaves as `WriteSampleAtOutcome` says.
   */
  lemma LeadThenWriteOutcome(buf: seq<real>, start: int, sc: seq<real>, wi: seq<real>, num: int, weight: real)
    requires 0 <= start && |sc| <= num && start + num <= |buf| && |wi| == LeadIn(num)
    ensures var lead := LeadIn(num);
            var r := LeadThenWrite(buf, start, sc, wi, num, weight);
            (r == Err(IndexError) <==> |sc| < lead) &&
            (r == Err(ValueError) <==> lead <= |sc| && |sc| != num && |sc| - lead != 1) &&
            (r.Ok? <==> lead <= |sc| && (|sc| == num || |sc| - lead == 1)) &&
            (r.Ok? ==> forall j :: 0 <= j < |buf| ==>
               r.value[j] == if start <= j < start + lead then Blend(buf[j], sc[j - start], wi[j - start])
                             else if start + lead <= j < start + num
                             then Blend(buf[j], sc[if |sc| == num then j - start else lead], weight)
                             else buf[j])
  {
    var lead := LeadIn(num);
    MixLoopResult(buf, start, sc, wi, 0, lead);
    var first := MixLoop(buf, start, sc, wi, 0, lead);
    if first.Ok? {
      var b := first.value;
      WriteSampleAtOutcome(b, start, sc, num, weight, lead);
      var r := WriteSampleAt(b, start, sc, num, weight, lead);
      if r.Ok? {
        forall j | 0 <= j < |buf|
          ensures r.value[j] == if start <= j < start + lead then Blend(buf[j], sc[j - start], wi[j - start])
                                else if start + lead <= j < start + num
                                then Blend(buf[j], sc[if |sc| == num then j - start else lead], weight)
                                else buf[j]
        {
          if !(start + lead <= j < start + num) {
            assert r.value[j] == b[j];
          }
        }
      }
    }
  }

  /**
   * `mix_sample2` as written, in range: at any time whose start slot is
   * not negative, with a trimmed count `t` that is not negative and room
   * for all `L` untrimmed samples after `start`. The lead-in covers
   * `LeadIn(L)` slots, so the loop reads past the `t`-sample copy and
   * raises IndexError exactly when `t < lead`. After it the slice write
   * succeeds only when nothing was trimmed or one copied sample is left
   * after the lead-in; every other case raises ValueError.
   */
  lemma MixSample2AsWrittenOutcome(buf: seq<real>, sample: seq<real>, time: real, weight: real,
                                   duration: real, rate: int, fade: seq<real> -> seq<real>,
                                   ramp: (real, int) -> seq<real>)
    requires IsFade(fade) && IsRamp(ramp)
    requires 0 <= Trunc(time * rate as real)
    requires 0 <= TrimmedLength(|sample|, rate, duration)
    requires Trunc(time * rate as real) + |sample| <= |buf|
    ensures var t := TrimmedLength(|sample|, rate, duration);
            var lead := LeadIn(|sample|);
            var r := MixSample2AsWrittenAt(buf, sample, time, weight, duration, rate, fade, ramp);
            (r == Err(IndexError) <==> t < lead) &&
            (r == Err(ValueError) <==> lead <= t && t != |sample| && t - lead != 1) &&
            (r.Ok? <==> lead <= t && (t == |sample| || t - lead == 1))
  {
    var t := TrimmedLength(|sample|, rate, duration);
    var lead := LeadIn(|sample|);
    assert |fade(sample[..t])| == t && |ramp(weight, lead)| == lead;
    MixSample2AsWrittenUnfold(buf, sample, time, weight, duration, rate, fade, ramp);
    LeadThenWriteOutcome(buf, Trunc(time * rate as real), fade(sample[..t]), ramp(weight, lead), |sample|, weight);
  }

  /**
   * `mix_sample2` as written is the lead-in loop then the slice write on
   * the untrimmed count `L`, over the `t`-sample copy; what that writes is
   * stated by `LeadThenWriteOutcome`.
   */
  lemma MixSample2AsWrittenUnfold(buf: seq<real>, sample: seq<real>, time: real, weight: real,
                                  duration: real, rate: int, fade: seq<real> -> seq<real>,
                                  ramp: (real, int) -> seq<real>)
    requires IsRamp(ramp)
    requires 0 <= TrimmedLength(|sample|, rate, duration)
    ensures var sc := fade(sample[..TrimmedLength(|sample|, rate, duration)]);
            MixSample2AsWrittenAt(buf, sample, time, weight, duration, rate, fade, ramp)
              == LeadThenWrite(buf, Trunc(time * rate as real), sc, ramp(weight, LeadIn(|sample|)), |sample|, weight)
  {
    CopyIsTrimmedPrefix(sample, rate, duration);
    WritersUnfold(buf, time, fade(sample[..TrimmedLength(|sample|, rate, duration)]), |sample|, weight, rate, ramp);
  }

  /** With a trimmed count that is not negative, `copy_sample` on the whole sample is its first `t` samples. */
  lemma CopyIsTrimmedPrefix(sample: seq<real>, rate: int, duration: real)
    requires 0 <= TrimmedLength(|sample|, rate, duration)
    ensures CopySample(sample, |sample|, rate, duration) == sample[..TrimmedLength(|sample|, rate, duration)]
  {
  }

  /** For a count that is not negative, `write_lead_in` then `write_sample` is the lead-in loop then the slice write. */
  lemma WritersUnfold(buf: seq<real>, time: real, sc: seq<real>, num: int, weight: real, rate: int,
                      ramp: (real, int) -> seq<real>)
    requires IsRamp(ramp) && 0 <= num
    ensures WriteLeadInAndSample(buf, time, sc, num, weight, rate, ramp)
         == LeadThenWrite(buf, Trunc(time * rate as real), sc, ramp(weight, LeadIn(num)), num, weight)
  {
    assert Interpolate(ramp, weight, LeadIn(num)) == Ok(ramp(weight, LeadIn(num)));
  }

  /**
   * In range, `write_lead_in` followed by `write_sample` on the trimmed
   * count is `mix_sample`: the slice assignment does what the body loop does.
   */
  lemma WritersAreMixSample(buf: seq<real>, sample: seq<real>, time: real, weight: real, duration: real, rate: int,
                            fade: seq<real> -> seq<real>, ramp: (real, int) -> seq<real>)
    requires IsFade(fade) && IsRamp(ramp)
    requires 0 <= Trunc(time * rate as real)
    requires 0 <= TrimmedLength(|sample|, rate, duration)
    requires Trunc(time * rate as real) + TrimmedLength(|sample|, rate, duration) <= |buf|
    ensures var n := TrimmedLength(|sample|, rate, duration);
            WriteLeadInAndSample(buf, time, Trimmed(sample, rate, duration, fade), n, weight, rate, ramp)
              == MixSample(buf, sample, time, weight, duration, rate, fade, ramp)
  {
    var start := Trunc(time * rate as real);
    var n := TrimmedLength(|sample|, rate, duration);
    var sc := Trimmed(sample, rate, duration, fade);
    var lead := LeadIn(n);
    var wi := ramp(weight, lead);
    assert |sc| == n && 0 <= lead <= n && |wi| == lead;
    MixLoopResult(buf, start, sc, wi, 0, lead);
    var first := MixLoop(buf, start, sc, wi, 0, lead);
    var b := first.value;
    assert WriteLeadIn(buf, time, sc, n, weight, rate, ramp) == Ok((b, lead));
    WriteSampleIsBodyLoop(b, start, sc, n, weight, lead);
  }

  /**
   * In range, the corrected `mix_sample2` is `mix_sample` at the same time,
   * `current_frame / fps`.
   */
  lemma MixSample2IsMixSample(buf: seq<real>, sample: seq<real>, time: real, weight: real,
                              duration: real, rate: int, fade: seq<real> -> seq<real>,
                              ramp: (real, int) -> seq<real>)
    requires IsFade(fade) && IsRamp(ramp)
    requires 0 <= Trunc(time * rate as real)
    requires 0 <= TrimmedLength(|sample|, rate, duration)
    requires Trunc(time * rate as real) + TrimmedLength(|sample|, rate, duration) <= |buf|
    ensures MixSample2At(buf, sample, time, weight, duration, rate, fade, ramp)
         == MixSample(buf, sample, time, weight, duration, rate, fade, ramp)
  {
    assert fade(CopySample(sample, |sample|, rate, duration)) == Trimmed(sample, rate, duration, fade);
    WritersAreMixSample(buf, sample, time, weight, duration, rate, fade, ramp);
  }

  /**
   * Outside the buffer the two disagree on the error: four samples mixed from
   * slot 0 into a three-slot buffer make `mix_sample`'s body loop raise
   * IndexError at slot 3, while the corrected `mix_sample2` broadcasts the two
   * body samples against the clamped one-slot slice and the slice assignment
   * raises ValueError.
   */
  lemma MixSamplePastEndDiffers()
    ensures IsFade(NoFade) && IsRamp(LinearRamp)
    ensures MixSample([0.0, 0.0, 0.0], [1.0, 1.0, 1.0, 1.0], 0.0, 0.5, 4.0, 1, NoFade, LinearRamp) == Err(IndexError)
    ensures MixSample2At([0.0, 0.0, 0.0], [1.0, 1.0, 1.0, 1.0], 0.0, 0.5, 4.0, 1, NoFade, LinearRamp) == Err(ValueError)
  {
    LinearRampIsRamp();
    var buf, sample := [0.0, 0.0, 0.0], [1.0, 1.0, 1.0, 1.0];
    assert Trunc(0.0 * 1 as real) == 0;
    assert Trunc(1 as real * 4.0) == 4;
    MixSampleSucceeds(buf, sample, 0.0, 0.5, 4.0, 1, NoFade, LinearRamp);
    CopyIsTrimmedPrefix(sample, 1, 4.0);
    assert sample[..4] == sample;
    WritersUnfold(buf, 0.0, sample, 4, 0.5, 1, LinearRamp);
    var wi := LinearRamp(0.5, 2);
    MixLoopResult(buf, 0, sample, wi, 0, 2);
    var b := MixLoop(buf, 0, sample, wi, 0, 2).value;
    assert PySlice(sample, 2, Some(4)) == [1.0, 1.0];
    assert PySlice(b, 2, Some(4)) == [b[2]];
    assert |Broadcast([1.0, 1.0], [b[2]], 0.5).value| == 2;
    assert WriteSampleAt(b, 0, sample, 4, 0.5, 2) == Err(ValueError);
  }

  /** The fade that changes nothing. */
  function NoFade(s: seq<real>): (r: seq<real>)
    ensures r == s
  {
    s
  }

  /**
   * The ramp `linear_interpolate(0, w, n)` of `ia2/math.py` would give:
   * `n` evenly spaced weights from 0 to `w` (a single weight is 0).
   */
  function LinearRamp(w: real, n: int): (r: seq<real>)
    ensures |r| == Max(n, 0)
  {
    seq(Max(n, 0), i => if n <= 1 then 0.0 else w * i as real / (n - 1) as real)
  }

  /** The linear ramp starts at 0 and ends at `w`, as the sine-eased one does. */
  lemma LinearRampIsRamp()
    ensures IsRamp(LinearRamp)
  {
    forall w: real, n: int | 2 <= n
      ensures LinearRamp(w, n)[n - 1] == w
    {
      var d := (n - 1) as real;
      assert w * d / d == w;
    }
  }

  /**
   * Four samples at rate 2 with duration 1 are trimmed to two, but the
   * as-written `mix_sample2` still takes `lead_in = 2` and asks
   * `write_sample` to blend `sample_copy[2:4]` (empty) into two buffer
   * slots: numpy raises ValueError. The corrected version mixes the two
   * samples as `mix_sample` does.
   */
  lemma MixSample2AsWrittenRaises()
    ensures IsFade(NoFade) && IsRamp(LinearRamp)
    ensures MixSample2AsWritten([0.0, 0.0, 0.0, 0.0], [1.0, 1.0, 1.0, 1.0], 0, 1, 0.5, 1.0, 2, NoFade, LinearRamp) == Err(ValueError)
    ensures MixSample2([0.0, 0.0, 0.0, 0.0], [1.0, 1.0, 1.0, 1.0], 0, 1, 0.5, 1.0, 2, NoFade, LinearRamp) == Ok([0.0, 0.5, 0.0, 0.0])
  {
    LinearRampIsRamp();
    var buf, sample := [0.0, 0.0, 0.0, 0.0], [1.0, 1.0, 1.0, 1.0];
    assert FrameTime(0, 1) == 0.0 && Trunc(0.0 * 2 as real) == 0;
    assert Trunc(2 as real * 1.0) == 2;
    MixSample2AsWrittenOutcome(buf, sample, 0.0, 0.5, 1.0, 2, NoFade, LinearRamp);
    MixSample2IsMixSample(buf, sample, 0.0, 0.5, 1.0, 2, NoFade, LinearRamp);
    MixSampleEffect(buf, sample, 0.0, 0.5, 1.0, 2, NoFade, LinearRamp);
    var r := MixSample(buf, sample, 0.0, 0.5, 1.0, 2, NoFade, LinearRamp).value;
    assert LinearRamp(0.5, 1) == [0.0];
    assert r[0] == Blend(0.0, 1.0, 0.0) == 0.0;
    assert r[1] == Blend(0.0, 1.0, 0.5) == 0.5;
    assert r == [0.0, 0.5, 0.0, 0.0];
  }

  /**
   * Four samples at rate 3 with duration 1 are trimmed to three. As
   * written, the lead-in takes two slots and the one copied sample left
   * after it, `3.0`, is blended into slots 2 and 3 without any error; the
   * corrected version leaves slot 3 alone.
   */
  lemma MixSample2AsWrittenSmears()
    ensures IsFade(NoFade) && IsRamp(LinearRamp)
    ensures MixSample2AsWritten([0.0, 0.0, 0.0, 0.0], [1.0, 2.0, 3.0, 4.0], 0, 1, 0.5, 1.0, 3, NoFade, LinearRamp) == Ok([0.0, 1.0, 1.5, 1.5])
    ensures MixSample2([0.0, 0.0, 0.0, 0.0], [1.0, 2.0, 3.0, 4.0], 0, 1, 0.5, 1.0, 3, NoFade, LinearRamp) == Ok([0.0, 1.0, 1.5, 0.0])
  {
    LinearRampIsRamp();
    assert FrameTime(0, 1) == 0.0;
    SmearAsWritten();
    SmearCorrected();
  }

  /** The as-written half of `MixSample2AsWrittenSmears`, at time 0. */
  lemma SmearAsWritten()
    ensures IsRamp(LinearRamp)
    ensures MixSample2AsWrittenAt([0.0, 0.0, 0.0, 0.0], [1.0, 2.0, 3.0, 4.0], 0.0, 0.5, 1.0, 3, NoFade, LinearRamp) == Ok([0.0, 1.0, 1.5, 1.5])
  {
    LinearRampIsRamp();
    var buf, sample := [0.0, 0.0, 0.0, 0.0], [1.0, 2.0, 3.0, 4.0];
    assert Trunc(0.0 * 3 as real) == 0;
    assert Trunc(3 as real * 1.0) == 3;
    MixSample2AsWrittenUnfold(buf, sample, 0.0, 0.5, 1.0, 3, NoFade, LinearRamp);
    assert sample[..3] == [1.0, 2.0, 3.0];
    assert LinearRamp(0.5, 2) == [0.0, 0.5];
    LeadThenWriteOutcome(buf, 0, [1.0, 2.0, 3.0], [0.0, 0.5], 4, 0.5);
    var a := LeadThenWrite(buf, 0, [1.0, 2.0, 3.0], [0.0, 0.5], 4, 0.5).value;
    assert a[0] == Blend(0.0, 1.0, 0.0) == 0.0;
    assert a[1] == Blend(0.0, 2.0, 0.5) == 1.0;
    assert a[2] == Blend(0.0, 3.0, 0.5) == 1.5;
    assert a[3] == Blend(0.0, 3.0, 0.5) == 1.5;
    assert a == [0.0, 1.0, 1.5, 1.5];
  }

  /** The corrected half of `MixSample2AsWrittenSmears`, at time 0. */
  lemma SmearCorrected()
    ensures IsRamp(LinearRamp)
    ensures MixSample2At([0.0, 0.0, 0.0, 0.0], [1.0, 2.0, 3.0, 4.0], 0.0, 0.5, 1.0, 3, NoFade, LinearRamp) == Ok([0.0, 1.0, 1.5, 0.0])
  {
    LinearRampIsRamp();
    var buf, sample := [0.0, 0.0, 0.0, 0.0], [1.0, 2.0, 3.0, 4.0];
    assert Trunc(0.0 * 3 as real) == 0;
    assert Trunc(3 as real * 1.0) == 3;
    MixSample2IsMixSample(buf, sample, 0.0, 0.5, 1.0, 3, NoFade, LinearRamp);
    MixSampleEffect(buf, sample, 0.0, 0.5, 1.0, 3, NoFade, LinearRamp);
    var c := MixSample(buf, sample, 0.0, 0.5, 1.0, 3, NoFade, LinearRamp).value;
    assert LinearRamp(0.5, 1) == [0.0];
    assert c[0] == Blend(0.0, 1.0, 0.0) == 0.0;
    assert c[1] == Blend(0.0, 2.0, 0.5) == 1.0;
    assert c[2] == Blend(0.0, 3.0, 0.5) == 1.5;
    assert c == [0.0, 1.0, 1.5, 0.0];
  }

  // ---------------------------------------------------------------------
  // on_sixteenths: the beat-slot trigger
  // ---------------------------------------------------------------------

  /**
   * `whole` and `sixteenth` of `on_sixteenths`, in frames: a beat lasts
   * `60 / tempo` seconds and a whole note four beats.
   */
  function NoteFrames(tempo: int, fps: int): (g: (real, real))
    requires tempo != 0
    ensures g.0 == 240.0 * fps as real / tempo as real
    ensures g.1 == 15.0 * fps as real / tempo as real
    ensures g.0 == 16.0 * g.1
    ensures g.1 == 0.0 <==> fps == 0
    ensures 0 < tempo && 0 < fps ==> 0.0 < g.1
  {
    var beat := 60.0 / tempo as real;
    NoteFramesValues(tempo, fps);
    (beat * 4.0 * fps as real, beat / 4.0 * fps as real)
  }

  lemma NoteFramesValues(tempo: int, fps: int)
    requires tempo != 0
    ensures var beat := 60.0 / tempo as real;
            var f, t := fps as real, tempo as real;
            beat * 4.0 * f == 240.0 * f / t && beat / 4.0 * f == 15.0 * f / t &&
            (15.0 * f / t == 0.0 <==> fps == 0) &&
            (0 < tempo && 0 < fps ==> 0.0 < 15.0 * f / t)
  {
    var f, t := fps as real, tempo as real;
    var beat := 60.0 / t;
    assert beat * t == 60.0;
    assert (beat * 4.0 * f) * t == 240.0 * f;
    assert (beat / 4.0 * f) * t == 15.0 * f;
    if fps != 0 {
      assert 15.0 * f != 0.0;
    }
  }

  /**
   * `divmod(frame % whole, sixteenth)`: which sixteenth of the bar `frame`
   * falls in and how far into it. A tempo of 0 (in `60 / tempo`) or an fps
   * of 0 (in `frame % whole`) raises ZeroDivisionError.
   */
  function SixteenthSlot(tempo: int, fps: int, frame: int): (r: Result<(int, real)>)
    ensures r.Ok? <==> tempo != 0 && fps != 0
    ensures r.Err? ==> r.error == ZeroDivisionError
    ensures r.Ok? && 0 < tempo && 0 < fps ==>
              0 <= r.value.0 < 16 && 0.0 <= r.value.1 < NoteFrames(tempo, fps).1
  {
    if tempo == 0 then Err(ZeroDivisionError)
    else
      var g := NoteFrames(tempo, fps);
      if g.0 == 0.0 then Err(ZeroDivisionError)
      else
        var intra := PyMod(frame as real, g.0);
        var d := PyFloorDiv(intra, g.1);
        SlotBound(intra, g.1, g.0);
        Ok((d, PyMod(intra, g.1)))
  }

  /** A position in `[0, 16 * s)` lies in one of the sixteen slots of width `s`. */
  lemma SlotBound(x: real, s: real, whole: real)
    requires whole == 16.0 * s && s != 0.0
    ensures 0.0 < s && 0.0 <= x < whole ==> 0 <= PyFloorDiv(x, s) < 16
  {
    if 0.0 < s && 0.0 <= x < whole {
      assert x / s < 16.0 by {
        assert x < 16.0 * s;
      }
      assert 0.0 <= x / s;
    }
  }

  /** `r < 1.0 and d in sixteenths`: whether this frame triggers the mix. */
  function SixteenthHit(tempo: int, fps: int, frame: int, sixteenths: seq<int>): (r: Result<bool>)
    ensures r.Ok? <==> tempo != 0 && fps != 0
    ensures r.Err? ==> r.error == ZeroDivisionError
  {
    match SixteenthSlot(tempo, fps, frame)
    case Err(e) => Err(e)
    case Ok(slot) => Ok(slot.1 < 1.0 && slot.0 in sixteenths)
  }

  /** The integer `q` with `q * s <= x < (q + 1) * s` for a positive `s` is `floor(x / s)`. */
  lemma FloorWindow(x: real, s: real, d: int)
    requires 0.0 < s
    ensures d == PyFloorDiv(x, s) <==> d as real * s <= x < d as real * s + s
  {
    FloorWindowAt(x / s, s, x, d);
  }

  /** `y.Floor` for `y = x / s`, with the products handed in already computed. */
  lemma FloorWindowAt(y: real, s: real, x: real, d: int)
    requires 0.0 < s && y * s == x
    ensures d == y.Floor <==> d as real * s <= x < d as real * s + s
  {
    var e := d as real;
    var q := e * s;
    ScaleAt(e, y, s, q, x);
    ScaleAt(y, e + 1.0, s, x, q + s);
    assert (e <= y && y < e + 1.0) <==> (q <= x && x < q + s);
  }

  /** Multiplying by a positive `s` keeps both `<=` and `<`; `as_` and `bs` are the products. */
  lemma ScaleAt(a: real, b: real, s: real, as_: real, bs: real)
    requires 0.0 < s && a * s == as_ && b * s == bs
    ensures a <= b <==> as_ <= bs
    ensures a < b <==> as_ < bs
  {
    if a < b {
      MulPos(b - a, s);
      assert (b - a) * s == bs - as_;
    } else if b < a {
      MulPos(a - b, s);
      assert (a - b) * s == as_ - bs;
    }
  }

  lemma MulPos(a: real, b: real)
    requires 0.0 < a && 0.0 < b
    ensures 0.0 < a * b
  {
  }

  /**
   * With a positive tempo and fps, a frame triggers the mix exactly when its
   * position in the bar lies in the first frame of a listed sixteenth: at
   * or after the sixteenth's start, less than one frame after it, and
   * before the next sixteenth begins.
   */
  lemma SixteenthHitWindow(tempo: int, fps: int, frame: int, sixteenths: seq<int>)
    requires 0 < tempo && 0 < fps
    ensures var g := NoteFrames(tempo, fps);
            SixteenthHit(tempo, fps, frame, sixteenths).value <==> InFirstUnit(PyMod(frame as real, g.0), g.1, sixteenths)
  {
    var g := NoteFrames(tempo, fps);
    var intra := PyMod(frame as real, g.0);
    var six := g.1;
    assert SixteenthSlot(tempo, fps, frame) == Ok((PyFloorDiv(intra, six), PyMod(intra, six)));
    var hit := PyMod(intra, six) < 1.0 && PyFloorDiv(intra, six) in sixteenths;
    assert SixteenthHit(tempo, fps, frame, sixteenths) == Ok(hit);
    SlotHit(intra, six, sixteenths);
  }

  /**
   * `x` lies in the first unit of a listed slot of width `s`: at or after
   * the slot's start, less than 1 after it, and before the next slot.
   */
  ghost predicate InFirstUnit(x: real, s: real, ss: seq<int>)
  {
    exists d :: d in ss && d as real * s <= x < d as real * s + 1.0 && x < d as real * s + s
  }

  /** The remainder is under 1 and the quotient is listed iff `x` lies in the first unit of a listed slot. */
  lemma SlotHit(x: real, s: real, ss: seq<int>)
    requires 0.0 < s
    ensures (PyMod(x, s) < 1.0 && PyFloorDiv(x, s) in ss) <==> InFirstUnit(x, s, ss)
  {
    var q := PyFloorDiv(x, s);
    FloorWindow(x, s, q);
    DivModConsistent(x, s);
    var r := PyMod(x, s);
    assert x == q as real * s + r;
    if r < 1.0 && q in ss {
      assert q as real * s <= x < q as real * s + 1.0;
    } else {
      forall d | d in ss && d as real * s <= x < d as real * s + s
        ensures !(x < d as real * s + 1.0)
      {
        FloorWindow(x, s, d);
      }
    }
  }

  /**
   * `on_sixteenths`: mix the sample through `mix_sample2` as written on a
   * hit, and leave the buffer alone otherwise.
   */
  function OnSixteenths(buf: seq<real>, sample: seq<real>, tempo: int, fps: int, frame: int, currentFrame: int,
                        sixteenths: seq<int>, weight: real, duration: real, rate: int,
                        fade: seq<real> -> seq<real>, ramp: (real, int) -> seq<real>): (r: Result<seq<real>>)
    requires IsRamp(ramp)
    ensures SixteenthHit(tempo, fps, frame, sixteenths) == Ok(false) ==> r == Ok(buf)
    ensures SixteenthHit(tempo, fps, frame, sixteenths) == Ok(true) ==>
              r == MixSample2AsWritten(buf, sample, currentFrame, fps, weight, duration, rate, fade, ramp)
    ensures tempo == 0 || fps == 0 ==> r == Err(ZeroDivisionError)
  {
    match SixteenthHit(tempo, fps, frame, sixteenths)
    case Err(e) => Err(e)
    case Ok(hit) => if hit then MixSample2AsWritten(buf, sample, currentFrame, fps, weight, duration, rate, fade, ramp) else Ok(buf)
  }

  /** `on_sixteenths` calling the corrected `mix_sample2`, which passes on the trimmed count. */
  function OnSixteenthsCorrected(buf: seq<real>, sample: seq<real>, tempo: int, fps: int, frame: int, currentFrame: int,
                                 sixteenths: seq<int>, weight: real, duration: real, rate: int,
                                 fade: seq<real> -> seq<real>, ramp: (real, int) -> seq<real>): (r: Result<seq<real>>)
    requires IsRamp(ramp)
    ensures SixteenthHit(tempo, fps, frame, sixteenths) == Ok(false) ==> r == Ok(buf)
    ensures SixteenthHit(tempo, fps, frame, sixteenths) == Ok(true) ==>
              r == MixSample2(buf, sample, currentFrame, fps, weight, duration, rate, fade, ramp)
    ensures tempo == 0 || fps == 0 ==> r == Err(ZeroDivisionError)
  {
    match SixteenthHit(tempo, fps, frame, sixteenths)
    case Err(e) => Err(e)
    case Ok(hit) => if hit then MixSample2(buf, sample, currentFrame, fps, weight, duration, rate, fade, ramp) else Ok(buf)
  }

  /**
   * The two `on_sixteenths` differ only on a hit with a sample longer than
   * `int(rate * duration)`: otherwise both leave the buffer alone, raise
   * the same ZeroDivisionError, or make the same mix.
   */
  lemma OnSixteenthsAgreeWhenShort(buf: seq<real>, sample: seq<real>, tempo: int, fps: int, frame: int, currentFrame: int,
                                   sixteenths: seq<int>, weight: real, duration: real, rate: int,
                                   fade: seq<real> -> seq<real>, ramp: (real, int) -> seq<real>)
    requires IsRamp(ramp)
    requires SixteenthHit(tempo, fps, frame, sixteenths) != Ok(true) || |sample| <= Trunc(rate as real * duration)
    ensures OnSixteenths(buf, sample, tempo, fps, frame, currentFrame, sixteenths, weight, duration, rate, fade, ramp)
         == OnSixteenthsCorrected(buf, sample, tempo, fps, frame, currentFrame, sixteenths, weight, duration, rate, fade, ramp)
  {
    if SixteenthHit(tempo, fps, frame, sixteenths) == Ok(true) {
      MixSample2AgreesWhenShort(buf, sample, currentFrame, fps, weight, duration, rate, fade, ramp);
    }
  }

  /**
   * At 60 bpm and 1 fps, frame 0 falls on sixteenth 0. With the 4-sample
   * clip at rate 2 for 1 second, `on_sixteenths` raises ValueError as
   * written and mixes the first two samples once corrected.
   */
  lemma OnSixteenthsExample()
    ensures IsFade(NoFade) && IsRamp(LinearRamp)
    ensures SixteenthHit(60, 1, 0, [0]) == Ok(true)
    ensures OnSixteenths([0.0, 0.0, 0.0, 0.0], [1.0, 1.0, 1.0, 1.0], 60, 1, 0, 0, [0], 0.5, 1.0, 2, NoFade, LinearRamp)
         == Err(ValueError)
    ensures OnSixteenthsCorrected([0.0, 0.0, 0.0, 0.0], [1.0, 1.0, 1.0, 1.0], 60, 1, 0, 0, [0], 0.5, 1.0, 2, NoFade, LinearRamp)
         == Ok([0.0, 0.5, 0.0, 0.0])
  {
    MixSample2AsWrittenRaises();
    var g := NoteFrames(60, 1);
    assert g == (4.0, 0.25);
    assert PyMod(0.0, 4.0) == 0.0;
    assert PyFloorDiv(0.0, 0.25) == 0 && PyMod(0.0, 0.25) == 0.0;
    assert SixteenthSlot(60, 1, 0) == Ok((0, 0.0));
  }

  // ---------------------------------------------------------------------
  // reverb
  // ---------------------------------------------------------------------

  /** The echo gain of `reverb`, whatever `decay` is passed. */
  const EchoGain: real := 0.2

  /**
   * Slot `j` after `reverb` with a delay of `d` samples: the loop runs
   * forwards in place, so slot `j` picks up the already-echoed slot
   * `j - d`. With `d == 0` each slot echoes itself once.
   */
  function Echo(xs: seq<real>, d: nat, j: nat): real
    requires j < |xs|
    decreases j
  {
    if j < d then xs[j]
    else if d == 0 then xs[j] + xs[j] * EchoGain
    else xs[j] + Echo(xs, d, j - d) * EchoGain
  }

  /**
   * `reverb`: the delay is `int(rate * delay)` samples; a negative delay
   * makes the loop index past the end of the buffer (IndexError).
   */
  method Reverb(buf: seq<real>, rate: int, delay: real, decay: real) returns (r: Result<seq<real>>)
    ensures r.Ok? <==> 0 <= Trunc(rate as real * delay)
    ensures r.Err? ==> r.error == IndexError
    ensures r.Ok? ==> |r.value| == |buf|
    ensures r.Ok? ==> forall j :: 0 <= j < |buf| ==> r.value[j] == Echo(buf, Trunc(rate as real * delay), j)
  {
    var d := Trunc(rate as real * delay);
    if d < 0 {
      return Err(IndexError);
    }
    var out := buf;
    var i := 0;
    while i < |buf| - d
      invariant 0 <= i && (i <= |buf| - d || i == 0)
      invariant |out| == |buf|
      invariant forall j :: 0 <= j < |buf| ==> out[j] == if j < i + d then Echo(buf, d, j) else buf[j]
    {
      out := out[i + d := out[i + d] + out[i] * EchoGain];
      i := i + 1;
    }
    return Ok(out);
  }

  /** `EchoGain` to the power `t`. */
  function Gain(t: nat): (r: real)
    ensures 0.0 < r <= 1.0
  {
    if t == 0 then 1.0 else EchoGain * Gain(t - 1)
  }

  /** The slot `m` delays of `d` before `j`, that is `j - m * d`. */
  function Back(j: int, d: nat, m: nat): (r: int)
    ensures r <= j
  {
    if m == 0 then j else Back(j, d, m - 1) - d
  }

  lemma {:induction false} BackIs(j: int, d: nat, m: nat)
    ensures Back(j, d, m) == j - m * d
  {
    if m > 0 {
      BackIs(j, d, m - 1);
      assert m * d == (m - 1) * d + d;
    }
  }

  lemma {:induction false} BackShift(j: int, d: nat, m: nat)
    ensures Back(j, d, m + 1) == Back(j - d, d, m)
  {
    if m > 0 {
      BackShift(j, d, m - 1);
    }
  }

  /** The taps `xs[j - t * d] * 0.2^t` for `t` in `[0, m]`, summed. */
  function Taps(xs: seq<real>, d: nat, j: nat, m: nat): real
    requires 0 <= Back(j, d, m) && j < |xs|
  {
    if m == 0 then xs[j]
    else Taps(xs, d, j, m - 1) + Tap(xs, d, j, m)
  }

  /** The `m`-th tap before `j`: `xs[j - m * d]` attenuated `m` times. */
  function Tap(xs: seq<real>, d: nat, j: nat, m: nat): real
    requires 0 <= Back(j, d, m) && j < |xs|
  {
    xs[Back(j, d, m)] * Gain(m)
  }

  /** One more delay back is one more attenuation of the tap seen from `j - d`. */
  lemma TapShift(xs: seq<real>, d: nat, j: nat, m: nat)
    requires d <= j < |xs| && 0 <= Back(j, d, m + 1)
    ensures 0 <= Back(j - d, d, m)
    ensures Tap(xs, d, j, m + 1) == Tap(xs, d, j - d, m) * EchoGain
  {
    BackShift(j, d, m);
    var x := xs[Back(j, d, m + 1)];
    assert x * (EchoGain * Gain(m)) == (x * Gain(m)) * EchoGain;
  }

  lemma {:induction false} TapsShift(xs: seq<real>, d: nat, j: nat, m: nat)
    requires d <= j < |xs| && 0 <= Back(j, d, m + 1)
    ensures 0 <= Back(j - d, d, m)
    ensures Taps(xs, d, j, m + 1) == xs[j] + Taps(xs, d, j - d, m) * EchoGain
  {
    TapShift(xs, d, j, m);
    if m > 0 {
      TapsShift(xs, d, j, m - 1);
    }
  }

  lemma {:induction false} EchoIsTapsAt(xs: seq<real>, d: nat, j: nat, m: nat)
    requires 0 < d && j < |xs| && 0 <= Back(j, d, m) < d
    ensures Echo(xs, d, j) == Taps(xs, d, j, m)
    decreases j
  {
    if m > 0 {
      BackShift(j, d, m - 1);
      EchoIsTapsAt(xs, d, j - d, m - 1);
      TapsShift(xs, d, j, m - 1);
    }
  }

  /**
   * Closed form of the echo: slot `j` after `reverb` is the sum of
   * `xs[j - t * d] * 0.2^t` over every `t` that stays inside the buffer.
   */
  lemma EchoIsTaps(xs: seq<real>, d: nat, j: nat)
    requires 0 < d && j < |xs|
    ensures 0 <= Back(j, d, j / d)
    ensures Echo(xs, d, j) == Taps(xs, d, j, j / d)
  {
    var m := j / d;
    assert 0 <= Back(j, d, m) < d by {
      BackIs(j, d, m);
      QuotientBack(j, d);
    }
    EchoIsTapsAt(xs, d, j, m);
  }

  /** The floor quotient leaves a remainder in `[0, d)`. */
  lemma QuotientBack(j: nat, d: nat)
    requires 0 < d
    ensures 0 <= j - (j / d) * d < d
  {
    assert j == (j / d) * d + j % d;
  }

  /** A single click at slot 0 with delay 1 rings on: `[1, 0, 0]` becomes `[1, 0.2, 0.04]`. */
  lemma EchoExample()
    ensures Echo([1.0, 0.0, 0.0], 1, 0) == 1.0
    ensures Echo([1.0, 0.0, 0.0], 1, 1) == 0.2
    ensures Echo([1.0, 0.0, 0.0], 1, 2) == 0.04
  {
  }
}
