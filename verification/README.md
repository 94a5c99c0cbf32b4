# ia2 bookkeeping core in Dafny

This project models the parts of the `ia2` animation library that are not
drawing. It covers:

- the segmented ffmpeg video sink, which splits recordings into parts;
- the per-frame loop and the element lifecycle that drive every animation;
- the scene containers: `JoinedLists`, the point adapters and the z- and
  view-ordering iterators;
- the typed records: `Element`, `MemoryRange`, `MemoryMap` and the
  tempo-derived note lengths;
- the audio compositor: `mix_sample`, `mix_sample2`, `on_sixteenths` and
  `reverb`, together with the peak normalisation that finalises a buffer;
- de Casteljau Bezier evaluation and path normalisation;
- Sutherland–Hodgman clipping and line intersection;
- the polynomial geometry helpers.

Floats are `real`. Python exceptions are `Result` values carrying the
exception kind. Generators are explicit step functions. The cairo, pygame,
OpenGL, ffmpeg and file-system effects are out of scope: they are either
abstract parameters or recorded actions.

Modules follow the source:

- `Base`: Python's `int()`, floored `%` and `//`, list indexing and slicing, `Result`.
- `Records`: `ia2/types.py`.
- `Elements` and `Frames`: `ia2/frames.py`.
- `VideoSink` and `Finalise`: `ia2/context.py` and the `wav` finaliser.
- `Audio`: `ia2/audio.py`.
- `Joined`, `ScenePoints` and `Ordering`: `ia2/scene.py`.
- `Bezier`: `ia2/bezier.py`.
- `Intersect`: `ia2/intersect.py`.
- `Geometry`: `ia2/math.py`.

Two behaviours of the code are easy to misread, and the model keeps them:

- `reverb` ignores its `decay` argument. Each sample becomes a recursive
  echo, adding 0.2 times the already-echoed sample `delay` places back.
- Each video part receives `max_frames + 1` frames, because the cap test
  is `frame_count > max_frames`.

## Model

| member | source | states |
|---|---|---|
| VideoSink.SplitExt | ia2/context.py:33 | the base and the extension concatenate back to the file name, and the extension is empty or one final dot-suffix with no `/` |
| VideoSink.Pad4RoundTrip | ia2/context.py:44 | the `:04d` counter text reads back as the part number (the numbering is injective) |
| VideoSink.PartName | ia2/context.py:44 | a part name is the base, a dot, the zero-padded counter, then the extension |
| VideoSink.PartNamesDistinct | ia2/context.py:44 | different part numbers give different part names |
| VideoSink.NewProxy | ia2/context.py:31-41 | a new proxy has no process, no parts, `max_frames` 3600 and the full file name as its final name |
| VideoSink.Start | ia2/context.py:43-57 | `start_process` names the next part, appends it to `parts`, increments `part_number`, opens an empty part and resets `frame_count` to 0 |
| VideoSink.Stop | ia2/context.py:59-65 | `stop_process` leaves no active process and changes nothing else |
| VideoSink.StopIdempotent | ia2/context.py:59-65 | stopping twice equals stopping once, and stopping an idle proxy changes nothing |
| VideoSink.Open | ia2/context.py:67-73 | after the counter step, the proxy keeps the open part while under the cap, and otherwise rotates (or lazily starts) to a fresh empty part |
| VideoSink.Write | ia2/context.py:67-74 | a write appends exactly that frame to the output, to the current part or to a newly started one, and leaves a process active |
| VideoSink.WriteAllKeepsFrames | ia2/context.py:67-74 | any sequence of writes appends exactly those frames, in order, to the parts' concatenation |
| VideoSink.WriteRotates | ia2/context.py:67-71 | one more write keeps the rotation invariant: part count, counter and part sizes are determined by the number of writes |
| VideoSink.RotationCount | ia2/context.py:39-71 | after N ≥ 1 writes there are ⌈N/3601⌉ parts, every part except the last holds 3601 frames, and the last holds the remainder |
| VideoSink.CombineParts | ia2/context.py:76-88 | no parts gives nothing, one part renames it to the final name, and two or more write a manifest of every part in order, then concatenate |
| VideoSink.FfmpegExit | ia2/context.py:91-101 | leaving the context always stops the process and then combines the parts; StopAnimation is swallowed and any other exception propagates |
| VideoSink.OutputIsAllParts | ia2/context.py:76-88 | the combined output is the concatenation of every part's frames |
| VideoSink.PartsDistinct | ia2/context.py:43-46 | no two parts share a name |
| VideoSink.NoFrameLost | ia2/context.py:67-101 | from a fresh proxy, the final video holds exactly the frames written, and there are no parts iff nothing was written |
| Finalise.Peak | ia2/context.py:137 | `np.max(np.abs(data))` bounds every sample's magnitude and is reached by one of them; an empty buffer raises ValueError |
| Finalise.Normalise | ia2/context.py:137-139 | with a non-zero peak every sample becomes itself divided by the peak; with a zero peak the buffer is unchanged |
| Finalise.NormalisedPeak | ia2/context.py:137-139 | after normalising, an audible buffer peaks at exactly 1 and a silent one still peaks at 0 |
| Finalise.NormaliseIdempotent | ia2/context.py:137-139 | normalising an already normalised buffer changes nothing |
| Finalise.BufferLength | ia2/context.py:124 | the buffer has `int(rate·(length+3))` samples, and a size below zero raises |
| Finalise.UntouchedBuffer | ia2/context.py:124-139 | a session that mixes nothing finalises to the same silent buffer, except that an empty buffer raises |
| Finalise.WavNormaliseAsWritten | ia2/audio.py:18-23 | the `wav` finaliser divides by the peak with no guard, so a silent buffer becomes all NaN |
| Finalise.SilentWavIsNaN | ia2/audio.py:23 | a silent two-sample `wav` buffer comes out as NaN as written and as zeros once guarded |
| Finalise.WavNormalise | ia2/audio.py:23 | the guarded `wav` finaliser yields only numbers, namely the guarded normalisation of the buffer |
| Finalise.WavGuardOnlyMattersWhenSilent | ia2/audio.py:23 | on any buffer with a non-zero peak, the guarded and unguarded finalisers agree |
| Records.NewImage | ia2/types.py:70 | an `Image` session always runs at 1 frame per second |
| Records.NewSession | ia2/types.py:77-130 | `Sequence` and `AnimationSequence` start `current_frame` at 0, the interactive animations at their argument, and the other kinds have no slot |
| Records.Beat | ia2/types.py:137-139 | a beat times the tempo is 60 seconds, and a zero tempo raises ZeroDivisionError |
| Records.Durations | ia2/types.py:141-159 | whole, half, quarter, eighth and sixteenth times the tempo are 240, 120, 60, 30 and 15, and the quarter is the beat |
| Records.DurationRatios | ia2/types.py:141-159 | the note lengths stand in the ratios 16 : 8 : 4 : 2 : 1 |
| Records.DurationsAt120 | ia2/types.py:137-159 | at 120 bpm the lengths are 2, 1, 0.5, 0.25 and 0.125 seconds |
| Records.NewElement | ia2/types.py:461-479 | missing `points` and `control_points` become empty lists, and the other arguments are stored as given |
| Records.DefaultElement | ia2/types.py:440-460 | an element built from a name and a generator is visible, unselected, and has no point, points, control points or 3-D points |
| Records.ElementGet | ia2/types.py:487-495 | `element[k]` succeeds exactly for k in 0..2, and any other key raises IndexError |
| Records.ElementIter | ia2/types.py:481-482 | iterating an element yields exactly `element[0]`, `element[1]`, `element[2]` |
| Records.ElementUnpack | ia2/types.py:481-482 | unpacking an element gives back its name, generator and visibility |
| Records.ElementGetDetermines | ia2/types.py:487-495 | two elements that agree on keys 0..2 have the same name, generator and visibility |
| Records.RangeGet | ia2/types.py:538-546 | `memory_range[i]` succeeds exactly for i in 0..2, giving `name`, `size` and `n` in that order, and raises IndexError otherwise |
| Records.RangeGetDetermines | ia2/types.py:538-546 | the three indexed fields determine the range |
| Records.IndexesKeys | ia2/types.py:558-562 | exactly the names of the ranges are indexed |
| Records.IndexesLayout | ia2/types.py:560-563 | the last range with a given name is indexed at the total extent of the ranges before it, with its size and count |
| Records.NewMemoryMap | ia2/types.py:554-566 | the length is Σ size·n over the ranges (0 for `None` or `[]`), the indexes are the prefix-sum layout, and the last range ends exactly at the length |
| Records.Length | ia2/types.py:566-567 | `len(memory_map)` is the stored length when it is not negative, and raises ValueError (as Python's `len` does) when it is |
| Records.LengthOfRanges | ia2/types.py:554-567 | ranges with sizes and counts that are not negative give `len` equal to Σ size·n |
| Records.NegativeLengthRaises | ia2/types.py:554-567 | a range with count −1 makes `len` raise ValueError |
| Records.OffsetsArePrefixSums | ia2/types.py:560-563 | each running offset is the previous one plus that range's `size·n` |
| Records.RangesDisjoint | ia2/types.py:560-563 | with non-negative extents, a range ends no later than any later range starts |
| Records.Items | ia2/types.py:571 | the item intervals are `count` half-open intervals of width `size`, each starting where the previous ends, from `start` to `start + size·count` |
| Records.Slices | ia2/types.py:569-571 | `slices(name)` raises KeyError for an unknown name, and otherwise gives n contiguous intervals of width `size` from the range's start |
| Records.MemoryMapTwoRanges | ia2/types.py:554-571 | two ranges of 2×2 and 3×1 give length 7 and the slices [0,2),[2,4) and [4,7) |
| Elements.Next | ia2/frames.py:201-206 | a generator yields while it has steps left, then either stops (StopIteration) or raises its error |
| Elements.StepAll | ia2/frames.py:198-208 | a pass raises the first failing element's error, and otherwise splits the list into kept and removed elements |
| Elements.StepAllAdvancesEach | ia2/frames.py:198-208 | a successful pass steps every element once: the kept elements advance by one step, and the ones that finished are removed after the pass |
| Elements.StepFramesClosedForm | ia2/frames.py:195-208 | with no element failing within m frames, m passes leave exactly the elements that are still alive after m steps, each advanced m steps |
| Elements.StepFramesFails | ia2/frames.py:204-206 | if some element raises within m frames, the m passes raise |
| Elements.StepFramesErrPersists | ia2/frames.py:204-206 | once a pass has raised, every longer run raises too |
| Elements.Lifecycle | ia2/frames.py:198-208 | an element that finishes on its k-th step is still present after k−1 frames and gone after k |
| Elements.StepInPlace | ia2/frames.py:252-262 | the in-place pass keeps the list length, steps each live slot, writes None where an element finished, and skips None slots |
| Elements.StepInPlaceClosedForm | ia2/frames.py:251-263 | m in-place passes leave each slot advanced m steps, or None once it has finished |
| Frames.FrameCount | ia2/frames.py:45 | a run has `int(time·fps)` frames, and none when that is negative |
| Frames.SaveFrame | ia2/frames.py:97-169 | saving a frame keeps the session's kind, fps and frame counter, and only the pygame sessions accumulate events |
| Frames.SaveFrameWrites | ia2/frames.py:121-124 | a frame is written iff the session records and no QUIT is pending; a pending QUIT raises StopInteractive before the write; only the pygame kinds display and only the GL kinds display through GL |
| Frames.QuitPersists | ia2/frames.py:121-124 | once a QUIT has been seen, every later save raises again, because events accumulate |
| Frames.OneFrame | ia2/frames.py:60-65 | `one_frame` yields frame 0 and saves once |
| Frames.YieldWriteCount | ia2/frames.py:45-50 | a recording run alternates yield i and one write, i counting up from the start |
| Frames.FramesFromAnimation | ia2/frames.py:45-50 | on Animation and AnimationSequence, frames i..n−1 yield and write in turn and never raise |
| Frames.FramesOnAnimation | ia2/frames.py:45-50 | `frames` on a recording session yields 0..⌊time·fps⌋−1, with exactly one write after each yield |
| Frames.FramesOnImage | ia2/frames.py:45-50 | `frames` on an image runs at 1 fps and writes nothing |
| Frames.FramesFromSilent | ia2/frames.py:45-50 | on Image and Sequence the frame loop only yields |
| Frames.Wait | ia2/frames.py:83-94 | `wait` writes ⌊s·fps⌋ frames on the recording kinds and nothing otherwise, and returns `int(s·fps)` only on Animation and AnimationSequence, negative values included |
| Frames.RenderFromCounter | ia2/frames.py:195-197 | during the run `current_frame` follows `start + frame`, and sessions without the slot never gain one |
| Frames.RenderFramesReturns | ia2/frames.py:194-212 | `render_frames` returns `start + n` after n ≥ 1 frames (and `start + 1` after none), and 0 when the session has no `current_frame` |
| Frames.RenderFromElements | ia2/frames.py:195-208 | after frames i..n−1, the element list is the original advanced n−i steps, with the finished elements removed |
| Frames.RenderFramesElements | ia2/frames.py:188-212 | `render_frames` leaves exactly the elements still alive after ⌊length·fps⌋ steps |
| Frames.RenderImage | ia2/frames.py:215-229 | `render_image`, on any session, steps every element exactly once, removes the finished ones, leaves the session's kind, fps and `current_frame` as they were, and returns 0 |
| Frames.RenderImageKeepsCounter | ia2/frames.py:215-229 | an AnimationSequence at frame 5 is still at frame 5 after `render_image` |
| Frames.RenderElementsCount | ia2/frames.py:234 | `render_elements` runs max(⌊length·fps⌋, 1) frames, so always at least one |
| Frames.RenderElements | ia2/frames.py:232-246 | `render_elements` yields one removed list per frame |
| Frames.RenderElementsIsStepFrames | ia2/frames.py:232-246 | `render_elements` fails exactly when the plain element passes fail, and otherwise leaves the same list |
| Frames.RenderElementsRemoved | ia2/frames.py:244-246 | the removed list yielded at frame f is exactly the elements that finish on their (f+1)-th step |
| Frames.RenderElementsPrefix | ia2/frames.py:234-246 | the first k frames' yields do not depend on how many frames follow |
| Frames.StepLists | ia2/frames.py:252-262 | one frame steps every list in place, independently |
| Frames.RenderElementsOnce | ia2/frames.py:266-278 | `render_elements_once` keeps every list's length and index positions, steps each live slot once and writes None where an element finished |
| Frames.RenderElements2ClosedForm | ia2/frames.py:249-263 | `render_elements2` over n frames leaves each slot advanced n steps, or None once finished, with indices preserved |
| Audio.BlendFull | ia2/audio.py:172-174 | mixing at weight 1 replaces the buffer value with the sample |
| Audio.BlendTwice | ia2/audio.py:172-174 | mixing twice at weight w is one mix whose dry part is scaled by (1−w)² |
| Audio.BlendAt | ia2/audio.py:166-168 | one slot write succeeds iff both indices are in range (negative ones wrap), and otherwise raises IndexError |
| Audio.MixLoopResult | ia2/audio.py:164-174 | the mixing loop blends exactly the slots in `[start+k, start+hi)` and raises IndexError iff the run passes the buffer's end |
| Audio.LeadIn | ia2/audio.py:161 | the lead-in is at most 2000 and at most half the trimmed length |
| Audio.CopySample | ia2/audio.py:125-129 | `copy_sample` is the prefix of length min(len, num_samples, ⌊rate·duration⌋), following Python slice rules for a negative bound |
| Audio.CopySampleIdempotent | ia2/audio.py:125-129 | trimming a trimmed sample again changes nothing |
| Audio.MixAtResult | ia2/audio.py:161-174 | a mix changes only `[start, start+n)`, each slot blended with the ramp weight in the lead-in and with the full weight after it, and raises IndexError iff the region passes the buffer's end |
| Audio.MixTwice | ia2/audio.py:164-174 | mixing the same sample twice at one place blends each slot once with the doubled weight |
| Audio.Trimmed | ia2/audio.py:156-159 | the faded sample has the trimmed length min(len, ⌊rate·duration⌋) |
| Audio.Interpolate | ia2/math.py:132-138 | `interpolate(0, w, n)` raises ValueError iff n is negative (from `np.linspace`), and otherwise gives n weights starting at 0 and, for two or more, ending at w |
| Audio.LinearRampIsRamp | ia2/math.py:126-138 | the linear ramp of `linear_interpolate` starts at 0 and ends at w, as the sine-eased ramp does |
| Audio.MixSample | ia2/audio.py:154-162 | a negative trimmed count (negative rate or duration) gives a negative lead-in, on which `interpolate` raises ValueError |
| Audio.MixSampleSucceeds | ia2/audio.py:154-174 | for a start slot `int(time·rate)` that is not negative, `mix_sample` succeeds iff the trimmed count is 0 or positive and fits in the buffer from that slot; past the end it raises IndexError, with a negative count ValueError, and an empty trim changes nothing |
| Audio.MixSampleEffect | ia2/audio.py:154-174 | `mix_sample` leaves every slot outside the trimmed region alone and blends each slot inside it with the faded sample: ramp weights in the lead-in, `weight` after it |
| Audio.WeightOneReplaces | ia2/audio.py:170-174 | at weight 1 the body region holds the faded sample itself |
| Audio.WriteLeadIn | ia2/audio.py:132-143 | `write_lead_in` keeps the buffer length and returns min(2000, num_samples // 2); a negative count raises ValueError in `interpolate`, and otherwise only IndexError can arise |
| Audio.Broadcast | ia2/audio.py:149-151 | the numpy blend of two arrays needs equal lengths or a length-1 operand, and otherwise raises ValueError |
| Audio.SliceAssign | ia2/audio.py:149 | a slice assignment replaces exactly the clamped slice, needs a matching or length-1 value, and otherwise raises ValueError |
| Audio.WriteSampleAtResult | ia2/audio.py:146-151 | `write_sample` blends exactly `[start+lead_in, start+num)` at `weight` and leaves the rest alone |
| Audio.WriteSampleAtOutcome | ia2/audio.py:146-151 | with a copy shorter than num, the slice write succeeds iff the copy is not short or one copied sample is left after the lead-in, which is then blended into the whole slice; otherwise ValueError |
| Audio.WriteSampleSmears | ia2/audio.py:149-151 | a one-sample copy slice is broadcast over every slot of the buffer slice |
| Audio.WriteSampleShortFails | ia2/audio.py:149-151 | a short copy slice of any other length makes numpy raise ValueError, in the blend or in the assignment |
| Audio.LeadThenWriteOutcome | ia2/audio.py:132-151 | `write_lead_in` then `write_sample` on a count no smaller than the copy raise IndexError iff the lead-in outruns the copy, then ValueError as above, and otherwise ramp the lead-in slots and blend the rest at weight |
| Audio.WriteSampleIsBodyLoop | ia2/audio.py:146-151 | the slice write of `write_sample` equals the body loop of `mix_sample` |
| Audio.WritersAreMixSample | ia2/audio.py:132-174 | when the trimmed region lies inside the buffer (start slot not negative, start + count ≤ length), `write_lead_in` followed by `write_sample` on the trimmed length equals `mix_sample` |
| Audio.MixSample2AsWritten | ia2/audio.py:177-186 | `mix_sample2` as written raises ZeroDivisionError iff fps is 0 and otherwise keeps the buffer length; the rest of its behaviour is stated by the outcome lemmas below |
| Audio.MixSample2AsWrittenAt | ia2/audio.py:182-186 | at a given time, `mix_sample2` as written keeps the buffer length and can only raise IndexError (lead-in loop) or ValueError (numpy) |
| Audio.MixSample2At | ia2/audio.py:182-186 | the corrected body at a given time keeps the buffer length and raises only IndexError or ValueError |
| Audio.MixSample2AsWrittenUnfold | ia2/audio.py:177-186 | with a non-zero fps, `mix_sample2` as written is the lead-in and slice write over the trimmed copy with the untrimmed count |
| Audio.WritersUnfold | ia2/audio.py:132-151 | for a count that is not negative, the two writers are the lead-in loop over the ramp followed by the slice write |
| Audio.MixSample2AsWrittenOutcome | ia2/audio.py:177-186 | at any time whose start slot leaves room for len(sample) slots, as written (for a non-zero fps `mix_sample2` is this body at `current_frame / fps`): IndexError iff the trimmed count t is below lead_in = LeadIn(len(sample)); ValueError iff t ≥ lead_in, t ≠ len(sample) and t − lead_in ≠ 1; success otherwise |
| Audio.MixSample2AsWrittenSmears | ia2/audio.py:182-186 | a 4-sample clip at rate 3 for 1 second mixes with no error as written, but blends the third sample (index 2) into slot 3 as well as slot 2, where the corrected version leaves slot 3 alone |
| Audio.MixSample2AgreesWhenShort | ia2/audio.py:177-186 | when the sample is no longer than ⌊rate·duration⌋, the as-written and corrected `mix_sample2` agree |
| Audio.MixSample2AsWrittenRaises | ia2/audio.py:182-186 | a 4-sample clip at rate 2 for 1 second raises a broadcast ValueError as written, but mixes its first 2 samples once corrected |
| Audio.MixSample2 | ia2/audio.py:177-186 | the corrected `mix_sample2` raises ZeroDivisionError iff fps is 0 and otherwise keeps the buffer length |
| Audio.MixSample2IsMixSample | ia2/audio.py:177-186 | when the trimmed region lies inside the buffer, the corrected `mix_sample2` is `mix_sample` at time `current_frame / fps` |
| Audio.MixSamplePastEndDiffers | ia2/audio.py:149-174 | past the buffer's end the two differ in the error: `mix_sample` raises IndexError and the corrected `mix_sample2` raises ValueError |
| Audio.NoteFrames | ia2/audio.py:194-196 | a whole note spans 240·fps/tempo frames and a sixteenth 15·fps/tempo, 16 sixteenths to the whole |
| Audio.SixteenthSlot | ia2/audio.py:197-198 | the slot of a frame is in 0..15 with a remainder below one sixteenth, and a zero tempo or fps raises ZeroDivisionError |
| Audio.SixteenthHitWindow | ia2/audio.py:197-200 | a frame triggers iff its position in the whole note lies within one frame after the start of a listed sixteenth |
| Audio.OnSixteenths | ia2/audio.py:189-200 | `on_sixteenths` mixes through the as-written `mix_sample2` exactly on a triggering frame, otherwise leaves the buffer alone, and raises ZeroDivisionError for a zero tempo or fps |
| Audio.OnSixteenthsCorrected | ia2/audio.py:189-200 | the same trigger calling the corrected `mix_sample2` |
| Audio.OnSixteenthsAgreeWhenShort | ia2/audio.py:189-200 | the two versions differ only on a hit with a sample longer than ⌊rate·duration⌋ |
| Audio.OnSixteenthsExample | ia2/audio.py:189-200 | at 60 bpm and 1 fps frame 0 hits sixteenth 0; with a 4-sample clip at rate 2 for 1 second the source raises ValueError, and the corrected version mixes |
| Audio.Reverb | ia2/audio.py:203-208 | `reverb` keeps the length, raises IndexError iff the delay is negative, and makes every sample its recursive echo at decay 0.2 (the `decay` argument is ignored) |
| Audio.EchoIsTaps | ia2/audio.py:207-208 | the in-place loop's output at j is the sum of the inputs at j, j−d, j−2d, …, weighted by 0.2 to the number of steps back |
| Audio.EchoExample | ia2/audio.py:207-208 | a unit impulse with delay 1 echoes as 1, 0.2, 0.04 |
| Joined.LengthIsFlatLength | ia2/scene.py:185-191 | `len` is the length of the concatenation that iteration yields |
| Joined.Get | ia2/scene.py:193-201 | get normalises a negative key by adding `len`, raises IndexError outside `[0, len)`, and returns that position of the concatenation |
| Joined.Set | ia2/scene.py:203-212 | set replaces that one position of the concatenation, changes a single sublist, keeps every sublist's length, and raises IndexError outside the range |
| Joined.SetThenGet | ia2/scene.py:193-212 | reading back a key just written gives the written value |
| Joined.Pop | ia2/scene.py:214-222 | pop returns the element at the normalised key and removes exactly that position, raising IndexError outside the range |
| Joined.PopShortens | ia2/scene.py:214-222 | a successful pop shortens the concatenation by one |
| Joined.ClampInsertKey | ia2/scene.py:224-230 | insert normalises a negative key, then clamps it into `[0, len]` |
| Joined.Insert | ia2/scene.py:224-246 | insert puts the value at the clamped position of the concatenation, and does nothing when there are no sublists |
| Joined.InsertLandsWithOwner | ia2/scene.py:232-235 | an insert before the last position goes into the sublist that owns that position, at its offset, and changes no other sublist |
| Joined.InsertAtEndAppends | ia2/scene.py:236-239 | inserting at `len` appends to the last sublist only |
| Joined.Remove | ia2/scene.py:248-253 | remove deletes the first occurrence of the value in the concatenation, and raises ValueError when no sublist contains it |
| Joined.InsertExamples | ia2/scene.py:224-246 | a key on a sublist boundary inserts at the front of the next sublist |
| ScenePoints.ScaledGet | ia2/scene.py:20-23 | reading a scaled coordinate gives None for a None coordinate, and otherwise the value that the scale maps onto it |
| ScenePoints.ScaledSet | ia2/scene.py:25-26 | writing v stores `v·scale + origin` at that index only |
| ScenePoints.ScaleInverse | ia2/scene.py:20-26 | for a non-zero scale, reading and writing are inverse maps |
| ScenePoints.ScaledWriteRead | ia2/scene.py:20-26 | a value written through a `ScaledPoint` reads back unchanged |
| ScenePoints.ScaledReadWrite | ia2/scene.py:20-26 | writing back a value just read leaves the point unchanged |
| ScenePoints.DeltaGet | ia2/scene.py:39-44 | a delta coordinate is `p[i] + offset[i]`, or None if either is None |
| ScenePoints.DeltaSet | ia2/scene.py:46-50 | writing v stores `v − p[i]` as the offset (None stores None), changing only that offset |
| ScenePoints.DeltaWriteRead | ia2/scene.py:39-50 | a value written through a `DeltaPoint`, None included, reads back unchanged |
| ScenePoints.WrapperGet | ia2/scene.py:73-78 | a wrapper reads None once its point is gone, and otherwise the point's coordinate |
| ScenePoints.WrapperSet | ia2/scene.py:80-84 | writing None drops the whole point, and writing a value sets that coordinate only |
| ScenePoints.WrapperWriteRead | ia2/scene.py:73-84 | a value written through a `PointWrapper` reads back unchanged |
| ScenePoints.WrapperNoneDropsPoint | ia2/scene.py:80-82 | after writing None, every coordinate reads None |
| ScenePoints.MidGet | ia2/scene.py:160-176 | a bad index on `p0` raises IndexError and `p0[i]` None gives None; with `p0[i]` present, a bad index on `p1` raises IndexError, `p1[i]` None gives None, and a present `p1[i]` gives a coordinate equidistant from both |
| ScenePoints.MidGetSymmetric | ia2/scene.py:160-176 | the midpoint does not depend on the order of its two points |
| ScenePoints.ValueGet | ia2/scene.py:126-129 | `value[0]` is the value, and any other key raises IndexError |
| ScenePoints.ValueWriteRead | ia2/scene.py:126-135 | writing key 0 then reading it gives the written value |
| Ordering.SortByKeyIsStableSort | ia2/scene.py:148 | the sort orders by key and keeps the input order among equal keys, as Python's `sorted` does |
| Ordering.StableSortUnique | ia2/scene.py:148 | a stable sort of a list is unique, so the result is determined by the keys alone |
| Ordering.StableOnTies | ia2/scene.py:148 | sorting keeps the relative order of every run of equal keys |
| Ordering.ZKey | ia2/scene.py:148 | the z key is the third coordinate of the point, and a shorter point raises IndexError |
| Ordering.ZOrder | ia2/scene.py:147-150 | `ZOrderList` yields the payloads in the stable sort by z, raising IndexError if some point lacks a z |
| Ordering.ZOrderExample | ia2/scene.py:147-150 | z values 10, 1, 5 yield their payloads in the order 1, 5, 10 |
| Ordering.MeanXKey | ia2/scene.py:267 | the view key is the mean of the points' x coordinates; no points raises StatisticsError and an empty point raises IndexError |
| Ordering.ViewOrder1 | ia2/scene.py:264-270 | `ViewOrderList` yields the `[start:end]` slice of the payloads stably sorted by mean x, and otherwise raises the error of the first element whose key fails (IndexError for an empty point, StatisticsError for no points) |
| Ordering.View2Key | ia2/scene.py:303-309 | missing 3-D points get key +∞ and an empty list gets −∞ |
| Ordering.ViewOrder2 | ia2/scene.py:302-313 | `ViewOrderList2` yields the `[start:end]` slice of the elements stably sorted by projected key |
| Ordering.ViewOrder2Placement | ia2/scene.py:303-313 | elements without 3-D points come last and elements with an empty list come first |
| Ordering.View3Key | ia2/scene.py:346-350 | an element with no points gets key −∞, and no element gets +∞ |
| Ordering.ViewOrder3 | ia2/scene.py:345-354 | `ViewOrderList3` yields the `[start:end]` slice of the payloads stably sorted by projected key |
| Ordering.View4Key | ia2/scene.py:387-393 | the face key needs three points, and fewer raise IndexError |
| Ordering.ViewOrder4 | ia2/scene.py:386-397 | `ViewOrderList4` yields the `[start:end]` slice of the payloads stably sorted by face key |
| Bezier.Linspace | ia2/bezier.py:94 | `linspace(0, 1, n)` has n values in [0, 1], starting at 0 and ending at 1 |
| Bezier.Round | ia2/bezier.py:98-100 | a de Casteljau round is one point shorter and mixes each pair of neighbours |
| Bezier.DeCasteljauAtZero | ia2/bezier.py:96-101 | evaluation at t = 0 gives the first control point |
| Bezier.DeCasteljauAtOne | ia2/bezier.py:96-101 | evaluation at t = 1 gives the last control point |
| Bezier.DeCasteljauOnLine | ia2/bezier.py:96-101 | control points on a line give a point on that line |
| Bezier.DeCasteljauInHalfPlane | ia2/bezier.py:96-101 | for t in [0, 1], control points in a half-plane give a point in it |
| Bezier.BezierCurve | ia2/bezier.py:92-103 | `bezier_curve` returns `num_points` points (100 by default), and raises for a negative count or for no control points |
| Bezier.BezierCurveDefault | ia2/bezier.py:92-103 | without `num_points` the curve has 100 points from the first control point to the last, and no control points raise IndexError |
| Bezier.BezierCurveEndpoints | ia2/bezier.py:92-103 | the first output is the first control point and the last output is the last control point |
| Bezier.BezierCurveOnLine | ia2/bezier.py:92-103 | collinear control points give outputs on the same line |
| Bezier.BezierCurveInHalfPlane | ia2/bezier.py:92-103 | every output lies in any half-plane that holds all the control points |
| Bezier.Normalise | ia2/bezier.py:57-71 | one segment per triple with a `p3`, ending at that `p3`, with its second control point filled in |
| Bezier.BezierPath | ia2/bezier.py:31-32 | the path draws nothing iff `p0[0]` is None |
| Bezier.NormaliseComplete | ia2/bezier.py:57-71 | triples with no missing coordinates become the segments `(p1, p2, p3)` unchanged |
| Bezier.NormaliseGroup | ia2/bezier.py:60-71 | a run of skipped triples followed by an emitting one gives one segment: from the first triple's `p1` (or the last end point), through `p2` (or `p3`), to `p3` |
| Bezier.NormaliseCarried | ia2/bezier.py:63-68 | a carried `p1` is used as the first control point of the next emitted segment |
| Intersect.LineIntersect | ia2/intersect.py:39-46 | no intersection iff the denominator is 0; otherwise the point lies on both lines |
| Intersect.LineIntersectExamples | ia2/intersect.py:39-46 | the diagonals of the square (0,0)–(2,2) meet at (1,1), and parallel lines give None |
| Intersect.IntersectEdge | ia2/intersect.py:132-145 | the crossing point has its clipped coordinate exactly equal to the bound |
| Intersect.CrossingIsBetween | ia2/intersect.py:132-145 | the crossing point's other coordinate lies between the edge's end coordinates |
| Intersect.EdgeOutput | ia2/intersect.py:107-114 | in→in emits the current vertex, out→in the crossing then the vertex, in→out the crossing, and out→out nothing |
| Intersect.ClipEdgeFacts | ia2/intersect.py:100-115 | clipping one edge at most doubles the vertices, leaves every vertex inside, and returns an all-inside polygon unchanged |
| Intersect.ClipEdgeKeeps | ia2/intersect.py:100-115 | clipping against one side keeps the vertices inside the sides already clipped |
| Intersect.ClipPolygon | ia2/intersect.py:117-122 | an empty polygon clips to `[]` |
| Intersect.ClipPolygonFacts | ia2/intersect.py:90-122 | the clipped polygon has at most 16 times the vertices, lies inside a well-formed rectangle, and is the input itself when the input is already inside |
| Intersect.ClipPolygonExample | ia2/intersect.py:90-122 | a segment across the unit square is cut at x = 0 and x = 1 |
| Geometry.Rgb | ia2/math.py:49-51 | each channel is the input divided by 255 |
| Geometry.RgbExamples | ia2/math.py:49-51 | `rgb(255, 0, 0)` is (1, 0, 0) |
| Geometry.Midpoint | ia2/math.py:100-104 | the midpoint is ((x1+x2)/2, (y1+y2)/2) |
| Geometry.MidpointSymmetric | ia2/math.py:100-104 | the midpoint is symmetric, is the half-way interpolation, and is equidistant from both points |
| Geometry.Distance2Facts | ia2/math.py:114-118 | the squared distance is non-negative, symmetric, and zero exactly on equal points |
| Geometry.Distance2Example | ia2/math.py:114-118 | from (0,0) to (3,4) it is 25 |
| Geometry.Slope | ia2/math.py:121-123 | the slope carries p1 to p2 along the line, and a vertical pair raises ZeroDivisionError |
| Geometry.ClosestPointToLine | ia2/math.py:171-188 | the result lies on the segment, is the start for a degenerate segment, is the end when P is beyond it, and is the start when P is before it |
| Geometry.ProjectionParameter | ia2/math.py:183-188 | in the interior case the projection parameter is in [0, 1] and satisfies the normal equation |
| Geometry.ClosestPointIsNearest | ia2/math.py:171-188 | no point of the segment is nearer to P than the result |

## Left out

- `ia2/draw.py`: every function is a sequence of cairo calls.
- The cairo side of `ia2/bezier.py`: `draw_bezier`, the `curve_to`/`stroke`/`fill` calls, the debug lines, `shade_coons_patch`, `clip_bezier_path` and `cut_bezier_path`. The path model returns the segments that would be drawn. The `fill` pass uses the same normalisation with `last_p1 or p1`, which is the same as `last_p1 or p1 or last` because a point is never falsy.
- The ffmpeg command strings, `subprocess.Popen`/`run`, stdin pipes, the `ffmpeg.log` append, `os.rename`, `files.txt` and the "No parts to combine" message. The sink is an abstract per-part frame list, and the combine step is a `Combine` value.
- `wavfile` read and write, `combine` (ia2/audio.py:211-221, a shell call to ffmpeg), `load_sample`, `load_wav_file` and `play_sample`: file and device I/O.
- pygame and moderngl windows, the event pump, the BGRA swizzle, blitting, `clock.tick`, `time.sleep`, the FPS overlay and `pause_frame`. The events of each frame are a `poll` parameter, and the display steps are recorded actions.
- `paint_background` and the `ctx.save`/`restore` calls of the frame loop: drawing only.
- `one_frame2`: a context-manager copy of `one_frame` that saves the frame after the block.
- scipy `Rotation`, `np.dot`, `np.cross` and `np.linalg.norm` in the view-ordering classes. The projection, the aggregation function `fn` and the face key are parameters.
- `transformation` and `Ref` (cairo matrix and generator wrapper), and the trigonometric, square-root and optimisation helpers of `ia2/math.py`: not polynomial.
- `circle_intersect` and `line_circle_intersect` of ia2/intersect.py:6-27 and 49-87: both need square roots, so they are not polynomial.
- `fade_in_out`: `ia2/wave_table.py` is not part of this model. It is a parameter that keeps the length of what it fades.
- `interpolate`, which is `sin_interpolate` of ia2/math.py:132-138: its sine easing is not polynomial, so the ramp is a parameter. It is constrained by the facts that hold without trigonometry: n weights, the first 0, and for two or more the last w. The ValueError on a negative count is modelled.
- Audio.MixSampleSucceeds and Audio.MixSampleEffect: stated for a start slot `int(time·rate)` that is not negative. A negative start makes `wav_file[k + start]` wrap around from the end, or raise IndexError below −len, and the model does not characterise those slots.
- Audio.WritersAreMixSample and Audio.MixSample2IsMixSample: stated only when the trimmed region lies inside the buffer. Past the end `mix_sample` raises IndexError while the slice write raises ValueError (Audio.MixSamplePastEndDiffers), so the equality does not hold there.
- IEEE rounding: all arithmetic is exact over `real`. The float32 buffer is modelled only far enough to show the NaN of an unguarded division.
- Partial mutation before an exception: a numpy loop that raises midway has already changed some slots, and in `Elements.StepAll` the elements before the one that raises have already been advanced by `next()`. In both cases the model returns the error without that partial state.
- Joined.Insert and Joined.Set: the sublists are values, so the model assumes they are distinct objects. With one list object appearing twice (`[a, b, a]`, or `JoinedLists(a, a)`), the source's `item is self.lists[-1]` test and its shared mutation behave differently.
- `elements.remove` by identity: the model removes finished elements by position, which is the same because each generator object appears once.
- Frames.RenderElements: states the per-frame yield count; what each yield holds is stated by `Frames.RenderElementsRemoved`.
- Intersect.ClipPolygon: its own contract covers only the empty case; the geometric guarantees are stated by `Intersect.ClipPolygonFacts`.

## Findings

| source | as written | input that shows it | evidently intended | confidence | as-written member | corrected member |
|---|---|---|---|---|---|---|
| ia2/audio.py:23 | the `wav` finaliser divides by the peak with no zero guard | a session that mixes nothing: every sample is 0 and 0/0 gives NaN (Finalise.SilentWavIsNaN) | skip the division on a silent buffer, as the video finalisers in ia2/context.py:137-139 do; with a non-zero peak nothing changes (Finalise.WavGuardOnlyMattersWhenSilent) | not executed | Finalise.WavNormaliseAsWritten | Finalise.WavNormalise |
| ia2/audio.py:182-186 | `mix_sample2` passes the untrimmed `num_samples` to `write_lead_in` and `write_sample` | a 4-sample clip at rate 2 with duration 1: the trimmed copy has 2 samples, the slice write asks for 4, and numpy raises a broadcast ValueError (Audio.MixSample2AsWrittenRaises, reached from `on_sixteenths` in Audio.OnSixteenthsExample). At rate 3 the write succeeds but smears the third sample (index 2) over slots 2 and 3 (Audio.MixSample2AsWrittenSmears). Every case is listed by Audio.MixSample2AsWrittenOutcome | pass the trimmed length, as `mix_sample` does, so that `mix_sample2` is `mix_sample` at `current_frame / fps` (Audio.MixSample2IsMixSample) | not executed | Audio.MixSample2AsWritten | Audio.MixSample2 |
