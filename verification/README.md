# mtfg-rs motion-to-script chain, modelled in Dafny

mtfg-rs ("motion tracking funscript generator") tracks one or two people
through a video and turns their vertical movement into a funscript: a JSON
list of `(at, pos)` actions, where `at` is a time in milliseconds and `pos` is
a stroke position. This project models the pure, sequential part of the
program and proves properties about it. That part has two pieces.

- **The motion-to-script chain.** It has six stages:
  - center points of the tracking boxes;
  - one motion sample per frame (`get_y_diff`);
  - a linear min-max rescale (`scale_y`);
  - resampling on a monotone spline (`interpolate_score`);
  - Ramer-Douglas-Peucker simplification (`rdp`);
  - emission of the script actions (`Funscript::new`).

  `Pipeline.ScriptFromBoxes` composes them as `src/main.rs:122-141` does,
  with `interpolate_score` as written. `Pipeline.CorrectedScriptFromBoxes`
  is the same chain with the corrected resampler of the finding below. The
  two agree whenever the frame step is at most 1.
- **The pure helpers of the decoder front-end.** These are:
  - the fixed-size frame chunker;
  - the `HH:MM:SS.mmm` seek-time formatter;
  - the parser that reads the output size from the video filter string;
  - the stop-frame count;
  - the rule that selects which decoded frames are handed on.

  `src/ffmpeg_stream.rs` is an older, unreferenced twin of `src/ffmpeg.rs`.
  It repeats the chunker, the formatter, the dimension parse and the stop
  count textually:
  - `src/ffmpeg_stream.rs:54-63`;
  - `src/ffmpeg_stream.rs:239-245`;
  - `src/ffmpeg_stream.rs:252-293`.

  These are modelled once, in `Ffmpeg`. `FfmpegStream` adds its one
  difference: the frame step there is `skip_frames + 1`, computed in `u32`.

Modules, one per source file, plus four shared ones:

- `Geometry` holds the box (`opencv::core::Rect`) and the sample point
  (`mint::Point2<i32>`).
- `RustPrelude` holds the Rust semantics the model depends on:
  - `Option`;
  - a `Result` whose failure is a panic;
  - truncating integer division;
  - the saturating float-to-integer `as` casts;
  - the wrapping integer `as` casts and `u32` arithmetic.
- `Decimal` covers decimal formatting, zero padding and parsing.
- `Captures` covers the leftmost-first iteration of the two regular
  expressions the dimension parser uses.

Conventions:

- Rust's `f32` and `f64` values are modelled as exact reals. A float-to-int
  `as` cast truncates toward zero and saturates at the target range. The NaN
  cases that can arise are written out explicitly:
  - `scale_y` on a constant signal computes 0/0, and NaN casts to 0;
  - a zero frame rate makes the frame time infinite.
- Integer overflow follows a release build, so it wraps.
- A panic (`unwrap`, `expect`, `% 0`) is a `Panic` result, not a
  precondition.
- Two pieces of foreign code are function parameters:
  - the monotone cubic spline of `mentat`, as `Interpolate.Spline`;
  - the RDP algorithm of `ramer_douglas_peucker`, as
    `Simplify.RdpLibrary`, returning the indices to keep.

Two behaviours follow the code rather than what the names suggest:

- **The call site inverts the rescale.** `src/main.rs:128-132` passes
  `Some(100), Some(0)` into `scale_y(input, lower, upper)`. So `lower` is 100
  and `upper` is 0. The smallest motion sample (the box highest on screen)
  becomes position 100, and the largest becomes 0.
- **A constant signal rescales to 0, not to `lower`.** Every sample becomes
  0, because 0/0 is NaN and NaN casts to 0.

## Model

| member | source | states |
|---|---|---|
| RustPrelude.DivTrunc | src/trajectories.rs:30-31 | Integer `/` truncates toward zero: the remainder is smaller than the divisor and takes the sign of the dividend. |
| RustPrelude.FloatToI32 | src/trajectories.rs:98-101 | The `as i32` cast truncates toward zero inside the `i32` range and saturates outside it. |
| RustPrelude.FloatToU32 | src/funscript.rs:51 | The `as u32` cast truncates inside the `u32` range; anything below 1 gives 0, and anything at or above 2^32 gives `u32::MAX`. |
| RustPrelude.WrapU8 | src/funscript.rs:50 | `as u8` keeps the value when it fits in a byte, and keeps the low eight bits otherwise. |
| RustPrelude.WrapI32 | src/trajectories.rs:54 | `as i32` from `usize` keeps in-range values and is congruent modulo 2^32. |
| RustPrelude.WrapU32 | src/ffmpeg.rs:46 | `u32` arithmetic keeps in-range values and is congruent modulo 2^32. |
| RustPrelude.FloatToU32Monotone | src/funscript.rs:51 | The `as u32` cast never decreases as its argument grows. |
| RustPrelude.FloatToI32Monotone | src/trajectories.rs:98-101 | The `as i32` cast never decreases as its argument grows. |
| Trajectories.CenterPoint | src/trajectories.rs:29-32 | The center lies at most half a pixel from the true box center, on the origin's side. |
| Trajectories.FrameCenters | src/trajectories.rs:28-33 | One center per box of a frame, in order. |
| Trajectories.GetCenterPoints | src/trajectories.rs:22-37 | The frame count and each frame's box count are kept, and every point is the center of its box. |
| Trajectories.New | src/trajectories.rs:10-20 | The step and tracker count are stored unchanged, and the trajectories are the center points of the boxes. |
| Trajectories.MinFirstY | src/trajectories.rs:41-48 | The baseline is a lower bound of every frame's first center y, and some frame attains it. |
| Trajectories.Reduce | src/trajectories.rs:49-63 | One sample per frame with x = `(idx+1)*timestep` cast to `i32`. With one tracker y is the height above the baseline; with two it is the difference of the two centers. A frame without a second box panics. |
| Trajectories.GetYDiff | src/trajectories.rs:39-71 | It succeeds exactly when there is a frame and every frame holds enough boxes. With one tracker every y is at least 0, some y is 0, and the differences between samples equal the differences between the first centers. With two trackers y is the signed center difference. Any other tracker count gives an empty result. |
| Trajectories.MinY | src/trajectories.rs:78-84 | The smallest sample value: a lower bound that is attained. |
| Trajectories.MaxY | src/trajectories.rs:86-92 | The largest sample value: an upper bound that is attained. |
| Trajectories.ScaleY | src/trajectories.rs:73-104 | An empty input panics. Otherwise the length and every x are kept. |
| Trajectories.ScaleValue | src/trajectories.rs:98-101 | A constant signal computes 0/0, which is NaN and casts to 0. Otherwise a sample inside the signal's range lands between `lower` and `upper`. The exact ends and the order are stated by `ScaleValueEnds` and `ScaleValueMonotone`. |
| Trajectories.LinearBetween | src/trajectories.rs:98-100 | Inside the signal's range the exact rescale lies between the two bounds, in either orientation. |
| Trajectories.ScaleValueEnds | src/trajectories.rs:98-101 | For a non-constant signal the minimum maps exactly to `lower` and the maximum exactly to `upper`. |
| Trajectories.LinearMonotone | src/trajectories.rs:98-100 | The exact linear map is non-decreasing when `upper >= lower` and non-increasing when `upper <= lower`. |
| Trajectories.ScaleValueMonotone | src/trajectories.rs:98-101 | The same holds after the `i32` cast, including in the constant case. |
| Trajectories.ScaleYConstant | src/trajectories.rs:98-101 | A constant signal rescales to all zeros, whatever the bounds. |
| Trajectories.ScaleYExtremes | src/trajectories.rs:94-103 | For a non-constant signal, every sample at the minimum becomes `lower`, every sample at the maximum becomes `upper`, and every output lies between the bounds. |
| Trajectories.ScaleYMonotone | src/trajectories.rs:94-103 | The rescale keeps the order of the samples when `upper >= lower` and reverses it when `upper <= lower`. |
| Trajectories.SampleXExact | src/trajectories.rs:54 | Below the `i32` wrap point the sample x is exactly `(idx+1)*timestep`. |
| Trajectories.YDiffXIncreasing | src/trajectories.rs:49-62 | With a positive step and no wrap-around, the sample x values strictly increase, exactly one step apart. |
| Interpolate.SampleRange | src/interpolate.rs:27-32 | Consecutive integer x values from the start, each paired with the spline value cast to `i32`. |
| Interpolate.InterpolateScore | src/interpolate.rs:3-34 | The result is always `Some`. With fewer than two points, or a step of at most one, the input comes back unchanged. Otherwise the output has as many points as the input, with x = first x + k. |
| Interpolate.AsWrittenMissesLastControl | src/interpolate.rs:27 | On the schedule the trajectory stage produces, every resampled x lies before the last control point. |
| Interpolate.InterpolateScoreFullRange | src/interpolate.rs:26-33 | The corrected resampling has the same guards, and one sample per integer x from the first control x through the last. |
| Interpolate.FullRangeCoversControls | src/interpolate.rs:26-33 | The corrected resampling has a sample at the x of every control point. |
| Simplify.AllIndices | src/simplify.rs:4 | The default keep list is `0..len`. |
| Simplify.Keep | src/simplify.rs:4-8 | With epsilon at most 0.01 the keep list selects every position `0..len`, whatever the library would return. |
| Simplify.KeptIndices | src/simplify.rs:10-15 | The kept positions are in range and in the keep list, strictly ascending, and include every in-range listed position. Duplicates and out-of-range entries add nothing. |
| Simplify.KeepByIndex | src/simplify.rs:10-15 | The filter output is the input at the kept positions, in input order. |
| Simplify.Rdp | src/simplify.rs:3-16 | With epsilon at most 0.01 the input comes back unchanged. The output is never longer than the input, and is the subsequence at the kept positions. |
| Simplify.KeepAllIndices | src/simplify.rs:4-15 | Filtering by the full index list returns the input. |
| Simplify.KeptAllIndices | src/simplify.rs:4-13 | Every position of `0..len` is kept, in order. |
| Simplify.AscendingCover | src/simplify.rs:10-15 | A strictly ascending in-range list covering `0..n` is `0..n` itself. |
| Simplify.RdpKeepsEndpoints | src/simplify.rs:6-15 | When the library keeps the first and last index, the simplified score starts and ends with the input's endpoints. |
| Funscript.ActionTime | src/funscript.rs:40-51 | `at` is the exact time `start + (1000/fps)*x`, truncated into `u32` and saturating. With a zero frame rate, later frames saturate and the others give 0. |
| Funscript.Actions | src/funscript.rs:47-53 | One action per sample, in order: `pos` is `y as u8` and `at` is the action time. |
| Funscript.ToFunscriptContent | src/funscript.rs:35-55 | The metadata is always version "1.0", not inverted, range 90 and `Some(fps)`. There is one action per sample. `pos` equals `y` when it fits in a byte and is congruent to it modulo 256 otherwise. |
| Funscript.New | src/funscript.rs:27-33 | The frame rate and start time are stored unchanged next to the content. |
| Funscript.ExactTimeGrows | src/funscript.rs:40-51 | With a positive frame rate, exact times never decrease along x, and at no more than 1000 fps each later frame is at least a millisecond later. |
| Funscript.ActionTimesMonotone | src/funscript.rs:40-51 | With a positive frame rate, non-decreasing x gives non-decreasing `at`. |
| Funscript.ActionTimesStrict | src/funscript.rs:40-51 | With a frame rate in (0, 1000] and times inside the `u32` range, strictly increasing x gives strictly increasing `at`. |
| Decimal.DigitChar | src/ffmpeg.rs:349 | A digit below ten is rendered as an ASCII digit. |
| Decimal.DigitValue | src/ffmpeg.rs:356-361 | An ASCII digit reads back as a value below ten. |
| Decimal.ParseDecimal | src/ffmpeg.rs:356-361 | A string of `n` digits reads as a value below 10^n. |
| Decimal.ToDecimal | src/ffmpeg.rs:349 | `Display` of a number gives digits with no leading zero that read back as the number. |
| Decimal.PadZero | src/ffmpeg.rs:349 | `{:0>w}` pads on the left with zeros to width `w` and keeps the original as the suffix. |
| Decimal.LeadingZero | src/ffmpeg.rs:349 | A leading zero does not change a digit string's value. |
| Decimal.PadZeroValue | src/ffmpeg.rs:349 | Zero padding keeps a digit string's value. |
| Decimal.DecimalWidth | src/ffmpeg.rs:349 | A number below 10^w renders in at most `w` digits. |
| Decimal.PaddedRoundTrip | src/ffmpeg.rs:349 | A number below 10^w, padded to `w`, gives exactly `w` digits that read back as the number. |
| Captures.DigitRun | src/ffmpeg.rs:354 | `\d+` takes the maximal run of digits. |
| Captures.MatchAt | src/ffmpeg.rs:354 | A match at a position ends after it, inside the string, and captures two non-empty digit strings. What text it covers is stated by `MatchSpells`, and when it exists by `MatchAtComplete`. |
| Captures.MatchSpells | src/ffmpeg.rs:354 | The text a match covers is exactly the lead, the first capture, the separator and the second capture. |
| Captures.MatchAtComplete | src/ffmpeg.rs:354 | Conversely, where the text spells the lead, a maximal non-empty digit run, the separator and a non-empty digit run, a match starts there. Its first capture is that maximal run, and its second capture is the text from the separator to the end of the match, which covers at least the last run. |
| Captures.CapturesFrom | src/ffmpeg.rs:355 | Every capture the iteration yields is well formed. |
| Captures.NoCapturesIff | src/ffmpeg.rs:355-363 | The iteration yields nothing exactly when no match of the pattern exists. |
| Captures.LastCaptureIsLastMatch | src/ffmpeg.rs:355-363 | The last capture the iteration yields is a match after which no further match starts. |
| Ffmpeg.NewVideoFrame | src/ffmpeg.rs:44-48 | The capacity is `width*height*3` when that fits in `u32`, and is congruent to it modulo 2^32 otherwise. |
| Ffmpeg.Decode | src/ffmpeg.rs:55-64 | A chunk comes out exactly when the buffer holds at least a frame. The chunk has exactly `capacity` bytes, and chunk followed by rest is the original buffer. Otherwise the buffer is left unchanged. |
| Ffmpeg.ZeroCapacityStalls | src/ffmpeg.rs:55-64 | With a zero capacity every call yields an empty frame and leaves the buffer as it was. |
| Ffmpeg.DecodeAll | src/ffmpeg.rs:55-64 | Repeated decoding splits a stream into frames of exactly `capacity` bytes. The frames followed by the leftover bytes give the stream back, and the leftover is shorter than a frame. |
| Ffmpeg.ConcatLength | src/ffmpeg.rs:59-60 | Frames of equal size concatenate to their count times the size. |
| Ffmpeg.DecodeAllFrameCount | src/ffmpeg.rs:55-64 | A stream yields as many frames as fit in it: length divided by capacity. |
| Ffmpeg.JoinLayout | src/ffmpeg.rs:349 | The fields of the format string sit at fixed positions. |
| Ffmpeg.FieldLayout | src/ffmpeg.rs:349 | A clock field padded to its width reads back unchanged. |
| Ffmpeg.ClockLayout | src/ffmpeg.rs:349 | The formatted clock is 12 characters with separators at positions 2, 5 and 8, and its fields read back as the inputs. |
| Ffmpeg.MillisecToTimestamp | src/ffmpeg.rs:344-350 | The timestamp is always 12 characters: two-digit hours, minutes and seconds and three-digit milliseconds, separated by `:`, `:` and `.`. The field values are stated by `TimestampFields` and `TimestampDaily`. |
| Ffmpeg.ClockFields | src/ffmpeg.rs:345-348 | Hours, minutes, seconds and milliseconds add back up to the value modulo a day. |
| Ffmpeg.TimestampFields | src/ffmpeg.rs:344-350 | The timestamp is `HH:MM:SS.mmm`: 12 characters, with hours below 24, minutes and seconds below 60 and milliseconds below 1000, that reconstruct `val mod 86400000`. |
| Ffmpeg.TimestampDaily | src/ffmpeg.rs:347 | The hours wrap at 24: a value exactly one day later formats identically. |
| Ffmpeg.ParseU32 | src/ffmpeg.rs:356-361 | `parse::<u32>` of a digit string succeeds exactly when the value fits in `u32`, and yields that value. |
| Ffmpeg.LastDimensions | src/ffmpeg.rs:355-363 | The loop panics exactly when some capture overflows `u32`. Otherwise the last capture's size wins, and no capture leaves the previous value. |
| Ffmpeg.GetDimensionFromVideoFilter | src/ffmpeg.rs:352-378 | It panics only on a `u32` overflow, and a size comes out only when one of the two patterns matches. Which match gives the size is stated by `DimensionRules`. |
| Ffmpeg.PatternPhase | src/ffmpeg.rs:353-363 | One pattern's loop yields none exactly when the pattern has no match. A successful non-empty loop gives the size of a match after which none starts. A panic needs a match. |
| Ffmpeg.DimensionRules | src/ffmpeg.rs:352-378 | The last `w=..:h=..` match wins. `scale=..:..` is consulted only without a `w=` match. None comes out exactly when neither pattern matches, and a panic is always a `u32` overflow. |
| Ffmpeg.StopFrameCount | src/ffmpeg.rs:385-396 | Without an end time the count is 0, which means no limit. At a non-negative frame rate an end time not after the start time also gives 0. Its size otherwise is stated by `StopFrameCountApprox`. |
| Ffmpeg.FrameOrder | src/ffmpeg.rs:387-388 | At a non-negative frame rate a later time is never at an earlier whole frame. |
| Ffmpeg.StopFrameCountApprox | src/ffmpeg.rs:385-396 | For a window inside the `u32` frame range, the stop count is within one frame of the window's exact length in frames. |
| Ffmpeg.ReadLoop | src/ffmpeg.rs:433-450 | From frame `n` on, the loop panics exactly when the step is 0 and a frame arrives, and only with `% 0`. Every frame it hands on arrived, at or after `n`. Which frames are handed on is stated by `ReadLoopSelection`. |
| Ffmpeg.ReadFrames | src/ffmpeg.rs:433-450 | From frame 1: a panic exactly when the step is 0 and at least one frame arrives. Handed-on frame numbers lie between 1 and the number of frames that arrived. |
| Ffmpeg.ReadLoopSelection | src/ffmpeg.rs:433-450 | From frame `n` on, with a positive step: the loop hands on exactly the frames that arrive, fall on the step and do not pass a non-zero stop count. They come in strictly increasing order. The loop stops early exactly when a frame on the step passes the stop count. |
| Ffmpeg.ReadFramesSelection | src/ffmpeg.rs:433-450 | The same from frame 1: delivered is equivalent to selected, in ascending order, with an early stop exactly when the stop count is passed. |
| Ffmpeg.ReadFramesZeroStep | src/ffmpeg.rs:443 | A zero `frame_step_size` panics on the first frame, and hands on nothing when no frame arrives. |
| Ffmpeg.StreamReader | src/ffmpeg.rs:380-450 | It panics exactly when the filter parse panics, or when a size is found, the step is 0 and a frame arrives. Without a size nothing is handed on. Every handed-on frame number is one that arrived. |
| Ffmpeg.StreamReaderDelivers | src/ffmpeg.rs:384-450 | An unparsable filter hands on nothing. Without an end time, every frame on the step is handed on. With a non-zero stop count, no handed-on frame number passes it. |
| FfmpegStream.SkipStep | src/ffmpeg_stream.rs:353 | The divisor is `skip_frames + 1`, and it wraps to 0 for the largest `skip_frames`. |
| FfmpegStream.SpawnFrameReader | src/ffmpeg_stream.rs:247-379 | Below the largest `skip_frames` it is the reader of `src/ffmpeg.rs` with step `skip_frames + 1`. Beyond the filter parse it panics only when `skip_frames` is `u32::MAX` and a frame arrives. |
| FfmpegStream.SkipSelection | src/ffmpeg_stream.rs:343-360 | Frame `m` is handed on exactly when `(m-1) % (skip_frames+1) == 0` and it does not pass a non-zero stop count. With `skip_frames = 0` every frame up to the stop count is handed on. |
| FfmpegStream.SkipWrapPanics | src/ffmpeg_stream.rs:353 | With `skip_frames = u32::MAX` the divisor is 0, and the first frame makes the reader panic. |
| Pipeline.ScriptFromBoxes | src/main.rs:122-141 | A script comes out exactly when there is at least one frame, one or two tracked persons, and every frame holds at least one box per person; otherwise the run panics. Its positions are stated by `OnePersonPositions`. |
| Pipeline.ScriptFromSignal | src/main.rs:128-141 | The stages after the motion signal (rescale, resample, simplify, emit) give a script exactly when the signal is non-empty. |
| Pipeline.CorrectedAgrees | src/main.rs:134 | With a frame step of at most 1, the chain with the corrected resampler gives the same script as the chain as written. |
| Pipeline.OtherPersonCountPanics | src/main.rs:122-132 | A person count other than one or two gives an empty motion signal, and rescaling it panics. |
| Pipeline.OnePersonSignal | src/main.rs:122-127 | With one person the motion samples differ exactly as the first boxes' center heights differ. |
| Pipeline.CallSiteScale | src/main.rs:128-132 | The call site's rescale of a non-constant signal puts every value in [0, 100], the minimum at 100 and the maximum at 0. |
| Pipeline.UnchangedTail | src/main.rs:134-140 | With step at most 1 and epsilon at most 0.01, the script has one action per rescaled sample, at the sample's value. |
| Pipeline.SignalPositions | src/main.rs:128-140 | After a non-constant signal, positions lie in [0, 100], the minimum sample maps to 100 and the maximum to 0. |
| Pipeline.OnePersonExtremes | src/main.rs:122-127 | The highest box holds the signal's minimum, and the lowest box its maximum. Boxes at different heights make the signal non-constant. |
| Pipeline.OnePersonPositions | src/main.rs:122-141 | One tracked person, no resampling and no simplification: one action per frame with a position in [0, 100]. The highest box gets 100 and the lowest gets 0. |

## Left out

- Tracking is not modelled:
  - the OpenCV trackers (`src/tracker.rs`, `src/opencv_tracker.rs`);
  - the UI (`src/ui.rs`);
  - the channel-based frame collection loop in `src/main.rs:88-120`.

  `Pipeline.ScriptFromBoxes` starts from the collected boxes.
- Subprocess and I/O code is not modelled: `ffprobe` and `ffmpeg` spawning,
  `get_video_fps`, `get_video_dimensions`, `get_single_frame`,
  `transform_frame`, the channel `send` fan-out, and `FFmpegFrame`'s OpenCV
  conversion. `FrameBuffer::from_raw` is also left out, so a capacity that
  wrapped in `u32` is not followed to its panic. The number of frames the
  decoder yields, and the probed frame rate (`None` when probing fails), are
  parameters.
- `Funscript::save` (serde_json and the file write), `src/logging.rs`,
  `src/args.rs` and `build.rs` are left out.
- The inside of the spline (`mentat`, `f64`) and of the RDP algorithm
  (`ramer_douglas_peucker`) is not modelled. Both are uninterpreted function
  parameters.
- `f32` and `f64` rounding is not modelled: every float is an exact real.
  NaN is followed only where it can arise from the modelled inputs:
  - the constant signal in `scale_y`;
  - a zero frame rate in `to_funscript_content`.
- Trajectories.CenterPoint: pixel coordinates are unbounded integers, so the
  `i32` additions and subtractions of `get_center_points` and `get_y_diff`
  cannot overflow in the model.
- Interpolate.InterpolateScore: the end of the range, `first.x + len as i32`,
  is an unbounded integer. `i32` overflow there is not modelled.
- Ffmpeg.ReadLoop: the frame counter is unbounded. The `u32` wrap after
  2^32 frames is not modelled.
- Ffmpeg.DecodeAll: a zero capacity is excluded, because the decoder then
  yields empty frames forever. `Ffmpeg.ZeroCapacityStalls` states the
  single step.
- Ffmpeg.DimensionRules: the panic is stated in one direction only. A panic
  implies an overflowing capture of a pattern that was consulted, but not the
  converse.
- Captures.DigitRun: `\d` is read as ASCII `0`-`9`. Rust's `regex` also
  accepts other Unicode decimal digits, which `parse::<u32>` would then
  reject.
- Ffmpeg.MillisecToTimestamp: the `args.start_time as u32` conversion at the
  call site (`src/ffmpeg.rs:411`) is not modelled.
- Pipeline.OnePersonPositions: the positions of the whole chain are stated
  only for a frame step of at most 1 and an epsilon of at most 0.01. Above
  those the spline and the RDP algorithm decide the output, and both are
  uninterpreted.

## Findings

| source | as written | input that shows it | evidently intended | confidence | as-written member | corrected member |
|---|---|---|---|---|---|---|
| src/interpolate.rs:27 | The resampled x range is `first.x .. first.x + len`: as many consecutive x values as there are control points. | Step 2 and controls at x = 2, 4, 6 (the schedule `get_y_diff` produces). The output x is 2, 3, 4, so frames 5 and 6 get no samples and the last control is never reached. | One sample per frame from the first control x through the last: `first.x ..= last.x`. | not executed | Interpolate.AsWrittenMissesLastControl | Interpolate.FullRangeCoversControls |

`Pipeline.ScriptFromBoxes` keeps `interpolate_score` as written, as
`src/main.rs:134` calls it. `Pipeline.CorrectedScriptFromBoxes` uses the
corrected resampling, `Interpolate.InterpolateScoreFullRange`.
