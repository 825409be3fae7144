/** The older decoder front-end (`src/ffmpeg_stream.rs`).  Its chunker,
    timestamp formatter, dimension parse and stop count are the same code
    as in `src/ffmpeg.rs` and are shared from `Ffmpeg`; what differs is the
    frame step, which is `skip_frames + 1` computed in `u32`. */
module FfmpegStream {
  import opened RustPrelude
  import opened Ffmpeg

  /** The divisor of the decimation test: `skip_frames + 1` in `u32`. */
  function SkipStep(skipFrames: u32): (step: u32)
    ensures skipFrames < U32_MAX ==> step == skipFrames + 1
    ensures skipFrames == U32_MAX ==> step == 0
  {
    WrapU32(skipFrames + 1)
  }

  /** `spawn_ffmpeg_frame_reader` without its I/O: the reader of `Ffmpeg`
      with the step `skip_frames + 1`. */
  function SpawnFrameReader(filter: string, frameCount: nat, skipFrames: u32, startTime: real,
                            endTime: Option<real>, probedFps: Option<real>): (r: Result<Delivery>)
    ensures skipFrames < U32_MAX ==>
              r == StreamReader(filter, frameCount, skipFrames + 1, startTime, endTime, probedFps)
    ensures var dims := GetDimensionFromVideoFilter(filter);
            r.Panic? <==> dims.Panic? || (dims.value.Some? && skipFrames == U32_MAX && frameCount >= 1)
  {
    StreamReader(filter, frameCount, SkipStep(skipFrames), startTime, endTime, probedFps)
  }

  /** Frame `n` is handed on exactly when it falls on the `skip_frames + 1`
      step and does not pass a non-zero stop count; with no skipping every
      frame up to the stop count is handed on. */
  lemma SkipSelection(filter: string, frameCount: nat, skipFrames: u32, startTime: real,
                      endTime: Option<real>, probedFps: Option<real>)
    requires skipFrames < U32_MAX
    requires GetDimensionFromVideoFilter(filter).Ok? && GetDimensionFromVideoFilter(filter).value.Some?
    ensures var r := SpawnFrameReader(filter, frameCount, skipFrames, startTime, endTime, probedFps);
            var stopCount := StopFrameCount(startTime, endTime, probedFps.GetOr(30.0));
            && r.Ok?
            && (forall m :: m in r.value.frames <==>
                  1 <= m <= frameCount && (m - 1) % (skipFrames + 1) == 0 && (stopCount == 0 || m <= stopCount))
            && (forall k, l :: 0 <= k < l < |r.value.frames| ==> r.value.frames[k] < r.value.frames[l])
            && (skipFrames == 0 ==>
                  forall m :: m in r.value.frames <==> 1 <= m <= frameCount && (stopCount == 0 || m <= stopCount))
  {
    var stopCount := StopFrameCount(startTime, endTime, probedFps.GetOr(30.0));
    ReadFramesSelection(frameCount, SkipStep(skipFrames), stopCount);
  }

  /** The largest `skip_frames` wraps the divisor to zero: the first frame
      that arrives makes the reader panic. */
  lemma SkipWrapPanics(filter: string, frameCount: nat, startTime: real,
                       endTime: Option<real>, probedFps: Option<real>)
    requires frameCount >= 1
    requires GetDimensionFromVideoFilter(filter).Ok? && GetDimensionFromVideoFilter(filter).value.Some?
    ensures SpawnFrameReader(filter, frameCount, U32_MAX, startTime, endTime, probedFps) == Panic(RemainderByZero)
  {
    ReadFramesZeroStep(frameCount, StopFrameCount(startTime, endTime, probedFps.GetOr(30.0)));
  }
}
