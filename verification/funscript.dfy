/** The script emitter (`src/funscript.rs`): every surviving sample becomes
    an action whose time is the sample's frame index scaled by the frame
    time, and whose position is the sample value cast to `u8`. */
module Funscript {
  import opened RustPrelude
  import opened Geometry

  datatype FunscriptAction = FunscriptAction(pos: u8, at: u32)

  datatype FunscriptContent = FunscriptContent(
    version: string,
    inverted: bool,
    range: u8,
    fps: Option<real>,
    actions: seq<FunscriptAction>)

  datatype Funscript = Funscript(videoFps: real, startTimeInMs: real, content: FunscriptContent)

  const VERSION: string := "1.0"
  const RANGE: u8 := 90

  /** The exact time of frame `x`, when the frame time `1000 / fps` is finite. */
  function ExactTime(x: int, videoFps: real, startTimeInMs: real): real
    requires videoFps != 0.0
  {
    startTimeInMs + (1000.0 / videoFps) * x as real
  }

  /** The `at` of a sample at frame `x`: the exact time cast to `u32`.  A
      zero frame rate makes the frame time +inf, so a later frame saturates
      and frame 0 (inf * 0 is NaN) or an earlier one gives 0. */
  function ActionTime(x: int, videoFps: real, startTimeInMs: real): (at: u32)
    ensures videoFps != 0.0 ==>
              var t := ExactTime(x, videoFps, startTimeInMs);
              && (t < 1.0 ==> at == 0)
              && (0.0 <= t < U32_MODULUS as real ==> at as real <= t < at as real + 1.0)
              && (t >= U32_MODULUS as real ==> at == U32_MAX)
    ensures videoFps == 0.0 ==> (at == U32_MAX <==> x > 0) && (at == 0 <==> x <= 0)
  {
    if videoFps != 0.0 then FloatToU32(ExactTime(x, videoFps, startTimeInMs))
    else if x > 0 then U32_MAX
    else 0
  }

  /** One action per sample, pushed in order. */
  function Actions(score: seq<Point>, videoFps: real, startTimeInMs: real): (r: seq<FunscriptAction>)
    ensures |r| == |score|
    ensures forall i :: 0 <= i < |score| ==>
              r[i].pos == WrapU8(score[i].y) && r[i].at == ActionTime(score[i].x, videoFps, startTimeInMs)
  {
    if |score| == 0 then []
    else
      var a := score[|score| - 1];
      Actions(score[..|score| - 1], videoFps, startTimeInMs)
        + [FunscriptAction(WrapU8(a.y), ActionTime(a.x, videoFps, startTimeInMs))]
  }

  /** `to_funscript_content`: fixed metadata and one action per sample, in
      order, whose `pos` equals the sample value when that fits in a byte. */
  function ToFunscriptContent(score: seq<Point>, videoFps: real, startTimeInMs: real): (c: FunscriptContent)
    ensures c.version == "1.0" && !c.inverted && c.range == 90 && c.fps == Some(videoFps)
    ensures |c.actions| == |score|
    ensures forall i :: 0 <= i < |score| && 0 <= score[i].y < 256 ==> c.actions[i].pos == score[i].y
    ensures forall i :: 0 <= i < |score| ==> (c.actions[i].pos - score[i].y) % 256 == 0
    ensures forall i :: 0 <= i < |score| ==> c.actions[i].at == ActionTime(score[i].x, videoFps, startTimeInMs)
  {
    FunscriptContent(VERSION, false, RANGE, Some(videoFps), Actions(score, videoFps, startTimeInMs))
  }

  /** `Funscript::new`: the frame rate and start time are kept as given. */
  function New(videoFps: real, startTimeInMs: real, score: seq<Point>): (f: Funscript)
    ensures f.videoFps == videoFps && f.startTimeInMs == startTimeInMs
    ensures f.content == ToFunscriptContent(score, videoFps, startTimeInMs)
  {
    Funscript(videoFps, startTimeInMs, ToFunscriptContent(score, videoFps, startTimeInMs))
  }

  /** A later frame is no earlier in exact time; with at most 1000 frames
      per second each frame adds at least a millisecond. */
  lemma ExactTimeGrows(x1: int, x2: int, videoFps: real, startTimeInMs: real)
    requires videoFps > 0.0 && x1 <= x2
    ensures ExactTime(x1, videoFps, startTimeInMs) <= ExactTime(x2, videoFps, startTimeInMs)
    ensures x1 < x2 && videoFps <= 1000.0 ==>
              ExactTime(x1, videoFps, startTimeInMs) + 1.0 <= ExactTime(x2, videoFps, startTimeInMs)
  {
    var ft := 1000.0 / videoFps;
    assert ft * videoFps == 1000.0;
    assert ft > 0.0;
    var d := (x2 - x1) as real;
    assert ExactTime(x2, videoFps, startTimeInMs) - ExactTime(x1, videoFps, startTimeInMs) == ft * d;
    assert ft * d >= 0.0;
    if x1 < x2 && videoFps <= 1000.0 {
      assert ft >= 1.0 by {
        assert ft * videoFps <= ft * 1000.0;
      }
      assert d >= 1.0;
      assert ft * d >= ft * 1.0;
    }
  }

  /** With a positive frame rate, later frames never get earlier times. */
  lemma ActionTimesMonotone(score: seq<Point>, videoFps: real, startTimeInMs: real)
    requires videoFps > 0.0
    requires NonDecreasingX(score)
    ensures var acts := ToFunscriptContent(score, videoFps, startTimeInMs).actions;
            forall i, j :: 0 <= i <= j < |acts| ==> acts[i].at <= acts[j].at
  {
    var acts := ToFunscriptContent(score, videoFps, startTimeInMs).actions;
    forall i, j | 0 <= i <= j < |acts|
      ensures acts[i].at <= acts[j].at
    {
      ExactTimeGrows(score[i].x, score[j].x, videoFps, startTimeInMs);
      FloatToU32Monotone(ExactTime(score[i].x, videoFps, startTimeInMs), ExactTime(score[j].x, videoFps, startTimeInMs));
    }
  }

  /** At most 1000 frames per second make a frame last at least a
      millisecond, so strictly increasing frames get strictly increasing
      times as long as no time leaves the `u32` range. */
  lemma ActionTimesStrict(score: seq<Point>, videoFps: real, startTimeInMs: real)
    requires 0.0 < videoFps <= 1000.0
    requires StrictlyIncreasingX(score)
    requires forall i :: 0 <= i < |score| ==>
               0.0 <= ExactTime(score[i].x, videoFps, startTimeInMs) < U32_MODULUS as real
    ensures var acts := ToFunscriptContent(score, videoFps, startTimeInMs).actions;
            forall i, j :: 0 <= i < j < |acts| ==> acts[i].at < acts[j].at
  {
    var acts := ToFunscriptContent(score, videoFps, startTimeInMs).actions;
    forall i, j | 0 <= i < j < |acts|
      ensures acts[i].at < acts[j].at
    {
      ExactTimeGrows(score[i].x, score[j].x, videoFps, startTimeInMs);
    }
  }
}
