/** The resampling stage (`src/interpolate.rs`): a motion signal sampled
    every `frame_step_size` frames is evaluated on a monotone cubic spline
    at consecutive integer x.  The spline itself is foreign code working in
    `f64`; here it is a function parameter. */
module Interpolate {
  import opened RustPrelude
  import opened Geometry

  /** The value at `x` of the monotone cubic spline through the control
      points (`mentat::MonotonicCubicSpline`). */
  type Spline = (seq<Point>, int) -> real

  /** The resampled point at `x`: the spline value cast to `i32`. */
  function SplineSample(raw: seq<Point>, spline: Spline, x: int): Point {
    Point(x, FloatToI32(spline(raw, x)))
  }

  /** The samples at `count` consecutive x from `from` on, in order. */
  function SampleRange(raw: seq<Point>, spline: Spline, from: int, count: nat): (r: seq<Point>)
    ensures |r| == count
    ensures forall k :: 0 <= k < count ==> r[k].x == from + k
    ensures forall k :: 0 <= k < count ==> r[k].y == FloatToI32(spline(raw, from + k))
  {
    if count == 0 then []
    else SampleRange(raw, spline, from, count - 1) + [SplineSample(raw, spline, from + count - 1)]
  }

  /** `interpolate_score` as written: with fewer than two points or a step
      of at most one the signal is returned as it is; otherwise the spline
      is sampled at as many consecutive x, starting at the first control x,
      as there are control points.  The result is never `None`. */
  function InterpolateScore(raw: seq<Point>, frameStepSize: u32, spline: Spline): (r: Option<seq<Point>>)
    ensures r.Some?
    ensures |raw| < 2 || frameStepSize <= 1 ==> r.value == raw
    ensures |raw| >= 2 && frameStepSize > 1 ==>
              && |r.value| == |raw|
              && (forall k :: 0 <= k < |raw| ==> r.value[k].x == raw[0].x + k)
              && (forall k :: 0 <= k < |raw| ==> r.value[k].y == FloatToI32(spline(raw, raw[0].x + k)))
  {
    if |raw| < 2 then Some(raw)
    else if frameStepSize <= 1 then Some(raw)
    else Some(SampleRange(raw, spline, raw[0].x, |raw|))
  }

  /** On the sampling schedule of the trajectory stage (control x equal to
      `(i + 1) * step`), a step above one leaves the resampled signal short:
      every resampled x lies before the last control point, so the frames
      after `first.x + len - 1` get no samples at all. */
  lemma AsWrittenMissesLastControl(raw: seq<Point>, frameStepSize: u32, spline: Spline)
    requires |raw| >= 2 && frameStepSize > 1
    requires forall i :: 0 <= i < |raw| ==> raw[i].x == (i + 1) * frameStepSize
    ensures var r := InterpolateScore(raw, frameStepSize, spline).value;
            forall k :: 0 <= k < |r| ==> r[k].x < raw[|raw| - 1].x
  {
    var n := |raw|;
    var r := InterpolateScore(raw, frameStepSize, spline).value;
    StepOutrunsCount(n, frameStepSize);
    assert raw[0].x == frameStepSize && raw[n - 1].x == n * frameStepSize;
    forall k | 0 <= k < |r|
      ensures r[k].x < raw[n - 1].x
    {
      assert r[k].x == raw[0].x + k;
    }
  }

  /** `n` samples spaced `s` apart reach further than `n` consecutive ones. */
  lemma StepOutrunsCount(n: int, s: int)
    requires n >= 2 && s >= 2
    ensures s + n - 1 < n * s
  {
    var a, b := n - 1, s - 1;
    assert a * b >= 1 by {
      assert a * b >= a * 1;
    }
    assert n * s == a * b + a + b + 1;
  }

  /** The resampling as evidently intended: one sample per integer x from
      the first control x through the last one. */
  function InterpolateScoreFullRange(raw: seq<Point>, frameStepSize: u32, spline: Spline): (r: Option<seq<Point>>)
    ensures r.Some?
    ensures |raw| < 2 || frameStepSize <= 1 ==> r.value == raw
    ensures |raw| >= 2 && frameStepSize > 1 ==>
              var first, last := raw[0].x, raw[|raw| - 1].x;
              && |r.value| == (if first <= last then last - first + 1 else 0)
              && (forall k :: 0 <= k < |r.value| ==> r.value[k].x == first + k)
              && (forall k :: 0 <= k < |r.value| ==> r.value[k].y == FloatToI32(spline(raw, first + k)))
  {
    if |raw| < 2 then Some(raw)
    else if frameStepSize <= 1 then Some(raw)
    else
      var first, last := raw[0].x, raw[|raw| - 1].x;
      Some(SampleRange(raw, spline, first, if first <= last then last - first + 1 else 0))
  }

  /** The intended resampling has a sample at every control point's x. */
  lemma FullRangeCoversControls(raw: seq<Point>, frameStepSize: u32, spline: Spline)
    requires NonDecreasingX(raw)
    ensures var r := InterpolateScoreFullRange(raw, frameStepSize, spline).value;
            forall i :: 0 <= i < |raw| ==> exists k :: 0 <= k < |r| && r[k].x == raw[i].x
  {
    var r := InterpolateScoreFullRange(raw, frameStepSize, spline).value;
    if |raw| >= 2 && frameStepSize > 1 {
      forall i | 0 <= i < |raw|
        ensures exists k :: 0 <= k < |r| && r[k].x == raw[i].x
      {
        var k := raw[i].x - raw[0].x;
        assert raw[0].x <= raw[i].x <= raw[|raw| - 1].x;
        assert r[k].x == raw[i].x;
      }
    } else {
      forall i | 0 <= i < |raw|
        ensures exists k :: 0 <= k < |r| && r[k].x == raw[i].x
      {
        assert r[i].x == raw[i].x;
      }
    }
  }
}
