/** The chain that turns the collected tracking boxes into a script, in the
    order of `src/main.rs`: center points, one motion sample per frame,
    rescale with the call site's bounds, resample, simplify, emit.
    `ScriptFromBoxes` resamples as the code is written; the `Corrected`
    chain uses the resampler that covers every control point (see
    `Interpolate`).  The two agree whenever no resampling happens. */
module Pipeline {
  import opened RustPrelude
  import opened Geometry
  import Trajectories
  import Interpolate
  import Simplify
  import Funscript

  /** The bounds the call site passes to `scale_y`, in parameter order:
      `lower` is 100 and `upper` is 0, so higher positions on screen (a
      smaller center y) end up at larger script positions. */
  const SCALE_LOWER: i32 := 100
  const SCALE_UPPER: i32 := 0

  /** The script built from the boxes of every collected frame.  A script
      comes out exactly when there is at least one frame, one or two
      tracked persons, and every frame holds a box per person: any other
      person count leaves the motion signal empty, a frame short of boxes
      panics in `get_y_diff`, and rescaling an empty signal panics. */
  function ScriptFromBoxes(frameStepSize: u32, persons: nat, boxes: seq<seq<Rect>>, epsilon: real,
                           spline: Interpolate.Spline, rdp: Simplify.RdpLibrary,
                           videoFps: real, startTimeInMs: real): (r: Result<Funscript.Funscript>)
    ensures r.Ok? <==> |boxes| > 0 && (persons == 1 || persons == 2)
                       && forall i :: 0 <= i < |boxes| ==> |boxes[i]| >= persons
  {
    var tracking := Trajectories.New(frameStepSize, persons, boxes);
    var diff :- Trajectories.GetYDiff(tracking);
    ScriptFromSignal(diff, frameStepSize, epsilon, spline, rdp, videoFps, startTimeInMs)
  }

  /** The stages after the motion signal, with `interpolate_score` as
      written: they fail exactly when the signal is empty, on the min/max
      unwrap of `scale_y`. */
  function ScriptFromSignal(diff: seq<Point>, frameStepSize: u32, epsilon: real,
                            spline: Interpolate.Spline, rdp: Simplify.RdpLibrary,
                            videoFps: real, startTimeInMs: real): (r: Result<Funscript.Funscript>)
    ensures r.Ok? <==> |diff| > 0
  {
    var raw :- Trajectories.ScaleY(diff, Some(SCALE_LOWER), Some(SCALE_UPPER));
    var interpolated := Interpolate.InterpolateScore(raw, frameStepSize, spline).value;
    var score := Simplify.Rdp(interpolated, epsilon, rdp);
    Ok(Funscript.New(videoFps, startTimeInMs, score))
  }

  /** The script with the corrected resampler. */
  function CorrectedScriptFromBoxes(frameStepSize: u32, persons: nat, boxes: seq<seq<Rect>>, epsilon: real,
                                    spline: Interpolate.Spline, rdp: Simplify.RdpLibrary,
                                    videoFps: real, startTimeInMs: real): Result<Funscript.Funscript>
  {
    var tracking := Trajectories.New(frameStepSize, persons, boxes);
    var diff :- Trajectories.GetYDiff(tracking);
    CorrectedScriptFromSignal(diff, frameStepSize, epsilon, spline, rdp, videoFps, startTimeInMs)
  }

  /** The stages after the motion signal, with the corrected resampler. */
  function CorrectedScriptFromSignal(diff: seq<Point>, frameStepSize: u32, epsilon: real,
                                     spline: Interpolate.Spline, rdp: Simplify.RdpLibrary,
                                     videoFps: real, startTimeInMs: real): Result<Funscript.Funscript>
  {
    var raw :- Trajectories.ScaleY(diff, Some(SCALE_LOWER), Some(SCALE_UPPER));
    var interpolated := Interpolate.InterpolateScoreFullRange(raw, frameStepSize, spline).value;
    var score := Simplify.Rdp(interpolated, epsilon, rdp);
    Ok(Funscript.New(videoFps, startTimeInMs, score))
  }

  /** With a frame step of at most one neither resampler changes the
      signal, so the chain as written and the corrected one give the same
      script. */
  lemma CorrectedAgrees(frameStepSize: u32, persons: nat, boxes: seq<seq<Rect>>, epsilon: real,
                        spline: Interpolate.Spline, rdp: Simplify.RdpLibrary,
                        videoFps: real, startTimeInMs: real)
    requires frameStepSize <= 1
    ensures CorrectedScriptFromBoxes(frameStepSize, persons, boxes, epsilon, spline, rdp, videoFps, startTimeInMs)
              == ScriptFromBoxes(frameStepSize, persons, boxes, epsilon, spline, rdp, videoFps, startTimeInMs)
  {
  }

  /** Every frame holds at least one box. */
  ghost predicate Tracked(boxes: seq<seq<Rect>>) {
    |boxes| > 0 && forall i :: 0 <= i < |boxes| ==> |boxes[i]| > 0
  }

  /** The center height of the first box of frame `i`. */
  function FirstCenterY(boxes: seq<seq<Rect>>, i: nat): int
    requires i < |boxes| && |boxes[i]| > 0
  {
    Trajectories.CenterPoint(boxes[i][0]).y
  }

  /** A person count other than one or two gives an empty motion signal,
      and rescaling an empty signal panics. */
  lemma OtherPersonCountPanics(frameStepSize: u32, persons: nat, boxes: seq<seq<Rect>>, epsilon: real,
                               spline: Interpolate.Spline, rdp: Simplify.RdpLibrary,
                               videoFps: real, startTimeInMs: real)
    requires persons != 1 && persons != 2
    requires Tracked(boxes)
    ensures ScriptFromBoxes(frameStepSize, persons, boxes, epsilon, spline, rdp, videoFps, startTimeInMs)
              == Panic(EmptySignal)
  {
    var tracking := Trajectories.New(frameStepSize, persons, boxes);
    assert Trajectories.AllFramesHold(tracking.trajectories, 1);
  }

  /** The box of frame `i` is highest on screen (smallest center y). */
  ghost predicate HighestAt(boxes: seq<seq<Rect>>, i: nat)
    requires Tracked(boxes) && i < |boxes|
  {
    forall k :: 0 <= k < |boxes| ==> FirstCenterY(boxes, i) <= FirstCenterY(boxes, k)
  }

  /** The box of frame `i` is lowest on screen (largest center y). */
  ghost predicate LowestAt(boxes: seq<seq<Rect>>, i: nat)
    requires Tracked(boxes) && i < |boxes|
  {
    forall k :: 0 <= k < |boxes| ==> FirstCenterY(boxes, k) <= FirstCenterY(boxes, i)
  }

  /** With one person the motion signal follows the first box's center:
      one sample per frame, differing as the center heights differ. */
  lemma OnePersonSignal(frameStepSize: u32, boxes: seq<seq<Rect>>)
    requires Tracked(boxes)
    ensures var r := Trajectories.GetYDiff(Trajectories.New(frameStepSize, 1, boxes));
            && r.Ok? && |r.value| == |boxes|
            && forall i, k :: 0 <= i < |boxes| && 0 <= k < |boxes| ==>
                 r.value[i].y - r.value[k].y == FirstCenterY(boxes, i) - FirstCenterY(boxes, k)
  {
    var frames := Trajectories.New(frameStepSize, 1, boxes).trajectories;
    assert Trajectories.AllFramesHold(frames, 1);
    assert forall i :: 0 <= i < |boxes| ==> frames[i][0].y == FirstCenterY(boxes, i);
  }

  /** The call site's rescale of a non-constant signal: every value in
      [0, 100], the minimum at 100 and the maximum at 0. */
  lemma CallSiteScale(diff: seq<Point>)
    requires Trajectories.NonConstant(diff)
    ensures var r := Trajectories.ScaleY(diff, Some(SCALE_LOWER), Some(SCALE_UPPER));
            && r.Ok? && |r.value| == |diff|
            && (forall i :: 0 <= i < |diff| ==> 0 <= r.value[i].y <= 100)
            && (forall i :: 0 <= i < |diff| && Trajectories.LeastAt(diff, i) ==> r.value[i].y == 100)
            && (forall i :: 0 <= i < |diff| && Trajectories.GreatestAt(diff, i) ==> r.value[i].y == 0)
  {
    Trajectories.ScaleYExtremes(diff, Some(SCALE_LOWER), Some(SCALE_UPPER));
  }

  /** Without resampling and simplification the script has one action per
      rescaled sample, positioned at the sample's value. */
  lemma UnchangedTail(raw: seq<Point>, frameStepSize: u32, epsilon: real,
                      spline: Interpolate.Spline, rdp: Simplify.RdpLibrary,
                      videoFps: real, startTimeInMs: real)
    requires frameStepSize <= 1 && epsilon <= Simplify.MIN_EPSILON
    requires forall i :: 0 <= i < |raw| ==> 0 <= raw[i].y <= 100
    ensures var interpolated := Interpolate.InterpolateScore(raw, frameStepSize, spline).value;
            var acts := Funscript.New(videoFps, startTimeInMs, Simplify.Rdp(interpolated, epsilon, rdp)).content.actions;
            && |acts| == |raw|
            && forall i :: 0 <= i < |raw| ==> acts[i].pos == raw[i].y
  {
    assert Interpolate.InterpolateScore(raw, frameStepSize, spline).value == raw;
    assert Simplify.Rdp(raw, epsilon, rdp) == raw;
  }

  /** One action per sample, every position in [0, 100], the signal's
      minimum at 100 and its maximum at 0. */
  ghost predicate PositionsFollow(diff: seq<Point>, acts: seq<Funscript.FunscriptAction>) {
    && |acts| == |diff|
    && (forall i :: 0 <= i < |diff| ==> 0 <= acts[i].pos <= 100)
    && (forall i :: 0 <= i < |diff| && Trajectories.LeastAt(diff, i) ==> acts[i].pos == 100)
    && (forall i :: 0 <= i < |diff| && Trajectories.GreatestAt(diff, i) ==> acts[i].pos == 0)
  }

  /** The stages after a non-constant motion signal, without resampling
      and simplification: one action per sample, every position in
      [0, 100], the signal's minimum at 100 and its maximum at 0. */
  lemma SignalPositions(diff: seq<Point>, frameStepSize: u32, epsilon: real,
                        spline: Interpolate.Spline, rdp: Simplify.RdpLibrary,
                        videoFps: real, startTimeInMs: real)
    requires frameStepSize <= 1 && epsilon <= Simplify.MIN_EPSILON
    requires Trajectories.NonConstant(diff)
    ensures var r := ScriptFromSignal(diff, frameStepSize, epsilon, spline, rdp, videoFps, startTimeInMs);
            r.Ok? && PositionsFollow(diff, r.value.content.actions)
  {
    var raw := Trajectories.ScaleY(diff, Some(SCALE_LOWER), Some(SCALE_UPPER)).value;
    assert |raw| == |diff|
        && (forall i :: 0 <= i < |diff| ==> 0 <= raw[i].y <= 100)
        && (forall i :: 0 <= i < |diff| && Trajectories.LeastAt(diff, i) ==> raw[i].y == 100)
        && (forall i :: 0 <= i < |diff| && Trajectories.GreatestAt(diff, i) ==> raw[i].y == 0) by {
      CallSiteScale(diff);
    }
    SignalTail(diff, frameStepSize, epsilon, spline, rdp, videoFps, startTimeInMs);
    var r := ScriptFromSignal(diff, frameStepSize, epsilon, spline, rdp, videoFps, startTimeInMs);
    PositionsFromScale(diff, raw, r.value.content.actions);
  }

  /** Without resampling and simplification a non-empty signal gives one
      action per rescaled sample, at the sample's value. */
  lemma SignalTail(diff: seq<Point>, frameStepSize: u32, epsilon: real,
                   spline: Interpolate.Spline, rdp: Simplify.RdpLibrary,
                   videoFps: real, startTimeInMs: real)
    requires frameStepSize <= 1 && epsilon <= Simplify.MIN_EPSILON
    requires |diff| > 0
    requires forall i :: 0 <= i < |diff| ==>
               0 <= Trajectories.ScaleY(diff, Some(SCALE_LOWER), Some(SCALE_UPPER)).value[i].y <= 100
    ensures var raw := Trajectories.ScaleY(diff, Some(SCALE_LOWER), Some(SCALE_UPPER)).value;
            var r := ScriptFromSignal(diff, frameStepSize, epsilon, spline, rdp, videoFps, startTimeInMs);
            && r.Ok? && |r.value.content.actions| == |raw|
            && forall i :: 0 <= i < |raw| ==> r.value.content.actions[i].pos == raw[i].y
  {
    var scaled := Trajectories.ScaleY(diff, Some(SCALE_LOWER), Some(SCALE_UPPER));
    assert scaled.Ok?;
    var interpolated := Interpolate.InterpolateScore(scaled.value, frameStepSize, spline).value;
    assert ScriptFromSignal(diff, frameStepSize, epsilon, spline, rdp, videoFps, startTimeInMs)
             == Ok(Funscript.New(videoFps, startTimeInMs, Simplify.Rdp(interpolated, epsilon, rdp)));
    UnchangedTail(scaled.value, frameStepSize, epsilon, spline, rdp, videoFps, startTimeInMs);
  }

  /** Actions placed at the call site's rescale of a signal follow it. */
  lemma PositionsFromScale(diff: seq<Point>, raw: seq<Point>, acts: seq<Funscript.FunscriptAction>)
    requires |raw| == |diff| && |acts| == |raw|
    requires forall i :: 0 <= i < |raw| ==> acts[i].pos == raw[i].y
    requires forall i :: 0 <= i < |diff| ==> 0 <= raw[i].y <= 100
    requires forall i :: 0 <= i < |diff| && Trajectories.LeastAt(diff, i) ==> raw[i].y == 100
    requires forall i :: 0 <= i < |diff| && Trajectories.GreatestAt(diff, i) ==> raw[i].y == 0
    ensures PositionsFollow(diff, acts)
  {
    forall i | 0 <= i < |diff|
      ensures 0 <= acts[i].pos <= 100
      ensures Trajectories.LeastAt(diff, i) ==> acts[i].pos == 100
      ensures Trajectories.GreatestAt(diff, i) ==> acts[i].pos == 0
    {
      assert acts[i].pos == raw[i].y;
    }
  }

  /** With one person the motion signal follows the first box's center:
      the highest box holds the signal's minimum, the lowest its maximum,
      and boxes at different heights make the signal non-constant. */
  lemma OnePersonExtremes(frameStepSize: u32, boxes: seq<seq<Rect>>)
    requires Tracked(boxes)
    ensures var r := Trajectories.GetYDiff(Trajectories.New(frameStepSize, 1, boxes));
            && r.Ok? && |r.value| == |boxes|
            && (forall i :: 0 <= i < |boxes| && HighestAt(boxes, i) ==> Trajectories.LeastAt(r.value, i))
            && (forall i :: 0 <= i < |boxes| && LowestAt(boxes, i) ==> Trajectories.GreatestAt(r.value, i))
            && ((exists i, j :: 0 <= i < |boxes| && 0 <= j < |boxes| && FirstCenterY(boxes, i) != FirstCenterY(boxes, j))
                  ==> Trajectories.NonConstant(r.value))
  {
    OnePersonSignal(frameStepSize, boxes);
    var diff := Trajectories.GetYDiff(Trajectories.New(frameStepSize, 1, boxes)).value;
    forall i | 0 <= i < |boxes| && HighestAt(boxes, i)
      ensures Trajectories.LeastAt(diff, i)
    {
      forall k | 0 <= k < |boxes| ensures diff[i].y <= diff[k].y {
        assert diff[i].y - diff[k].y == FirstCenterY(boxes, i) - FirstCenterY(boxes, k);
      }
    }
    forall i | 0 <= i < |boxes| && LowestAt(boxes, i)
      ensures Trajectories.GreatestAt(diff, i)
    {
      forall k | 0 <= k < |boxes| ensures diff[k].y <= diff[i].y {
        assert diff[i].y - diff[k].y == FirstCenterY(boxes, i) - FirstCenterY(boxes, k);
      }
    }
    if exists i, j :: 0 <= i < |boxes| && 0 <= j < |boxes| && FirstCenterY(boxes, i) != FirstCenterY(boxes, j) {
      var a, b :| 0 <= a < |boxes| && 0 <= b < |boxes| && FirstCenterY(boxes, a) != FirstCenterY(boxes, b);
      assert diff[a].y - diff[b].y == FirstCenterY(boxes, a) - FirstCenterY(boxes, b);
    }
  }

  /** One tracked person, no resampling and no simplification: there is an
      action per frame, every position lies in [0, 100], the frame whose
      box is highest on screen gets position 100 and the lowest gets 0. */
  lemma OnePersonPositions(frameStepSize: u32, boxes: seq<seq<Rect>>, epsilon: real,
                           spline: Interpolate.Spline, rdp: Simplify.RdpLibrary,
                           videoFps: real, startTimeInMs: real)
    requires frameStepSize <= 1 && epsilon <= Simplify.MIN_EPSILON
    requires Tracked(boxes)
    requires exists i, j :: 0 <= i < |boxes| && 0 <= j < |boxes| && FirstCenterY(boxes, i) != FirstCenterY(boxes, j)
    ensures var r := ScriptFromBoxes(frameStepSize, 1, boxes, epsilon, spline, rdp, videoFps, startTimeInMs);
            && r.Ok?
            && var acts := r.value.content.actions;
            && |acts| == |boxes|
            && (forall i :: 0 <= i < |boxes| ==> 0 <= acts[i].pos <= 100)
            && (forall i :: 0 <= i < |boxes| && HighestAt(boxes, i) ==> acts[i].pos == 100)
            && (forall i :: 0 <= i < |boxes| && LowestAt(boxes, i) ==> acts[i].pos == 0)
  {
    OnePersonExtremes(frameStepSize, boxes);
    var diff := Trajectories.GetYDiff(Trajectories.New(frameStepSize, 1, boxes)).value;
    SignalPositions(diff, frameStepSize, epsilon, spline, rdp, videoFps, startTimeInMs);
  }
}
