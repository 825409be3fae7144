/** The trajectory stage (`src/trajectories.rs`): boxes become center
    points, each frame is reduced to one motion sample, and the motion
    signal is rescaled linearly into a target range. */
module Trajectories {
  import opened RustPrelude
  import opened Geometry

  /** The synchronized per-frame centers of every tracker, with the frame
      step they were sampled at and the number of trackers. */
  datatype TrackingTrajectories = TrackingTrajectories(
    timestep: u32,
    trackers: nat,
    trajectories: seq<seq<Point>>)

  /** The center of a box: origin plus half the extent, halved toward zero
      (Rust's `/` on `i32`), so it lies at most half a pixel from the true
      center, on the origin's side. */
  function CenterPoint(b: Rect): (p: Point)
    ensures b.width >= 0 ==> 0 <= b.width - 2 * (p.x - b.x) <= 1
    ensures b.width < 0 ==> 0 <= 2 * (p.x - b.x) - b.width <= 1
    ensures b.height >= 0 ==> 0 <= b.height - 2 * (p.y - b.y) <= 1
    ensures b.height < 0 ==> 0 <= 2 * (p.y - b.y) - b.height <= 1
  {
    Point(b.x + DivTrunc(b.width, 2), b.y + DivTrunc(b.height, 2))
  }

  /** The centers of one frame's boxes, pushed in tracker order. */
  function FrameCenters(frame: seq<Rect>): (r: seq<Point>)
    ensures |r| == |frame|
    ensures forall j :: 0 <= j < |frame| ==> r[j] == CenterPoint(frame[j])
  {
    if |frame| == 0 then []
    else FrameCenters(frame[..|frame| - 1]) + [CenterPoint(frame[|frame| - 1])]
  }

  /** `get_center_points`: the frames, in order, each mapped to its centers. */
  function GetCenterPoints(boxes: seq<seq<Rect>>): (r: seq<seq<Point>>)
    ensures |r| == |boxes|
    ensures forall i :: 0 <= i < |boxes| ==> |r[i]| == |boxes[i]|
    ensures forall i, j :: 0 <= i < |boxes| && 0 <= j < |boxes[i]| ==>
              r[i][j] == CenterPoint(boxes[i][j])
  {
    if |boxes| == 0 then []
    else GetCenterPoints(boxes[..|boxes| - 1]) + [FrameCenters(boxes[|boxes| - 1])]
  }

  /** `TrackingTrajectories::new`. */
  function New(timestep: u32, trackers: nat, boxes: seq<seq<Rect>>): (t: TrackingTrajectories)
    ensures t.timestep == timestep && t.trackers == trackers
    ensures t.trajectories == GetCenterPoints(boxes)
  {
    TrackingTrajectories(timestep, trackers, GetCenterPoints(boxes))
  }

  /** Every frame holds at least `k` centers. */
  ghost predicate AllFramesHold(frames: seq<seq<Point>>, k: nat) {
    forall i :: 0 <= i < |frames| ==> |frames[i]| >= k
  }

  /** The lowest first-tracker center y over all frames (the baseline). */
  function MinFirstY(frames: seq<seq<Point>>): (m: int)
    requires |frames| > 0 && AllFramesHold(frames, 1)
    ensures forall i :: 0 <= i < |frames| ==> m <= frames[i][0].y
    ensures exists i :: 0 <= i < |frames| && frames[i][0].y == m
  {
    if |frames| == 1 then frames[0][0].y
    else
      var m := MinFirstY(frames[..|frames| - 1]);
      var last := frames[|frames| - 1][0].y;
      if last < m then last else m
  }

  /** The x of the sample for frame `idx`: one frame later than its index,
      since the initialization frame yields no sample, times the step, cast
      from `usize` to `i32`. */
  function SampleX(idx: nat, timestep: u32): i32 {
    WrapI32((idx + 1) * timestep)
  }

  /** The loop of `get_y_diff` for one or two trackers, frame by frame. */
  function Reduce(frames: seq<seq<Point>>, timestep: u32, trackers: nat, minY: int): (r: Result<seq<Point>>)
    requires trackers == 1 || trackers == 2
    requires AllFramesHold(frames, 1)
    ensures r.Ok? <==> trackers == 1 || AllFramesHold(frames, 2)
    ensures r.Ok? ==> |r.value| == |frames|
    ensures r.Ok? ==> forall i :: 0 <= i < |frames| ==> r.value[i].x == SampleX(i, timestep)
    ensures r.Ok? && trackers == 1 ==>
              forall i :: 0 <= i < |frames| ==> r.value[i].y == frames[i][0].y - minY
    ensures r.Ok? && trackers == 2 ==>
              forall i :: 0 <= i < |frames| ==> r.value[i].y == frames[i][0].y - frames[i][1].y
  {
    if |frames| == 0 then Ok([])
    else
      var init :- Reduce(frames[..|frames| - 1], timestep, trackers, minY);
      var f := frames[|frames| - 1];
      var x := SampleX(|frames| - 1, timestep);
      if trackers == 1 then Ok(init + [Point(x, f[0].y - minY)])
      else if |f| < 2 then Panic(MissingSecondBox)
      else Ok(init + [Point(x, f[0].y - f[1].y)])
  }

  /** `get_y_diff`: one motion sample per frame.  With one tracker the
      sample is the first center's height above the lowest one seen; with
      two it is the signed distance between the two centers; any other
      tracker count ends the loop at once.  The baseline scan unwraps the
      first center of every frame before the loop starts. */
  function GetYDiff(t: TrackingTrajectories): (r: Result<seq<Point>>)
    ensures r.Ok? <==>
              |t.trajectories| > 0 &&
              AllFramesHold(t.trajectories, if t.trackers == 2 then 2 else 1)
    ensures r.Ok? && (t.trackers == 1 || t.trackers == 2) ==>
              |r.value| == |t.trajectories| &&
              forall i :: 0 <= i < |r.value| ==> r.value[i].x == SampleX(i, t.timestep)
    ensures r.Ok? && t.trackers == 1 ==>
              (forall i :: 0 <= i < |r.value| ==> r.value[i].y >= 0) &&
              (exists i :: 0 <= i < |r.value| && r.value[i].y == 0) &&
              (forall i, j :: 0 <= i < |r.value| && 0 <= j < |r.value| ==>
                 r.value[i].y - r.value[j].y == t.trajectories[i][0].y - t.trajectories[j][0].y)
    ensures r.Ok? && t.trackers == 2 ==>
              forall i :: 0 <= i < |r.value| ==>
                r.value[i].y == t.trajectories[i][0].y - t.trajectories[i][1].y
    ensures r.Ok? && t.trackers != 1 && t.trackers != 2 ==> r.value == []
  {
    var frames := t.trajectories;
    if |frames| == 0 then Panic(NoFrames)
    else if exists i :: 0 <= i < |frames| && |frames[i]| == 0 then Panic(EmptyFrame)
    else
      var minY := MinFirstY(frames);
      if t.trackers == 1 || t.trackers == 2 then Reduce(frames, t.timestep, t.trackers, minY)
      else Ok([])
  }

  /** The smallest sample value of a non-empty signal. */
  function MinY(s: seq<Point>): (m: int)
    requires |s| > 0
    ensures forall i :: 0 <= i < |s| ==> m <= s[i].y
    ensures exists i :: 0 <= i < |s| && s[i].y == m
  {
    if |s| == 1 then s[0].y
    else
      var m := MinY(s[..|s| - 1]);
      if s[|s| - 1].y < m then s[|s| - 1].y else m
  }

  /** The largest sample value of a non-empty signal. */
  function MaxY(s: seq<Point>): (m: int)
    requires |s| > 0
    ensures forall i :: 0 <= i < |s| ==> s[i].y <= m
    ensures exists i :: 0 <= i < |s| && s[i].y == m
  {
    if |s| == 1 then s[0].y
    else
      var m := MaxY(s[..|s| - 1]);
      if s[|s| - 1].y > m then s[|s| - 1].y else m
  }

  /** One rescaled sample, computed in floating point and cast to `i32`.
      A constant signal divides zero by zero; NaN casts to 0. */
  function ScaleValue(y: int, minY: int, maxY: int, lower: i32, upper: i32): (v: i32)
    ensures maxY <= minY ==> v == 0
    ensures minY < maxY && minY <= y <= maxY ==> (lower <= v <= upper) || (upper <= v <= lower)
  {
    if maxY <= minY then 0
    else
      var l := Linear(y, minY, maxY, lower, upper);
      if y < minY || maxY < y then FloatToI32(l)
      else
        LinearBetween(y, minY, maxY, lower, upper);
        if lower <= upper then
          FloatToI32Monotone(lower as real, l);
          FloatToI32Monotone(l, upper as real);
          FloatToI32(l)
        else
          FloatToI32Monotone(upper as real, l);
          FloatToI32Monotone(l, lower as real);
          FloatToI32(l)
  }

  /** Inside the signal's range the exact rescale lies between the bounds. */
  lemma LinearBetween(y: int, minY: int, maxY: int, lower: i32, upper: i32)
    requires minY <= y <= maxY && minY < maxY
    ensures lower <= upper ==> lower as real <= Linear(y, minY, maxY, lower, upper) <= upper as real
    ensures upper <= lower ==> upper as real <= Linear(y, minY, maxY, lower, upper) <= lower as real
  {
    var d := (maxY - minY) as real;
    assert (upper - lower) as real * d / d == (upper - lower) as real;
    assert Linear(maxY, minY, maxY, lower, upper) == upper as real;
    assert Linear(minY, minY, maxY, lower, upper) == lower as real;
    LinearMonotone(minY, y, minY, maxY, lower, upper);
    LinearMonotone(y, maxY, minY, maxY, lower, upper);
  }

  /** `scale_y`: the linear map taking the signal's minimum to `lower`
      (default 0) and its maximum to `upper` (default 100). */
  function ScaleY(input: seq<Point>, lower: Option<i32>, upper: Option<i32>): (r: Result<seq<Point>>)
    ensures r.Ok? <==> |input| > 0
    ensures r.Ok? ==> |r.value| == |input|
    ensures r.Ok? ==> forall i :: 0 <= i < |input| ==> r.value[i].x == input[i].x
  {
    if |input| == 0 then Panic(EmptySignal)
    else
      var lo := lower.GetOr(0);
      var hi := upper.GetOr(100);
      var minY := MinY(input);
      var maxY := MaxY(input);
      Ok(seq(|input|, i requires 0 <= i < |input| =>
        Point(input[i].x, ScaleValue(input[i].y, minY, maxY, lo, hi))))
  }

  /** The signal takes at least two different values. */
  ghost predicate NonConstant(s: seq<Point>) {
    exists i, j :: 0 <= i < |s| && 0 <= j < |s| && s[i].y != s[j].y
  }

  lemma ScaleValueEnds(minY: int, maxY: int, lower: i32, upper: i32)
    requires minY < maxY
    ensures ScaleValue(minY, minY, maxY, lower, upper) == lower
    ensures ScaleValue(maxY, minY, maxY, lower, upper) == upper
  {
    var d := (maxY - minY) as real;
    assert (upper - lower) as real * d / d == (upper - lower) as real;
    assert Linear(maxY, minY, maxY, lower, upper) == upper as real;
    assert Linear(minY, minY, maxY, lower, upper) == lower as real;
    assert Trunc(upper as real) == upper;
    assert Trunc(lower as real) == lower;
  }

  /** The rescale before the cast, in exact arithmetic. */
  function Linear(y: int, minY: int, maxY: int, lower: i32, upper: i32): real
    requires minY < maxY
  {
    (upper - lower) as real * (y - minY) as real / (maxY - minY) as real + lower as real
  }

  lemma MulNonNegative(a: real, b: real)
    requires 0.0 <= a && 0.0 <= b
    ensures 0.0 <= a * b
  {
  }

  lemma DivPositive(a: real, b: real, d: real)
    requires a <= b && 0.0 < d
    ensures a / d <= b / d
  {
    assert b / d - a / d == (b - a) / d;
  }

  lemma LinearMonotone(y1: int, y2: int, minY: int, maxY: int, lower: i32, upper: i32)
    requires y1 <= y2 && minY < maxY
    ensures lower <= upper ==> Linear(y1, minY, maxY, lower, upper) <= Linear(y2, minY, maxY, lower, upper)
    ensures upper <= lower ==> Linear(y2, minY, maxY, lower, upper) <= Linear(y1, minY, maxY, lower, upper)
  {
    var d := (maxY - minY) as real;
    var k := (upper - lower) as real;
    var a := k * (y1 - minY) as real;
    var b := k * (y2 - minY) as real;
    assert b - a == k * (y2 - y1) as real;
    if lower <= upper {
      MulNonNegative(k, (y2 - y1) as real);
      DivPositive(a, b, d);
    } else {
      MulNonNegative(-k, (y2 - y1) as real);
      DivPositive(b, a, d);
    }
  }

  lemma ScaleValueMonotone(y1: int, y2: int, minY: int, maxY: int, lower: i32, upper: i32)
    requires y1 <= y2 && minY <= maxY
    ensures lower <= upper ==> ScaleValue(y1, minY, maxY, lower, upper) <= ScaleValue(y2, minY, maxY, lower, upper)
    ensures upper <= lower ==> ScaleValue(y2, minY, maxY, lower, upper) <= ScaleValue(y1, minY, maxY, lower, upper)
  {
    if minY < maxY {
      var l1 := Linear(y1, minY, maxY, lower, upper);
      var l2 := Linear(y2, minY, maxY, lower, upper);
      LinearMonotone(y1, y2, minY, maxY, lower, upper);
      assert ScaleValue(y1, minY, maxY, lower, upper) == FloatToI32(l1);
      assert ScaleValue(y2, minY, maxY, lower, upper) == FloatToI32(l2);
      if lower <= upper {
        FloatToI32Monotone(l1, l2);
      } else {
        FloatToI32Monotone(l2, l1);
      }
    }
  }

  /** A constant signal is flattened to 0, whatever the target range. */
  lemma ScaleYConstant(input: seq<Point>, lower: Option<i32>, upper: Option<i32>)
    requires |input| > 0
    requires !NonConstant(input)
    ensures forall i :: 0 <= i < |input| ==> ScaleY(input, lower, upper).value[i].y == 0
  {
    var minY, maxY := MinY(input), MaxY(input);
    var i :| 0 <= i < |input| && input[i].y == minY;
    var j :| 0 <= j < |input| && input[j].y == maxY;
    assert minY == maxY;
  }

  /** Sample `i` of the rescale is its value mapped by `ScaleValue`. */
  lemma ScaleYAt(input: seq<Point>, lower: Option<i32>, upper: Option<i32>, i: nat)
    requires i < |input|
    ensures ScaleY(input, lower, upper).value[i].y
              == ScaleValue(input[i].y, MinY(input), MaxY(input), lower.GetOr(0), upper.GetOr(100))
  {
  }

  /** A non-constant signal has its minimum below its maximum. */
  lemma NonConstantRange(input: seq<Point>)
    requires NonConstant(input)
    ensures |input| > 0 && MinY(input) < MaxY(input)
  {
    var a, b :| 0 <= a < |input| && 0 <= b < |input| && input[a].y != input[b].y;
    assert MinY(input) <= input[a].y <= MaxY(input) && MinY(input) <= input[b].y <= MaxY(input);
  }

  /** Where the signal spans a range, a sample at the minimum becomes
      `lower`, one at the maximum becomes `upper`, and every sample lands
      between the two. */
  lemma ScaleYSample(input: seq<Point>, lower: Option<i32>, upper: Option<i32>, i: nat)
    requires i < |input| && MinY(input) < MaxY(input)
    ensures var v, lo, hi := ScaleY(input, lower, upper).value[i].y, lower.GetOr(0), upper.GetOr(100);
            && (input[i].y == MinY(input) ==> v == lo)
            && (input[i].y == MaxY(input) ==> v == hi)
            && ((lo <= v <= hi) || (hi <= v <= lo))
  {
    ScaleYAt(input, lower, upper, i);
    ScaleValueEnds(MinY(input), MaxY(input), lower.GetOr(0), upper.GetOr(100));
  }

  /** Sample `i` holds the signal's smallest value. */
  ghost predicate LeastAt(s: seq<Point>, i: nat)
    requires i < |s|
  {
    forall k :: 0 <= k < |s| ==> s[i].y <= s[k].y
  }

  /** Sample `i` holds the signal's largest value. */
  ghost predicate GreatestAt(s: seq<Point>, i: nat)
    requires i < |s|
  {
    forall k :: 0 <= k < |s| ==> s[k].y <= s[i].y
  }

  /** For a non-constant signal the minimum lands on `lower`, the maximum
      on `upper`, and every sample between them. */
  lemma ScaleYExtremes(input: seq<Point>, lower: Option<i32>, upper: Option<i32>)
    requires NonConstant(input)
    ensures var r := ScaleY(input, lower, upper).value;
            var lo, hi := lower.GetOr(0), upper.GetOr(100);
            && (forall i :: 0 <= i < |input| && LeastAt(input, i) ==> r[i].y == lo)
            && (forall i :: 0 <= i < |input| && GreatestAt(input, i) ==> r[i].y == hi)
            && (forall i :: 0 <= i < |input| ==>
                  (lo <= r[i].y <= hi) || (hi <= r[i].y <= lo))
  {
    var r := ScaleY(input, lower, upper).value;
    var lo, hi := lower.GetOr(0), upper.GetOr(100);
    NonConstantRange(input);
    forall i | 0 <= i < |input|
      ensures LeastAt(input, i) ==> r[i].y == lo
      ensures GreatestAt(input, i) ==> r[i].y == hi
      ensures (lo <= r[i].y <= hi) || (hi <= r[i].y <= lo)
    {
      var m :| 0 <= m < |input| && input[m].y == MinY(input);
      var n :| 0 <= n < |input| && input[n].y == MaxY(input);
      ScaleYSample(input, lower, upper, i);
    }
  }

  /** The rescale keeps the order of the samples when `upper >= lower` and
      reverses it when `upper <= lower`. */
  lemma ScaleYMonotone(input: seq<Point>, lower: Option<i32>, upper: Option<i32>)
    requires |input| > 0
    ensures var r := ScaleY(input, lower, upper).value;
            var lo, hi := lower.GetOr(0), upper.GetOr(100);
            forall i, j :: 0 <= i < |input| && 0 <= j < |input| && input[i].y <= input[j].y ==>
              (lo <= hi ==> r[i].y <= r[j].y) && (hi <= lo ==> r[j].y <= r[i].y)
  {
    var lo, hi := lower.GetOr(0), upper.GetOr(100);
    var minY, maxY := MinY(input), MaxY(input);
    forall i, j | 0 <= i < |input| && 0 <= j < |input| && input[i].y <= input[j].y {
      ScaleValueMonotone(input[i].y, input[j].y, minY, maxY, lo, hi);
    }
  }

  lemma {:induction false} MulStrict(a: int, b: int, c: int)
    requires a < b && c >= 1
    ensures a * c < b * c
    decreases c
  {
    if c > 1 {
      MulStrict(a, b, c - 1);
      assert a * c == a * (c - 1) + a;
      assert b * c == b * (c - 1) + b;
    }
  }

  /** Below the wrap-around point the sample x is the exact product. */
  lemma SampleXExact(idx: nat, n: nat, timestep: u32)
    requires idx < n && n * timestep <= I32_MAX
    ensures SampleX(idx, timestep) == (idx + 1) * timestep
  {
    if idx + 1 < n && timestep >= 1 {
      MulStrict(idx + 1, n, timestep);
    }
  }

  /** With a positive step and no `i32` wrap-around the sample x values
      strictly increase, one step apart. */
  lemma YDiffXIncreasing(t: TrackingTrajectories)
    requires t.trackers == 1 || t.trackers == 2
    requires t.timestep >= 1
    requires |t.trajectories| > 0 && AllFramesHold(t.trajectories, t.trackers)
    requires |t.trajectories| * t.timestep <= I32_MAX
    ensures var r := GetYDiff(t).value;
            && StrictlyIncreasingX(r)
            && forall i :: 0 <= i < |r| - 1 ==> r[i + 1].x - r[i].x == t.timestep
  {
    var r := GetYDiff(t).value;
    var n, ts := |t.trajectories|, t.timestep;
    assert |r| == n && forall i :: 0 <= i < n ==> r[i].x == SampleX(i, ts);
    forall i | 0 <= i < n
      ensures r[i].x == (i + 1) * ts
    {
      SampleXExact(i, n, ts);
    }
    forall i, j | 0 <= i < j < n
      ensures r[i].x < r[j].x
    {
      MulStrict(i + 1, j + 1, ts);
    }
    forall i | 0 <= i < n - 1
      ensures r[i + 1].x - r[i].x == ts
    {
      assert (i + 2) * ts == (i + 1) * ts + ts;
    }
  }
}
