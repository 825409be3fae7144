/** The pure helpers of the decoder front-end (`src/ffmpeg.rs`): the
    fixed-size frame chunker behind `FramedRead`, the `HH:MM:SS.mmm`
    formatter for the seek argument, the output-size parser for the video
    filter, and the rule that picks which decoded frames are handed on. */
module Ffmpeg {
  import opened RustPrelude
  import opened Decimal
  import opened Captures

  datatype Dimensions = Dimensions(width: u32, height: u32)

  /* ---------------------------------------------------------------------
     Frame chunking
     --------------------------------------------------------------------- */

  /** The decoder state: the byte size of one BGR frame. */
  datatype VideoFrame = VideoFrame(capacity: nat)

  /** `VideoFrame::new`: three bytes per pixel, computed in `u32`. */
  function NewVideoFrame(width: u32, height: u32): (v: VideoFrame)
    ensures v.capacity <= U32_MAX
    ensures width * height * 3 <= U32_MAX ==> v.capacity == width * height * 3
    ensures (width * height * 3 - v.capacity) % U32_MODULUS == 0
  {
    VideoFrame(WrapU32(width * height * 3))
  }

  /** What one `decode` call yields and what it leaves in the buffer. */
  datatype Decoded = Decoded(frame: Option<seq<u8>>, rest: seq<u8>)

  /** `Decoder::decode`: a whole frame is split off the front of the
      buffer once enough bytes have arrived; otherwise nothing happens.
      Reserving buffer capacity does not change the buffer's bytes. */
  function Decode(v: VideoFrame, src: seq<u8>): (d: Decoded)
    ensures d.frame.Some? <==> |src| >= v.capacity
    ensures d.frame.Some? ==> |d.frame.value| == v.capacity && d.frame.value + d.rest == src
    ensures d.frame.None? ==> d.rest == src
  {
    if |src| >= v.capacity then Decoded(Some(src[..v.capacity]), src[v.capacity..])
    else Decoded(None, src)
  }

  /** With a zero-sized frame every call yields an empty frame and leaves
      the buffer as it was, so the stream never runs dry. */
  lemma ZeroCapacityStalls(src: seq<u8>)
    ensures Decode(VideoFrame(0), src) == Decoded(Some([]), src)
  {
  }

  function Concat(frames: seq<seq<u8>>): seq<u8> {
    if |frames| == 0 then [] else frames[0] + Concat(frames[1..])
  }

  /** The frames split off a byte stream and the unfinished tail. */
  datatype Split = Split(frames: seq<seq<u8>>, rest: seq<u8>)

  /** `FramedRead` driving `decode` until it yields nothing. */
  function DecodeAll(v: VideoFrame, src: seq<u8>): (s: Split)
    requires v.capacity > 0
    ensures forall k :: 0 <= k < |s.frames| ==> |s.frames[k]| == v.capacity
    ensures Concat(s.frames) + s.rest == src
    ensures |s.rest| < v.capacity
    decreases |src|
  {
    var d := Decode(v, src);
    match d.frame
    case None => Split([], src)
    case Some(f) =>
      var tail := DecodeAll(v, d.rest);
      PrependFrame(v.capacity, f, d.rest, tail);
      Split([f] + tail.frames, tail.rest)
  }

  /** A whole frame put in front of the split of the rest of a buffer
      splits the buffer. */
  lemma PrependFrame(size: nat, f: seq<u8>, rest: seq<u8>, tail: Split)
    requires |f| == size
    requires forall k :: 0 <= k < |tail.frames| ==> |tail.frames[k]| == size
    requires Concat(tail.frames) + tail.rest == rest
    ensures var frames := [f] + tail.frames;
            && (forall k :: 0 <= k < |frames| ==> |frames[k]| == size)
            && Concat(frames) + tail.rest == f + rest
  {
    var frames := [f] + tail.frames;
    assert frames[1..] == tail.frames;
    assert Concat(frames) == f + Concat(tail.frames);
    assert Concat(frames) + tail.rest == f + (Concat(tail.frames) + tail.rest);
  }

  lemma {:induction false} ConcatLength(frames: seq<seq<u8>>, size: nat)
    requires forall k :: 0 <= k < |frames| ==> |frames[k]| == size
    ensures |Concat(frames)| == |frames| * size
  {
    if |frames| > 0 {
      ConcatLength(frames[1..], size);
    }
  }

  lemma DivModUnique(a: int, d: int, q: int, r: int)
    requires d > 0 && 0 <= r < d && a == d * q + r
    ensures a / d == q && a % d == r
  {
    var q', r' := a / d, a % d;
    assert d * (q - q') == r' - r;
    MulBounds(d, q - q');
  }

  lemma MulBounds(d: int, k: int)
    requires d > 0
    ensures k >= 1 ==> d * k >= d
    ensures k <= -1 ==> d * k <= -d
  {
  }

  /** A stream splits into as many whole frames as fit in it. */
  lemma DecodeAllFrameCount(v: VideoFrame, src: seq<u8>)
    requires v.capacity > 0
    ensures |DecodeAll(v, src).frames| == |src| / v.capacity
  {
    var s := DecodeAll(v, src);
    ConcatLength(s.frames, v.capacity);
    assert |src| == v.capacity * |s.frames| + |s.rest|;
    DivModUnique(|src|, v.capacity, |s.frames|, |s.rest|);
  }

  /* ---------------------------------------------------------------------
     Seek timestamps
     --------------------------------------------------------------------- */

  const MS_PER_DAY: nat := 86_400_000

  /** `HH:MM:SS.mmm` from the four clock fields, each zero-padded. */
  function Clock(hours: nat, minutes: nat, seconds: nat, millis: nat): string {
    PadZero(ToDecimal(hours), 2) + ":" + PadZero(ToDecimal(minutes), 2) + ":"
      + PadZero(ToDecimal(seconds), 2) + "." + PadZero(ToDecimal(millis), 3)
  }

  /** `millisec_to_timestamp`: hours (modulo a day), minutes, seconds and
      milliseconds of a millisecond count. */
  function MillisecToTimestamp(val: u32): (s: string)
    ensures |s| == 12 && s[2] == ':' && s[5] == ':' && s[8] == '.'
    ensures AllDigits(s[0..2]) && AllDigits(s[3..5]) && AllDigits(s[6..8]) && AllDigits(s[9..12])
  {
    var seconds := (val / 1000) % 60;
    var minutes := (val / (1000 * 60)) % 60;
    var hours := (val / (1000 * 60 * 60)) % 24;
    var millis := val % 1000;
    ClockLayout(hours, minutes, seconds, millis);
    Clock(hours, minutes, seconds, millis)
  }

  /** Four fields of widths 2, 2, 2 and 3 joined by `:`, `:` and `.`
      sit at fixed positions. */
  lemma JoinLayout(a: string, b: string, c: string, d: string)
    requires |a| == 2 && |b| == 2 && |c| == 2 && |d| == 3
    ensures var s := a + ":" + b + ":" + c + "." + d;
            && |s| == 12 && s[2] == ':' && s[5] == ':' && s[8] == '.'
            && s[0..2] == a && s[3..5] == b && s[6..8] == c && s[9..12] == d
  {
  }

  /** A clock field rendered to `w` digits reads back unchanged. */
  lemma FieldLayout(n: nat, w: nat)
    requires 2 <= w <= 3 && n < (if w == 2 then 100 else 1000)
    ensures |PadZero(ToDecimal(n), w)| == w && AllDigits(PadZero(ToDecimal(n), w))
    ensures ParseDecimal(PadZero(ToDecimal(n), w)) == n
  {
    assert Pow10(2) == 100 && Pow10(3) == 1000 by {
      assert Pow10(1) == 10;
    }
    PaddedRoundTrip(n, w);
  }

  /** Fields below 100 (and milliseconds below 1000) are laid out at fixed
      positions and read back unchanged. */
  lemma ClockLayout(hours: nat, minutes: nat, seconds: nat, millis: nat)
    requires hours < 100 && minutes < 100 && seconds < 100 && millis < 1000
    ensures var s := Clock(hours, minutes, seconds, millis);
            && |s| == 12
            && s[2] == ':' && s[5] == ':' && s[8] == '.'
            && AllDigits(s[0..2]) && AllDigits(s[3..5]) && AllDigits(s[6..8]) && AllDigits(s[9..12])
            && ParseDecimal(s[0..2]) == hours && ParseDecimal(s[3..5]) == minutes
            && ParseDecimal(s[6..8]) == seconds && ParseDecimal(s[9..12]) == millis
  {
    FieldLayout(hours, 2);
    FieldLayout(minutes, 2);
    FieldLayout(seconds, 2);
    FieldLayout(millis, 3);
    JoinLayout(PadZero(ToDecimal(hours), 2), PadZero(ToDecimal(minutes), 2),
               PadZero(ToDecimal(seconds), 2), PadZero(ToDecimal(millis), 3));
  }

  /** `a mod (b c)` splits into a digit in base `c` of `a / b` and `a mod b`. */
  lemma ModSplit(a: nat, b: nat, c: nat)
    requires b > 0 && c > 0
    ensures a % (b * c) == (a / b % c) * b + a % b
  {
    var q, r := a / b, a % b;
    var q2, r2 := q / c, q % c;
    assert b * q == b * (c * q2) + b * r2;
    assert a == (b * c) * q2 + (b * r2 + r);
    assert b * r2 <= b * (c - 1);
    DivModUnique(a, b * c, q2, b * r2 + r);
  }

  /** The clock fields of a millisecond count add back up to its time of day. */
  lemma ClockFields(val: nat)
    ensures (val / 3_600_000 % 24) * 3_600_000 + (val / 60_000 % 60) * 60_000
              + (val / 1000 % 60) * 1000 + val % 1000 == val % MS_PER_DAY
  {
    ModSplit(val, 3_600_000, 24);
    ModSplit(val, 60_000, 60);
    ModSplit(val, 1000, 60);
  }

  /** The timestamp is twelve characters `HH:MM:SS.mmm` whose fields are
      in range and spell out the value's time of day. */
  lemma TimestampFields(val: u32)
    ensures var s := MillisecToTimestamp(val);
            && |s| == 12
            && s[2] == ':' && s[5] == ':' && s[8] == '.'
            && AllDigits(s[0..2]) && AllDigits(s[3..5]) && AllDigits(s[6..8]) && AllDigits(s[9..12])
            && var h, m, sec, ms := ParseDecimal(s[0..2]), ParseDecimal(s[3..5]),
                                    ParseDecimal(s[6..8]), ParseDecimal(s[9..12]);
               && h < 24 && m < 60 && sec < 60 && ms < 1000
               && h * 3_600_000 + m * 60_000 + sec * 1000 + ms == val % MS_PER_DAY
  {
    var hours, minutes := (val / 3_600_000) % 24, (val / 60_000) % 60;
    var seconds, millis := (val / 1000) % 60, val % 1000;
    assert MillisecToTimestamp(val) == Clock(hours, minutes, seconds, millis);
    ClockLayout(hours, minutes, seconds, millis);
    ClockFields(val);
  }

  lemma ShiftByMultiple(a: nat, d: nat, k: nat)
    requires d > 0
    ensures (a + d * k) / d == a / d + k
    ensures (a + d * k) % d == a % d
  {
    assert a + d * k == d * (a / d + k) + a % d;
    DivModUnique(a + d * k, d, a / d + k, a % d);
  }

  /** The hours wrap at 24: a value a day later gives the same timestamp. */
  lemma TimestampDaily(val: u32)
    requires val + MS_PER_DAY <= U32_MAX
    ensures MillisecToTimestamp(val) == MillisecToTimestamp(val + MS_PER_DAY)
  {
    var later := val + MS_PER_DAY;
    assert later == val + 1000 * 86_400 == val + 60_000 * 1440 == val + 3_600_000 * 24;
    ShiftByMultiple(val, 1000, 86_400);
    ShiftByMultiple(val / 1000, 60, 1440);
    ShiftByMultiple(val, 60_000, 1440);
    ShiftByMultiple(val / 60_000, 60, 24);
    ShiftByMultiple(val, 3_600_000, 24);
    ShiftByMultiple(val / 3_600_000, 24, 1);
    assert (later / 1000) % 60 == (val / 1000) % 60;
    assert (later / 60_000) % 60 == (val / 60_000) % 60;
    assert (later / 3_600_000) % 24 == (val / 3_600_000) % 24;
    assert later % 1000 == val % 1000;
  }

  /* ---------------------------------------------------------------------
     Output size of the video filter
     --------------------------------------------------------------------- */

  const WIDTH_HEIGHT: Pattern := Pattern("w=", ":h=")
  const SCALE: Pattern := Pattern("scale=", ":")

  /** `parse::<u32>()` of a string of ASCII digits. */
  function ParseU32(digits: string): (v: Option<u32>)
    requires AllDigits(digits)
    ensures v.Some? <==> ParseDecimal(digits) <= U32_MAX
    ensures v.Some? ==> v.value == ParseDecimal(digits)
  {
    var n := ParseDecimal(digits);
    if n <= U32_MAX then Some(n) else None
  }

  /** The size a capture spells, unless a number overflows `u32`. */
  function CaptureDimensions(c: Capture): Option<Dimensions>
    requires WellFormed(c)
  {
    var w := ParseU32(c.first);
    var h := ParseU32(c.second);
    if w.Some? && h.Some? then Some(Dimensions(w.value, h.value)) else None
  }

  /** One loop over the captures: each is parsed (an overflow panics in
      `expect`) and overwrites the previous result. */
  function LastDimensions(caps: seq<Capture>, found: Option<Dimensions>): (r: Result<Option<Dimensions>>)
    requires forall k :: 0 <= k < |caps| ==> WellFormed(caps[k])
    ensures r.Panic? ==> r.fault == DimensionOverflow
    ensures r.Panic? <==> exists k :: 0 <= k < |caps| && CaptureDimensions(caps[k]).None?
    ensures r.Ok? ==> r.value == if |caps| == 0 then found else CaptureDimensions(caps[|caps| - 1])
  {
    if |caps| == 0 then Ok(found)
    else
      var d := CaptureDimensions(caps[0]);
      if d.None? then Panic(DimensionOverflow)
      else
        var r := LastDimensions(caps[1..], d);
        assert forall k :: 1 <= k < |caps| ==> caps[1..][k - 1] == caps[k];
        r
  }

  /** `get_dimension_from_video_filter`: the last `w=..:h=..` match, or
      failing any, the last `scale=..:..` match, or failing both, none. */
  function GetDimensionFromVideoFilter(filter: string): (r: Result<Option<Dimensions>>)
    ensures r.Panic? ==> r.fault == DimensionOverflow
    ensures r.Ok? && r.value.Some? ==> MatchFrom(filter, 0, WIDTH_HEIGHT) || MatchFrom(filter, 0, SCALE)
  {
    NoCapturesIff(filter, 0, WIDTH_HEIGHT);
    NoCapturesIff(filter, 0, SCALE);
    var found :- LastDimensions(CapturesFrom(filter, 0, WIDTH_HEIGHT), None);
    if found.Some? then Ok(found)
    else LastDimensions(CapturesFrom(filter, 0, SCALE), None)
  }

  /** `d` is the size spelled by a match of `p` after which no match of
      `p` starts. */
  ghost predicate LastMatchGives(s: string, p: Pattern, d: Dimensions) {
    exists j :: 0 <= j <= |s| && MatchAt(s, j, p).Some?
      && CaptureDimensions(MatchAt(s, j, p).value) == Some(d)
      && !MatchFrom(s, MatchAt(s, j, p).value.end, p)
  }

  /** The result of parsing one pattern's captures, in terms of matches. */
  lemma PatternPhase(s: string, p: Pattern)
    ensures var r := LastDimensions(CapturesFrom(s, 0, p), None);
            && (r == Ok(None) <==> !MatchFrom(s, 0, p))
            && (r.Ok? && MatchFrom(s, 0, p) ==> r.value.Some? && LastMatchGives(s, p, r.value.value))
            && (r.Panic? ==> MatchFrom(s, 0, p))
  {
    var caps := CapturesFrom(s, 0, p);
    var r := LastDimensions(caps, None);
    NoCapturesIff(s, 0, p);
    if caps != [] {
      LastCaptureIsLastMatch(s, 0, p);
      var last := caps[|caps| - 1];
      if r.Ok? {
        var j :| 0 <= j <= |s| && MatchAt(s, j, p) == Some(last);
        assert CaptureDimensions(last).Some?;
        assert LastMatchGives(s, p, r.value.value);
      }
    }
  }

  /** The last `w=..:h=..` match wins; `scale=..:..` is consulted only
      when there is none; with neither the result is none.  A panic only
      comes from a number that does not fit in `u32`. */
  lemma DimensionRules(filter: string)
    ensures var r := GetDimensionFromVideoFilter(filter);
            && (r == Ok(None) <==> !MatchFrom(filter, 0, WIDTH_HEIGHT) && !MatchFrom(filter, 0, SCALE))
            && (r.Ok? && MatchFrom(filter, 0, WIDTH_HEIGHT) ==>
                  r.value.Some? && LastMatchGives(filter, WIDTH_HEIGHT, r.value.value))
            && (r.Ok? && !MatchFrom(filter, 0, WIDTH_HEIGHT) && MatchFrom(filter, 0, SCALE) ==>
                  r.value.Some? && LastMatchGives(filter, SCALE, r.value.value))
            && (r.Panic? ==> r.fault == DimensionOverflow)
  {
    PatternPhase(filter, WIDTH_HEIGHT);
    PatternPhase(filter, SCALE);
  }

  /* ---------------------------------------------------------------------
     Frame selection
     --------------------------------------------------------------------- */

  /** The number of frames between the start and end time, truncated in
      `f32` to whole frames; 0 (no limit) without an end time or when the
      end frame is not after the start frame. */
  function StopFrameCount(startTime: real, endTime: Option<real>, fps: real): (n: u32)
    ensures endTime.None? ==> n == 0
    ensures endTime.Some? && endTime.value <= startTime && fps >= 0.0 ==> n == 0
  {
    match endTime
    case None => 0
    case Some(val) =>
      var startFrame := FloatToU32(startTime * fps / 1000.0);
      var stopFrame := FloatToU32(val * fps / 1000.0);
      assert val <= startTime && fps >= 0.0 ==> stopFrame <= startFrame by {
        if val <= startTime && fps >= 0.0 {
          FrameOrder(val, startTime, fps);
        }
      }
      if stopFrame > startFrame then stopFrame - startFrame else 0
  }

  /** A later time is at a later (or the same) whole frame. */
  lemma FrameOrder(a: real, b: real, fps: real)
    requires a <= b && 0.0 <= fps
    ensures FloatToU32(a * fps / 1000.0) <= FloatToU32(b * fps / 1000.0)
  {
    var x, y := a * fps / 1000.0, b * fps / 1000.0;
    assert (b - a) * fps >= 0.0 by {
      if fps > 0.0 {
        assert (b - a) * fps >= (b - a) * 0.0;
      }
    }
    assert y - x == (b - a) * fps / 1000.0;
    FloatToU32Monotone(x, y);
  }

  /** For a window inside the `u32` frame range, the stop count is within
      one frame of the window's exact length in frames. */
  lemma StopFrameCountApprox(startTime: real, endTime: real, fps: real)
    requires 0.0 <= startTime <= endTime && fps > 0.0
    requires endTime * fps / 1000.0 < U32_MODULUS as real
    ensures var n := StopFrameCount(startTime, Some(endTime), fps);
            var exact := (endTime - startTime) * fps / 1000.0;
            exact - 1.0 < n as real < exact + 1.0
  {
    var e, s := endTime * fps / 1000.0, startTime * fps / 1000.0;
    assert 0.0 <= s by {
      assert startTime * fps >= 0.0;
    }
    assert s <= e by {
      assert (endTime - startTime) * fps >= 0.0;
    }
    assert e - s == (endTime - startTime) * fps / 1000.0;
    FloatToU32Monotone(s, e);
  }

  /** Frame number `n` (counted from 1) falls on the frame step. */
  predicate OnStep(n: nat, step: u32)
    requires n >= 1 && step >= 1
  {
    (n - 1) % step == 0
  }

  /** How the reader loop ended. */
  datatype ReaderEnd = EndOfStream | StopFrameReached | NoDimensions

  /** The frame numbers handed on, in order, and how the loop ended. */
  datatype Delivery = Delivery(frames: seq<nat>, end: ReaderEnd)

  /** The reader loop from frame number `n` on, when the decoder yields
      `frameCount` frames: a frame off the step is skipped; the first frame
      on the step past a non-zero stop count ends the loop; the others are
      handed on.  A zero step panics at the first frame. */
  function ReadLoop(n: nat, frameCount: nat, step: u32, stopCount: u32): (r: Result<Delivery>)
    requires n >= 1
    ensures r.Panic? <==> step == 0 && n <= frameCount
    ensures r.Panic? ==> r.fault == RemainderByZero
    ensures r.Ok? ==> r.value.end != NoDimensions
    ensures r.Ok? ==> forall k :: 0 <= k < |r.value.frames| ==> n <= r.value.frames[k] <= frameCount
    decreases frameCount + 1 - n
  {
    if n > frameCount then Ok(Delivery([], EndOfStream))
    else if step == 0 then Panic(RemainderByZero)
    else if !OnStep(n, step) then ReadLoop(n + 1, frameCount, step, stopCount)
    else if stopCount > 0 && stopCount < n then Ok(Delivery([], StopFrameReached))
    else
      var rest := ReadLoop(n + 1, frameCount, step, stopCount).value;
      Ok(Delivery([n] + rest.frames, rest.end))
  }

  /** The frame loop of `ffmpeg_stream_reader`. */
  function ReadFrames(frameCount: nat, step: u32, stopCount: u32): (r: Result<Delivery>)
    ensures r.Panic? <==> step == 0 && frameCount >= 1
    ensures r.Ok? ==> forall k :: 0 <= k < |r.value.frames| ==> 1 <= r.value.frames[k] <= frameCount
  {
    ReadLoop(1, frameCount, step, stopCount)
  }

  /** Frame `m` is handed on: it arrives, falls on the step, and does not
      pass a non-zero stop count. */
  predicate Selected(m: nat, frameCount: nat, step: u32, stopCount: u32)
    requires step >= 1
  {
    1 <= m <= frameCount && OnStep(m, step) && (stopCount == 0 || m <= stopCount)
  }

  /** Some frame on the step arrives past a non-zero stop count. */
  ghost predicate StopReachedFrom(n: nat, frameCount: nat, step: u32, stopCount: u32)
    requires n >= 1 && step >= 1
  {
    exists m :: n <= m <= frameCount && OnStep(m, step) && 0 < stopCount < m
  }

  lemma {:induction false} ReadLoopSelection(n: nat, frameCount: nat, step: u32, stopCount: u32)
    requires n >= 1 && step >= 1
    ensures var r := ReadLoop(n, frameCount, step, stopCount);
            && r.Ok?
            && (forall k :: 0 <= k < |r.value.frames| ==>
                  n <= r.value.frames[k] && Selected(r.value.frames[k], frameCount, step, stopCount))
            && (forall m :: n <= m && Selected(m, frameCount, step, stopCount) ==> m in r.value.frames)
            && (forall k, l :: 0 <= k < l < |r.value.frames| ==> r.value.frames[k] < r.value.frames[l])
            && (r.value.end == StopFrameReached <==> StopReachedFrom(n, frameCount, step, stopCount))
            && r.value.end != NoDimensions
    decreases frameCount + 1 - n
  {
    var r := ReadLoop(n, frameCount, step, stopCount);
    if n > frameCount {
    } else if !OnStep(n, step) {
      ReadLoopSelection(n + 1, frameCount, step, stopCount);
      assert StopReachedFrom(n, frameCount, step, stopCount) ==> StopReachedFrom(n + 1, frameCount, step, stopCount) by {
        if StopReachedFrom(n, frameCount, step, stopCount) {
          var m :| n <= m <= frameCount && OnStep(m, step) && 0 < stopCount < m;
          assert m != n;
        }
      }
    } else if stopCount > 0 && stopCount < n {
      assert StopReachedFrom(n, frameCount, step, stopCount);
    } else {
      ReadLoopSelection(n + 1, frameCount, step, stopCount);
      var rest := ReadLoop(n + 1, frameCount, step, stopCount).value;
      assert r.value.frames == [n] + rest.frames;
      assert StopReachedFrom(n, frameCount, step, stopCount) ==> StopReachedFrom(n + 1, frameCount, step, stopCount) by {
        if StopReachedFrom(n, frameCount, step, stopCount) {
          var m :| n <= m <= frameCount && OnStep(m, step) && 0 < stopCount < m;
          assert m != n;
        }
      }
    }
  }

  /** With a positive step the reader hands on exactly the selected frame
      numbers, ascending, and ends early exactly when a frame on the step
      arrives past a non-zero stop count. */
  lemma ReadFramesSelection(frameCount: nat, step: u32, stopCount: u32)
    requires step >= 1
    ensures var r := ReadFrames(frameCount, step, stopCount);
            && r.Ok?
            && (forall m :: m in r.value.frames <==> Selected(m, frameCount, step, stopCount))
            && (forall k, l :: 0 <= k < l < |r.value.frames| ==> r.value.frames[k] < r.value.frames[l])
            && (r.value.end == StopFrameReached <==> StopReachedFrom(1, frameCount, step, stopCount))
  {
    ReadLoopSelection(1, frameCount, step, stopCount);
  }

  /** A zero step panics as soon as a frame arrives. */
  lemma ReadFramesZeroStep(frameCount: nat, stopCount: u32)
    ensures ReadFrames(frameCount, 0, stopCount) ==
              if frameCount == 0 then Ok(Delivery([], EndOfStream)) else Panic(RemainderByZero)
  {
  }

  /** `ffmpeg_stream_reader` without its I/O: the probed frame rate (30
      when probing fails) sets the stop count, an unparsable filter ends
      the reader before any frame, and otherwise the frames the decoder
      yields are selected by the step. */
  function StreamReader(filter: string, frameCount: nat, frameStepSize: u32, startTime: real,
                        endTime: Option<real>, probedFps: Option<real>): (r: Result<Delivery>)
    ensures var dims := GetDimensionFromVideoFilter(filter);
            r.Panic? <==> dims.Panic? || (dims.value.Some? && frameStepSize == 0 && frameCount >= 1)
    ensures r.Ok? && r.value.end == NoDimensions ==> r.value.frames == []
    ensures r.Ok? ==> forall k :: 0 <= k < |r.value.frames| ==> 1 <= r.value.frames[k] <= frameCount
  {
    var fps := probedFps.GetOr(30.0);
    var stopCount := StopFrameCount(startTime, endTime, fps);
    var dims :- GetDimensionFromVideoFilter(filter);
    if dims.None? then Ok(Delivery([], NoDimensions))
    else ReadFrames(frameCount, frameStepSize, stopCount)
  }

  /** Without an end time the reader hands on every frame on the step;
      with one, no handed-on frame number passes the stop count. */
  lemma StreamReaderDelivers(filter: string, frameCount: nat, frameStepSize: u32, startTime: real,
                             endTime: Option<real>, probedFps: Option<real>)
    requires frameStepSize >= 1
    requires GetDimensionFromVideoFilter(filter).Ok?
    ensures var r := StreamReader(filter, frameCount, frameStepSize, startTime, endTime, probedFps);
            var stopCount := StopFrameCount(startTime, endTime, probedFps.GetOr(30.0));
            && r.Ok?
            && (GetDimensionFromVideoFilter(filter).value.None? ==> r.value == Delivery([], NoDimensions))
            && (GetDimensionFromVideoFilter(filter).value.Some? && endTime.None? ==>
                  forall m :: m in r.value.frames <==> 1 <= m <= frameCount && OnStep(m, frameStepSize))
            && (stopCount > 0 ==> forall m :: m in r.value.frames ==> m <= stopCount)
  {
    var stopCount := StopFrameCount(startTime, endTime, probedFps.GetOr(30.0));
    ReadFramesSelection(frameCount, frameStepSize, stopCount);
  }
}
