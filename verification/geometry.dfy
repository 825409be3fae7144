/** The two value types that flow through the chain: a tracker's box
    (`opencv::core::Rect`) and the 2-D sample (`mint::Point2<i32>`) that is
    reused as center point, motion sample and normalized sample.

    Pixel coordinates are far from the `i32` bounds, so the model uses
    unbounded integers for them. */
module Geometry {

  datatype Rect = Rect(x: int, y: int, width: int, height: int)

  datatype Point = Point(x: int, y: int)

  /** The x values strictly increase along the signal. */
  ghost predicate StrictlyIncreasingX(s: seq<Point>) {
    forall i, j :: 0 <= i < j < |s| ==> s[i].x < s[j].x
  }

  /** The x values never decrease along the signal. */
  ghost predicate NonDecreasingX(s: seq<Point>) {
    forall i, j :: 0 <= i <= j < |s| ==> s[i].x <= s[j].x
  }
}
