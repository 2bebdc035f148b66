/** Plane geometry over exact reals: points, sizes, rectangles with the
    CoreGraphics accessors, aspect ratios, and the min/max clamp that move,
    resize and makeCropFrame use. */
module Geometry {

  datatype Option<T> = None | Some(value: T)

  datatype Point = Point(x: real, y: real)

  /** A container size; CoreGraphics reports its fields as stored. */
  datatype Size = Size(width: real, height: real) {
    predicate Positive() { width > 0.0 && height > 0.0 }
  }

  /** An aspect ratio `width : height` (the record of CropRatio.swift). */
  datatype CropRatio = CropRatio(width: real, height: real) {
    predicate Positive() { width > 0.0 && height > 0.0 }

    /** The same ratio with its two sides exchanged. */
    function Swapped(): CropRatio { CropRatio(height, width) }
  }

  /** A rectangle as stored (origin and signed size). The accessors follow
      CoreGraphics: they describe the standardised rectangle, so a negative
      width is read as its absolute value with the origin moved left. */
  datatype Rect = Rect(x: real, y: real, width: real, height: real) {
    function Width(): real { if width < 0.0 then -width else width }
    function Height(): real { if height < 0.0 then -height else height }
    function MinX(): real { if width < 0.0 then x + width else x }
    function MinY(): real { if height < 0.0 then y + height else y }
    function MaxX(): real { if width < 0.0 then x else x + width }
    function MaxY(): real { if height < 0.0 then y else y + height }
    function MidX(): real { x + width / 2.0 }
    function MidY(): real { y + height / 2.0 }
    function Center(): Point { Point(MidX(), MidY()) }

    /** Neither side is negative, so the accessors read the fields directly. */
    predicate Standard() { width >= 0.0 && height >= 0.0 }

    predicate Positive() { width > 0.0 && height > 0.0 }
  }

  /** `inner` is a standard rectangle lying entirely inside `outer`. */
  predicate Inside(inner: Rect, outer: Rect) {
    && inner.Standard()
    && outer.MinX() <= inner.MinX() && inner.MaxX() <= outer.MaxX()
    && outer.MinY() <= inner.MinY() && inner.MaxY() <= outer.MaxY()
  }

  function Min(a: real, b: real): (r: real)
    ensures r <= a && r <= b && (r == a || r == b)
  {
    if a <= b then a else b
  }

  function Max(a: real, b: real): (r: real)
    ensures r >= a && r >= b && (r == a || r == b)
  {
    if a >= b then a else b
  }

  /** `max(lo, min(v, hi))`: `v` pulled into `[lo, hi]`; when the range is
      inverted the lower bound wins. */
  function Clamp(v: real, lo: real, hi: real): (r: real)
    ensures lo <= hi ==> lo <= r <= hi
    ensures hi < lo ==> r == lo
    ensures lo <= v <= hi ==> r == v
    ensures v <= lo ==> r == lo
    ensures lo <= hi <= v ==> r == hi
  {
    Max(lo, Min(v, hi))
  }
}
