/** The crop engine of CropViewModel.swift: an immutable image rectangle, a
    crop rectangle that move, resize and applyRatio replace in place, and the
    callback that reports every new crop in normalised form. */
module ViewModel {
  import opened Geometry
  import opened CropMath

  /** One call of a mutator, with its arguments. */
  datatype Op =
    | MoveTo(center: Point)
    | ResizeFrom(base: Rect, scale: real)
    | Reratio(ratio: CropRatio)
  {
    /** The arguments for which the call is defined over the reals. */
    predicate Admissible() {
      match this
      case MoveTo(_) => true
      case ResizeFrom(base, _) => base.Positive()
      case Reratio(ratio) => ratio.Positive()
    }
  }

  predicate AllAdmissible(ops: seq<Op>) {
    forall i :: 0 <= i < |ops| ==> ops[i].Admissible()
  }

  /** The crop after one call. Only applyRatio looks at the current crop, and
      then only at its centre. */
  function Step(crop: Rect, img: Rect, op: Op): (r: Rect)
    requires img.Positive() && op.Admissible()
    ensures crop.Standard() ==> r.Standard()
    ensures !op.MoveTo? ==> r.Standard()
  {
    match op
    case MoveTo(c) => MoveRect(crop, img, c)
    case ResizeFrom(base, scale) => ResizeRect(base, scale, img)
    case Reratio(ratio) => MakeCropFrame(img, ratio, Some(crop.Center()))
  }

  /** Every call keeps a crop inside an image at least MinSize wide. */
  lemma StepKeepsInside(crop: Rect, img: Rect, op: Op)
    requires img.Positive() && img.Width() >= MinSize && op.Admissible()
    requires Inside(crop, img)
    ensures Inside(Step(crop, img, op), img)
  {
    if op.ResizeFrom? {
      ResizeRectInside(op.base, op.scale, img);
    }
  }

  /** The crop after a sequence of calls. */
  function Run(crop: Rect, img: Rect, ops: seq<Op>): Rect
    requires img.Positive() && AllAdmissible(ops)
    decreases |ops|
  {
    if ops == [] then crop else Run(Step(crop, img, ops[0]), img, ops[1..])
  }

  /** Running one more call is one more Step. */
  lemma {:induction false} RunAppend(crop: Rect, img: Rect, ops: seq<Op>, op: Op)
    requires img.Positive() && AllAdmissible(ops) && op.Admissible()
    ensures AllAdmissible(ops + [op])
    ensures Run(crop, img, ops + [op]) == Step(Run(crop, img, ops), img, op)
    decreases |ops|
  {
    if ops == [] {
      assert [] + [op] == [op];
    } else {
      assert (ops + [op])[1..] == ops[1..] + [op];
      RunAppend(Step(crop, img, ops[0]), img, ops[1..], op);
    }
  }

  /** A call appended to a traced run: if `prev` is the crop after `ops` and
      `next` is one more step, `next` is the crop after `ops + [op]`. */
  lemma RunExtends(start: Rect, img: Rect, ops: seq<Op>, op: Op, prev: Rect, next: Rect)
    requires img.Positive() && AllAdmissible(ops) && op.Admissible()
    requires prev == Run(start, img, ops) && next == Step(prev, img, op)
    ensures AllAdmissible(ops + [op]) && next == Run(start, img, ops + [op])
  {
    RunAppend(start, img, ops, op);
  }

  /** The containment invariant: a crop that starts inside an image at least
      MinSize wide stays inside after any sequence of calls. */
  lemma {:induction false} RunKeepsInside(crop: Rect, img: Rect, ops: seq<Op>)
    requires img.Positive() && img.Width() >= MinSize && AllAdmissible(ops)
    requires Inside(crop, img)
    ensures Inside(Run(crop, img, ops), img)
    decreases |ops|
  {
    if ops != [] {
      StepKeepsInside(crop, img, ops[0]);
      RunKeepsInside(Step(crop, img, ops[0]), img, ops[1..]);
    }
  }

  /** Calls keep every side of the crop non-negative. */
  lemma {:induction false} RunKeepsStandard(crop: Rect, img: Rect, ops: seq<Op>)
    requires img.Positive() && AllAdmissible(ops) && crop.Standard()
    ensures Run(crop, img, ops).Standard()
    decreases |ops|
  {
    if ops != [] {
      RunKeepsStandard(Step(crop, img, ops[0]), img, ops[1..]);
    }
  }

  /** Resizing depends on the base rectangle, never on the current crop:
      resizing from one base twice is resizing once with the second scale. */
  lemma ResizeReanchors(crop: Rect, img: Rect, base: Rect, s1: real, s2: real)
    requires img.Positive() && base.Positive()
    ensures Step(Step(crop, img, ResizeFrom(base, s1)), img, ResizeFrom(base, s2))
         == Step(crop, img, ResizeFrom(base, s2))
  {
  }

  /** applyRatio keeps only the old crop's centre: crops with one centre give
      the same frame, whatever their sizes. */
  lemma ApplyRatioKeepsOnlyCenter(c1: Rect, c2: Rect, img: Rect, ratio: CropRatio)
    requires img.Positive() && ratio.Positive()
    requires c1.Center() == c2.Center()
    ensures Step(c1, img, Reratio(ratio)) == Step(c2, img, Reratio(ratio))
  {
  }

  class CropViewModel {
    var cropRect: Rect
    const imageRect: Rect

    /** Every payload passed to the change callback, oldest first. */
    ghost var notifications: seq<Rect>

    /** The crop the initialiser chose, and every mutator call since. */
    ghost const initial: Rect
    ghost var calls: seq<Op>

    /** The current crop is the initial crop run through the recorded calls. */
    ghost predicate Traced()
      reads this
    {
      imageRect.Positive() && AllAdmissible(calls) && cropRect == Run(initial, imageRect, calls)
    }

    ghost predicate Valid()
      reads this
    {
      imageRect.Positive() && cropRect.Standard() && |notifications| >= 1
    }

    /** The crop in fractions of the image (the computed `normalizedRect`). */
    function NormalizedRect(): (n: Rect)
      reads this
      requires Valid()
      ensures CropRectFromNormalized(n, imageRect) == cropRect
      ensures Inside(cropRect, imageRect) ==> Inside(n, UnitRect)
    {
      DenormalizeOfNormalized(cropRect, imageRect);
      Normalize(cropRect, imageRect)
    }

    constructor (containerSize: Size, imageAspect: real, ratio: CropRatio, initialCropRect: Option<Rect>)
      requires containerSize.Positive() && imageAspect > 0.0
      requires initialCropRect.None? ==> ratio.Positive()
      ensures Valid()
      ensures imageRect == FitRect(imageAspect, containerSize)
      ensures initialCropRect.Some? ==> cropRect == CropRectFromNormalized(initialCropRect.value, imageRect)
      ensures initialCropRect.None? ==> cropRect == MakeCropFrame(imageRect, ratio, None)
      ensures initialCropRect.None? || Inside(initialCropRect.value, UnitRect) ==> Inside(cropRect, imageRect)
      ensures notifications == [NormalizedRect()]
      ensures initial == cropRect && calls == [] && Traced()
    {
      var fitted := FitRect(imageAspect, containerSize);
      var chosen: Rect;
      if initialCropRect.Some? {
        chosen := CropRectFromNormalized(initialCropRect.value, fitted);
        if Inside(initialCropRect.value, UnitRect) {
          CropRectFromNormalizedInside(initialCropRect.value, fitted);
        }
      } else {
        chosen := MakeCropFrame(fitted, ratio, None);
      }
      imageRect := fitted;
      cropRect := chosen;
      initial := chosen;
      calls := [];
      new;
      notifications := [Normalize(cropRect, imageRect)];
    }

    /** The containment invariant for this object: when the initial crop lay
        inside an image at least MinSize wide, so does the crop after every
        recorded call. */
    lemma TracedInside()
      requires Traced() && imageRect.Width() >= MinSize && Inside(initial, imageRect)
      ensures Inside(cropRect, imageRect)
    {
      RunKeepsInside(initial, imageRect, calls);
    }

    /** Appends `op` to the recorded calls once the crop has become the result
        of `op` on `prev`; a trace that ended in `prev` now ends in `cropRect`. */
    ghost method RecordCall(op: Op, prev: Rect)
      requires imageRect.Positive() && op.Admissible()
      requires cropRect == Step(prev, imageRect, op)
      modifies this`calls
      ensures calls == old(calls) + [op]
      ensures AllAdmissible(old(calls)) && prev == Run(initial, imageRect, old(calls)) ==> Traced()
    {
      if AllAdmissible(calls) && prev == Run(initial, imageRect, calls) {
        RunExtends(initial, imageRect, calls, op, prev, cropRect);
      }
      calls := calls + [op];
    }

    /** `move(toCenter:)`: recentre at `newCenter`, keeping the size. */
    method Move(newCenter: Point)
      requires Valid()
      modifies this
      ensures Valid()
      ensures cropRect == MoveRect(old(cropRect), imageRect, newCenter)
      ensures cropRect.width == old(cropRect.width) && cropRect.height == old(cropRect.height)
      ensures old(Inside(cropRect, imageRect)) ==> Inside(cropRect, imageRect)
      ensures notifications == old(notifications) + [NormalizedRect()]
      ensures calls == old(calls) + [MoveTo(newCenter)]
      ensures old(Traced()) ==> Traced()
    {
      ghost var prev := cropRect;
      var x := newCenter.x - cropRect.Width() / 2.0;
      var y := newCenter.y - cropRect.Height() / 2.0;
      x := Max(imageRect.MinX(), Min(x, imageRect.MaxX() - cropRect.Width()));
      y := Max(imageRect.MinY(), Min(y, imageRect.MaxY() - cropRect.Height()));
      cropRect := cropRect.(x := x, y := y);
      notifications := notifications + [Normalize(cropRect, imageRect)];
      RecordCall(MoveTo(newCenter), prev);
    }

    /** `resize(from:by:)`: scale `baseRect` about its centre by `scale`. */
    method Resize(baseRect: Rect, scale: real)
      requires Valid() && baseRect.Positive()
      modifies this
      ensures Valid()
      ensures cropRect == ResizeRect(baseRect, scale, imageRect)
      ensures imageRect.Width() >= MinSize ==> Inside(cropRect, imageRect)
      ensures notifications == old(notifications) + [NormalizedRect()]
      ensures calls == old(calls) + [ResizeFrom(baseRect, scale)]
      ensures old(Traced()) ==> Traced()
    {
      ghost var prev := cropRect;
      var minSize := MinSize;
      var ratio := baseRect.Width() / baseRect.Height();
      var newWidth := baseRect.Width() * scale;
      newWidth := Max(minSize, Min(newWidth, imageRect.Width()));
      assert ratio == BaseRatio(baseRect) && newWidth == ClampedWidth(baseRect, scale, imageRect);
      var newHeight := newWidth / ratio;
      if newHeight > imageRect.Height() {
        newHeight := imageRect.Height();
        newWidth := newHeight * ratio;
      }
      assert newWidth == ResizeSize(baseRect, scale, imageRect).0;
      assert newHeight == ResizeSize(baseRect, scale, imageRect).1;
      var centerX := baseRect.MidX();
      var centerY := baseRect.MidY();
      var newX := centerX - newWidth / 2.0;
      var newY := centerY - newHeight / 2.0;
      cropRect := Rect(Max(imageRect.MinX(), Min(newX, imageRect.MaxX() - newWidth)),
                       Max(imageRect.MinY(), Min(newY, imageRect.MaxY() - newHeight)),
                       newWidth, newHeight);
      if imageRect.Width() >= MinSize {
        ResizeRectInside(baseRect, scale, imageRect);
      }
      notifications := notifications + [Normalize(cropRect, imageRect)];
      RecordCall(ResizeFrom(baseRect, scale), prev);
    }

    /** `applyRatio`: the largest frame of `ratio` about the current centre. */
    method ApplyRatio(ratio: CropRatio)
      requires Valid() && ratio.Positive()
      modifies this
      ensures Valid()
      ensures cropRect == MakeCropFrame(imageRect, ratio, Some(old(cropRect).Center()))
      ensures Inside(cropRect, imageRect)
      ensures notifications == old(notifications) + [NormalizedRect()]
      ensures calls == old(calls) + [Reratio(ratio)]
      ensures old(Traced()) ==> Traced()
    {
      ghost var prev := cropRect;
      var center := cropRect.Center();
      cropRect := MakeCropFrame(imageRect, ratio, Some(center));
      notifications := notifications + [Normalize(cropRect, imageRect)];
      RecordCall(Reratio(ratio), prev);
    }
  }
}
