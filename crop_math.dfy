/** The static geometry of CropViewModel.swift, and the rectangle each of
    its mutators computes, as pure functions over exact reals. */
module CropMath {
  import opened Geometry

  /** Smallest crop width a pinch may request (the local `minSize` of `resize`). */
  const MinSize: real := 40.0

  /** The unit square, in which normalised rectangles nominally lie. */
  const UnitRect: Rect := Rect(0.0, 0.0, 1.0, 1.0)

  // ---------------------------------------------------------------------
  // fitRect
  // ---------------------------------------------------------------------

  /** The image of aspect `aspect` fitted into a container of `size`: full
      height and centred horizontally when the container is relatively wider
      than the image, full width and centred vertically otherwise. */
  function FitRect(aspect: real, size: Size): (r: Rect)
    requires aspect > 0.0 && size.Positive()
    ensures r.Positive()
    ensures r.width == aspect * r.height
    ensures 0.0 <= r.x && r.x + r.width <= size.width
    ensures 0.0 <= r.y && r.y + r.height <= size.height
    ensures (r.x == 0.0 && r.width == size.width) || (r.y == 0.0 && r.height == size.height)
    ensures r.MidX() == size.width / 2.0 && r.MidY() == size.height / 2.0
  {
    var viewRatio := size.width / size.height;
    if viewRatio > aspect then
      var height := size.height;
      var width := height * aspect;
      assert width < size.width by { DivLess(size.width, size.height, aspect); }
      Rect((size.width - width) / 2.0, 0.0, width, height)
    else
      var width := size.width;
      var height := width / aspect;
      assert height <= size.height by { DivAtMost(size.width, size.height, aspect); }
      Rect(0.0, (size.height - height) / 2.0, width, height)
  }

  /** `a / b > c` with positive `b` means `b * c < a`. */
  lemma DivLess(a: real, b: real, c: real)
    requires b > 0.0 && a / b > c
    ensures b * c < a
  {
    assert a == (a / b) * b;
  }

  /** `a / b <= c` with positive `b` and `c` means `a / c <= b`. */
  lemma DivAtMost(a: real, b: real, c: real)
    requires b > 0.0 && c > 0.0 && a / b <= c
    ensures a / c <= b
  {
    assert a == (a / b) * b;
    assert a <= c * b;
    assert a / c == a * (1.0 / c);
  }

  /** No rectangle of the image's aspect that fits in the container is larger
      than the fitted one. */
  lemma FitRectIsLargest(aspect: real, size: Size, s: Rect)
    requires aspect > 0.0 && size.Positive()
    requires s.Standard() && s.width == aspect * s.height
    requires s.width <= size.width && s.height <= size.height
    ensures s.width <= FitRect(aspect, size).width
    ensures s.height <= FitRect(aspect, size).height
  {
    var r := FitRect(aspect, size);
    if r.width == size.width {
      assert aspect * s.height <= aspect * r.height;
    } else {
      assert s.width == aspect * s.height <= aspect * r.height;
    }
  }

  /** A square image in a 200 by 100 container fills its height, centred. */
  lemma FitRectSquareInWideContainer()
    ensures FitRect(1.0, Size(200.0, 100.0)) == Rect(50.0, 0.0, 100.0, 100.0)
  {
  }

  // ---------------------------------------------------------------------
  // makeCropFrame
  // ---------------------------------------------------------------------

  /** Width and height of the largest rectangle of `ratio` inside `img`:
      full image width when the target is relatively wider than the image,
      full image height otherwise. */
  function FrameSize(img: Rect, ratio: CropRatio): (wh: (real, real))
    requires img.Positive() && ratio.Positive()
    ensures wh.0 > 0.0 && wh.1 > 0.0
    ensures wh.0 * ratio.height == ratio.width * wh.1
    ensures wh.0 <= img.width && wh.1 <= img.height
    ensures wh.0 == img.width || wh.1 == img.height
  {
    var targetRatio := ratio.width / ratio.height;
    var imageRatio := img.Width() / img.Height();
    if targetRatio > imageRatio then
      var width := img.Width();
      var height := width / targetRatio;
      assert height < img.height by { DivSwapLess(img.width, img.height, targetRatio); }
      (width, height)
    else
      var height := img.Height();
      var width := height * targetRatio;
      assert width <= img.width by { TimesAtMost(img.width, img.height, targetRatio); }
      (width, height)
  }

  /** `a / b < c` with positive `b` and `c` means `a / c < b`. */
  lemma DivSwapLess(a: real, b: real, c: real)
    requires b > 0.0 && c > 0.0 && a / b < c
    ensures a / c < b
  {
    assert a == (a / b) * b;
    assert a < c * b;
    assert a / c == a * (1.0 / c);
  }

  /** `a / b >= c` with positive `b` means `b * c <= a`. */
  lemma TimesAtMost(a: real, b: real, c: real)
    requires b > 0.0 && c > 0.0 && c <= a / b
    ensures b * c <= a
  {
    assert a == (a / b) * b;
  }

  /** The largest rectangle of `ratio` that fits in `img`, centred on
      `center` (by default the image's centre), its origin clamped so that it
      stays inside the image. */
  function MakeCropFrame(img: Rect, ratio: CropRatio, center: Option<Point>): (r: Rect)
    requires img.Positive() && ratio.Positive()
    ensures r.Positive()
    ensures r.width * ratio.height == ratio.width * r.height
    ensures r.width == img.width || r.height == img.height
    ensures Inside(r, img)
    ensures center.None? ==> r.Center() == img.Center()
  {
    var (width, height) := FrameSize(img, ratio);
    var centerPoint := if center.Some? then center.value else Point(img.MidX(), img.MidY());
    var originX := centerPoint.x - width / 2.0;
    var originY := centerPoint.y - height / 2.0;
    Rect(Clamp(originX, img.MinX(), img.MaxX() - width),
         Clamp(originY, img.MinY(), img.MaxY() - height),
         width, height)
  }

  /** A frame whose requested centre leaves room on every side is centred
      exactly there. */
  lemma MakeCropFrameCentred(img: Rect, ratio: CropRatio, c: Point)
    requires img.Positive() && ratio.Positive()
    requires img.MinX() + FrameSize(img, ratio).0 / 2.0 <= c.x <= img.MaxX() - FrameSize(img, ratio).0 / 2.0
    requires img.MinY() + FrameSize(img, ratio).1 / 2.0 <= c.y <= img.MaxY() - FrameSize(img, ratio).1 / 2.0
    ensures MakeCropFrame(img, ratio, Some(c)).Center() == c
  {
  }

  /** No rectangle of the target ratio that fits in the image is larger than
      the frame. */
  lemma MakeCropFrameIsLargest(img: Rect, ratio: CropRatio, center: Option<Point>, w: real, h: real)
    requires img.Positive() && ratio.Positive()
    requires h > 0.0 && w * ratio.height == ratio.width * h
    requires w <= img.width && h <= img.height
    ensures w <= MakeCropFrame(img, ratio, center).width
    ensures h <= MakeCropFrame(img, ratio, center).height
  {
    var r := MakeCropFrame(img, ratio, center);
    if r.width == img.width {
      assert ratio.width * h <= ratio.width * r.height by {
        assert w * ratio.height <= r.width * ratio.height;
      }
    } else {
      assert r.height == img.height;
      assert w * ratio.height <= r.width * ratio.height by {
        assert ratio.width * h <= ratio.width * r.height;
      }
    }
  }

  /** A 4:3 frame in a 300 by 300 image is 300 by 225, centred vertically. */
  lemma MakeCropFrameFourByThree()
    ensures MakeCropFrame(Rect(0.0, 0.0, 300.0, 300.0), CropRatio(4.0, 3.0), None)
         == Rect(0.0, 37.5, 300.0, 225.0)
  {
  }

  // ---------------------------------------------------------------------
  // normalizedRect and cropRectFromNormalized
  // ---------------------------------------------------------------------

  /** `crop` expressed in fractions of `img`. */
  function Normalize(crop: Rect, img: Rect): (n: Rect)
    requires img.Positive()
    ensures n.Standard()
    ensures Inside(crop, img) ==> Inside(n, UnitRect)
  {
    var n := Rect((crop.MinX() - img.MinX()) / img.Width(),
                  (crop.MinY() - img.MinY()) / img.Height(),
                  crop.Width() / img.Width(),
                  crop.Height() / img.Height());
    assert Inside(crop, img) ==> Inside(n, UnitRect) by {
      if Inside(crop, img) {
        UnitFraction(crop.MinX() - img.MinX(), crop.Width(), img.Width());
        UnitFraction(crop.MinY() - img.MinY(), crop.Height(), img.Height());
      }
    }
    n
  }

  /** Offsets `a` and `a + b` inside `[0, c]` become fractions inside `[0, 1]`. */
  lemma UnitFraction(a: real, b: real, c: real)
    requires c > 0.0 && 0.0 <= a && 0.0 <= b && a + b <= c
    ensures 0.0 <= a / c && 0.0 <= b / c && a / c + b / c <= 1.0
  {
    var k := 1.0 / c;
    assert c * k == 1.0;
    assert a / c == a * k && b / c == b * k;
    ProductNonNegative(a, k);
    ProductNonNegative(b, k);
    assert a * k + b * k == (a + b) * k;
    assert (c - (a + b)) * k >= 0.0 by { ProductNonNegative(c - (a + b), k); }
  }

  /** The container-space rectangle that `n`, given in fractions of `img`,
      stands for. */
  function CropRectFromNormalized(n: Rect, img: Rect): (r: Rect)
    ensures r.Standard()
  {
    var width := n.Width() * img.Width();
    var height := n.Height() * img.Height();
    assert width >= 0.0 && height >= 0.0 by {
      ProductNonNegative(n.Width(), img.Width());
      ProductNonNegative(n.Height(), img.Height());
    }
    Rect(img.MinX() + n.MinX() * img.Width(), img.MinY() + n.MinY() * img.Height(), width, height)
  }

  /** A normalised rectangle within the unit square stands for a crop within
      the image. */
  lemma CropRectFromNormalizedInside(n: Rect, img: Rect)
    requires Inside(n, UnitRect)
    ensures Inside(CropRectFromNormalized(n, img), img)
  {
    var r := CropRectFromNormalized(n, img);
    ScaledAxisInside(img.MinX(), img.Width(), n.MinX(), n.Width(), r.x, r.width);
    ScaledAxisInside(img.MinY(), img.Height(), n.MinY(), n.Height(), r.y, r.height);
  }

  /** An interval `[a, a + b]` of `[0, 1]`, scaled by `len` and shifted by
      `lo`, is an interval `[x, x + width]` within `[lo, lo + len]`. */
  lemma ScaledAxisInside(lo: real, len: real, a: real, b: real, x: real, width: real)
    requires len >= 0.0 && 0.0 <= a && 0.0 <= b && a + b <= 1.0
    requires x == lo + a * len && width == b * len
    ensures 0.0 <= width && lo <= x && x + width <= lo + len
  {
    ScaleUnit(a, b, len);
  }

  lemma ProductNonNegative(a: real, b: real)
    requires a >= 0.0 && b >= 0.0
    ensures a * b >= 0.0
  {
  }

  /** Fractions `a` and `a + b` inside `[0, 1]` scale into `[0, c]`. */
  lemma ScaleUnit(a: real, b: real, c: real)
    requires c >= 0.0 && 0.0 <= a && 0.0 <= b && a + b <= 1.0
    ensures 0.0 <= a * c && 0.0 <= b * c && a * c + b * c <= c
  {
    assert a * c + b * c == (a + b) * c;
  }

  /** Normalising the rectangle that a normalised rectangle stands for gives
      it back. */
  lemma NormalizeOfDenormalized(n: Rect, img: Rect)
    requires img.Positive() && n.Standard()
    ensures Normalize(CropRectFromNormalized(n, img), img) == n
  {
    var r := CropRectFromNormalized(n, img);
    assert (r.MinX() - img.MinX()) / img.Width() == n.x;
    assert (r.MinY() - img.MinY()) / img.Height() == n.y;
  }

  /** Turning the normalised form of a crop back into container space gives
      the crop back. */
  lemma DenormalizeOfNormalized(crop: Rect, img: Rect)
    requires img.Positive() && crop.Standard()
    ensures CropRectFromNormalized(Normalize(crop, img), img) == crop
  {
    var n := Normalize(crop, img);
    assert img.MinX() + n.MinX() * img.Width() == crop.x;
    assert img.MinY() + n.MinY() * img.Height() == crop.y;
  }

  // ---------------------------------------------------------------------
  // move(toCenter:)
  // ---------------------------------------------------------------------

  /** The crop after `move(toCenter: c)`: same size, origin at `c` minus half
      the size, clamped so that the crop stays within the image. */
  function MoveRect(crop: Rect, img: Rect, c: Point): (r: Rect)
    ensures r.width == crop.width && r.height == crop.height
    ensures Inside(crop, img) ==> Inside(r, img)
  {
    var x := Clamp(c.x - crop.Width() / 2.0, img.MinX(), img.MaxX() - crop.Width());
    var y := Clamp(c.y - crop.Height() / 2.0, img.MinY(), img.MaxY() - crop.Height());
    crop.(x := x, y := y)
  }

  /** Moving to a centre twice is moving there once. */
  lemma MoveIdempotent(crop: Rect, img: Rect, c: Point)
    ensures MoveRect(MoveRect(crop, img, c), img, c) == MoveRect(crop, img, c)
  {
  }

  /** Where the image leaves room, the crop is centred exactly on the
      requested point. */
  lemma MoveCentres(crop: Rect, img: Rect, c: Point)
    requires crop.Standard()
    requires img.MinX() <= c.x - crop.width / 2.0 <= img.MaxX() - crop.width
    requires img.MinY() <= c.y - crop.height / 2.0 <= img.MaxY() - crop.height
    ensures MoveRect(crop, img, c).Center() == c
  {
  }

  /** A centre far up and to the left pins the crop to the image's top-left
      corner. */
  lemma MovePinsTopLeft(crop: Rect, img: Rect, c: Point)
    requires c.x - crop.Width() / 2.0 <= img.MinX() && c.y - crop.Height() / 2.0 <= img.MinY()
    ensures MoveRect(crop, img, c).x == img.MinX() && MoveRect(crop, img, c).y == img.MinY()
  {
  }

  /** A centre far down and to the right pins a crop that fits to the
      image's bottom-right corner. */
  lemma MovePinsBottomRight(crop: Rect, img: Rect, c: Point)
    requires Inside(crop, img)
    requires c.x - crop.width / 2.0 >= img.MaxX() - crop.width
    requires c.y - crop.height / 2.0 >= img.MaxY() - crop.height
    ensures MoveRect(crop, img, c).MaxX() == img.MaxX() && MoveRect(crop, img, c).MaxY() == img.MaxY()
  {
  }

  /** A 50 by 50 crop in a 100 by 100 image moved far outside lands in the
      nearest corner. */
  lemma MoveFarOffExamples()
    ensures MoveRect(Rect(0.0, 0.0, 50.0, 50.0), Rect(0.0, 0.0, 100.0, 100.0), Point(-1000.0, -1000.0))
         == Rect(0.0, 0.0, 50.0, 50.0)
    ensures MoveRect(Rect(0.0, 0.0, 50.0, 50.0), Rect(0.0, 0.0, 100.0, 100.0), Point(1000.0, 1000.0))
         == Rect(50.0, 50.0, 50.0, 50.0)
  {
  }

  // ---------------------------------------------------------------------
  // resize(from:by:)
  // ---------------------------------------------------------------------

  /** The aspect ratio of the rectangle a pinch started from. */
  function BaseRatio(base: Rect): (q: real)
    requires base.Positive()
    ensures q > 0.0 && q * base.Height() == base.Width()
  {
    base.Width() / base.Height()
  }

  /** The scaled width pulled into `[MinSize, img.Width()]` (lower bound wins). */
  function ClampedWidth(base: Rect, scale: real, img: Rect): (w: real)
    ensures w >= MinSize
    ensures img.Width() >= MinSize ==> w <= img.Width()
    ensures MinSize <= base.Width() * scale <= img.Width() ==> w == base.Width() * scale
  {
    Max(MinSize, Min(base.Width() * scale, img.Width()))
  }

  /** The clamped width, at the base ratio, is taller than the image, so the
      height is clamped and the width derived from it. */
  predicate HeightClampFires(base: Rect, scale: real, img: Rect)
    requires base.Positive()
  {
    ClampedWidth(base, scale, img) / BaseRatio(base) > img.Height()
  }

  /** A width and the height that ratio `q` gives it, unless that height
      exceeds `maxHeight`: then `maxHeight` and the width `q` gives it. The
      clamp only ever narrows. */
  function ClampHeight(width: real, q: real, maxHeight: real): (wh: (real, real))
    requires q > 0.0 && width >= 0.0 && maxHeight >= 0.0
    ensures wh.0 >= 0.0 && 0.0 <= wh.1 <= maxHeight
    ensures wh.0 <= width
  {
    if width / q > maxHeight then
      assert maxHeight * q < width by { DivLess(width, q, maxHeight); }
      ProductNonNegative(maxHeight, q);
      (maxHeight * q, maxHeight)
    else
      (width, width / q)
  }

  /** Both outcomes of ClampHeight have the ratio `q`. */
  lemma ClampHeightKeepsRatio(width: real, q: real, maxHeight: real)
    requires q > 0.0 && width >= 0.0 && maxHeight >= 0.0
    ensures ClampHeight(width, q, maxHeight).0 == q * ClampHeight(width, q, maxHeight).1
  {
    if width / q <= maxHeight {
      assert width == q * (width / q);
    }
  }

  /** Width and height after `resize(from: base, by: scale)`: the clamped
      width and its height at the base ratio, with the height clamp applied.
      The height never exceeds the image's, nor the width an image width of
      at least MinSize. */
  function ResizeSize(base: Rect, scale: real, img: Rect): (wh: (real, real))
    requires base.Positive()
    ensures wh.0 >= 0.0 && 0.0 <= wh.1 <= img.Height()
    ensures img.Width() >= MinSize ==> wh.0 <= img.Width()
  {
    ClampHeight(ClampedWidth(base, scale, img), BaseRatio(base), img.Height())
  }

  /** Resizing keeps the base rectangle's shape exactly. */
  lemma ResizeKeepsShape(base: Rect, scale: real, img: Rect)
    requires base.Positive()
    ensures ResizeSize(base, scale, img).0 * base.height == base.width * ResizeSize(base, scale, img).1
  {
    var q := BaseRatio(base);
    var wh := ResizeSize(base, scale, img);
    ClampHeightKeepsRatio(ClampedWidth(base, scale, img), q, img.Height());
    var h := wh.1;
    assert wh.0 == q * h;
    assert q * base.height == base.width;
    calc {
      wh.0 * base.height;
    ==
      (q * h) * base.height;
    ==
      h * (q * base.height);
    ==
      base.width * h;
    }
  }

  /** Without the height clamp the width is the clamped width, so at least
      MinSize; with it the height is the image's and the width shrinks. */
  lemma ResizeClampCases(base: Rect, scale: real, img: Rect)
    requires base.Positive()
    ensures !HeightClampFires(base, scale, img) ==>
      ResizeSize(base, scale, img).0 == ClampedWidth(base, scale, img) >= MinSize
    ensures HeightClampFires(base, scale, img) ==>
      ResizeSize(base, scale, img).1 == img.Height() && ResizeSize(base, scale, img).0 < ClampedWidth(base, scale, img)
  {
    if HeightClampFires(base, scale, img) {
      DivLess(ClampedWidth(base, scale, img), BaseRatio(base), img.Height());
    }
  }

  /** The crop after `resize(from: base, by: scale)`: ResizeSize about the
      base rectangle's centre, the origin clamped as in `move`. The current
      crop plays no part. */
  function ResizeRect(base: Rect, scale: real, img: Rect): (r: Rect)
    requires base.Positive()
    ensures r.Standard()
  {
    var (newWidth, newHeight) := ResizeSize(base, scale, img);
    var newX := base.MidX() - newWidth / 2.0;
    var newY := base.MidY() - newHeight / 2.0;
    Rect(Clamp(newX, img.MinX(), img.MaxX() - newWidth),
         Clamp(newY, img.MinY(), img.MaxY() - newHeight),
         newWidth, newHeight)
  }

  /** In an image at least MinSize wide the resized crop lies inside it. */
  lemma ResizeRectInside(base: Rect, scale: real, img: Rect)
    requires base.Positive() && img.Width() >= MinSize
    ensures Inside(ResizeRect(base, scale, img), img)
  {
    var (w, h) := ResizeSize(base, scale, img);
    assert img.MaxX() - w >= img.MinX() && img.MaxY() - h >= img.MinY();
  }

  /** ResizeRect centres the result on the base rectangle's centre wherever
      the image leaves room. */
  lemma ResizeKeepsCenter(base: Rect, scale: real, img: Rect)
    requires base.Positive()
    requires img.MinX() <= base.MidX() - ResizeRect(base, scale, img).width / 2.0 <= img.MaxX() - ResizeRect(base, scale, img).width
    requires img.MinY() <= base.MidY() - ResizeRect(base, scale, img).height / 2.0 <= img.MaxY() - ResizeRect(base, scale, img).height
    ensures ResizeRect(base, scale, img).Center() == base.Center()
  {
  }

  /** A scale of zero or less saturates the width at the minimum size unless
      the height clamp takes over. */
  lemma ResizeNonPositiveScale(base: Rect, scale: real, img: Rect)
    requires base.Positive() && img.Width() > 0.0 && scale <= 0.0
    ensures ClampedWidth(base, scale, img) == MinSize
    ensures !HeightClampFires(base, scale, img) ==> ResizeRect(base, scale, img).width == MinSize
  {
    assert base.Width() * scale <= 0.0;
  }

  /** A 40 by 80 base tripled in a 200 by 200 image is cut to the image's
      height, keeping the 1:2 shape. */
  lemma ResizeTallExample()
    ensures ResizeRect(Rect(0.0, 0.0, 40.0, 80.0), 3.0, Rect(0.0, 0.0, 200.0, 200.0))
         == Rect(0.0, 0.0, 100.0, 200.0)
  {
  }

  /** The height clamp can leave the width below the minimum size: a 2:1
      base in an image only 10 high comes out 20 wide. */
  lemma ResizeCanShrinkBelowMinimum()
    ensures ResizeRect(Rect(0.0, 0.0, 200.0, 100.0), 1.0, Rect(0.0, 0.0, 200.0, 10.0))
         == Rect(90.0, 0.0, 20.0, 10.0)
    ensures ResizeRect(Rect(0.0, 0.0, 200.0, 100.0), 1.0, Rect(0.0, 0.0, 200.0, 10.0)).width < MinSize
  {
    var base, img := Rect(0.0, 0.0, 200.0, 100.0), Rect(0.0, 0.0, 200.0, 10.0);
    assert ClampedWidth(base, 1.0, img) == 200.0;
    assert BaseRatio(base) == 2.0;
    assert ResizeSize(base, 1.0, img) == ClampHeight(200.0, 2.0, 10.0) == (20.0, 10.0);
  }

  /** In an image narrower than the minimum size the crop sticks out. */
  lemma ResizeOverflowsNarrowImage()
    ensures !Inside(ResizeRect(Rect(0.0, 0.0, 10.0, 10.0), 1.0, Rect(0.0, 0.0, 30.0, 300.0)),
                    Rect(0.0, 0.0, 30.0, 300.0))
  {
  }
}
