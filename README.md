# VisionCropKit crop geometry, in Dafny

A model of the crop-geometry engine of VisionCropKit. The package shows an image
fitted into a container and lays a crop frame over it. Users drag the frame and
pinch to resize it, optionally locked to a preset aspect ratio, and the chosen
region is reported in coordinates normalised to the image.

The engine is the `CropViewModel` class. It has one immutable rectangle, `imageRect`
(the image fitted into the container), and one mutable rectangle, `cropRect`. Its
operations are:

- the initialiser;
- three mutators: `move(toCenter:)`, `resize(from:by:)` and `applyRatio`;
- the computed `normalizedRect`;
- three static helpers: `fitRect`, `makeCropFrame` and `cropRectFromNormalized`.

Every mutator, and the initialiser, passes the new normalised rectangle to a change
callback. The preset table `CropAspectRatio` maps eight presets to a ratio and a
menu label.

`CGFloat` is modelled as `real`: the engine relies on exact algebra, so the
contracts hold in real arithmetic. `CGRect` is `Geometry.Rect`. Its accessors
`Width()`, `MinX()`, `MaxX()`, `MidX()` (and the Y versions) behave as CoreGraphics
does: they work on the standardised rectangle, so a negative width reads as its
absolute value. The engine itself only ever builds rectangles whose sides are not
negative (`Rect.Standard()`).

Files:

- `geometry.dfy` (module `Geometry`): points, sizes, rectangles and ratios. It also
  holds the `max(lo, min(v, hi))` clamp used by move, resize and makeCropFrame, and `Inside`, the
  "one rectangle lies inside another" predicate.
- `crop_math.dfy` (module `CropMath`): the static helpers. It also has, as pure
  functions, the rectangle each mutator computes (`MoveRect`, `ResizeSize`,
  `ResizeRect`), with their properties and the worked examples.
- `view_model.dfy` (module `ViewModel`): the class `CropViewModel`, with
  `const imageRect`, `var cropRect` and a ghost log `notifications` of every callback
  payload. It also has the calls as values (`Op`): `Step` applies one call and `Run`
  applies a sequence. The containment invariant over any sequence of calls is
  proved on `Run`.
- `aspect_presets.dfy` (module `AspectPresets`): the preset enum, its ratios,
  labels and `allCases`.

## Model

| member | source | states |
|---|---|---|
| `Geometry.Clamp` | Sources/VisionCropKit/CropViewModel.swift:33-34 | The result lies in `[lo, hi]` when that range is not empty. It is `lo` when the range is inverted, `v` when `v` is already in range, and the nearer bound otherwise. |
| `CropMath.FitRect` | Sources/VisionCropKit/CropViewModel.swift:84-95 | The fitted image has positive sides and `width == aspect * height`. It lies within `[0, w] x [0, h]` of the container, spans the container on one axis, and is centred on both axes. |
| `CropMath.FitRectIsLargest` | Sources/VisionCropKit/CropViewModel.swift:85-94 | No rectangle of the image's aspect that fits in the container is wider or taller than the fitted one. |
| `CropMath.FitRectSquareInWideContainer` | Sources/VisionCropKit/CropViewModel.swift:86-89 | Aspect 1 in a 200 by 100 container gives (50, 0, 100, 100). |
| `CropMath.FrameSize` | Sources/VisionCropKit/CropViewModel.swift:102-112 | The frame size has positive sides and the target ratio (`w * ratio.height == ratio.width * h`). It is no larger than the image on either side and equals the image's width or its height. |
| `CropMath.MakeCropFrame` | Sources/VisionCropKit/CropViewModel.swift:97-122 | The frame has the target ratio and lies inside the image. Its width or its height is the image's. With no centre given, its centre is the image's centre. |
| `CropMath.MakeCropFrameCentred` | Sources/VisionCropKit/CropViewModel.swift:114-119 | A requested centre that leaves room on every side becomes the frame's exact centre. |
| `CropMath.MakeCropFrameIsLargest` | Sources/VisionCropKit/CropViewModel.swift:102-112 | Every rectangle of the target ratio that fits in the image is no wider and no taller than the frame. |
| `CropMath.MakeCropFrameFourByThree` | Sources/VisionCropKit/CropViewModel.swift:97-122 | A 300 by 300 image with ratio 4:3 gives (0, 37.5, 300, 225). |
| `CropMath.Normalize` | Sources/VisionCropKit/CropViewModel.swift:76-82 | The normalised form of a crop has sides that are not negative. It lies in the unit square whenever the crop lies inside the image. |
| `CropMath.CropRectFromNormalized` | Sources/VisionCropKit/CropViewModel.swift:124-131 | The container-space rectangle has sides that are not negative. |
| `CropMath.CropRectFromNormalizedInside` | Sources/VisionCropKit/CropViewModel.swift:124-131 | A normalised rectangle inside the unit square stands for a rectangle inside the image. |
| `CropMath.NormalizeOfDenormalized` | Sources/VisionCropKit/CropViewModel.swift:76-82 | For an image with positive sides, normalising the result of `cropRectFromNormalized` gives the normalised rectangle back. |
| `CropMath.DenormalizeOfNormalized` | Sources/VisionCropKit/CropViewModel.swift:124-131 | For an image with positive sides, `cropRectFromNormalized` of the normalised crop gives the crop back. The two conversions are mutual inverses. |
| `CropMath.MoveRect` | Sources/VisionCropKit/CropViewModel.swift:30-35 | A move keeps the crop's width and height, and keeps a crop that was inside the image inside it. |
| `CropMath.MoveIdempotent` | Sources/VisionCropKit/CropViewModel.swift:30-35 | Moving to a centre twice gives the same crop as moving there once. |
| `CropMath.MoveCentres` | Sources/VisionCropKit/CropViewModel.swift:31-34 | Where the image leaves room, the crop's centre becomes exactly the requested centre. |
| `CropMath.MovePinsTopLeft` | Sources/VisionCropKit/CropViewModel.swift:31-34 | A centre far up and to the left puts the origin at the image's top-left corner. |
| `CropMath.MovePinsBottomRight` | Sources/VisionCropKit/CropViewModel.swift:31-34 | A centre far down and to the right puts a crop that fits against the image's bottom-right corner. |
| `CropMath.MoveFarOffExamples` | Sources/VisionCropKit/CropViewModel.swift:30-35 | A 50 by 50 crop in a 100 by 100 image goes to origin (0, 0) for centre (-1000, -1000), and to (50, 50) for centre (1000, 1000). |
| `CropMath.BaseRatio` | Sources/VisionCropKit/CropViewModel.swift:42 | The base ratio is positive and equals `width / height` of the base rectangle. |
| `CropMath.ClampedWidth` | Sources/VisionCropKit/CropViewModel.swift:43-46 | The clamped width is at least 40. It is at most the image width when the image is at least 40 wide, and it is the scaled width when that is already in range. |
| `CropMath.ClampHeight` | Sources/VisionCropKit/CropViewModel.swift:47-52 | The height clamp gives a height in `[0, maxHeight]`. It never widens. |
| `CropMath.ClampHeightKeepsRatio` | Sources/VisionCropKit/CropViewModel.swift:47-52 | Both outcomes of the height clamp keep `width == ratio * height` exactly. |
| `CropMath.ResizeSize` | Sources/VisionCropKit/CropViewModel.swift:40-52 | The resized height never exceeds the image's. The resized width does not exceed the image's width when that width is at least 40. |
| `CropMath.ResizeKeepsShape` | Sources/VisionCropKit/CropViewModel.swift:42-52 | The resized size has exactly the base rectangle's width-to-height ratio. |
| `CropMath.ResizeClampCases` | Sources/VisionCropKit/CropViewModel.swift:46-52 | Without the height clamp, the width is the clamped width, so it is at least 40. With the clamp, the height is the image's and the width is below the clamped width. |
| `CropMath.ResizeRect` | Sources/VisionCropKit/CropViewModel.swift:39-65 | The resized crop has sides that are not negative. Its input is only the base rectangle, the scale and the image, never the current crop. |
| `CropMath.ResizeRectInside` | Sources/VisionCropKit/CropViewModel.swift:54-65 | In an image at least 40 wide, the resized crop lies inside the image. |
| `CropMath.ResizeKeepsCenter` | Sources/VisionCropKit/CropViewModel.swift:54-58 | Where the image leaves room, the resized crop is centred on the base rectangle's centre. |
| `CropMath.ResizeNonPositiveScale` | Sources/VisionCropKit/CropViewModel.swift:43-46 | A scale of zero or less saturates the width at 40. The crop stays 40 wide unless the height clamp takes over. |
| `CropMath.ResizeTallExample` | Sources/VisionCropKit/CropViewModel.swift:39-65 | Base (0, 0, 40, 80), scale 3, in a 200 by 200 image gives (0, 0, 100, 200). |
| `CropMath.ResizeCanShrinkBelowMinimum` | Sources/VisionCropKit/CropViewModel.swift:49-52 | Base (0, 0, 200, 100), scale 1, in a 200 by 10 image gives (90, 0, 20, 10). The height clamp leaves the width below 40. |
| `CropMath.ResizeOverflowsNarrowImage` | Sources/VisionCropKit/CropViewModel.swift:46 | In an image 30 wide, the 40-wide minimum pushes the crop outside the image. |
| `ViewModel.Step` | Sources/VisionCropKit/CropViewModel.swift:30-74 | One call keeps the crop's sides non-negative. A resize or a ratio change always produces such a crop. |
| `ViewModel.StepKeepsInside` | Sources/VisionCropKit/CropViewModel.swift:30-74 | Each of move, resize and applyRatio keeps a crop inside an image at least 40 wide, through the clamps of lines 33-34, 61-62 and 118-119. |
| `ViewModel.RunAppend` | Sources/VisionCropKit/CropViewModel.swift:30-74 | Running one more call after a sequence is one more `Step` on the sequence's result. |
| `ViewModel.RunExtends` | Sources/VisionCropKit/CropViewModel.swift:30-74 | If a crop is the result of a sequence of calls, one more call on it gives the result of the sequence extended by that call. |
| `ViewModel.RunKeepsInside` | Sources/VisionCropKit/CropViewModel.swift:30-74 | Containment invariant: a crop that starts inside an image at least 40 wide stays inside after any sequence of moves, resizes and ratio changes. It rests on the origin clamps of move (lines 33-34), resize (lines 61-62) and makeCropFrame (lines 118-119). `Run` is the sequence of calls folded with `Step`. |
| `ViewModel.RunKeepsStandard` | Sources/VisionCropKit/CropViewModel.swift:30-74 | No sequence of calls gives the crop a negative side. |
| `ViewModel.ResizeReanchors` | Sources/VisionCropKit/CropViewModel.swift:39-65 | `resize(b, s1)` followed by `resize(b, s2)` gives the same crop as `resize(b, s2)` alone. |
| `ViewModel.ApplyRatioKeepsOnlyCenter` | Sources/VisionCropKit/CropViewModel.swift:70-74 | Two crops with the same centre give the same frame under applyRatio, whatever their sizes: only the centre survives. |
| `ViewModel.CropViewModel.NormalizedRect` | Sources/VisionCropKit/CropViewModel.swift:76-82 | The normalised crop converts back to `cropRect`. It lies in the unit square whenever the crop lies in the image. |
| `ViewModel.CropViewModel.TracedInside` | Sources/VisionCropKit/CropViewModel.swift:30-74 | For the object itself: if its initial crop lay inside an image at least 40 wide, its crop after all the calls it recorded is still inside. |
| `ViewModel.CropViewModel.constructor` | Sources/VisionCropKit/CropViewModel.swift:10-28 | `imageRect` is the fitted image. The crop is either the supplied normalised rectangle converted to container space, or the centred frame of the ratio. It lies inside the image when it comes from the frame or from a rectangle within the unit square. Exactly one notification is made, carrying the normalised crop. The call record starts empty, with this crop as its initial crop. |
| `ViewModel.CropViewModel.Move` | Sources/VisionCropKit/CropViewModel.swift:30-37 | The new crop is `MoveRect` of the old one, with the same width and height. Containment is preserved. Exactly one notification is appended, carrying the new normalised crop. The call is recorded, and a crop that was the result of the recorded calls stays so. |
| `ViewModel.CropViewModel.Resize` | Sources/VisionCropKit/CropViewModel.swift:39-68 | The new crop is `ResizeRect` of the base rectangle, whatever the old crop was. It lies inside an image at least 40 wide. Exactly one notification is appended. The call is recorded, and a crop that was the result of the recorded calls stays so. |
| `ViewModel.CropViewModel.ApplyRatio` | Sources/VisionCropKit/CropViewModel.swift:70-74 | The new crop is the frame of the ratio about the old crop's centre. It lies inside the image. Exactly one notification is appended. The call is recorded, and a crop that was the result of the recorded calls stays so. |
| `AspectPresets.CropAspectRatio.Sides` | Sources/VisionCropKit/CropAspectRatio.swift:17-36 | Both whole-number sides of every preset's ratio are positive. It is the table of `Ratio` in whole numbers, kept so that `DisplayName` can be stated by the digits of the sides. |
| `AspectPresets.CropAspectRatio.Ratio` | Sources/VisionCropKit/CropAspectRatio.swift:17-36 | Every preset's ratio has strictly positive sides, and they are the whole numbers of `Sides()`. |
| `AspectPresets.CropAspectRatio.DisplayName` | Sources/VisionCropKit/CropAspectRatio.swift:38-57 | Every preset except `freeform` is labelled "w:h", the decimal digits of its ratio's two sides. `freeform` is labelled "Freeform". |
| `AspectPresets.AllCases` | Sources/VisionCropKit/CropAspectRatio.swift:3-15 | `allCases` has eight entries, entry `i` being the `i`-th declared case, and it contains every case. |
| `AspectPresets.AllCasesDistinct` | Sources/VisionCropKit/CropAspectRatio.swift:13-15 | No case appears twice in `allCases`. |
| `AspectPresets.FreeformIsSquare` | Sources/VisionCropKit/CropAspectRatio.swift:19-20 | `freeform` maps to the same 1:1 ratio as `square`. |
| `AspectPresets.LandscapeIsPortraitSwapped` | Sources/VisionCropKit/CropAspectRatio.swift:21-32 | 2:1, 4:3 and 16:9 are 1:2, 3:4 and 9:16 with width and height exchanged. |

## Left out

- Floating point: `real` replaces `CGFloat`, with no rounding, infinities or NaN. Where Swift would silently produce inf or NaN, or a rectangle with a negative side, the model has a precondition instead. These preconditions exclude zero and also negative values:
  - a positive container size and image aspect (`FitRect`, the initialiser);
  - positive ratio sides (`MakeCropFrame`, `ApplyRatio`, and the initialiser when no initial rectangle is given);
  - an image with positive sides (`Normalize`).
- `ViewModel.CropViewModel.Resize`: requires a base rectangle whose stored width and height are both positive.
  - With a zero width, Swift divides by a zero ratio, gets an infinite height, takes the height clamp and yields a zero-width crop. The model does not follow that path.
  - A base rectangle with negative stored sides, which CoreGraphics would standardise, is also excluded.
  - A live crop meets this requirement unless the initialiser was given a normalised rectangle with a zero side.
- The minimum size of 40 is sometimes described as an invariant of the crop. The code does not keep it, and the model does not claim it:
  - the height clamp of `resize` can leave the width below 40 (`ResizeCanShrinkBelowMinimum`);
  - `makeCropFrame` and `applyRatio` apply no minimum at all.
- Containment after `resize` is guaranteed only for images at least 40 wide. In a narrower image it can fail (`ResizeOverflowsNarrowImage`), though the height clamp sometimes narrows the crop enough to fit.
- The initialiser does not validate a supplied normalised rectangle. Containment on that path is stated only for rectangles within the unit square.
- `cropRect.center` comes from an extension that is not part of this model. It is taken to be `(midX, midY)`.
- The class records its calls only as the ghost list `calls`, and its crop is tied to them by `Traced()`. That predicate is kept by each method but is not part of `Valid()`.
- `@Observable` and the SwiftUI binding machinery are not modelled. The change callback is modelled only as the ghost log `notifications` of the payloads it receives.
- `displayName` is a `LocalizedStringKey` in the source. It is modelled as a plain string, with no localisation.
- Sources/VisionCropKit/VisionCropView.swift is not part of this model. It holds SwiftUI layout, the ratio menu and the dismiss/complete buttons. Its `cropImage` is a thin wrapper over the platform's pixel cropping: it calls `CGImage.cropping` and falls back to the original image.
- Sources/VisionCropKit/CropFrameView.swift is not part of this model: drag and pinch gesture state, rendering, animation and the grid lines.
- Sources/VisionCropKit/CropRatio.swift is folded into `Geometry.CropRatio`. Its note about freeform ratios describes behaviour that does not exist yet, and it is not modelled.
- Package.swift is a build manifest only.
- Concurrency: none. The engine is called from one UI thread.
