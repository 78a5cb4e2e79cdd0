/** `drawResult` and `updatePreview` (app.js) with every pixel operation
    taken out: what remains is which canvas sizes, offsets and background
    the program picks. */
module Compose {
  import opened Wrappers
  import opened JsMath
  import opened Frame
  import opened Blur
  import opened Ratio

  /** A decoded image element: its intrinsic size and its `width`/`height`. */
  datatype Source = Source(naturalWidth: nat, naturalHeight: nat, width: nat, height: nat)

  /** The images the model covers: both the element size and the source
      size are positive. The program itself checks no size. */
  predicate Decoded(img: Source)
  {
    img.width > 0 && img.height > 0 && SourceWidth(img) > 0 && SourceHeight(img) > 0
  }

  /** `img.naturalWidth || img.width`: the intrinsic width when the image
      knows it, else the element's width; zero only when both are. */
  function SourceWidth(img: Source): (w: nat)
    ensures w == img.naturalWidth || w == img.width
    ensures img.naturalWidth > 0 ==> w == img.naturalWidth
    ensures w > 0 <==> img.naturalWidth > 0 || img.width > 0
  {
    if img.naturalWidth != 0 then img.naturalWidth else img.width
  }

  /** `img.naturalHeight || img.height`: the intrinsic height when the
      image knows it, else the element's height; zero only when both are. */
  function SourceHeight(img: Source): (h: nat)
    ensures h == img.naturalHeight || h == img.height
    ensures img.naturalHeight > 0 ==> h == img.naturalHeight
    ensures h > 0 <==> img.naturalHeight > 0 || img.height > 0
  {
    if img.naturalHeight != 0 then img.naturalHeight else img.height
  }

  /** JavaScript truthiness of an optional size argument: `undefined` and 0
      are false. */
  predicate Truthy(n: Option<int>)
  {
    n.Some? && n.value != 0
  }

  /** How the frame is filled before the source is drawn on top. */
  datatype Background = Flat(colour: string) | Blurred(plan: BlurPlan)

  /** Everything `drawResult` decides: the frame, where the source goes, the
      background, whether the frame is resampled, and the size of the canvas
      it returns. */
  datatype Composite = Composite(frame: Size, placement: Placement, background: Background,
                                 resampled: bool, result: Size)

  /** The background chosen by `bgMode`: only "blur" blurs, only "black" is
      black, anything else is white. */
  function Fill(bgMode: string, frame: Size, img: Source): (b: Background)
    requires frame.width > 0 && frame.height > 0 && Decoded(img)
    ensures b.Blurred? <==> bgMode == "blur"
    ensures b.Flat? ==> b.colour == (if bgMode == "black" then "#000" else "#fff")
    ensures b.Blurred? ==> b.plan.target == Rect(0.0, 0.0, frame.width as real, frame.height as real)
    // the blur measures the image by its element size, not its intrinsic one
    ensures b.Blurred? ==> b.plan == BlurredBackground(frame.width, frame.height, img.width, img.height)
  {
    if bgMode == "blur" then Blurred(BlurredBackground(frame.width, frame.height, img.width, img.height))
    else Flat(if bgMode == "black" then "#000" else "#fff")
  }

  /** `drawResult(img, r, bgMode, outputW, outputH)`. The returned canvas has
      the requested size whenever both requested sides are non-zero, and the
      frame's size otherwise: the comparison with the frame only saves a
      resample, it never changes the size. */
  function DrawResult(img: Source, r: real, bgMode: string, outputW: Option<int>, outputH: Option<int>)
    : (c: Composite)
    requires r != 0.0 && Decoded(img)
    ensures c.frame == CanvasSize(SourceWidth(img), SourceHeight(img), r)
    ensures c.placement == Centre(SourceWidth(img), SourceHeight(img), c.frame)
    ensures c.background == Fill(bgMode, c.frame, img)
    ensures Truthy(outputW) && Truthy(outputH) ==> c.result == Size(outputW.value, outputH.value)
    ensures !(Truthy(outputW) && Truthy(outputH)) ==> c.result == c.frame
    ensures c.resampled <==> Truthy(outputW) && Truthy(outputH) && c.result != c.frame
  {
    var oldW, oldH := SourceWidth(img), SourceHeight(img);
    var frame := CanvasSize(oldW, oldH, r);
    var placement := Centre(oldW, oldH, frame);
    var background := Fill(bgMode, frame, img);
    if Truthy(outputW) && Truthy(outputH) && (outputW.value != frame.width || outputH.value != frame.height) then
      Composite(frame, placement, background, true, Size(outputW.value, outputH.value))
    else
      Composite(frame, placement, background, false, frame)
  }

  /** An export call passes no output size and gets the full frame. */
  lemma ExportGetsFrame(img: Source, r: real, bgMode: string)
    requires r != 0.0 && Decoded(img)
    ensures var c := DrawResult(img, r, bgMode, None, None);
      c.result == c.frame && !c.resampled
  {
  }

  const PreviewMax := 360
  const PreviewMaxHeight := 220

  /** `Math.min(PREVIEW_MAX / w, 220 / h, 1)`; a side of 0 divides to
      +Infinity, which never wins the minimum. The scale is the largest that
      fits: it is 1, or it brings a non-zero side exactly onto its bound. */
  function PreviewScale(frame: Size): (s: real)
    requires frame.width >= 0 && frame.height >= 0
    ensures 0.0 < s <= 1.0
    ensures frame.width as real * s <= PreviewMax as real
    ensures frame.height as real * s <= PreviewMaxHeight as real
    ensures || s == 1.0
            || (frame.width > 0 && frame.width as real * s == PreviewMax as real)
            || (frame.height > 0 && frame.height as real * s == PreviewMaxHeight as real)
  {
    var w, h := frame.width as real, frame.height as real;
    var a := if frame.width == 0 then 1.0 else PreviewMax as real / w;
    var b := if frame.height == 0 then 1.0 else PreviewMaxHeight as real / h;
    assert frame.width > 0 ==> w * a == PreviewMax as real by {
      if frame.width > 0 { DivTimes(PreviewMax as real, w); }
    }
    assert frame.height > 0 ==> h * b == PreviewMaxHeight as real by {
      if frame.height > 0 { DivTimes(PreviewMaxHeight as real, h); }
    }
    var s := Min(Min(a, b), 1.0);
    ScaledSideFits(frame.width, PreviewMax, s);
    ScaledSideFits(frame.height, PreviewMaxHeight, s);
    s
  }

  /** A side scaled by at most `bound / side` is at most `bound`. */
  lemma ScaledSideFits(side: int, bound: int, s: real)
    requires side >= 0 && bound > 0 && s > 0.0
    requires side != 0 ==> s <= bound as real / side as real
    ensures side as real * s <= bound as real
  {
    if side != 0 {
      var a := bound as real / side as real;
      MulMono(s, a, side as real);
      assert a * side as real == bound as real;
    }
  }

  /** `Math.round(side * k)`: a side scaled by `0 < k <= 1` to at most
      `bound` rounds to a value between 0 and both the side and `bound`. */
  function ScaledSide(side: int, bound: int, k: real): (n: int)
    requires side >= 0 && 0.0 < k <= 1.0 && side as real * k <= bound as real
    ensures 0 <= n <= bound && n <= side
    ensures n as real - 0.5 <= side as real * k < n as real + 0.5
  {
    ScaleBetween(side, k);
    RoundBelow(side as real * k, bound);
    RoundBelow(side as real * k, side);
    Round(side as real * k)
  }

  /** A side scaled by `0 < k <= 1` stays between 0 and the side. */
  lemma ScaleBetween(side: int, k: real)
    requires side >= 0 && 0.0 < k <= 1.0
    ensures 0.0 <= side as real * k <= side as real
  {
    MulMono(k, 1.0, side as real);
    MulMono(0.0, k, side as real);
  }

  /** `outW`, `outH`: the frame scaled by `PreviewScale`, each side rounded
      to the nearest integer. */
  function PreviewRequest(frame: Size): (s: Size)
    requires frame.width >= 0 && frame.height >= 0
    ensures 0 <= s.width <= PreviewMax && s.width <= frame.width
    ensures 0 <= s.height <= PreviewMaxHeight && s.height <= frame.height
    ensures var k := PreviewScale(frame);
      && s.width as real - 0.5 <= frame.width as real * k < s.width as real + 0.5
      && s.height as real - 0.5 <= frame.height as real * k < s.height as real + 0.5
  {
    var k := PreviewScale(frame);
    Size(ScaledSide(frame.width, PreviewMax, k), ScaledSide(frame.height, PreviewMaxHeight, k))
  }

  /** What the preview area shows. */
  datatype Preview = Placeholder | Shown(size: Size)

  /** `Math.min(previewIndex, files.length - 1)`. */
  function Slot(previewIndex: nat, count: nat): (i: nat)
    requires count > 0
    ensures i < count
    ensures previewIndex < count ==> i == previewIndex
    ensures previewIndex >= count ==> i == count - 1
  {
    if previewIndex < count then previewIndex else count - 1
  }

  /** `updatePreview`: `images[i]` is file `i`'s decoded, complete image or
      None while it is missing or still loading. The preview is shown when
      there is a ratio and the chosen file has its image; it is the preview
      request, or the whole frame when the request has a side of 0. */
  function UpdatePreview(ratio: Option<real>, images: seq<Option<Source>>, previewIndex: nat, bgMode: string)
    : (v: Preview)
    requires forall i :: 0 <= i < |images| && images[i].Some? ==> Decoded(images[i].value)
    ensures v.Shown? <==> TruthyRatio(ratio) && |images| > 0 && images[Slot(previewIndex, |images|)].Some?
    ensures v.Shown? ==>
      var img := images[Slot(previewIndex, |images|)].value;
      var frame := CanvasSize(SourceWidth(img), SourceHeight(img), ratio.value);
      var req := PreviewRequest(frame);
      && (req.width != 0 && req.height != 0 ==> v.size == req)
      && (req.width == 0 || req.height == 0 ==> v.size == frame)
  {
    if ratio.None? || ratio.value == 0.0 || |images| == 0 then Placeholder
    else
      var idx := Slot(previewIndex, |images|);
      match images[idx]
      case None => Placeholder
      case Some(img) =>
        var frame := CanvasSize(SourceWidth(img), SourceHeight(img), ratio.value);
        var req := PreviewRequest(frame);
        Shown(DrawResult(img, ratio.value, bgMode, Some(req.width), Some(req.height)).result)
  }

  /** The preview fits 360x220 and never enlarges the frame, unless a side
      rounds to 0: then `drawResult` sees a falsy size and returns the whole
      frame. */
  lemma PreviewBounds(ratio: Option<real>, images: seq<Option<Source>>, previewIndex: nat, bgMode: string)
    requires forall i :: 0 <= i < |images| && images[i].Some? ==> Decoded(images[i].value)
    ensures var v := UpdatePreview(ratio, images, previewIndex, bgMode);
      v.Shown? ==>
      var img := images[Slot(previewIndex, |images|)].value;
      var frame := CanvasSize(SourceWidth(img), SourceHeight(img), ratio.value);
      || v.size == frame
      || (&& 0 < v.size.width <= PreviewMax && 0 < v.size.height <= PreviewMaxHeight
          && v.size.width <= frame.width && v.size.height <= frame.height)
  {
  }

  /** A 1x1000 image at 1:1000: the width rounds to 0, so the preview is the
      full 1x1000 frame, taller than the 220-pixel box. */
  lemma PreviewFallbackExample()
    ensures UpdatePreview(Some(1.0 / 1000.0), [Some(Source(1, 1000, 1, 1000))], 0, "white")
            == Shown(Size(1, 1000))
  {
    var img := Source(1, 1000, 1, 1000);
    FrameAtSourceRatio(1, 1000);
    var frame := Size(1, 1000);
    var k := PreviewScale(frame);
    assert k == 220.0 / 1000.0;
    assert PreviewRequest(frame).width == 0;
  }
}
