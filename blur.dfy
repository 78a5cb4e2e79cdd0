/** The size arithmetic of `drawBlurredBackground` (app.js): a cover-fit
    crop of the image, shrunk onto a canvas a sixth of the frame and
    stretched back over the whole frame. Pixel contents are not modelled. */
module Blur {
  import opened JsMath
  import opened Frame

  /** A rectangle `(x, y, w, h)` as `drawImage` takes it. */
  datatype Rect = Rect(x: real, y: real, w: real, h: real)

  /** The three rectangles of one blurred background: the part of the image
      that is read, the small offscreen canvas it is drawn onto, and the
      area of the frame that canvas is stretched over. */
  datatype BlurPlan = BlurPlan(crop: Rect, offscreen: Size, target: Rect)

  /** The rectangle lies inside an image of `iw` by `ih` pixels. */
  predicate Within(r: Rect, iw: real, ih: real)
  {
    0.0 <= r.x && r.x + r.w <= iw && 0.0 <= r.y && r.y + r.h <= ih
  }

  /** `scale`: the least factor by which the image covers the frame on both
      axes. */
  function CoverScale(cw: int, ch: int, iw: int, ih: int): (s: real)
    requires iw > 0 && ih > 0
    ensures iw as real * s >= cw as real && ih as real * s >= ch as real
    ensures iw as real * s == cw as real || ih as real * s == ch as real
  {
    var s := Max(cw as real / iw as real, ch as real / ih as real);
    assert iw as real * (cw as real / iw as real) == cw as real;
    assert ih as real * (ch as real / ih as real) == ch as real;
    MulMono(cw as real / iw as real, s, iw as real);
    MulMono(ch as real / ih as real, s, ih as real);
    s
  }

  /** The source rectangle exactly as the program passes it to `drawImage`:
      `(sx, sy)` computed on the image scaled by `CoverScale`, and the frame
      size as width and height, although `drawImage` reads its source
      rectangle in the image's own pixels. */
  function CropAsWritten(cw: int, ch: int, iw: int, ih: int): Rect
    requires iw > 0 && ih > 0
  {
    var s := CoverScale(cw, ch, iw, ih);
    Rect((iw as real * s - cw as real) / 2.0, (ih as real * s - ch as real) / 2.0,
         cw as real, ch as real)
  }

  /** The cover crop the program evidently means: the same rectangle taken
      back into the image's own pixels, that is divided by `CoverScale`. */
  function CoverCrop(cw: int, ch: int, iw: int, ih: int): (c: Rect)
    requires cw > 0 && ch > 0 && iw > 0 && ih > 0
    ensures var a := CropAsWritten(cw, ch, iw, ih); var s := CoverScale(cw, ch, iw, ih);
      c.x * s == a.x && c.y * s == a.y && c.w * s == a.w && c.h * s == a.h
  {
    var s := CoverScale(cw, ch, iw, ih);
    assert s > 0.0;
    var c := Rect((iw as real - cw as real / s) / 2.0, (ih as real - ch as real / s) / 2.0,
                  cw as real / s, ch as real / s);
    assert c.x * s == (iw as real * s - (cw as real / s) * s) / 2.0;
    assert c.y * s == (ih as real * s - (ch as real / s) * s) / 2.0;
    c
  }

  /** `smallW`, `smallH`: a sixth of the frame, rounded down, never below
      one pixel. */
  function OffscreenSize(cw: int, ch: int): (s: Size)
    ensures 1 <= s.width && 1 <= s.height
    ensures cw >= 6 ==> 6 * s.width <= cw < 6 * (s.width + 1)
    ensures ch >= 6 ==> 6 * s.height <= ch < 6 * (s.height + 1)
    ensures cw < 6 ==> s.width == 1
    ensures ch < 6 ==> s.height == 1
  {
    Size(MaxInt(1, Floor(cw as real / 6.0)), MaxInt(1, Floor(ch as real / 6.0)))
  }

  /** The whole blurred background for a frame of `cw` by `ch` and an image
      of `iw` by `ih`, with the crop corrected (see `CoverCrop`). */
  function BlurredBackground(cw: int, ch: int, iw: int, ih: int): (p: BlurPlan)
    requires cw > 0 && ch > 0 && iw > 0 && ih > 0
    // the corrected cover crop is drawn onto a canvas a sixth of the frame
    ensures p.crop == CoverCrop(cw, ch, iw, ih) && p.offscreen == OffscreenSize(cw, ch)
    ensures Within(p.crop, iw as real, ih as real)
    ensures p.offscreen.width <= cw && p.offscreen.height <= ch
    // the stretched offscreen canvas covers exactly the frame
    ensures p.target == Rect(0.0, 0.0, cw as real, ch as real)
  {
    CoverCropInsideImage(cw, ch, iw, ih);
    BlurPlan(CoverCrop(cw, ch, iw, ih), OffscreenSize(cw, ch),
             Rect(0.0, 0.0, cw as real, ch as real))
  }

  /** The corrected crop lies inside the image, touches it on both edges of
      at least one axis, is centred on it, and has the frame's ratio. */
  lemma CoverCropInsideImage(cw: int, ch: int, iw: int, ih: int)
    requires cw > 0 && ch > 0 && iw > 0 && ih > 0
    ensures var c := CoverCrop(cw, ch, iw, ih);
      && Within(c, iw as real, ih as real)
      && (c.w == iw as real || c.h == ih as real)
      && c.x == iw as real - (c.x + c.w) && c.y == ih as real - (c.y + c.h)
      && c.w * ch as real == c.h * cw as real
  {
    var s := CoverScale(cw, ch, iw, ih);
    var c := CoverCrop(cw, ch, iw, ih);
    var W, H, I, J := cw as real, ch as real, iw as real, ih as real;
    assert s > 0.0;
    DivAtMost(W, I, s);
    DivAtMost(H, J, s);
    if I * s == W {
      assert c.w == I;
    } else {
      assert c.h == J;
    }
    assert c.w * H == c.h * W by {
      assert c.w * H == (W * H) / s;
      assert c.h * W == (H * W) / s;
    }
  }

  /** `a <= i*s` divided by `s`. */
  lemma DivAtMost(a: real, i: real, s: real)
    requires s > 0.0 && a <= i * s
    ensures a / s <= i
  {
    assert a / s <= (i * s) / s;
  }

  /** As written, the source rectangle has the frame's size, so it leaves
      the image whenever the frame adds a border. */
  lemma CropAsWrittenLeavesImage(cw: int, ch: int, iw: int, ih: int)
    requires 0 < iw <= cw && 0 < ih <= ch && (cw != iw || ch != ih)
    ensures !Within(CropAsWritten(cw, ch, iw, ih), iw as real, ih as real)
  {
  }

  /** 1080x1920 framed at 16:9 (3414x1920): the rectangle read as written
      starts about 2074.7 pixels down an image only 1920 pixels tall, so it
      misses the image altogether. */
  lemma CropAsWrittenMissesPortrait()
    ensures CropAsWritten(3414, 1920, 1080, 1920).y > 1920.0
  {
    var s := CoverScale(3414, 1920, 1080, 1920);
    assert s == 3414.0 / 1080.0;
  }

  /** Without a border the two crops agree: both are the whole image. */
  lemma CropsAgreeWithoutBorder(iw: int, ih: int)
    requires iw > 0 && ih > 0
    ensures CropAsWritten(iw, ih, iw, ih) == Rect(0.0, 0.0, iw as real, ih as real)
    ensures CoverCrop(iw, ih, iw, ih) == Rect(0.0, 0.0, iw as real, ih as real)
  {
    var s := CoverScale(iw, ih, iw, ih);
    assert s == 1.0;
  }
}
