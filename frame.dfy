/** `canvasSize` and the centring offsets of `drawResult` (app.js): the
    smallest frame at the target ratio that holds the source at 1:1 scale,
    with the source centred in it. */
module Frame {
  import opened JsMath

  /** The integer size of a canvas. */
  datatype Size = Size(width: int, height: int)

  /** Where the source's top-left corner lands inside the frame. */
  datatype Placement = Placement(offsetX: real, offsetY: real)

  /** `canvasSize(oldW, oldH, r)`: each side is the least integer that is at
      least the source side and at least what the other source side needs
      at ratio `r`. Callers only pass a truthy ratio, so `r != 0`. */
  function CanvasSize(oldW: int, oldH: int, r: real): (s: Size)
    requires r != 0.0
    ensures s.width >= oldW && s.width as real >= oldH as real * r
    ensures s.height >= oldH && s.height as real >= oldW as real / r
    ensures s.width == oldW || (s.width - 1) as real < oldH as real * r
    ensures s.height == oldH || (s.height - 1) as real < oldW as real / r
  {
    Size(Ceil(Max(oldW as real, oldH as real * r)),
         Ceil(Max(oldH as real, oldW as real / r)))
  }

  /** `offsetX`, `offsetY` of `drawResult`: half the slack on each axis. */
  function Centre(oldW: int, oldH: int, frame: Size): (p: Placement)
    requires oldW <= frame.width && oldH <= frame.height
    ensures 0.0 <= p.offsetX && p.offsetX + oldW as real <= frame.width as real
    ensures 0.0 <= p.offsetY && p.offsetY + oldH as real <= frame.height as real
    // equal margins on both sides of each axis
    ensures p.offsetX == frame.width as real - (p.offsetX + oldW as real)
    ensures p.offsetY == frame.height as real - (p.offsetY + oldH as real)
  {
    Placement((frame.width - oldW) as real / 2.0, (frame.height - oldH) as real / 2.0)
  }

  /** The frame is tight on one side: when the target is at least as wide as
      the source only the width grows, otherwise only the height does. */
  lemma FrameTightOnOneSide(oldW: int, oldH: int, r: real)
    requires oldW > 0 && oldH > 0 && r > 0.0
    ensures r >= oldW as real / oldH as real ==>
      CanvasSize(oldW, oldH, r) == Size(Ceil(oldH as real * r), oldH)
    ensures r < oldW as real / oldH as real ==>
      CanvasSize(oldW, oldH, r) == Size(oldW, Ceil(oldW as real / r))
  {
    var w, h := oldW as real, oldH as real;
    RatioComparison(w, h, r);
    if r >= w / h {
      CeilOfInt(oldH);
    } else {
      CeilOfInt(oldW);
    }
  }

  /** Comparing `r` with the source ratio `w/h` is comparing `h*r` with `w`,
      and `w/r` with `h`. */
  lemma RatioComparison(w: real, h: real, r: real)
    requires w > 0.0 && h > 0.0 && r > 0.0
    ensures r >= w / h <==> h * r >= w
    ensures h * r >= w <==> w / r <= h
  {
    assert h * (w / h) == w;
    assert (w / r) * r == w;
    if r >= w / h {
      MulMono(w / h, r, h);
    } else {
      MulStrict(r, w / h, h);
    }
    if w / r <= h {
      MulMono(w / r, h, r);
    } else {
      MulStrict(h, w / r, r);
    }
  }

  /** A source already at the target ratio gets no border and sits at the
      origin. */
  lemma FrameAtSourceRatio(oldW: int, oldH: int)
    requires oldW > 0 && oldH > 0
    ensures CanvasSize(oldW, oldH, oldW as real / oldH as real) == Size(oldW, oldH)
    ensures Centre(oldW, oldH, Size(oldW, oldH)) == Placement(0.0, 0.0)
  {
    var r := oldW as real / oldH as real;
    FrameTightOnOneSide(oldW, oldH, r);
    assert oldH as real * r == oldW as real;
    CeilOfInt(oldW);
  }

  /** The frame has the target ratio up to the one pixel that the ceiling
      adds: `r*height - r < width < r*height + 1`. */
  lemma FrameMatchesRatio(oldW: int, oldH: int, r: real)
    requires oldW > 0 && oldH > 0 && r > 0.0
    ensures var s := CanvasSize(oldW, oldH, r);
      s.height as real * r - r < s.width as real < s.height as real * r + 1.0
  {
    var s := CanvasSize(oldW, oldH, r);
    FrameTightOnOneSide(oldW, oldH, r);
    var w, h := oldW as real, oldH as real;
    if r >= w / h {
      assert s.height == oldH;
      assert s.height as real * r - r < s.height as real * r;
    } else {
      assert s.width == oldW;
      var hh := s.height as real;
      assert w / r <= hh < w / r + 1.0;
      CeilCovers(hh, w, r);
      CeilSlack(hh, w, r);
    }
  }

  /** `w/r <= hh` scaled by `r`. */
  lemma CeilCovers(hh: real, w: real, r: real)
    requires r > 0.0 && w / r <= hh
    ensures w <= hh * r
  {
    var q := w / r;
    MulMono(q, hh, r);
    assert q * r == w;
  }

  /** `hh < w/r + 1` scaled by `r`. */
  lemma CeilSlack(hh: real, w: real, r: real)
    requires r > 0.0 && hh < w / r + 1.0
    ensures hh * r - r < w
  {
    var q := w / r;
    MulStrict(hh - 1.0, q, r);
    assert (hh - 1.0) * r == hh * r - r;
    assert q * r == w;
  }

  lemma MulMono(a: real, b: real, c: real)
    requires a <= b && c >= 0.0
    ensures a * c <= b * c
  {
  }

  lemma DivTimes(x: real, d: real)
    requires d > 0.0
    ensures d * (x / d) == x
  {
  }

  lemma MulStrict(a: real, b: real, c: real)
    requires a < b && c > 0.0
    ensures a * c < b * c
  {
  }

  /** A negative ratio (a negative custom width passes the ratio checks)
      leaves the frame equal to the source. */
  lemma FrameAtNegativeRatio(oldW: int, oldH: int, r: real)
    requires oldW >= 0 && oldH >= 0 && r < 0.0
    ensures CanvasSize(oldW, oldH, r) == Size(oldW, oldH)
  {
    assert oldH as real * r <= 0.0;
    assert oldW as real / r <= 0.0;
    CeilOfInt(oldW);
    CeilOfInt(oldH);
  }

  /** Portrait 1080x1920 at 16:9: 1920*16/9 = 3413.33... rounds up to 3414. */
  lemma PortraitToWidescreen()
    ensures CanvasSize(1080, 1920, 16.0 / 9.0) == Size(3414, 1920)
  {
    FrameTightOnOneSide(1080, 1920, 16.0 / 9.0);
    assert 1920.0 * (16.0 / 9.0) == 30720.0 / 9.0;
  }

  /** 4000x3000 into a square: 4000x4000, 500 pixels above and below. */
  lemma LandscapeToSquare()
    ensures CanvasSize(4000, 3000, 1.0) == Size(4000, 4000)
    ensures Centre(4000, 3000, Size(4000, 4000)) == Placement(0.0, 500.0)
  {
    FrameTightOnOneSide(4000, 3000, 1.0);
    CeilOfInt(4000);
  }
}
