/** Box arithmetic of the icon compositor: `scaled_box` / `scaledBox` and the
    placement half of `_resize_image_in_box` / `_resizeImageInBox`, which are
    the same code in fancyfolders/image_transformations.py and
    fancyfolders/imagetransformations.py. */
module BoxGeometry {
  import opened Numerics
  import opened Utilities

  /** A box (x1, y1, x2, y2) in pixels: top-left and bottom-right corners. */
  datatype Box = Box(x1: int, y1: int, x2: int, y2: int)
  {
    function Width(): int { x2 - x1 }
    function Height(): int { y2 - y1 }
  }

  predicate Ordered(b: Box) { b.x1 <= b.x2 && b.y1 <= b.y2 }

  /** Ordered and inside the region from (0, 0) to (maxW, maxH). */
  predicate WithinRegion(b: Box, maxW: int, maxH: int)
  {
    0 <= b.x1 <= b.x2 <= maxW && 0 <= b.y1 <= b.y2 <= maxH
  }

  /** `inner` is ordered and lies inside `outer`. */
  predicate Inside(inner: Box, outer: Box)
  {
    outer.x1 <= inner.x1 <= inner.x2 <= outer.x2 && outer.y1 <= inner.y1 <= inner.y2 <= outer.y2
  }

  //////////////////////////////////////////////////////////////////////
  // scaled_box
  //////////////////////////////////////////////////////////////////////

  /** `int((bottom + top)/2)`: the truncated centre of a span. */
  function Centre(lo: int, hi: int): int
  {
    Trunc((hi + lo) as real / 2.0)
  }

  /** `int((p - centre) * scale)`: an offset from the centre, scaled and
      truncated toward zero. */
  function ScaledOffset(d: int, scale: real): int
  {
    Trunc(d as real * scale)
  }

  /** One axis of `scaled_box`: both ends moved from the truncated centre by
      their truncated scaled offsets; the low end clipped below at 0 only, the
      high end clipped above at `limit` only. */
  function ScaledSpan(lo: int, hi: int, scale: real, limit: int): (r: (int, int))
    ensures r.0 >= 0 && r.1 <= limit
  {
    var c := Centre(lo, hi);
    (Max(0, c + ScaledOffset(lo - c, scale)), Min(limit, c + ScaledOffset(hi - c, scale)))
  }

  /** `scaled_box(box, scale, (maxW, maxH))`. Whatever the box and the scale, the
      top corner is never left of or above the origin and the bottom corner
      never right of or below (maxW, maxH). */
  function ScaledBox(box: Box, scale: real, maxW: int, maxH: int): (r: Box)
    ensures r.x1 >= 0 && r.y1 >= 0 && r.x2 <= maxW && r.y2 <= maxH
  {
    var xs := ScaledSpan(box.x1, box.x2, scale, maxW);
    var ys := ScaledSpan(box.y1, box.y2, scale, maxH);
    Box(xs.0, ys.0, xs.1, ys.1)
  }

  lemma CentreBetween(lo: int, hi: int)
    requires 0 <= lo <= hi
    ensures lo <= Centre(lo, hi) <= hi
  {
  }

  /** A non-positive offset scaled by a factor in [0, s] and truncated lies
      between the offset scaled by s and 0; likewise for a non-negative one. */
  lemma {:induction false} ScaledOffsetBetween(d: int, scale: real)
    requires 0.0 <= scale
    ensures d <= 0 ==> ScaledOffset(d, scale) <= 0
    ensures d >= 0 ==> ScaledOffset(d, scale) >= 0
    ensures d <= 0 && scale <= 1.0 ==> d <= ScaledOffset(d, scale)
    ensures d >= 0 && scale <= 1.0 ==> ScaledOffset(d, scale) <= d
  {
    var x := d as real * scale;
    if d <= 0 {
      assert x <= 0.0;
      if scale <= 1.0 {
        assert x - d as real == (-d) as real * (1.0 - scale);
        assert x >= d as real;
      }
    }
    if d >= 0 {
      assert x >= 0.0;
      if scale <= 1.0 {
        assert d as real - x == d as real * (1.0 - scale);
        assert x <= d as real;
      }
    }
  }

  /** One axis: an in-range span scaled by a non-negative factor stays in range
      and ordered, with the centre between its ends. */
  lemma {:induction false} ScaledSpanBounds(lo: int, hi: int, scale: real, limit: int)
    requires 0 <= lo <= hi <= limit && scale >= 0.0
    ensures var r := ScaledSpan(lo, hi, scale, limit);
            0 <= r.0 <= Centre(lo, hi) <= r.1 <= limit
  {
    var c := Centre(lo, hi);
    CentreBetween(lo, hi);
    ScaledOffsetBetween(lo - c, scale);
    ScaledOffsetBetween(hi - c, scale);
  }

  /** `scaled_box` bounds: an ordered box inside the region, scaled by any
      non-negative factor, is still ordered and inside the region. */
  lemma ScaledBoxWithinRegion(box: Box, scale: real, maxW: int, maxH: int)
    requires WithinRegion(box, maxW, maxH) && scale >= 0.0
    ensures WithinRegion(ScaledBox(box, scale, maxW, maxH), maxW, maxH)
  {
    ScaledSpanBounds(box.x1, box.x2, scale, maxW);
    ScaledSpanBounds(box.y1, box.y2, scale, maxH);
  }

  /** `scaled_box` with scale 1.0 gives back any box whose top corner is not
      left of or above the origin and whose bottom corner is inside the limits. */
  lemma ScaledBoxIdentity(box: Box, maxW: int, maxH: int)
    requires 0 <= box.x1 && 0 <= box.y1 && box.x2 <= maxW && box.y2 <= maxH
    ensures ScaledBox(box, 1.0, maxW, maxH) == box
  {
    TruncOfInt(box.x1 - Centre(box.x1, box.x2));
    TruncOfInt(box.x2 - Centre(box.x1, box.x2));
    TruncOfInt(box.y1 - Centre(box.y1, box.y2));
    TruncOfInt(box.y2 - Centre(box.y1, box.y2));
  }

  lemma {:induction false} ScaledSpanShrinks(lo: int, hi: int, scale: real, limit: int)
    requires 0 <= lo <= hi <= limit && 0.0 <= scale <= 1.0
    ensures var r := ScaledSpan(lo, hi, scale, limit);
            lo <= r.0 <= r.1 <= hi
  {
    var c := Centre(lo, hi);
    var low := ScaledOffset(lo - c, scale);
    var high := ScaledOffset(hi - c, scale);
    assert ScaledSpan(lo, hi, scale, limit) == (Max(0, c + low), Min(limit, c + high));
    CentreBetween(lo, hi);
    ScaledOffsetBetween(lo - c, scale);
    ScaledOffsetBetween(hi - c, scale);
  }

  /** A scale of at most 1 shrinks the box about its centre: the result lies
      inside the original box. This is how `ICON_BOX_SCALING_FACTOR` keeps the
      icon off the edges of its region at the default icon scale. */
  lemma ScaledBoxShrinks(box: Box, scale: real, maxW: int, maxH: int)
    requires WithinRegion(box, maxW, maxH) && 0.0 <= scale <= 1.0
    ensures Inside(ScaledBox(box, scale, maxW, maxH), box)
  {
    ScaledSpanShrinks(box.x1, box.x2, scale, maxW);
    ScaledSpanShrinks(box.y1, box.y2, scale, maxH);
  }

  /** Clipping is one-sided: the top corner is clipped only from below and the
      bottom corner only from above. A box outside the region keeps a top
      corner beyond the limits, and a negative scale turns a box inside out. */
  lemma ScaledBoxOneSidedClipping()
    ensures ScaledBox(Box(20, 20, 30, 30), 1.0, 10, 10) == Box(20, 20, 10, 10)
    ensures ScaledBox(Box(0, 0, 10, 10), -1.0, 10, 10) == Box(10, 10, 0, 0)
  {
    TruncOfInt(-5);
    TruncOfInt(5);
    assert Centre(20, 30) == 25 && Centre(0, 10) == 5;
  }

  //////////////////////////////////////////////////////////////////////
  // _resize_image_in_box
  //////////////////////////////////////////////////////////////////////

  /** Size of the resized image and the box to paste it into. */
  datatype Placement = Placement(width: int, height: int, box: Box)

  /** `min(box_width / image_width, box_height / image_height)`; a zero image
      dimension divides by zero in the source. */
  function DownscaleRatio(imageW: int, imageH: int, box: Box): (r: real)
    requires imageW > 0 && imageH > 0
    ensures r <= box.Width() as real / imageW as real && r <= box.Height() as real / imageH as real
    ensures r == box.Width() as real / imageW as real || r == box.Height() as real / imageH as real
  {
    MinReal(box.Width() as real / imageW as real, box.Height() as real / imageH as real)
  }

  /** `int(length * ratio)`. */
  function ScaledLength(n: int, ratio: real): int
  {
    Trunc(n as real * ratio)
  }

  /** `lo + int((hi - lo - size) / 2)`: where a length `size` starts when
      centred in [lo, hi]. */
  function CentredStart(lo: int, hi: int, size: int): int
  {
    lo + Trunc((hi - lo - size) as real / 2.0)
  }

  /** `_resize_image_in_box(image, box)` on sizes: the image scaled by the ratio
      and truncated, placed so the leftover of each axis is split with the
      truncated half before the image. The placement box always has exactly the
      scaled image's size. */
  function ResizeImageInBox(imageW: int, imageH: int, box: Box): (p: Placement)
    requires imageW > 0 && imageH > 0
    ensures p.box.Width() == p.width && p.box.Height() == p.height
  {
    var ratio := DownscaleRatio(imageW, imageH, box);
    var w := ScaledLength(imageW, ratio);
    var h := ScaledLength(imageH, ratio);
    var startX := CentredStart(box.x1, box.x2, w);
    var startY := CentredStart(box.y1, box.y2, h);
    Placement(w, h, Box(startX, startY, startX + w, startY + h))
  }

  lemma MulLeRatio(n: real, ratio: real, limit: real)
    requires n > 0.0 && 0.0 <= ratio <= limit / n
    ensures 0.0 <= n * ratio <= limit
  {
    assert n * (limit / n) == limit;
  }

  /** One axis of the fit: the scaled length is between 0 and the span, and it
      fills the span exactly when this axis sets the ratio. */
  lemma {:induction false} FitAxis(n: int, span: int, ratio: real)
    requires n > 0 && span >= 0 && 0.0 <= ratio <= span as real / n as real
    ensures 0 <= ScaledLength(n, ratio) <= span
    ensures ratio == span as real / n as real ==> ScaledLength(n, ratio) == span
  {
    MulLeRatio(n as real, ratio, span as real);
    if ratio == span as real / n as real {
      assert n as real * ratio == span as real;
      TruncOfInt(span);
    }
  }

  /** The leftover of an axis, split with the truncated half first. */
  lemma {:induction false} CentredAxis(lo: int, hi: int, size: int)
    requires 0 <= size <= hi - lo
    ensures var start := CentredStart(lo, hi, size);
            lo <= start && start + size <= hi &&
            start - lo == (hi - lo - size) / 2 &&
            0 <= (hi - (start + size)) - (start - lo) <= 1
  {
    TruncQuotient(hi - lo - size, 2);
  }

  /** `_resize_image_in_box` for a non-empty image and an ordered box: the
      scaled image fits the box, the placement lies inside the box, centred with
      the leftover split by truncating division, and the axis that sets the
      ratio is filled exactly (in exact arithmetic). */
  lemma ResizeImageInBoxFits(imageW: int, imageH: int, box: Box)
    requires imageW > 0 && imageH > 0 && Ordered(box)
    ensures var p := ResizeImageInBox(imageW, imageH, box);
            0 <= p.width <= box.Width() && 0 <= p.height <= box.Height() &&
            Inside(p.box, box) &&
            p.box.x1 - box.x1 == (box.Width() - p.width) / 2 &&
            p.box.y1 - box.y1 == (box.Height() - p.height) / 2 &&
            (p.width == box.Width() || p.height == box.Height())
  {
    var ratio := DownscaleRatio(imageW, imageH, box);
    assert 0.0 <= box.Width() as real / imageW as real;
    assert 0.0 <= box.Height() as real / imageH as real;
    FitAxis(imageW, box.Width(), ratio);
    FitAxis(imageH, box.Height(), ratio);
    var w := ScaledLength(imageW, ratio);
    var h := ScaledLength(imageH, ratio);
    CentredAxis(box.x1, box.x2, w);
    CentredAxis(box.y1, box.y2, h);
  }
}
