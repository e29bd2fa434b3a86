/** The pixel buffers the icon compositor works on and the per-pixel maps it
    applies to them: the alpha boost of `_increased_shadow`, the min/max rescale
    of `_normalized_image`, `ImageChops.invert`, and PIL's masked paste.

    The blend, invert and extrema arithmetic are PIL's own (its `paste` with a
    mask rounds `dst * (255 - m) + src * m` to the nearest multiple of 255 with
    the two-shift `DIV255` trick); the repository only calls them, and they are
    stated here so that what the repository builds from them can be proved. */
module Bitmaps {
  import opened Numerics
  import opened Utilities
  import opened Wrappers

  //////////////////////////////////////////////////////////////////////
  // Pixel arithmetic
  //////////////////////////////////////////////////////////////////////

  /** `ImageChops.invert` on one 8-bit value. */
  function Invert(v: int): (r: int)
    ensures IsByte(v) ==> IsByte(r)
  {
    255 - v
  }

  lemma InvertInvolution(v: int)
    ensures Invert(Invert(v)) == v
    ensures Invert(v) == 0 <==> v == 255
  {
  }

  /** PIL's `DIV255(v)`: `((v + 128) >> 8) + v + 128) >> 8`, the nearest
      integer to v / 255 for the products a blend produces. */
  function Div255(v: int): int
    requires v >= 0
  {
    ((v + 128) / 256 + v + 128) / 256
  }

  /** `DIV255` is exact on multiples of 255. */
  lemma {:induction false} Div255OfMultiple(k: int)
    requires 0 <= k <= 255
    ensures Div255(255 * k) == k
  {
    var t := 255 * k + 128;
    if k <= 128 {
      assert t == 256 * k + (128 - k);
      assert t / 256 == k;
      assert t / 256 + t == 256 * k + 128;
    } else {
      assert t == 256 * (k - 1) + (384 - k);
      assert t / 256 == k - 1;
      assert t / 256 + t == 256 * k + 127;
    }
  }

  lemma {:induction false} Div255Monotone(a: int, b: int)
    requires 0 <= a <= b
    ensures Div255(a) <= Div255(b)
  {
    DivMonotone(a + 128, b + 128, 256);
    DivMonotone((a + 128) / 256 + a + 128, (b + 128) / 256 + b + 128, 256);
  }

  lemma MulMonotone(a: int, b: int, m: int)
    requires a <= b && m >= 0
    ensures a * m <= b * m
  {
  }

  /** One pixel of PIL's `paste(src, box, mask)` on 8-bit bands: the mask value
      `m` weighs the pasted value against the value already there. The result
      always lies between the two. */
  function Blend(dst: int, src: int, m: int): (r: int)
    requires IsByte(dst) && IsByte(src) && IsByte(m)
    ensures Min(dst, src) <= r <= Max(dst, src)
  {
    var lo, hi := Min(dst, src), Max(dst, src);
    var v := dst * (255 - m) + src * m;
    MulMonotone(lo, dst, 255 - m);
    MulMonotone(lo, src, m);
    MulMonotone(dst, hi, 255 - m);
    MulMonotone(src, hi, m);
    assert 255 * lo <= v <= 255 * hi;
    Div255Monotone(255 * lo, v);
    Div255Monotone(v, 255 * hi);
    Div255OfMultiple(lo);
    Div255OfMultiple(hi);
    Div255(v)
  }

  /** A zero mask keeps the old pixel, a full mask takes the pasted one. */
  lemma BlendEndpoints(dst: int, src: int)
    requires IsByte(dst) && IsByte(src)
    ensures Blend(dst, src, 0) == dst
    ensures Blend(dst, src, 255) == src
  {
    Div255OfMultiple(dst);
    Div255OfMultiple(src);
  }

  /** Pasting a mask onto black with itself as the paste mask, as
      `generate_folder_icon` does with the resized icon mask, darkens every grey
      level (roughly s * s / 255) and keeps pure black and pure white. */
  lemma {:induction false} SelfMaskedOnBlack(s: int)
    requires IsByte(s)
    ensures Blend(0, s, s) <= s
    ensures s == 0 ==> Blend(0, s, s) == 0
    ensures s == 255 ==> Blend(0, s, s) == 255
  {
    assert 0 * (255 - s) + s * s <= 255 * s by {
      MulMonotone(s, 255, s);
    }
    Div255Monotone(s * s, 255 * s);
    Div255OfMultiple(s);
    BlendEndpoints(0, s);
  }

  /** `int((value - min) * 255 / (max - min))`: the linear part of the
      `_normalized_image` curve, mapping [lo, hi] onto [0, 255]. */
  function Rescale(v: int, lo: int, hi: int): (r: int)
    requires lo < hi
    ensures lo <= v <= hi ==> IsByte(r) && r == ((v - lo) * 255) / (hi - lo)
  {
    TruncQuotientWhenNonNeg((v - lo) * 255, hi - lo);
    Trunc(((v - lo) * 255) as real / (hi - lo) as real)
  }

  /** The rescale stretches the image's range onto the full 8-bit range,
      keeping the order of grey levels. */
  lemma {:induction false} RescaleStretches(v: int, w: int, lo: int, hi: int)
    requires lo < hi && lo <= v <= w <= hi
    ensures Rescale(lo, lo, hi) == 0
    ensures Rescale(hi, lo, hi) == 255
    ensures Rescale(v, lo, hi) <= Rescale(w, lo, hi)
  {
    MulDivCancel(255, hi - lo);
    DivMonotone((v - lo) * 255, (w - lo) * 255, hi - lo);
  }

  /** The default `steepness` of `_normalized_image`. */
  const Steepness: real := 0.18

  /** The largest argument `math.exp` accepts: above it the result does not
      fit a double and `math.exp` raises `OverflowError`. */
  const MaxExpArgument: real := 709.782712893384

  /** `math.exp(-steepness * (n - 127))` overflows for the rescaled value `n`,
      so `sigmoid_normalize` raises instead of returning a value. */
  predicate SigmoidOverflows(n: int)
  {
    -Steepness * (n - 127) as real > MaxExpArgument
  }

  /** The sigmoid overflows exactly for rescaled values of -3817 and below,
      far under the range [0, 255] that the image's own pixels rescale to. */
  lemma SigmoidOverflowsExactly(n: int)
    ensures SigmoidOverflows(n) <==> n <= -3817
  {
  }

  /** `Image.eval(image, sigmoid_normalize)` builds PIL's lookup table by
      calling the function on every possible value 0..255, not only on the
      values the image holds, so the evaluation raises as soon as one entry of
      the table overflows. */
  predicate TableOverflows(lo: int, hi: int)
    requires lo < hi
  {
    exists v :: 0 <= v < 256 && SigmoidOverflows(Rescale(v, lo, hi))
  }

  /** The table overflows exactly when `255 * lo >= 3817 * (hi - lo)`: the
      darkest level lies so far above 0, compared with the image's range, that
      value 0 rescales to -3817 or below. */
  lemma {:induction false} TableOverflowsExactly(lo: int, hi: int)
    requires lo < hi
    ensures TableOverflows(lo, hi) <==> 255 * lo >= 3817 * (hi - lo)
  {
    if 255 * lo >= 3817 * (hi - lo) {
      QuotientAtMost((0 - lo) * 255, hi - lo, -3817);
      SigmoidOverflowsExactly(Rescale(0, lo, hi));
    }
    if TableOverflows(lo, hi) {
      var v :| 0 <= v < 256 && SigmoidOverflows(Rescale(v, lo, hi));
      SigmoidOverflowsExactly(Rescale(v, lo, hi));
      QuotientAtMost((v - lo) * 255, hi - lo, -3817);
    }
  }

  /** A pale picture with levels 240..255 is left as it is, while any picture
      that reaches black is normalised. */
  lemma PalePictureNotNormalised(hi: int)
    requires 0 < hi
    ensures TableOverflows(240, 255)
    ensures !TableOverflows(0, hi)
  {
    TableOverflowsExactly(240, 255);
    TableOverflowsExactly(0, hi);
  }

  /** One alpha value of `_increased_shadow`: `min(int(x * factor), 255)`. */
  function BoostAlpha(a: int, factor: real): (r: int)
    ensures IsByte(a) && factor >= 0.0 ==> IsByte(r)
  {
    ProductNonNeg(a as real, factor);
    Min(Trunc(a as real * factor), 255)
  }

  /** With a factor of at least 1 no alpha decreases, transparent pixels stay
      transparent, and the boost keeps the order of alpha values. */
  lemma {:induction false} BoostAlphaNeverLowers(a: int, b: int, factor: real)
    requires IsByte(a) && IsByte(b) && a <= b && factor >= 1.0
    ensures a <= BoostAlpha(a, factor)
    ensures BoostAlpha(0, factor) == 0
    ensures BoostAlpha(a, factor) <= BoostAlpha(b, factor)
  {
    TruncScaledOrdered(a, b, factor);
    BoostAlphaOfZero(factor);
  }

  lemma BoostAlphaOfZero(factor: real)
    ensures BoostAlpha(0, factor) == 0
  {
    assert 0 as real * factor == 0.0;
    TruncOfInt(0);
  }

  //////////////////////////////////////////////////////////////////////
  // Images
  //////////////////////////////////////////////////////////////////////

  /** A rectangle of 8-bit values, `height` rows of `width` each. */
  ghost predicate IsGrid(g: seq<seq<int>>, height: int, width: int)
  {
    |g| == height &&
    forall y :: 0 <= y < |g| ==> |g[y]| == width && forall x :: 0 <= x < width ==> IsByte(g[y][x])
  }

  /** An 8-bit single-band ("L") PIL image: a fixed-size pixel buffer,
      addressed as `pixels[y, x]`. */
  class GreyImage {
    const width: nat
    const height: nat
    const pixels: array2<int>

    ghost predicate Valid()
      reads this, pixels
    {
      pixels.Length0 == height && pixels.Length1 == width &&
      forall y, x :: 0 <= y < height && 0 <= x < width ==> IsByte(pixels[y, x])
    }

    /** `Image.new("L", (w, h), value)`. */
    constructor Filled(w: nat, h: nat, value: int)
      requires IsByte(value)
      ensures Valid() && width == w && height == h && fresh(pixels)
      ensures forall y, x :: 0 <= y < h && 0 <= x < w ==> pixels[y, x] == value
    {
      width, height := w, h;
      pixels := new int[h, w]((y, x) => value);
    }

    /** An image over the given buffer. */
    constructor Wrap(a: array2<int>)
      requires forall y, x :: 0 <= y < a.Length0 && 0 <= x < a.Length1 ==> IsByte(a[y, x])
      ensures Valid() && width == a.Length1 && height == a.Length0 && pixels == a
    {
      width, height := a.Length1, a.Length0;
      pixels := a;
    }

    /** An image holding the rows of `g`. */
    constructor FromGrid(g: seq<seq<int>>, w: nat)
      requires IsGrid(g, |g|, w)
      ensures Valid() && width == w && height == |g| && fresh(pixels)
      ensures forall y, x :: 0 <= y < height && 0 <= x < width ==> pixels[y, x] == g[y][x]
    {
      width, height := w, |g|;
      pixels := new int[|g|, w]((y, x) requires 0 <= y < |g| && 0 <= x < w => g[y][x]);
    }

    /** The pixel values, row by row. */
    function Rows(): (g: seq<seq<int>>)
      reads this, pixels
      requires Valid()
      ensures IsGrid(g, height, width)
      ensures forall y, x :: 0 <= y < height && 0 <= x < width ==> g[y][x] == pixels[y, x]
    {
      seq(height, y requires 0 <= y < height reads pixels =>
        seq(width, x requires 0 <= x < width reads pixels => pixels[y, x]))
    }

    /** `lo` and `hi` are the least and the greatest pixel value. */
    ghost predicate IsExtrema(lo: int, hi: int)
      reads this, pixels
    {
      (forall y, x :: 0 <= y < height && 0 <= x < width && 0 <= y < pixels.Length0 && 0 <= x < pixels.Length1 ==>
         lo <= pixels[y, x] <= hi) &&
      (exists y, x :: 0 <= y < height && 0 <= x < width && 0 <= y < pixels.Length0 && 0 <= x < pixels.Length1 &&
         pixels[y, x] == lo) &&
      (exists y, x :: 0 <= y < height && 0 <= x < width && 0 <= y < pixels.Length0 && 0 <= x < pixels.Length1 &&
         pixels[y, x] == hi)
    }

    /** `getextrema()`: the least and greatest pixel value, `None` for an image
        without pixels. */
    method Extrema() returns (r: Option<(int, int)>)
      requires Valid()
      ensures r.None? <==> width == 0 || height == 0
      ensures r.Some? ==> IsByte(r.value.0) && IsByte(r.value.1)
      ensures r.Some? ==> IsExtrema(r.value.0, r.value.1)
    {
      if width == 0 || height == 0 {
        return Option.None;
      }
      var lo, hi := pixels[0, 0], pixels[0, 0];
      ghost var loY, loX, hiY, hiX := 0, 0, 0, 0;
      var y := 0;
      while y < height
        invariant 0 <= y <= height
        invariant 0 <= loY < height && 0 <= loX < width && pixels[loY, loX] == lo
        invariant 0 <= hiY < height && 0 <= hiX < width && pixels[hiY, hiX] == hi
        invariant forall yy, xx :: 0 <= yy < y && 0 <= xx < width ==> lo <= pixels[yy, xx] <= hi
      {
        var x := 0;
        while x < width
          invariant 0 <= x <= width
          invariant 0 <= loY < height && 0 <= loX < width && pixels[loY, loX] == lo
          invariant 0 <= hiY < height && 0 <= hiX < width && pixels[hiY, hiX] == hi
          invariant forall yy, xx :: 0 <= yy < y && 0 <= xx < width ==> lo <= pixels[yy, xx] <= hi
          invariant forall xx :: 0 <= xx < x ==> lo <= pixels[y, xx] <= hi
        {
          var v := pixels[y, x];
          if v < lo {
            lo, loY, loX := v, y, x;
          }
          if v > hi {
            hi, hiY, hiX := v, y, x;
          }
          x := x + 1;
        }
        y := y + 1;
      }
      return Some((lo, hi));
    }

    /** `Image.eval(image, f)` / `point(f)`: a new image of the same size with
        `f` applied to every pixel. */
    method Mapped(f: int -> int) returns (r: GreyImage)
      requires Valid()
      requires forall v :: IsByte(v) ==> IsByte(f(v))
      ensures fresh(r) && fresh(r.pixels) && r.Valid()
      ensures r.width == width && r.height == height
      ensures forall y, x :: 0 <= y < height && 0 <= x < width ==> r.pixels[y, x] == f(pixels[y, x])
    {
      var a := new int[height, width];
      forall y, x | 0 <= y < height && 0 <= x < width {
        a[y, x] := f(pixels[y, x]);
      }
      r := new GreyImage.Wrap(a);
    }

    /** `paste(src, (x0, y0), mask)`: every pixel of this image under the
        pasted rectangle takes the pasted value (no mask) or the blend of the old
        and the pasted value weighted by the mask; the part of the rectangle
        outside this image is clipped away and every other pixel is kept. */
    method Paste(src: GreyImage, mask: Option<GreyImage>, x0: int, y0: int)
      requires Valid() && src.Valid() && src.pixels != pixels
      requires mask.Some? ==> mask.value.Valid() && mask.value.pixels != pixels &&
                              mask.value.width == src.width && mask.value.height == src.height
      modifies pixels
      ensures Valid()
      ensures forall y, x :: 0 <= y < height && 0 <= x < width && !Covers(src, x0, y0, x, y) ==>
                pixels[y, x] == old(pixels[y, x])
      ensures mask.None? ==> forall y, x :: 0 <= y < height && 0 <= x < width && Covers(src, x0, y0, x, y) ==>
                pixels[y, x] == src.pixels[y - y0, x - x0]
      ensures mask.Some? ==> forall y, x :: 0 <= y < height && 0 <= x < width && Covers(src, x0, y0, x, y) ==>
                pixels[y, x] == Blend(old(pixels[y, x]), src.pixels[y - y0, x - x0], mask.value.pixels[y - y0, x - x0])
    {
      if mask.None? {
        forall y, x | 0 <= y < height && 0 <= x < width && Covers(src, x0, y0, x, y) {
          pixels[y, x] := src.pixels[y - y0, x - x0];
        }
      } else {
        var m := mask.value;
        forall y, x | 0 <= y < height && 0 <= x < width && Covers(src, x0, y0, x, y) {
          pixels[y, x] := Blend(pixels[y, x], src.pixels[y - y0, x - x0], m.pixels[y - y0, x - x0]);
        }
      }
    }
  }

  /** The pixel (x, y) lies under `src` pasted with its top-left corner at (x0, y0). */
  predicate Covers(src: GreyImage, x0: int, y0: int, x: int, y: int)
  {
    y0 <= y < y0 + src.height && x0 <= x < x0 + src.width
  }

  /** `_normalized_image(image)` with the sigmoid curve (and PIL's rounding of
      it) as the parameter `curve`. The bare `except` hands back the same image
      whenever the lookup table cannot be built: a flat image divides by zero in
      every entry, and a pale one overflows `math.exp` in its low entries.
      Otherwise a new image with `curve(rescale(v))` at every pixel. An image
      without pixels has no extrema and makes the unpacking fail (`None`). */
  method NormalizedImage(image: GreyImage, curve: int -> int) returns (r: Option<GreyImage>, lo: int, hi: int)
    requires image.Valid()
    requires forall v :: IsByte(v) ==> IsByte(curve(v))
    ensures r.None? <==> image.width == 0 || image.height == 0
    ensures r.Some? ==> r.value.Valid() && r.value.width == image.width && r.value.height == image.height
    ensures r.Some? ==> image.IsExtrema(lo, hi) && 0 <= lo <= hi <= 255
    ensures r.Some? && (lo == hi || TableOverflows(lo, hi)) ==> r.value == image
    ensures r.Some? && lo < hi && !TableOverflows(lo, hi) ==> fresh(r.value) && fresh(r.value.pixels)
    ensures r.Some? && lo < hi && !TableOverflows(lo, hi) ==>
              forall y, x :: 0 <= y < image.height && 0 <= x < image.width ==>
                r.value.pixels[y, x] == curve(Rescale(image.pixels[y, x], lo, hi))
  {
    var extrema := image.Extrema();
    if extrema.None? {
      return Option.None, 0, 0;
    }
    lo, hi := extrema.value.0, extrema.value.1;
    if lo == hi || TableOverflows(lo, hi) {
      return Some(image), lo, hi;
    }
    var low, high := lo, hi;
    assert forall v :: IsByte(v) && low <= v <= high ==> IsByte(Rescale(v, low, high));
    var mapped := image.Mapped(v => if low <= v <= high then curve(Rescale(v, low, high)) else v);
    return Some(mapped), lo, hi;
  }

  /** An RGBA image as its four bands, as `split()` returns them. */
  datatype RgbaImage = RgbaImage(r: GreyImage, g: GreyImage, b: GreyImage, a: GreyImage)
  {
    ghost function Repr(): set<object>
    {
      {r, r.pixels, g, g.pixels, b, b.pixels, a, a.pixels}
    }

    ghost predicate Valid()
      reads Repr()
    {
      r.Valid() && g.Valid() && b.Valid() && a.Valid() &&
      g.width == r.width && b.width == r.width && a.width == r.width &&
      g.height == r.height && b.height == r.height && a.height == r.height
    }
  }

  /** `shadowed` is `image` with its shadow increased by `factor`: the same
      colour bands, and an alpha band of the same size with every alpha value
      boosted. */
  ghost predicate ShadowIncreased(shadowed: RgbaImage, image: RgbaImage, factor: real)
    reads shadowed.Repr(), image.Repr()
  {
    shadowed.Valid() && image.Valid() &&
    shadowed.r == image.r && shadowed.g == image.g && shadowed.b == image.b &&
    shadowed.a.width == image.a.width && shadowed.a.height == image.a.height &&
    forall y, x :: 0 <= y < image.a.height && 0 <= x < image.a.width ==>
      shadowed.a.pixels[y, x] == BoostAlpha(image.a.pixels[y, x], factor)
  }

  /** `_increased_shadow(image, factor)`: the colour bands kept, and a new alpha
      band with every alpha value boosted. */
  method IncreasedShadow(image: RgbaImage, factor: real) returns (r: RgbaImage)
    requires image.Valid() && factor >= 0.0
    ensures fresh(r.a) && fresh(r.a.pixels)
    ensures ShadowIncreased(r, image, factor)
  {
    var alpha := image.a.Mapped(v => BoostAlpha(v, factor));
    r := RgbaImage(image.r, image.g, image.b, alpha);
  }
}
