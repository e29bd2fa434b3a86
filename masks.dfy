/** The two ways the icon compositor obtains its icon mask (white subject on
    black): `_generate_mask_from_image` and `_generate_mask_from_text`
    (`_generateMaskFromImage`, `_generateMaskFromText` in the camelCase twin).

    What PIL computes on its own (the text's bounding box, drawing the text,
    resampling, the sigmoid curve and its rounding, `colorsys.hsv_to_rgb`)
    comes in as the functions of a `PilOps` record. */
module Masks {
  import opened Numerics
  import opened Utilities
  import opened Wrappers
  import opened Constants
  import opened BoxGeometry
  import opened Bitmaps

  /** Library operations the compositor calls and this model does not define. */
  datatype PilOps = PilOps(
    /** `ImageDraw.textbbox((0, 0), text, font, anchor "mm", spacing)`. */
    textBBox: (string, SFFont, int, int) -> Box,
    /** `ImageDraw.text(origin, text, font, anchor "mm", spacing, fill white)` on
        a black buffer of the given width and height. */
    drawText: (string, SFFont, int, int, int, int, int, int) -> seq<seq<int>>,
    /** `Image.resize` of a grey image to the given width and height. */
    resize: (seq<seq<int>>, int, int) -> seq<seq<int>>,
    /** The sigmoid of `_normalized_image` as PIL's `point` rounds it. */
    curve: int -> int,
    /** `colorsys.hsv_to_rgb`. */
    hsvToRgb: Hsv -> RealRgb)
  {
    /** Drawing and resizing give grey images of the requested size; the curve
        maps 8-bit values to 8-bit values. */
    ghost predicate Valid()
    {
      (forall t, f, fs, sp, w, h, ox, oy :: 0 <= w && 0 <= h ==> IsGrid(drawText(t, f, fs, sp, w, h, ox, oy), h, w)) &&
      (forall g, w, h :: 0 <= w && 0 <= h ==> IsGrid(resize(g, w, h), h, w)) &&
      (forall v :: IsByte(v) ==> IsByte(curve(v)))
    }
  }

  /** Why the compositor raises instead of returning a picture. */
  datatype IconError =
    | NegativeSize     // `Image.new` or `resize` refuses a negative size
    | MissingImage     // the image method with no image
    | MissingText      // the text method with no text
    | EmptyImage       // `getextrema()` of an image without pixels is `None`
    | EmptyMask        // a mask without pixels divides by zero in the fit ratio
    | EmptyResize      // `resize` refuses a fitted size below one pixel

  //////////////////////////////////////////////////////////////////////
  // _generate_mask_from_image
  //////////////////////////////////////////////////////////////////////

  /** The picture handed to `_generate_mask_from_image`, after PIL converts
      it to grey for the paste: its luminance, and its alpha band when the
      picture is RGBA (PIL then uses it as the paste mask). */
  datatype SourceImage = SourceImage(grey: GreyImage, alpha: Option<GreyImage>)
  {
    ghost function Repr(): set<object>
    {
      {grey, grey.pixels} + (if alpha.Some? then {alpha.value, alpha.value.pixels} else {})
    }

    ghost predicate Valid()
      reads Repr()
    {
      grey.Valid() &&
      (alpha.Some? ==> alpha.value.Valid() && alpha.value.width == grey.width && alpha.value.height == grey.height)
    }

    /** The value at (x, y) after pasting the picture on white. */
    ghost function PastedValue(y: int, x: int): int
      reads Repr()
      requires Valid() && 0 <= y < grey.height && 0 <= x < grey.width
    {
      if alpha.None? then grey.pixels[y, x] else Blend(255, grey.pixels[y, x], alpha.value.pixels[y, x])
    }
  }

  /** `_generate_mask_from_image(image)`: the picture pasted on white,
      normalised, then inverted, so that dark strokes become the white
      subject. `lo` and `hi` are the extrema of the pasted picture. A picture
      without pixels has no extrema (`None`). A flat pasted picture is not
      rescaled, so a picture that pastes to pure white everywhere (all white,
      or fully transparent) gives an empty mask; a pale one whose lookup table
      overflows is inverted without being normalised. */
  method MaskFromImage(image: SourceImage, curve: int -> int)
    returns (r: Option<GreyImage>, ghost pasted: GreyImage, ghost lo: int, ghost hi: int)
    requires image.Valid()
    requires forall v :: IsByte(v) ==> IsByte(curve(v))
    ensures r.None? <==> image.grey.width == 0 || image.grey.height == 0
    ensures pasted.Valid() && pasted.width == image.grey.width && pasted.height == image.grey.height
    ensures forall y, x :: 0 <= y < pasted.height && 0 <= x < pasted.width ==>
              pasted.pixels[y, x] == image.PastedValue(y, x)
    ensures r.Some? ==> pasted.IsExtrema(lo, hi) && 0 <= lo <= hi <= 255
    ensures r.Some? ==> fresh(r.value) && r.value.Valid() &&
                        r.value.width == pasted.width && r.value.height == pasted.height
    ensures r.Some? && lo == hi ==> forall y, x :: 0 <= y < pasted.height && 0 <= x < pasted.width ==>
                                      r.value.pixels[y, x] == Invert(lo)
    ensures r.Some? && lo < hi && TableOverflows(lo, hi) ==>
              forall y, x :: 0 <= y < pasted.height && 0 <= x < pasted.width ==>
                r.value.pixels[y, x] == Invert(pasted.pixels[y, x])
    ensures r.Some? && lo < hi && !TableOverflows(lo, hi) ==>
              forall y, x :: 0 <= y < pasted.height && 0 <= x < pasted.width ==>
                r.value.pixels[y, x] == Invert(curve(Rescale(pasted.pixels[y, x], lo, hi)))
    ensures r.Some? ==> IsPictureMask(r.value, image, curve)
  {
    var white := PasteOnWhite(image);
    pasted := white;
    var normalized, low, high := NormalizedImage(white, curve);
    lo, hi := low, high;
    if normalized.None? {
      return Option.None, pasted, lo, hi;
    }
    var inverted := normalized.value.Mapped(Invert);
    r := Some(inverted);
    assert forall y, x :: 0 <= y < pasted.height && 0 <= x < pasted.width ==>
             inverted.pixels[y, x] == MaskLevel(pasted.pixels[y, x], lo, hi, curve);
    assert image.Valid() && pasted.Valid() && inverted.Valid();
    assert pasted.width == image.grey.width && pasted.height == image.grey.height;
    assert inverted.width == pasted.width && inverted.height == pasted.height;
    assert forall y, x :: 0 <= y < pasted.height && 0 <= x < pasted.width ==>
               pasted.pixels[y, x] == image.PastedValue(y, x);
    assert pasted.IsExtrema(lo, hi) && 0 <= lo <= hi <= 255;
    PictureMaskOfPasted(image, pasted, inverted, lo, hi, curve);
  }

  /** The mask level of a pasted level `v` of a picture whose pasted levels
      range over [lo, hi]: `v` inverted as it is when the normalisation hands
      the picture back (flat, or an overflowing lookup table), otherwise the
      curve of its rescaled value inverted. */
  function MaskLevel(v: int, lo: int, hi: int, curve: int -> int): int
    requires lo <= hi
  {
    if lo == hi || TableOverflows(lo, hi) then Invert(v) else Invert(curve(Rescale(v, lo, hi)))
  }

  /** `lo` and `hi` are the least and the greatest level of the picture
      pasted on white. */
  ghost predicate PastedExtrema(image: SourceImage, lo: int, hi: int)
    reads image.Repr()
    requires image.Valid()
  {
    (forall y, x :: 0 <= y < image.grey.height && 0 <= x < image.grey.width ==>
       lo <= image.PastedValue(y, x) <= hi) &&
    (exists y, x :: 0 <= y < image.grey.height && 0 <= x < image.grey.width && image.PastedValue(y, x) == lo) &&
    (exists y, x :: 0 <= y < image.grey.height && 0 <= x < image.grey.width && image.PastedValue(y, x) == hi)
  }

  /** The extrema of the picture pasted on white are those of its pasted levels. */
  lemma PastedExtremaOf(image: SourceImage, pasted: GreyImage, lo: int, hi: int)
    requires image.Valid() && pasted.Valid()
    requires pasted.width == image.grey.width && pasted.height == image.grey.height
    requires forall y, x :: 0 <= y < pasted.height && 0 <= x < pasted.width ==>
               pasted.pixels[y, x] == image.PastedValue(y, x)
    requires pasted.IsExtrema(lo, hi)
    ensures PastedExtrema(image, lo, hi)
  {
    var y0, x0 :| 0 <= y0 < pasted.height && 0 <= x0 < pasted.width && 0 <= y0 < pasted.pixels.Length0 &&
                  0 <= x0 < pasted.pixels.Length1 && pasted.pixels[y0, x0] == lo;
    var y1, x1 :| 0 <= y1 < pasted.height && 0 <= x1 < pasted.width && 0 <= y1 < pasted.pixels.Length0 &&
                  0 <= x1 < pasted.pixels.Length1 && pasted.pixels[y1, x1] == hi;
    assert image.PastedValue(y0, x0) == lo && image.PastedValue(y1, x1) == hi;
  }

  /** A mask whose every pixel is the mask level of the picture pasted on
      white, between that paste's extrema, is the picture's mask. */
  lemma PictureMaskOfPasted(image: SourceImage, pasted: GreyImage, mask: GreyImage, lo: int, hi: int,
                            curve: int -> int)
    requires image.Valid() && pasted.Valid() && mask.Valid()
    requires pasted.width == image.grey.width && pasted.height == image.grey.height
    requires mask.width == pasted.width && mask.height == pasted.height
    requires forall y, x :: 0 <= y < pasted.height && 0 <= x < pasted.width ==>
               pasted.pixels[y, x] == image.PastedValue(y, x)
    requires pasted.IsExtrema(lo, hi) && 0 <= lo <= hi <= 255
    requires forall y, x :: 0 <= y < pasted.height && 0 <= x < pasted.width ==>
               mask.pixels[y, x] == MaskLevel(pasted.pixels[y, x], lo, hi, curve)
    ensures IsPictureMask(mask, image, curve)
  {
    PastedExtremaOf(image, pasted, lo, hi);
  }

  /** `mask` is the mask `_generate_mask_from_image` makes of `image`: of the
      picture's size, with every pixel the mask level of the pasted picture. */
  ghost predicate IsPictureMask(mask: GreyImage, image: SourceImage, curve: int -> int)
    reads mask, mask.pixels, image.Repr()
    requires image.Valid()
  {
    mask.Valid() && mask.width == image.grey.width && mask.height == image.grey.height &&
    exists lo, hi :: 0 <= lo <= hi <= 255 && PastedExtrema(image, lo, hi) &&
      forall y, x :: 0 <= y < mask.height && 0 <= x < mask.width ==>
        mask.pixels[y, x] == MaskLevel(image.PastedValue(y, x), lo, hi, curve)
  }

  /** `white_background = Image.new("L", image.size, "white")` followed by
      `white_background.paste(image, mask)`. */
  method PasteOnWhite(image: SourceImage) returns (white: GreyImage)
    requires image.Valid()
    ensures fresh(white) && fresh(white.pixels) && white.Valid()
    ensures white.width == image.grey.width && white.height == image.grey.height
    ensures forall y, x :: 0 <= y < white.height && 0 <= x < white.width ==>
              white.pixels[y, x] == image.PastedValue(y, x)
  {
    white := new GreyImage.Filled(image.grey.width, image.grey.height, 255);
    white.Paste(image.grey, image.alpha, 0, 0);
  }

  /** A picture that pastes to one grey level everywhere is not rescaled, so
      its mask is that level inverted: a picture that is all white, or fully
      transparent, gives an empty (black) mask, and an opaque black one a full
      (white) mask. */
  lemma FlatPictureMask(pasted: GreyImage, lo: int, hi: int, level: int)
    requires pasted.Valid() && pasted.IsExtrema(lo, hi)
    requires forall y, x :: 0 <= y < pasted.height && 0 <= x < pasted.width ==> pasted.pixels[y, x] == level
    ensures lo == hi == level
    ensures level == 255 ==> Invert(lo) == 0
    ensures level == 0 ==> Invert(lo) == 255
  {
  }

  /** Fully transparent pixels paste as white, whatever their colour. */
  lemma TransparentPastesWhite(image: SourceImage, y: int, x: int)
    requires image.Valid() && image.alpha.Some?
    requires 0 <= y < image.grey.height && 0 <= x < image.grey.width
    requires image.alpha.value.pixels[y, x] == 0
    ensures image.PastedValue(y, x) == 255
  {
    BlendEndpoints(255, image.grey.pixels[y, x]);
  }

  //////////////////////////////////////////////////////////////////////
  // _generate_mask_from_text
  //////////////////////////////////////////////////////////////////////

  /** `text[0:25]`: the first 25 characters, or all of a shorter text. */
  function TextCut(text: string): (t: string)
    ensures |t| == Min(|text|, 25) && t == text[..|t|]
  {
    if |text| <= 25 then text else text[..25]
  }

  /** The cut leaves short texts alone and cutting twice is cutting once. */
  lemma TextCutIdempotent(text: string)
    ensures |text| <= 25 ==> TextCut(text) == text
    ensures TextCut(TextCut(text)) == TextCut(text)
  {
  }

  /** `int(image_size / 2)`: the font size. */
  function FontSize(imageSize: int): (r: int)
    ensures imageSize >= 0 ==> r == imageSize / 2
  {
    TruncQuotientWhenNonNeg(imageSize, 2);
    Trunc(imageSize as real / 2.0)
  }

  /** `int(image_size / 8)`: the line spacing. */
  function LineSpacing(imageSize: int): (r: int)
    ensures imageSize >= 0 ==> r == imageSize / 8
  {
    TruncQuotientWhenNonNeg(imageSize, 8);
    Trunc(imageSize as real / 8.0)
  }

  /** The buffer the text is drawn into and where the text's anchor goes. */
  datatype TextBuffer = TextBuffer(width: int, height: int, originX: int, originY: int)

  function Abs(n: int): nat { if n < 0 then -n else n }

  /** `(x2 + |x0|, y2 + |y0|)` with the anchor at `(|x0|, |y0|)`: moving the
      bounding box measured around the origin by the anchor puts its right and
      bottom edges exactly on the buffer's edges. */
  function TextBufferFor(bbox: Box): (b: TextBuffer)
    ensures bbox.x2 + b.originX == b.width && bbox.y2 + b.originY == b.height
    ensures b.originX >= 0 && b.originY >= 0
  {
    TextBuffer(bbox.x2 + Abs(bbox.x1), bbox.y2 + Abs(bbox.y1), Abs(bbox.x1), Abs(bbox.y1))
  }

  /** The bounding box moved by the buffer's anchor. */
  function Shifted(bbox: Box, b: TextBuffer): Box
  {
    Box(bbox.x1 + b.originX, bbox.y1 + b.originY, bbox.x2 + b.originX, bbox.y2 + b.originY)
  }

  /** The drawn text lies inside its buffer: for an ordered bounding box the
      moved box is inside (0, 0)-(width, height), touching the right and bottom
      edges, and the left (top) edge exactly when the box starts left of (above)
      the anchor. So the buffer is never too small for the text. */
  lemma TextFitsBuffer(bbox: Box)
    requires Ordered(bbox)
    ensures var b := TextBufferFor(bbox);
            WithinRegion(Shifted(bbox, b), b.width, b.height) &&
            Shifted(bbox, b).x2 == b.width && Shifted(bbox, b).y2 == b.height &&
            (Shifted(bbox, b).x1 == 0 <==> bbox.x1 <= 0) &&
            (Shifted(bbox, b).y1 == 0 <==> bbox.y1 <= 0)
  {
  }

  /** The buffer `_generate_mask_from_text` draws `text` into at the image
      size `imageSize`. */
  function TextBufferOf(text: string, imageSize: int, font: SFFont, ops: PilOps): TextBuffer
  {
    TextBufferFor(ops.textBBox(TextCut(text), font, FontSize(imageSize), LineSpacing(imageSize)))
  }

  /** `mask` is the mask `_generate_mask_from_text` makes of `text`: the size
      of the text's buffer, holding the cut text as drawn at half the image
      size with an eighth of it as line spacing. */
  ghost predicate IsTextMask(mask: GreyImage, text: string, imageSize: int, font: SFFont, ops: PilOps)
    reads mask, mask.pixels
    requires ops.Valid()
  {
    var b := TextBufferOf(text, imageSize, font, ops);
    mask.Valid() && mask.width == b.width && mask.height == b.height &&
    forall y, x :: 0 <= y < b.height && 0 <= x < b.width ==>
      mask.pixels[y, x] ==
      ops.drawText(TextCut(text), font, FontSize(imageSize), LineSpacing(imageSize),
                   b.width, b.height, b.originX, b.originY)[y][x]
  }

  /** `_generate_mask_from_text(text, image_size, font_style)`: only the first
      25 characters are measured and drawn, at half the image size with an
      eighth of it as line spacing, into a buffer sized by the text's bounding
      box. No text fails at the cut; a bounding box whose far edge lies before
      the anchor gives a negative buffer size, which `Image.new` refuses. */
  method MaskFromText(text: Option<string>, imageSize: int, font: SFFont, ops: PilOps)
    returns (r: Result<GreyImage, IconError>)
    requires ops.Valid()
    ensures text.None? ==> r == Err(MissingText)
    ensures text.Some? ==>
              var b := TextBufferOf(text.value, imageSize, font, ops);
              (r.Err? <==> b.width < 0 || b.height < 0) &&
              (r.Err? ==> r.error == NegativeSize) &&
              (r.Ok? ==> fresh(r.value) && IsTextMask(r.value, text.value, imageSize, font, ops))
  {
    if text.None? {
      return Err(MissingText);
    }
    var t := TextCut(text.value);
    var fontSize, spacing := FontSize(imageSize), LineSpacing(imageSize);
    var b := TextBufferOf(text.value, imageSize, font, ops);
    if b.width < 0 || b.height < 0 {
      return Err(NegativeSize);
    }
    var drawn := ops.drawText(t, font, fontSize, spacing, b.width, b.height, b.originX, b.originY);
    var mask := new GreyImage.FromGrid(drawn, b.width);
    r := Ok(mask);
  }
}
