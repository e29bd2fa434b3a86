/** `generate_folder_icon` (`generate_folder_icon` in
    fancyfolders/image_transformations.py, `generate_folder_icon` with
    camelCase helpers in fancyfolders/imagetransformations.py): the control
    flow of the compositor, the geometry that places the icon, the formatted
    mask it pastes, and the colours and offsets of the inner shadow and outer
    highlight.

    The blurs, `ImageChops.offset`, `multiply`, `add`, `Image.composite` and
    `alpha_composite`, and the tint's lookup-table filter are not modelled: the
    result of a composed icon is the plan those calls are made from. */
module FolderIcon {
  import opened Numerics
  import opened Utilities
  import opened Wrappers
  import opened Constants
  import opened BoxGeometry
  import opened Bitmaps
  import opened Masks
  import opened Tint

  //////////////////////////////////////////////////////////////////////
  // Arithmetic of the compositor
  //////////////////////////////////////////////////////////////////////

  /** `preview_size` when it is given and non-zero (Python truthiness), the
      style's size otherwise. */
  function WorkingSize(style: FolderStyle, previewSize: Option<int>): (size: int)
    ensures previewSize.None? || previewSize.value == 0 ==> size == 1024
    ensures previewSize.Some? && previewSize.value != 0 ==> size == previewSize.value
    ensures size != 0
  {
    FolderStyleTableFacts(style);
    if previewSize.Some? && previewSize.value != 0 then previewSize.value else style.Size()
  }

  /** The icon region hard-coded in `generate_folder_icon` (the Big Sur
      region of `FolderStyle.icon_box_percentages`, used for every style). */
  const IconRegion: FractionBox := FractionBox(0.086, 0.29, 0.914, 0.777)

  /** `tuple(int(size * percent) for percent in bounding_box_percentages)`:
      for a non-negative size the region is an ordered box inside the canvas. */
  function PixelBox(size: int): (b: Box)
    ensures size >= 0 ==> WithinRegion(b, size, size)
  {
    var s := size as real;
    if size >= 0 then
      assert s * 0.086 <= s * 0.914 <= s && s * 0.29 <= s * 0.777 <= s;
      TruncMonotone(s * 0.086, s * 0.914);
      TruncMonotone(s * 0.29, s * 0.777);
      TruncMonotone(s * 0.914, s);
      TruncMonotone(s * 0.777, s);
      TruncOfInt(size);
      Box(Trunc(s * 0.086), Trunc(s * 0.29), Trunc(s * 0.914), Trunc(s * 0.777))
    else
      Box(Trunc(s * 0.086), Trunc(s * 0.29), Trunc(s * 0.914), Trunc(s * 0.777))
  }

  /** `math.floor(size * INNER_SHADOW_Y_OFFSET)`: the inner shadow moves down
      by under one percent of the icon. */
  function ShadowOffset(size: int): (r: int)
    ensures size >= 0 ==> 0 <= r && 100 * r <= size
  {
    (size as real * InnerShadowYOffset).Floor
  }

  /** `math.floor(size * OUTER_HIGHLIGHT_Y_OFFSET)`: the outer highlight moves
      down by under one percent of the icon, and never less than the shadow. */
  function HighlightOffset(size: int): (r: int)
    ensures size >= 0 ==> 0 <= r && 100 * r <= size
    ensures size >= 0 ==> ShadowOffset(size) <= r
  {
    (size as real * OuterHighlightYOffset).Floor
  }

  /** Where the icon goes: the pixel region, that region scaled about its
      centre by `icon_scale * ICON_BOX_SCALING_FACTOR` and clipped to the
      canvas, and the mask's fitted size and placement inside it. */
  datatype Layout = Layout(pixelBox: Box, iconBox: Box, placement: Placement)

  function IconLayout(size: int, iconScale: real, maskW: int, maskH: int): Layout
    requires maskW > 0 && maskH > 0
  {
    var pixelBox := PixelBox(size);
    var iconBox := ScaledBox(pixelBox, iconScale * IconBoxScalingFactor, size, size);
    Layout(pixelBox, iconBox, ResizeImageInBox(maskW, maskH, iconBox))
  }

  /** For a non-negative scale the fitted mask lies inside the scaled region
      and inside the canvas, so the paste never clips; up to a scale of
      1 / 0.84 the scaled region also stays inside the pixel region. */
  lemma IconLayoutInsideCanvas(size: int, iconScale: real, maskW: int, maskH: int)
    requires size >= 0 && iconScale >= 0.0 && maskW > 0 && maskH > 0
    ensures var l := IconLayout(size, iconScale, maskW, maskH);
            Inside(l.placement.box, l.iconBox) && WithinRegion(l.placement.box, size, size) &&
            l.placement.box.Width() == l.placement.width && l.placement.box.Height() == l.placement.height
    ensures iconScale * IconBoxScalingFactor <= 1.0 ==>
            Inside(IconLayout(size, iconScale, maskW, maskH).iconBox, PixelBox(size))
  {
    var l := IconLayout(size, iconScale, maskW, maskH);
    assert iconScale * IconBoxScalingFactor >= 0.0;
    ScaledBoxWithinRegion(l.pixelBox, iconScale * IconBoxScalingFactor, size, size);
    ResizeImageInBoxFits(maskW, maskH, l.iconBox);
    if iconScale * IconBoxScalingFactor <= 1.0 {
      ScaledBoxShrinks(l.pixelBox, iconScale * IconBoxScalingFactor, size, size);
    }
  }

  /** The numbers of a full-size icon and of a 350-pixel preview. */
  lemma LayoutConstants()
    ensures PixelBox(1024) == Box(88, 296, 935, 795)
    ensures ScaledBox(PixelBox(1024), 1.0 * IconBoxScalingFactor, 1024, 1024) == Box(156, 336, 867, 755)
    ensures ShadowOffset(1024) == 3 && HighlightOffset(1024) == 8
    ensures PixelBox(350) == Box(30, 101, 319, 271)
    ensures ShadowOffset(350) == 1 && HighlightOffset(350) == 2
  {
    assert PixelBox(1024) == Box(88, 296, 935, 795);
    assert Centre(88, 935) == 511 && Centre(296, 795) == 545;
    assert ScaledOffset(88 - 511, 0.84) == -355;
    assert ScaledOffset(935 - 511, 0.84) == 356;
    assert ScaledOffset(296 - 545, 0.84) == -209;
    assert ScaledOffset(795 - 545, 0.84) == 210;
  }

  /** `divided_colour(base_colour, icon_colour)`: the colour drawn inside
      the icon, defined for every style. */
  function CentreColour(style: FolderStyle): (c: Rgb)
    ensures InByteRange(c)
  {
    CentreColourDefined(style);
    DividedColour(style.BaseColour(), style.IconColour())
  }

  /** The purpose of the centre colour: the multiply filter over the folder's
      base colour turns it into the style's icon colour, each channel at most
      one unit darker. */
  lemma CentreColourBecomesIconColour(style: FolderStyle)
    ensures var base, icon, c := style.BaseColour(), style.IconColour(), CentreColour(style);
            icon.r - 1 <= MultiplyChannel(base.r, c.r) <= icon.r &&
            icon.g - 1 <= MultiplyChannel(base.g, c.g) <= icon.g &&
            icon.b - 1 <= MultiplyChannel(base.b, c.b) <= icon.b
  {
    FolderStyleTableFacts(style);
    var base, icon := style.BaseColour(), style.IconColour();
    DividedChannelInvertsMultiply(base.r, icon.r);
    DividedChannelInvertsMultiply(base.g, icon.g);
    DividedChannelInvertsMultiply(base.b, icon.b);
  }

  /** `(center_hue, center_sat, center_val * INNER_SHADOW_COLOUR_SCALING_FACTOR)`:
      the shadow has the centre colour's hue and saturation and is strictly
      darker. */
  function ShadowHsv(style: FolderStyle): (hsv: Hsv)
    ensures var c := (ByteColourConvertible(CentreColour(style)); RgbIntToHsv(CentreColour(style)));
            hsv.h == c.h && hsv.s == c.s && hsv.v < c.v && InHsvRange(hsv)
  {
    var centre := CentreColour(style);
    ByteColourConvertible(centre);
    CentreColourNotBlack(style);
    var c := RgbIntToHsv(centre);
    Hsv(c.h, c.s, c.v * InnerShadowColourScalingFactor)
  }

  lemma CentreColourNotBlack(style: FolderStyle)
    ensures MaxChannel(CentreColour(style)) > 0
  {
    CentreColourDefined(style);
  }

  /** `hsv_to_rgb_int(shadow_hsv_colour)`: a byte colour whenever
      `colorsys.hsv_to_rgb` stays in the unit cube. */
  function ShadowColour(style: FolderStyle, hsvToRgb: Hsv -> RealRgb): (c: Rgb)
    ensures (forall hsv :: InHsvRange(hsv) ==> InUnitCube(hsvToRgb(hsv))) ==> InByteRange(c)
  {
    HsvToRgbInt(hsvToRgb, ShadowHsv(style))
  }

  //////////////////////////////////////////////////////////////////////
  // The compositor
  //////////////////////////////////////////////////////////////////////

  /** What `generate_folder_icon` returns. `Plain` is the folder with its
      shadow increased, returned as it is; `Tinted` is that folder to be passed
      through the tint's lookup table; `Composed` is the plan of a folder with
      an icon: the formatted mask, where it came from, its colours and
      offsets, and the tint to apply last, if any. */
  datatype Icon =
    | Plain(folder: RgbaImage)
    | Tinted(folder: RgbaImage, factors: TintFactors)
    | Composed(folder: RgbaImage, iconMask: GreyImage, formattedMask: GreyImage, layout: Layout,
               centre: Rgb, shadow: Rgb, shadowOffset: int, highlightOffset: int, tint: Option<TintFactors>)

  /** The canvas holds `rows` pasted at the corner of `box` with themselves
      as the paste mask over black, and black everywhere else. */
  ghost predicate MaskPasted(canvas: GreyImage, rows: seq<seq<int>>, box: Box)
    reads canvas, canvas.pixels
    requires canvas.Valid() && IsGrid(rows, box.Height(), box.Width())
  {
    forall y, x :: 0 <= y < canvas.height && 0 <= x < canvas.width ==>
      canvas.pixels[y, x] ==
        if box.y1 <= y < box.y2 && box.x1 <= x < box.x2
        then Blend(0, rows[y - box.y1][x - box.x1], rows[y - box.y1][x - box.x1])
        else 0
  }

  /** `Image.new("L", (size, size), 0)` followed by `paste(im, box, im)` of
      the image holding `rows`. */
  method PasteOnBlack(rows: seq<seq<int>>, box: Box, size: nat) returns (canvas: GreyImage)
    requires box.Width() >= 0 && IsGrid(rows, box.Height(), box.Width())
    ensures fresh(canvas) && canvas.Valid() && canvas.width == size && canvas.height == size
    ensures MaskPasted(canvas, rows, box)
  {
    canvas := new GreyImage.Filled(size, size, 0);
    var pasted := new GreyImage.FromGrid(rows, box.Width());
    canvas.Paste(pasted, Some(pasted), box.x1, box.y1);
  }

  /** The part of `generate_folder_icon` that fits the mask into the icon
      region: a black canvas of the working size with the resized mask pasted
      into its placement, the resized mask serving as its own paste mask. A
      mask without pixels divides by zero in the fit ratio; a fitted size
      below one pixel is refused by `resize`. */
  method FormatMask(mask: GreyImage, size: int, iconScale: real, ops: PilOps)
    returns (r: Result<(GreyImage, Layout), IconError>)
    requires mask.Valid() && size >= 0 && ops.Valid()
    ensures r.Err? <==> mask.width == 0 || mask.height == 0 ||
                        (var p := IconLayout(size, iconScale, mask.width, mask.height).placement;
                         p.width < 1 || p.height < 1)
    ensures r.Err? ==> r.error == (if mask.width == 0 || mask.height == 0 then EmptyMask else EmptyResize)
    ensures r.Ok? ==>
              var (formatted, layout) := r.value;
              var p := layout.placement;
              layout == IconLayout(size, iconScale, mask.width, mask.height) &&
              p.width >= 1 && p.height >= 1 &&
              fresh(formatted) && formatted.Valid() && formatted.width == size && formatted.height == size &&
              MaskPasted(formatted, ops.resize(mask.Rows(), p.width, p.height), p.box)
  {
    if mask.width == 0 || mask.height == 0 {
      return Err(EmptyMask);
    }
    var layout := IconLayout(size, iconScale, mask.width, mask.height);
    var p := layout.placement;
    if p.width < 1 || p.height < 1 {
      return Err(EmptyResize);
    }
    var scaledRows := ops.resize(mask.Rows(), p.width, p.height);
    var formatted := PasteOnBlack(scaledRows, p.box, size);
    r := Ok((formatted, layout));
  }

  /** How `generate_folder_icon` ends once its mask exists, the mask being
      `w` by `h` pixels: a mask without pixels divides by zero in the fit
      ratio, a fitted size below one pixel is refused by `resize`, and
      otherwise the icon is composed from that mask. */
  predicate FitOutcome(r: Result<Icon, IconError>, size: int, iconScale: real, w: int, h: int)
    requires w >= 0 && h >= 0
  {
    if w == 0 || h == 0 then r == Err(EmptyMask)
    else
      var p := IconLayout(size, iconScale, w, h).placement;
      if p.width < 1 || p.height < 1 then r == Err(EmptyResize)
      else r.Ok? && r.value.Composed? && r.value.iconMask.width == w && r.value.iconMask.height == h
  }

  /** The tint at the end of `generate_folder_icon`, if one is asked for.
      No shipped base colour is a grey, so the factors always exist, and they
      carry the base colour onto the tint colour. */
  function TintOf(style: FolderStyle, tint: Option<Rgb>): (r: Option<TintFactors>)
    requires tint.Some? ==> InByteRange(tint.value)
    ensures r.Some? <==> tint.Some?
    ensures r.Some? ==>
              var base := style.BaseColour();
              InByteRange(base) && MinChannel(base) != MaxChannel(base) &&
              (ByteColourConvertible(base); ByteColourConvertible(tint.value);
               AdjustPixel(r.value, RgbIntToHsv(base)) == RgbIntToHsv(tint.value))
  {
    FolderStyleTableFacts(style);
    if tint.None? then Option.None
    else
      ShippedStylesTintable(style, tint.value);
      BaseColourMapsToTint(style.BaseColour(), tint.value);
      Some(TintFactorsOf(style.BaseColour(), tint.value).value)
  }

  /** `generate_folder_icon(folder_style, generation_method, preview_size,
      icon_scale, tint_colour, text, font_style, image)`, with `folder` the
      style's folder picture at the working size.

      A negative preview size is refused by `resize` before anything else.
      Without an icon the folder comes back with its shadow increased, tinted
      or not, before any mask is built. Otherwise the mask is generated, fitted
      and pasted onto a black canvas of the working size, and the plan carries
      the centre and shadow colours and the two offsets. */
  method GenerateFolderIcon(style: FolderStyle, generation: IconGenerationMethod, previewSize: Option<int>,
                            iconScale: real, tint: Option<Rgb>, text: Option<string>, font: SFFont,
                            image: Option<SourceImage>, folder: RgbaImage, ops: PilOps)
    returns (r: Result<Icon, IconError>)
    requires ops.Valid() && folder.Valid()
    requires tint.Some? ==> InByteRange(tint.value)
    requires image.Some? ==> image.value.Valid()
    ensures image.Some? ==> image.value.Valid()
    ensures WorkingSize(style, previewSize) < 0 ==> r == Err(NegativeSize)
    ensures r.Ok? ==> ShadowIncreased(r.value.folder, folder, FolderShadowIncreaseFactor)
    ensures r.Ok? ==> (r.value.Composed? <==> generation != IconGenerationMethod.None)
    ensures generation == IconGenerationMethod.None && WorkingSize(style, previewSize) > 0 ==>
              r.Ok? && (r.value.Plain? <==> tint.None?) &&
              (r.value.Tinted? ==> Some(r.value.factors) == TintOf(style, tint))
    ensures generation == Image && WorkingSize(style, previewSize) > 0 ==>
              ImageIconOutcome(r, style, WorkingSize(style, previewSize), iconScale, TintOf(style, tint), image, ops)
    ensures generation == Text && WorkingSize(style, previewSize) > 0 ==>
              TextIconOutcome(r, style, WorkingSize(style, previewSize), iconScale, TintOf(style, tint),
                              text, font, ops)
  {
    var size := WorkingSize(style, previewSize);
    if size < 0 {
      return Err(NegativeSize);
    }
    var shadowed := IncreasedShadow(folder, FolderShadowIncreaseFactor);
    var tinting := TintOf(style, tint);

    if generation == IconGenerationMethod.None {
      r := if tint.None? then Ok(Plain(shadowed)) else Ok(Tinted(shadowed, tinting.value));
    } else if generation == Image {
      if image.None? {
        r := Err(MissingImage);
      } else {
        r := IconFromImage(style, size, iconScale, tinting, image.value, shadowed, ops);
      }
    } else {
      r := IconFromText(style, size, iconScale, tinting, text, font, shadowed, ops);
    }
    assert ShadowIncreased(shadowed, folder, FolderShadowIncreaseFactor);
  }

  /** The objects of a composed icon's two masks. */
  ghost function MaskRepr(r: Result<Icon, IconError>): set<object>
  {
    if r.Ok? && r.value.Composed?
    then {r.value.iconMask, r.value.iconMask.pixels, r.value.formattedMask, r.value.formattedMask.pixels}
    else {}
  }

  /** `icon` is composed from its icon mask at the working size `size`: the
      mask's layout, the resized mask pasted onto a black canvas of the
      working size, the centre and shadow colours of the style and the
      offsets of the size. */
  ghost predicate ComposedWith(icon: Icon, style: FolderStyle, size: int, iconScale: real, ops: PilOps)
    reads icon.iconMask, icon.iconMask.pixels, icon.formattedMask, icon.formattedMask.pixels
    requires icon.Composed? && ops.Valid()
  {
    var mask := icon.iconMask;
    var p := icon.layout.placement;
    mask.Valid() && mask.width > 0 && mask.height > 0 &&
    icon.layout == IconLayout(size, iconScale, mask.width, mask.height) &&
    p.width >= 1 && p.height >= 1 &&
    icon.formattedMask.Valid() && icon.formattedMask.width == size && icon.formattedMask.height == size &&
    MaskPasted(icon.formattedMask, ops.resize(mask.Rows(), p.width, p.height), p.box) &&
    icon.centre == CentreColour(style) && icon.shadow == ShadowColour(style, ops.hsvToRgb) &&
    icon.shadowOffset == ShadowOffset(size) && icon.highlightOffset == HighlightOffset(size)
  }

  /** How `generate_folder_icon` ends for the image method at the working
      size `size`: it fails without a picture or for a picture without pixels,
      and otherwise as the fit of the picture's mask decides; a composed icon
      carries the mask `_generate_mask_from_image` makes of the picture and
      the tint `tint`. */
  ghost predicate ImageIconOutcome(r: Result<Icon, IconError>, style: FolderStyle, size: int, iconScale: real,
                                   tint: Option<TintFactors>, image: Option<SourceImage>, ops: PilOps)
    reads MaskRepr(r), if image.Some? then image.value.Repr() else {}
    requires ops.Valid() && (image.Some? ==> image.value.Valid())
  {
    (image.None? ==> r == Err(MissingImage)) &&
    (image.Some? ==>
       var w, h := image.value.grey.width, image.value.grey.height;
       if w == 0 || h == 0 then r == Err(EmptyImage) else FitOutcome(r, size, iconScale, w, h)) &&
    (r.Ok? ==>
       r.value.Composed? && r.value.tint == tint && image.Some? &&
       IsPictureMask(r.value.iconMask, image.value, ops.curve) && ComposedWith(r.value, style, size, iconScale, ops))
  }

  /** How `generate_folder_icon` ends for the text method at the working size
      `size`: it fails without a text or for a text whose buffer has a
      negative size, and otherwise as the fit of the drawn mask decides; a
      composed icon carries the mask `_generate_mask_from_text` draws and the
      tint `tint`. */
  ghost predicate TextIconOutcome(r: Result<Icon, IconError>, style: FolderStyle, size: int, iconScale: real,
                                  tint: Option<TintFactors>, text: Option<string>, font: SFFont, ops: PilOps)
    reads MaskRepr(r)
    requires ops.Valid()
  {
    (text.None? ==> r == Err(MissingText)) &&
    (text.Some? ==>
       var b := TextBufferOf(text.value, size, font, ops);
       if b.width < 0 || b.height < 0 then r == Err(NegativeSize)
       else FitOutcome(r, size, iconScale, b.width, b.height)) &&
    (r.Ok? ==>
       r.value.Composed? && r.value.tint == tint && text.Some? &&
       IsTextMask(r.value.iconMask, text.value, size, font, ops) && ComposedWith(r.value, style, size, iconScale, ops))
  }

  /** The image method of `generate_folder_icon` given a picture, from
      `_generate_mask_from_image` on: the mask is made from the picture,
      fitted and composed with the shadow-boosted `folder`. */
  method IconFromImage(style: FolderStyle, size: int, iconScale: real, tint: Option<TintFactors>,
                       image: SourceImage, folder: RgbaImage, ops: PilOps)
    returns (r: Result<Icon, IconError>)
    requires size > 0 && ops.Valid() && image.Valid()
    ensures image.Valid()
    ensures r.Ok? ==> r.value.Composed? && r.value.folder == folder
    ensures ImageIconOutcome(r, style, size, iconScale, tint, Some(image), ops)
  {
    var mask := PictureMask(image, ops.curve);
    if mask.Err? {
      r := Err(mask.error);
    } else {
      r := ComposeWithPictureMask(style, size, iconScale, tint, image, mask.value, folder, ops);
    }
    ImageIconComposed(r, style, size, iconScale, tint, image, ops);
  }

  /** The image method once the picture's mask exists: the mask is fitted
      and composed, and stays the picture's mask. */
  method ComposeWithPictureMask(style: FolderStyle, size: int, iconScale: real, tint: Option<TintFactors>,
                                image: SourceImage, mask: GreyImage, folder: RgbaImage, ops: PilOps)
    returns (r: Result<Icon, IconError>)
    requires size > 0 && ops.Valid() && image.Valid() && IsPictureMask(mask, image, ops.curve)
    ensures image.Valid()
    ensures FitOutcome(r, size, iconScale, mask.width, mask.height)
    ensures r.Ok? ==>
              r.value.Composed? && r.value.folder == folder && r.value.tint == tint &&
              IsPictureMask(r.value.iconMask, image, ops.curve) && ComposedWith(r.value, style, size, iconScale, ops)
  {
    r := ComposeWithMask(style, size, iconScale, tint, folder, mask, ops);
    assert unchanged(image.Repr(), mask, mask.pixels);
  }

  /** `mask_image = _generate_mask_from_image(image)`: a picture without
      pixels fails at the unpacking of its extrema. */
  method PictureMask(image: SourceImage, curve: int -> int) returns (r: Result<GreyImage, IconError>)
    requires image.Valid()
    requires forall v :: IsByte(v) ==> IsByte(curve(v))
    ensures r.Err? <==> image.grey.width == 0 || image.grey.height == 0
    ensures r.Err? ==> r.error == EmptyImage
    ensures r.Ok? ==> fresh(r.value) && IsPictureMask(r.value, image, curve)
  {
    var mask, pasted, lo, hi := MaskFromImage(image, curve);
    if mask.None? {
      return Err(EmptyImage);
    }
    r := Ok(mask.value);
  }

  /** Failing for a picture without pixels, and otherwise composing the
      picture's mask, is the image method's outcome. */
  lemma ImageIconComposed(r: Result<Icon, IconError>, style: FolderStyle, size: int, iconScale: real,
                          tint: Option<TintFactors>, image: SourceImage, ops: PilOps)
    requires ops.Valid() && image.Valid()
    requires var w, h := image.grey.width, image.grey.height;
             if w == 0 || h == 0 then r == Err(EmptyImage) else FitOutcome(r, size, iconScale, w, h)
    requires r.Ok? ==> r.value.Composed? && r.value.tint == tint &&
                       IsPictureMask(r.value.iconMask, image, ops.curve) && ComposedWith(r.value, style, size, iconScale, ops)
    ensures ImageIconOutcome(r, style, size, iconScale, tint, Some(image), ops)
  {
  }

  /** The text method of `generate_folder_icon`, from `_generate_mask_from_text`
      on: the mask is drawn from the text, fitted and composed with the
      shadow-boosted `folder`. */
  method IconFromText(style: FolderStyle, size: int, iconScale: real, tint: Option<TintFactors>,
                      text: Option<string>, font: SFFont, folder: RgbaImage, ops: PilOps)
    returns (r: Result<Icon, IconError>)
    requires size > 0 && ops.Valid()
    ensures r.Ok? ==> r.value.Composed? && r.value.folder == folder
    ensures TextIconOutcome(r, style, size, iconScale, tint, text, font, ops)
  {
    var mask := MaskFromText(text, size, font, ops);
    if mask.Err? {
      return Err(mask.error);
    }
    r := ComposeWithMask(style, size, iconScale, tint, folder, mask.value, ops);
  }

  /** The rest of `generate_folder_icon` once the mask exists: the mask is
      fitted and pasted onto a black canvas of the working size, and the plan
      carries the folder, the centre and shadow colours, the two offsets and
      the tint. */
  method ComposeWithMask(style: FolderStyle, size: int, iconScale: real, tint: Option<TintFactors>,
                         folder: RgbaImage, mask: GreyImage, ops: PilOps)
    returns (r: Result<Icon, IconError>)
    requires mask.Valid() && size >= 0 && ops.Valid()
    ensures FitOutcome(r, size, iconScale, mask.width, mask.height)
    ensures r.Ok? ==>
              r.value.Composed? && r.value.folder == folder && r.value.iconMask == mask && r.value.tint == tint &&
              fresh(r.value.formattedMask) && ComposedWith(r.value, style, size, iconScale, ops)
  {
    var formatted := FormatMask(mask, size, iconScale, ops);
    if formatted.Err? {
      return Err(formatted.error);
    }
    var centre := CentreColour(style);
    var shadow := ShadowColour(style, ops.hsvToRgb);
    r := Ok(Composed(folder, mask, formatted.value.0, formatted.value.1, centre, shadow,
                     ShadowOffset(size), HighlightOffset(size), tint));
  }
}
