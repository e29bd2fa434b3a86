# FancyFolders core, modelled in Dafny

FancyFolders is a macOS tool. It draws a custom folder icon and sets it on a folder. The icon is the stock folder picture of a chosen style (Big Sur light or dark, Catalina). On it goes a badge made from an image or a short text, "engraved" into the folder: the badge has a centre colour, an inner shadow slightly darker than that colour, and an outer highlight. The whole icon can then be tinted with a colour.

This project models the computational core of the tool:

- **Colour and maths utilities** (`Utilities`, `Numerics`), from `fancyfolders/utilities.py`:
  - `divided_colour`, `clamp`, the HSV conversions of byte colours, `interpolate` and `interpolate_int_to_float_with_midpoint`;
  - the "untitled folder N" search of `generate_unique_folder_filename`, run over a set of existing paths.
- **Constant tables** (`Constants`, `LegacyConstants`): the folder styles, fonts, tint palette and tuning constants of `fancyfolders/constants.py`, and the older tables of `customfoldericons/constants.py`.
- **Box geometry** (`BoxGeometry`): `scaled_box` (scale a rectangle about its centre, then clip it) and the arithmetic of `_resize_image_in_box` (fit an image into a box, keeping its aspect ratio, and centre it).
- **Grey images** (`Bitmaps`): 8-bit images as a class over a two-dimensional array. This covers:
  - extrema;
  - point maps;
  - masked paste, with PIL's rounding;
  - the normalisation of `_normalized_image`;
  - the alpha boost of `_increased_shadow`.
- **Masks** (`Masks`): `_generate_mask_from_image` (paste on white, normalise, invert) and `_generate_mask_from_text` (the 25-character cut, the font size and spacing, the measured buffer).
- **Tint** (`Tint`): the per-pixel HSV rule of `adjusted_colours`, and its purpose: the folder's base colour lands on the tint colour.
- **Compositor** (`FolderIcon`): `generate_folder_icon`. This covers:
  - the working size;
  - the early return without an icon;
  - the error paths;
  - the icon region, its scaling and the mask's placement;
  - the formatted mask;
  - the centre and shadow colours;
  - the shadow and highlight offsets;
  - the final tint.
- **Spinner** (`Spinner`): the non-painting logic of `QWaitingSpinner`:
  - the ring distance between lines;
  - the trail's fading alpha;
  - the start/stop flag with the widget's visibility and animation;
  - the counter wrap;
  - the widget size.

The image pipeline exists twice in the repository, as `fancyfolders/image_transformations.py` (snake_case) and `fancyfolders/imagetransformations.py` (camelCase). The two bodies are the same, and one model covers both. The table cites the snake_case file. The camelCase lines correspond as follows:

| function | camelCase lines |
|---|---|
| `generate_folder_icon` | 9-124 |
| `_generateMaskFromText` | 127-176 |
| `_generateMaskFromImage` | 179-194 |
| `adjustedColours` | 197-229 |
| `_increasedShadow` | 232-246 |
| `_normalizedImage` | 249-270 |
| `_resizeImageInBox` | 273-301 |
| `scaledBox` | 304-332 |

Python floats are modelled as Dafny reals, which is an idealisation: every rounding of a double is absent. Python's `int()` on a float truncates toward zero (`Numerics.Trunc`), which differs from `Floor` on the negative offsets of `scaled_box`. Byte images hold integers in [0, 255].

PIL calls whose results matter but whose internals are out of scope are parameters of the model, bundled in `Masks.PilOps`:
- text measurement;
- text drawing;
- resampling in `resize`;
- the values of the sigmoid curve with PIL's rounding of `eval`;
- `colorsys.hsv_to_rgb`.

The model assumes only what it states about them:
- drawn and resized grids have the requested size;
- the curve maps bytes to bytes;
- where a lemma says so, `hsv_to_rgb` stays in the unit cube or inverts `rgb_to_hsv`.

Some PIL behaviour is modelled as documented rather than as a parameter:
- `paste(im, box, mask)` blends with `(dst*(255-m) + src*m)` rounded by PIL's `DIV255`;
- `paste(im, im)` treats the image as the mask, so the paste is at (0, 0);
- an RGBA picture pasted into an "L" image is converted to its luminance, and its alpha is the mask;
- `getextrema()` of an image without pixels is `None`;
- `Image.eval(image, f)` builds a lookup table by calling `f` on all 256 values 0..255, so an exception in any entry, even one the image does not hold, escapes from `eval`;
- Qt's `QAbstractAnimation.start()` does nothing to an animation already running and restarts a stopped one from its start value;
- `resize` refuses a width or height below 1;
- `Image.new` refuses a negative size.

Where the program's own documentation and its code differ, the model follows the code:
- The docstring of `scaled_box` (`fancyfolders/image_transformations.py:287-298`) says the box is "clipped into the region from (0,0) to max_size". Lines 307-308 clip each corner on one side only: the top-left corner from below (`max(0, …)`) and the bottom-right corner from above (`min(max_size, …)`). A box that lies off the canvas keeps an out-of-range coordinate and can come out inverted (`BoxGeometry.ScaledBoxOneSidedClipping`).
- `FolderStyle.icon_box_percentages` (`fancyfolders/constants.py:70`) gives each style its own icon region, but it is never read. `generate_folder_icon` hard-codes the Big Sur fractions at line 63 and uses them for every style, Catalina included.
- The text path calls `get_font_location` and `get_first_font_installed` (lines 133-135), which `fancyfolders/utilities.py` does not define. The camelCase twin imports `dividedColour`, `hsvToRgbInt`, `rgbIntToHsv` and `getFontLocation`, which are not defined either. The camelCase twin also calls `folderStyle.baseColour()`, but the enum defines `base_colour`. It tests `IconGenerationMethod.SYMBOL`, which the enum lacks; that attribute is evaluated only for a method other than NONE, IMAGE and TEXT. The model follows the evident intent: the functions that are defined, under their snake_case names. Font lookup is a parameter of the text drawing.

## Model

| member | source | states |
|---|---|---|
| Numerics.Trunc | fancyfolders/image_transformations.py:303-304 | `int()` of a float truncates toward zero: the result lies within one unit of x, on the side of zero |
| Numerics.Ceil | fancyfolders/external/waitingspinnerwidget.py:155-156 | `math.ceil`: the least integer not below x |
| Numerics.FracPart | fancyfolders/image_transformations.py:204 | `x % 1.0` lies in [0, 1) and differs from x by a whole number |
| Numerics.TruncQuotient | fancyfolders/image_transformations.py:249 | `int(a / b)` of a non-negative quotient is integer division |
| Numerics.TruncMonotone | fancyfolders/image_transformations.py:64 | truncation preserves order |
| Utilities.Clamp | fancyfolders/utilities.py:117-118 | with lo ≤ hi the result lies in [lo, hi]; an in-range value is returned unchanged; values outside go to the nearer bound |
| Utilities.ClampReal | fancyfolders/image_transformations.py:205-206 | the same four facts for `clamp` on floats |
| Utilities.ClampIdempotent | fancyfolders/utilities.py:117-118 | clamping twice equals clamping once |
| Utilities.ClampRealMonotone | fancyfolders/utilities.py:117-118 | clamping preserves order |
| Utilities.DividedChannel | fancyfolders/utilities.py:24-27 | every channel is a byte; for s > 0 and f ≥ 0 it equals min(255, (255·f) div s) |
| Utilities.DividedChannelOfEqual | fancyfolders/utilities.py:26 | dividing a channel by itself gives 255 |
| Utilities.DividedColour | fancyfolders/utilities.py:16-27 | a byte colour made channel by channel; defined only when no start channel is zero (else a division by zero) |
| Utilities.DividedChannelInvertsMultiply | fancyfolders/utilities.py:26 | for f ≤ s, multiplying s by the divided channel (ImageChops.multiply, a·b/255) gives back f to within one unit |
| Utilities.RgbToHsv | fancyfolders/image_transformations.py:202 | `colorsys.rgb_to_hsv`: value is the largest channel, saturation is 0 exactly for greys, hue in [0, 1), unit-cube input gives a valid HSV triple |
| Utilities.RgbIntToHsv | fancyfolders/utilities.py:30-37 | value is the largest byte over 255; saturation 0 exactly for greys; byte colours give valid HSV |
| Utilities.ToUnitOrder | fancyfolders/utilities.py:36 | scaling by 1/255 keeps the largest and smallest channels and maps bytes into the unit cube |
| Utilities.ToByte | fancyfolders/utilities.py:48 | `int(x * 255)` of a unit value is a byte |
| Utilities.HsvToRgbInt | fancyfolders/utilities.py:40-48 | a byte colour whenever `hsv_to_rgb` lands in the unit cube |
| Utilities.ToByteInvertsToUnit | fancyfolders/utilities.py:36-48 | a byte divided by 255 and scaled back by `int(x * 255)` is the byte again |
| Utilities.Interpolate | fancyfolders/utilities.py:135-136 | agrees with the point-slope line through (pre_min, post_min) and (pre_max, post_max), and hits both endpoints; requires pre_max ≠ pre_min |
| Utilities.InterpolateMonotone | fancyfolders/utilities.py:135-136 | a rising pre-range and a non-falling post-range give a non-decreasing map |
| Utilities.InterpolateWithMidpoint | fancyfolders/utilities.py:121-132 | as written: pre_mid gives post_mid; the pieces reach post_min and post_max at their ends when those lie beyond pre_mid |
| Utilities.MidpointMisplacedForOtherRanges | fancyfolders/utilities.py:125 | for the range 10..20 the computed midpoint is 6, below the range, and value 10 maps to 9/14 instead of post_min |
| Utilities.InterpolateWithMidpointCorrected | fancyfolders/utilities.py:121-132 | with the midpoint measured from pre_min: it lies strictly inside the range; pre_min, the midpoint and pre_max map to post_min, post_mid and post_max |
| Utilities.CorrectedMidpointMonotone | fancyfolders/utilities.py:121-132 | with ordered post values the corrected map is non-decreasing over the whole range |
| Utilities.MidpointAgreesFromOne | fancyfolders/utilities.py:125 | for pre_min = 1, the one range the application uses, the code as written equals the corrected map |
| Utilities.SliderScale | fancyfolders/ui/components/composite/scalethicknesssliders.py:45-47 | the icon-scale slider's 1..31 positions map into [0.1, 1.5], and the value is the midpoint interpolation as written |
| Utilities.SliderScaleLandmarks | fancyfolders/ui/components/composite/scalethicknesssliders.py:45-47 | slider 1 gives 0.1, 16 gives 1.0, 31 gives 1.5 |
| Utilities.Decimal | fancyfolders/utilities.py:103 | `"{}".format(index)` is a non-empty string of digits |
| Utilities.DecimalRoundTrip | fancyfolders/utilities.py:103 | reading the digits back gives the number |
| Utilities.DecimalInjective | fancyfolders/utilities.py:103 | different numbers give different digit strings |
| Utilities.CandidatePathInjective | fancyfolders/utilities.py:102-104 | different indices give different candidate paths ("untitled folder", "untitled folder N") |
| Utilities.TriedPathsCount | fancyfolders/utilities.py:100-109 | before index i the search has tried exactly i − 1 distinct paths |
| Utilities.FileSystem.Exists | fancyfolders/utilities.py:106 | `os.path.exists` is membership in the set of paths |
| Utilities.FileSystem.MakeDir | fancyfolders/utilities.py:107 | `os.mkdir` adds the path, succeeding exactly when it was absent |
| Utilities.GenerateUniqueFolderFilename | fancyfolders/utilities.py:92-110 | returns the candidate of the first free index: it did not exist, every lower candidate did, and now exactly it is added |
| Constants.IconGenerationMethodOf | fancyfolders/constants.py:34-37 | the enum constructor: defined exactly on 0..2 and inverse to the value |
| Constants.FolderStyleOf | fancyfolders/constants.py:39-42 | defined exactly on 0..2 and inverse to the value |
| Constants.FolderStyleValuesContiguous | fancyfolders/constants.py:39-42 | every style's value is in 0..2 and maps back to the style |
| Constants.FolderStyleTableFacts | fancyfolders/constants.py:60-117 | size 1024; box fractions ordered within [0, 1]; byte colours; no zero and no grey base colour; icon colour no brighter than the base, channel by channel |
| Constants.CentreColourDefined | fancyfolders/constants.py:95-117 | `divided_colour(base, icon)` is defined for every style and never hits the 255 clamp |
| Constants.FolderStyleNamesInjective | fancyfolders/constants.py:44-58 | different styles have different filenames and display names |
| Constants.TintColourFacts | fancyfolders/constants.py:119-129 | the palette holds byte colours, all distinct |
| Constants.SFFontOf | fancyfolders/constants.py:131-139 | defined exactly on 1..8 and inverse to the value |
| Constants.SFFontValuesContiguous | fancyfolders/constants.py:131-139 | every font's value is in 1..8 and maps back to the font |
| Constants.SFFontFilenamesInjective | fancyfolders/constants.py:141-151 | different fonts have different filenames |
| LegacyConstants.FolderStyleOf | customfoldericons/constants.py:3-6 | the older enum is defined exactly on 1..3 |
| LegacyConstants.LegacyFolderStyleFacts | customfoldericons/constants.py:3-41 | values map back; size 1024; one shared, well-formed icon box; positive base colours; icon no brighter than base; distinct filenames |
| LegacyConstants.LegacyAgreesWithCurrent | customfoldericons/constants.py:8-41 | the older table has the newer one's filenames, sizes and colours, with values shifted by one |
| LegacyConstants.SFFontOf | customfoldericons/constants.py:43-51 | defined exactly on 1..8 and inverse to the value |
| LegacyConstants.LegacySFFontFacts | customfoldericons/constants.py:43-63 | values map back; distinct filenames |
| BoxGeometry.ScaledSpan | fancyfolders/image_transformations.py:299-308 | one axis of `scaled_box`: the start is never below 0 and the end never beyond the limit |
| BoxGeometry.ScaledBox | fancyfolders/image_transformations.py:287-310 | top-left never below 0, bottom-right never beyond `max_size` |
| BoxGeometry.CentreBetween | fancyfolders/image_transformations.py:300 | the truncated centre lies between the two ends |
| BoxGeometry.ScaledOffsetBetween | fancyfolders/image_transformations.py:303-304 | a scaled offset keeps its sign and, for scale ≤ 1, does not grow |
| BoxGeometry.ScaledSpanBounds | fancyfolders/image_transformations.py:299-308 | for an in-range span and scale ≥ 0 the scaled span is ordered and within [0, limit] |
| BoxGeometry.ScaledBoxWithinRegion | fancyfolders/image_transformations.py:287-310 | a box inside the region stays an ordered box inside it under any non-negative scale |
| BoxGeometry.ScaledBoxIdentity | fancyfolders/image_transformations.py:287-310 | scale 1.0 returns the box unchanged |
| BoxGeometry.ScaledSpanShrinks | fancyfolders/image_transformations.py:299-308 | a scale in [0, 1] keeps each end between the original ends |
| BoxGeometry.ScaledBoxShrinks | fancyfolders/image_transformations.py:287-310 | a scale in [0, 1] gives a box inside the original |
| BoxGeometry.ScaledBoxOneSidedClipping | fancyfolders/image_transformations.py:307-308 | each corner is clipped on one side only: a box off the canvas comes out inverted, with a coordinate beyond `max_size` |
| BoxGeometry.DownscaleRatio | fancyfolders/image_transformations.py:272 | the ratio is at most both axis ratios and equal to one of them |
| BoxGeometry.ResizeImageInBox | fancyfolders/image_transformations.py:258-284 | the paste box has exactly the scaled image's width and height |
| BoxGeometry.FitAxis | fancyfolders/image_transformations.py:272-273 | a scaled length fits the span, and the binding axis fills it |
| BoxGeometry.CentredAxis | fancyfolders/image_transformations.py:275-276 | the start lies inside the span, with the right margin equal to the left one or one more |
| BoxGeometry.ResizeImageInBoxFits | fancyfolders/image_transformations.py:258-284 | for an ordered box the scaled image fits, lies inside the box, is centred, and fills it along one axis |
| Bitmaps.Invert | fancyfolders/image_transformations.py:177 | `ImageChops.invert` maps bytes to bytes |
| Bitmaps.InvertInvolution | fancyfolders/image_transformations.py:177 | inverting twice is the identity; only white inverts to black |
| Bitmaps.Div255OfMultiple | fancyfolders/image_transformations.py:72 | PIL's rounded division by 255 is exact on multiples of 255 |
| Bitmaps.Div255Monotone | fancyfolders/image_transformations.py:72 | the rounded division preserves order |
| Bitmaps.Blend | fancyfolders/image_transformations.py:72 | a masked paste's pixel lies between the old pixel and the pasted one |
| Bitmaps.BlendEndpoints | fancyfolders/image_transformations.py:174 | mask 0 keeps the old pixel; mask 255 takes the pasted one |
| Bitmaps.SelfMaskedOnBlack | fancyfolders/image_transformations.py:70-72 | pasting an image onto black with itself as mask never brightens a pixel and keeps black and white |
| Bitmaps.Rescale | fancyfolders/image_transformations.py:249 | `int((v - min) * 255 / (max - min))` is a byte for v in range and equals integer division |
| Bitmaps.RescaleStretches | fancyfolders/image_transformations.py:249 | the minimum goes to 0, the maximum to 255, and order is kept |
| Bitmaps.BoostAlpha | fancyfolders/image_transformations.py:229 | `min(int(x * factor), 255)` is a byte |
| Bitmaps.BoostAlphaNeverLowers | fancyfolders/image_transformations.py:217-231 | for factor ≥ 1 no alpha is lowered, transparent stays transparent, and order is kept |
| Bitmaps.GreyImage.Extrema | fancyfolders/image_transformations.py:246 | `getextrema()`: None exactly for an image without pixels, otherwise the least and greatest pixel, both attained |
| Bitmaps.GreyImage.Mapped | fancyfolders/image_transformations.py:253 | `Image.eval`: a fresh image of the same size with the function applied to every pixel |
| Bitmaps.GreyImage.Paste | fancyfolders/image_transformations.py:72 | pixels outside the pasted rectangle are unchanged; inside, each is the source pixel or the mask blend |
| Bitmaps.SigmoidOverflowsExactly | fancyfolders/image_transformations.py:248-250 | `math.exp(-0.18·(n − 127))` overflows exactly for rescaled values n ≤ −3817 |
| Bitmaps.TableOverflowsExactly | fancyfolders/image_transformations.py:247-255 | the lookup table of all 256 values, which `Image.eval` builds, overflows exactly when 255·min ≥ 3817·(max − min) |
| Bitmaps.PalePictureNotNormalised | fancyfolders/image_transformations.py:247-255 | a picture with levels 240..255 overflows the table, while one that reaches 0 never does |
| Bitmaps.NormalizedImage | fancyfolders/image_transformations.py:234-255 | an empty image fails at the unpack; a flat image, or one whose lookup table overflows, comes back as it is; otherwise every pixel is the curve of its rescaled value |
| Bitmaps.IncreasedShadow | fancyfolders/image_transformations.py:217-231 | `ShadowIncreased`: colour bands unchanged; a fresh alpha band of the same size with every pixel boosted |
| Tint.TintFactorsOf | fancyfolders/image_transformations.py:192-197 | the factors exist exactly when the base colour is not a grey; hue offset in (−1, 1), factors non-negative |
| Tint.AdjustPixel | fancyfolders/image_transformations.py:204-206 | whatever the input, the adjusted pixel is a valid HSV triple |
| Tint.AdjustPixelColour | fancyfolders/image_transformations.py:201-210 | a unit-cube colour stays in the unit cube when `hsv_to_rgb` does |
| Tint.ShippedStylesTintable | fancyfolders/constants.py:101-105 | no shipped base colour is grey, so every tint has its factors |
| Tint.FactorsCarryStartToFinal | fancyfolders/image_transformations.py:195-206 | the factors built from two HSV triples carry the first onto the second |
| Tint.BaseColourMapsToTint | fancyfolders/image_transformations.py:180-212 | the purpose of the tint: the base colour's HSV is adjusted to exactly the tint colour's HSV |
| Tint.TintWithBaseIsIdentity | fancyfolders/image_transformations.py:192-206 | tinting with the base colour gives factors (0, 1, 1) and changes no pixel |
| Tint.BaseColourPixelBecomesTint | fancyfolders/image_transformations.py:201-212 | with `hsv_to_rgb` inverting `rgb_to_hsv`, the lookup table's rule sends the base colour to the tint colour |
| Masks.MaskFromImage | fancyfolders/image_transformations.py:162-177 | an empty picture fails; otherwise a fresh mask of the picture's size (`IsPictureMask`): a flat picture gives the inverse of its level, a picture whose lookup table overflows the inverse of each pasted pixel, any other the inverse of the curve of each rescaled pasted pixel |
| Masks.PastedExtremaOf | fancyfolders/image_transformations.py:172-177 | the extrema of the pasted image are the least and greatest pasted levels of the picture |
| Masks.PasteOnWhite | fancyfolders/image_transformations.py:172-174 | a fresh image of the picture's size holding the picture pasted on white, through its alpha when it has one |
| Masks.PictureMaskOfPasted | fancyfolders/image_transformations.py:171-176 | a mask whose every pixel is the mask level of the picture pasted on white, between the paste's extrema, is the picture's mask (`IsPictureMask`) |
| Masks.FlatPictureMask | fancyfolders/image_transformations.py:252-255 | a flat picture's extrema coincide, and a white picture gives a black mask and a black one a white mask |
| Masks.TransparentPastesWhite | fancyfolders/image_transformations.py:173-174 | a fully transparent pixel leaves the white background |
| Masks.TextCut | fancyfolders/image_transformations.py:130 | `text[0:25]` is the prefix of length min(len, 25) |
| Masks.TextCutIdempotent | fancyfolders/image_transformations.py:130 | short text is kept whole; cutting twice equals cutting once |
| Masks.FontSize | fancyfolders/image_transformations.py:137 | `int(image_size / 2)` is half the size, rounded down |
| Masks.LineSpacing | fancyfolders/image_transformations.py:143 | `int(image_size / 8)` is an eighth of the size, rounded down |
| Masks.TextBufferFor | fancyfolders/image_transformations.py:151-153 | the buffer reaches exactly the bounding box's far edges once the anchor is shifted, and the shift is non-negative |
| Masks.TextFitsBuffer | fancyfolders/image_transformations.py:151-157 | the shifted bounding box starts at or after the buffer's origin and ends exactly at its edges |
| Masks.MaskFromText | fancyfolders/image_transformations.py:113-159 | no text fails; a negative measured size fails; otherwise a fresh mask of the measured size holding the drawn cut text (`IsTextMask`) |
| FolderIcon.WorkingSize | fancyfolders/image_transformations.py:39-43 | a non-zero preview size wins; otherwise the style's 1024 |
| FolderIcon.PixelBox | fancyfolders/image_transformations.py:63-64 | for a non-negative size the truncated region is an ordered box inside the canvas |
| FolderIcon.ShadowOffset | fancyfolders/image_transformations.py:89 | the inner shadow moves down by under 1% of the size |
| FolderIcon.HighlightOffset | fancyfolders/image_transformations.py:100 | the highlight moves down by under 1% of the size, never less than the shadow |
| FolderIcon.IconLayoutInsideCanvas | fancyfolders/image_transformations.py:62-72 | for scale ≥ 0 the fitted mask lies inside the scaled region and the canvas; up to scale 1/0.84 the region stays inside the unscaled one |
| FolderIcon.LayoutConstants | fancyfolders/image_transformations.py:63-67 | at 1024: region (88, 296, 935, 795), scaled (156, 336, 867, 755), offsets 3 and 8; at 350: region (30, 101, 319, 271), offsets 1 and 2 |
| FolderIcon.CentreColour | fancyfolders/image_transformations.py:75 | the centre colour is a byte colour for every style |
| FolderIcon.CentreColourBecomesIconColour | fancyfolders/image_transformations.py:74-75 | the multiply filter over the base colour turns the centre colour into the icon colour, within one unit per channel |
| FolderIcon.ShadowHsv | fancyfolders/image_transformations.py:77-79 | the shadow keeps the centre's hue and saturation and is strictly darker |
| FolderIcon.CentreColourNotBlack | fancyfolders/image_transformations.py:75-78 | the centre colour is never black, so darkening it changes it |
| FolderIcon.ShadowColour | fancyfolders/image_transformations.py:80 | a byte colour when `hsv_to_rgb` stays in the unit cube |
| FolderIcon.PictureMask | fancyfolders/image_transformations.py:56-57 | a picture without pixels fails with `EmptyImage`; otherwise a fresh mask that is the picture's mask (`IsPictureMask`) |
| FolderIcon.PasteOnBlack | fancyfolders/image_transformations.py:69-72 | a fresh black canvas of the working size with the mask pasted at the box corner as its own paste mask: the blend of black with each mask value inside the box, zero outside |
| FolderIcon.FormatMask | fancyfolders/image_transformations.py:69-72 | fails exactly for an empty mask or a fitted size below one pixel; otherwise a black canvas of the working size, zero outside the placement and the self-masked resized mask inside |
| FolderIcon.TintOf | fancyfolders/image_transformations.py:107-110 | factors exist exactly when a tint is given, and they carry the base colour onto the tint |
| FolderIcon.ComposeWithMask | fancyfolders/image_transformations.py:62-80 | `FitOutcome`: an empty mask fails with `EmptyMask`, a fitted size below one pixel with `EmptyResize`; otherwise a plan carrying the given folder, mask and tint whose layout, formatted mask (`MaskPasted`), colours and offsets are those of the size (`ComposedWith`) |
| FolderIcon.IconFromImage | fancyfolders/image_transformations.py:56-110 | `ImageIconOutcome` for a given picture: `EmptyImage` for a picture without pixels, then the fit outcome of a mask of the picture's size; a plan carries the picture's mask |
| FolderIcon.ComposeWithPictureMask | fancyfolders/image_transformations.py:62-110 | the fit outcome of the picture's mask; a composed plan carries the folder and tint and its icon mask is still the picture's mask, composed as `ComposedWith` states |
| FolderIcon.ImageIconComposed | fancyfolders/image_transformations.py:56-110 | the fit outcome of the picture's mask, composed, is the image method's outcome |
| FolderIcon.IconFromText | fancyfolders/image_transformations.py:59-110 | `TextIconOutcome`: `MissingText`, `NegativeSize` for a negative buffer, then the fit outcome of a mask of the buffer's size; a plan carries the drawn text mask |
| FolderIcon.GenerateFolderIcon | fancyfolders/image_transformations.py:8-110 | a negative size fails; every plan carries the folder with its shadow increased (`ShadowIncreased`); the NONE method returns it plain or with the tint's factors; the image method fails without a picture and otherwise ends as `ImageIconOutcome`, the text method as `TextIconOutcome`, with the style's tint |
| Spinner.LineCountDistance | fancyfolders/external/waitingspinnerwidget.py:144-148 | for lines on the ring the distance d lies in [0, n), current + d ≡ primary (mod n), and d = 0 exactly when current = primary |
| Spinner.Threshold | fancyfolders/external/waitingspinnerwidget.py:155-156 | non-negative for n ≥ 1 and fade ≥ 0; at most n − 1 for fade ≤ 100 |
| Spinner.LineAlpha | fancyfolders/external/waitingspinnerwidget.py:150-166 | distance 0 keeps the colour's alpha; beyond the threshold the minimum opacity; between them a value in [0, 1] |
| Spinner.GradientAboveMinimum | fancyfolders/external/waitingspinnerwidget.py:159-165 | on the gradient the alpha never drops below the minimum opacity |
| Spinner.LineAlphaFades | fancyfolders/external/waitingspinnerwidget.py:150-166 | alpha is non-increasing in the distance |
| Spinner.DefaultFade | fancyfolders/external/waitingspinnerwidget.py:49-51 | the defaults give threshold 16, alpha 0.0314 beyond it and 1.0 at the primary line |
| Spinner.PaintedTrailFades | fancyfolders/external/waitingspinnerwidget.py:124-132 | in a painted frame the counter's line is the most opaque, and a line further behind is never more opaque |
| Spinner.WaitingSpinner.constructor | fancyfolders/external/waitingspinnerwidget.py:49-86 | counter 0, not spinning, hidden, animation running, size `int((inner_radius + line_length) * 2)` |
| Spinner.WaitingSpinner.Default | fancyfolders/external/waitingspinnerwidget.py:49-53 | the default spinner is 40 pixels with 20 lines |
| Spinner.WaitingSpinner.IsSpinning | fancyfolders/external/waitingspinnerwidget.py:108-109 | the flag agrees with the widget being shown |
| Spinner.WaitingSpinner.Start | fancyfolders/external/waitingspinnerwidget.py:92-98 | already spinning changes nothing; otherwise spinning, shown and animating, with the counter kept when the animation was running and reset to 0 when it restarts |
| Spinner.WaitingSpinner.Stop | fancyfolders/external/waitingspinnerwidget.py:100-106 | not spinning changes nothing; otherwise stopped, hidden, animation stopped |
| Spinner.WaitingSpinner.SetCounter | fancyfolders/external/waitingspinnerwidget.py:44-47 | the counter takes the value; nothing else changes |
| Spinner.WaitingSpinner.PaintEvent | fancyfolders/external/waitingspinnerwidget.py:115-138 | a counter at or past `num_lines` wraps to 0; one alpha per line, each the fade rule at its ring distance; the counter's line gets the full alpha |

## Left out

- Painting: the Qt painting of the spinner, the property animation's timing, and every GUI screen and widget, are event-loop glue.
- Concurrency: the thread pool that runs generation in the background is out of scope.
- The pixels of the composited icon are not modelled. This covers GaussianBlur, `ImageChops.offset`, `ImageChops.multiply` and `ImageChops.add` on whole images, `Image.composite`, `putalpha`, `alpha_composite`, and the folder's RGBA merge. `FolderIcon.GenerateFolderIcon` returns the plan those calls are made from: the formatted mask, the colours, the offsets and the tint.
- `Color3DLUT` is not modelled: it samples the tint rule on a 4×4×4 grid and interpolates between the samples. The rule itself is modelled.
- The values of the sigmoid `255/(1 + exp(−0.18·(n − 127)))`, with PIL's rounding of `eval`'s float results, form the parameter `curve`, of which only byte-to-byte is assumed. Of the exponential only its overflow is modelled, as an argument above 709.782712893384 (`Bitmaps.SigmoidOverflows`), and the product −0.18·(n − 127) is exact rather than rounded.
- Text measurement and rendering, font lookup, `Image.open` of the folder asset, and `set_folder_icon` are parameters or left out. They involve fonts, files and the macOS API.
- `Masks.MaskFromImage`: the RGB-to-luminance conversion of a pasted colour picture is not modelled. The picture is given as its grey luminance plus an optional alpha band.
- `FolderIcon.GenerateFolderIcon`: the resize of the folder picture to a preview size is not modelled. The folder is given at the working size.
- `FolderIcon.GenerateFolderIcon`: a folder picture with bands of differing sizes, which `Image.merge` would refuse, is excluded by requiring a valid picture.
- `Utilities.GenerateUniqueFolderFilename`: the file system is a set of paths. `os.path.join` follows the POSIX rule for a relative name. Races with other processes that create folders are not modelled.
- `Spinner.WaitingSpinner.SetCounter`: requires a non-negative value. The animation only writes 0..`num_lines`, and a negative counter would make the ring distance negative.
- `Spinner.LineAlpha`: the colour's alpha is a real, not Qt's 16-bit channel, and the spinner's colour is represented by its alpha only.
- `divided_colour` on a start colour with a zero channel raises ZeroDivisionError; `Utilities.DividedColour` requires non-zero start channels. Every shipped style meets this (`Constants.CentreColourDefined`).
- `rgb_int_to_hsv` is modelled exactly over reals. `hsv_to_rgb` is a parameter, because its six-way sector split adds nothing to the properties stated.
- `get_internal_font_location` and `internal_resource_path` only build file paths, and are left out.

## Findings

| source | as written | input that shows it | evidently intended | confidence | as-written member | corrected member |
|---|---|---|---|---|---|---|
| fancyfolders/utilities.py:125 | `pre_mid = int((pre_max - pre_min)/2) + 1` measures the midpoint from 1 instead of from `pre_min` | `interpolate_int_to_float_with_midpoint(10, 10, 20, 0.0, 0.5, 1.0)`: pre_mid is 6, below the range, and the result is 9/14 instead of 0.0 | `pre_mid = pre_min + int((pre_max - pre_min)/2)`, which equals the code when pre_min = 1, the only range the application uses | not executed | Utilities.MidpointMisplacedForOtherRanges | Utilities.InterpolateWithMidpointCorrected |
