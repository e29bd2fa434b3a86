/** The colour rule of `adjusted_colours` / `adjustedColours`: the tint is a
    hue rotation plus a saturation and a value factor, chosen so that the
    folder's base colour lands on the tint colour. PIL's `Color3DLUT` (sampling
    the rule on a 4 x 4 x 4 grid and interpolating between the samples) is not
    part of this model; the rule itself is. */
module Tint {
  import opened Numerics
  import opened Utilities
  import opened Wrappers
  import opened Constants

  /** The hue offset and the saturation and value factors of a tint. */
  datatype TintFactors = TintFactors(hueOffset: real, satFactor: real, valFactor: real)

  /** A byte colour whose largest channel is 0 is black, so `rgb_int_to_hsv`
      never divides by zero on byte colours. */
  lemma ByteColourConvertible(c: Rgb)
    requires InByteRange(c)
    ensures MinChannel(c) == MaxChannel(c) || MaxChannel(c) != 0
  {
  }

  /** The set-up of `adjusted_colours(image, base, tint)`: the hue offset
      `final_hue - start_hue` and the factors `final_sat / start_sat` and
      `final_val / start_val`. A base colour without saturation (a grey)
      divides by zero (`None`); otherwise the value divisor is non-zero too. */
  function TintFactorsOf(base: Rgb, tint: Rgb): (f: Option<TintFactors>)
    requires InByteRange(base) && InByteRange(tint)
    ensures f.Some? <==> MinChannel(base) != MaxChannel(base)
    ensures f.Some? ==> -1.0 < f.value.hueOffset < 1.0
    ensures f.Some? ==> f.value.satFactor >= 0.0 && f.value.valFactor >= 0.0
  {
    ByteColourConvertible(base);
    ByteColourConvertible(tint);
    var start := RgbIntToHsv(base);
    var final := RgbIntToHsv(tint);
    if start.s == 0.0 then Option.None
    else
      assert start.v > 0.0;
      Some(TintFactors(final.h - start.h, final.s / start.s, final.v / start.v))
  }

  /** `adjust_pixel_colour` in HSV: the hue turned by the offset and wrapped
      with `% 1.0`, saturation and value scaled and clamped to [0, 1]. Whatever
      the factors and the input, the result is a valid HSV triple. */
  function AdjustPixel(f: TintFactors, hsv: Hsv): (r: Hsv)
    ensures InHsvRange(r)
  {
    Hsv(FracPart(hsv.h + f.hueOffset),
        ClampReal(hsv.s * f.satFactor, 0.0, 1.0),
        ClampReal(hsv.v * f.valFactor, 0.0, 1.0))
  }

  /** `adjust_pixel_colour(r, g, b)`: the colour (with channels in [0, 1], as
      the lookup table samples them) converted to HSV, adjusted, and converted
      back with `colorsys.hsv_to_rgb` (the parameter `hsvToRgb`). */
  function AdjustPixelColour(hsvToRgb: Hsv -> RealRgb, f: TintFactors, c: RealRgb): (r: RealRgb)
    requires InUnitCube(c)
    ensures (forall hsv :: InHsvRange(hsv) ==> InUnitCube(hsvToRgb(hsv))) ==> InUnitCube(r)
  {
    hsvToRgb(AdjustPixel(f, RgbToHsv(c)))
  }

  /** Every shipped folder style can be tinted with every byte colour: no
      base colour is a grey. */
  lemma ShippedStylesTintable(style: FolderStyle, tint: Rgb)
    requires InByteRange(tint)
    ensures TintFactorsOf(style.BaseColour(), tint).Some?
  {
    FolderStyleTableFacts(style);
  }

  lemma FracPartOfUnit(h: real)
    requires 0.0 <= h < 1.0
    ensures FracPart(h) == h
  {
    assert h.Floor == 0;
  }

  /** The factors built from a start and a final HSV triple carry the start
      onto the final one. */
  lemma {:induction false} FactorsCarryStartToFinal(start: Hsv, final: Hsv)
    requires start.s > 0.0 && start.v > 0.0 && InHsvRange(final)
    ensures AdjustPixel(TintFactors(final.h - start.h, final.s / start.s, final.v / start.v), start) == final
  {
    assert start.h + (final.h - start.h) == final.h;
    FracPartOfUnit(final.h);
    assert start.s * (final.s / start.s) == final.s;
    assert start.v * (final.v / start.v) == final.v;
  }

  /** The design of the tint: adjusting the base colour's own HSV gives
      exactly the tint colour's HSV. */
  lemma BaseColourMapsToTint(base: Rgb, tint: Rgb)
    requires InByteRange(base) && InByteRange(tint)
    requires MinChannel(base) != MaxChannel(base)
    ensures AdjustPixel(TintFactorsOf(base, tint).value, RgbIntToHsv(base)) == RgbIntToHsv(tint)
  {
    ByteColourConvertible(base);
    ByteColourConvertible(tint);
    var start, final := RgbIntToHsv(base), RgbIntToHsv(tint);
    assert TintFactorsOf(base, tint).value ==
           TintFactors(final.h - start.h, final.s / start.s, final.v / start.v);
    FactorsCarryStartToFinal(start, final);
  }

  /** The factors (0, 1, 1) leave every valid HSV triple as it is. */
  lemma {:induction false} NeutralFactorsKeepPixel(hsv: Hsv)
    requires InHsvRange(hsv)
    ensures AdjustPixel(TintFactors(0.0, 1.0, 1.0), hsv) == hsv
  {
    FracPartOfUnit(hsv.h);
  }

  /** Tinting with the base colour itself changes nothing: the factors are
      (0, 1, 1) and the rule is the identity on valid HSV triples. */
  lemma {:induction false} TintWithBaseIsIdentity(base: Rgb, hsv: Hsv)
    requires InByteRange(base) && MinChannel(base) != MaxChannel(base)
    requires InHsvRange(hsv)
    ensures TintFactorsOf(base, base) == Some(TintFactors(0.0, 1.0, 1.0))
    ensures AdjustPixel(TintFactorsOf(base, base).value, hsv) == hsv
  {
    ByteColourConvertible(base);
    var start := RgbIntToHsv(base);
    assert start.s != 0.0 && start.v != 0.0;
    assert TintFactorsOf(base, base) == Some(TintFactors(start.h - start.h, start.s / start.s, start.v / start.v));
    SelfFactorsNeutral(start);
    NeutralFactorsKeepPixel(hsv);
  }

  lemma SelfFactorsNeutral(start: Hsv)
    requires start.s != 0.0 && start.v != 0.0
    ensures TintFactors(start.h - start.h, start.s / start.s, start.v / start.v) == TintFactors(0.0, 1.0, 1.0)
  {
  }

  /** With `colorsys.hsv_to_rgb` undoing `colorsys.rgb_to_hsv`, the lookup
      table's rule sends the base colour (scaled to [0, 1]) to the tint colour. */
  lemma {:induction false} BaseColourPixelBecomesTint(hsvToRgb: Hsv -> RealRgb, base: Rgb, tint: Rgb)
    requires InByteRange(base) && InByteRange(tint)
    requires MinChannel(base) != MaxChannel(base)
    requires forall c :: InUnitCube(c) ==> hsvToRgb(RgbToHsv(c)) == c
    ensures AdjustPixelColour(hsvToRgb, TintFactorsOf(base, tint).value, ToUnit(base)) == ToUnit(tint)
  {
    ToUnitOrder(base);
    ToUnitOrder(tint);
    BaseColourMapsToTint(base, tint);
    assert RgbToHsv(ToUnit(base)) == RgbIntToHsv(base);
    assert RgbToHsv(ToUnit(tint)) == RgbIntToHsv(tint);
  }
}
