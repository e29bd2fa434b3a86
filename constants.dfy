/** The enum tables and tuning constants of fancyfolders/constants.py. */
module Constants {
  import opened Utilities
  import opened Wrappers

  // UI
  const PreviewImageSize: int := 350
  const IconScaleSliderMax: int := 31
  const MaximumIconScaleValue: real := 1.5
  const MinimumIconScaleValue: real := 0.1

  // Icon generation
  const FolderShadowIncreaseFactor: real := 1.9
  const InnerShadowColourScalingFactor: real := 0.9
  const InnerShadowBlur: int := 3
  /** Fraction of the icon height. */
  const InnerShadowYOffset: real := 0.00293
  const OuterHighlightBlur: int := 6
  /** Fraction of the icon height. */
  const OuterHighlightYOffset: real := 0.00782
  const IconBoxScalingFactor: real := 0.84

  const BackupFonts: seq<string> := ["SFNS.ttf", "System San Francisco Text Medium.ttf"]

  /** Four fractions (x1, y1, x2, y2) of the icon's edge length. */
  datatype FractionBox = FractionBox(x1: real, y1: real, x2: real, y2: real)

  /** All four fractions in [0, 1], with x1 < x2 and y1 < y2. */
  predicate WellFormedFractions(b: FractionBox)
  {
    0.0 <= b.x1 < b.x2 <= 1.0 && 0.0 <= b.y1 < b.y2 <= 1.0
  }

  predicate ChannelwiseAtMost(a: Rgb, b: Rgb)
  {
    a.r <= b.r && a.g <= b.g && a.b <= b.b
  }

  datatype IconGenerationMethod = None | Image | Text
  {
    function Value(): int
    {
      match this
      case None => 0
      case Image => 1
      case Text => 2
    }
  }

  /** `IconGenerationMethod(value)`: ValueError (here `None`) for an unknown value. */
  function IconGenerationMethodOf(value: int): (m: Option<IconGenerationMethod>)
    ensures m.Some? <==> 0 <= value <= 2
    ensures m.Some? ==> m.value.Value() == value
  {
    if value == 0 then Some(IconGenerationMethod.None)
    else if value == 1 then Some(Image)
    else if value == 2 then Some(Text)
    else Option.None
  }

  datatype FolderStyle = BigSurLight | BigSurDark | Catalina
  {
    function Value(): int
    {
      match this
      case BigSurLight => 0
      case BigSurDark => 1
      case Catalina => 2
    }

    /** Filename of the folder image in the assets folder. */
    function Filename(): string
    {
      match this
      case BigSurLight => "big_sur_light.png"
      case BigSurDark => "big_sur_dark.png"
      case Catalina => "catalina.png"
    }

    function DisplayName(): string
    {
      match this
      case BigSurLight => "Big Sur - Light"
      case BigSurDark => "Big Sur - Dark"
      case Catalina => "Catalina"
    }

    /** Edge length of the (square) folder image in pixels. */
    function Size(): int
    {
      match this
      case BigSurLight => 1024
      case BigSurDark => 1024
      case Catalina => 1024
    }

    /** The region of the folder to draw the icon in. */
    function IconBoxPercentages(): FractionBox
    {
      match this
      case BigSurLight => FractionBox(0.086, 0.29, 0.914, 0.777)
      case BigSurDark => FractionBox(0.086, 0.29, 0.914, 0.777)
      case Catalina => FractionBox(0.0668, 0.281, 0.9332, 0.770)
    }

    /** The smallest region that holds the folder, for the preview. */
    function PreviewCropPercentages(): FractionBox
    {
      match this
      case BigSurLight => FractionBox(0.0, 0.0888, 1.0, 0.9276)
      case BigSurDark => FractionBox(0.0, 0.0888, 1.0, 0.9276)
      case Catalina => FractionBox(0.0, 0.0972, 1.0, 0.896)
    }

    /** Average colour of the folder where the icon is drawn. */
    function BaseColour(): Rgb
    {
      match this
      case BigSurLight => Rgb(116, 208, 251)
      case BigSurDark => Rgb(96, 208, 255)
      case Catalina => Rgb(120, 210, 251)
    }

    /** Average colour of the icon on default macOS folders. */
    function IconColour(): Rgb
    {
      match this
      case BigSurLight => Rgb(63, 170, 229)
      case BigSurDark => Rgb(53, 160, 225)
      case Catalina => Rgb(63, 170, 229)
    }
  }

  /** `FolderStyle(value)`: the Enum constructor, ValueError (here `None`) for
      an unknown value. */
  function FolderStyleOf(value: int): (s: Option<FolderStyle>)
    ensures s.Some? <==> 0 <= value <= 2
    ensures s.Some? ==> s.value.Value() == value
  {
    if value == 0 then Some(BigSurLight)
    else if value == 1 then Some(BigSurDark)
    else if value == 2 then Some(Catalina)
    else Option.None
  }

  /** The style values are 0, 1, 2 in declaration order, so the dropdown's
      `FolderStyle(currentIndex())` is total on its three indices and gives
      back the style whose value set the index. */
  lemma FolderStyleValuesContiguous(s: FolderStyle)
    ensures 0 <= s.Value() < 3
    ensures FolderStyleOf(s.Value()) == Some(s)
  {
  }

  /** Per style: size 1024, well-formed icon and crop boxes, base colour with
      no zero channel and with some saturation (max channel > min channel),
      icon colour no brighter than the base colour in any channel. */
  lemma FolderStyleTableFacts(s: FolderStyle)
    ensures s.Size() == 1024
    ensures WellFormedFractions(s.IconBoxPercentages())
    ensures WellFormedFractions(s.PreviewCropPercentages())
    ensures InByteRange(s.BaseColour()) && InByteRange(s.IconColour())
    ensures MinChannel(s.BaseColour()) > 0
    ensures MaxChannel(s.BaseColour()) > MinChannel(s.BaseColour())
    ensures ChannelwiseAtMost(s.IconColour(), s.BaseColour())
  {
  }

  /** Since no base channel is zero, `divided_colour(base, icon)` is defined for
      every style, and since the icon colour is no brighter, no channel of the
      centre colour hits the 255 clamp except where icon and base agree. */
  lemma CentreColourDefined(s: FolderStyle)
    ensures NoZeroChannel(s.BaseColour())
    ensures DividedColour(s.BaseColour(), s.IconColour()) ==
            Rgb((255 * s.IconColour().r) / s.BaseColour().r,
                (255 * s.IconColour().g) / s.BaseColour().g,
                (255 * s.IconColour().b) / s.BaseColour().b)
  {
    FolderStyleTableFacts(s);
    var base, icon := s.BaseColour(), s.IconColour();
    DivAtMost255(icon.r, base.r);
    DivAtMost255(icon.g, base.g);
    DivAtMost255(icon.b, base.b);
  }

  lemma DivAtMost255(f: int, s: int)
    requires 0 <= f <= s && s > 0
    ensures (255 * f) / s <= 255
  {
    DivMonotone(255 * f, 255 * s, s);
    MulDivCancel(255, s);
  }

  /** Filenames and display names tell the styles apart. */
  lemma FolderStyleNamesInjective(a: FolderStyle, b: FolderStyle)
    requires a != b
    ensures a.Filename() != b.Filename()
    ensures a.DisplayName() != b.DisplayName()
  {
  }

  datatype TintColour = Red | Melon | Orange | Yellow | Green | Teal | Purple | White | Cream
  {
    /** The enum value, a colour (r, g, b). */
    function Value(): Rgb
    {
      match this
      case Red => Rgb(255, 154, 162)
      case Melon => Rgb(255, 183, 178)
      case Orange => Rgb(255, 218, 193)
      case Yellow => Rgb(255, 236, 209)
      case Green => Rgb(226, 240, 203)
      case Teal => Rgb(181, 234, 215)
      case Purple => Rgb(199, 206, 234)
      case White => Rgb(250, 249, 246)
      case Cream => Rgb(255, 250, 240)
    }
  }

  /** Every palette colour is a valid 8-bit colour, and the values are
      pairwise distinct (so no member is an alias of another). */
  lemma TintColourFacts(a: TintColour, b: TintColour)
    ensures InByteRange(a.Value())
    ensures a != b ==> a.Value() != b.Value()
  {
  }

  datatype SFFont = Ultralight | Thin | Regular | Medium | Semibold | Bold | Heavy | Black
  {
    function Value(): int
    {
      match this
      case Ultralight => 1
      case Thin => 2
      case Regular => 3
      case Medium => 4
      case Semibold => 5
      case Bold => 6
      case Heavy => 7
      case Black => 8
    }

    function Filename(): string
    {
      match this
      case Ultralight => "SF-Pro-Text-Ultralight.otf"
      case Thin => "SF-Pro-Text-Thin.otf"
      case Regular => "SF-Pro-Text-Regular.otf"
      case Medium => "SF-Pro-Text-Medium.otf"
      case Semibold => "SF-Pro-Text-Semibold.otf"
      case Bold => "SF-Pro-Text-Bold.otf"
      case Heavy => "SF-Pro-Text-Heavy.otf"
      case Black => "SF-Pro-Text-Black.otf"
    }
  }

  /** `SFFont(value)`: ValueError (here `None`) for an unknown value. */
  function SFFontOf(value: int): (f: Option<SFFont>)
    ensures f.Some? <==> 1 <= value <= 8
    ensures f.Some? ==> f.value.Value() == value
  {
    match value
    case 1 => Some(Ultralight)
    case 2 => Some(Thin)
    case 3 => Some(Regular)
    case 4 => Some(Medium)
    case 5 => Some(Semibold)
    case 6 => Some(Bold)
    case 7 => Some(Heavy)
    case 8 => Some(Black)
    case _ => Option.None
  }

  /** The font values are 1..8, so the thickness slider's `SFFont(value)` is
      total on the slider's eight ticks and inverts `value`. */
  lemma SFFontValuesContiguous(f: SFFont)
    ensures 1 <= f.Value() <= 8
    ensures SFFontOf(f.Value()) == Some(f)
  {
  }

  lemma SFFontFilenamesInjective(a: SFFont, b: SFFont)
    requires a != b
    ensures a.Filename() != b.Filename()
  {
  }
}
