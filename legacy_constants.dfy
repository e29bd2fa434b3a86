/** The older lookup tables of customfoldericons/constants.py. */
module LegacyConstants {
  import opened Utilities
  import opened Wrappers
  import Constants

  datatype FolderStyle = BigSurLight | BigSurDark | Catalina
  {
    /** Values start at 1 here, not at 0 as in the newer table. */
    function Value(): int
    {
      match this
      case BigSurLight => 1
      case BigSurDark => 2
      case Catalina => 3
    }

    function Filename(): string
    {
      match this
      case BigSurLight => "big_sur_light.png"
      case BigSurDark => "big_sur_dark.png"
      case Catalina => "catalina.png"
    }

    function Size(): int
    {
      match this
      case BigSurLight => 1024
      case BigSurDark => 1024
      case Catalina => 1024
    }

    /** The same box for all three styles (Catalina's is marked as possibly
        needing its own). */
    function IconBoxPercentages(): Constants.FractionBox
    {
      match this
      case BigSurLight => Constants.FractionBox(0.086, 0.29, 0.914, 0.777)
      case BigSurDark => Constants.FractionBox(0.086, 0.29, 0.914, 0.777)
      case Catalina => Constants.FractionBox(0.086, 0.29, 0.914, 0.777)
    }

    function BaseColour(): Rgb
    {
      match this
      case BigSurLight => Rgb(116, 208, 251)
      case BigSurDark => Rgb(96, 208, 255)
      case Catalina => Rgb(120, 210, 251)
    }

    function IconColour(): Rgb
    {
      match this
      case BigSurLight => Rgb(63, 170, 229)
      case BigSurDark => Rgb(53, 160, 225)
      case Catalina => Rgb(63, 170, 229)
    }
  }

  /** `FolderStyle(value)`: ValueError (here `None`) for an unknown value. */
  function FolderStyleOf(value: int): (s: Option<FolderStyle>)
    ensures s.Some? <==> 1 <= value <= 3
    ensures s.Some? ==> s.value.Value() == value
  {
    if value == 1 then Some(BigSurLight)
    else if value == 2 then Some(BigSurDark)
    else if value == 3 then Some(Catalina)
    else None
  }

  /** Per style: values 1..3 contiguous, size 1024, one shared well-formed icon
      box, base channels positive, icon colour channel-wise no brighter than
      the base colour, and distinct filenames. */
  lemma LegacyFolderStyleFacts(s: FolderStyle, t: FolderStyle)
    ensures FolderStyleOf(s.Value()) == Some(s)
    ensures s.Size() == 1024
    ensures s.IconBoxPercentages() == t.IconBoxPercentages()
    ensures Constants.WellFormedFractions(s.IconBoxPercentages())
    ensures MinChannel(s.BaseColour()) > 0
    ensures Constants.ChannelwiseAtMost(s.IconColour(), s.BaseColour())
    ensures s != t ==> s.Filename() != t.Filename()
  {
  }

  /** The older table agrees with the newer one on every style's filename,
      size and colours; only the enum values differ (shifted by one). */
  lemma LegacyAgreesWithCurrent(s: FolderStyle)
    ensures var c := Constants.FolderStyleOf(s.Value() - 1);
            c.Some? &&
            c.value.Filename() == s.Filename() &&
            c.value.Size() == s.Size() &&
            c.value.BaseColour() == s.BaseColour() &&
            c.value.IconColour() == s.IconColour()
  {
  }

  datatype SFFont = Ultralight | Thin | Regular | Medium | Semibold | Bold | Heavy | Black
  {
    function Value(): int
    {
      match this
      case Ultralight => 1
      case Thin => 2
      case Regular => 3
      case Medium => 4
      case Semibold => 5
      case Bold => 6
      case Heavy => 7
      case Black => 8
    }

    /** Note the lower-case "semibold", unlike the newer table. */
    function Filename(): string
    {
      match this
      case Ultralight => "SF-Pro-Text-Ultralight.otf"
      case Thin => "SF-Pro-Text-Thin.otf"
      case Regular => "SF-Pro-Text-Regular.otf"
      case Medium => "SF-Pro-Text-Medium.otf"
      case Semibold => "SF-Pro-Text-semibold.otf"
      case Bold => "SF-Pro-Text-Bold.otf"
      case Heavy => "SF-Pro-Text-Heavy.otf"
      case Black => "SF-Pro-Text-Black.otf"
    }
  }

  function SFFontOf(value: int): (f: Option<SFFont>)
    ensures f.Some? <==> 1 <= value <= 8
    ensures f.Some? ==> f.value.Value() == value
  {
    match value
    case 1 => Some(Ultralight)
    case 2 => Some(Thin)
    case 3 => Some(Regular)
    case 4 => Some(Medium)
    case 5 => Some(Semibold)
    case 6 => Some(Bold)
    case 7 => Some(Heavy)
    case 8 => Some(Black)
    case _ => None
  }

  /** Font values 1..8 are contiguous and the filenames pairwise distinct. */
  lemma LegacySFFontFacts(a: SFFont, b: SFFont)
    ensures SFFontOf(a.Value()) == Some(a)
    ensures a != b ==> a.Filename() != b.Filename()
  {
  }
}
