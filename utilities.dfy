/** Colour, maths and file-name helpers of fancyfolders/utilities.py. */
module Utilities {
  import opened Numerics

  /** An RGB colour with integer channels; the app keeps them in 0..255. */
  datatype Rgb = Rgb(r: int, g: int, b: int)

  /** A colour with real channels, as `colorsys` produces and consumes them. */
  datatype RealRgb = RealRgb(r: real, g: real, b: real)

  /** Hue, saturation and value, each a float in the source. */
  datatype Hsv = Hsv(h: real, s: real, v: real)

  predicate IsByte(n: int) { 0 <= n <= 255 }

  predicate InByteRange(c: Rgb) { IsByte(c.r) && IsByte(c.g) && IsByte(c.b) }

  predicate InUnit(x: real) { 0.0 <= x <= 1.0 }

  predicate InUnitCube(c: RealRgb) { InUnit(c.r) && InUnit(c.g) && InUnit(c.b) }

  /** An HSV triple as `colorsys.rgb_to_hsv` returns it for channels in [0, 1]. */
  predicate InHsvRange(c: Hsv) { 0.0 <= c.h < 1.0 && InUnit(c.s) && InUnit(c.v) }

  function Min(a: int, b: int): int { if a <= b then a else b }

  function Max(a: int, b: int): int { if a <= b then b else a }

  function MaxReal(a: real, b: real): real { if a <= b then b else a }

  function MinReal(a: real, b: real): real { if a <= b then a else b }

  function Max3(a: real, b: real, c: real): real { MaxReal(MaxReal(a, b), c) }

  function Min3(a: real, b: real, c: real): real { MinReal(MinReal(a, b), c) }

  function MaxChannel(c: Rgb): int { Max(Max(c.r, c.g), c.b) }

  function MinChannel(c: Rgb): int { Min(Min(c.r, c.g), c.b) }

  //////////////////////////////////////////////////////////////////////
  // clamp
  //////////////////////////////////////////////////////////////////////

  /** `clamp(n, min_value, max_value)` on integers. */
  function Clamp(n: int, lo: int, hi: int): (r: int)
    ensures lo <= hi ==> lo <= r <= hi
    ensures lo <= n <= hi ==> r == n
    ensures lo <= hi && n < lo ==> r == lo
    ensures n > hi ==> r == hi
  {
    Min(Max(n, lo), hi)
  }

  /** `clamp(n, min_value, max_value)` on floats (the same Python function). */
  function ClampReal(n: real, lo: real, hi: real): (r: real)
    ensures lo <= hi ==> lo <= r <= hi
    ensures lo <= n <= hi ==> r == n
    ensures lo <= hi && n < lo ==> r == lo
    ensures n > hi ==> r == hi
  {
    MinReal(MaxReal(n, lo), hi)
  }

  /** Clamping twice to the same range is clamping once. */
  lemma ClampIdempotent(n: int, lo: int, hi: int)
    requires lo <= hi
    ensures Clamp(Clamp(n, lo, hi), lo, hi) == Clamp(n, lo, hi)
  {
  }

  /** Clamping is monotone in the clamped value. */
  lemma ClampRealMonotone(x: real, y: real, lo: real, hi: real)
    requires x <= y
    ensures ClampReal(x, lo, hi) <= ClampReal(y, lo, hi)
  {
  }

  //////////////////////////////////////////////////////////////////////
  // divided_colour
  //////////////////////////////////////////////////////////////////////

  /** One channel of `divided_colour`: `clamp(int((255 * final) / start), 0, 255)`.
      A zero starting channel raises ZeroDivisionError in the source. */
  function DividedChannel(start: int, final: int): (r: int)
    requires start != 0
    ensures IsByte(r)
    ensures start > 0 && final >= 0 ==> r == Min(255, (255 * final) / start)
  {
    TruncQuotientWhenNonNeg(255 * final, start);
    Clamp(Trunc((255 * final) as real / start as real), 0, 255)
  }

  /** An unchanged channel divides to full brightness. */
  lemma DividedChannelOfEqual(start: int)
    requires start > 0
    ensures DividedChannel(start, start) == 255
  {
    assert (255 * start) as real / start as real == 255.0;
    TruncOfInt(255);
  }

  predicate NoZeroChannel(c: Rgb) { c.r != 0 && c.g != 0 && c.b != 0 }

  /** `divided_colour(starting_colour, final_colour)`: the colour that, multiplied
      onto `starting_colour`, gives back `final_colour`. */
  function DividedColour(starting: Rgb, final: Rgb): (r: Rgb)
    requires NoZeroChannel(starting)
    ensures InByteRange(r)
    ensures r == Rgb(DividedChannel(starting.r, final.r),
                     DividedChannel(starting.g, final.g),
                     DividedChannel(starting.b, final.b))
  {
    Rgb(DividedChannel(starting.r, final.r),
        DividedChannel(starting.g, final.g),
        DividedChannel(starting.b, final.b))
  }

  /** One channel of PIL's `ImageChops.multiply`: `a * b / 255`, rounded down.
      The formula is PIL's; the repository only calls it. */
  function MultiplyChannel(a: int, b: int): int
    requires IsByte(a) && IsByte(b)
  {
    a * b / 255
  }

  /** The purpose of `divided_colour`: for a final channel no brighter than the
      starting one, multiplying the starting channel by the divided channel gives
      the final channel back, at most one unit darker. */
  lemma DividedChannelInvertsMultiply(start: int, final: int)
    requires 0 <= final <= start <= 255 && start > 0
    ensures final - 1 <= MultiplyChannel(start, DividedChannel(start, final)) <= final
  {
    var d := (255 * final) / start;
    assert d <= 255 by {
      DivMonotone(255 * final, 255 * start, start);
      MulDivCancel(255, start);
    }
    assert DividedChannel(start, final) == d;
    var p := start * d;
    assert p <= 255 * final && 255 * final < p + start by {
      assert 255 * final == d * start + (255 * final) % start;
    }
    assert p / 255 <= final;
    assert p > 255 * (final - 1);
    assert p / 255 >= final - 1;
  }

  lemma MulAtLeast(n: int, d: int)
    requires n >= 1 && d >= 0
    ensures n * d >= d
  {
    assert n * d == (n - 1) * d + d;
  }

  /** The quotient is the only `q` with `q * d <= a < q * d + d`. */
  lemma DivUnique(a: int, d: int, q: int)
    requires d > 0 && q * d <= a < q * d + d
    ensures a / d == q
  {
    var q', r' := a / d, a % d;
    assert a == q' * d + r' && 0 <= r' < d;
    if q' < q {
      MulAtLeast(q - q', d);
    } else if q' > q {
      MulAtLeast(q' - q, d);
    }
  }

  /** Multiplying by a positive divisor and dividing again is the identity. */
  lemma MulDivCancel(k: int, d: int)
    requires d > 0
    ensures (k * d) / d == k && (d * k) / d == k
  {
    DivUnique(k * d, d, k);
    assert d * k == k * d;
  }

  lemma DivMonotone(a: int, b: int, d: int)
    requires 0 <= a <= b && d > 0
    ensures a / d <= b / d
  {
    var qa, qb := a / d, b / d;
    assert qa * d <= a;
    assert b < (qb + 1) * d;
    assert qa * d < (qb + 1) * d;
  }

  //////////////////////////////////////////////////////////////////////
  // rgb_int_to_hsv, hsv_to_rgb_int
  //////////////////////////////////////////////////////////////////////

  /** Python's `colorsys.rgb_to_hsv`, exact over reals. The conversion lives in
      Python's standard library, outside the repository; it is stated here so
      that the saturation and value divisors of the tint can be reasoned about.
      A colour whose maximum is 0 but whose minimum is negative would divide by
      zero. */
  function RgbToHsv(c: RealRgb): (hsv: Hsv)
    requires Min3(c.r, c.g, c.b) == Max3(c.r, c.g, c.b) || Max3(c.r, c.g, c.b) != 0.0
    ensures hsv.v == Max3(c.r, c.g, c.b)
    ensures hsv.s == 0.0 <==> Min3(c.r, c.g, c.b) == Max3(c.r, c.g, c.b)
    ensures 0.0 <= hsv.h < 1.0
    ensures InUnitCube(c) ==> InHsvRange(hsv)
  {
    var maxc := Max3(c.r, c.g, c.b);
    var minc := Min3(c.r, c.g, c.b);
    if minc == maxc then Hsv(0.0, 0.0, maxc)
    else
      var s := (maxc - minc) / maxc;
      var rc := (maxc - c.r) / (maxc - minc);
      var gc := (maxc - c.g) / (maxc - minc);
      var bc := (maxc - c.b) / (maxc - minc);
      var h := if c.r == maxc then bc - gc
               else if c.g == maxc then 2.0 + rc - bc
               else 4.0 + gc - rc;
      assert minc >= 0.0 ==> 0.0 <= s <= 1.0 by {
        if minc >= 0.0 {
          RealDivUnit(maxc - minc, maxc);
        }
      }
      Hsv(FracPart(h / 6.0), s, maxc)
  }

  /** `rgb_int_to_hsv`: divide each channel by 255, then `colorsys.rgb_to_hsv`. */
  function RgbIntToHsv(c: Rgb): (hsv: Hsv)
    requires MinChannel(c) == MaxChannel(c) || MaxChannel(c) != 0
    ensures hsv.v == MaxChannel(c) as real / 255.0
    ensures hsv.s == 0.0 <==> MinChannel(c) == MaxChannel(c)
    ensures InByteRange(c) ==> InHsvRange(hsv)
  {
    var f := ToUnit(c);
    ToUnitOrder(c);
    RgbToHsv(f)
  }

  function ToUnit(c: Rgb): RealRgb
  {
    RealRgb(c.r as real / 255.0, c.g as real / 255.0, c.b as real / 255.0)
  }

  /** Dividing by 255 keeps the order of the channels, so it keeps the
      maximum and minimum channel. */
  lemma ToUnitOrder(c: Rgb)
    ensures Max3(ToUnit(c).r, ToUnit(c).g, ToUnit(c).b) == MaxChannel(c) as real / 255.0
    ensures Min3(ToUnit(c).r, ToUnit(c).g, ToUnit(c).b) == MinChannel(c) as real / 255.0
    ensures InByteRange(c) ==> InUnitCube(ToUnit(c))
  {
  }

  /** One channel of `hsv_to_rgb_int`: `int(colour * 255)`. */
  function ToByte(x: real): (n: int)
    ensures InUnit(x) ==> IsByte(n)
  {
    Trunc(x * 255.0)
  }

  /** `hsv_to_rgb_int`: `colorsys.hsv_to_rgb` (a parameter of the model, as it
      lives in Python's standard library), then each channel scaled to 255 and
      truncated. */
  function HsvToRgbInt(hsvToRgb: Hsv -> RealRgb, hsv: Hsv): (c: Rgb)
    ensures InUnitCube(hsvToRgb(hsv)) ==> InByteRange(c)
  {
    var f := hsvToRgb(hsv);
    Rgb(ToByte(f.r), ToByte(f.g), ToByte(f.b))
  }

  /** Scaling a byte down to [0, 1] and back up with truncation is the
      identity, so `hsv_to_rgb_int` undoes the division in `rgb_int_to_hsv`
      channel by channel. */
  lemma ToByteInvertsToUnit(n: int)
    requires IsByte(n)
    ensures ToByte(n as real / 255.0) == n
  {
    assert (n as real / 255.0) * 255.0 == n as real;
    TruncOfInt(n);
  }

  //////////////////////////////////////////////////////////////////////
  // interpolate, interpolate_int_to_float_with_midpoint
  //////////////////////////////////////////////////////////////////////

  /** `interpolate(value, pre_min, pre_max, post_min, post_max)`: the line
      through (pre_min, post_min) and (pre_max, post_max), written in the source
      in a single-fraction form. Equal `pre_min` and `pre_max` divide by zero. */
  function Interpolate(value: real, preMin: real, preMax: real, postMin: real, postMax: real): (r: real)
    requires preMax != preMin
    ensures r == Line(value, preMin, postMin, postMax - postMin, preMax - preMin)
    ensures value == preMin ==> r == postMin
    ensures value == preMax ==> r == postMax
  {
    var r := ((postMax - postMin) * value + preMax * postMin - preMin * postMax) / (preMax - preMin);
    assert (postMax - postMin) * value + preMax * postMin - preMin * postMax
        == postMin * (preMax - preMin) + (value - preMin) * (postMax - postMin);
    r
  }

  /** With a rising pre-range and a non-falling post-range, interpolation is
      monotone. */
  lemma InterpolateMonotone(x: real, y: real, preMin: real, preMax: real, postMin: real, postMax: real)
    requires preMin < preMax && postMin <= postMax && x <= y
    ensures Interpolate(x, preMin, preMax, postMin, postMax) <= Interpolate(y, preMin, preMax, postMin, postMax)
  {
    LineMonotone(x, y, preMin, postMin, postMax - postMin, preMax - preMin);
  }

  /** The line through `(a, base)` with slope `s / d`, evaluated at `t`. */
  function Line(t: real, a: real, base: real, s: real, d: real): real
    requires d != 0.0
  {
    base + (t - a) * s / d
  }

  /** A line with a non-negative slope is monotone. */
  lemma LineMonotone(x: real, y: real, a: real, base: real, s: real, d: real)
    requires x <= y && s >= 0.0 && d > 0.0
    ensures Line(x, a, base, s, d) <= Line(y, a, base, s, d)
  {
    RealMulMonotone(x - a, y - a, s);
    RealDivMonotone((x - a) * s, (y - a) * s, d);
  }

  /** The midpoint as the source computes it: `int((pre_max - pre_min)/2) + 1`. */
  function PreMid(preMin: int, preMax: int): int
  {
    Trunc((preMax - preMin) as real / 2.0) + 1
  }

  /** `interpolate_int_to_float_with_midpoint` as written: two linear pieces
      meeting at `PreMid`. The piece a value falls in must not be degenerate,
      or the source divides by zero. */
  function InterpolateWithMidpoint(value: int, preMin: int, preMax: int,
                                   postMin: real, postMid: real, postMax: real): (r: real)
    requires value < PreMid(preMin, preMax) ==> PreMid(preMin, preMax) != preMin
    requires value > PreMid(preMin, preMax) ==> PreMid(preMin, preMax) != preMax
    ensures value == PreMid(preMin, preMax) ==> r == postMid
    ensures value == preMax && preMax > PreMid(preMin, preMax) ==> r == postMax
    ensures value == preMin && preMin < PreMid(preMin, preMax) ==> r == postMin
  {
    var preMid := PreMid(preMin, preMax);
    if value == preMid then postMid
    else if value < preMid then Interpolate(value as real, preMin as real, preMid as real, postMin, postMid)
    else Interpolate(value as real, preMid as real, preMax as real, postMid, postMax)
  }

  /** FINDING, as written: `PreMid` measures half the range from 0 rather than
      from `pre_min`, so for a range not starting at 1 the lower end no longer
      maps to `post_min`. Slider range 10..20 onto 0.0..1.0 with midpoint 0.5:
      `PreMid` is 6, outside the range, and the value 10 maps to 9/14. */
  lemma MidpointMisplacedForOtherRanges()
    ensures PreMid(10, 20) == 6
    ensures InterpolateWithMidpoint(10, 10, 20, 0.0, 0.5, 1.0) == 9.0 / 14.0
    ensures InterpolateWithMidpoint(10, 10, 20, 0.0, 0.5, 1.0) != 0.0
  {
    assert Trunc(10.0 / 2.0) == 5;
  }

  /** The evidently intended midpoint: half-way into the range from `pre_min`. */
  function Midpoint(preMin: int, preMax: int): int
  {
    preMin + Trunc((preMax - preMin) as real / 2.0)
  }

  /** The corrected midpoint interpolation. It needs a range of at least two
      steps so that both pieces have a non-zero width. */
  function InterpolateWithMidpointCorrected(value: int, preMin: int, preMax: int,
                                            postMin: real, postMid: real, postMax: real): (r: real)
    requires preMin + 2 <= preMax
    ensures preMin < Midpoint(preMin, preMax) < preMax
    ensures value == preMin ==> r == postMin
    ensures value == Midpoint(preMin, preMax) ==> r == postMid
    ensures value == preMax ==> r == postMax
  {
    var preMid := Midpoint(preMin, preMax);
    TruncQuotient(preMax - preMin, 2);
    if value == preMid then postMid
    else if value < preMid then Interpolate(value as real, preMin as real, preMid as real, postMin, postMid)
    else Interpolate(value as real, preMid as real, preMax as real, postMid, postMax)
  }

  /** Corrected: both linear pieces agree at the midpoint, so the mapping is
      continuous, and for ordered targets it is monotone over the whole range. */
  lemma {:induction false} CorrectedMidpointMonotone(x: int, y: int, preMin: int, preMax: int,
                                                     postMin: real, postMid: real, postMax: real)
    requires preMin + 2 <= preMax && x <= y
    requires postMin <= postMid <= postMax
    ensures InterpolateWithMidpointCorrected(x, preMin, preMax, postMin, postMid, postMax)
         <= InterpolateWithMidpointCorrected(y, preMin, preMax, postMin, postMid, postMax)
  {
    var m := Midpoint(preMin, preMax);
    TruncQuotient(preMax - preMin, 2);
    var lo := preMin as real;
    var mid := m as real;
    var hi := preMax as real;
    if x < m && y < m {
      InterpolateMonotone(x as real, y as real, lo, mid, postMin, postMid);
    } else if x > m && y > m {
      InterpolateMonotone(x as real, y as real, mid, hi, postMid, postMax);
    } else if x < m {
      InterpolateMonotone(x as real, mid, lo, mid, postMin, postMid);
      if y > m {
        InterpolateMonotone(mid, y as real, mid, hi, postMid, postMax);
      }
    } else if y > m {
      InterpolateMonotone(mid, y as real, mid, hi, postMid, postMax);
    }
  }

  /** The as-written and the corrected versions agree whenever the range
      starts at 1, which is the only range the application uses. */
  lemma MidpointAgreesFromOne(value: int, preMax: int, postMin: real, postMid: real, postMax: real)
    requires 3 <= preMax
    ensures PreMid(1, preMax) == Midpoint(1, preMax)
    ensures InterpolateWithMidpoint(value, 1, preMax, postMin, postMid, postMax)
         == InterpolateWithMidpointCorrected(value, 1, preMax, postMin, postMid, postMax)
  {
    TruncQuotient(preMax - 1, 2);
  }

  /** `ScaleThicknessSliders.get_scale`: slider 1..31 onto 0.1..1.5 with 1.0 at
      the middle tick. Uses the corrected interpolation, which agrees with the
      source's on this range. */
  function SliderScale(value: int): (r: real)
    requires 1 <= value <= 31
    ensures 0.1 <= r <= 1.5
    ensures r == InterpolateWithMidpoint(value, 1, 31, 0.1, 1.0, 1.5)
  {
    MidpointAgreesFromOne(value, 31, 0.1, 1.0, 1.5);
    CorrectedMidpointMonotone(1, value, 1, 31, 0.1, 1.0, 1.5);
    CorrectedMidpointMonotone(value, 31, 1, 31, 0.1, 1.0, 1.5);
    InterpolateWithMidpointCorrected(value, 1, 31, 0.1, 1.0, 1.5)
  }

  /** The slider's ends and centre tick give the minimum scale, the neutral
      scale 1.0 and the maximum scale. */
  lemma SliderScaleLandmarks()
    ensures SliderScale(1) == 0.1 && SliderScale(16) == 1.0 && SliderScale(31) == 1.5
  {
    assert Midpoint(1, 31) == 16 by { TruncQuotient(30, 2); }
  }

  //////////////////////////////////////////////////////////////////////
  // generate_unique_folder_filename
  //////////////////////////////////////////////////////////////////////

  function DigitChar(d: int): char
    requires 0 <= d < 10
  {
    "0123456789"[d]
  }

  function DigitValue(c: char): int
  {
    if '0' <= c <= '9' then c as int - '0' as int else 0
  }

  /** `"{}".format(n)` for a natural number: its decimal digits. */
  function Decimal(n: nat): (s: string)
    ensures |s| >= 1
    ensures forall i :: 0 <= i < |s| ==> '0' <= s[i] <= '9'
    decreases n
  {
    if n < 10 then [DigitChar(n)] else Decimal(n / 10) + [DigitChar(n % 10)]
  }

  /** Reads a string of decimal digits back as a number. */
  function DecimalValue(s: string): nat
  {
    if s == [] then 0 else 10 * DecimalValue(s[..|s| - 1]) + DigitValue(s[|s| - 1])
  }

  /** Reading back the decimal digits of `n` gives `n`. */
  lemma {:induction false} DecimalRoundTrip(n: nat)
    ensures DecimalValue(Decimal(n)) == n
  {
    if n >= 10 {
      var s := Decimal(n);
      assert s[..|s| - 1] == Decimal(n / 10);
      DecimalRoundTrip(n / 10);
    }
  }

  /** So distinct numbers have distinct decimal strings. */
  lemma DecimalInjective(a: nat, b: nat)
    requires Decimal(a) == Decimal(b)
    ensures a == b
  {
    DecimalRoundTrip(a);
    DecimalRoundTrip(b);
  }

  /** The candidate name for `index`: "untitled folder", then
      "untitled folder 2", "untitled folder 3", ... */
  function FolderName(index: nat): string
  {
    "untitled folder" + (if index == 1 then "" else " " + Decimal(index))
  }

  /** `os.path.join(directory, name)` for a relative `name` (POSIX rules). */
  function JoinPath(directory: string, name: string): string
  {
    if directory == [] || directory[|directory| - 1] == '/' then directory + name
    else directory + "/" + name
  }

  function CandidatePath(directory: string, index: nat): string
  {
    JoinPath(directory, FolderName(index))
  }

  /** Different indices give different candidate paths in the same directory. */
  lemma CandidatePathInjective(directory: string, i: nat, j: nat)
    requires i >= 1 && j >= 1 && i != j
    ensures CandidatePath(directory, i) != CandidatePath(directory, j)
  {
    var prefix := if directory == [] || directory[|directory| - 1] == '/' then directory else directory + "/";
    assert CandidatePath(directory, i) == prefix + FolderName(i);
    assert CandidatePath(directory, j) == prefix + FolderName(j);
    if i == 1 || j == 1 {
      assert |FolderName(i)| != |FolderName(j)|;
    } else {
      assert FolderName(i)[16..] == Decimal(i);
      assert FolderName(j)[16..] == Decimal(j);
      if Decimal(i) == Decimal(j) {
        DecimalInjective(i, j);
      }
    }
    assert (prefix + FolderName(i))[|prefix|..] == FolderName(i);
    assert (prefix + FolderName(j))[|prefix|..] == FolderName(j);
  }

  /** The paths tried before `index`. */
  function TriedPaths(directory: string, index: nat): set<string>
  {
    set j | 1 <= j < index :: CandidatePath(directory, j)
  }

  /** The paths tried before `index` are `index - 1` distinct paths. */
  lemma {:induction false} TriedPathsCount(directory: string, index: nat)
    requires index >= 1
    ensures |TriedPaths(directory, index)| == index - 1
  {
    if index > 1 {
      TriedPathsCount(directory, index - 1);
      var p := CandidatePath(directory, index - 1);
      assert TriedPaths(directory, index) == TriedPaths(directory, index - 1) + {p};
      if p in TriedPaths(directory, index - 1) {
        var j :| 1 <= j < index - 1 && p == CandidatePath(directory, j);
        CandidatePathInjective(directory, j, index - 1);
      }
    }
  }

  /** The file system as far as the search sees it: the set of existing paths. */
  class FileSystem {
    var paths: set<string>

    constructor (existing: set<string>)
      ensures paths == existing
    {
      paths := existing;
    }

    /** `os.path.exists(path)`. */
    method Exists(path: string) returns (b: bool)
      ensures b <==> path in paths
    {
      b := path in paths;
    }

    /** `os.mkdir(path)`: fails (FileExistsError) when the path exists. */
    method MakeDir(path: string) returns (ok: bool)
      modifies this
      ensures ok <==> path !in old(paths)
      ensures paths == old(paths) + {path}
    {
      ok := path !in paths;
      paths := paths + {path};
    }
  }

  /** `generate_unique_folder_filename(directory)`: tries the candidate names in
      order and creates the first one that does not exist. The search ends because
      every failed try is a distinct existing path and there are finitely many. */
  method GenerateUniqueFolderFilename(fs: FileSystem, directory: string) returns (path: string, ghost index: nat)
    modifies fs
    ensures index >= 1 && path == CandidatePath(directory, index)
    ensures path !in old(fs.paths)
    ensures fs.paths == old(fs.paths) + {path}
    ensures forall j :: 1 <= j < index ==> CandidatePath(directory, j) in old(fs.paths)
  {
    var i := 1;
    while true
      invariant i >= 1
      invariant fs.paths == old(fs.paths)
      invariant TriedPaths(directory, i) <= fs.paths
      decreases |fs.paths| - (i - 1)
    {
      TriedPathsFit(directory, i, fs.paths);
      path := CandidatePath(directory, i);
      var taken := fs.Exists(path);
      if !taken {
        var _ := fs.MakeDir(path);
        index := i;
        TriedPathsMembers(directory, i);
        return;
      }
      TriedPathsStep(directory, i);
      TriedPathsFit(directory, i + 1, fs.paths);
      i := i + 1;
    }
  }

  /** The tries before `index` fit among the existing paths only when there
      are at least `index - 1` of them. */
  lemma TriedPathsFit(directory: string, index: nat, paths: set<string>)
    requires index >= 1 && TriedPaths(directory, index) <= paths
    ensures index - 1 <= |paths|
  {
    TriedPathsCount(directory, index);
    SubsetCard(TriedPaths(directory, index), paths);
  }

  lemma TriedPathsStep(directory: string, index: nat)
    requires index >= 1
    ensures TriedPaths(directory, index + 1) == TriedPaths(directory, index) + {CandidatePath(directory, index)}
  {
  }

  lemma TriedPathsMembers(directory: string, index: nat)
    ensures forall j :: 1 <= j < index ==> CandidatePath(directory, j) in TriedPaths(directory, index)
  {
    forall j | 1 <= j < index
      ensures CandidatePath(directory, j) in TriedPaths(directory, index)
    {
    }
  }

  lemma SubsetCard<T>(a: set<T>, b: set<T>)
    requires a <= b
    ensures |a| <= |b|
  {
    assert b == a + (b - a);
  }
}
