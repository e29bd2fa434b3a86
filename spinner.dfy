/** The state and the fade rule of `QWaitingSpinner`
    (fancyfolders/external/waitingspinnerwidget.py): a ring of `num_lines`
    lines, the one at the animation counter drawn in the spinner's colour and
    the ones behind it fading out. Qt's painting, the property animation's
    timing and the widget's geometry are not modelled; their effect on the
    spinner's own fields is. Floats are modelled as reals. */
module Spinner {
  import opened Numerics
  import opened Utilities

  /** `_line_count_distance_from_primary(current, primary)`: how many steps
      line `current` trails the primary line around a ring of `n` lines. */
  function LineCountDistance(current: int, primary: int, n: int): (d: int)
    ensures 0 <= current < n && 0 <= primary < n ==>
              0 <= d < n && (current + d) % n == primary && (d == 0 <==> current == primary)
  {
    var d := primary - current;
    if 0 <= current < n && 0 <= primary < n then
      if d < 0 then
        RingMod(primary, n);
        d + n
      else
        RingMod(primary, n);
        d
    else
      if d < 0 then d + n else d
  }

  /** Adding a whole turn of the ring does not move a line. */
  lemma {:induction false} RingMod(p: int, n: int)
    requires 0 <= p < n
    ensures p % n == p && (p + n) % n == p
  {
    var q, r := (p + n) / n, (p + n) % n;
    assert q * n + r == p + n && 0 <= r < n;
  }

  /** `int(math.ceil((num_lines - 1) * trail_fade_percentage / 100.0))`: the
      last distance that is still on the fading gradient. */
  function Threshold(n: int, fade: real): (t: int)
    ensures n >= 1 && fade >= 0.0 ==> t >= 0
    ensures n >= 1 && 0.0 <= fade <= 100.0 ==> t <= n - 1
  {
    ThresholdBounds(n, fade);
    Ceil((n - 1) as real * fade / 100.0)
  }

  lemma ThresholdBounds(n: int, fade: real)
    ensures n >= 1 && fade >= 0.0 ==> (n - 1) as real * fade / 100.0 >= 0.0
    ensures n >= 1 && 0.0 <= fade <= 100.0 ==> (n - 1) as real * fade / 100.0 <= (n - 1) as real
  {
    if n >= 1 && fade >= 0.0 {
      RealMulMonotone(0.0, fade, (n - 1) as real);
      if fade <= 100.0 {
        RealMulMonotone(fade, 100.0, (n - 1) as real);
      }
    }
  }

  /** `_current_line_color(count_distance).alphaF()` for a colour of alpha
      `baseAlpha`: the primary line keeps the colour's alpha, lines beyond the
      threshold get the minimum trail opacity, and the lines between descend
      linearly towards it, clipped to [0, 1]. The gradient divides by
      `threshold + 1`, which is zero only for a threshold of -1. */
  function LineAlpha(baseAlpha: real, minimumTrailOpacity: real, fade: real, n: int, distance: int): (a: real)
    requires distance == 0 || distance > Threshold(n, fade) || Threshold(n, fade) != -1
    ensures distance == 0 ==> a == baseAlpha
    ensures distance != 0 && distance > Threshold(n, fade) ==> a == minimumTrailOpacity / 100.0
    ensures distance != 0 && distance <= Threshold(n, fade) ==> 0.0 <= a <= 1.0
  {
    if distance == 0 then baseAlpha
    else
      var minAlpha := minimumTrailOpacity / 100.0;
      var threshold := Threshold(n, fade);
      if distance > threshold then minAlpha
      else
        TrailAlpha(baseAlpha, minAlpha, threshold, distance)
  }

  /** A line on the gradient: the alpha less `distance` steps of
      `(alpha - minimum) / (threshold + 1)`, clipped to [0, 1]. */
  function TrailAlpha(baseAlpha: real, minAlpha: real, threshold: int, distance: int): real
    requires threshold != -1
  {
    var gradient := (baseAlpha - minAlpha) / (threshold + 1) as real;
    ClampReal(baseAlpha - gradient * distance as real, 0.0, 1.0)
  }

  /** The gradient step `(alpha - minimum) / (threshold + 1)` is never negative. */
  lemma GradientNonNegative(baseAlpha: real, minAlpha: real, threshold: int)
    requires minAlpha <= baseAlpha && threshold >= 0
    ensures (baseAlpha - minAlpha) / (threshold + 1) as real >= 0.0
  {
    RealDivMonotone(0.0, baseAlpha - minAlpha, (threshold + 1) as real);
  }

  /** On the gradient the alpha never drops below the trail's minimum. */
  lemma {:induction false} GradientAboveMinimum(baseAlpha: real, minAlpha: real, threshold: int, d: int)
    requires 0.0 <= minAlpha <= baseAlpha <= 1.0 && 0 <= d <= threshold
    ensures minAlpha <= TrailAlpha(baseAlpha, minAlpha, threshold, d)
  {
    GradientNonNegative(baseAlpha, minAlpha, threshold);
    RealDivTimes(baseAlpha - minAlpha, (threshold + 1) as real);
    RealMulMonotone(d as real, (threshold + 1) as real, (baseAlpha - minAlpha) / (threshold + 1) as real);
  }

  /** A line further along the gradient is no more opaque. */
  lemma GradientDescends(baseAlpha: real, minAlpha: real, threshold: int, d1: int, d2: int)
    requires minAlpha <= baseAlpha && threshold >= 0 && 0 <= d1 <= d2
    ensures TrailAlpha(baseAlpha, minAlpha, threshold, d2) <= TrailAlpha(baseAlpha, minAlpha, threshold, d1)
  {
    GradientNonNegative(baseAlpha, minAlpha, threshold);
    var g := (baseAlpha - minAlpha) / (threshold + 1) as real;
    RealMulMonotone(d1 as real, d2 as real, g);
    ClampRealMonotone(baseAlpha - g * d2 as real, baseAlpha - g * d1 as real, 0.0, 1.0);
  }

  /** A line on the gradient is no more opaque than the primary line. */
  lemma GradientBelowBase(baseAlpha: real, minAlpha: real, threshold: int, d: int)
    requires minAlpha <= baseAlpha <= 1.0 && 0.0 <= baseAlpha && threshold >= 0 && d >= 0
    ensures TrailAlpha(baseAlpha, minAlpha, threshold, d) <= baseAlpha
  {
    GradientNonNegative(baseAlpha, minAlpha, threshold);
    RealMulMonotone(0.0, d as real, (baseAlpha - minAlpha) / (threshold + 1) as real);
  }

  /** The trail fades: for an alpha and a minimum opacity in [0, 1] with the
      minimum below the alpha, a line further behind the primary one is never
      more opaque than a line closer to it. */
  lemma {:induction false} LineAlphaFades(baseAlpha: real, minimumTrailOpacity: real, fade: real, n: int, d1: int, d2: int)
    requires 0.0 <= minimumTrailOpacity / 100.0 <= baseAlpha <= 1.0
    requires n >= 1 && fade >= 0.0
    requires 0 <= d1 <= d2
    ensures LineAlpha(baseAlpha, minimumTrailOpacity, fade, n, d2) <= LineAlpha(baseAlpha, minimumTrailOpacity, fade, n, d1)
  {
    var t := Threshold(n, fade);
    var minAlpha := minimumTrailOpacity / 100.0;
    if d1 == 0 {
      if d2 != 0 && d2 <= t {
        GradientBelowBase(baseAlpha, minAlpha, t, d2);
      }
    } else if d2 <= t {
      GradientDescends(baseAlpha, minAlpha, t, d1, d2);
    } else if d1 <= t {
      GradientAboveMinimum(baseAlpha, minAlpha, t, d1);
    }
  }

  /** The default spinner: 20 lines fading over 80 percent of the ring reach
      the minimum opacity of 3.14 percent after 16 lines. */
  lemma DefaultFade()
    ensures Threshold(20, 80.0) == 16
    ensures LineAlpha(1.0, 3.14, 80.0, 20, 17) == 0.0314
    ensures LineAlpha(1.0, 3.14, 80.0, 20, 0) == 1.0
  {
    assert 19.0 * 80.0 / 100.0 == 15.2;
  }

  /** `QWaitingSpinner`: the animation counter, the spinning flag, whether the
      widget is shown and whether its animation runs, with the parameters that
      the fade rule and the size read. */
  class WaitingSpinner {
    var counter: int
    var spinning: bool
    var visible: bool
    var animationRunning: bool
    const numLines: int
    const minimumTrailOpacity: real
    const trailFadePercentage: real
    const innerRadius: real
    const lineLength: real
    const baseAlpha: real
    /** The side of the fixed square size set by `_set_size`. */
    const size: int

    /** A spinning widget is shown with its animation running; a stopped one
        is hidden. The counter the animation writes is never negative. */
    ghost predicate Valid()
      reads this
    {
      (spinning ==> animationRunning) && visible == spinning && counter >= 0
    }

    /** `__init__`: counter 0, not spinning, animation started, widget
        hidden, size `int((inner_radius + line_length) * 2)`. */
    constructor (numLines: int, minimumTrailOpacity: real, trailFadePercentage: real,
                 innerRadius: real, lineLength: real, baseAlpha: real)
      ensures Valid()
      ensures counter == 0 && !spinning && !visible && animationRunning
      ensures this.numLines == numLines && this.minimumTrailOpacity == minimumTrailOpacity
      ensures this.trailFadePercentage == trailFadePercentage
      ensures this.innerRadius == innerRadius && this.lineLength == lineLength && this.baseAlpha == baseAlpha
      ensures size == Trunc((innerRadius + lineLength) * 2.0)
    {
      this.numLines := numLines;
      this.minimumTrailOpacity := minimumTrailOpacity;
      this.trailFadePercentage := trailFadePercentage;
      this.innerRadius := innerRadius;
      this.lineLength := lineLength;
      this.baseAlpha := baseAlpha;
      size := Trunc((innerRadius + lineLength) * 2.0);
      counter := 0;
      spinning := false;
      animationRunning := true;
      visible := false;
    }

    /** `__init__` with its default arguments and the default black colour:
        a 40-pixel spinner of 20 lines. */
    constructor Default()
      ensures Valid()
      ensures counter == 0 && !spinning && !visible && animationRunning
      ensures numLines == 20 && minimumTrailOpacity == 3.14 && trailFadePercentage == 80.0
      ensures innerRadius == 10.0 && lineLength == 10.0 && baseAlpha == 1.0
      ensures size == 40
    {
      numLines := 20;
      minimumTrailOpacity := 3.14;
      trailFadePercentage := 80.0;
      innerRadius := 10.0;
      lineLength := 10.0;
      baseAlpha := 1.0;
      TruncOfInt(40);
      size := Trunc((10.0 + 10.0) * 2.0);
      counter := 0;
      spinning := false;
      animationRunning := true;
      visible := false;
    }

    /** `is_spinning()`: for a valid spinner, whether it is shown. */
    function IsSpinning(): (b: bool)
      requires Valid()
      reads this
      ensures b <==> visible
      ensures b ==> animationRunning
    {
      spinning
    }

    /** `start()`: nothing happens when already spinning; otherwise the
        spinner starts its animation and shows itself. Starting an animation
        that is already running (the one `__init__` started) does nothing,
        while a stopped animation restarts from its start value, writing 0 to
        the counter. */
    method Start()
      requires Valid()
      modifies this
      ensures Valid() && IsSpinning()
      ensures old(spinning) ==> unchanged(this)
      ensures spinning && visible && animationRunning
      ensures counter == if old(animationRunning) then old(counter) else 0
    {
      if spinning {
        return;
      }
      spinning := true;
      if !animationRunning {
        animationRunning := true;
        counter := 0;
      }
      visible := true;
    }

    /** `stop()`: nothing happens when not spinning; otherwise the spinner
        stops its animation and hides itself. */
    method Stop()
      requires Valid()
      modifies this
      ensures Valid() && !IsSpinning()
      ensures !old(spinning) ==> unchanged(this)
      ensures old(spinning) ==> !spinning && !visible && !animationRunning
      ensures !spinning && !visible && counter == old(counter)
    {
      if !spinning {
        return;
      }
      spinning := false;
      animationRunning := false;
      visible := false;
    }

    /** The `counter` property's setter, driven by the animation from 0 up
        to `num_lines`. */
    method SetCounter(value: int)
      requires Valid() && value >= 0
      modifies this
      ensures Valid()
      ensures counter == value
      ensures spinning == old(spinning) && visible == old(visible) && animationRunning == old(animationRunning)
    {
      counter := value;
    }

    /** `paintEvent`: a counter that has reached `num_lines` wraps to 0, then
        line `i` of the ring is drawn with the alpha of its distance behind the
        counter's line. Returns those alphas, line by line. */
    method PaintEvent() returns (alphas: seq<real>)
      requires Valid()
      modifies this
      ensures Valid()
      ensures counter == (if old(counter) >= numLines then 0 else old(counter))
      ensures spinning == old(spinning) && visible == old(visible) && animationRunning == old(animationRunning)
      ensures |alphas| == Max(numLines, 0)
      ensures forall i :: 0 <= i < |alphas| ==>
                LineCountDistance(i, counter, numLines) >= 0 &&
                alphas[i] == LineAlpha(baseAlpha, minimumTrailOpacity, trailFadePercentage, numLines,
                                       LineCountDistance(i, counter, numLines))
      ensures 0 <= counter < numLines ==> alphas[counter] == baseAlpha
    {
      if counter >= numLines {
        counter := 0;
      }
      alphas := [];
      var i := 0;
      while i < numLines
        invariant 0 <= i <= Max(numLines, 0)
        invariant |alphas| == i
        invariant forall j :: 0 <= j < i ==>
                    LineCountDistance(j, counter, numLines) >= 0 &&
                    alphas[j] == LineAlpha(baseAlpha, minimumTrailOpacity, trailFadePercentage, numLines,
                                           LineCountDistance(j, counter, numLines))
      {
        var distance := LineCountDistance(i, counter, numLines);
        alphas := alphas + [LineAlpha(baseAlpha, minimumTrailOpacity, trailFadePercentage, numLines, distance)];
        i := i + 1;
      }
    }
  }

  /** After a paint, for a spinner whose alpha and minimum opacity are in
      [0, 1] with the minimum below the alpha, the counter's line is the most
      opaque and every line is at least as opaque as the line behind it,
      except across the wrap of the ring at the counter itself. */
  lemma {:induction false} PaintedTrailFades(alphas: seq<real>, baseAlpha: real, minimumTrailOpacity: real,
                                             fade: real, n: int, counter: int, i: int, j: int)
    requires 0.0 <= minimumTrailOpacity / 100.0 <= baseAlpha <= 1.0
    requires n >= 1 && fade >= 0.0 && 0 <= counter < n && |alphas| == n
    requires forall k :: 0 <= k < n ==>
               alphas[k] == LineAlpha(baseAlpha, minimumTrailOpacity, fade, n, LineCountDistance(k, counter, n))
    requires 0 <= i < n && 0 <= j < n
    requires LineCountDistance(i, counter, n) <= LineCountDistance(j, counter, n)
    ensures alphas[j] <= alphas[i] <= alphas[counter]
  {
    LineAlphaFades(baseAlpha, minimumTrailOpacity, fade, n, LineCountDistance(i, counter, n), LineCountDistance(j, counter, n));
    LineAlphaFades(baseAlpha, minimumTrailOpacity, fade, n, 0, LineCountDistance(i, counter, n));
  }
}
