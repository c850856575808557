/** Brightness adjustment: `OSColor.adjust`, `lighter`, `darker`, and the SwiftUI `Color.lighter` /
    `Color.darker` wrappers.

    The toolkit services the code calls are parameters: how a SwiftUI colour becomes a native one,
    and how a native colour is decomposed into hue, saturation, brightness and alpha. Brightness is
    multiplied by the factor and handed on unclamped; clamping, if any, is the toolkit's. */
module Brightness {
  import opened Wrappers
  import opened ColorTypes

  /** The toolkit as the adjustment code sees it.
      `nativeOf`: `Color.cgColor` followed by `UIColor(cgColor:)` (iOS) or `NSColor(cgColor:)` (macOS);
      `None` when either step yields nil.
      `getHue`: on iOS, `getHue(_:saturation:brightness:alpha:)`, `None` when it returns false; on macOS,
      `resolvedColorSpace` (conversion to generic RGB) followed by `getHue`, `None` when the conversion
      yields nil. */
  datatype Toolkit = Toolkit(
    host: Host,
    nativeOf: Color -> Option<OSColor>,
    getHue: OSColor -> Option<Hsba>)

  /** The amount `lighter()` and `darker()` use when none is given. */
  const DefaultAmount: real := 0.25

  /** The components handed to `init(hue:saturation:brightness:alpha:)`: brightness times `factor`,
      everything else copied. */
  function ScaleBrightness(h: Hsba, factor: real): (r: Hsba)
    ensures r.hue == h.hue && r.saturation == h.saturation && r.alpha == h.alpha
    ensures r.brightness == h.brightness * factor
  {
    h.(brightness := h.brightness * factor)
  }

  /** `adjust(amount:)`. A successful decomposition yields an HSB colour with the brightness scaled.
      A failed one returns the colour unchanged on iOS and traps on macOS, where `resolvedColorSpace`
      force-unwraps the converted colour. */
  function Adjust(t: Toolkit, c: OSColor, factor: real): (r: Outcome<OSColor>)
    ensures r.Traps? <==> t.host.MacOS? && t.getHue(c).None?
    ensures t.host.IOS? && t.getHue(c).None? ==> r == Returns(c)
    ensures t.getHue(c).Some? ==> r == Returns(HSB(ScaleBrightness(t.getHue(c).value, factor)))
  {
    match t.getHue(c)
    case Some(h) => Returns(HSB(ScaleBrightness(h, factor)))
    case None => if t.host.IOS? then Returns(c) else Traps
  }

  /** `OSColor.lighter(amount:)`: brightness times 1 + amount. */
  function Lighter(t: Toolkit, c: OSColor, amount: real := DefaultAmount): (r: Outcome<OSColor>)
    ensures t.getHue(c).Some? ==>
      (r.Returns? && r.value.HSB? && SameHueSaturationAlpha(r.value.hsba, t.getHue(c))
       && r.value.hsba.brightness == t.getHue(c).value.brightness * (1.0 + amount))
    ensures t.getHue(c).None? ==> r == (if t.host.IOS? then Returns(c) else Traps)
  {
    Adjust(t, c, 1.0 + amount)
  }

  /** `OSColor.darker(amount:)`: brightness times 1 - amount. */
  function Darker(t: Toolkit, c: OSColor, amount: real := DefaultAmount): (r: Outcome<OSColor>)
    ensures t.getHue(c).Some? ==>
      (r.Returns? && r.value.HSB? && SameHueSaturationAlpha(r.value.hsba, t.getHue(c))
       && r.value.hsba.brightness == t.getHue(c).value.brightness * (1.0 - amount))
    ensures t.getHue(c).None? ==> r == (if t.host.IOS? then Returns(c) else Traps)
  {
    Adjust(t, c, 1.0 - amount)
  }

  /** `h` carries the hue, saturation and alpha of the decomposition `d`, which succeeded. */
  predicate SameHueSaturationAlpha(h: Hsba, d: Option<Hsba>) {
    d.Some? && h.hue == d.value.hue && h.saturation == d.value.saturation && h.alpha == d.value.alpha
  }

  /** A native result wrapped as a SwiftUI colour (`Color(uiColor:)`, `Color(nsColor:)`). */
  function Wrap(o: Outcome<OSColor>): (r: Outcome<Color>)
    ensures r.Traps? <==> o.Traps?
    ensures o.Returns? ==> r.Returns? && r.value.Native? && r.value.os == o.value
  {
    match o
    case Returns(os) => Returns(Native(os))
    case Traps => Traps
  }

  /** `Color.lighter(amount:)`: when the colour has no native form it comes back unchanged; otherwise
      the native colour is lightened and wrapped, so a failed decomposition on iOS gives back the
      native form itself. */
  function LighterColor(t: Toolkit, c: Color, amount: real := DefaultAmount): (r: Outcome<Color>)
    ensures t.nativeOf(c).None? ==> r == Returns(c)
    ensures t.nativeOf(c).Some? && t.host.IOS? && t.getHue(t.nativeOf(c).value).None? ==>
      r == Returns(Native(t.nativeOf(c).value))
    ensures t.nativeOf(c).Some? && t.getHue(t.nativeOf(c).value).Some? ==>
      var d := t.getHue(t.nativeOf(c).value);
      (r.Returns? && r.value.Native? && r.value.os.HSB? && SameHueSaturationAlpha(r.value.os.hsba, d)
       && r.value.os.hsba.brightness == d.value.brightness * (1.0 + amount))
    ensures r.Traps? <==> t.host.MacOS? && t.nativeOf(c).Some? && t.getHue(t.nativeOf(c).value).None?
  {
    match t.nativeOf(c)
    case None => Returns(c)
    case Some(os) => Wrap(Lighter(t, os, amount))
  }

  /** `Color.darker(amount:)`, the same wrapper around `darker`. */
  function DarkerColor(t: Toolkit, c: Color, amount: real := DefaultAmount): (r: Outcome<Color>)
    ensures t.nativeOf(c).None? ==> r == Returns(c)
    ensures t.nativeOf(c).Some? && t.host.IOS? && t.getHue(t.nativeOf(c).value).None? ==>
      r == Returns(Native(t.nativeOf(c).value))
    ensures t.nativeOf(c).Some? && t.getHue(t.nativeOf(c).value).Some? ==>
      var d := t.getHue(t.nativeOf(c).value);
      (r.Returns? && r.value.Native? && r.value.os.HSB? && SameHueSaturationAlpha(r.value.os.hsba, d)
       && r.value.os.hsba.brightness == d.value.brightness * (1.0 - amount))
    ensures r.Traps? <==> t.host.MacOS? && t.nativeOf(c).Some? && t.getHue(t.nativeOf(c).value).None?
  {
    match t.nativeOf(c)
    case None => Returns(c)
    case Some(os) => Wrap(Darker(t, os, amount))
  }

  /** The brightness of an adjusted colour (0 when there is none to read). */
  function BrightnessOf(o: Outcome<OSColor>): real
  {
    if o.Returns? && o.value.HSB? then o.value.hsba.brightness else 0.0
  }

  /** Amount 0 leaves a decomposed colour's components as they were, lighter or darker. */
  lemma ZeroAmountKeepsComponents(t: Toolkit, c: OSColor)
    requires t.getHue(c).Some?
    ensures Lighter(t, c, 0.0) == Returns(HSB(t.getHue(c).value))
    ensures Darker(t, c, 0.0) == Returns(HSB(t.getHue(c).value))
  {
  }

  /** For brightness b >= 0 and 0 <= amount <= 1: darker lands in [0, b] and lighter at or above b. */
  lemma LighterDarkerBracket(t: Toolkit, c: OSColor, amount: real)
    requires t.getHue(c).Some? && t.getHue(c).value.brightness >= 0.0
    requires 0.0 <= amount <= 1.0
    ensures 0.0 <= BrightnessOf(Darker(t, c, amount)) <= t.getHue(c).value.brightness
    ensures t.getHue(c).value.brightness <= BrightnessOf(Lighter(t, c, amount))
  {
  }

  /** `darker(amount: 1)` takes brightness to 0, which is black. */
  lemma FullyDarkenedIsBlack(t: Toolkit, c: OSColor)
    requires t.getHue(c).Some?
    ensures Darker(t, c, 1.0).Returns? && BrightnessOf(Darker(t, c, 1.0)) == 0.0
  {
  }

  /** Nothing is clamped: lightening full brightness by the default amount asks for brightness 1.25. */
  lemma LighteningIsNotClamped(t: Toolkit, c: OSColor)
    requires t.getHue(c).Some? && t.getHue(c).value.brightness == 1.0
    ensures BrightnessOf(Lighter(t, c)) == 1.25
  {
  }

  /** The documented "1 is white" does not hold for `lighter`: amount 1 doubles brightness and keeps
      hue and saturation, so a colour of brightness 0.25 comes out at 0.5. */
  lemma FullyLightenedIsNotWhite(t: Toolkit, c: OSColor)
    requires t.getHue(c).Some?
    ensures BrightnessOf(Lighter(t, c, 1.0)) == 2.0 * t.getHue(c).value.brightness
    ensures t.getHue(c).value.brightness == 0.25 ==> BrightnessOf(Lighter(t, c, 1.0)) == 0.5
  {
  }

  /** The factor `adjust` takes is not the documented 0-to-1 scale where 0 is the original: factor 1
      keeps every component and factor 0 takes brightness to 0. */
  lemma AdjustFactorEnds(t: Toolkit, c: OSColor)
    requires t.getHue(c).Some?
    ensures Adjust(t, c, 1.0) == Returns(HSB(t.getHue(c).value))
    ensures Adjust(t, c, 0.0).Returns? && BrightnessOf(Adjust(t, c, 0.0)) == 0.0
  {
  }

  /** With the default amount, a grey of brightness 0.5 becomes 0.625 lighter and 0.375 darker, so
      neither result equals the original. */
  lemma DefaultAmountOnMidGrey(t: Toolkit, c: OSColor)
    requires t.getHue(c).Some? && t.getHue(c).value.brightness == 0.5
    ensures BrightnessOf(Lighter(t, c)) == 0.625
    ensures BrightnessOf(Darker(t, c)) == 0.375
  {
  }

  /** The toolkit reads back the HSB colour built from `h` as exactly `h`. A toolkit that clamps or
      normalises components on construction does not do this for every `h`, so each lemma below asks
      it only of the one intermediate colour it decomposes again. */
  predicate ReadsBack(t: Toolkit, h: Hsba) {
    t.getHue(HSB(h)) == Some(h)
  }

  /** Where the toolkit reads back the once-adjusted colour, two adjustments compose into one by the
      product of their factors. */
  lemma AdjustComposes(t: Toolkit, c: OSColor, f: real, g: real)
    requires t.getHue(c).Some? && ReadsBack(t, ScaleBrightness(t.getHue(c).value, f))
    ensures Adjust(t, c, f).Returns?
    ensures Adjust(t, Adjust(t, c, f).value, g) == Adjust(t, c, f * g)
  {
    var h := t.getHue(c).value;
    var once := ScaleBrightness(h, f);
    assert Adjust(t, c, f) == Returns(HSB(once));
    assert t.getHue(HSB(once)) == Some(once);
    assert Adjust(t, HSB(once), g) == Returns(HSB(ScaleBrightness(once, g)));
    assert h.brightness * f * g == h.brightness * (f * g);
    assert ScaleBrightness(once, g) == ScaleBrightness(h, f * g);
  }

  /** Shrinking by 1 - a^2 never raises a non-negative brightness. */
  lemma ShrinkNeverRaises(b: real, a: real)
    requires b >= 0.0
    ensures b * (1.0 - a * a) <= b
  {
    assert a * a >= 0.0;
    assert b * (a * a) >= 0.0;
  }

  /** Shrinking by 1 - a^2 keeps b exactly when a or b is 0: the factor by which lighter then darker
      scales brightness leaves it in place only in those cases. */
  lemma ShrinkKeepsIff(b: real, a: real)
    ensures b * (1.0 - a * a) == b <==> (a == 0.0 || b == 0.0)
  {
    if a > 0.0 {
      assert a * a > 0.0;
    } else if a < 0.0 {
      assert a * a > 0.0;
    }
  }

  /** Lightening then darkening by the same amount is lossy: where the toolkit reads back the lightened
      colour, brightness ends at b * (1 - amount^2), never above a non-negative b. */
  lemma {:induction false} DarkerAfterLighterIsLossy(t: Toolkit, c: OSColor, amount: real)
    requires t.getHue(c).Some? && ReadsBack(t, ScaleBrightness(t.getHue(c).value, 1.0 + amount))
    ensures Lighter(t, c, amount).Returns?
    ensures BrightnessOf(Darker(t, Lighter(t, c, amount).value, amount))
      == t.getHue(c).value.brightness * (1.0 - amount * amount)
    ensures t.getHue(c).value.brightness >= 0.0 ==>
      BrightnessOf(Darker(t, Lighter(t, c, amount).value, amount)) <= t.getHue(c).value.brightness
  {
    var b := t.getHue(c).value.brightness;
    var f, g := 1.0 + amount, 1.0 - amount;
    AdjustComposes(t, c, f, g);
    var lighter := Adjust(t, c, f).value;
    assert Lighter(t, c, amount).value == lighter;
    assert Darker(t, lighter, amount) == Adjust(t, lighter, g);
    assert f * g == 1.0 - amount * amount;
    assert BrightnessOf(Adjust(t, c, f * g)) == b * (f * g);
    if b >= 0.0 {
      ShrinkNeverRaises(b, amount);
    }
  }

  /** With the default amount, mid grey comes back from lighter-then-darker at brightness 0.46875,
      not 0.5. */
  lemma MidGreyRoundTripIsLossy(t: Toolkit, c: OSColor)
    requires t.getHue(c).Some? && t.getHue(c).value.brightness == 0.5
    requires ReadsBack(t, ScaleBrightness(t.getHue(c).value, 1.0 + DefaultAmount))
    ensures Lighter(t, c).Returns?
    ensures BrightnessOf(Darker(t, Lighter(t, c).value)) == 0.46875
  {
    DarkerAfterLighterIsLossy(t, c, DefaultAmount);
  }
}
