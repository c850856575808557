/** The macOS grey palette: fixed `NSColor` constants and the SwiftUI colours built from them.

    Levels 2 to 6 of the system greys come as light/dark pairs. Levels 2 and 3 carry identical
    constants, so orderings across levels are only non-strict. */
module SystemGrays {
  import opened ColorTypes
  import opened DynamicColor

  /** `NSColor.LightDark`: the variant for light appearance and the one for dark appearance. */
  datatype LightDark = LightDark(light: Rgba, dark: Rgba)

  /** An opaque colour with equal red and green. */
  function Opaque(rg: real, blue: real): Rgba
  {
    Rgba(rg, rg, blue, 1.0)
  }

  /** `NSColor._darkGray`: one third in every channel. */
  function UnderscoreDarkGray(): (c: Rgba)
    ensures c.red == c.green == c.blue && c.red * 3.0 == 1.0 && c.alpha == 1.0
  {
    Rgba(1.0 / 3.0, 1.0 / 3.0, 1.0 / 3.0, 1.0)
  }

  /** `NSColor._lightGray`, `init(white: 2/3, alpha: 1)`: a grey of white level two thirds, taken here
      as two thirds in every RGB channel. */
  function UnderscoreLightGray(): (c: Rgba)
    ensures c.red == c.green == c.blue && c.red * 3.0 == 2.0 && c.alpha == 1.0
  {
    Rgba(2.0 / 3.0, 2.0 / 3.0, 2.0 / 3.0, 1.0)
  }

  /** `NSColor.systemGray`: an opaque grey with a slight blue cast. */
  function SystemGrayRgba(): (c: Rgba)
    ensures ChannelsInUnit(c) && c.alpha == 1.0
    ensures c.red == c.green < c.blue
  {
    Opaque(0.56, 0.58)
  }

  predicate IsLevel(level: int) {
    2 <= level <= 6
  }

  /** `NSColor.systemGray2` ... `NSColor.systemGray6`, indexed by level. Every entry is opaque with
      channels in [0, 1], and the light variant is lighter than the dark one in every channel. */
  function Level(level: int): (p: LightDark)
    requires IsLevel(level)
    ensures ChannelsInUnit(p.light) && ChannelsInUnit(p.dark)
    ensures p.light.alpha == 1.0 && p.dark.alpha == 1.0
    ensures StrictlyLighter(p.light, p.dark)
  {
    if level == 2 then LightDark(Opaque(0.68, 0.7), Opaque(0.39, 0.4))
    else if level == 3 then LightDark(Opaque(0.68, 0.7), Opaque(0.39, 0.4))
    else if level == 4 then LightDark(Opaque(0.82, 0.84), Opaque(0.23, 0.24))
    else if level == 5 then LightDark(Opaque(0.9, 0.92), Opaque(0.17, 0.18))
    else LightDark(Opaque(0.95, 0.97), Opaque(0.11, 0.12))
  }

  /** Every channel of `a` is at least that of `b`. */
  predicate NoDarker(a: Rgba, b: Rgba) {
    a.red >= b.red && a.green >= b.green && a.blue >= b.blue
  }

  /** Every channel of `a` exceeds that of `b`. */
  predicate StrictlyLighter(a: Rgba, b: Rgba) {
    a.red > b.red && a.green > b.green && a.blue > b.blue
  }

  /** Going up the levels, light variants never get darker and dark variants never get lighter. */
  lemma LevelsMonotone(i: int, j: int)
    requires IsLevel(i) && IsLevel(j) && i <= j
    ensures NoDarker(Level(j).light, Level(i).light)
    ensures NoDarker(Level(i).dark, Level(j).dark)
  {
  }

  /** Level 6 is the lightest light variant and the darkest dark variant of the grey series: strictly
      so against every level below it and against the single `systemGray`. */
  lemma Level6IsExtreme(i: int)
    requires IsLevel(i)
    ensures NoDarker(Level(6).light, Level(i).light) && NoDarker(Level(i).dark, Level(6).dark)
    ensures i < 6 ==> StrictlyLighter(Level(6).light, Level(i).light)
    ensures i < 6 ==> StrictlyLighter(Level(i).dark, Level(6).dark)
    ensures StrictlyLighter(Level(6).light, SystemGrayRgba())
    ensures StrictlyLighter(SystemGrayRgba(), Level(6).dark)
  {
    LevelsMonotone(i, 6);
  }

  /** The ordering is not strict: levels 2 and 3 are the same pair. */
  lemma Levels2And3Coincide()
    ensures Level(2) == Level(3)
    ensures !StrictlyLighter(Level(3).light, Level(2).light)
  {
  }

  /** `Color.systemGray2` ... `Color.systemGray6`: `Color(light:dark:)` over the level's pair. */
  function SystemGrayColor(level: int): (c: Color)
    requires IsLevel(level)
    ensures Resolve(c, Dark) == RGB(Level(level).dark)
    ensures forall ap :: ap != Dark ==> Resolve(c, ap) == RGB(Level(level).light)
  {
    Hybrid(MacOS, Native(RGB(Level(level).light)), Native(RGB(Level(level).dark)))
  }

  /** `Color.darkGray`: AppKit's own `NSColor.darkGray` for both variants, so it does not adapt. */
  function DarkGrayColor(appKitDarkGray: OSColor): (c: Color)
    ensures forall ap :: Resolve(c, ap) == appKitDarkGray
  {
    Hybrid(MacOS, Native(appKitDarkGray), Native(appKitDarkGray))
  }

  /** `Color.lightGray`. */
  function LightGrayColor(): (c: Color)
    ensures forall ap :: Resolve(c, ap) == RGB(UnderscoreLightGray())
  {
    Native(RGB(UnderscoreLightGray()))
  }

  /** `Color.systemGray`. */
  function SystemGraySingle(): (c: Color)
    ensures forall ap :: Resolve(c, ap) == RGB(SystemGrayRgba())
  {
    Native(RGB(SystemGrayRgba()))
  }
}
