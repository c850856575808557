/** The value types of the colour toolkits, as far as this package observes them.

    Channels are exact reals; the toolkits' `CGFloat` rounding is not modelled. */
module ColorTypes {

  /** Red, green, blue and alpha, each nominally in [0, 1]. */
  datatype Rgba = Rgba(red: real, green: real, blue: real, alpha: real)

  /** Hue, saturation, brightness and alpha, as `getHue(_:saturation:brightness:alpha:)` reports them. */
  datatype Hsba = Hsba(hue: real, saturation: real, brightness: real, alpha: real)

  /** A UIKit `UIColor` or AppKit `NSColor`, remembered by the initialiser that built it.
      Converting between the two forms is the toolkit's business and is not modelled. */
  datatype OSColor =
    | RGB(rgba: Rgba)   // init(red:green:blue:alpha:) and init(white:alpha:)
    | HSB(hsba: Hsba)   // init(hue:saturation:brightness:alpha:)

  /** A SwiftUI `Color`: either a fixed native colour, or one whose dynamic provider picks
      between a light and a dark variant each time the host resolves it. */
  datatype Color =
    | Native(os: OSColor)
    | Adaptive(light: Color, dark: Color)

  /** The appearance the host resolves a colour in. `Unspecified` stands for iOS's
      `.unspecified` interface style and for a macOS appearance that matches neither
      `.aqua` nor `.darkAqua`. */
  datatype Appearance = Light | Dark | Unspecified

  /** The platform the package is compiled for; on iOS, the major version it runs on. */
  datatype Host = MacOS | IOS(major: nat)

  predicate InUnit(x: real) {
    0.0 <= x <= 1.0
  }

  /** Every colour channel of `c` lies in [0, 1]. */
  predicate ChannelsInUnit(c: Rgba) {
    InUnit(c.red) && InUnit(c.green) && InUnit(c.blue)
  }
}
