/** AppKit's integer initialisers on `NSColor`: `init(red:green:blue:a:)` and `init(hex:a:)`. */
module OSColorMacOS {
  import opened ColorTypes
  import opened HexLayout

  /** `init(red:green:blue:a:)`: unlike the UIKit version there is no range check, so a component
      outside 0...255 passes through as value / 255 and lands outside [0, 1]. Alpha defaults to 1. */
  function InitRgba(red: int, green: int, blue: int, a: real := 1.0): (c: Rgba)
    ensures c.red * 255.0 == red as real && c.green * 255.0 == green as real && c.blue * 255.0 == blue as real
    ensures InUnit(c.red) <==> IsByte(red)
    ensures InUnit(c.green) <==> IsByte(green)
    ensures InUnit(c.blue) <==> IsByte(blue)
    ensures c.alpha == a
  {
    Rgba(red as real / 255.0, green as real / 255.0, blue as real / 255.0, a)
  }

  /** `init(hex:a:)`: the same byte extraction as on UIKit; alpha defaults to 1. The bytes are
      taken with `Extract`, which `HexLayout.ShiftAndMask` proves equal to the shift-and-mask expression. */
  function InitHex(hex: int, a: real := 1.0): (c: Rgba)
    ensures ChannelsInUnit(c)
    ensures c.alpha == a
    ensures c.red * 255.0 == Extract(hex).red as real
    ensures c.green * 255.0 == Extract(hex).green as real
    ensures c.blue * 255.0 == Extract(hex).blue as real
  {
    var bytes := Extract(hex);
    InitRgba(bytes.red, bytes.green, bytes.blue, a)
  }
}
