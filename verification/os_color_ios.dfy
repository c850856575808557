/** UIKit's integer initialisers on `UIColor`: `init(red:green:blue:a:)` and `init(hex:a:)`. */
module OSColorIOS {
  import opened ColorTypes
  import opened HexLayout

  /** `init(red:green:blue:a:)`: each integer component is divided by 255, alpha is passed through.
      The initialiser asserts that every component is in 0...255; that demand is the `requires`. */
  function InitRgba(red: int, green: int, blue: int, a: real): (c: Rgba)
    requires IsByte(red) && IsByte(green) && IsByte(blue)
    ensures ChannelsInUnit(c)
    ensures c.red * 255.0 == red as real && c.green * 255.0 == green as real && c.blue * 255.0 == blue as real
    ensures c.alpha == a
  {
    Rgba(red as real / 255.0, green as real / 255.0, blue as real / 255.0, a)
  }

  /** `init(hex:a:)`: the three bytes of `hex` handed to `init(red:green:blue:a:)`; alpha defaults to 1. The bytes are
      taken with `Extract`, which `HexLayout.ShiftAndMask` proves equal to the shift-and-mask expression. */
  function InitHex(hex: int, a: real := 1.0): (c: Rgba)
    ensures ChannelsInUnit(c)
    ensures c.alpha == a
    ensures c.red * 255.0 == Extract(hex).red as real
    ensures c.green * 255.0 == Extract(hex).green as real
    ensures c.blue * 255.0 == Extract(hex).blue as real
  {
    var bytes := Extract(hex);
    InitRgba(bytes.red, bytes.green, bytes.blue, a)
  }
}
