/** SwiftUI `Color(hex:a:)`: the public entry point that hands `hex` and `a` to the platform's
    `init(hex:a:)` and wraps the native colour. */
module ColorHex {
  import opened Bits
  import opened ColorTypes
  import opened HexLayout
  import OSColorIOS
  import OSColorMacOS

  /** `Color(hex:a:)` on `host`; alpha defaults to 1. Every `Int` gives a fixed RGB colour whose
      channels lie in [0, 1] and whose alpha is `a`. */
  function FromHex(host: Host, hex: int, a: real := 1.0): (c: Color)
    ensures c.Native? && c.os.RGB?
    ensures ChannelsInUnit(c.os.rgba) && c.os.rgba.alpha == a
  {
    match host
    case IOS(_) => Native(RGB(OSColorIOS.InitHex(hex, a)))
    case MacOS => Native(RGB(OSColorMacOS.InitHex(hex, a)))
  }

  /** The integer 0...255 a channel in [0, 1] stands for, rounded down. */
  function ByteOf(x: real): (b: int)
    requires InUnit(x)
    ensures IsByte(b)
  {
    (x * 255.0).Floor
  }

  /** The `0xRRGGBB` literal of an RGB colour whose channels lie in [0, 1]. */
  function HexOf(c: Rgba): (hex: int)
    requires ChannelsInUnit(c)
    ensures 0 <= hex < HexRange
  {
    Encode(Components(ByteOf(c.red), ByteOf(c.green), ByteOf(c.blue)))
  }

  /** A channel that is an exact multiple of 1/255, as every decoded channel is. */
  predicate OnByteGrid(x: real) {
    InUnit(x) && (x * 255.0).Floor as real == x * 255.0
  }

  /** On components in 0...255, where UIKit's asserts hold, the two RGBA initialisers agree. */
  lemma RgbaInitialisersAgree(red: int, green: int, blue: int, a: real)
    requires IsByte(red) && IsByte(green) && IsByte(blue)
    ensures OSColorIOS.InitRgba(red, green, blue, a) == OSColorMacOS.InitRgba(red, green, blue, a)
  {
  }

  /** The two platform decoders produce the same colour from the same `hex` and `a`. */
  lemma PlatformsAgree(hex: int, a: real)
    ensures OSColorIOS.InitHex(hex, a) == OSColorMacOS.InitHex(hex, a)
    ensures forall v: nat :: FromHex(IOS(v), hex, a) == FromHex(MacOS, hex, a)
  {
    var i, m := OSColorIOS.InitHex(hex, a), OSColorMacOS.InitHex(hex, a);
    assert i.red == m.red && i.green == m.green && i.blue == m.blue;
  }

  /** Round trip from the literal: the decoded colour encodes back to the low 24 bits of `hex`,
      that is to `hex` itself for every 0 <= hex < 2^24. */
  lemma {:induction false} HexOfFromHex(host: Host, hex: int, a: real)
    ensures HexOf(FromHex(host, hex, a).os.rgba) == hex % HexRange
  {
    var c := FromHex(host, hex, a).os.rgba;
    var bytes := Extract(hex);
    assert ByteOf(c.red) == bytes.red;
    assert ByteOf(c.green) == bytes.green;
    assert ByteOf(c.blue) == bytes.blue;
    assert Components(ByteOf(c.red), ByteOf(c.green), ByteOf(c.blue)) == bytes;
    EncodeExtract(hex);
  }

  /** Round trip from the colour: an RGB colour whose channels are multiples of 1/255 is what
      `Color(hex:a:)` decodes from its own literal and alpha. */
  lemma {:induction false} FromHexOfHex(host: Host, c: Rgba)
    requires OnByteGrid(c.red) && OnByteGrid(c.green) && OnByteGrid(c.blue)
    ensures FromHex(host, HexOf(c), c.alpha) == Native(RGB(c))
  {
    var bytes := Components(ByteOf(c.red), ByteOf(c.green), ByteOf(c.blue));
    ExtractEncode(bytes);
    var d := FromHex(host, HexOf(c), c.alpha).os.rgba;
    assert d.red == c.red && d.green == c.green && d.blue == c.blue;
  }

  /** Two literals give the same colour exactly when they agree in their low 24 bits. */
  lemma {:induction false} FromHexSameIff(host: Host, h1: int, h2: int, a: real)
    ensures FromHex(host, h1, a) == FromHex(host, h2, a) <==> h1 % HexRange == h2 % HexRange
  {
    ExtractSameIff(h1, h2);
    if FromHex(host, h1, a) == FromHex(host, h2, a) {
      HexOfFromHex(host, h1, a);
      HexOfFromHex(host, h2, a);
    }
  }

  /** Bits above bit 23 are ignored: `hex` and `hex + k * 2^24` give the same colour. */
  lemma {:induction false} HighBitsIgnoredByColor(host: Host, hex: int, k: int, a: real)
    ensures FromHex(host, hex + k * HexRange, a) == FromHex(host, hex, a)
  {
    var shifted := hex + k * HexRange;
    ModAddMultiple(hex, k, HexRange);
    FromHexSameIff(host, shifted, hex, a);
  }

  /** Red, black and white literals decode to the expected channels. */
  lemma FixedDecodings(host: Host)
    ensures FromHex(host, 0xFF0000) == Native(RGB(Rgba(1.0, 0.0, 0.0, 1.0)))
    ensures FromHex(host, 0x000000) == Native(RGB(Rgba(0.0, 0.0, 0.0, 1.0)))
    ensures FromHex(host, 0xFFFFFF) == Native(RGB(Rgba(1.0, 1.0, 1.0, 1.0)))
  {
  }
}
