# HybridColor in Dafny

HybridColor is a small Swift package that extends SwiftUI's `Color` and the native colour classes
(`UIColor` on iOS, `NSColor` on macOS). It adds four things:

- hex literals such as `Color(hex: 0xFF8800)`;
- light/dark adaptive colours (`Color(light:dark:)`, `blackOrWhite`, `whiteOrBlack`);
- brightness adjustment (`lighter`, `darker`);
- a macOS table of system greys.

This project models that core as pure Dafny functions over immutable datatypes, and proves what each
operation guarantees.

The project has these modules:

- `Bits` gives Swift's `>>` and `&` on `Int` as recursive bit-level definitions. It proves that they
  are floor division by a power of two and a non-negative remainder.
- `HexLayout` handles the `0xRRGGBB` byte layout. It proves the round trip between the literal and
  its three bytes, and that bits above bit 23 are ignored.
- `OSColorIOS` and `OSColorMacOS` model the two platforms' `init(red:green:blue:a:)` and
  `init(hex:a:)`.
- `ColorHex` models `Color(hex:a:)`. It proves that the two platforms agree and that the colour
  round-trips to its literal.
- `DynamicColor` models `Color(light:dark:)` as a colour that resolves per appearance, and builds
  `blackOrWhite` and `whiteOrBlack` on it.
- `Brightness` models `adjust`, `lighter` and `darker`, on the native colour and on SwiftUI's `Color`.
- `SystemGrays` models the macOS grey constants and the SwiftUI colours built from them.
- `ColorTypes` and `Wrappers` hold the shared datatypes.

The platform is a value of type `Host`: either macOS or iOS with a major version. The appearance is a
value of type `Appearance`: light, dark or unspecified. The toolkit services the brightness code calls
are function-valued fields of `Brightness.Toolkit`:

- `cgColor` followed by `UIColor(cgColor:)` / `NSColor(cgColor:)` is `nativeOf`;
- `getHue`, preceded on macOS by `resolvedColorSpace`, is `getHue`.

A crash from a force-unwrap is modelled as the outcome `Traps`. Channels are exact reals.

The model follows the code in four places where the package's documentation says otherwise:

- The documentation of `adjust` calls its argument a 0-to-1 amount where 0 is the original colour.
  The code multiplies brightness by the argument, so factor 1 keeps the colour and factor 0 gives
  brightness 0 (`AdjustFactorEnds`).
- The documentation says `lighter(amount: 1)` gives white. The code doubles brightness and keeps hue
  and saturation. `FullyLightenedIsNotWhite` shows brightness 0.25 ending at 0.5.
- The documentation says `systemGray` adapts to the current appearance. The code builds one fixed
  RGB colour, so `Color.systemGray` shows the same grey in light and dark (`SystemGraySingle`).
- The documentation calls the hex literal a 32-bit integer whose first 8 bits are red. The code reads
  24 bits: red in bits 16-23, green in bits 8-15, blue in bits 0-7 (`BitLayout`). Every higher bit is
  ignored (`HighBitsIgnored`).

The package code does not clamp the adjusted brightness to [0, 1]; whether the toolkit clamps is
outside the model. `LighteningIsNotClamped` shows full brightness lightened asking for 1.25.

The grey table is also modelled as written:

- The macOS table defines levels 2 to 6 of `systemGray` as light/dark pairs, plus a single
  `systemGray`.
- Levels 2 and 3 carry identical constants, so the orderings proved across levels are non-strict.
  `Levels2And3Coincide` states this.

## Model

| member | source | states |
|---|---|---|
| Bits.And | Sources/HybridColor/ext/OSColor+IOS.swift:38-40 | Swift's `x & m` for a non-negative mask, bit by bit; the result lies between 0 and the mask |
| Bits.Shr | Sources/HybridColor/ext/OSColor+IOS.swift:38-39 | Swift's `x >> k` keeps the sign of `x` and never makes a non-negative value larger |
| Bits.ShrIsDiv | Sources/HybridColor/ext/OSColor+IOS.swift:38-39 | the arithmetic right shift `x >> k` is division by 2^k rounded toward minus infinity, negative `x` included |
| Bits.AndLowMaskIsMod | Sources/HybridColor/ext/OSColor+IOS.swift:38-40 | masking with 2^k - 1 keeps the non-negative remainder modulo 2^k, for every integer including negatives |
| HexLayout.Extract | Sources/HybridColor/ext/OSColor+MacOS.swift:32-34 | every `Int` literal, negative or wider than 24 bits, yields three components in 0...255 |
| HexLayout.ShiftAndMask | Sources/HybridColor/ext/OSColor+IOS.swift:38-40 | `(hex >> 16) & 0xFF`, `(hex >> 8) & 0xFF` and `hex & 0xFF` are exactly the base-256 digits 2, 1 and 0 of `hex` |
| HexLayout.ExtractEncode | Sources/HybridColor/ext/OSColor+IOS.swift:35-43 | for any bytes r, g, b, decoding the literal `0xRRGGBB` gives back r, g, b |
| HexLayout.EncodeExtract | Sources/HybridColor/ext/OSColor+IOS.swift:35-43 | the decoded bytes re-encode to the low 24 bits of the literal, so a literal in 0...0xFFFFFF is recovered exactly |
| HexLayout.HighBitsIgnored | Sources/HybridColor/ext/OSColor+MacOS.swift:32-34 | adding any multiple of 2^24 to the literal does not change the decoded bytes |
| HexLayout.ExtractSameIff | Sources/HybridColor/ext/OSColor+MacOS.swift:30-37 | two literals decode to the same bytes if and only if they agree modulo 2^24 |
| HexLayout.BitLayout | Sources/HybridColor/ext/OSColor+IOS.swift:29-40 | bit j of red, green and blue is bit 16+j, 8+j and j of the literal |
| OSColorIOS.InitRgba | Sources/HybridColor/ext/OSColor+IOS.swift:17-27 | callers must pass components in 0...255 (the asserts); each channel is then the component over 255, inside [0, 1], and alpha is passed through |
| OSColorIOS.InitHex | Sources/HybridColor/ext/OSColor+IOS.swift:35-43 | any literal gives channels in [0, 1], each being a decoded byte over 255, with alpha `a` (default 1) |
| OSColorMacOS.InitRgba | Sources/HybridColor/ext/OSColor+MacOS.swift:15-22 | no range check: each channel is the component over 255, and it is in [0, 1] if and only if the component is in 0...255; alpha defaults to 1 |
| OSColorMacOS.InitHex | Sources/HybridColor/ext/OSColor+MacOS.swift:30-37 | any literal gives channels in [0, 1], each being a decoded byte over 255, with alpha `a` (default 1) |
| ColorHex.FromHex | Sources/HybridColor/ext/OSColor+Ext.swift:18-24 | `Color(hex:a:)` on either platform is a fixed RGB colour with channels in [0, 1] and alpha `a` |
| ColorHex.RgbaInitialisersAgree | Sources/HybridColor/ext/OSColor+MacOS.swift:15-22 | where the UIKit asserts hold, the UIKit and AppKit RGBA initialisers give the same colour |
| ColorHex.PlatformsAgree | Sources/HybridColor/ext/OSColor+Ext.swift:18-24 | `Color(hex:a:)` gives the same colour on iOS (any version) and on macOS |
| ColorHex.HexOfFromHex | Sources/HybridColor/ext/OSColor+Ext.swift:18-24 | the decoded colour, read back as a `0xRRGGBB` literal, is the literal's low 24 bits |
| ColorHex.FromHexOfHex | Sources/HybridColor/ext/OSColor+Ext.swift:18-24 | every RGB colour whose channels are multiples of 1/255 is what `Color(hex:a:)` decodes from its own literal and alpha |
| ColorHex.FromHexSameIff | Sources/HybridColor/ext/OSColor+Ext.swift:18-24 | two literals give the same colour if and only if they agree modulo 2^24 |
| ColorHex.HighBitsIgnoredByColor | Sources/HybridColor/ext/OSColor+Ext.swift:18-24 | `hex` and `hex + k * 2^24` give the same colour |
| ColorHex.FixedDecodings | Sources/HybridColor/ext/OSColor+Ext.swift:18-24 | 0xFF0000 is opaque red, 0x000000 opaque black and 0xFFFFFF opaque white |
| DynamicColor.ProviderAvailable | Sources/HybridColor/Color.swift:35 | a dynamic provider exists on every macOS host, and on iOS exactly from version 13 |
| DynamicColor.Resolve | Sources/HybridColor/Color.swift:26-38 | what a colour shows in an appearance is always one of the native colours it was built from |
| DynamicColor.Hybrid | Sources/HybridColor/Color.swift:23-43 | with a dynamic provider, a dark appearance shows the dark colour and every other appearance the light one; before iOS 13 the result is the light colour itself |
| DynamicColor.HybridOfEqualVariants | Sources/HybridColor/Color.swift:23-43 | `Color(light: c, dark: c)` shows what `c` shows, in every appearance and on every host |
| DynamicColor.ResolveSwap | Sources/HybridColor/Color.swift:28-31 | exchanging light and dark variants throughout a colour exchanges what it shows in light and dark appearance |
| DynamicColor.BlackOrWhite | Sources/HybridColor/Color.swift:60-62 | white in every non-dark appearance; black in dark appearance where a provider exists, otherwise white |
| DynamicColor.WhiteOrBlack | Sources/HybridColor/Color.swift:68-70 | black in every non-dark appearance; white in dark appearance where a provider exists, otherwise black |
| DynamicColor.BlackOrWhiteMirrorsWhiteOrBlack | Sources/HybridColor/Color.swift:60-70 | where a provider exists, `blackOrWhite` is `whiteOrBlack` with variants exchanged, and each shows in light what the other shows in dark |
| DynamicColor.LegacyConstantsDoNotAdapt | Sources/HybridColor/Color.swift:39-41 | before iOS 13 neither constant depends on the appearance, and the two still differ |
| Brightness.ScaleBrightness | Sources/HybridColor/ext/Color+Ext.swift:129-132 | the new colour keeps hue, saturation and alpha and has brightness multiplied by the factor |
| Brightness.Adjust | Sources/HybridColor/ext/Color+Ext.swift:122-147 | traps exactly on macOS when the colour-space conversion fails; a failed decomposition on iOS returns the colour unchanged; a successful one returns the scaled HSB colour |
| Brightness.Lighter | Sources/HybridColor/ext/Color+Ext.swift:87-89 | a decomposed colour keeps hue, saturation and alpha with brightness times 1 + amount (default 0.25); otherwise unchanged on iOS, a trap on macOS |
| Brightness.Darker | Sources/HybridColor/ext/Color+Ext.swift:96-98 | a decomposed colour keeps hue, saturation and alpha with brightness times 1 - amount (default 0.25); otherwise unchanged on iOS, a trap on macOS |
| Brightness.Wrap | Sources/HybridColor/ext/Color+Ext.swift:35-41 | `.init(uiColor:)` / `.init(nsColor:)` wrap the adjusted native colour unchanged, and a trap stays a trap |
| Brightness.LighterColor | Sources/HybridColor/ext/Color+Ext.swift:29-43 | no native form gives the colour back; otherwise the lightened native colour, with the trap exactly on macOS when decomposition fails |
| Brightness.DarkerColor | Sources/HybridColor/ext/Color+Ext.swift:52-66 | no native form gives the colour back; otherwise the darkened native colour, with the trap exactly on macOS when decomposition fails |
| Brightness.ZeroAmountKeepsComponents | Sources/HybridColor/ext/Color+Ext.swift:87-98 | amount 0 reproduces the decomposed components, both lighter and darker |
| Brightness.LighterDarkerBracket | Sources/HybridColor/ext/Color+Ext.swift:87-98 | for amounts in [0, 1] and non-negative brightness, darker stays within [0, b] and lighter is at least b |
| Brightness.FullyDarkenedIsBlack | Sources/HybridColor/ext/Color+Ext.swift:90-98 | `darker(amount: 1)` gives brightness 0, which is black |
| Brightness.LighteningIsNotClamped | Sources/HybridColor/ext/Color+Ext.swift:142-145 | full brightness lightened by the default amount asks for brightness 1.25 |
| Brightness.FullyLightenedIsNotWhite | Sources/HybridColor/ext/Color+Ext.swift:81-89 | `lighter(amount: 1)` doubles brightness, so it does not give white; brightness 0.25 ends at 0.5 |
| Brightness.AdjustFactorEnds | Sources/HybridColor/ext/Color+Ext.swift:117-132 | factor 1 gives back the decomposed components and factor 0 gives brightness 0, whereas the documentation calls 0 the original colour |
| Brightness.DefaultAmountOnMidGrey | Tests/HybridColorTests/HybridColorTests.swift:5-15 | mid grey becomes 0.625 lighter and 0.375 darker, so neither keeps the original brightness 0.5 |
| Brightness.AdjustComposes | Sources/HybridColor/ext/Color+Ext.swift:122-147 | where the toolkit reads back the once-adjusted colour unchanged, two adjustments equal one adjustment by the product of the factors |
| Brightness.ShrinkKeepsIff | Sources/HybridColor/ext/Color+Ext.swift:87-98 | the round-trip factor 1 - amount^2 keeps a brightness b exactly when the amount or b is 0 |
| Brightness.DarkerAfterLighterIsLossy | Sources/HybridColor/ext/Color+Ext.swift:87-98 | where the toolkit reads back the lightened colour unchanged, lighter then darker by the same amount leaves brightness b * (1 - amount^2), never above a non-negative b |
| Brightness.MidGreyRoundTripIsLossy | Sources/HybridColor/ext/Color+Ext.swift:87-98 | where the toolkit reads back the lightened colour unchanged, mid grey comes back from lighter-then-darker with the default amount at 0.46875 |
| SystemGrays.UnderscoreDarkGray | Sources/HybridColor/Color+MacOS.swift:14-16 | an opaque neutral grey of one third |
| SystemGrays.UnderscoreLightGray | Sources/HybridColor/Color+MacOS.swift:20-22 | an opaque neutral grey of two thirds |
| SystemGrays.Level | Sources/HybridColor/Color+MacOS.swift:36-73 | every entry of levels 2 to 6 is opaque with channels in [0, 1], and its light variant is lighter than its dark one in every channel |
| SystemGrays.LevelsMonotone | Sources/HybridColor/Color+MacOS.swift:36-73 | going up the levels, light variants never darken and dark variants never lighten |
| SystemGrays.SystemGrayRgba | Sources/HybridColor/Color+MacOS.swift:26-28 | `NSColor.systemGray` is opaque with channels in [0, 1], red equal to green and blue above them |
| SystemGrays.Level6IsExtreme | Sources/HybridColor/Color+MacOS.swift:36-73 | level 6 has the lightest light and the darkest dark variant, strictly so against every lower level and against the single `systemGray` |
| SystemGrays.Levels2And3Coincide | Sources/HybridColor/Color+MacOS.swift:36-48 | levels 2 and 3 are the same pair, so the ordering across levels is not strict |
| SystemGrays.SystemGrayColor | Sources/HybridColor/Color+MacOS.swift:110-155 | `Color.systemGrayN` shows the level's dark entry in dark appearance and its light entry otherwise |
| SystemGrays.DarkGrayColor | Sources/HybridColor/Color+MacOS.swift:85-90 | `Color.darkGray` shows AppKit's dark grey in every appearance |
| SystemGrays.LightGrayColor | Sources/HybridColor/Color+MacOS.swift:95-98 | `Color.lightGray` shows the two-thirds grey in every appearance |
| SystemGrays.SystemGraySingle | Sources/HybridColor/Color+MacOS.swift:100-105 | `Color.systemGray` shows the fixed (0.56, 0.56, 0.58) grey in every appearance, although its documentation says it adapts |

## Left out

- `blended(fraction:color:)` on `NSColor` and `Color` (Sources/HybridColor/ext/Color+Ext.swift:162-164, 181-187): the blend is done entirely by AppKit's `blended(withFraction:of:)`, which is not part of this model.
- Sources/HybridColor/Color+IOS.swift, and `background`, `secondaryBackground` and `tertiaryBackground` in Sources/HybridColor/Color.swift: they forward UIKit or AppKit system colours and hold no logic of their own.
- Package.swift: build configuration only. Its platform floor (macOS 14, iOS 17) means a dynamic provider always exists on a supported host, so the pre-iOS-13 branch of `Color(light:dark:)` (Sources/HybridColor/Color.swift:39-41) never runs; `DynamicColor.Hybrid`, `BlackOrWhite`, `WhiteOrBlack` and `LegacyConstantsDoNotAdapt` model it only because the source contains it.
- Conversion between RGB and HSB: `getHue` and `init(hue:saturation:brightness:alpha:)` are toolkit code. `getHue` is a parameter of `Brightness.Toolkit`, and an adjusted colour is kept in HSB form as the components it was built from.
- The conversion inside `resolvedColorSpace` (Sources/HybridColor/ext/Color+Ext.swift:103-109): it is folded into the macOS `getHue` parameter. Its force-unwrap failing is the `Traps` outcome.
- The dynamic-provider callbacks, `bestMatch(from:)` and trait collections: these host mechanisms are replaced by `DynamicColor.Resolve` applied to an `Appearance` value.
- `CGFloat` rounding: channels and brightness are exact reals. Dividing by 255 and multiplying by the factor are exact here, and IEEE rounding is not modelled.
- The width of `Int`: every property about literals holds for every integer, so 64-bit wrap-around never matters.
- Swift `assert` is active only in debug builds. `OSColorIOS.InitRgba` models it as a precondition. Every `init(hex:a:)` call meets it, whatever the build.
- `NSColor(white:alpha:)` uses a grayscale colour space. `SystemGrays.UnderscoreLightGray` gives it as equal RGB channels.
- `NSColor.darkGray` belongs to AppKit. `SystemGrays.DarkGrayColor` takes it as a parameter.
- The `Swift.print` diagnostics in `Color.lighter` and `Color.darker`: they are output only.
- Brightness.DarkerAfterLighterIsLossy: gives the exact brightness b * (1 - amount^2) after the round trip and states that it never rises. `Brightness.ShrinkKeepsIff` states when that product equals b; the two are not joined into one lemma about the adjusted colour. `Brightness.MidGreyRoundTripIsLossy` shows the strict loss for mid grey.
- Brightness.AdjustComposes, Brightness.DarkerAfterLighterIsLossy and Brightness.MidGreyRoundTripIsLossy: each holds only where the toolkit reads back the intermediate colour it built with the same components (`Brightness.ReadsBack`). A toolkit that clamps brightness on construction does not do this when the brightness leaves [0, 1].
- Brightness.LighterColor and Brightness.DarkerColor: when the colour has a native form and the iOS decomposition fails, the result is that native form wrapped again. The model does not claim it equals the original SwiftUI colour.
