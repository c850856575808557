/** SwiftUI `Color(light:dark:)` and the black/white pair built with it.

    The host's dynamic-provider callback (`NSColor(name:dynamicProvider:)`,
    `UIColor(dynamicProvider:)`) is replaced by the pure mapping it computes: `Resolve` is what the
    host gets back when it asks a colour for its value in an appearance. */
module DynamicColor {
  import opened ColorTypes

  /** `UIColor(dynamicProvider:)` needs iOS 13; AppKit's named dynamic colours are always used. */
  predicate ProviderAvailable(host: Host): (r: bool)
    ensures host.MacOS? ==> r
    ensures host.IOS? ==> (r <==> 13 <= host.major)
  {
    host.MacOS? || host.major >= 13
  }

  /** The fixed native colours a colour is built from. */
  function Leaves(c: Color): set<OSColor>
  {
    match c
    case Native(os) => {os}
    case Adaptive(light, dark) => Leaves(light) + Leaves(dark)
  }

  /** The native colour the host obtains from `c` in appearance `ap`. A dark appearance takes the dark
      variant (`bestMatch(from: [.darkAqua, .aqua]) == .darkAqua` on macOS, `.dark` on iOS), every other
      appearance the light one; the variant is itself resolved in the same appearance. The result is
      always one of the colours `c` was built from. */
  function Resolve(c: Color, ap: Appearance): (os: OSColor)
    ensures os in Leaves(c)
  {
    match c
    case Native(os) => os
    case Adaptive(light, dark) => if ap == Dark then Resolve(dark, ap) else Resolve(light, ap)
  }

  /** `Color(light:dark:)`. Where no dynamic provider exists (iOS before 13) the result is `light`
      itself, whatever the appearance. */
  function Hybrid(host: Host, light: Color, dark: Color): (c: Color)
    ensures !ProviderAvailable(host) ==> c == light
    ensures ProviderAvailable(host) ==> Resolve(c, Dark) == Resolve(dark, Dark)
    ensures forall ap :: ap != Dark ==> Resolve(c, ap) == Resolve(light, ap)
    ensures !ProviderAvailable(host) ==> forall ap :: Resolve(c, ap) == Resolve(light, ap)
  {
    if ProviderAvailable(host) then Adaptive(light, dark) else light
  }

  /** A colour that resolves to `c` in every appearance does not depend on the appearance. */
  predicate Constant(c: Color) {
    forall ap :: Resolve(c, ap) == Resolve(c, Light)
  }

  /** With equal variants the appearance no longer matters: `Color(light: c, dark: c)` resolves like `c`. */
  lemma HybridOfEqualVariants(host: Host, c: Color, ap: Appearance)
    ensures Resolve(Hybrid(host, c, c), ap) == Resolve(c, ap)
  {
  }

  /** The same colour with light and dark variants exchanged at every level. */
  function Swap(c: Color): (s: Color)
    ensures Leaves(s) == Leaves(c)
  {
    match c
    case Native(os) => c
    case Adaptive(light, dark) => Adaptive(Swap(dark), Swap(light))
  }

  /** Exchanging the variants exchanges what the colour shows in light and dark appearance. */
  lemma {:induction false} ResolveSwap(c: Color)
    ensures Resolve(Swap(c), Dark) == Resolve(c, Light)
    ensures Resolve(Swap(c), Light) == Resolve(c, Dark)
  {
    match c
    case Native(_) =>
    case Adaptive(light, dark) =>
      ResolveSwap(light);
      ResolveSwap(dark);
  }

  const White: OSColor := RGB(Rgba(1.0, 1.0, 1.0, 1.0))
  const Black: OSColor := RGB(Rgba(0.0, 0.0, 0.0, 1.0))

  /** `Color.blackOrWhite`: white in light mode, black in dark mode (always white before iOS 13). */
  function BlackOrWhite(host: Host): (c: Color)
    ensures forall ap :: ap != Dark ==> Resolve(c, ap) == White
    ensures Resolve(c, Dark) == (if ProviderAvailable(host) then Black else White)
  {
    Hybrid(host, Native(White), Native(Black))
  }

  /** `Color.whiteOrBlack`: black in light mode, white in dark mode (always black before iOS 13). */
  function WhiteOrBlack(host: Host): (c: Color)
    ensures forall ap :: ap != Dark ==> Resolve(c, ap) == Black
    ensures Resolve(c, Dark) == (if ProviderAvailable(host) then White else Black)
  {
    Hybrid(host, Native(Black), Native(White))
  }

  /** Wherever dynamic colours exist the two constants are each other's swap, so `blackOrWhite` in
      light mode is `whiteOrBlack` in dark mode and the other way round. */
  lemma BlackOrWhiteMirrorsWhiteOrBlack(host: Host)
    requires ProviderAvailable(host)
    ensures BlackOrWhite(host) == Swap(WhiteOrBlack(host))
    ensures Resolve(BlackOrWhite(host), Light) == Resolve(WhiteOrBlack(host), Dark)
    ensures Resolve(BlackOrWhite(host), Dark) == Resolve(WhiteOrBlack(host), Light)
  {
    ResolveSwap(WhiteOrBlack(host));
  }

  /** Before iOS 13 neither constant adapts: each shows its light variant in every appearance. */
  lemma LegacyConstantsDoNotAdapt(host: Host)
    requires !ProviderAvailable(host)
    ensures Constant(BlackOrWhite(host)) && Constant(WhiteOrBlack(host))
    ensures BlackOrWhite(host) != WhiteOrBlack(host)
  {
  }
}
