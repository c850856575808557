/** The byte layout shared by the two `init(hex:a:)` decoders (UIKit and AppKit): red in bits 16-23,
    green in bits 8-15, blue in bits 0-7, each taken out with a shift and the mask `0xFF`. */
module HexLayout {
  import opened Bits

  /** The integer red, green and blue arguments that `init(hex:a:)` hands to `init(red:green:blue:a:)`. */
  datatype Components = Components(red: int, green: int, blue: int)

  const ByteMask: nat := 0xFF
  /** The number of values a 24-bit `0xRRGGBB` literal can take. */
  const HexRange: int := 0x100_0000

  predicate IsByte(v: int) {
    0 <= v <= 255
  }

  predicate InByteRange(c: Components) {
    IsByte(c.red) && IsByte(c.green) && IsByte(c.blue)
  }

  lemma Pow2Constants()
    ensures Pow2(8) == 0x100 && Pow2(16) == 0x1_0000
  {
    assert Pow2(4) == 16 by {
      assert Pow2(1) == 2;
      assert Pow2(2) == 4;
      assert Pow2(3) == 8;
    }
    Pow2Add(4, 4);
    Pow2Add(8, 8);
  }

  /** The three bytes of `hex`: its base-256 digits counted from the right, negative `hex` included.
      Every `Int` yields three bytes, so the range asserts of UIKit's `init(red:green:blue:a:)` cannot
      fire on the hex path. */
  function Extract(hex: int): (c: Components)
    ensures InByteRange(c)
  {
    Components((hex / 0x1_0000) % 0x100, (hex / 0x100) % 0x100, hex % 0x100)
  }

  /** `(hex >> 16) & 0xFF`, `(hex >> 8) & 0xFF` and `hex & 0xFF`, as written with Swift's shift and mask,
      compute exactly the digits `Extract` names. */
  function ShiftAndMask(hex: int): (c: Components)
    ensures c == Extract(hex)
  {
    Pow2Constants();
    ShrIsDiv(hex, 16);
    ShrIsDiv(hex, 8);
    AndLowMaskIsMod(Shr(hex, 16), 8);
    AndLowMaskIsMod(Shr(hex, 8), 8);
    AndLowMaskIsMod(hex, 8);
    Components(And(Shr(hex, 16), ByteMask), And(Shr(hex, 8), ByteMask), And(hex, ByteMask))
  }

  /** The `0xRRGGBB` literal whose decoding gives the bytes `c`; the inverse of `Extract`. */
  function Encode(c: Components): (hex: int)
    requires InByteRange(c)
    ensures 0 <= hex < HexRange
  {
    c.red * 0x1_0000 + c.green * 0x100 + c.blue
  }

  /** Decoding an encoded triple gives the triple back. */
  lemma {:induction false} ExtractEncode(c: Components)
    requires InByteRange(c)
    ensures Extract(Encode(c)) == c
  {
    var hex := Encode(c);
    DivModUnique(hex, 0x100, c.red * 0x100 + c.green, c.blue);
    DivModUnique(hex, 0x1_0000, c.red, c.green * 0x100 + c.blue);
    DivModUnique(c.red * 0x100 + c.green, 0x100, c.red, c.green);
    DivModUnique(c.red, 0x100, 0, c.red);
    DivDiv(hex, 0x100, 0x100);
  }

  /** Encoding the decoded bytes gives back the low 24 bits of `hex`: for 0 <= hex < 2^24,
      `65536 * red + 256 * green + blue == hex`. */
  lemma {:induction false} EncodeExtract(hex: int)
    ensures Encode(Extract(hex)) == hex % HexRange
  {
    var c := Extract(hex);
    var x1 := hex / 0x100;
    var x2 := x1 / 0x100;
    var x3 := x2 / 0x100;
    DivDiv(hex, 0x100, 0x100);
    assert x2 == hex / 0x1_0000;
    assert hex == x1 * 0x100 + c.blue;
    assert x1 == x2 * 0x100 + c.green;
    assert x2 == x3 * 0x100 + c.red;
    assert hex == x3 * HexRange + Encode(c);
    DivModUnique(hex, HexRange, x3, Encode(c));
  }

  /** The decoded bytes depend only on the low 24 bits of `hex`. */
  lemma {:induction false} ExtractLow24(hex: int)
    ensures Extract(hex) == Extract(hex % HexRange)
  {
    EncodeExtract(hex);
    ExtractEncode(Extract(hex));
  }

  /** Bits above bit 23 are ignored: `hex` and `hex + k * 2^24` decode to the same bytes. */
  lemma {:induction false} HighBitsIgnored(hex: int, k: int)
    ensures Extract(hex + k * HexRange) == Extract(hex)
  {
    var shifted := hex + k * HexRange;
    assert shifted % HexRange == hex % HexRange by {
      ModAddMultiple(hex, k, HexRange);
    }
    ExtractSameLow24(shifted, hex);
  }

  /** Literals that agree in their low 24 bits decode to the same bytes. */
  lemma {:induction false} ExtractSameLow24(h1: int, h2: int)
    requires h1 % HexRange == h2 % HexRange
    ensures Extract(h1) == Extract(h2)
  {
    ExtractLow24(h1);
    ExtractLow24(h2);
  }

  /** Two literals decode to the same bytes exactly when they agree in their low 24 bits. */
  lemma {:induction false} ExtractSameIff(h1: int, h2: int)
    ensures Extract(h1) == Extract(h2) <==> h1 % HexRange == h2 % HexRange
  {
    EncodeExtract(h1);
    EncodeExtract(h2);
    ExtractLow24(h1);
    ExtractLow24(h2);
  }

  /** Bit layout: bit j of red is bit 16 + j of `hex`, of green bit 8 + j, of blue bit j. */
  lemma {:induction false} BitLayout(hex: int, j: nat)
    requires j < 8
    ensures Bit(Extract(hex).red, j) == Bit(hex, 16 + j)
    ensures Bit(Extract(hex).green, j) == Bit(hex, 8 + j)
    ensures Bit(Extract(hex).blue, j) == Bit(hex, j)
  {
    Pow2Constants();
    assert Pow2(0) == 1;
    FieldBit(hex, 16, 8, j);
    FieldBit(hex, 8, 8, j);
    FieldBit(hex, 0, 8, j);
  }
}
