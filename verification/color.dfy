/**
 * The 8-bit RGBA colour `RGBA8` (Math/Color.h): four byte channels that pack
 * into one 32-bit word with `r` in the low byte and `a` in the high byte.
 */
module Color {

  datatype RGBA8 = RGBA8(r: bv8, g: bv8, b: bv8, a: bv8)

  /** `RGBA8(uint32_t c)`: each channel is one byte of `c`, `r` lowest. */
  function FromU32(c: bv32): (x: RGBA8)
    ensures ToU32(x) == c
  {
    RGBA8(((c >> 0) & 0xFF) as bv8, ((c >> 8) & 0xFF) as bv8,
          ((c >> 16) & 0xFF) as bv8, ((c >> 24) & 0xFF) as bv8)
  }

  /** `source()`: the channels packed back into one word, `r` in the lowest
      byte and `a` in the highest. */
  function ToU32(x: RGBA8): (w: bv32)
    ensures (w & 0xFF) as bv8 == x.r && ((w >> 8) & 0xFF) as bv8 == x.g
    ensures ((w >> 16) & 0xFF) as bv8 == x.b && ((w >> 24) & 0xFF) as bv8 == x.a
  {
    ((x.a as bv32) << 24) | ((x.b as bv32) << 16) | ((x.g as bv32) << 8) | ((x.r as bv32) << 0)
  }

  /** Packing then unpacking gives back the colour. */
  lemma UnpackPack(x: RGBA8)
    ensures FromU32(ToU32(x)) == x
  {
  }

  /** Two colours with the same packed word are the same colour. */
  lemma PackInjective(x: RGBA8, y: RGBA8)
    ensures ToU32(x) == ToU32(y) <==> x == y
  {
    UnpackPack(x);
    UnpackPack(y);
  }

  /** The three-channel constructor: opaque. */
  function Rgb(r: bv8, g: bv8, b: bv8): (x: RGBA8)
    ensures x.a == 255 && x.r == r && x.g == g && x.b == b
  {
    RGBA8(r, g, b, 255)
  }

  /** `operator==`: every channel agrees, so it is equality of colours. */
  function Equal(x: RGBA8, y: RGBA8): (b: bool)
    ensures b <==> x == y
  {
    x.r == y.r && x.g == y.g && x.b == y.b && x.a == y.a
  }

  /** `operator!=`: some channel differs, so the colours differ. */
  function NotEqual(x: RGBA8, y: RGBA8): (b: bool)
    ensures b <==> x != y
  {
    x.r != y.r || x.g != y.g || x.b != y.b || x.a != y.a
  }

  /** `==` is value equality of the colour and `!=` is its exact negation. */
  lemma EqualityOperators(x: RGBA8, y: RGBA8)
    ensures Equal(x, y) <==> x == y
    ensures NotEqual(x, y) <==> !Equal(x, y)
  {
  }

  /** `invert(invert_alpha)`: each colour channel becomes `255 - v`; alpha only
      on request. */
  function Invert(x: RGBA8, invertAlpha: bool): (y: RGBA8)
    ensures y.r as int == 255 - x.r as int
    ensures y.g as int == 255 - x.g as int
    ensures y.b as int == 255 - x.b as int
    ensures !invertAlpha ==> y.a == x.a
    ensures invertAlpha ==> y.a as int == 255 - x.a as int
  {
    RGBA8(255 - x.r, 255 - x.g, 255 - x.b, if invertAlpha then 255 - x.a else x.a)
  }

  /** Inverting twice, with the same flag, restores the colour. */
  lemma InvertInvolution(x: RGBA8, invertAlpha: bool)
    ensures Invert(Invert(x, invertAlpha), invertAlpha) == x
  {
  }

  /** `operator[]`: channels in memory order r, g, b, a. */
  function Channel(x: RGBA8, i: int): (v: bv8)
    requires 0 <= i < 4
    ensures v == ((ToU32(x) >> (8 * i) as bv32) & 0xFF) as bv8
  {
    PackedByte(x, i);
    if i == 0 then x.r else if i == 1 then x.g else if i == 2 then x.b else x.a
  }

  /** Byte `i` of the packed word is channel `i`. */
  lemma PackedByte(x: RGBA8, i: int)
    requires 0 <= i < 4
    ensures var v := ((ToU32(x) >> (8 * i) as bv32) & 0xFF) as bv8;
      v == if i == 0 then x.r else if i == 1 then x.g else if i == 2 then x.b else x.a
  {
    UnpackPack(x);
    if i == 0 {
      assert (8 * i) as bv32 == 0;
    } else if i == 1 {
      assert (8 * i) as bv32 == 8;
    } else if i == 2 {
      assert (8 * i) as bv32 == 16;
    } else {
      assert (8 * i) as bv32 == 24;
    }
  }

  /** `RGBA8_R(v)`, `RGBA8_G(v)`, `RGBA8_B(v)`: one opaque primary channel, as
      a packed word. */
  function RedOf(v: bv8): (x: RGBA8)
    ensures ToU32(x) == 0xFF00_0000 | (v as bv32)
  {
    Rgb(v, 0, 0)
  }

  function GreenOf(v: bv8): (x: RGBA8)
    ensures ToU32(x) == 0xFF00_0000 | ((v as bv32) << 8)
  {
    Rgb(0, v, 0)
  }

  function BlueOf(v: bv8): (x: RGBA8)
    ensures ToU32(x) == 0xFF00_0000 | ((v as bv32) << 16)
  {
    Rgb(0, 0, v)
  }

  /** `RGBA8_A(v)`: white with alpha `v`. */
  function AlphaOf(v: bv8): (x: RGBA8)
    ensures ToU32(x) == ((v as bv32) << 24) | 0x00FF_FFFF
  {
    RGBA8(255, 255, 255, v)
  }

  /** `RGBA8_Empty()`: fully transparent black, packing to zero. */
  function Transparent(): (x: RGBA8)
    ensures ToU32(x) == 0
  {
    RGBA8(0, 0, 0, 0)
  }

  /** `RGBA8_Black()`: opaque black. */
  function Black(): (x: RGBA8)
    ensures ToU32(x) == 0xFF00_0000
  {
    Rgb(0, 0, 0)
  }

  /** `RGBA8_White()`: opaque white, every bit set. */
  function White(): (x: RGBA8)
    ensures ToU32(x) == 0xFFFF_FFFF
  {
    Rgb(255, 255, 255)
  }

  /** `RGBA8_Red()`, `RGBA8_Green()`, `RGBA8_Blue()`: the full-intensity primaries. */
  lemma Primaries()
    ensures RedOf(255) == Rgb(255, 0, 0) && ToU32(RedOf(255)) == 0xFF00_00FF
    ensures GreenOf(255) == Rgb(0, 255, 0) && ToU32(GreenOf(255)) == 0xFF00_FF00
    ensures BlueOf(255) == Rgb(0, 0, 255) && ToU32(BlueOf(255)) == 0xFFFF_0000
  {
  }
}
