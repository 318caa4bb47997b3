/** Pixel values and encodings: bytes, the packed 32-bit colour SkPMColor, the colour and alpha
    types an image declares, the channel arithmetic of premultiplied alpha, and the byte codec of
    every colour type that the readback engine can write. */
module Pixels {

  import opened Arith

  type Byte = b: int | 0 <= b < 0x100
  type Word32 = w: int | 0 <= w < 0x1_0000_0000

  /** SkColorType, as far as the readback tests enumerate it. */
  datatype ColorType = Unknown | Alpha8 | RGB565 | ARGB4444 | RGBA8888 | RGB888x | BGRA8888 | Gray8 | RGBAF16

  /** SkAlphaType. */
  datatype AlphaType = UnknownAlpha | Opaque | Premul | Unpremul

  /** SkImageInfo without its colour space (colour spaces are only tagged, never applied). */
  datatype ImageInfo = ImageInfo(width: int, height: int, colorType: ColorType, alphaType: AlphaType)

  /** SkColorTypeBytesPerPixel. */
  function BytesPerPixel(ct: ColorType): nat
  {
    match ct
    case Unknown => 0
    case Alpha8 => 1
    case Gray8 => 1
    case RGB565 => 2
    case ARGB4444 => 2
    case RGBA8888 => 4
    case RGB888x => 4
    case BGRA8888 => 4
    case RGBAF16 => 8
  }

  /** The colour types whose pixels the model encodes and decodes: all but Unknown (no pixels)
      and RGBA_F16 (half floats). */
  predicate HasCodec(ct: ColorType)
  {
    ct != Unknown && ct != RGBAF16
  }

  /** The 32-bit colour types, whose pixels are one SkPMColor-sized word. */
  predicate Is32Bit(ct: ColorType)
  {
    ct == RGBA8888 || ct == RGB888x || ct == BGRA8888
  }

  // ---------------------------------------------------------------------------------------------
  // SkPMColor and its packing into a 32-bit word

  /** An SkPMColor, given by its four channel bytes. */
  datatype PMColor = PMColor(a: Byte, r: Byte, g: Byte, b: Byte)

  /** The colour with its alpha channel forced to 0xFF (`c |= 0xFF000000`). */
  function WithOpaqueAlpha(c: PMColor): PMColor
  {
    c.(a := 0xFF)
  }

  /** SkPackARGB32: alpha in bits 24-31, red 16-23, green 8-15, blue 0-7. */
  function PackARGB32(c: PMColor): Word32
  {
    c.a * 0x100_0000 + c.r * 0x1_0000 + c.g * 0x100 + c.b
  }

  /** SkGetPackedA32 and its siblings. */
  function GetPackedA32(w: Word32): Byte { w / 0x100_0000 }
  function GetPackedR32(w: Word32): Byte { w / 0x1_0000 % 0x100 }
  function GetPackedG32(w: Word32): Byte { w / 0x100 % 0x100 }
  function GetPackedB32(w: Word32): Byte { w % 0x100 }

  function UnpackARGB32(w: Word32): PMColor
  {
    PMColor(GetPackedA32(w), GetPackedR32(w), GetPackedG32(w), GetPackedB32(w))
  }

  /** Packing loses nothing: the getters give back each channel, and every word is a packed colour. */
  lemma PackUnpackARGB32(c: PMColor, w: Word32)
    ensures UnpackARGB32(PackARGB32(c)) == c
    ensures PackARGB32(UnpackARGB32(w)) == w
  {
    PackedChannels(c);
    WordChannels(w);
  }

  lemma PackedChannels(c: PMColor)
    ensures var w := PackARGB32(c);
      GetPackedA32(w) == c.a && GetPackedR32(w) == c.r && GetPackedG32(w) == c.g && GetPackedB32(w) == c.b
  {
    var w := PackARGB32(c);
    DivModUnique(w, 0x100_0000, c.a, c.r * 0x1_0000 + c.g * 0x100 + c.b);
    DivModUnique(w, 0x1_0000, c.a * 0x100 + c.r, c.g * 0x100 + c.b);
    DivModUnique(c.a * 0x100 + c.r, 0x100, c.a, c.r);
    DivModUnique(w, 0x100, c.a * 0x1_0000 + c.r * 0x100 + c.g, c.b);
    DivModUnique(c.a * 0x1_0000 + c.r * 0x100 + c.g, 0x100, c.a * 0x100 + c.r, c.g);
  }

  lemma WordChannels(w: Word32)
    ensures w == GetPackedA32(w) * 0x100_0000 + GetPackedR32(w) * 0x1_0000 + GetPackedG32(w) * 0x100 + GetPackedB32(w)
  {
    var b, t1 := w % 0x100, w / 0x100;
    var g, t2 := t1 % 0x100, t1 / 0x100;
    var r, a := t2 % 0x100, t2 / 0x100;
    assert w == a * 0x100_0000 + r * 0x1_0000 + g * 0x100 + b;
    DivModUnique(w, 0x1_0000, t2, g * 0x100 + b);
    DivModUnique(w, 0x100_0000, a, r * 0x1_0000 + g * 0x100 + b);
  }

  /** Forcing alpha on the colour is the bitwise `| 0xFF000000` on its packed word. */
  lemma OpaqueAlphaIsOrMask(c: PMColor)
    ensures PackARGB32(WithOpaqueAlpha(c)) == 0xFF00_0000 + PackARGB32(c) % 0x100_0000
    ensures GetPackedA32(PackARGB32(WithOpaqueAlpha(c))) == 0xFF
  {
    var low := c.r * 0x1_0000 + c.g * 0x100 + c.b;
    DivModUnique(PackARGB32(c), 0x100_0000, c.a, low);
    PackedChannels(WithOpaqueAlpha(c));
  }

  // ---------------------------------------------------------------------------------------------
  // Words in memory (little-endian)

  /** The four bytes a 32-bit word occupies in memory, least significant first. */
  function StoreWord(w: Word32): (p: seq<Byte>)
    ensures |p| == 4
  {
    [w % 0x100, w / 0x100 % 0x100, w / 0x1_0000 % 0x100, w / 0x100_0000]
  }

  /** The 32-bit word read from four bytes of memory. */
  function LoadWord(p: seq<Byte>): Word32
    requires |p| == 4
  {
    PackARGB32(PMColor(p[3], p[2], p[1], p[0]))
  }

  lemma LoadStoreWord(w: Word32, p: seq<Byte>)
    requires |p| == 4
    ensures LoadWord(StoreWord(w)) == w
    ensures StoreWord(LoadWord(p)) == p
  {
    WordChannels(w);
    PackedChannels(PMColor(p[3], p[2], p[1], p[0]));
  }

  /** An SkPMColor stored as a word lies in memory as blue, green, red, alpha. */
  lemma N32ByteOrder(c: PMColor)
    ensures StoreWord(PackARGB32(c)) == [c.b, c.g, c.r, c.a]
  {
    PackedChannels(c);
  }

  // ---------------------------------------------------------------------------------------------
  // Premultiplied alpha

  /** SkMulDiv255Round: x*y/255 rounded to the nearest integer. */
  function MulDiv255Round(x: Byte, y: Byte): (q: Byte)
    ensures x * y <= 255 * q + 127 && 255 * q <= x * y + 127
    ensures q <= x && q <= y
  {
    MulMonotone(x, 255, y);
    MulMonotone(y, 255, x);
    (x * y + 127) / 255
  }

  /** SkMulDiv255Ceiling: x*y/255 rounded up. */
  function MulDiv255Ceiling(x: Byte, y: Byte): (q: Byte)
    ensures x * y <= 255 * q < x * y + 255
    ensures q <= x && q <= y
  {
    MulMonotone(x, 255, y);
    MulMonotone(y, 255, x);
    (x * y + 254) / 255
  }

  /** A premultiplied colour has no colour channel above its alpha. */
  predicate IsPremultiplied(c: PMColor)
  {
    c.r <= c.a && c.g <= c.a && c.b <= c.a
  }

  /** SkPremultiplyARGBInline: each colour channel scaled by alpha/255, unless alpha is 0xFF. */
  function PremultiplyARGB(a: Byte, r: Byte, g: Byte, b: Byte): (c: PMColor)
    ensures c.a == a && IsPremultiplied(c)
    ensures a == 0xFF ==> c == PMColor(a, r, g, b)
    ensures a == 0 ==> c == PMColor(0, 0, 0, 0)
  {
    if a != 0xFF then
      PMColor(a, MulDiv255Round(r, a), MulDiv255Round(g, a), MulDiv255Round(b, a))
    else
      PMColor(a, r, g, b)
  }

  /** Premultiplies an unpremultiplied colour. */
  function Premultiply(c: PMColor): (p: PMColor)
    ensures p.a == c.a && IsPremultiplied(p)
  {
    PremultiplyARGB(c.a, c.r, c.g, c.b)
  }

  /** One channel of the inverse conversion: 255*v/a rounded up (saturating), 0 for a zero alpha. */
  function UnpremulChannel(v: Byte, a: Byte): (u: Byte)
    ensures a == 0 ==> u == 0
    ensures 0 < a && v <= a ==> 255 * v <= u * a < 255 * v + a
  {
    if a == 0 then 0
    else
      var q := (255 * v + a - 1) / a;
      if q > 255 then 255 else UnpremulBound(v, a, q); q
  }

  lemma UnpremulBound(v: Byte, a: Byte, q: int)
    requires 0 < a && q == (255 * v + a - 1) / a
    ensures q >= 0
    ensures v <= a ==> q <= 255 && 255 * v <= q * a < 255 * v + a
  {
    var n := 255 * v + a - 1;
    assert n == q * a + n % a;
    if v <= a && q > 255 {
      MulMonotone(256, q, a);
    }
  }

  /** Unpremultiplies a premultiplied colour, keeping alpha. */
  function Unpremultiply(c: PMColor): (u: PMColor)
    ensures u.a == c.a
    ensures c.a == 0xFF ==> u == c
  {
    PMColor(c.a, UnpremulChannel(c.r, c.a), UnpremulChannel(c.g, c.a), UnpremulChannel(c.b, c.a))
  }

  /** Unpremultiplying a premultiplied channel and multiplying back by alpha with upward rounding
      gives the channel or one more: the source of the readback tests' tolerance. */
  lemma UnpremulCeilingWithinOne(v: Byte, a: Byte)
    requires v <= a
    ensures v <= MulDiv255Ceiling(UnpremulChannel(v, a), a) <= v + 1
  {
    var u := UnpremulChannel(v, a);
    var m := MulDiv255Ceiling(u, a);
    if a > 0 {
      assert 255 * v <= u * a < 255 * v + a;
      assert u * a <= 255 * m < u * a + 255;
    }
  }

  // ---------------------------------------------------------------------------------------------
  // Byte codecs, one per colour type

  /** SkComputeLuminance: the grey level of a colour. */
  function Luminance(r: Byte, g: Byte, b: Byte): (y: Byte)
    ensures r == g == b ==> y == r
  {
    (r * 54 + g * 183 + b * 19) / 256
  }

  function Pack565(c: PMColor): (w: int)
    ensures 0 <= w < 0x1_0000
  {
    (c.r / 8) * 0x800 + (c.g / 4) * 0x20 + c.b / 8
  }

  function Pack4444(c: PMColor): (w: int)
    ensures 0 <= w < 0x1_0000
  {
    (c.r / 16) * 0x1000 + (c.g / 16) * 0x100 + (c.b / 16) * 0x10 + c.a / 16
  }

  /** The two bytes a 16-bit word occupies in memory, least significant first. */
  function StoreHalf(w: int): (p: seq<Byte>)
    requires 0 <= w < 0x1_0000
    ensures |p| == 2
  {
    [w % 0x100, w / 0x100]
  }

  function LoadHalf(p: seq<Byte>): (w: int)
    requires |p| == 2
    ensures 0 <= w < 0x1_0000
  {
    p[0] + p[1] as int * 0x100
  }

  /** The bytes one pixel of colour type `ct` holds for colour `c`. The colour is written as it is
      given; alpha handling is the converter's business (see Convert.ConvertColor). */
  function Encode(ct: ColorType, c: PMColor): (p: seq<Byte>)
    requires HasCodec(ct)
    ensures |p| == BytesPerPixel(ct)
  {
    match ct
    case Alpha8 => [c.a]
    case Gray8 => [Luminance(c.r, c.g, c.b)]
    case RGB565 => StoreHalf(Pack565(c))
    case ARGB4444 => StoreHalf(Pack4444(c))
    case RGBA8888 => [c.r, c.g, c.b, c.a]
    case RGB888x => [c.r, c.g, c.b, 0xFF]
    case BGRA8888 => [c.b, c.g, c.r, c.a]
  }

  /** (n << 3) | (n >> 2) and its relatives: widening a 5-, 6- or 4-bit channel to 8 bits. */
  function Expand5(n: int): Byte requires 0 <= n < 32 { n * 8 + n / 4 }
  function Expand6(n: int): Byte requires 0 <= n < 64 { n * 4 + n / 16 }
  function Expand4(n: int): Byte requires 0 <= n < 16 { n * 17 }

  /** The colour one pixel of colour type `ct` holds. */
  function Decode(ct: ColorType, p: seq<Byte>): PMColor
    requires HasCodec(ct) && |p| == BytesPerPixel(ct)
  {
    match ct
    case Alpha8 => PMColor(p[0], 0, 0, 0)
    case Gray8 => PMColor(0xFF, p[0], p[0], p[0])
    case RGB565 =>
      var w := LoadHalf(p);
      PMColor(0xFF, Expand5(w / 0x800), Expand6(w / 0x20 % 0x40), Expand5(w % 0x20))
    case ARGB4444 =>
      var w := LoadHalf(p);
      PMColor(Expand4(w % 0x10), Expand4(w / 0x1000), Expand4(w / 0x100 % 0x10), Expand4(w / 0x10 % 0x10))
    case RGBA8888 => PMColor(p[3], p[0], p[1], p[2])
    case RGB888x => PMColor(0xFF, p[0], p[1], p[2])
    case BGRA8888 => PMColor(p[3], p[2], p[1], p[0])
  }

  /** A colour every codec represents exactly: each channel 0 or 0xFF, alpha 0xFF. */
  predicate IsPrimary(c: PMColor)
  {
    c.a == 0xFF && (c.r == 0 || c.r == 0xFF) && (c.g == 0 || c.g == 0xFF) && (c.b == 0 || c.b == 0xFF)
  }

  /** What decoding an encoded colour gives back, per colour type. */
  lemma DecodeEncode(ct: ColorType, c: PMColor)
    requires HasCodec(ct)
    ensures ct == RGBA8888 || ct == BGRA8888 ==> Decode(ct, Encode(ct, c)) == c
    ensures ct == RGB888x ==> Decode(ct, Encode(ct, c)) == WithOpaqueAlpha(c)
    ensures ct == Alpha8 ==> Decode(ct, Encode(ct, c)) == PMColor(c.a, 0, 0, 0)
    ensures ct == Gray8 && c.r == c.g == c.b ==> Decode(ct, Encode(ct, c)) == WithOpaqueAlpha(c)
    ensures (ct == RGB565 || ct == ARGB4444) && IsPrimary(c) ==> Decode(ct, Encode(ct, c)) == c
  {
    if IsPrimary(c) {
      PrimaryChannel(c.r);
      PrimaryChannel(c.g);
      PrimaryChannel(c.b);
      PrimaryChannel(c.a);
      if ct == RGB565 {
        DecodeEncode565(c);
      } else if ct == ARGB4444 {
        DecodeEncode4444(c);
      }
    }
  }

  /** The opaque colours RGB_565 holds exactly: each channel survives narrowing and widening. */
  predicate Exact565(c: PMColor)
  {
    c.a == 0xFF && Expand5(c.r / 8) == c.r && Expand6(c.g / 4) == c.g && Expand5(c.b / 8) == c.b
  }

  /** The colours ARGB_4444 holds exactly. */
  predicate Exact4444(c: PMColor)
  {
    Expand4(c.a / 16) == c.a && Expand4(c.r / 16) == c.r && Expand4(c.g / 16) == c.g && Expand4(c.b / 16) == c.b
  }

  lemma DecodeEncode565(c: PMColor)
    requires Exact565(c)
    ensures Decode(RGB565, Encode(RGB565, c)) == c
  {
    var w := Pack565(c);
    HalfRoundTrip(w);
    Fields565(w, c.r / 8, c.g / 4, c.b / 8);
  }

  lemma DecodeEncode4444(c: PMColor)
    requires Exact4444(c)
    ensures Decode(ARGB4444, Encode(ARGB4444, c)) == c
  {
    var w := Pack4444(c);
    HalfRoundTrip(w);
    Fields4444(w, c.r / 16, c.g / 16, c.b / 16, c.a / 16);
  }

  /** A channel that is 0 or 0xFF survives narrowing to 4, 5 or 6 bits and widening back. */
  lemma PrimaryChannel(v: Byte)
    requires v == 0 || v == 0xFF
    ensures Expand5(v / 8) == v && Expand6(v / 4) == v && Expand4(v / 16) == v
  {
  }

  lemma HalfRoundTrip(w: int)
    requires 0 <= w < 0x1_0000
    ensures LoadHalf(StoreHalf(w)) == w
  {
    DivModUnique(w, 0x100, w / 0x100, w % 0x100);
  }

  lemma Fields565(w: int, r5: int, g6: int, b5: int)
    requires 0 <= r5 < 32 && 0 <= g6 < 64 && 0 <= b5 < 32
    requires w == r5 * 0x800 + g6 * 0x20 + b5
    ensures w / 0x800 == r5 && w / 0x20 % 0x40 == g6 && w % 0x20 == b5
  {
    DivModUnique(w, 0x800, r5, g6 * 0x20 + b5);
    var hi := r5 * 0x40 + g6;
    assert hi * 0x20 == r5 * 0x800 + g6 * 0x20;
    DivModUnique(w, 0x20, hi, b5);
    DivModUnique(hi, 0x40, r5, g6);
  }

  lemma Fields4444(w: int, r4: int, g4: int, b4: int, a4: int)
    requires 0 <= r4 < 16 && 0 <= g4 < 16 && 0 <= b4 < 16 && 0 <= a4 < 16
    requires w == r4 * 0x1000 + g4 * 0x100 + b4 * 0x10 + a4
    ensures w / 0x1000 == r4 && w / 0x100 % 0x10 == g4 && w / 0x10 % 0x10 == b4 && w % 0x10 == a4
  {
    DivModUnique(w, 0x1000, r4, g4 * 0x100 + b4 * 0x10 + a4);
    var rg := r4 * 0x10 + g4;
    assert rg * 0x100 == r4 * 0x1000 + g4 * 0x100;
    DivModUnique(w, 0x100, rg, b4 * 0x10 + a4);
    DivModUnique(rg, 0x10, r4, g4);
    var rgb := rg * 0x10 + b4;
    assert rgb * 0x10 == r4 * 0x1000 + g4 * 0x100 + b4 * 0x10;
    DivModUnique(w, 0x10, rgb, a4);
    DivModUnique(rgb, 0x10, rg, b4);
  }
}
