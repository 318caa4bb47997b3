/** The executable oracle of the readback tests: the colours the surface and the destination are
    filled with, the decoder and the tolerant comparator that judge a read pixel, the ordered rule
    that says whether a read must succeed, the strides destination bitmaps are allocated with, and
    the reference pixels of the conversion test. */
module Oracle {

  import opened Arith
  import opened Pixels
  import opened Rects
  import opened Layouts

  datatype Option<T> = None | Some(value: T)

  /** The surface under test is DevWidth x DevHeight pixels. */
  const DevWidth: int := 100
  const DevHeight: int := 100
  const DevRect: Rect := MakeWH(DevWidth, DevHeight)

  // ---------------------------------------------------------------------------------------------
  // Pixel generators

  /** The alpha of surface pixel (x, y): it cycles through 0xFF, 0x80, 0xCC, 0x00, 0x01 along
      every row and every column. */
  function SrcAlpha(x: int, y: int): Byte
    requires 0 <= x && 0 <= y
  {
    var k := (x + y) % 5;
    if k == 0 then 0xFF
    else if k == 1 then 0x80
    else if k == 2 then 0xCC
    else if k == 3 then 0x00
    else 0x01
  }

  /** get_src_color: red x, green y, blue 0x0C, alpha from the cycle, premultiplied. */
  function SrcColor(x: int, y: int): (c: PMColor)
    requires 0 <= x < DevWidth && 0 <= y < DevHeight
    ensures c.a == SrcAlpha(x, y) && IsPremultiplied(c)
    ensures c.r <= x && c.g <= y && c.b <= 0x0C
    ensures c.a == 0xFF ==> c == PMColor(0xFF, x, y, 0x0C)
    ensures c.a == 0 ==> c == PMColor(0, 0, 0, 0)
  {
    PremultiplyARGB(SrcAlpha(x, y), x, y, 0x0C)
  }

  /** get_dst_bmp_init_color: an opaque colour whose red, green and blue bytes spell the pixel's
      index n = y * w + x, so that every pixel of a bitmap of fewer than 2^24 pixels is distinct. */
  function DstInitColor(x: int, y: int, w: int): (c: PMColor)
    requires 0 <= x && 0 <= y && 0 <= w
    ensures c.a == 0xFF
    ensures PackARGB32(c) == 0xFF00_0000 + (y * w + x) % 0x100_0000
  {
    MulMonotone(0, y, w);
    var n := y * w + x;
    LowBytes(n);
    PMColor(0xFF, n / 0x1_0000 % 0x100, n / 0x100 % 0x100, n % 0x100)
  }

  /** The low three bytes of a non-negative integer. */
  lemma LowBytes(n: int)
    requires 0 <= n
    ensures n % 0x100_0000 == n / 0x1_0000 % 0x100 * 0x1_0000 + n / 0x100 % 0x100 * 0x100 + n % 0x100
  {
    var b, t1 := n % 0x100, n / 0x100;
    var g, t2 := t1 % 0x100, t1 / 0x100;
    var r, t3 := t2 % 0x100, t2 / 0x100;
    assert n == t3 * 0x100_0000 + r * 0x1_0000 + g * 0x100 + b;
    DivModUnique(n, 0x1_0000, t2, g * 0x100 + b);
    DivModUnique(n, 0x100_0000, t3, r * 0x1_0000 + g * 0x100 + b);
  }

  /** Two pixels of a w-wide bitmap of at most 2^24 pixels never share an initial colour, which
      is what lets the oracle notice a write to the wrong pixel. */
  lemma DstInitColorsDistinct(x1: int, y1: int, x2: int, y2: int, w: int)
    requires 0 <= x1 < w && 0 <= x2 < w && 0 <= y1 && 0 <= y2
    requires y1 * w + x1 < 0x100_0000 && y2 * w + x2 < 0x100_0000
    requires DstInitColor(x1, y1, w) == DstInitColor(x2, y2, w)
    ensures x1 == x2 && y1 == y2
  {
    MulMonotone(0, y1, w);
    MulMonotone(0, y2, w);
    var n1, n2 := y1 * w + x1, y2 * w + x2;
    assert n1 % 0x100_0000 == n2 % 0x100_0000;
    DivModUnique(n1, 0x100_0000, 0, n1);
    DivModUnique(n2, 0x100_0000, 0, n2);
    DivModUnique(n1, w, y1, x1);
    DivModUnique(n1, w, y2, x2);
  }

  // ---------------------------------------------------------------------------------------------
  // Judging one read pixel

  /** convert_to_pmcolor: the colour a 32-bit destination pixel holds, and whether it had to be
      premultiplied (exactly when the destination is unpremultiplied). BGRA memory is read as
      blue, green, red, alpha; RGBA and RGB_888x as red, green, blue, alpha; any other colour type
      reads as the zero colour. */
  function ConvertToPMColor(ct: ColorType, at: AlphaType, p: seq<Byte>): (r: (PMColor, bool))
    requires |p| == 4
    ensures r.1 <==> at == Unpremul
    ensures !Is32Bit(ct) ==> r.0 == PMColor(0, 0, 0, 0)
    ensures (ct == RGBA8888 || ct == BGRA8888) && at != Unpremul ==> Encode(ct, r.0) == p
    ensures ct == RGB888x && at != Unpremul && p[3] == 0xFF ==> Encode(ct, r.0) == p
    ensures Is32Bit(ct) ==> r.0.a == p[3]
    ensures Is32Bit(ct) && at == Unpremul ==> IsPremultiplied(r.0)
  {
    var doUnpremul := at == Unpremul;
    if !Is32Bit(ct) then
      (PMColor(0, 0, 0, 0), doUnpremul)
    else
      var c := if ct == BGRA8888 then PMColor(p[3], p[2], p[1], p[0]) else PMColor(p[3], p[0], p[1], p[2]);
      if doUnpremul then
        (PMColor(c.a, MulDiv255Ceiling(c.r, c.a), MulDiv255Ceiling(c.g, c.a), MulDiv255Ceiling(c.b, c.a)), true)
      else
        (c, false)
  }

  function Abs(n: int): nat
  {
    if n < 0 then -n else n
  }

  /** check_read_pixel: without a premultiplication step the colours must be equal; with one the
      alphas must be equal and every colour channel may be off by one. */
  function CheckReadPixel(a: PMColor, b: PMColor, didPremulConversion: bool): (ok: bool)
    ensures !didPremulConversion ==> (ok <==> a == b)
    ensures a == b ==> ok
    ensures ok ==> a.a == b.a
  {
    if !didPremulConversion then
      a == b
    else
      a.a == b.a && Abs(a.r - b.r) <= 1 && Abs(a.g - b.g) <= 1 && Abs(a.b - b.b) <= 1
  }

  /** The comparator does not care which colour is the read one. */
  lemma CheckReadPixelSymmetric(a: PMColor, b: PMColor, didPremulConversion: bool)
    ensures CheckReadPixel(a, b, didPremulConversion) == CheckReadPixel(b, a, didPremulConversion)
  {
  }

  /** The tolerance is exactly what unpremultiplying costs: a premultiplied colour, unpremultiplied,
      stored as an RGBA or BGRA pixel and decoded as an unpremultiplied one, passes against itself. */
  lemma UnpremulReadPasses(ct: ColorType, c: PMColor)
    requires IsPremultiplied(c) && (ct == RGBA8888 || ct == BGRA8888)
    ensures CheckReadPixel(ConvertToPMColor(ct, Unpremul, Encode(ct, Unpremultiply(c))).0, c, true)
  {
    UnpremulCeilingWithinOne(c.r, c.a);
    UnpremulCeilingWithinOne(c.g, c.a);
    UnpremulCeilingWithinOne(c.b, c.a);
  }

  // ---------------------------------------------------------------------------------------------
  // Whether a read must succeed

  datatype ReadSuccessExpectation = No | Maybe | Yes

  /** check_success_expectation: Maybe accepts either outcome, No demands failure, Yes success. */
  function CheckSuccessExpectation(expectation: ReadSuccessExpectation, actualSuccess: bool): (ok: bool)
    ensures expectation == Maybe ==> ok
    ensures expectation != Maybe ==> (ok <==> actualSuccess == (expectation == Yes))
  {
    match expectation
    case Maybe => true
    case No => !actualSuccess
    case Yes => actualSuccess
  }

  /** The format rules whose definitions live outside the test: SkImageInfoValidConversion(dst,
      src), SkColorTypeIsAlphaOnly and SkColorTypeIsAlwaysOpaque. */
  datatype FormatRules = FormatRules(
    validConversion: (ImageInfo, ImageInfo) -> bool,
    isAlphaOnly: ColorType -> bool,
    isAlwaysOpaque: ColorType -> bool)

  /** read_should_succeed: the first rule that applies decides. A request off the surface, or an
      invalid conversion, must fail; a raster read must then succeed; the GPU cannot premultiply
      an unpremultiplied source, may or may not read an alpha-only source, and cannot read a
      source that may be translucent into an always-opaque destination. */
  function ReadShouldSucceed(rules: FormatRules, srcRect: Rect, dstInfo: ImageInfo, srcInfo: ImageInfo,
                             isGPU: bool): (e: ReadSuccessExpectation)
    ensures !Intersects(srcRect, DevRect) || !rules.validConversion(dstInfo, srcInfo) ==> e == No
    ensures Intersects(srcRect, DevRect) && rules.validConversion(dstInfo, srcInfo) && !isGPU ==> e == Yes
    ensures e == Maybe <==>
      Intersects(srcRect, DevRect) && rules.validConversion(dstInfo, srcInfo) && isGPU
      && !(srcInfo.alphaType == Unpremul && dstInfo.alphaType == Premul)
      && rules.isAlphaOnly(srcInfo.colorType)
    ensures isGPU && srcInfo.alphaType == Unpremul && dstInfo.alphaType == Premul ==> e == No
    ensures isGPU && Intersects(srcRect, DevRect) && rules.validConversion(dstInfo, srcInfo)
      && !(srcInfo.alphaType == Unpremul && dstInfo.alphaType == Premul) && !rules.isAlphaOnly(srcInfo.colorType)
      ==> (e == Yes <==> rules.isAlwaysOpaque(srcInfo.colorType) || !rules.isAlwaysOpaque(dstInfo.colorType))
  {
    if !Intersects(srcRect, DevRect) then No
    else if !rules.validConversion(dstInfo, srcInfo) then No
    else if !isGPU then Yes
    else if srcInfo.alphaType == Unpremul && dstInfo.alphaType == Premul then No
    else if rules.isAlphaOnly(srcInfo.colorType) then Maybe
    else if !rules.isAlwaysOpaque(srcInfo.colorType) && rules.isAlwaysOpaque(dstInfo.colorType) then No
    else Yes
  }

  // ---------------------------------------------------------------------------------------------
  // Destination bitmaps

  /** BitmapInit: how a destination bitmap's rows are laid out. */
  datatype BitmapInit = Tight | RowBytes | RowBytesOdd

  /** The stride kinds the tests iterate over: the odd stride is disabled. */
  const LastBitmapInit: BitmapInit := RowBytes

  function Ordinal(init: BitmapInit): nat
  {
    match init
    case Tight => 0
    case RowBytes => 1
    case RowBytesOdd => 2
  }

  /** nextBMI: the following stride kind; after the last enumerator there is none. */
  function NextBMI(init: BitmapInit): (next: Option<BitmapInit>)
    ensures next.Some? ==> Ordinal(next.value) == Ordinal(init) + 1
    ensures next.None? <==> init == RowBytesOdd
  {
    match init
    case Tight => Some(RowBytes)
    case RowBytes => Some(RowBytesOdd)
    case RowBytesOdd => None
  }

  /** SkAlign4. */
  function Align4(n: nat): (a: nat)
    ensures a % 4 == 0 && n <= a < n + 4
  {
    (n + 3) / 4 * 4
  }

  /** init_bitmap's stride: the minimum for Tight, room for 16 more pixels rounded up to a multiple
      of four for RowBytes, and a stride three past a multiple of four for RowBytesOdd. */
  function RowBytesFor(init: BitmapInit, width: nat, bpp: nat): (rowBytes: nat)
    ensures width * bpp <= rowBytes
    ensures init == Tight ==> rowBytes == width * bpp
    ensures init == RowBytes ==> rowBytes % 4 == 0 && (width + 16) * bpp <= rowBytes < (width + 16) * bpp + 4
    ensures init == RowBytesOdd ==> rowBytes % 4 == 3
  {
    match init
    case Tight => width * bpp
    case RowBytes => Align4((width + 16) * bpp)
    case RowBytesOdd => Align4(width * bpp) + 3
  }

  /** gReadPixelsConfigs: the colour and alpha types of the destination bitmaps. */
  const ReadPixelsConfigs: seq<(ColorType, AlphaType)> := [
    (RGBA8888, Premul), (RGBA8888, Unpremul), (RGB888x, Opaque),
    (BGRA8888, Premul), (BGRA8888, Unpremul), (Alpha8, Premul)]

  function MakeLTRB(l: int, t: int, r: int, b: int): Rect { Rect(l, t, r, b) }

  /** gReadPixelsTestRects: the requested rectangles, in surface coordinates. */
  const ReadPixelsTestRects: seq<Rect> := [
    DevRect,
    MakeLTRB(-10, -10, DevWidth + 10, DevHeight + 10),
    MakeLTRB(DevWidth / 4, DevHeight / 4, 3 * DevWidth / 4, 3 * DevHeight / 4),
    MakeLTRB(-10, -10, -1, -1),
    MakeLTRB(-10, -10, 0, 0),
    MakeLTRB(-10, -10, DevWidth / 4, DevHeight / 4),
    MakeLTRB(-10, -10, DevWidth + 10, DevHeight / 4),
    MakeLTRB(-10, -10, DevWidth + 10, 0),
    MakeLTRB(3 * DevWidth / 4, -10, DevWidth + 10, DevHeight / 4),
    MakeLTRB(DevWidth / 4, -10, 3 * DevWidth / 4, DevHeight / 4),
    MakeLTRB(DevWidth + 1, -10, DevWidth + 10, -1),
    MakeLTRB(DevWidth, -10, DevWidth + 10, 0),
    MakeLTRB(-10, -10, DevWidth / 4, DevHeight + 10),
    MakeLTRB(-10, -10, 0, DevHeight + 10),
    MakeLTRB(-10, 3 * DevHeight / 4, DevWidth / 4, DevHeight + 10),
    MakeLTRB(-10, DevHeight / 4, DevWidth / 4, 3 * DevHeight / 4),
    MakeLTRB(-10, DevHeight + 1, -1, DevHeight + 10),
    MakeLTRB(-10, DevHeight, 0, DevHeight + 10),
    MakeLTRB(-10, 3 * DevHeight / 4, DevWidth + 10, DevHeight + 10),
    MakeLTRB(0, DevHeight, DevWidth, DevHeight + 10),
    MakeLTRB(3 * DevWidth / 4, 3 * DevHeight / 4, DevWidth + 10, DevHeight + 10),
    MakeLTRB(3 * DevWidth / 4, -10, DevWidth + 10, DevHeight + 10)]

  /** The rectangles that miss the surface, or only touch its edge or corner, are exactly those at
      positions 3, 4, 7, 10, 11, 13, 16, 17 and 19; every rectangle is non-empty. */
  lemma TestRectsOverlap(i: nat)
    requires i < |ReadPixelsTestRects|
    ensures !IsEmpty(ReadPixelsTestRects[i])
    ensures Intersects(ReadPixelsTestRects[i], DevRect) <==> i !in {3, 4, 7, 10, 11, 13, 16, 17, 19}
  {
  }

  // ---------------------------------------------------------------------------------------------
  // The five reference pixels: red, green, blue, white, black

  const RgbaWords: seq<Word32> := [0xFF0000FF, 0xFF00FF00, 0xFFFF0000, 0xFFFFFFFF, 0xFF000000]
  const BgraWords: seq<Word32> := [0xFFFF0000, 0xFF00FF00, 0xFF0000FF, 0xFFFFFFFF, 0xFF000000]
  /** SK_R16_MASK_IN_PLACE, SK_G16_MASK_IN_PLACE, SK_B16_MASK_IN_PLACE, white, black. */
  const Rgb565Halves: seq<int> := [0xF800, 0x07E0, 0x001F, 0xFFFF, 0x0000]
  const Rgba4444Halves: seq<int> := [0xF00F, 0x0F0F, 0x00FF, 0xFFFF, 0x000F]
  /** SK_Half1, the half float 1.0. */
  const Half1: int := 0x3C00
  /** Per pixel, the red, green, blue and alpha halves of the RGBA_F16 table. */
  const F16Halves: seq<seq<int>> := [
    [Half1, 0, 0, Half1], [0, Half1, 0, Half1], [0, 0, Half1, Half1], [Half1, Half1, Half1, Half1], [0, 0, 0, Half1]]

  /** The colours the reference pixels show. */
  const Primaries: seq<PMColor> := [
    PMColor(0xFF, 0xFF, 0, 0), PMColor(0xFF, 0, 0xFF, 0), PMColor(0xFF, 0, 0, 0xFF),
    PMColor(0xFF, 0xFF, 0xFF, 0xFF), PMColor(0xFF, 0, 0, 0)]

  /** The colour types with a reference table. */
  predicate HasReferencePixels(ct: ColorType)
  {
    ct != Unknown && ct != RGB888x
  }

  /** The memory image of reference pixel i for colour type ct. */
  function ReferencePixel(ct: ColorType, i: nat): (p: seq<Byte>)
    requires HasReferencePixels(ct) && i < 5
    ensures |p| == BytesPerPixel(ct)
  {
    match ct
    case Alpha8 => [0xFF]
    case Gray8 => [0xFF]
    case RGB565 => StoreHalf(Rgb565Halves[i])
    case ARGB4444 => StoreHalf(Rgba4444Halves[i])
    case RGBA8888 => StoreWord(RgbaWords[i])
    case BGRA8888 => StoreWord(BgraWords[i])
    case RGBAF16 =>
      StoreHalf(F16Halves[i][0]) + StoreHalf(F16Halves[i][1]) + StoreHalf(F16Halves[i][2]) + StoreHalf(F16Halves[i][3])
  }

  /** The five reference pixels of ct, one byte sequence each. */
  function ReferencePixels(ct: ColorType): (ps: seq<seq<Byte>>)
    requires HasReferencePixels(ct)
    ensures |ps| == 5 && forall i | 0 <= i < 5 :: ps[i] == ReferencePixel(ct, i)
  {
    seq(5, i requires 0 <= i < 5 => ReferencePixel(ct, i))
  }

  /** five_reference_pixels: the five pixels in memory, or none for a colour type without a table. */
  function FiveReferencePixels(ct: ColorType): (r: Option<seq<Byte>>)
    ensures r.Some? <==> HasReferencePixels(ct)
  {
    if HasReferencePixels(ct) then Some(Flatten(ReferencePixels(ct))) else None
  }

  /** Every coded reference pixel decodes to the colour it names; alpha-only and grey pixels, which
      cannot name a colour, are opaque and white. */
  lemma ReferencePixelColours(ct: ColorType, i: nat)
    requires HasCodec(ct) && ct != RGB888x && i < 5
    ensures ct == Alpha8 ==> Decode(ct, ReferencePixel(ct, i)) == PMColor(0xFF, 0, 0, 0)
    ensures ct == Gray8 ==> Decode(ct, ReferencePixel(ct, i)) == PMColor(0xFF, 0xFF, 0xFF, 0xFF)
    ensures ct != Alpha8 && ct != Gray8 ==> Decode(ct, ReferencePixel(ct, i)) == Primaries[i]
  {
    if ct != Alpha8 && ct != Gray8 {
      EncodePrimaries(ct, i);
      PrimaryChannel(Primaries[i].r);
      PrimaryChannel(Primaries[i].g);
      PrimaryChannel(Primaries[i].b);
      DecodeEncode(ct, Primaries[i]);
    }
  }

  /** Encoding a primary gives back the reference pixel of every colour type that can hold colour. */
  lemma EncodePrimaries(ct: ColorType, i: nat)
    requires HasCodec(ct) && ct != RGB888x && ct != Gray8 && i < 5
    ensures Encode(ct, Primaries[i]) == ReferencePixel(ct, i)
  {
    var c := Primaries[i];
    match ct
    case Alpha8 =>
    case RGB565 => assert Pack565(c) == Rgb565Halves[i];
    case ARGB4444 => assert Pack4444(c) == Rgba4444Halves[i];
    case RGBA8888 => assert StoreWord(RgbaWords[i]) == [c.r, c.g, c.b, c.a];
    case BGRA8888 => assert StoreWord(BgraWords[i]) == [c.b, c.g, c.r, c.a];
  }

  /** The RGBA and BGRA tables hold the same colours with the red and blue bytes swapped. */
  lemma RgbaBgraSwap(i: nat)
    requires i < 5
    ensures var p, q := ReferencePixel(RGBA8888, i), ReferencePixel(BGRA8888, i);
      q == [p[2], p[1], p[0], p[3]]
  {
  }
}
