/** The pixel conversion the readback performs: what one surface colour becomes in the
    destination's colour type and alpha type, and the conversion of a whole row of an image. */
module Convert {

  import opened Arith
  import opened Pixels
  import opened Layouts
  import opened Oracle

  /** The colour stored for surface colour c: alpha is forced to opaque when either side is
      opaque; then an unpremultiplied destination of a premultiplied source is unpremultiplied and
      a premultiplied destination of an unpremultiplied source is premultiplied. */
  function ConvertColor(srcAT: AlphaType, dstAT: AlphaType, c: PMColor): (d: PMColor)
    ensures d.a == (if srcAT == Opaque || dstAT == Opaque then 0xFF else c.a)
    ensures c.a == 0xFF || srcAT == Opaque || dstAT == Opaque ==> d == WithOpaqueAlpha(c)
    ensures srcAT != Unpremul && dstAT != Unpremul ==> d.r == c.r && d.g == c.g && d.b == c.b
    ensures dstAT != Unpremul ==> IsPremultiplied(c) ==> IsPremultiplied(d)
  {
    var forced := if srcAT == Opaque || dstAT == Opaque then WithOpaqueAlpha(c) else c;
    if dstAT == Unpremul && srcAT != Unpremul then Unpremultiply(forced)
    else if srcAT == Unpremul && dstAT != Unpremul then Premultiply(forced)
    else forced
  }

  /** The bytes one destination pixel receives for surface colour c. */
  function ConvertPixel(srcAT: AlphaType, dstCT: ColorType, dstAT: AlphaType, c: PMColor): (p: seq<Byte>)
    requires HasCodec(dstCT)
    ensures |p| == BytesPerPixel(dstCT)
    ensures dstCT == Alpha8 ==> p == [if srcAT == Opaque || dstAT == Opaque then 0xFF else c.a]
  {
    Encode(dstCT, ConvertColor(srcAT, dstAT, c))
  }

  /** A row of `n` pixels of colour type ct is n * bpp bytes. */
  predicate IsRow(info: ImageInfo, bytes: seq<Byte>)
  {
    HasCodec(info.colorType) && info.width >= 0 && |bytes| == info.width * BytesPerPixel(info.colorType)
  }

  /** Pixel i of the destination row is the conversion of pixel i of the source row. */
  predicate PixelConverts(dstInfo: ImageInfo, srcInfo: ImageInfo, src: seq<Byte>, dst: seq<Byte>, i: nat)
    requires HasCodec(srcInfo.colorType) && HasCodec(dstInfo.colorType)
  {
    var bs, bd := BytesPerPixel(srcInfo.colorType), BytesPerPixel(dstInfo.colorType);
    (i + 1) * bs <= |src| && (i + 1) * bd <= |dst| &&
    PixelOf(dst, bd, i) == ConvertPixel(srcInfo.alphaType, dstInfo.colorType, dstInfo.alphaType,
                                        Decode(srcInfo.colorType, PixelOf(src, bs, i)))
  }

  /** Every pixel of the destination row is the conversion of the source pixel at its place. */
  predicate RowConverts(dstInfo: ImageInfo, srcInfo: ImageInfo, src: seq<Byte>, dst: seq<Byte>)
    requires IsRow(srcInfo, src) && HasCodec(dstInfo.colorType)
  {
    forall i: nat | i < srcInfo.width :: PixelConverts(dstInfo, srcInfo, src, dst, i)
  }

  /** SkImage::readPixels of a one-row image into a one-row pixmap of the same width at (0, 0):
      nothing is written when the conversion is invalid; otherwise pixel i of the destination is
      the conversion of pixel i of the source. */
  function ReadImageRow(rules: FormatRules, dstInfo: ImageInfo, srcInfo: ImageInfo, src: seq<Byte>)
    : (r: Option<seq<Byte>>)
    requires IsRow(srcInfo, src) && HasCodec(dstInfo.colorType) && dstInfo.width == srcInfo.width
    ensures r.Some? <==> rules.validConversion(dstInfo, srcInfo)
    ensures r.Some? ==> IsRow(dstInfo, r.value)
    ensures r.Some? ==> RowConverts(dstInfo, srcInfo, src, r.value)
  {
    if !rules.validConversion(dstInfo, srcInfo) then None
    else
      var pixels := ConvertedPixels(dstInfo, srcInfo, src);
      RowPixels(srcInfo, dstInfo, src, pixels);
      Some(Flatten(pixels))
  }

  /** The conversion of pixel i of a source row. */
  function ConvertedPixel(dstInfo: ImageInfo, srcInfo: ImageInfo, src: seq<Byte>, i: nat): (p: seq<Byte>)
    requires IsRow(srcInfo, src) && HasCodec(dstInfo.colorType) && i < srcInfo.width
    ensures (i + 1) * BytesPerPixel(srcInfo.colorType) <= |src|
    ensures |p| == BytesPerPixel(dstInfo.colorType)
  {
    var bs := BytesPerPixel(srcInfo.colorType);
    MulMonotone(i + 1, srcInfo.width, bs);
    ConvertPixel(srcInfo.alphaType, dstInfo.colorType, dstInfo.alphaType,
                 Decode(srcInfo.colorType, PixelOf(src, bs, i)))
  }

  /** The converted pixels of a row, one byte sequence per pixel. */
  function ConvertedPixels(dstInfo: ImageInfo, srcInfo: ImageInfo, src: seq<Byte>): (ps: seq<seq<Byte>>)
    requires IsRow(srcInfo, src) && HasCodec(dstInfo.colorType)
    ensures |ps| == srcInfo.width
    ensures forall i: nat | i < |ps| :: ps[i] == ConvertedPixel(dstInfo, srcInfo, src, i)
  {
    seq(srcInfo.width, i requires 0 <= i < srcInfo.width => ConvertedPixel(dstInfo, srcInfo, src, i))
  }

  lemma RowPixels(srcInfo: ImageInfo, dstInfo: ImageInfo, src: seq<Byte>, pixels: seq<seq<Byte>>)
    requires IsRow(srcInfo, src) && HasCodec(dstInfo.colorType) && dstInfo.width == srcInfo.width
    requires |pixels| == srcInfo.width
    requires forall i: nat | i < |pixels| :: pixels[i] == ConvertedPixel(dstInfo, srcInfo, src, i)
    ensures IsRow(dstInfo, Flatten(pixels))
    ensures RowConverts(dstInfo, srcInfo, src, Flatten(pixels))
  {
    var bs, bd := BytesPerPixel(srcInfo.colorType), BytesPerPixel(dstInfo.colorType);
    var dst := Flatten(pixels);
    FlattenLength(pixels, bd);
    forall i: nat | i < srcInfo.width
      ensures PixelConverts(dstInfo, srcInfo, src, dst, i)
    {
      FlattenPixel(pixels, bd, i);
    }
  }
}
