/** Pixel buffers in memory: the destination bitmap (bytes with a row stride), the surface being
    read (one SkPMColor word per pixel), the nested loops that write a rectangle of pixels, and the
    readback itself. */
module Raster {

  import opened Arith
  import opened Pixels
  import opened Rects
  import opened Layouts
  import opened Oracle
  import opened Convert

  // ---------------------------------------------------------------------------------------------
  // What is written into a rectangle of a buffer

  /** The bytes each pixel of a painted rectangle receives: the destination's initial pattern
      (fill_dst_bmp_with_init_data), or the conversion of the surface pixel `(dx, dy)` away. */
  datatype PixelSource =
    | InitPattern(ct: ColorType, width: int)
    | Readback(pixels: seq<PMColor>, srcWidth: int, srcHeight: int,
               srcAT: AlphaType, dstCT: ColorType, dstAT: AlphaType, dx: int, dy: int)

  function SourceBpp(src: PixelSource): nat
  {
    match src
    case InitPattern(ct, _) => BytesPerPixel(ct)
    case Readback(_, _, _, _, dstCT, _, _, _) => BytesPerPixel(dstCT)
  }

  /** The source has a pixel for destination coordinate (x, y). */
  predicate PixelDefined(src: PixelSource, x: int, y: int)
  {
    match src
    case InitPattern(ct, w) => (ct == Alpha8 || Is32Bit(ct)) && 0 <= w && 0 <= x && 0 <= y
    case Readback(ps, sw, sh, _, dstCT, _, dx, dy) =>
      HasCodec(dstCT) && 0 <= sw && 0 <= sh && |ps| == sw * sh && 0 <= x + dx < sw && 0 <= y + dy < sh
  }

  /** The bytes destination pixel (x, y) receives. */
  function PixelBytes(src: PixelSource, x: int, y: int): (p: seq<Byte>)
    requires PixelDefined(src, x, y)
    ensures |p| == SourceBpp(src)
  {
    match src
    case InitPattern(ct, w) =>
      var c := PackARGB32(DstInitColor(x, y, w));
      if ct == Alpha8 then [GetPackedA32(c)] else StoreWord(c)
    case Readback(ps, sw, sh, srcAT, dstCT, dstAT, dx, dy) =>
      WordIndexInBounds(sw, sh, x + dx, y + dy);
      ConvertPixel(srcAT, dstCT, dstAT, ps[(y + dy) * sw + x + dx])
  }

  /** Pixel (x, y) of a w x h image stored one word per pixel, row after row. */
  lemma WordIndexInBounds(w: int, h: int, x: int, y: int)
    requires 0 <= x < w && 0 <= y < h
    ensures 0 <= y * w + x < w * h
  {
    MulMonotone(y + 1, h, w);
    MulMonotone(0, y, w);
  }

  /** Every pixel of rectangle r can be painted from src into a buffer of layout l. */
  predicate Paintable(src: PixelSource, l: Layout, r: Rect)
  {
    WellFormed(l) && l.bpp == SourceBpp(src) &&
    match src
    case InitPattern(ct, w) => (ct == Alpha8 || Is32Bit(ct)) && 0 <= w && 0 <= r.left && 0 <= r.top
    case Readback(ps, sw, sh, _, dstCT, _, dx, dy) =>
      HasCodec(dstCT) && 0 <= sw && 0 <= sh && |ps| == sw * sh
      && 0 <= r.left + dx && r.right + dx <= sw && 0 <= r.top + dy && r.bottom + dy <= sh
  }

  /** The byte that buffer byte i receives when its pixel is painted. */
  function PaintedByte(src: PixelSource, l: Layout, r: Rect, i: int): Byte
    requires Paintable(src, l, r) && InPixelOf(l, r, i)
  {
    PixelBytes(src, ColOf(l, i), RowOf(l, i))[ByteOf(l, i)]
  }

  /** The buffer after every pixel of r has been painted from src; every other byte (pixels outside
      r and row padding) keeps its value. */
  function Paint(orig: seq<Byte>, l: Layout, r: Rect, src: PixelSource): (s: seq<Byte>)
    requires Paintable(src, l, r)
    ensures |s| == |orig|
  {
    seq(|orig|, i requires 0 <= i < |orig| => if InPixelOf(l, r, i) then PaintedByte(src, l, r, i) else orig[i])
  }

  /** Buffer byte i belongs to a pixel that comes before (x, y) in row-major order. */
  predicate Before(l: Layout, i: int, x: int, y: int)
    requires l.rowBytes > 0 && l.bpp > 0
  {
    RowOf(l, i) < y || (RowOf(l, i) == y && ColOf(l, i) < x)
  }

  /** The buffer part way through painting r: the pixels before (x, y) are painted. */
  function PaintUpTo(orig: seq<Byte>, l: Layout, r: Rect, src: PixelSource, x: int, y: int): (s: seq<Byte>)
    requires Paintable(src, l, r)
    ensures |s| == |orig|
  {
    seq(|orig|, i requires 0 <= i < |orig| =>
      if InPixelOf(l, r, i) && Before(l, i, x, y) then PaintedByte(src, l, r, i) else orig[i])
  }

  /** Painting a rectangle leaves every byte outside it alone, and painting it twice is painting it
      once. */
  lemma PaintIdempotent(orig: seq<Byte>, l: Layout, r: Rect, src: PixelSource)
    requires Paintable(src, l, r)
    ensures forall i | 0 <= i < |orig| && !InPixelOf(l, r, i) :: Paint(orig, l, r, src)[i] == orig[i]
    ensures Paint(Paint(orig, l, r, src), l, r, src) == Paint(orig, l, r, src)
  {
  }

  /** The pixel view of Paint: a pixel inside r holds the source's bytes, any other pixel of the
      image keeps its bytes. */
  lemma PaintPixel(orig: seq<Byte>, l: Layout, r: Rect, src: PixelSource, x: int, y: int)
    requires Paintable(src, l, r) && |orig| == ByteSize(l)
    requires 0 <= x < l.width && 0 <= y < l.height
    ensures PixelInRange(l, x, y, |orig|)
    ensures Contains(r, x, y) ==>
      PixelDefined(src, x, y) && PixelAt(Paint(orig, l, r, src), l, x, y) == PixelBytes(src, x, y)
    ensures !Contains(r, x, y) ==> PixelAt(Paint(orig, l, r, src), l, x, y) == PixelAt(orig, l, x, y)
  {
    PixelInBuffer(l, x, y);
    var off := PixelOffset(l, x, y);
    var painted := Paint(orig, l, r, src);
    var expected := if Contains(r, x, y) then PixelBytes(src, x, y) else orig[off..off + l.bpp];
    forall k | 0 <= k < l.bpp
      ensures painted[off + k] == expected[k]
    {
      PaintByte(orig, l, r, src, x, y, k);
    }
    assert PixelAt(painted, l, x, y) == expected;
  }

  /** Byte k of pixel (x, y) after painting r. */
  lemma PaintByte(orig: seq<Byte>, l: Layout, r: Rect, src: PixelSource, x: int, y: int, k: int)
    requires Paintable(src, l, r) && |orig| == ByteSize(l)
    requires 0 <= x < l.width && 0 <= y < l.height && 0 <= k < l.bpp
    ensures 0 <= PixelOffset(l, x, y) && PixelOffset(l, x, y) + l.bpp <= |orig|
    ensures Contains(r, x, y) ==>
      PixelDefined(src, x, y) && Paint(orig, l, r, src)[PixelOffset(l, x, y) + k] == PixelBytes(src, x, y)[k]
    ensures !Contains(r, x, y) ==>
      Paint(orig, l, r, src)[PixelOffset(l, x, y) + k] == orig[PixelOffset(l, x, y) + k]
  {
    PixelInBuffer(l, x, y);
    DecomposeOffset(l, x, y, k);
  }

  predicate PixelInRange(l: Layout, x: int, y: int, n: int)
  {
    0 <= PixelOffset(l, x, y) && PixelOffset(l, x, y) + l.bpp <= n
  }

  /** The bytes of pixel (x, y) of a buffer. */
  function PixelAt(bytes: seq<Byte>, l: Layout, x: int, y: int): seq<Byte>
    requires PixelInRange(l, x, y, |bytes|)
  {
    bytes[PixelOffset(l, x, y)..PixelOffset(l, x, y) + l.bpp]
  }

  // ---------------------------------------------------------------------------------------------
  // The nested loops

  lemma PaintUpToStart(orig: seq<Byte>, l: Layout, r: Rect, src: PixelSource)
    requires Paintable(src, l, r)
    ensures PaintUpTo(orig, l, r, src, r.left, r.top) == orig
  {
  }

  lemma PaintUpToNextRow(orig: seq<Byte>, l: Layout, r: Rect, src: PixelSource, y: int)
    requires Paintable(src, l, r)
    ensures PaintUpTo(orig, l, r, src, r.right, y) == PaintUpTo(orig, l, r, src, r.left, y + 1)
  {
  }

  lemma PaintUpToEnd(orig: seq<Byte>, l: Layout, r: Rect, src: PixelSource)
    requires Paintable(src, l, r)
    ensures PaintUpTo(orig, l, r, src, r.left, r.bottom) == Paint(orig, l, r, src)
  {
  }

  /** Writing the bytes of pixel (x, y) advances painting by one pixel. */
  lemma PaintUpToStep(orig: seq<Byte>, l: Layout, r: Rect, src: PixelSource, x: int, y: int,
                      before: seq<Byte>, after: seq<Byte>)
    requires Paintable(src, l, r) && Contains(r, x, y) && 0 <= r.left && r.right <= l.width && 0 <= r.top
    requires before == PaintUpTo(orig, l, r, src, x, y) && |after| == |before|
    requires PixelDefined(src, x, y)
    requires forall i | 0 <= i < |after| ::
      after[i] == if PixelOffset(l, x, y) <= i < PixelOffset(l, x, y) + l.bpp
                  then PixelBytes(src, x, y)[i - PixelOffset(l, x, y)] else before[i]
    ensures after == PaintUpTo(orig, l, r, src, x + 1, y)
  {
    var off := PixelOffset(l, x, y);
    var next := PaintUpTo(orig, l, r, src, x + 1, y);
    forall i | 0 <= i < |after|
      ensures after[i] == next[i]
    {
      if off <= i < off + l.bpp {
        DecomposeOffset(l, x, y, i - off);
      } else if InPixelOf(l, r, i) {
        RecomposeOffset(l, i);
      }
    }
  }

  /** Copies the bytes of one pixel into the buffer at offset `off`. */
  method WritePixel(a: array<Byte>, off: int, px: seq<Byte>)
    requires 0 <= off && off + |px| <= a.Length
    modifies a
    ensures forall i | 0 <= i < a.Length :: a[i] == if off <= i < off + |px| then px[i - off] else old(a[i])
  {
    var k := 0;
    while k < |px|
      invariant 0 <= k <= |px|
      invariant forall i | 0 <= i < a.Length :: a[i] == if off <= i < off + k then px[i - off] else old(a[i])
    {
      a[off + k] := px[k];
      k := k + 1;
    }
  }

  /** Paints rectangle r of the buffer, row by row and pixel by pixel, at `y * rowBytes + x * bpp`. */
  method PaintRect(a: array<Byte>, l: Layout, r: Rect, src: PixelSource)
    requires Paintable(src, l, r) && a.Length == ByteSize(l)
    requires 0 <= r.left <= r.right <= l.width && 0 <= r.top <= r.bottom <= l.height
    modifies a
    ensures a[..] == Paint(old(a[..]), l, r, src)
  {
    ghost var orig := a[..];
    PaintUpToStart(orig, l, r, src);
    var y := r.top;
    while y < r.bottom
      invariant r.top <= y <= r.bottom
      invariant a[..] == PaintUpTo(orig, l, r, src, r.left, y)
    {
      var x := r.left;
      while x < r.right
        invariant r.left <= x <= r.right
        invariant a[..] == PaintUpTo(orig, l, r, src, x, y)
      {
        var px := PixelBytes(src, x, y);
        PixelInBuffer(l, x, y);
        ghost var before := a[..];
        WritePixel(a, PixelOffset(l, x, y), px);
        PaintUpToStep(orig, l, r, src, x, y, before, a[..]);
        x := x + 1;
      }
      PaintUpToNextRow(orig, l, r, src, y);
      y := y + 1;
    }
    PaintUpToEnd(orig, l, r, src);
  }

  // ---------------------------------------------------------------------------------------------
  // The destination bitmap

  /** SkBitmap: `info.width x info.height` pixels whose rows start `rowBytes` apart, or no pixels at
      all (isNull) when none were allocated. */
  class Bitmap {
    const info: ImageInfo
    const rowBytes: nat
    const pixels: array?<Byte>

    function Geometry(): Layout
      requires 0 <= info.width && 0 <= info.height
    {
      Layout(info.width, info.height, rowBytes, BytesPerPixel(info.colorType))
    }

    predicate Valid()
    {
      0 <= info.width && 0 <= info.height && HasCodec(info.colorType) && WellFormed(Geometry())
      && (pixels != null ==> pixels.Length == ByteSize(Geometry()))
    }

    /** init_bitmap: pixels the size of `rect`, allocated with the stride `init` asks for. */
    constructor Init(rect: Rect, init: BitmapInit, ct: ColorType, at: AlphaType)
      requires 0 <= Width(rect) && 0 <= Height(rect) && HasCodec(ct)
      ensures Valid() && pixels != null && fresh(pixels)
      ensures info == ImageInfo(Width(rect), Height(rect), ct, at)
      ensures rowBytes == RowBytesFor(init, Width(rect), BytesPerPixel(ct))
    {
      var rb := RowBytesFor(init, Width(rect), BytesPerPixel(ct));
      info := ImageInfo(Width(rect), Height(rect), ct, at);
      rowBytes := rb;
      pixels := new Byte[ByteSize(Layout(Width(rect), Height(rect), rb, BytesPerPixel(ct)))];
    }

    /** A bitmap that describes an image but holds no pixels. */
    constructor Unallocated(info: ImageInfo)
      requires 0 <= info.width && 0 <= info.height && HasCodec(info.colorType)
      ensures Valid() && pixels == null && this.info == info
    {
      this.info := info;
      rowBytes := info.width * BytesPerPixel(info.colorType);
      pixels := null;
    }

    /** fill_dst_bmp_with_init_data: every pixel receives its initial pattern colour, as a word for
        32-bit colour types and as its alpha byte for Alpha_8; row padding is not touched. */
    method FillWithInitData()
      requires Valid() && pixels != null && (info.colorType == Alpha8 || Is32Bit(info.colorType))
      modifies pixels
      ensures pixels[..] == Paint(old(pixels[..]), Geometry(), MakeWH(info.width, info.height),
                                  InitPattern(info.colorType, info.width))
    {
      PaintRect(pixels, Geometry(), MakeWH(info.width, info.height), InitPattern(info.colorType, info.width));
    }
  }

  // ---------------------------------------------------------------------------------------------
  // The surface and the readback

  /** What a surface of colour type ct keeps of a colour drawn into it: an Alpha_8 surface keeps
      only the alpha, an RGB_888x surface drops the alpha (reads back opaque), and the 32-bit
      colour types keep all four channels. */
  function StoredColor(ct: ColorType, c: PMColor): (d: PMColor)
    ensures d.a == (if ct == RGB888x then 0xFF else c.a)
    ensures ct == Alpha8 ==> d.r == 0 && d.g == 0 && d.b == 0
    ensures ct != Alpha8 ==> d.r == c.r && d.g == c.g && d.b == c.b
    ensures IsPremultiplied(c) ==> IsPremultiplied(d)
  {
    if ct == Alpha8 then PMColor(c.a, 0, 0, 0)
    else if ct == RGB888x then WithOpaqueAlpha(c)
    else c
  }

  /** Reading a stored colour gives what reading the drawn colour would, as long as an RGB_888x
      surface is opaque and an Alpha_8 surface is read only into Alpha_8. */
  lemma StoredConvertsAlike(surfaceCT: ColorType, surfaceAT: AlphaType, dstCT: ColorType, dstAT: AlphaType,
                            c: PMColor)
    requires HasCodec(dstCT)
    requires surfaceCT == RGB888x ==> surfaceAT == Opaque
    requires surfaceCT == Alpha8 ==> dstCT == Alpha8
    ensures ConvertPixel(surfaceAT, dstCT, dstAT, StoredColor(surfaceCT, c)) == ConvertPixel(surfaceAT, dstCT, dstAT, c)
  {
    if surfaceCT == RGB888x {
      assert ConvertColor(surfaceAT, dstAT, StoredColor(surfaceCT, c)) == ConvertColor(surfaceAT, dstAT, c);
    }
  }

  /** Word i of a surface of colour type ct, stored row after row, holds what the surface keeps of
      get_src_color of its pixel. */
  ghost predicate IsSourcePattern(ps: seq<PMColor>, ct: ColorType)
  {
    |ps| == DevWidth * DevHeight && SourcePrefix(ps, ct, |ps|)
  }

  /** The first n words of ps hold the source pattern. */
  ghost predicate SourcePrefix(ps: seq<PMColor>, ct: ColorType, n: int)
    requires n <= |ps| && n <= DevWidth * DevHeight
  {
    forall i | 0 <= i < n :: ps[i] == StoredColor(ct, SrcColor(i % DevWidth, i / DevWidth))
  }

  /** The surface word of pixel (x, y) holds what the surface keeps of get_src_color(x, y). */
  lemma SourcePixel(ps: seq<PMColor>, ct: ColorType, x: int, y: int)
    requires IsSourcePattern(ps, ct) && 0 <= x < DevWidth && 0 <= y < DevHeight
    ensures 0 <= y * DevWidth + x < |ps| && ps[y * DevWidth + x] == StoredColor(ct, SrcColor(x, y))
  {
    DivModUnique(y * DevWidth + x, DevWidth, y, x);
  }

  /** The destination pixels a read of a w x h image from (x, y) writes: the request clipped to
      the surface, in destination coordinates. */
  function ReadRegion(w: int, h: int, x: int, y: int): (r: Rect)
    ensures forall col, row :: Contains(r, col, row) <==>
      Contains(DevRect, col + x, row + y) && 0 <= col < w && 0 <= row < h
    ensures 0 <= r.left + x && r.right + x <= DevWidth && 0 <= r.top + y && r.bottom + y <= DevHeight
  {
    Offset(Clip(DevRect, MakeXYWH(x, y, w, h)), -x, -y)
  }

  /** Destination pixel (bx, by) receives the conversion of surface pixel (bx + x, by + y). */
  function ReadSource(ps: seq<PMColor>, surfaceAT: AlphaType, dstCT: ColorType, dstAT: AlphaType,
                      x: int, y: int): PixelSource
  {
    Readback(ps, DevWidth, DevHeight, surfaceAT, dstCT, dstAT, x, y)
  }

  /** The clipped region of a read can be painted from the surface. */
  lemma ReadPaintable(ps: seq<PMColor>, surfaceAT: AlphaType, l: Layout, dstCT: ColorType, dstAT: AlphaType,
                      x: int, y: int)
    requires |ps| == DevWidth * DevHeight && HasCodec(dstCT) && WellFormed(l) && l.bpp == BytesPerPixel(dstCT)
    ensures Paintable(ReadSource(ps, surfaceAT, dstCT, dstAT, x, y), l, ReadRegion(l.width, l.height, x, y))
  {
    var r := ReadRegion(l.width, l.height, x, y);
    assert 0 <= r.left + x && r.right + x <= DevWidth && 0 <= r.top + y && r.bottom + y <= DevHeight;
  }

  /** Destination pixel (col, row) of a read from (x, y) receives the conversion of what the
      surface keeps of get_src_color(col + x, row + y). */
  lemma ReadSourcePixel(ps: seq<PMColor>, surfaceCT: ColorType, surfaceAT: AlphaType, dstCT: ColorType,
                        dstAT: AlphaType, x: int, y: int, col: int, row: int)
    requires IsSourcePattern(ps, surfaceCT) && HasCodec(dstCT)
    requires 0 <= col + x < DevWidth && 0 <= row + y < DevHeight
    ensures PixelDefined(ReadSource(ps, surfaceAT, dstCT, dstAT, x, y), col, row)
    ensures PixelBytes(ReadSource(ps, surfaceAT, dstCT, dstAT, x, y), col, row)
            == ConvertPixel(surfaceAT, dstCT, dstAT, StoredColor(surfaceCT, SrcColor(col + x, row + y)))
  {
    SourcePixel(ps, surfaceCT, col + x, row + y);
  }

  /** SkSurface: DevWidth x DevHeight pixels, one SkPMColor word each, row after row. */
  class Surface {
    const info: ImageInfo
    const isGPU: bool
    /** Whether a GPU back end reads alpha-only surfaces, the one outcome the tests leave open. */
    const readsAlphaOnly: bool
    const rules: FormatRules
    const pixels: array<PMColor>
    var generationID: nat

    predicate Valid()
    {
      info.width == DevWidth && info.height == DevHeight && pixels.Length == DevWidth * DevHeight
    }

    /** Every word of the surface holds what the surface keeps of the source colour of its pixel. */
    ghost predicate HoldsSourcePattern()
      reads pixels
    {
      IsSourcePattern(pixels[..], info.colorType)
    }

    constructor (info: ImageInfo, isGPU: bool, readsAlphaOnly: bool, rules: FormatRules)
      requires info.width == DevWidth && info.height == DevHeight
      ensures Valid() && fresh(pixels)
      ensures this.info == info && this.isGPU == isGPU && this.readsAlphaOnly == readsAlphaOnly
      ensures this.rules == rules
    {
      this.info := info;
      this.isGPU := isGPU;
      this.readsAlphaOnly := readsAlphaOnly;
      this.rules := rules;
      pixels := new PMColor[DevWidth * DevHeight](_ => PMColor(0, 0, 0, 0));
      generationID := 1;
    }

    /** fill_src_canvas with make_src_bitmap: every pixel (x, y) receives get_src_color(x, y), as
        far as the surface's colour type keeps it. Drawing changes the content, so the surface
        moves to a new generation. */
    method FillSource()
      requires Valid()
      modifies this, pixels
      ensures HoldsSourcePattern()
      ensures generationID == old(generationID) + 1
    {
      var y := 0;
      while y < DevHeight
        invariant 0 <= y <= DevHeight && generationID == old(generationID)
        invariant y * DevWidth <= pixels.Length && SourcePrefix(pixels[..], info.colorType, y * DevWidth)
      {
        var x := 0;
        while x < DevWidth
          invariant 0 <= x <= DevWidth && generationID == old(generationID)
          invariant SourcePrefix(pixels[..], info.colorType, y * DevWidth + x)
        {
          DivModUnique(y * DevWidth + x, DevWidth, y, x);
          pixels[y * DevWidth + x] := StoredColor(info.colorType, SrcColor(x, y));
          x := x + 1;
        }
        y := y + 1;
      }
      generationID := generationID + 1;
    }

    /** What read_should_succeed expects of a read into an image `dstInfo` from (x, y). */
    function Expectation(dstInfo: ImageInfo, x: int, y: int): ReadSuccessExpectation
    {
      ReadShouldSucceed(rules, MakeXYWH(x, y, dstInfo.width, dstInfo.height), dstInfo, info, isGPU)
    }

    /** What the test expects of a read: the destination has pixels, and read_should_succeed says
        it must succeed, or says it may and the back end reads alpha-only surfaces. */
    predicate ReadSucceeds(dst: Bitmap, x: int, y: int)
    {
      var e := Expectation(dst.info, x, y);
      dst.pixels != null && (e == Yes || (e == Maybe && readsAlphaOnly))
    }

    /** What a GPU back end cannot do: premultiply an unpremultiplied surface, read an alpha-only
        surface unless `readsAlphaOnly`, or drop the alpha of a surface that may be translucent. */
    predicate GpuCanRead(dstInfo: ImageInfo)
    {
      !(info.alphaType == Unpremul && dstInfo.alphaType == Premul)
      && if rules.isAlphaOnly(info.colorType) then readsAlphaOnly
         else rules.isAlwaysOpaque(info.colorType) || !rules.isAlwaysOpaque(dstInfo.colorType)
    }

    /** SkSurface::readPixels(dst, x, y): fails when the destination has no pixels, the request
        misses the surface, the conversion is invalid or the GPU cannot perform it, and then writes
        nothing; otherwise every destination pixel inside the clipped region receives its converted
        surface pixel and every other byte is as it was. Success is what the test expects. The
        surface, its generation included, never changes. */
    method ReadPixels(dst: Bitmap, x: int, y: int) returns (success: bool)
      requires Valid() && dst.Valid()
      modifies dst.pixels
      ensures success == ReadSucceeds(dst, x, y)
      ensures Paintable(ReadSource(pixels[..], info.alphaType, dst.info.colorType, dst.info.alphaType, x, y),
                        dst.Geometry(), ReadRegion(dst.info.width, dst.info.height, x, y))
      ensures dst.pixels != null ==>
        dst.pixels[..] == if success
          then Paint(old(dst.pixels[..]), dst.Geometry(), ReadRegion(dst.info.width, dst.info.height, x, y),
                     ReadSource(pixels[..], info.alphaType, dst.info.colorType, dst.info.alphaType, x, y))
          else old(dst.pixels[..])
      ensures generationID == old(generationID)
    {
      var clipped := Clip(DevRect, MakeXYWH(x, y, dst.info.width, dst.info.height));
      if dst.pixels == null || IsEmpty(clipped) {
        success := false;
      } else if !rules.validConversion(dst.info, info) {
        success := false;
      } else if isGPU && !GpuCanRead(dst.info) {
        success := false;
      } else {
        PaintRect(dst.pixels, dst.Geometry(), ReadRegion(dst.info.width, dst.info.height, x, y),
                  ReadSource(pixels[..], info.alphaType, dst.info.colorType, dst.info.alphaType, x, y));
        success := true;
      }
    }
  }
}
