/** The readback tests themselves: check_read's verdict on a destination bitmap, the proof that a
    read by the model passes it for every configuration the tests use, the test loops, and the
    five-pixel conversion test. */
module ReadPixelsTests {

  import opened Arith
  import opened Pixels
  import opened Rects
  import opened Layouts
  import opened Oracle
  import opened Convert
  import opened Raster

  // ---------------------------------------------------------------------------------------------
  // check_read

  /** A destination the oracle can walk: one byte per pixel for Alpha_8, one word for the 32-bit
      colour types. */
  predicate Checkable(bytes: seq<Byte>, l: Layout, ct: ColorType)
  {
    (ct == Alpha8 || Is32Bit(ct)) && l.bpp == BytesPerPixel(ct) && WellFormed(l) && |bytes| == ByteSize(l)
  }

  /** Inside the clipped region: an Alpha_8 pixel must hold the surface colour's alpha (0xFF for an
      opaque surface); a 32-bit pixel, decoded by convert_to_pmcolor, must pass check_read_pixel
      against the surface colour, whose alpha is forced when either side is opaque. */
  predicate MatchesSurfaceColor(p: seq<Byte>, ct: ColorType, at: AlphaType, surfaceAT: AlphaType, c: PMColor)
    requires (ct == Alpha8 || Is32Bit(ct)) && |p| == BytesPerPixel(ct)
  {
    if ct == Alpha8 then
      p[0] == if surfaceAT == Opaque then 0xFF else c.a
    else
      var expected := if surfaceAT == Opaque || at == Opaque then WithOpaqueAlpha(c) else c;
      var decoded := ConvertToPMColor(ct, at, p);
      CheckReadPixel(decoded.0, expected, decoded.1)
  }

  /** Outside the clipped region: the pixel still holds its initial colour (its alpha for Alpha_8). */
  predicate MatchesInitColor(p: seq<Byte>, ct: ColorType, col: int, row: int, w: int)
    requires (ct == Alpha8 || Is32Bit(ct)) && |p| == BytesPerPixel(ct) && 0 <= col && 0 <= row && 0 <= w
  {
    var init := PackARGB32(DstInitColor(col, row, w));
    if ct == Alpha8 then p[0] == GetPackedA32(init) else LoadWord(p) == init
  }

  /** check_read's test of destination pixel (col, row) after a read from (x, y). */
  function PixelPasses(bytes: seq<Byte>, l: Layout, ct: ColorType, at: AlphaType, x: int, y: int,
                       checkSurfacePixels: bool, checkBitmapPixels: bool, surfaceAT: AlphaType,
                       col: int, row: int): bool
    requires Checkable(bytes, l, ct) && 0 <= col < l.width && 0 <= row < l.height
  {
    PixelInBuffer(l, col, row);
    var p := PixelAt(bytes, l, col, row);
    var clipped := Clip(DevRect, MakeXYWH(x, y, l.width, l.height));
    if Contains(clipped, col + x, row + y) then
      !checkSurfacePixels || MatchesSurfaceColor(p, ct, at, surfaceAT, SrcColor(col + x, row + y))
    else
      !checkBitmapPixels || MatchesInitColor(p, ct, col, row, l.width)
  }

  /** check_read's verdict: every pixel of the bitmap passes. */
  ghost predicate ReadMatches(bytes: seq<Byte>, l: Layout, ct: ColorType, at: AlphaType, x: int, y: int,
                              checkSurfacePixels: bool, checkBitmapPixels: bool, surfaceAT: AlphaType)
    requires Checkable(bytes, l, ct)
  {
    forall col, row | 0 <= col < l.width && 0 <= row < l.height ::
      PixelPasses(bytes, l, ct, at, x, y, checkSurfacePixels, checkBitmapPixels, surfaceAT, col, row)
  }

  /** The first `rows` rows of the bitmap pass. */
  ghost predicate RowsPass(bytes: seq<Byte>, l: Layout, ct: ColorType, at: AlphaType, x: int, y: int,
                           checkSurfacePixels: bool, checkBitmapPixels: bool, surfaceAT: AlphaType, rows: int)
    requires Checkable(bytes, l, ct) && rows <= l.height
  {
    forall col, row | 0 <= col < l.width && 0 <= row < rows ::
      PixelPasses(bytes, l, ct, at, x, y, checkSurfacePixels, checkBitmapPixels, surfaceAT, col, row)
  }

  /** The first `cols` pixels of row `row` pass. */
  ghost predicate ColsPass(bytes: seq<Byte>, l: Layout, ct: ColorType, at: AlphaType, x: int, y: int,
                           checkSurfacePixels: bool, checkBitmapPixels: bool, surfaceAT: AlphaType,
                           cols: int, row: int)
    requires Checkable(bytes, l, ct) && cols <= l.width && 0 <= row < l.height
  {
    forall col | 0 <= col < cols ::
      PixelPasses(bytes, l, ct, at, x, y, checkSurfacePixels, checkBitmapPixels, surfaceAT, col, row)
  }

  /** check_read: walks the bitmap row by row and stops at the first pixel that fails. */
  method CheckRead(bitmap: Bitmap, x: int, y: int, checkSurfacePixels: bool, checkBitmapPixels: bool,
                   surfaceAT: AlphaType) returns (ok: bool)
    requires bitmap.Valid() && bitmap.pixels != null
    requires bitmap.info.colorType == Alpha8 || Is32Bit(bitmap.info.colorType)
    requires checkSurfacePixels || checkBitmapPixels
    ensures ok <==> ReadMatches(bitmap.pixels[..], bitmap.Geometry(), bitmap.info.colorType, bitmap.info.alphaType,
                                x, y, checkSurfacePixels, checkBitmapPixels, surfaceAT)
  {
    var l := bitmap.Geometry();
    var ct, at := bitmap.info.colorType, bitmap.info.alphaType;
    var bytes := bitmap.pixels[..];
    var row := 0;
    while row < l.height
      invariant 0 <= row <= l.height
      invariant RowsPass(bytes, l, ct, at, x, y, checkSurfacePixels, checkBitmapPixels, surfaceAT, row)
    {
      var col := 0;
      while col < l.width
        invariant 0 <= col <= l.width
        invariant ColsPass(bytes, l, ct, at, x, y, checkSurfacePixels, checkBitmapPixels, surfaceAT, col, row)
      {
        if !PixelPasses(bytes, l, ct, at, x, y, checkSurfacePixels, checkBitmapPixels, surfaceAT, col, row) {
          assert !ReadMatches(bytes, l, ct, at, x, y, checkSurfacePixels, checkBitmapPixels, surfaceAT);
          return false;
        }
        NextPixelPasses(bytes, l, ct, at, x, y, checkSurfacePixels, checkBitmapPixels, surfaceAT, col, row);
        col := col + 1;
      }
      NextRowPasses(bytes, l, ct, at, x, y, checkSurfacePixels, checkBitmapPixels, surfaceAT, row);
      row := row + 1;
    }
    assert ReadMatches(bytes, l, ct, at, x, y, checkSurfacePixels, checkBitmapPixels, surfaceAT);
    return true;
  }

  /** A passing pixel after passing pixels of its row. */
  lemma NextPixelPasses(bytes: seq<Byte>, l: Layout, ct: ColorType, at: AlphaType, x: int, y: int,
                        checkSurfacePixels: bool, checkBitmapPixels: bool, surfaceAT: AlphaType, col: int, row: int)
    requires Checkable(bytes, l, ct) && 0 <= col < l.width && 0 <= row < l.height
    requires ColsPass(bytes, l, ct, at, x, y, checkSurfacePixels, checkBitmapPixels, surfaceAT, col, row)
    requires PixelPasses(bytes, l, ct, at, x, y, checkSurfacePixels, checkBitmapPixels, surfaceAT, col, row)
    ensures ColsPass(bytes, l, ct, at, x, y, checkSurfacePixels, checkBitmapPixels, surfaceAT, col + 1, row)
  {
  }

  /** A passing row after passing rows. */
  lemma NextRowPasses(bytes: seq<Byte>, l: Layout, ct: ColorType, at: AlphaType, x: int, y: int,
                      checkSurfacePixels: bool, checkBitmapPixels: bool, surfaceAT: AlphaType, row: int)
    requires Checkable(bytes, l, ct) && 0 <= row < l.height
    requires RowsPass(bytes, l, ct, at, x, y, checkSurfacePixels, checkBitmapPixels, surfaceAT, row)
    requires ColsPass(bytes, l, ct, at, x, y, checkSurfacePixels, checkBitmapPixels, surfaceAT, l.width, row)
    ensures RowsPass(bytes, l, ct, at, x, y, checkSurfacePixels, checkBitmapPixels, surfaceAT, row + 1)
  {
  }

  // ---------------------------------------------------------------------------------------------
  // The readback passes the oracle

  /** The surfaces the tests create: none is unpremultiplied, and the RGB_888x one is opaque. */
  predicate TestedSurface(surfaceCT: ColorType, surfaceAT: AlphaType)
  {
    surfaceAT != Unpremul && (surfaceCT == RGB888x ==> surfaceAT == Opaque)
  }

  /** SkImageInfoValidConversion as the tests rely on it: an Alpha_8 source converts only into
      Alpha_8, so a read from an alpha-only surface into a colour type fails. */
  ghost predicate AlphaOnlyIntoAlpha8(rules: FormatRules)
  {
    forall dstInfo: ImageInfo, srcInfo: ImageInfo ::
      rules.validConversion(dstInfo, srcInfo) && srcInfo.colorType == Alpha8 ==> dstInfo.colorType == Alpha8
  }

  /** Why the tests need AlphaOnlyIntoAlpha8: read into RGBA, what an Alpha_8 surface keeps of
      get_src_color(5, 0) fails check_read. */
  lemma AlphaSurfaceFailsColourCheck()
    ensures !MatchesSurfaceColor(ConvertPixel(Premul, RGBA8888, Premul, StoredColor(Alpha8, SrcColor(5, 0))),
                                 RGBA8888, Premul, Premul, SrcColor(5, 0))
  {
    var stored := StoredColor(Alpha8, SrcColor(5, 0));
    DecodeEncode(RGBA8888, stored);
    assert SrcColor(5, 0).b != stored.b;
  }

  /** The destination colour and alpha types the tests read into. */
  predicate IsReadPixelsConfig(ct: ColorType, at: AlphaType)
  {
    (ct, at) in ReadPixelsConfigs
  }

  /** The conversion and the oracle's decoder agree: for every premultiplied surface colour and
      every tested destination configuration, the converted pixel passes check_read; an
      unpremultiplied destination is the one case that needs the one-step tolerance. */
  lemma ConvertedPixelPasses(surfaceAT: AlphaType, ct: ColorType, at: AlphaType, c: PMColor)
    requires IsPremultiplied(c) && surfaceAT != Unpremul && IsReadPixelsConfig(ct, at)
    ensures MatchesSurfaceColor(ConvertPixel(surfaceAT, ct, at, c), ct, at, surfaceAT, c)
  {
    if ct != Alpha8 {
      if at == Unpremul {
        UnpremulPixelPasses(surfaceAT, ct, c);
      } else {
        DecodeEncode(ct, ConvertColor(surfaceAT, at, c));
      }
    }
  }

  /** An unpremultiplied 32-bit destination: the oracle premultiplies the stored colour back,
      which lands within one step of the surface colour. */
  lemma UnpremulPixelPasses(surfaceAT: AlphaType, ct: ColorType, c: PMColor)
    requires IsPremultiplied(c) && surfaceAT != Unpremul && Is32Bit(ct) && IsReadPixelsConfig(ct, Unpremul)
    ensures MatchesSurfaceColor(ConvertPixel(surfaceAT, ct, Unpremul, c), ct, Unpremul, surfaceAT, c)
  {
    var forced := if surfaceAT == Opaque then WithOpaqueAlpha(c) else c;
    assert ConvertPixel(surfaceAT, ct, Unpremul, c) == Encode(ct, Unpremultiply(forced));
    UnpremulReadPasses(ct, forced);
  }

  /** A destination pixel inside the clipped region holds the conversion of its surface pixel. */
  lemma ReadPixelBytes(surfacePixels: seq<PMColor>, surfaceCT: ColorType, surfaceAT: AlphaType, l: Layout,
                       ct: ColorType, at: AlphaType, x: int, y: int, before: seq<Byte>, col: int, row: int)
    requires IsSourcePattern(surfacePixels, surfaceCT) && HasCodec(ct)
    requires WellFormed(l) && l.bpp == BytesPerPixel(ct) && |before| == ByteSize(l)
    requires 0 <= col < l.width && 0 <= row < l.height && Contains(ReadRegion(l.width, l.height, x, y), col, row)
    ensures Paintable(ReadSource(surfacePixels, surfaceAT, ct, at, x, y), l, ReadRegion(l.width, l.height, x, y))
    ensures var after := Paint(before, l, ReadRegion(l.width, l.height, x, y),
                               ReadSource(surfacePixels, surfaceAT, ct, at, x, y));
      PixelInRange(l, col, row, |after|) &&
      PixelAt(after, l, col, row) == ConvertPixel(surfaceAT, ct, at, StoredColor(surfaceCT, SrcColor(col + x, row + y)))
  {
    var region, src := ReadRegion(l.width, l.height, x, y), ReadSource(surfacePixels, surfaceAT, ct, at, x, y);
    ReadPaintable(surfacePixels, surfaceAT, l, ct, at, x, y);
    assert Contains(DevRect, col + x, row + y);
    ReadSourcePixel(surfacePixels, surfaceCT, surfaceAT, ct, at, x, y, col, row);
    PaintPixel(before, l, region, src, col, row);
  }

  /** A destination pixel outside the clipped region still holds its initial pattern, whether or
      not the read succeeded. */
  lemma UntouchedPixelBytes(surfacePixels: seq<PMColor>, surfaceCT: ColorType, surfaceAT: AlphaType, l: Layout,
                            ct: ColorType, at: AlphaType, x: int, y: int, success: bool, garbage: seq<Byte>,
                            col: int, row: int)
    requires IsSourcePattern(surfacePixels, surfaceCT) && (ct == Alpha8 || Is32Bit(ct))
    requires WellFormed(l) && l.bpp == BytesPerPixel(ct) && |garbage| == ByteSize(l)
    requires 0 <= col < l.width && 0 <= row < l.height && !Contains(ReadRegion(l.width, l.height, x, y), col, row)
    ensures var before := Paint(garbage, l, MakeWH(l.width, l.height), InitPattern(ct, l.width));
      var after := if success
        then Paint(before, l, ReadRegion(l.width, l.height, x, y), ReadSource(surfacePixels, surfaceAT, ct, at, x, y))
        else before;
      PixelInRange(l, col, row, |after|) &&
      PixelAt(after, l, col, row) == PixelBytes(InitPattern(ct, l.width), col, row)
  {
    var before := Paint(garbage, l, MakeWH(l.width, l.height), InitPattern(ct, l.width));
    var region, src := ReadRegion(l.width, l.height, x, y), ReadSource(surfacePixels, surfaceAT, ct, at, x, y);
    PaintPixel(garbage, l, MakeWH(l.width, l.height), InitPattern(ct, l.width), col, row);
    if success {
      PaintPixel(before, l, region, src, col, row);
    }
  }

  /** One destination pixel after the test's sequence: prefill with the initial pattern, then a
      read that, if it succeeded, painted the clipped region from the surface. */
  lemma ReadPixelPasses(surfacePixels: seq<PMColor>, surfaceCT: ColorType, surfaceAT: AlphaType, l: Layout,
                        ct: ColorType, at: AlphaType, x: int, y: int, success: bool, garbage: seq<Byte>,
                        col: int, row: int)
    requires IsSourcePattern(surfacePixels, surfaceCT) && TestedSurface(surfaceCT, surfaceAT)
    requires IsReadPixelsConfig(ct, at) && (success && surfaceCT == Alpha8 ==> ct == Alpha8)
    requires WellFormed(l) && l.bpp == BytesPerPixel(ct) && |garbage| == ByteSize(l)
    requires 0 <= col < l.width && 0 <= row < l.height
    ensures var before := Paint(garbage, l, MakeWH(l.width, l.height), InitPattern(ct, l.width));
      var after := if success
        then Paint(before, l, ReadRegion(l.width, l.height, x, y), ReadSource(surfacePixels, surfaceAT, ct, at, x, y))
        else before;
      Checkable(after, l, ct) && PixelPasses(after, l, ct, at, x, y, success, true, surfaceAT, col, row)
  {
    var before := Paint(garbage, l, MakeWH(l.width, l.height), InitPattern(ct, l.width));
    var region, src := ReadRegion(l.width, l.height, x, y), ReadSource(surfacePixels, surfaceAT, ct, at, x, y);
    var after := if success then Paint(before, l, region, src) else before;
    PixelInBuffer(l, col, row);
    var clipped := Clip(DevRect, MakeXYWH(x, y, l.width, l.height));
    assert Contains(clipped, col + x, row + y) <==> Contains(region, col, row);
    if Contains(region, col, row) {
      if success {
        ReadPixelBytes(surfacePixels, surfaceCT, surfaceAT, l, ct, at, x, y, before, col, row);
        StoredConvertsAlike(surfaceCT, surfaceAT, ct, at, SrcColor(col + x, row + y));
        ConvertedPixelPasses(surfaceAT, ct, at, SrcColor(col + x, row + y));
      }
    } else {
      UntouchedPixelBytes(surfacePixels, surfaceCT, surfaceAT, l, ct, at, x, y, success, garbage, col, row);
      InitPixelMatches(ct, col, row, l.width);
    }
  }

  /** The initial pattern, read back by the oracle, is the initial colour. */
  lemma InitPixelMatches(ct: ColorType, col: int, row: int, w: int)
    requires (ct == Alpha8 || Is32Bit(ct)) && 0 <= col && 0 <= row && 0 <= w
    ensures MatchesInitColor(PixelBytes(InitPattern(ct, w), col, row), ct, col, row, w)
  {
    LoadStoreWord(PackARGB32(DstInitColor(col, row, w)), [0, 0, 0, 0]);
  }

  /** The central property of the readback tests: whatever the request, the stride and the
      destination configuration, the prefilled destination after a read passes check_read with
      the surface pixels checked exactly when the read succeeded and the untouched pixels always.
      A read from an Alpha_8 surface can succeed only into Alpha_8. */
  lemma ReadThenCheckPasses(surfacePixels: seq<PMColor>, surfaceCT: ColorType, surfaceAT: AlphaType, l: Layout,
                            ct: ColorType, at: AlphaType, x: int, y: int, success: bool, garbage: seq<Byte>)
    requires IsSourcePattern(surfacePixels, surfaceCT) && TestedSurface(surfaceCT, surfaceAT)
    requires IsReadPixelsConfig(ct, at) && (success && surfaceCT == Alpha8 ==> ct == Alpha8)
    requires WellFormed(l) && l.bpp == BytesPerPixel(ct) && |garbage| == ByteSize(l)
    ensures var before := Paint(garbage, l, MakeWH(l.width, l.height), InitPattern(ct, l.width));
      var after := if success
        then Paint(before, l, ReadRegion(l.width, l.height, x, y), ReadSource(surfacePixels, surfaceAT, ct, at, x, y))
        else before;
      Checkable(after, l, ct) && ReadMatches(after, l, ct, at, x, y, success, true, surfaceAT)
  {
    var before := Paint(garbage, l, MakeWH(l.width, l.height), InitPattern(ct, l.width));
    var after := if success
      then Paint(before, l, ReadRegion(l.width, l.height, x, y), ReadSource(surfacePixels, surfaceAT, ct, at, x, y))
      else before;
    forall col, row | 0 <= col < l.width && 0 <= row < l.height
      ensures PixelPasses(after, l, ct, at, x, y, success, true, surfaceAT, col, row)
    {
      ReadPixelPasses(surfacePixels, surfaceCT, surfaceAT, l, ct, at, x, y, success, garbage, col, row);
    }
  }

  // ---------------------------------------------------------------------------------------------
  // test_readpixels

  /** init_bitmap followed by fill_dst_bmp_with_init_data: a new bitmap the size of `srcRect`
      whose pixels hold the initial pattern, and what its bytes were before the fill. */
  method PrefilledBitmap(srcRect: Rect, init: BitmapInit, ct: ColorType, at: AlphaType)
    returns (bmp: Bitmap, ghost garbage: seq<Byte>)
    requires IsReadPixelsConfig(ct, at) && 0 <= Width(srcRect) && 0 <= Height(srcRect)
    ensures bmp.Valid() && bmp.pixels != null && fresh(bmp.pixels)
    ensures bmp.info == ImageInfo(Width(srcRect), Height(srcRect), ct, at)
    ensures bmp.rowBytes == RowBytesFor(init, Width(srcRect), BytesPerPixel(ct))
    ensures |garbage| == ByteSize(bmp.Geometry())
    ensures bmp.pixels[..] == Paint(garbage, bmp.Geometry(), MakeWH(Width(srcRect), Height(srcRect)),
                                    InitPattern(ct, Width(srcRect)))
  {
    bmp := new Bitmap.Init(srcRect, init, ct, at);
    garbage := bmp.pixels[..];
    bmp.FillWithInitData();
  }

  /** One case of test_readpixels: a bitmap the size of `srcRect` with the given stride and
      configuration is prefilled, read into from the rectangle's corner, and checked, after a
      failed read too when `checkAfterFailure` (test_readpixels does, the texture test does not).
      The read meets its expectation, leaves the generation alone, and passes check_read. */
  method TestReadPixelsCase(surface: Surface, srcRect: Rect, init: BitmapInit, ct: ColorType, at: AlphaType,
                            checkAfterFailure: bool)
    returns (expectationMet: bool, idUnchanged: bool, checkPassed: bool)
    requires surface.Valid() && surface.HoldsSourcePattern()
    requires TestedSurface(surface.info.colorType, surface.info.alphaType)
    requires surface.info.colorType == Alpha8 ==> AlphaOnlyIntoAlpha8(surface.rules)
    requires IsReadPixelsConfig(ct, at) && 0 <= Width(srcRect) && 0 <= Height(srcRect)
    ensures expectationMet && idUnchanged && checkPassed
  {
    ghost var src := surface.pixels[..];
    var bmp, garbage := PrefilledBitmap(srcRect, init, ct, at);
    var startsWithPixels := bmp.pixels != null;
    assert surface.pixels[..] == src;
    var idBefore := surface.generationID;
    var success := surface.ReadPixels(bmp, srcRect.left, srcRect.top);
    assert surface.pixels[..] == src;
    var idAfter := surface.generationID;
    var expectSuccess := ReadShouldSucceed(surface.rules, srcRect, bmp.info, surface.info, surface.isGPU);
    expectationMet := CheckSuccessExpectation(expectSuccess, success);
    idUnchanged := idBefore == idAfter;
    assert success ==> surface.rules.validConversion(bmp.info, surface.info);
    ReadThenCheckPasses(src, surface.info.colorType, surface.info.alphaType, bmp.Geometry(), ct, at,
                        srcRect.left, srcRect.top, success, garbage);
    if success || (checkAfterFailure && startsWithPixels) {
      checkPassed := CheckRead(bmp, srcRect.left, srcRect.top, success, startsWithPixels, surface.info.alphaType);
    } else {
      checkPassed := true;
    }
  }

  /** The other branch of test_readpixels: a read into a bitmap without pixels fails and leaves it
      without pixels. */
  method ReadIntoUnallocated(surface: Surface, dstInfo: ImageInfo, x: int, y: int)
    returns (success: bool, isNull: bool)
    requires surface.Valid() && 0 <= dstInfo.width && 0 <= dstInfo.height && HasCodec(dstInfo.colorType)
    ensures !success && isNull
  {
    var bmp := new Bitmap.Unallocated(dstInfo);
    success := surface.ReadPixels(bmp, x, y);
    isNull := bmp.pixels == null;
  }

  /** test_readpixels: every test rectangle, every stride up to `lastInit`, every configuration. */
  method TestReadPixels(surface: Surface, lastInit: BitmapInit) returns (allPassed: bool)
    requires surface.Valid() && surface.HoldsSourcePattern()
    requires TestedSurface(surface.info.colorType, surface.info.alphaType)
    requires surface.info.colorType == Alpha8 ==> AlphaOnlyIntoAlpha8(surface.rules)
    ensures allPassed
  {
    allPassed := true;
    var rect := 0;
    while rect < |ReadPixelsTestRects|
      invariant allPassed
    {
      var srcRect := ReadPixelsTestRects[rect];
      TestRectsOverlap(rect);
      var bmi := Some(Tight);
      while bmi.Some? && Ordinal(bmi.value) <= Ordinal(lastInit)
        invariant allPassed
        decreases if bmi.Some? then 3 - Ordinal(bmi.value) else -1
      {
        var c := 0;
        while c < |ReadPixelsConfigs|
          invariant allPassed
        {
          var (ct, at) := ReadPixelsConfigs[c];
          var met, same, checked := TestReadPixelsCase(surface, srcRect, bmi.value, ct, at, true);
          allPassed := allPassed && met && same && checked;
          c := c + 1;
        }
        bmi := NextBMI(bmi.value);
      }
      rect := rect + 1;
    }
  }

  /** DEF_TEST(ReadPixels): a raster N32 premultiplied surface, filled and read with the aligned
      strides. */
  method TestRasterReadPixels(rules: FormatRules) returns (allPassed: bool)
    ensures allPassed
  {
    var surface := new Surface(ImageInfo(DevWidth, DevHeight, BGRA8888, Premul), false, false, rules);
    surface.FillSource();
    allPassed := TestReadPixels(surface, LastBitmapInit);
  }

  /** The surface configurations of the GPU test: RGBA and BGRA premultiplied, RGB_888x opaque and
      Alpha_8. */
  const GpuSurfaceInfos: seq<ImageInfo> := [
    ImageInfo(DevWidth, DevHeight, RGBA8888, Premul), ImageInfo(DevWidth, DevHeight, BGRA8888, Premul),
    ImageInfo(DevWidth, DevHeight, RGB888x, Opaque), ImageInfo(DevWidth, DevHeight, Alpha8, Premul)]

  /** DEF_GPUTEST(ReadPixels_Gpu): each GPU surface configuration, filled and read with every
      stride kind the tests enable. */
  method TestGpuReadPixels(rules: FormatRules, readsAlphaOnly: bool) returns (allPassed: bool)
    requires AlphaOnlyIntoAlpha8(rules)
    ensures allPassed
  {
    allPassed := true;
    var k := 0;
    while k < |GpuSurfaceInfos|
      invariant allPassed
    {
      var surface := new Surface(GpuSurfaceInfos[k], true, readsAlphaOnly, rules);
      surface.FillSource();
      var passed := TestReadPixels(surface, LastBitmapInit);
      allPassed := allPassed && passed;
      k := k + 1;
    }
  }

  /** test_readpixels_texture: the same rectangles, strides and configurations read from a GPU
      texture, except that an opaque destination of a non-opaque surface is skipped, since such a
      read cannot force alpha. */
  method TestReadPixelsTexture(surface: Surface) returns (allPassed: bool)
    requires surface.isGPU
    requires surface.Valid() && surface.HoldsSourcePattern()
    requires TestedSurface(surface.info.colorType, surface.info.alphaType)
    requires surface.info.colorType == Alpha8 ==> AlphaOnlyIntoAlpha8(surface.rules)
    ensures allPassed
  {
    allPassed := true;
    var rect := 0;
    while rect < |ReadPixelsTestRects|
      invariant allPassed
    {
      var srcRect := ReadPixelsTestRects[rect];
      TestRectsOverlap(rect);
      var bmi := Some(Tight);
      while bmi.Some? && Ordinal(bmi.value) <= Ordinal(LastBitmapInit)
        invariant allPassed
        decreases if bmi.Some? then 3 - Ordinal(bmi.value) else -1
      {
        var c := 0;
        while c < |ReadPixelsConfigs|
          invariant allPassed
        {
          var (ct, at) := ReadPixelsConfigs[c];
          if !(at == Opaque && surface.info.alphaType != Opaque) {
            var met, _, checked := TestReadPixelsCase(surface, srcRect, bmi.value, ct, at, false);
            allPassed := allPassed && met && checked;
          }
          c := c + 1;
        }
        bmi := NextBMI(bmi.value);
      }
      rect := rect + 1;
    }
  }

  /** DEF_GPUTEST(ReadPixels_Texture): a GPU texture holding the source bitmap, N32 premultiplied. */
  method TestTextureReadPixels(rules: FormatRules, readsAlphaOnly: bool) returns (allPassed: bool)
    ensures allPassed
  {
    var surface := new Surface(ImageInfo(DevWidth, DevHeight, BGRA8888, Premul), true, readsAlphaOnly, rules);
    surface.FillSource();
    allPassed := TestReadPixelsTexture(surface);
  }

  // ---------------------------------------------------------------------------------------------
  // test_conversion

  /** Conversions that keep the five reference colours apart: an alpha-only source only into an
      alpha-only destination, and a grey destination only from a grey source. */
  predicate PreservesReferenceColours(dstCT: ColorType, srcCT: ColorType)
  {
    (srcCT == Alpha8 ==> dstCT == Alpha8) && (dstCT == Gray8 ==> srcCT == Gray8)
  }

  /** One reference pixel survives the conversion. */
  lemma ReferencePixelConverts(srcInfo: ImageInfo, dstInfo: ImageInfo, i: nat)
    requires HasCodec(srcInfo.colorType) && srcInfo.colorType != RGB888x
    requires HasCodec(dstInfo.colorType) && dstInfo.colorType != RGB888x
    requires PreservesReferenceColours(dstInfo.colorType, srcInfo.colorType) && i < 5
    requires !(srcInfo.colorType == Gray8 && dstInfo.colorType != Gray8)
    ensures ConvertPixel(srcInfo.alphaType, dstInfo.colorType, dstInfo.alphaType,
                         Decode(srcInfo.colorType, ReferencePixel(srcInfo.colorType, i)))
            == ReferencePixel(dstInfo.colorType, i)
  {
    ReferencePixelColours(srcInfo.colorType, i);
    var c := Decode(srcInfo.colorType, ReferencePixel(srcInfo.colorType, i));
    assert ConvertColor(srcInfo.alphaType, dstInfo.alphaType, c) == c;
    if dstInfo.colorType != Alpha8 && dstInfo.colorType != Gray8 {
      EncodePrimaries(dstInfo.colorType, i);
    }
  }

  /** Pixel i of a converted row of reference pixels is the destination's reference pixel i. */
  lemma ReferenceRowPixel(srcInfo: ImageInfo, dstInfo: ImageInfo, dst: seq<Byte>, i: nat)
    requires srcInfo.width == 5 && i < 5
    requires HasCodec(srcInfo.colorType) && srcInfo.colorType != RGB888x
    requires HasCodec(dstInfo.colorType) && dstInfo.colorType != RGB888x
    requires PreservesReferenceColours(dstInfo.colorType, srcInfo.colorType)
    requires !(srcInfo.colorType == Gray8 && dstInfo.colorType != Gray8)
    requires IsRow(srcInfo, FiveReferencePixels(srcInfo.colorType).value)
    requires RowConverts(dstInfo, srcInfo, FiveReferencePixels(srcInfo.colorType).value, dst)
    ensures (i + 1) * BytesPerPixel(dstInfo.colorType) <= |dst|
    ensures PixelOf(dst, BytesPerPixel(dstInfo.colorType), i) == ReferencePixel(dstInfo.colorType, i)
  {
    var src := FiveReferencePixels(srcInfo.colorType).value;
    assert PixelConverts(dstInfo, srcInfo, src, dst, i);
    FlattenPixel(ReferencePixels(srcInfo.colorType), BytesPerPixel(srcInfo.colorType), i);
    ReferencePixelConverts(srcInfo, dstInfo, i);
  }

  /** A converted row of reference pixels is the destination's row of reference pixels. */
  lemma ReferenceRowConverts(srcInfo: ImageInfo, dstInfo: ImageInfo, dst: seq<Byte>)
    requires srcInfo.width == 5 && dstInfo.width == 5
    requires HasCodec(srcInfo.colorType) && srcInfo.colorType != RGB888x
    requires HasCodec(dstInfo.colorType) && dstInfo.colorType != RGB888x
    requires PreservesReferenceColours(dstInfo.colorType, srcInfo.colorType)
    requires !(srcInfo.colorType == Gray8 && dstInfo.colorType != Gray8)
    requires IsRow(srcInfo, FiveReferencePixels(srcInfo.colorType).value) && IsRow(dstInfo, dst)
    requires RowConverts(dstInfo, srcInfo, FiveReferencePixels(srcInfo.colorType).value, dst)
    ensures dst == FiveReferencePixels(dstInfo.colorType).value
  {
    var bd := BytesPerPixel(dstInfo.colorType);
    var dstPixels := ReferencePixels(dstInfo.colorType);
    var flat := Flatten(dstPixels);
    FlattenLength(dstPixels, bd);
    forall i: nat | i < 5
      ensures (i + 1) * bd <= |dst| && PixelOf(dst, bd, i) == PixelOf(flat, bd, i)
    {
      ReferenceRowPixel(srcInfo, dstInfo, dst, i);
      FlattenPixel(dstPixels, bd, i);
    }
    RowsEqualByPixel(dst, flat, bd, 5);
  }

  /** test_conversion: reading the five reference pixels of `srcInfo` into a five-pixel row of
      `dstInfo` succeeds exactly when the conversion is valid, and then gives the destination's
      reference pixels, unless a grey source meets a colour destination. */
  lemma TestConversion(rules: FormatRules, dstInfo: ImageInfo, srcInfo: ImageInfo)
    requires srcInfo.width == 5 && dstInfo.width == 5
    requires HasCodec(srcInfo.colorType) && srcInfo.colorType != RGB888x
    requires HasCodec(dstInfo.colorType) && dstInfo.colorType != RGB888x
    ensures var src := FiveReferencePixels(srcInfo.colorType).value;
      IsRow(srcInfo, src) &&
      var r := ReadImageRow(rules, dstInfo, srcInfo, src);
      (r.Some? <==> rules.validConversion(dstInfo, srcInfo)) &&
      ((r.Some? && !(srcInfo.colorType == Gray8 && dstInfo.colorType != Gray8)
        && PreservesReferenceColours(dstInfo.colorType, srcInfo.colorType))
         ==> r.value == FiveReferencePixels(dstInfo.colorType).value)
  {
    FlattenLength(ReferencePixels(srcInfo.colorType), BytesPerPixel(srcInfo.colorType));
    var src := FiveReferencePixels(srcInfo.colorType).value;
    var r := ReadImageRow(rules, dstInfo, srcInfo, src);
    if r.Some? && !(srcInfo.colorType == Gray8 && dstInfo.colorType != Gray8)
       && PreservesReferenceColours(dstInfo.colorType, srcInfo.colorType) {
      ReferenceRowConverts(srcInfo, dstInfo, r.value);
    }
  }
}
