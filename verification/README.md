# Skia pixel readback: a verified model of the ReadPixels tests

This project models the pixel readback contract of Skia's `tests/ReadPixelsTest.cpp` in Dafny.
In that contract, a `DEV_W x DEV_H` (100 x 100) surface is read into a caller's bitmap of
`bw x bh` pixels placed at an origin `(x, y)` of the surface:

- the request is clipped to the surface;
- every destination pixel inside the clipped region receives its surface pixel, converted to
  the destination's colour type (RGBA_8888, BGRA_8888, RGB_888x, Alpha_8) and alpha type
  (premultiplied, unpremultiplied, opaque), with alpha forced to opaque where either side is opaque;
- every other destination byte, row padding included, keeps its value;
- the surface and its generation ID do not change.

The test file holds an executable oracle for this contract:

- pixel generators (`get_src_color`, `get_dst_bmp_init_color`);
- a decoder (`convert_to_pmcolor`) and a comparator with a one-step tolerance (`check_read_pixel`);
- a region checker (`check_read`);
- an ordered success table (`read_should_succeed`, `check_success_expectation`);
- destination strides (`init_bitmap`, `nextBMI`);
- the five reference pixels of the conversion test (`five_reference_pixels`).

The oracle is modelled as Dafny functions. The loops of the test (`make_src_bitmap`,
`fill_dst_bmp_with_init_data`, `check_read`, `test_readpixels`) are methods on a `Bitmap` class
(a byte array with a row stride) and a `Surface` class (an array of `SkPMColor` words).
`SkSurface::readPixels` is not in the test file, so `Surface.ReadPixels` is a reference
implementation. It decides success in the order bounds, format, GPU capability, and writes the
clipped region pixel by pixel at `y * rowBytes + x * bpp`. A surface keeps what its colour type
holds of each drawn colour: alpha alone for Alpha_8, opaque colour for RGB_888x.
Its contract states the new destination in terms of the pure function `Raster.Paint`.

The central results are two.

- `ReadPixelsTests.ReadThenCheckPasses`: whatever the request rectangle, the stride and the
  tested destination configuration, the prefilled destination after a read passes `check_read`.
  Surface pixels are checked when the read succeeded; untouched pixels are always checked.
- `ReadPixelsTests.TestReadPixels` and its callers: every assertion of the test loops holds.
  These are the success expectation, the unchanged generation ID and the `check_read` verdict.

Files, one module each:

- `arith.dfy` (`Arith`): multiplication and Euclidean division facts.
- `pixels.dfy` (`Pixels`): colour and alpha types, `SkPMColor` packing, premultiply and
  unpremultiply arithmetic, and a byte codec per colour type.
- `rects.dfy` (`Rects`): `SkIRect` and clipping.
- `layouts.dfy` (`Layouts`): strided buffer geometry, and rows of packed pixels.
- `oracle.dfy` (`Oracle`): the test's generators, decoder, comparator, success table, strides,
  test rectangles and reference pixels.
- `convert.dfy` (`Convert`): the per-pixel conversion, and the one-row image read of the
  conversion test.
- `raster.dfy` (`Raster`): painting a rectangle of a strided buffer, the `Bitmap` and `Surface`
  classes, and the readback.
- `readtest.dfy` (`ReadPixelsTests`): `check_read`, the proof that a read passes it, the test
  loops, and `test_conversion`.

Two arithmetic facts of the code shape the model:

- Premultiplication is `SkPremultiplyARGBInline`, which rounds to nearest (`SkMulDiv255Round`).
- The conversion test compares the reference pixels byte for byte with `memcmp`, with no
  per-channel tolerance.

## Model

| member | source | states |
|---|---|---|
| Pixels.PackUnpackARGB32 | tests/ReadPixelsTest.cpp:150-158 | `SkGetPacked*` recover each channel that `SkPackARGB32` packed, and every word is a packed colour |
| Pixels.OpaqueAlphaIsOrMask | tests/ReadPixelsTest.cpp:226-228 | forcing alpha to 0xFF on the colour is `| 0xFF000000` on its packed word, and leaves packed alpha 0xFF |
| Pixels.LoadStoreWord | tests/ReadPixelsTest.cpp:139-140 | storing a 32-bit word in four bytes and loading it back are inverse, both ways |
| Pixels.N32ByteOrder | tests/ReadPixelsTest.cpp:76-80 | a packed SkPMColor lies in little-endian memory as blue, green, red, alpha (the BGRA order of N32) |
| Pixels.MulDiv255Round | tests/ReadPixelsTest.cpp:56 | the result is x*y/255 rounded to the nearest integer (within 127/255 either way) and at most either factor |
| Pixels.MulDiv255Ceiling | tests/ReadPixelsTest.cpp:96-98 | the result is the least q with x*y <= 255*q, and at most either factor |
| Pixels.PremultiplyARGB | tests/ReadPixelsTest.cpp:56 | alpha is kept, the result is premultiplied (no channel above alpha), alpha 0xFF keeps the colour, alpha 0 gives transparent black |
| Pixels.UnpremulChannel | tests/ReadPixelsTest.cpp:95-99 | for a premultiplied channel v <= a the result u satisfies 255*v <= u*a < 255*v + a, and 0 for alpha 0 |
| Pixels.UnpremulCeilingWithinOne | tests/ReadPixelsTest.cpp:95-99 | unpremultiplying a channel and multiplying back with `SkMulDiv255Ceiling` gives the channel or one more: the origin of the one-step tolerance |
| Pixels.DecodeEncode | tests/ReadPixelsTest.cpp:637-638 | decoding an encoded colour gives it back for RGBA/BGRA, with alpha forced for RGB_888x, alpha only for Alpha_8, grey colours for Gray_8, and primaries for 565/4444 |
| Pixels.DecodeEncode565 | tests/ReadPixelsTest.cpp:568-569 | every opaque colour whose channels survive narrowing to 5/6/5 bits round-trips through RGB_565 |
| Pixels.DecodeEncode4444 | tests/ReadPixelsTest.cpp:572 | every colour whose channels survive narrowing to 4 bits round-trips through ARGB_4444 |
| Rects.Clip | tests/ReadPixelsTest.cpp:180-184 | a pixel lies in the clipped rectangle iff it lies in both rectangles; the clip is empty iff they do not intersect |
| Rects.IntersectsIffCommonPixel | tests/ReadPixelsTest.cpp:371-373 | `SkIRect::Intersects` holds iff some pixel lies in both rectangles |
| Rects.TouchingIsNoOverlap | tests/ReadPixelsTest.cpp:313-314 | rectangles that only share an edge or a corner do not intersect and clip to the empty rectangle |
| Layouts.PixelInBuffer | tests/ReadPixelsTest.cpp:136-140 | the bytes of every pixel at `y * rowBytes + x * bpp` lie inside the allocated buffer |
| Layouts.DecomposeOffset | tests/ReadPixelsTest.cpp:139 | byte k of pixel (x, y) is found back at row y, column x, byte k, and is not row padding |
| Layouts.RecomposeOffset | tests/ReadPixelsTest.cpp:139 | every buffer byte is `row * rowBytes + col * bpp + k` for its own row, column and byte in pixel |
| Layouts.FlattenPixel | tests/ReadPixelsTest.cpp:618-624 | in a row of pixels packed at the minimum stride, pixel i is the i-th pixel's bytes |
| Layouts.RowsEqualByPixel | tests/ReadPixelsTest.cpp:637-638 | two rows of n pixels are byte-for-byte equal when every pixel is |
| Oracle.SrcColor | tests/ReadPixelsTest.cpp:30-57 | `get_src_color` is premultiplied, has the alpha of the (x+y) mod 5 cycle, is (0xFF, x, y, 0x0C) when opaque and transparent black when alpha is 0 |
| Oracle.DstInitColor | tests/ReadPixelsTest.cpp:59-66 | `get_dst_bmp_init_color` is opaque and packs to 0xFF000000 plus the low 24 bits of n = y*w + x |
| Oracle.DstInitColorsDistinct | tests/ReadPixelsTest.cpp:59-66 | two pixels of a bitmap of at most 2^24 pixels never share an initial colour |
| Oracle.ConvertToPMColor | tests/ReadPixelsTest.cpp:69-101 | the premul flag is set iff the alpha type is unpremul; BGRA and RGBA bytes decode in their own order; unpremul pixels come out premultiplied; other colour types give 0 |
| Oracle.CheckReadPixel | tests/ReadPixelsTest.cpp:146-164 | without a premul step the verdict is equality; with one, equal alphas are required and each channel may differ by one |
| Oracle.CheckReadPixelSymmetric | tests/ReadPixelsTest.cpp:146-164 | the comparator's verdict does not depend on the order of its arguments |
| Oracle.UnpremulReadPasses | tests/ReadPixelsTest.cpp:95-99 | a premultiplied colour, unpremultiplied, stored as RGBA or BGRA and decoded by `convert_to_pmcolor`, passes `check_read_pixel` against itself |
| Oracle.CheckSuccessExpectation | tests/ReadPixelsTest.cpp:357-367 | kMaybe accepts any outcome; kNo and kYes accept exactly failure and success |
| Oracle.ReadShouldSucceed | tests/ReadPixelsTest.cpp:369-399 | the first applicable rule decides: no overlap or invalid conversion is kNo; raster is then kYes; on the GPU, unpremul source into premul destination is kNo, then an alpha-only source is kMaybe (and only then is the result kMaybe), then the result is kYes iff the source is always opaque or the destination is not |
| Oracle.NextBMI | tests/ReadPixelsTest.cpp:268-271 | the next stride kind has the next ordinal, and there is none after the odd stride |
| Oracle.Align4 | tests/ReadPixelsTest.cpp:281 | `SkAlign4` gives the least multiple of four at or above its argument |
| Oracle.RowBytesFor | tests/ReadPixelsTest.cpp:273-291 | the stride fits a row; it is minimal for Tight, a multiple of four with room for 16 more pixels for RowBytes, and 3 mod 4 for RowBytesOdd |
| Oracle.TestRectsOverlap | tests/ReadPixelsTest.cpp:304-349 | every test rectangle is non-empty, and exactly the nine outside or touching ones miss the surface |
| Oracle.FiveReferencePixels | tests/ReadPixelsTest.cpp:585-609 | a reference table exists exactly for the colour types other than Unknown (and RGB_888x, which the switch does not list) |
| Oracle.ReferencePixelColours | tests/ReadPixelsTest.cpp:557-583 | every reference pixel decodes to red, green, blue, white and black in turn; Alpha_8 and Gray_8 pixels are opaque (white for grey) |
| Oracle.EncodePrimaries | tests/ReadPixelsTest.cpp:559-580 | encoding each of the five primaries gives the table entry, for every colour type that holds colour |
| Oracle.RgbaBgraSwap | tests/ReadPixelsTest.cpp:562-567 | the RGBA and BGRA tables hold the same pixels with the red and blue bytes swapped |
| Convert.ConvertColor | tests/ReadPixelsTest.cpp:223-228 | alpha is forced to 0xFF exactly when either side is opaque; colour channels are kept between non-unpremul types; premultiplied input stays premultiplied unless the destination is unpremul |
| Convert.ConvertPixel | tests/ReadPixelsTest.cpp:192-197 | the pixel has the destination's size; an Alpha_8 destination receives the source alpha, or 0xFF when either side is opaque |
| Convert.ReadImageRow | tests/ReadPixelsTest.cpp:625-626 | reading a one-row image succeeds iff the conversion is valid, and then pixel i of the destination is the conversion of source pixel i |
| Raster.PaintIdempotent | tests/ReadPixelsTest.cpp:166-168 | painting a rectangle leaves every byte outside it alone, and painting it twice is painting it once |
| Raster.PaintPixel | tests/ReadPixelsTest.cpp:239-246 | after painting r, a pixel inside r holds the source's bytes and any other pixel keeps its bytes |
| Raster.WritePixel | tests/ReadPixelsTest.cpp:139-140 | the pixel's bytes are written at the offset and every other byte is unchanged |
| Raster.PaintRect | tests/ReadPixelsTest.cpp:132-143 | the nested y/x loops leave the buffer equal to `Paint` of its old contents |
| Raster.Bitmap.Init | tests/ReadPixelsTest.cpp:273-291 | the bitmap has the rectangle's size, the requested types, the stride `init` asks for and a buffer of the right size |
| Raster.Bitmap.Unallocated | tests/ReadPixelsTest.cpp:438-442 | a bitmap that describes an image but has no pixels |
| Raster.Bitmap.FillWithInitData | tests/ReadPixelsTest.cpp:128-144 | every pixel receives its initial colour (its alpha for Alpha_8) at `y * rowBytes + x * bpp`; padding is untouched |
| Raster.StoredColor | tests/ReadPixelsTest.cpp:462-467 | an Alpha_8 surface keeps only the alpha, an RGB_888x surface keeps the colour with alpha 0xFF, the 32-bit types keep all channels; premultiplied colours stay premultiplied |
| Raster.StoredConvertsAlike | tests/ReadPixelsTest.cpp:462-467 | reading the stored colour gives the same bytes as reading the drawn colour when an RGB_888x surface is opaque and an Alpha_8 surface is read into Alpha_8 |
| Raster.SourcePixel | tests/ReadPixelsTest.cpp:110-111 | the surface word of pixel (x, y) is what the surface's colour type keeps of `get_src_color(x, y)` |
| Raster.ReadRegion | tests/ReadPixelsTest.cpp:180-192 | destination pixel (bx, by) is written iff it lies in the bitmap and (bx + x, by + y) lies on the surface |
| Raster.ReadPaintable | tests/ReadPixelsTest.cpp:180-192 | the converted surface row covers every pixel of the clipped region, so the read can paint it |
| Raster.ReadSourcePixel | tests/ReadPixelsTest.cpp:216-225 | the converted pixel the read writes at (col, row) is the stored `get_src_color(col + x, row + y)` converted to the destination's types |
| Raster.Surface.constructor | tests/ReadPixelsTest.cpp:449-450 | a DEV_W x DEV_H surface with the given image info and back end |
| Raster.Surface.FillSource | tests/ReadPixelsTest.cpp:103-126 | every surface pixel holds what its colour type keeps of `get_src_color` of its coordinates, and the generation moves on |
| Raster.Surface.ReadPixels | tests/ReadPixelsTest.cpp:419-421 | the read, which fails on a null destination, an empty clip, an invalid conversion or a GPU limit, succeeds exactly when the success table says kYes, or kMaybe with alpha-only reads supported; on success the clipped region holds the converted surface pixels and all else is unchanged; on failure nothing changes; the generation ID is unchanged |
| ReadPixelsTests.CheckRead | tests/ReadPixelsTest.cpp:169-250 | the nested loops return true iff every pixel passes: inside the clipped region it matches the surface colour, outside it keeps its initial colour |
| ReadPixelsTests.ConvertedPixelPasses | tests/ReadPixelsTest.cpp:216-237 | for every premultiplied surface colour and every tested configuration, the converted pixel passes the oracle's decode and compare |
| ReadPixelsTests.UnpremulPixelPasses | tests/ReadPixelsTest.cpp:229-237 | an unpremultiplied 32-bit destination passes thanks to the comparator's one-step tolerance |
| ReadPixelsTests.ReadPixelBytes | tests/ReadPixelsTest.cpp:216-225 | a destination pixel in the clipped region holds the conversion of `get_src_color` at the mapped coordinates |
| ReadPixelsTests.UntouchedPixelBytes | tests/ReadPixelsTest.cpp:239-246 | a destination pixel outside the clipped region still holds its initial pattern, whether or not the read succeeded |
| ReadPixelsTests.InitPixelMatches | tests/ReadPixelsTest.cpp:204-211 | the initial pattern, read back as a word or an alpha byte, is the initial colour |
| ReadPixelsTests.ReadPixelPasses | tests/ReadPixelsTest.cpp:216-246 | one destination pixel after prefill and read passes `check_read` |
| ReadPixelsTests.ReadThenCheckPasses | tests/ReadPixelsTest.cpp:409-437 | the prefilled destination after any read passes `check_read` on every pixel, as long as a read from an Alpha_8 surface succeeds only into Alpha_8 |
| ReadPixelsTests.AlphaSurfaceFailsColourCheck | tests/ReadPixelsTest.cpp:216-237 | an Alpha_8 surface read into RGBA would fail `check_read`, so the tests depend on that read being refused |
| ReadPixelsTests.PrefilledBitmap | tests/ReadPixelsTest.cpp:409-418 | a new bitmap with the requested geometry whose pixels hold the initial pattern |
| ReadPixelsTests.TestReadPixelsCase | tests/ReadPixelsTest.cpp:409-442 | one case: the success expectation is met, the generation ID is unchanged and `check_read` passes |
| ReadPixelsTests.ReadIntoUnallocated | tests/ReadPixelsTest.cpp:438-442 | a read into a bitmap without pixels fails and leaves it without pixels |
| ReadPixelsTests.TestReadPixels | tests/ReadPixelsTest.cpp:401-446 | every assertion over all rectangles, strides and configurations holds |
| ReadPixelsTests.TestRasterReadPixels | tests/ReadPixelsTest.cpp:448-453 | the raster N32 premultiplied test passes with the aligned strides |
| ReadPixelsTests.TestGpuReadPixels | tests/ReadPixelsTest.cpp:462-477 | every GPU surface configuration passes the same loops, given that `SkImageInfoValidConversion` turns an Alpha_8 source into Alpha_8 only |
| ReadPixelsTests.TestReadPixelsTexture | tests/ReadPixelsTest.cpp:480-528 | the texture loops pass, with an opaque destination of a non-opaque surface skipped and `check_read` only after a successful read |
| ReadPixelsTests.TestTextureReadPixels | tests/ReadPixelsTest.cpp:538-553 | a GPU texture holding the source bitmap, N32 premultiplied, passes the texture loops |
| ReadPixelsTests.ReferencePixelConverts | tests/ReadPixelsTest.cpp:637-638 | each reference pixel, converted, is the destination's reference pixel |
| ReadPixelsTests.ReferenceRowPixel | tests/ReadPixelsTest.cpp:637-638 | pixel i of a converted reference row is the destination's reference pixel i |
| ReadPixelsTests.ReferenceRowConverts | tests/ReadPixelsTest.cpp:628-638 | a converted row of reference pixels equals the destination's reference row byte for byte |
| ReadPixelsTests.TestConversion | tests/ReadPixelsTest.cpp:611-641 | the 5x1 read succeeds iff the conversion is valid, and then gives `five_reference_pixels(dstCT)`, unless a grey source meets a colour destination |

## Left out

- GPU back ends (tests/ReadPixelsTest.cpp:454-553) are foreign calls. The model drops
  `GrContext`, render targets, texture proxies, surface origins, the ANGLE skip list and the
  texture read flags. A GPU surface is a `Surface` with `isGPU` set. Whether it reads
  alpha-only surfaces, the one outcome the tests leave open, is the `readsAlphaOnly` parameter.
  The origin and render-target loops of the texture test collapse to one surface.
- `SkImageInfoValidConversion`, `SkColorTypeIsAlphaOnly` and `SkColorTypeIsAlwaysOpaque` are
  not visible. They are the fields of a `FormatRules` parameter.
- `Surface.ReadPixels` is a reference implementation, since `SkSurface::readPixels` is not in
  the test file. Its unpremultiply rounds up. Multiplying back rounds up again and lands within
  one step (`UnpremulCeilingWithinOne`), which is why the comparator's tolerance is needed.
- A surface keeps one `SkPMColor` word per pixel, reduced by `StoredColor` to what its colour
  type holds. The byte layout of GPU surface storage is not modelled.
- `fill_src_canvas` draws through a canvas; the model writes `get_src_color` into the surface
  directly. The static cache of `make_src_bitmap` is left out.
- RGBA_F16 pixels are half floats. Their table is kept as constants but is not decoded or
  converted.
- Colour spaces (`SkImageInfoIsValidRenderingCS`, `makeLinearGamma`) are left out.
- Reporter and assertion macros become the Boolean results of the test methods.
- The GUI viewer shell is not part of this model.
- ReadPixelsTests.ReadThenCheckPasses: requires a surface whose alpha type is not unpremul and
  an opaque RGB_888x surface (`TestedSurface`), because these are the surfaces the tests create.
- ReadPixelsTests.TestReadPixelsCase: requires `TestedSurface` for the same reason, and for an
  Alpha_8 surface the hypothesis `AlphaOnlyIntoAlpha8` below.
- ReadPixelsTests.TestGpuReadPixels: assumes `AlphaOnlyIntoAlpha8`: `SkImageInfoValidConversion`
  (called at tests/ReadPixelsTest.cpp:374) refuses an Alpha_8 source into any other colour
  type. Its definition is not in the test file, and `AlphaSurfaceFailsColourCheck` shows the
  test depends on it.
- ReadPixelsTests.TestConversion: states the reference-pixel result only for the codec colour
  types other than Unknown, RGB_888x and RGBA_F16. It also assumes conversions that keep the
  reference colours apart (`PreservesReferenceColours`): an alpha-only source only into Alpha_8,
  a grey destination only from a grey source. The source relies on `SkImageInfoValidConversion`
  to rule the other pairs out.
- Oracle.NextBMI: returns no successor after the odd stride, where the source casts an
  out-of-range integer back to the enum. The loops stop before that point.
- The odd stride is disabled in the source. It is modelled by `RowBytesFor` but never run by
  the test loops.
- Pixel indices are unbounded integers. The source's `int` and `uint32_t` arithmetic never
  overflows at these sizes (at most 120 x 120 pixels).
- Drawing the source pattern moves the surface to a new generation. The tests do not observe
  that value.
