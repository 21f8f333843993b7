# HelloConstBuffers core in Dafny

This project models the logic inside the Direct3D 12 "HelloConstBuffers" sample.

- **Image loader.** A decoded bitmap is packed into a tightly packed RGBA8 buffer; that is mip level 0. `getMipMap` derives lower mip levels on demand, each from the one above it, and caches them.
- **OBJ loader.** `parseOBJ` reads a small subset of Wavefront OBJ (`v`, `vt`, `vn` and `f` lines). `objToBuffers` fan-triangulates the faces into a vertex buffer and an identity index buffer.
- **Resource arithmetic.** The constant buffer view size is rounded up to 256 bytes, and the texture upload data gets its row and slice pitches.

Modules, one per file:

- `MipMaps` (`mipmap.dfy`): one mip level, defined twice.
  - Specification functions on byte sequences: the byte layout, `getPixel`/`setPixel`, `Pixel::avg`, and the filter that makes the next level.
  - The `MipMap` datatype, holding the level's buffer as an `array`, with `SetPixel` writing that array in place.
- `Bitmaps` (`bitmap.dfy`): the decoded bitmap, and the packing loop the loader constructor and `CreateTextureResource` both run.
- `ImageLoading` (`image_loader.dfy`): the pyramid of levels over a base level, and the `ImageLoader` class whose `mipMaps` cache `GenerateMipMap` grows.
- `ObjText` (`obj_text.dfy`): the text primitives `parseOBJ` relies on, each with the printer it inverts.
  - `>>` on words, modelled as `Words`.
  - `getline` with delimiter `'/'`, modelled as `Segments`.
  - `stoi` on a decimal segment, modelled as `Stoi`.
- `ObjParsing` (`obj_parse.dfy`): the OBJ records, the per-line dispatch as a fold with errors, and the `ParseObj` read loop.
- `ObjBuffers` (`obj_buffers.dfy`): the shader vertex layout, `vertBundleToVert`, fan triangulation, and `ObjToBuffers`, which fills the two arrays.
- `GpuResources` (`gpu_resources.dfy`): the 256-byte round-up and the texture upload data.

Behaviour of the code worth knowing:

- **Filter window.** `generateMipMap` averages the pixels (i, j), (i+1, j), (i, j+1) and (i+1, j+1) of the level above. Neighbouring windows overlap: pixel (i, j + 1) reads two of the pixels that pixel (i, j) reads.
- **Small levels.** A level one pixel wide or high gives an empty level below it; nothing signals an error (`DownsampleThin`, `PyramidEmptyBelow`).
- **Level range.** Negative levels are excluded by `requires level >= 0`.
- **Faces.** An `f` line always reads exactly five bundle strings. When the line has fewer words, the last word is read again: `>>` leaves the string unchanged once the stream is exhausted. A line without words reads the empty string, which has no `'/'` segment.
- **Error paths.** The C++ indexes out of range without a check, and `stoi` throws. The model turns each of these into an `Err` result instead (`ObjError`).

## Model

| member | source | states |
|---|---|---|
| MipMaps.Offset | Samples/Desktop/D3D12HelloWorld/src/HelloConstBuffers/ImageLoader.h:7-9 | The channel offsets are R=0, G=1, B=2, A=3. Every offset is below 4, and `ChannelAt` maps the offset back to its channel. |
| MipMaps.ChannelAtOffset | Samples/Desktop/D3D12HelloWorld/src/HelloConstBuffers/ImageLoader.h:7-9 | Offsets 0..3 and the four channels are in one-to-one correspondence. |
| MipMaps.Mean | Samples/Desktop/D3D12HelloWorld/src/HelloConstBuffers/ImageLoader.cpp:104-111 | One channel of `avg` is floor((a+b+c+d)/4): the BYTE cast never wraps. The result lies between the least and the greatest input, and four equal inputs give that value. |
| MipMaps.Avg | Samples/Desktop/D3D12HelloWorld/src/HelloConstBuffers/ImageLoader.cpp:104-111 | Every channel of the average is the `Mean` of that channel of the four pixels. Four equal pixels average to that pixel. |
| MipMaps.PixelIndexDecode | Samples/Desktop/D3D12HelloWorld/src/HelloConstBuffers/ImageLoader.cpp:100-102 | An in-bounds pixel's place i*w+j lies in [0, w*h) and gives back its row and column by division. |
| MipMaps.ByteIndex | Samples/Desktop/D3D12HelloWorld/src/HelloConstBuffers/ImageLoader.cpp:100-102 | `getByteIndex`: i*w*4 + j*4 + c. `ByteIndexDecode`, `ByteIndexInjective` and `ByteIndexCovers` prove it is a bijection onto the buffer. |
| MipMaps.ByteIndexDecode | Samples/Desktop/D3D12HelloWorld/src/HelloConstBuffers/ImageLoader.cpp:100-102 | For an in-bounds pixel, `getByteIndex` i*w*4 + j*4 + c lies in [0, w*h*4). Row, column and channel can be read back from it. |
| MipMaps.ByteIndexInjective | Samples/Desktop/D3D12HelloWorld/src/HelloConstBuffers/ImageLoader.cpp:100-102 | Distinct in-bounds (row, column, channel) triples have distinct byte indices. |
| MipMaps.ByteIndexCovers | Samples/Desktop/D3D12HelloWorld/src/HelloConstBuffers/ImageLoader.cpp:100-102 | Every byte of a w×h buffer is the byte index of some in-bounds pixel and channel. |
| MipMaps.PixelAt | Samples/Desktop/D3D12HelloWorld/src/HelloConstBuffers/ImageLoader.cpp:84-91 | `getPixel` on a byte sequence. `PixelAtChannel` states which bytes it reads. |
| MipMaps.PixelAtChannel | Samples/Desktop/D3D12HelloWorld/src/HelloConstBuffers/ImageLoader.cpp:84-91 | Channel c of `getPixel(i, j)` is the byte at `getByteIndex(i, j, c)`, and that index is inside the buffer. |
| MipMaps.WithPixel | Samples/Desktop/D3D12HelloWorld/src/HelloConstBuffers/ImageLoader.cpp:93-98 | `setPixel` on a byte sequence keeps the level's size. |
| MipMaps.WithPixelReadBack | Samples/Desktop/D3D12HelloWorld/src/HelloConstBuffers/ImageLoader.cpp:84-98 | `getPixel(i, j)` after `setPixel(i, j, p)` is p. |
| MipMaps.WithPixelFrame | Samples/Desktop/D3D12HelloWorld/src/HelloConstBuffers/ImageLoader.cpp:93-98 | `setPixel(i, j, p)` leaves every byte that belongs to another pixel unchanged. |
| MipMaps.WithPixelOthers | Samples/Desktop/D3D12HelloWorld/src/HelloConstBuffers/ImageLoader.cpp:93-98 | `setPixel(i, j, p)` leaves every other in-bounds pixel unchanged. |
| MipMaps.PixelsDetermineLevel | Samples/Desktop/D3D12HelloWorld/src/HelloConstBuffers/ImageLoader.cpp:84-91 | Two buffers of one size whose pixels all agree are equal byte for byte. |
| MipMaps.WindowAvg | Samples/Desktop/D3D12HelloWorld/src/HelloConstBuffers/ImageLoader.cpp:56-61 | The average of the four pixels (i, j), (i+1, j), (i, j+1), (i+1, j+1) of the level above. `FillPixel` and `DownsampleFiltered` use it as the filter step. |
| MipMaps.Downsample | Samples/Desktop/D3D12HelloWorld/src/HelloConstBuffers/ImageLoader.cpp:54-65 | The derived level has (w/2)×(h/2) pixels. |
| MipMaps.DownsampleFiltered | Samples/Desktop/D3D12HelloWorld/src/HelloConstBuffers/ImageLoader.cpp:54-64 | Every pixel (i, j) of `Downsample` is the `avg` of pixels (i, j), (i+1, j), (i, j+1) and (i+1, j+1) of the level above. |
| MipMaps.FillPixel | Samples/Desktop/D3D12HelloWorld/src/HelloConstBuffers/ImageLoader.cpp:56-63 | Writing the window average at (i, j) keeps all earlier pixels in row-major order and adds (i, j) to the filled prefix. |
| MipMaps.FilledAll | Samples/Desktop/D3D12HelloWorld/src/HelloConstBuffers/ImageLoader.cpp:54-65 | Once the loops have run over all rows, every pixel of the new level is its window average. |
| MipMaps.FilteredIsDownsample | Samples/Desktop/D3D12HelloWorld/src/HelloConstBuffers/ImageLoader.cpp:54-65 | A level whose pixels are all window averages is exactly `Downsample` of the level above. |
| MipMaps.DownsampleThin | Samples/Desktop/D3D12HelloWorld/src/HelloConstBuffers/ImageLoader.cpp:76-79 | A level one pixel wide or high gives an empty level, without an error. |
| MipMaps.DownsampleUniform | Samples/Desktop/D3D12HelloWorld/src/HelloConstBuffers/ImageLoader.cpp:56-63 | A level of a single colour gives a level of that colour. |
| MipMaps.MipMap.GetPixel | Samples/Desktop/D3D12HelloWorld/src/HelloConstBuffers/ImageLoader.cpp:84-91 | `getPixel` on the level's array: `PixelAt` of its contents, so `PixelAtChannel` applies. |
| MipMaps.MipMap.SetPixel | Samples/Desktop/D3D12HelloWorld/src/HelloConstBuffers/ImageLoader.cpp:93-98 | The array afterwards is `WithPixel` of the array before: the four bytes of (i, j) and nothing else. |
| MipMaps.MipMap.Next | Samples/Desktop/D3D12HelloWorld/src/HelloConstBuffers/ImageLoader.cpp:76-82 | `next` gives width/2 and height/2 (truncated) and level + 1, and allocates a fresh buffer of that size. |
| Bitmaps.PackPixel | Samples/Desktop/D3D12HelloWorld/src/HelloConstBuffers/ImageLoader.cpp:19-24 | Writing bytes R, G, B and A of pixel (i, j) from the colour at column j, row i gives that pixel its colour. It keeps every earlier packed pixel. |
| Bitmaps.PackRow | Samples/Desktop/D3D12HelloWorld/src/HelloConstBuffers/ImageLoader.cpp:17-25 | Row i of the buffer takes the colours of row i of the bitmap, and the rows before it keep theirs. No byte outside row i is written. |
| Bitmaps.PackRgba | Samples/Desktop/D3D12HelloWorld/src/HelloConstBuffers/ImageLoader.cpp:14-26 | The buffer has h*w*4 bytes. Pixel (i, j) holds the colour at column j, row i, channels in R, G, B, A order. |
| ImageLoading.Halved | Samples/Desktop/D3D12HelloWorld/src/HelloConstBuffers/ImageLoader.cpp:77-78 | A size halved k times with truncating division by 2, as `next` does once per level. It is never negative, and `HalvedIsQuotient` gives it in closed form. |
| ImageLoading.HalvedIsQuotient | Samples/Desktop/D3D12HelloWorld/src/HelloConstBuffers/ImageLoader.cpp:77-78 | Halving k times, truncating at each step, equals one truncating division by 2^k. |
| ImageLoading.Pyramid | Samples/Desktop/D3D12HelloWorld/src/HelloConstBuffers/ImageLoader.cpp:41-70 | Level k of the pyramid is the base size halved k times. |
| ImageLoading.PyramidStep | Samples/Desktop/D3D12HelloWorld/src/HelloConstBuffers/ImageLoader.cpp:51-65 | A proof helper: it unfolds the definition of `Pyramid`. Level k is `Downsample` of level k - 1, the recursion of `generateMipMap` through level k - 1. |
| ImageLoading.PyramidEmptyBelow | Samples/Desktop/D3D12HelloWorld/src/HelloConstBuffers/ImageLoader.cpp:76-82 | Once a level is at most one pixel wide or high, every level further down is empty and stays thin. |
| ImageLoading.NextLevelOf | Samples/Desktop/D3D12HelloWorld/src/HelloConstBuffers/ImageLoader.cpp:51-65 | The level derived from level k - 1, numbered k and of half its size, is level k of the pyramid. |
| ImageLoading.AppendLevel | Samples/Desktop/D3D12HelloWorld/src/HelloConstBuffers/ImageLoader.cpp:67-69 | Take a cache of levels 0 .. n - 1 and append level n to it. The result is a cache of levels 0 .. n. |
| ImageLoading.FilterLevel | Samples/Desktop/D3D12HelloWorld/src/HelloConstBuffers/ImageLoader.cpp:54-65 | After the nested loops, the new level's array is exactly `Downsample` of the level above. |
| ImageLoading.ImageLoader.constructor | Samples/Desktop/D3D12HelloWorld/src/HelloConstBuffers/ImageLoader.cpp:6-30 | The cache holds one entry, level 0 of size w×h, whose pixel (i, j) is the bitmap colour at column j, row i. |
| ImageLoading.ImageLoader.GenerateMipMap | Samples/Desktop/D3D12HelloWorld/src/HelloConstBuffers/ImageLoader.cpp:41-70 | A cached level changes nothing. Otherwise the cache ends with level + 1 entries. The old entries are untouched, the new ones are fresh buffers, and entry k is level k of the pyramid. |
| ImageLoading.ImageLoader.GetMipMap | Samples/Desktop/D3D12HelloWorld/src/HelloConstBuffers/ImageLoader.cpp:32-38 | The result is `mipMaps[level]`: level `level` of the pyramid, with the base size halved `level` times. A cached level is returned with the cache unchanged. |
| ObjText.Words | Samples/Desktop/D3D12HelloWorld/src/HelloConstBuffers/D3D12HelloConstBuffers.cpp:254-256 | Every word `>>` extracts is non-empty and holds no whitespace. |
| ObjText.WordsUnwords | Samples/Desktop/D3D12HelloWorld/src/HelloConstBuffers/D3D12HelloConstBuffers.cpp:254-256 | Non-empty words without whitespace, written with single spaces, are read back as the same words. |
| ObjText.Segments | Samples/Desktop/D3D12HelloWorld/src/HelloConstBuffers/D3D12HelloConstBuffers.cpp:288-290 | No segment that `getline` yields with delimiter '/' contains a '/'. |
| ObjText.SegmentsJoinSlash | Samples/Desktop/D3D12HelloWorld/src/HelloConstBuffers/D3D12HelloConstBuffers.cpp:288-290 | Splitting segments joined with '/' gives the segments back, if none holds a '/' and the last one is non-empty. |
| ObjText.SegmentsOfEmpty | Samples/Desktop/D3D12HelloWorld/src/HelloConstBuffers/D3D12HelloConstBuffers.cpp:288-290 | An empty bundle string yields no segment. |
| ObjText.Stoi | Samples/Desktop/D3D12HelloWorld/src/HelloConstBuffers/D3D12HelloConstBuffers.cpp:292-294 | `stoi` on a segment of decimal digits. `StoiDecimal` and `StoiEmpty` fix its meaning. |
| ObjText.StoiEmpty | Samples/Desktop/D3D12HelloWorld/src/HelloConstBuffers/D3D12HelloConstBuffers.cpp:292-294 | `stoi` rejects an empty segment. |
| ObjText.StoiDecimal | Samples/Desktop/D3D12HelloWorld/src/HelloConstBuffers/D3D12HelloConstBuffers.cpp:292-294 | `stoi` reads back the decimal digits of every n up to INT_MAX. |
| ObjParsing.Coord | Samples/Desktop/D3D12HelloWorld/src/HelloConstBuffers/D3D12HelloConstBuffers.cpp:259-262 | Coordinate k of a `v`, `vt` or `vn` line is read from word k after the prefix, and is `Unread` when the line has no word k. `WrittenVertexLine`, `ShortVertexLine`, `WrittenTexCoordLine` and `WrittenNormalLine` state this on written lines. |
| ObjParsing.WrittenVertexLine | Samples/Desktop/D3D12HelloWorld/src/HelloConstBuffers/D3D12HelloConstBuffers.cpp:258-264 | The line `v x y z` appends the vertex (x, y, z) and changes nothing else. |
| ObjParsing.ShortVertexLine | Samples/Desktop/D3D12HelloWorld/src/HelloConstBuffers/D3D12HelloConstBuffers.cpp:258-264 | The line `v x` appends a vertex whose y and z are unread. |
| ObjParsing.WrittenTexCoordLine | Samples/Desktop/D3D12HelloWorld/src/HelloConstBuffers/D3D12HelloConstBuffers.cpp:265-270 | The line `vt u v` appends the texture coordinate (u, v) and changes nothing else. |
| ObjParsing.WrittenNormalLine | Samples/Desktop/D3D12HelloWorld/src/HelloConstBuffers/D3D12HelloConstBuffers.cpp:271-277 | The line `vn x y z` appends the normal (x, y, z) and changes nothing else. |
| ObjParsing.Field | Samples/Desktop/D3D12HelloWorld/src/HelloConstBuffers/D3D12HelloConstBuffers.cpp:292-294 | Field k of a bundle: stoi(seglist[k]) - 1, `MissingSegment` or `BadNumber`. Its meaning on written bundles is fixed by `WrittenFields`, `ResolveTwoFields`, `ResolveEmptyField` and `EmptyFaceLine`. |
| ObjParsing.ResolveEmptyField | Samples/Desktop/D3D12HelloWorld/src/HelloConstBuffers/D3D12HelloConstBuffers.cpp:288-294 | A bundle string with an empty vertex field, such as `/2/3`, fails with `BadNumber`: `stoi` throws on the empty segment. |
| ObjParsing.EmptyFaceLine | Samples/Desktop/D3D12HelloWorld/src/HelloConstBuffers/D3D12HelloConstBuffers.cpp:278-294 | The line `f` fails with `MissingSegment`: its bundle string stays empty, which has no segment. |
| ObjParsing.BundleToken | Samples/Desktop/D3D12HelloWorld/src/HelloConstBuffers/D3D12HelloConstBuffers.cpp:280-282 | The bundle string of iteration t, in closed form: word t, else the last word, else "". `StringAfterIsBundleToken` ties it to the loop. |
| ObjParsing.StringAfterIsBundleToken | Samples/Desktop/D3D12HelloWorld/src/HelloConstBuffers/D3D12HelloConstBuffers.cpp:280-282 | `vertBundleString` after iterations 0 .. t equals `BundleToken(args, t)`. That string starts empty, and each `>>` replaces it with the next word or leaves it as it is once the line is exhausted. |
| ObjParsing.ResolveBundle | Samples/Desktop/D3D12HelloWorld/src/HelloConstBuffers/D3D12HelloConstBuffers.cpp:284-302 | A bundle that resolves had at least three '/'-separated segments. Its vertex, texture coordinate and normal are entries of the three lists read so far. `ResolveFields` and `ResolveWrittenBundle` fix which entries. |
| ObjParsing.ReadBundles | Samples/Desktop/D3D12HelloWorld/src/HelloConstBuffers/D3D12HelloConstBuffers.cpp:281-303 | A successful face loop yields 5 - t bundles, and bundle k resolves from the bundle string of iteration t + k. |
| ObjParsing.ReadBundlesError | Samples/Desktop/D3D12HelloWorld/src/HelloConstBuffers/D3D12HelloConstBuffers.cpp:281-303 | The face loop fails exactly when one of its bundle strings fails to resolve. |
| ObjParsing.ParseObj | Samples/Desktop/D3D12HelloWorld/src/HelloConstBuffers/D3D12HelloConstBuffers.cpp:249-308 | The read loop returns the faces of the line-by-line fold from the empty lists, or its first error. |
| ObjParsing.ParseLine | Samples/Desktop/D3D12HelloWorld/src/HelloConstBuffers/D3D12HelloConstBuffers.cpp:250-305 | One iteration of the read loop. Its cases are fixed by `CommentLine`, `UnknownLine`, `VertexLine`, `TexCoordLine`, `NormalLine`, `FaceLine`, `FaceLineError` and `ParseLineExtends`. |
| ObjParsing.ParseLines | Samples/Desktop/D3D12HelloWorld/src/HelloConstBuffers/D3D12HelloConstBuffers.cpp:249-306 | The read loop over lines, stopping at the first error. `ParseLinesAppend`, `ParseLinesExtends` and `ParseLinesFullFaces` state its properties. |
| ObjParsing.CommentLine | Samples/Desktop/D3D12HelloWorld/src/HelloConstBuffers/D3D12HelloConstBuffers.cpp:250-252 | A line starting with '#' changes nothing. |
| ObjParsing.UnknownLine | Samples/Desktop/D3D12HelloWorld/src/HelloConstBuffers/D3D12HelloConstBuffers.cpp:255-258 | A line whose prefix is none of v, vt, vn and f changes nothing. That includes a blank line. |
| ObjParsing.VertexLine | Samples/Desktop/D3D12HelloWorld/src/HelloConstBuffers/D3D12HelloConstBuffers.cpp:258-264 | A `v` line appends one vertex, read from the next three words. The other lists are unchanged. |
| ObjParsing.TexCoordLine | Samples/Desktop/D3D12HelloWorld/src/HelloConstBuffers/D3D12HelloConstBuffers.cpp:265-270 | A `vt` line appends one texture coordinate. The other lists are unchanged. |
| ObjParsing.NormalLine | Samples/Desktop/D3D12HelloWorld/src/HelloConstBuffers/D3D12HelloConstBuffers.cpp:271-277 | A `vn` line appends one normal. The other lists are unchanged. |
| ObjParsing.FaceLine | Samples/Desktop/D3D12HelloWorld/src/HelloConstBuffers/D3D12HelloConstBuffers.cpp:278-305 | A successful `f` line appends one face of exactly five bundles. Bundle k comes from bundle string k, the earlier faces are kept, and the other lists are unchanged. |
| ObjParsing.FaceLineError | Samples/Desktop/D3D12HelloWorld/src/HelloConstBuffers/D3D12HelloConstBuffers.cpp:292-302 | An `f` line fails exactly when one of its five bundle strings fails to resolve. |
| ObjParsing.FaceRepeatsLast | Samples/Desktop/D3D12HelloWorld/src/HelloConstBuffers/D3D12HelloConstBuffers.cpp:281-282 | An `f` line of fewer than five words repeats its last bundle up to five. |
| ObjParsing.ParseLineExtends | Samples/Desktop/D3D12HelloWorld/src/HelloConstBuffers/D3D12HelloConstBuffers.cpp:249-306 | A line only appends: every list before is a prefix of that list after. |
| ObjParsing.ParseLinesExtends | Samples/Desktop/D3D12HelloWorld/src/HelloConstBuffers/D3D12HelloConstBuffers.cpp:249-306 | The read loop never changes or removes an earlier entry. |
| ObjParsing.ParseLinesAppend | Samples/Desktop/D3D12HelloWorld/src/HelloConstBuffers/D3D12HelloConstBuffers.cpp:249-306 | Reading a + b reads a, then reads b from where a stopped. An error in a ends the read. |
| ObjParsing.ParseLineFullFaces | Samples/Desktop/D3D12HelloWorld/src/HelloConstBuffers/D3D12HelloConstBuffers.cpp:278-305 | After any line, every face still has five bundles. |
| ObjParsing.ParseLinesFullFaces | Samples/Desktop/D3D12HelloWorld/src/HelloConstBuffers/D3D12HelloConstBuffers.cpp:279-304 | Every face `parseOBJ` returns has five bundles. |
| ObjParsing.WrittenFields | Samples/Desktop/D3D12HelloWorld/src/HelloConstBuffers/D3D12HelloConstBuffers.cpp:288-294 | Decimal numbers up to INT_MAX joined with '/' split back into one field per number. Field k is n_k - 1. |
| ObjParsing.ResolveFields | Samples/Desktop/D3D12HelloWorld/src/HelloConstBuffers/D3D12HelloConstBuffers.cpp:292-302 | Fields i, j and k that are all in range resolve to vertices[i], texes[j] and normals[k]. Otherwise the result is `IndexOutOfRange`. |
| ObjParsing.ResolveWrittenBundle | Samples/Desktop/D3D12HelloWorld/src/HelloConstBuffers/D3D12HelloConstBuffers.cpp:288-302 | The string a/b/c of 1-based in-range indices resolves to vertices[a-1], texes[b-1] and normals[c-1]. |
| ObjParsing.ResolveZeroIndex | Samples/Desktop/D3D12HelloWorld/src/HelloConstBuffers/D3D12HelloConstBuffers.cpp:292-300 | A vertex index of 0 names no entry. |
| ObjParsing.ResolveTwoFields | Samples/Desktop/D3D12HelloWorld/src/HelloConstBuffers/D3D12HelloConstBuffers.cpp:288-294 | A bundle string of only two fields is `MissingSegment`. |
| ObjParsing.WrittenLine | Samples/Desktop/D3D12HelloWorld/src/HelloConstBuffers/D3D12HelloConstBuffers.cpp:254-256 | A line written as a prefix and words reads back as that prefix and those words. |
| ObjParsing.ReadResolvedBundles | Samples/Desktop/D3D12HelloWorld/src/HelloConstBuffers/D3D12HelloConstBuffers.cpp:281-303 | When all five bundle strings resolve, the face loop yields exactly those bundles, in order. |
| ObjParsing.FaceLineOk | Samples/Desktop/D3D12HelloWorld/src/HelloConstBuffers/D3D12HelloConstBuffers.cpp:278-305 | An `f` line whose face loop yields some bundles appends the face of exactly those bundles. |
| ObjParsing.ParseWrittenFace | Samples/Desktop/D3D12HelloWorld/src/HelloConstBuffers/D3D12HelloConstBuffers.cpp:278-305 | An `f` line written from five in-range index triples appends the face of the indexed entries. |
| ObjBuffers.VertBundleToVert | Samples/Desktop/D3D12HelloWorld/src/HelloConstBuffers/D3D12HelloConstBuffers.cpp:192-211 | The colour of every vertex is all zero. |
| ObjBuffers.VertBundleRoundTrip | Samples/Desktop/D3D12HelloWorld/src/HelloConstBuffers/D3D12HelloConstBuffers.cpp:192-211 | Position, normal and texture coordinate (u to x, v to y) are copied without loss. |
| ObjBuffers.VertBundleInjective | Samples/Desktop/D3D12HelloWorld/src/HelloConstBuffers/D3D12HelloConstBuffers.cpp:192-211 | Distinct bundles give distinct vertices. |
| ObjBuffers.Fan | Samples/Desktop/D3D12HelloWorld/src/HelloConstBuffers/D3D12HelloConstBuffers.cpp:219-223 | The vertices the inner loop pushes for one face. `FanTriangles` states their number and triangles. |
| ObjBuffers.Triangulate | Samples/Desktop/D3D12HelloWorld/src/HelloConstBuffers/D3D12HelloConstBuffers.cpp:216-224 | The vertices the two loops push, face after face. `TriangulateLength`, `TriangulateAppend` and `CollectVertices` state its properties. |
| ObjBuffers.FanTriangles | Samples/Desktop/D3D12HelloWorld/src/HelloConstBuffers/D3D12HelloConstBuffers.cpp:218-222 | A face of n vertices gives 3*max(0, n-2) vertices, and triangle t is (v0, v(t+1), v(t+2)). |
| ObjBuffers.FanPrefixTriangles | Samples/Desktop/D3D12HelloWorld/src/HelloConstBuffers/D3D12HelloConstBuffers.cpp:219-222 | After k - 1 rounds of the inner loop, there are 3(k-1) vertices and triangle t is (v0, v(t+1), v(t+2)). |
| ObjBuffers.FanPrefixStep | Samples/Desktop/D3D12HelloWorld/src/HelloConstBuffers/D3D12HelloConstBuffers.cpp:219-222 | One round of the inner loop pushes the triangle (v0, vj, vj+1). |
| ObjBuffers.DegenerateFace | Samples/Desktop/D3D12HelloWorld/src/HelloConstBuffers/D3D12HelloConstBuffers.cpp:219 | A face of at most two vertices contributes nothing. |
| ObjBuffers.TriangulateLength | Samples/Desktop/D3D12HelloWorld/src/HelloConstBuffers/D3D12HelloConstBuffers.cpp:216-224 | All faces together give 3 * Σ max(0, n-2) vertices. |
| ObjBuffers.TriangulateAppend | Samples/Desktop/D3D12HelloWorld/src/HelloConstBuffers/D3D12HelloConstBuffers.cpp:216-224 | Faces are processed in input order: the vertices of a + b are those of a followed by those of b. |
| ObjBuffers.FullFacesTriangles | Samples/Desktop/D3D12HelloWorld/src/HelloConstBuffers/D3D12HelloConstBuffers.cpp:216-224 | On five-bundle faces, as `parseOBJ` makes them, no face is empty and each gives three triangles: 9 vertices per face. |
| ObjBuffers.CollectVertices | Samples/Desktop/D3D12HelloWorld/src/HelloConstBuffers/D3D12HelloConstBuffers.cpp:214-224 | The nested loops push exactly the fans of the faces, in face order. |
| ObjBuffers.ObjToBuffers | Samples/Desktop/D3D12HelloWorld/src/HelloConstBuffers/D3D12HelloConstBuffers.cpp:213-235 | The vertex buffer holds the fans of the faces in order, and the index buffer is 0 .. N-1. The sizes are N*sizeof(Vertex) and N*sizeof(short). |
| GpuResources.ClearLowByte | Samples/Desktop/D3D12HelloWorld/src/HelloConstBuffers/D3D12HelloConstBuffers.cpp:649 | On a 64-bit size_t, `& ~255` rounds down to a multiple of 256. |
| GpuResources.AlignTo256 | Samples/Desktop/D3D12HelloWorld/src/HelloConstBuffers/D3D12HelloConstBuffers.cpp:649 | `(n + 255) & ~255` is a multiple of 256, at least n and below n + 256. |
| GpuResources.AlignTo256Least | Samples/Desktop/D3D12HelloWorld/src/HelloConstBuffers/D3D12HelloConstBuffers.cpp:649 | It is the least multiple of 256 that is at least n. |
| GpuResources.AlignTo256Aligned | Samples/Desktop/D3D12HelloWorld/src/HelloConstBuffers/D3D12HelloConstBuffers.cpp:649 | A size that is already a multiple of 256 is unchanged. |
| GpuResources.SceneConstantBufferView | Samples/Desktop/D3D12HelloWorld/src/HelloConstBuffers/D3D12HelloConstBuffers.h:50-55 | The 144-byte scene constant buffer gets a 256-byte view. |
| GpuResources.TextureLayout | Samples/Desktop/D3D12HelloWorld/src/HelloConstBuffers/D3D12HelloConstBuffers.cpp:718-719 | Byte i*w*4 + j*4 + c is byte j*4 + c of row i, and row i starts at i*RowPitch. The rows fill SlicePitch bytes. |
| GpuResources.CreateTextureData | Samples/Desktop/D3D12HelloWorld/src/HelloConstBuffers/D3D12HelloConstBuffers.cpp:671-719 | RowPitch = w*sizeof(Color) and SlicePitch = RowPitch*h, the buffer holds SlicePitch bytes, and byte i*RowPitch + j*4 + c is channel c of the colour at column j, row i. |

## Left out

- Direct3D 12 plumbing is not modelled, because it is a fixed sequence of calls into a foreign API: device, swap chain, heaps, root signature, pipeline state, command lists, fences and `OnUpdate`'s matrices. The model keeps only the arithmetic those calls take: the CBV size and the texture pitches.
- Files, the GDI+ bitmap decoder and `getline` over the file are inputs to the model. The bitmap arrives as rows of colours and the OBJ file as a sequence of lines.
- Float parsing is not modelled, because floating point is out of scope. A coordinate keeps the word it would be read from (`Float.Number`). A coordinate with no word left is `Unread`: the C++ leaves the float uninitialised there. A word that holds more than one number, or only a prefix of one, is not split.
- ObjParsing.Coord: a failed float read is not modelled. In the C++, a word that does not start with a number (`v abc 1 2`) or one with trailing characters (`1.0x`) sets the stream's failbit, so the later coordinates of that line stay uninitialised. The model reads them from the next words instead.
- ObjText.Stoi: only a segment made entirely of decimal digits, up to INT_MAX, is read. A sign, leading whitespace or trailing non-digits, which `stoi` would accept, count as `BadNumber`.
- ObjParsing.ResolveBundle: an out-of-range index is undefined behaviour in the C++ (an unchecked vector index). The model returns `IndexOutOfRange` instead and does not represent the undefined read.
- ObjToBuffers: requires every face to be non-empty and at most 32768 vertices in all. With an empty face, the unsigned `size() - 1` runs the inner loop out of range. Past 32768 vertices, the `short` counter wraps and the copy stops early. A mesh from `parseOBJ` always meets the first condition (`FullFacesTriangles`).
- Bitmaps.PackRgba: the `int` products h*w*4 and i*w*4 + j*4 are unbounded in the model, so 32-bit overflow on huge bitmaps is not modelled. The buffer is zero-initialised where `new BYTE[]` leaves it uninitialised, but every byte is overwritten, so the result is the same.
- ImageLoading.ImageLoader.GenerateMipMap and GetMipMap: both require `level >= 0`. The signed/unsigned comparison gives no meaning to negative levels.
- The `MipMap::next` buffer is likewise zero-initialised, and the filter loop overwrites every byte of it.
- Memory ownership is not modelled, because nothing is freed and there is nothing to verify. The `new[]` buffers are never freed, and copies of `MipMap` share their `bytes` pointer; this is modelled by the `MipMap` datatype holding a reference to the array.
- GpuResources.AlignTo256: works on unbounded non-negative integers below 2^64, and requires that n + 255 does not wrap around. It uses the rounding that `ClearLowByte` proves the mask performs on `bv64`. The truncation of the `size_t` result to the `UINT` field is not modelled; for the scene constant buffer the value is 256.
- The `ImageLoader` file name member is not modelled, and neither is the `MipMap` constructor's storing of its arguments (beyond the datatype constructor). Neither has logic of its own.
