# tiny-renderer in Dafny

A verified model of the core of a small TypeScript software renderer. It has two parts.

- **Truevision TGA decoder** (`src/tga-image.ts`). It reads the 18-byte little-endian header and checks its field combinations. It skips the image id and slices off the colour map. It run-length decodes the payload of types 9, 10 and 11. It expands 8, 16, 24 and 32-bit pixels into a top-left-origin RGBA buffer, which `getImageData` builds on its first call and then keeps.
- **Rasteriser** (`src/tiny-renderer.ts`, `src/triangle.ts`, `src/image.ts`). It holds an RGBA byte surface and a depth buffer. On these it provides `setPixel` / `getPixel`, Bresenham's line with its integer error term, and a bounding-box triangle fill with a barycentric inside test and a strict depth test.

It also covers the vector algebra both parts use: `src/linear-algebra.ts` on values, and the in-place `Vector` classes of `src/vector.ts`.

Files and modules:

| file | module | what it holds |
|---|---|---|
| `wrappers.dfy` | `Wrappers` | `Option`, `Result`, `Outcome` |
| `bytes.dfy` | `Bytes` | bytes as `bv8`, the little-endian word `lo \| (hi << 8)` |
| `linear_algebra.dfy` | `LinearAlgebra` | `add` … `transform` as functions on `seq<real>`, and their algebra |
| `vectors.dfy` | `Vectors` | the `Vector` class, whose methods update its components in place |
| `image.dfy` | `Image` | `Math.trunc`, the cell index, `getPixel`, the four-byte pixel write |
| `triangle.dfy` | `Triangle` | `barycentric`, `isInside`, the vertex sort of `sweepLine` |
| `tiny_renderer.dfy` | `TinyRenderer` | the `Renderer` class with `setPixel`, `drawLine`, `drawTriangle` |
| `tga.dfy` | `Tga` | the header, the layout, the RLE decoder, pixel expansion, the `TgaImage` class |

How the model is built:

- **Each imperative loop is a method over an `array`, proved against a function.**
  - `#decodeRle` is proved against `RleDecode`.
  - `#parseRawImageData` is proved against `Decodes`, cell by cell.
  - `drawLine` is proved against `Paint` of `LinePixels`.
  - `drawTriangle` is proved against `FillBox`.
- **The properties are lemmas about those functions.**
- **Typed-array behaviour is modelled explicitly, never assumed away.**
  - A read outside a `Uint8Array` gives `undefined`, which the stores and bit operators turn into 0 (`Tga.At`).
  - `subarray` clamps to the buffer (`Tga.Slice`).
  - A store outside the array is dropped (`Image.WritePixel`, `Tga.CopyRaw`).
- **So a short or malformed file decodes the way the code decodes it.**
  - The code does not check for a short colour map, a short payload, or an RLE stream that decodes to the wrong length.
  - A pixel read past the end of the payload is `undefined`. In the 8-bit indexed case the colour-map index is then NaN, so the pixel comes out opaque black.
  - The model follows the code. The only failures are those the code actually raises:
    - the thrown `Error`s;
    - the `RangeError` of `output.set` when a run packet overflows the output (`RleOverrun`);
    - the null colour map dereferenced for an 8-bit non-grey image without one (`NoColorMap`).
- **The 16-bit colour case keeps the literal masks `0x7c00 >> 7`, `0x03e0 >> 2` and `0x001f >> 3`.**
  - `Tga.SixteenBitColor` states what they select.
  - Red and green are both bits 3–7 of the low byte; blue is bits 0–1 of the low byte.

## Model

| member | source | states |
|---|---|---|
| Bytes.Word | src/tga-image.ts:333-335 | the word `lo \| (hi << 8)` has `lo` as its low byte and `hi` as its high byte |
| Bytes.Uint16 | src/tga-image.ts:120-126 | a header word read from two bytes is the number `lo + 256 * hi`, in 0..65535 |
| Bytes.Uint16Bytes | src/tga-image.ts:120-126 | the low and high byte of the word read from `lo, hi` are `lo` and `hi` again |
| Tga.ReadHeader | src/tga-image.ts:116-129 | every field read fits its width: one-byte fields are below 2^8, words below 2^16 |
| Tga.HeaderOfBytes | src/tga-image.ts:116-129 | writing the fields of the header read back into their positions gives the first 18 bytes: each byte lands unchanged in exactly one field |
| Tga.CheckHeader | src/tga-image.ts:201-242 | passes exactly the supported headers. The checks run in the source's order, so type 0 reports "no image data" whatever else is wrong. Next comes a bad colour map for types 1 and 9 (flag ≠ 1, length > 256 or entry size ≠ 24), or a colour-map flag ≠ 0 for the other types. A zero width or height is reported next, once the colour-map checks pass. An unsupported pixel depth is reported last, with that depth, exactly when all earlier checks pass |
| Tga.Slice | src/tga-image.ts:164-167 | `subarray` inside the buffer is exactly the bytes in `[begin, end)`; past its end the slice is shorter, never longer |
| Tga.At | src/tga-image.ts:269 | a read inside the buffer gives the byte stored there |
| Tga.Read | src/tga-image.ts:268-270 | reading `n` bytes from an offset gives `n` bytes |
| Tga.RunLength | src/tga-image.ts:259 | `(flag & 0x7F) + 1` counts 1 to 128 pixels |
| Tga.Repeat | src/tga-image.ts:274-277 | a pixel repeated `n` times is `n` pixels long |
| Tga.RleDecode | src/tga-image.ts:250-290 | decoding with `room` output bytes yields exactly `room` bytes; the only failure is a run packet that overflows the output |
| Tga.DecodeRle | src/tga-image.ts:244-290 | the packet loop over the output array returns exactly what `RleDecode` specifies, error included |
| Tga.DecodePacket | src/tga-image.ts:254-286 | one round of the loop moves `position` forward and keeps "bytes written so far + decoding of the rest" unchanged; a run packet that does not fit is the overrun error |
| Tga.DecodeRunPacket | src/tga-image.ts:264-277 | a run packet that fits moves `position` forward and keeps "bytes written so far + decoding of the rest" unchanged; one that does not fit is exactly the case where the decoding is the overrun error |
| Tga.DecodeCopyPacket | src/tga-image.ts:278-286 | a raw packet never fails, even when it runs past the end of the output: `position` moves forward and "bytes written so far + decoding of the rest" is unchanged |
| Tga.ReadPixel | src/tga-image.ts:265-270 | the new pixel array holds the `pixelSize` bytes after the packet header |
| Tga.CopyRun | src/tga-image.ts:273-277 | the copies fit exactly when `position + count * pixelSize` is within the output; then the output is the old prefix followed by the pixel `count` times |
| Tga.CopyRaw | src/tga-image.ts:281-285 | the output up to `min(position + count, length)` is the old prefix followed by the copied bytes, and the stores past the end are dropped |
| Tga.PacketFlag | src/tga-image.ts:259-264 | the header byte of a packet of `count` pixels, with or without bit 7, decodes back to that count and that kind |
| Tga.DecodeEncodedAt | src/tga-image.ts:253-287 | well-formed packets found at any offset of the input decode to the bytes they stand for |
| Tga.DecodeEncoded | src/tga-image.ts:244-290 | round trip: decoding the run-length encoding of any well-formed packets gives back their bytes |
| Tga.ParseOutcome | src/tga-image.ts:110-168 | construction fails with "not enough header" below 18 bytes, with `#checkHeader`'s error for an unsupported header, and with "not enough image data" when `18 + idLength` exceeds the buffer. Otherwise it succeeds: always for raw types, and exactly when the packets decode for RLE types |
| Tga.ParseAfterOutcome | src/tga-image.ts:132-168 | the same outcomes, for a header already read |
| Tga.ParseLayout | src/tga-image.ts:134-168 | a constructed image keeps the header read from the first 18 bytes, and it is supported. A colour map is present exactly for types 1 and 9: the `colorMapLength * (entrySize >> 3)` bytes after the id. An RLE payload is the run-length decoding of the bytes from `18 + idLength + colour-map size`, `width * height * pixelSize` bytes long. A raw payload is the slice after the colour map of `width * height` bytes (indexed) or `width * height * pixelSize` bytes |
| Tga.ParseAfterLayout | src/tga-image.ts:142-168 | the same layout, for a header already read, including the RLE payload as the decoding of the bytes after the colour map |
| Tga.PixelSizeOfSupported | src/tga-image.ts:150 | `pixelDepth >> 3` of a supported header is 1 to 4 bytes, so every RLE packet makes progress |
| Tga.Sizes | src/tga-image.ts:144-152 | the colour-map size, pixel size, pixel count and byte counts are never negative |
| Tga.TgaImage.constructor | src/tga-image.ts:99-108 | the image keeps the header, colour map and payload given, and has no RGBA buffer yet |
| Tga.TgaImage.Create | src/tga-image.ts:110-169 | the constructor succeeds exactly when `Parse` does, fails with `Parse`'s error, and keeps what `Parse` computes, with no RGBA buffer yet |
| Tga.TgaImage.CreateAfter | src/tga-image.ts:130-168 | the same, for a header already read, checking the id, colour map and payload in the source's order |
| Tga.TgaImage.GetImageData | src/tga-image.ts:189-199 | the first successful call builds a fresh buffer holding the decoded image and keeps it; later calls return that same buffer; it fails (null colour map) only when no buffer exists and an 8-bit colour image has no colour map |
| Tga.TgaImage.ParseRawImageData | src/tga-image.ts:292-365 | the fresh buffer has `width * height * 4` bytes, and each cell holds the colour of the stored pixel shown there |
| Tga.TgaImage.ParseRow | src/tga-image.ts:310-361 | the inner loop fills the cells of one more row and moves the data index forward by `width` pixel sizes |
| Tga.TgaImage.StoreColor | src/tga-image.ts:357-360 | the four stores at `(x + width * y) * 4` fill the cell of stored pixel `k` and disturb no other cell |
| Tga.TgaImage.NewBuffer | src/tga-image.ts:294 | the new zeroed buffer has four bytes per pixel and no pixel filled |
| Tga.TgaImage.StoreOffset | src/tga-image.ts:357-360 | `(x + width * y) * 4` is the first byte of cell `(x, y)`, and all four bytes lie inside the buffer |
| Tga.TgaImage.LoopCell | src/tga-image.ts:296-310 | the loop's `(x, y)` in its `row`-th row and `column`-th column shows stored pixel `row * width + column` |
| Tga.TgaImage.StoredAt | src/tga-image.ts:306-310 | the data index `n * (pixelDepth >> 3)` is where stored pixel `n` starts |
| Tga.SixteenBitColor | src/tga-image.ts:328-340 | with the literal masks, a 16-bit colour pixel has red = green = low byte & 0xF8, blue = low byte & 0x03, and alpha 0 exactly when bit 15 is set, else 255 |
| Tga.WordMasks | src/tga-image.ts:336-339 | the masks of the 16-bit case on the word select bits of the low byte only, and `& 0x8000` tests bit 7 of the high byte |
| Tga.ExpandStored | src/tga-image.ts:315-355 | channel rules: a stored 24-bit (B, G, R), 32-bit (B, G, R, A), 8-bit grey or 16-bit grey (level, alpha) pixel expands back to its colour, opaque where the format has no alpha |
| Tga.PaletteEntry | src/tga-image.ts:320-325 | entry `index` of a stored colour map reads back as that colour, made opaque; an index past the map reads opaque black |
| Tga.IndexedPixel | src/tga-image.ts:316-326 | an 8-bit indexed pixel is the colour-map entry its payload byte selects, made opaque. An index past the map gives opaque black, and so does a pixel past the end of the payload |
| Tga.SourceIndex | src/tga-image.ts:296-310 | the stored pixel shown at any cell is one of the `width * height` stored pixels |
| Tga.SourceIndexInjective | src/tga-image.ts:296-310 | two different cells show two different stored pixels |
| Tga.SourcePixelShown | src/tga-image.ts:296-310 | every stored pixel is shown at some cell; together with injectivity, each cell is written exactly once |
| Tga.OriginCorners | src/tga-image.ts:296-304 | descriptor bits 5 and 4 choose the origin: bottom-left stores the bottom row first, top-left stores in buffer order, and the two right origins store the right-hand corner first |
| Tga.FilledStep | src/tga-image.ts:357-360 | writing the next stored pixel into its cell extends the filled part by one pixel |
| Tga.FilledAll | src/tga-image.ts:309-362 | once all `width * height` stored pixels are written, the buffer is the decoded image |
| Tga.DecodesUnique | src/tga-image.ts:292-365 | the decoded image determines the RGBA buffer: two buffers that both decode the same pixels are equal |
| Tga.GetPixelOfDecoded | src/image.ts:8-18 | `getPixel` on the decoded buffer at `(x, y)` is inside the buffer and reads the colour of the stored pixel shown there |
| Image.Trunc | src/image.ts:9-10 | `Math.trunc` rounds toward zero: the integer part of a non-negative number, and minus that of a negative one |
| Image.GetAfterWrite | src/image.ts:8-18 | `getPixel` after the four-byte write of `setPixel` at the same point returns the colour written |
| Image.GetAfterWriteElsewhere | src/tiny-renderer.ts:40-47 | writing a pixel leaves the pixel of every other cell of the row width as it was |
| Image.CellInjective | src/tiny-renderer.ts:43 | two different cells of a surface have different indices `y * width + x` |
| LinearAlgebra.Add | src/linear-algebra.ts:17-19 | element-wise sum, of the input's length |
| LinearAlgebra.Subtract | src/linear-algebra.ts:21-23 | element-wise difference, of the input's length |
| LinearAlgebra.Scale | src/linear-algebra.ts:25-27 | every component multiplied by `n`, of the input's length |
| LinearAlgebra.Multiply | src/linear-algebra.ts:45-50 | fails with a length mismatch exactly when `v.length ≠ m[0].length`, and with no rows for an empty matrix; otherwise one entry per row, entry `i` being `dot(m[i], v)`, which reduces over the row, so a row shorter than `v` reads only the first `m[i].length` components of `v` |
| LinearAlgebra.Transform | src/linear-algebra.ts:52-60 | a vector one shorter than the width is homogenised, multiplied and divided by its last coordinate, keeping `v.length` entries, each row dotted over its own length; any other vector is exactly `multiply`, failures included |
| LinearAlgebra.TransformHomogeneous | src/linear-algebra.ts:53-56 | the homogeneous branch keeps `min(v.length, rows)` entries, each of which times the last entry of `multiply(m, [...v, 1])` gives back the corresponding entry of that product |
| LinearAlgebra.DotPrefix | src/linear-algebra.ts:33-35 | `dot(v, w)` reads only the first `v.length` components of `w`: cutting `w` down to any length from `v.length` up leaves it unchanged |
| LinearAlgebra.SubtractUndoesAdd | src/linear-algebra.ts:17-23 | subtracting `w` undoes adding `w` |
| LinearAlgebra.DotSymmetric | src/linear-algebra.ts:33-35 | `dot(v, w) = dot(w, v)` |
| LinearAlgebra.DotAddLeft | src/linear-algebra.ts:33-35 | `dot` distributes over `add` |
| LinearAlgebra.DotScaleLeft | src/linear-algebra.ts:33-35 | scaling a vector by `a` scales its dot product by `a` |
| LinearAlgebra.DotSelfZero | src/linear-algebra.ts:29-35 | the sum of squares is non-negative, and zero exactly when every component is zero |
| LinearAlgebra.Dot3 | src/linear-algebra.ts:33-35 | the dot product of two 3-vectors is the sum of the three pairwise products |
| LinearAlgebra.CrossOrthogonal | src/linear-algebra.ts:37-43 | `cross(v, w)` is orthogonal to `v` and to `w` |
| LinearAlgebra.CrossTriples | src/linear-algebra.ts:37-43 | both triple products with `cross(v, w)` vanish, written out component by component |
| LinearAlgebra.CrossSelfZero | src/linear-algebra.ts:37-43 | the cross product of a vector with itself is zero |
| LinearAlgebra.IdentityMultiply | src/linear-algebra.ts:45-50 | multiplying by the identity matrix returns the vector |
| LinearAlgebra.TransformIdentity | src/linear-algebra.ts:52-56 | a homogeneous transform by the identity has a non-zero divisor and returns the vector unchanged |
| Vectors.Vector.New | src/vector.ts:4-10 | construction fails exactly with fewer than two arguments; otherwise a fresh vector of dimension 2, 3 or 4 whose missing components are 0 |
| Vectors.Vector.Clone | src/vector.ts:124-126 | a fresh vector, distinct from the receiver, with equal components |
| Vectors.Vector.Add | src/vector.ts:58-63 | the receiver becomes the element-wise sum of its old components and the argument's old components (even when the argument is the receiver) and is returned; the vector keeps its two to four components |
| Vectors.Vector.Substract | src/vector.ts:65-70 | the receiver becomes the element-wise difference, also when the argument is the receiver, and is returned; the vector keeps its two to four components |
| Vectors.Vector.Scale | src/vector.ts:72-77 | the receiver becomes its old components times `n` and is returned; the vector keeps its two to four components |
| Vectors.Vector.Dot | src/vector.ts:87-89 | the reduction over the components is the dot product of the two vectors, and it modifies neither |
| Vectors.Vector.Normalize | src/vector.ts:79-85 | fails exactly when every component is zero, leaving the vector alone; otherwise the receiver is divided by its length and has length one; the vector keeps its two to four components |
| Vectors.Vector.Cross | src/vector.ts:128-135 | the first three components become the cross product of the old receiver and `v`, read before any write; a fourth component stays; the vector keeps its two to four components |
| Vectors.AddThenSubstract | src/vector.ts:58-70 | adding then subtracting another vector restores the receiver |
| Vectors.CrossWithItself | src/vector.ts:128-135 | `v.cross(v)` zeroes the first three components and keeps the rest |
| Triangle.Barycentric | src/triangle.ts:47-65 | collinear vertices give the sentinel `[-1, 1, 1]`; the three weights always sum to one |
| Triangle.ThirdIsArea | src/triangle.ts:54-57 | the third homogeneous coordinate is twice the signed area of the triangle, whatever the point, so the sentinel depends on the vertices only |
| Triangle.BarycentricReconstructs | src/triangle.ts:47-65 | for non-collinear vertices the weights combine the vertices into the query point |
| Triangle.InsideIsConvexCombination | src/triangle.ts:68-71 | a point is inside only for non-collinear vertices, and then it is a convex combination of them |
| Triangle.SortByY | src/triangle.ts:11-19 | the three compare-and-swaps order the vertices by `y` and permute them |
| TinyRenderer.OrientSpec | src/tiny-renderer.ts:57-66 | after the steep swap and the reordering, `x0 <= x1` and `\|dy\| <= dx = max(\|Δx\|, \|Δy\|)`; the line is steep exactly when `\|Δy\| > \|Δx\|`; the endpoints transpose back to the original ones |
| TinyRenderer.Walk | src/tiny-renderer.ts:78-89 | the loop plots `x1 - x + 1` points, the first being its start |
| TinyRenderer.WalkColumns | src/tiny-renderer.ts:78 | the `i`-th plotted point is in dominant column `x + i`: one pixel per column |
| TinyRenderer.LinePixels | src/tiny-renderer.ts:52-90 | a line plots `max(\|Δx\|, \|Δy\|) + 1` pixels |
| TinyRenderer.WalkBalance | src/tiny-renderer.ts:73-88 | the error term balances the two axes: over the rest of the walk, `carry + 2\|dy\|·(columns) − 2dx·(minor steps)` stays within `[−dx, dx]` |
| TinyRenderer.WalkSteps | src/tiny-renderer.ts:82-88 | between consecutive points the dominant coordinate moves by one and the minor one stays or moves one step toward the sign of `dy` |
| TinyRenderer.WalkMonotone | src/tiny-renderer.ts:82-88 | the minor coordinate moves only in the direction of `dy` and never beyond the last point |
| TinyRenderer.WalkEnds | src/tiny-renderer.ts:78-89 | the walk of the reordered line starts at its start point and ends exactly at its end point |
| TinyRenderer.LineEnds | src/tiny-renderer.ts:52-89 | the first and last pixel of a line are its two endpoints, transposed back when steep |
| TinyRenderer.LineConnected | src/tiny-renderer.ts:78-89 | consecutive pixels of a line are distinct neighbours |
| TinyRenderer.WalkInRect | src/tiny-renderer.ts:78-89 | every point of the walk lies in the rectangle spanned by the reordered endpoints |
| TinyRenderer.LineInBox | src/tiny-renderer.ts:52-89 | every pixel of a line lies in the rectangle spanned by its endpoints |
| TinyRenderer.PaintEffect | src/tiny-renderer.ts:40-47 | after plotting a list of points, a cell holds the colour if it is among them, and is unchanged otherwise |
| TinyRenderer.LineEffect | src/tiny-renderer.ts:52-90 | after `drawLine` inside the surface, a cell holds the colour exactly when it is one of the line's pixels, and is unchanged otherwise |
| TinyRenderer.BoundingBox | src/tiny-renderer.ts:96-99 | the truncated bounding box is never empty |
| TinyRenderer.Min3 | src/tiny-renderer.ts:96 | `Math.min` of three numbers is one of them and below all three |
| TinyRenderer.Max3 | src/tiny-renderer.ts:97 | `Math.max` of three numbers is one of them and above all three |
| TinyRenderer.TruncMonotone | src/tiny-renderer.ts:96-99 | truncation keeps the order of the minimum and the maximum |
| TinyRenderer.ShadeAt | src/tiny-renderer.ts:103-113 | the loop body changes only cell `(x, y)`, and that one only when the weights are non-negative and the depth is strictly above: then it sets the new depth and the colour |
| TinyRenderer.FillColumnAt | src/tiny-renderer.ts:102-114 | the inner loop applies the test once to each cell of its column and leaves every other cell alone |
| TinyRenderer.FillBoxAt | src/tiny-renderer.ts:101-115 | the scan applies the test once to each cell of the bounding box and leaves every cell outside it alone, whatever the scan order |
| TinyRenderer.DrawTwiceSameAsOnce | src/tiny-renderer.ts:105-112 | drawing the same triangle a second time changes nothing, the depth test being strict |
| TinyRenderer.DegenerateDrawsNothing | src/tiny-renderer.ts:103-113 | a triangle with collinear vertices changes nothing |
| TinyRenderer.DrawRaisesDepth | src/tiny-renderer.ts:105-112 | no depth decreases, and a cell changes only inside the box, when it passes the inside and depth tests, and then it takes the colour |
| TinyRenderer.Renderer.constructor | src/tiny-renderer.ts:20-29 | every pixel is opaque black and all `width * height` depths are `-Infinity` |
| TinyRenderer.Renderer.FillBlack | src/tiny-renderer.ts:21-26 | the fill loop makes every fourth byte 255 and every other byte 0 |
| TinyRenderer.Renderer.SetPixel | src/tiny-renderer.ts:40-47 | the surface becomes the four-byte write of the colour at `(trunc(y) * width + trunc(x)) * 4`, with no other byte changed |
| TinyRenderer.Renderer.DrawLine | src/tiny-renderer.ts:52-90 | the surface becomes the old one with `LinePixels` plotted in order |
| TinyRenderer.Renderer.PlotLoop | src/tiny-renderer.ts:73-89 | the loop plots the walk of the reordered line, transposed back when steep; its error term stays within `[-dx, dx]` at every round |
| TinyRenderer.Renderer.PlotStep | src/tiny-renderer.ts:78-88 | one round plots the current point, transposed back when steep, and steps `y` toward `dy` exactly when the error term passes `dx`; the error term stays within `[-dx, dx]` |
| TinyRenderer.CarryBounded | src/tiny-renderer.ts:80-87 | once `\|dy\| <= dx`, one round of the error term keeps a carry in `[-dx, dx]` within `[-dx, dx]` |
| TinyRenderer.Renderer.DrawTriangle | src/tiny-renderer.ts:92-116 | the surface and depth buffer become `FillBox` of the old ones over the truncated bounding box |
| TinyRenderer.Renderer.ShadeColumn | src/tiny-renderer.ts:102-114 | the inner loop shades the cells of column `x` from `ymin` to `ymax`, in turn |
| TinyRenderer.Renderer.ShadeCell | src/tiny-renderer.ts:103-113 | the loop body is the inside test and the strict depth test on one cell, updating the depth and the pixel together |
| TinyRenderer.SetThenGet | src/image.ts:8-18 | `getPixel` right after `setPixel` at the same point returns the colour set |

## Left out

- `TgaImage.open` (fetch) and the `console.log` of the header: network and logging I/O.
- The browser canvas: the renderer's constructor creates its buffers directly, and `render` is not modelled.
- `src/model.ts`, `src/matrix.ts`, `demo/main.js` and `rollup.config.js` are not part of this model.
- The interpolation loop of `sweepLine`. It uses real division (NaN on flat triangles) and a caller-supplied callback. Only its vertex sort is modelled.
- The `Vector` accessors (`0`, `1`, `x`, `y`, … and the iterator) are not modelled as members: the model reads and writes the component sequence `elems` directly.
- `Vector.size` (`Math.hypot`) and the `normalize` of `src/linear-algebra.ts` (`Math.sqrt`) are left out: the model has no square root.
- Vectors.Vector.Normalize: takes the length `Math.hypot` would return as a parameter, constrained by `size * size == dot(v, v)`.
- Numbers are exact integers and reals. IEEE-754 rounding, NaN and Infinity are not modelled.
- LinearAlgebra.Multiply: requires that no row be longer than `v` once the width check passes. A longer row reads components of `v` that are `undefined` and gives a NaN entry, which exact reals cannot represent. Shorter rows are modelled.
- LinearAlgebra.Transform: requires a non-zero homogeneous divisor, where the source would produce non-finite components. Like `LinearAlgebra.Multiply`, it also requires that no row be longer than the vector it multiplies (`v` with 1 appended, in the homogeneous case), since a longer row gives NaN.
- Vectors.Vector.New: stores a missing argument as 0. Other falsy arguments (`NaN`) do not exist among exact reals.
- TinyRenderer.Renderer.DrawLine: takes integer endpoints. The source accepts any numbers and truncates only when it writes a pixel.
- TinyRenderer.Renderer.DrawTriangle: requires the bounding box to lie inside the surface. The source does not check this. Outside the surface its depth-buffer index `y * width + x` either reads `undefined` or lands on a cell of a neighbouring row.
- TinyRenderer.Renderer.SetPixel: colour channels are bytes. The clamping and rounding of `Uint8ClampedArray` for other numbers is not modelled.
- Tga.HeaderOfBytes: states the bytes → header → bytes direction only. The other direction (header → bytes → header, for fields in range) is not stated.
- The header fields `colorMapStart`, `xOrigin` and `yOrigin` are read but used nowhere. They appear in the header only.
- The `header === undefined` check of `#checkHeader` cannot fail once the constructor has read the header, so it is not modelled.
- The `default` of the pixel-depth switch cannot be reached after `#checkHeader`; the model gives a blank pixel there.
- The `subarray(0)` view returned by `getImageData` is the kept buffer itself. `GetImageData` returns that same array, so writes through it show up in later calls. Views of other byte ranges are not modelled.
