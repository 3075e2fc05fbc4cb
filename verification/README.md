# FSOF loader: a Dafny model of the file reader and the DXT5 decoder

This project models three parts of `FSOFLoader.js`, the loader for FSOF
surface files.

- `FSOF.prototype.read` parses a buffer:
  - a 9-byte container header: 4 ignored bytes, the int32 `version` and the compression flag;
  - a body, taken from the buffer itself, or from what the gunzip collaborator
    returns for everything after the header;
  - in the body: five int32 fields, the night flag, two length-prefixed
    texture blobs, an optional night section (two more blobs and a light colour
    printed as `"#"` + hexadecimal), and the floor and wall geometries that `readVerts` reads.
- The vertex loop of `toGeometry` fixes up normals. A vertex whose first normal
  component is NaN gets the normal (0, 1, 0). The loop then flattens
  positions, texture coordinates and normals into three buffers.
- `colLerp` and `DXT5Decompress` turn a DXT5 texture blob into bytes.

The reader is modelled with JavaScript's semantics for every edge case:
- `DataView` reads outside the buffer fail. They are `OutOfBounds`.
- `ArrayBuffer.slice` clamps to the buffer, counts negative arguments from the
  end, and gives an empty slice for a reversed range. So a blob whose declared
  size runs past the end is cut short, and no error is raised.
- The cursor still advances by the declared size.
- `new Uint32Array` of a slice whose length is not a multiple of 4 throws. This
  is `MisalignedIndexTable`.
- A failure of the gunzip collaborator is `InflateFailed`.
- Floats are kept as their raw 32-bit patterns.

The decoder is modelled with JavaScript's int32 operators:
- `>>` rounds toward negative infinity.
- `&` keeps the low bits of the two's-complement pattern.
- A read past the end of the data is `undefined`, and the operators treat it as 0.
- The endpoint unpack is modelled literally. Red is `(c >> 11) & 31`. Green is
  `(c >> 6) & 31`, which drops bit 5 of the 6-bit field. Blue is `c & 31`.
- The unpacked channels are not rescaled to 0..255.
- `Math.round(x / d)` on the exact blends is `(2x + d) / (2d)`.

Two JavaScript behaviours matter for what the decoder returns:
- **The result is a JavaScript array.** A store past its end leaves holes. The
  final `new Uint8Array([].concat.apply([], result))` spreads each stored array
  into four bytes, turns each hole into one 0 byte, and reduces values modulo 256.
- **Stored arrays are not copied.** A pixel with colour code 0 or 1 stores the
  block's own `maxCol` or `minCol` array. Every later such pixel overwrites that
  array's alpha, so those pixels show the alpha of the last pixel of the block
  with the same code.

How the decoder is modelled:
- The imperative decoder (`Dxt5Image.Decompress` and its loop methods) keeps
  those arrays by reference, as `Cell`s pointing into a heap of per-block endpoint pairs.
- It is proved equal to a declarative reference image.
- For dimensions that are positive multiples of 4, the reference image is the
  ordinary row-major picture. Module `Dxt5Layout` proves this.

Some of the code's behaviour differs from what the file format's description
suggests. The model follows the code:
- Truncated blobs and index tables are clamped rather than rejected.
- Width and height need not be multiples of 4. Other values give an image with
  holes or with no blocks.
- DXT5 data that ends early decodes as zeros.
- A buffer shorter than the header fails with `OutOfBounds`.
- Line 230 of the source, `var alpha2 |= data[blockI-1] >> 6;`, is not valid
  JavaScript. As a modelling decision it is read as `var alpha2 = data[blockI-1] >> 6;`,
  so that `alpha2` starts afresh in every block. Nothing in the source fixes this reading.

Modules, one per file:
- `Wrappers`: `Option`, `Result`.
- `ByteView`: bytes, int32/uint32 views, `DataView` reads, `slice`.
- `HexFormat`: `toString(16)`.
- `FsofReader`: `read`.
- `FsofProperties`: what `read` promises.
- `FsofLayout`: an encoder and the round trip.
- `SurfaceGeometry`: the normal fix-up and the attribute buffers.
- `Arith`: powers of two and division facts.
- `Dxt5Block`: one block.
- `Dxt5Image`: the whole decoder.
- `Dxt5Layout`: aligned images.

## Model

| member | source | states |
|---|---|---|
| ByteView.ReadU8 | FSOFLoader.js:44 | `getUint8` succeeds exactly when the offset is inside the buffer, and then gives that byte |
| ByteView.ReadU32 | FSOFLoader.js:82 | `getUint32(o, true)` succeeds exactly when four bytes from `o` are in the buffer, and gives their little-endian word |
| ByteView.ReadI32 | FSOFLoader.js:43 | `getInt32(o, true)` succeeds exactly when four bytes from `o` are in the buffer, and gives the two's-complement reading of their word |
| ByteView.JsSlice | FSOFLoader.js:64 | `slice` never yields more bytes than the buffer holds |
| ByteView.JsSliceForward | FSOFLoader.js:64 | with non-negative arguments in order, `slice` is the subsequence between them cut at the buffer end |
| ByteView.JsSliceFromEnd | FSOFLoader.js:64 | a start in `-|buf|..-1` counts back from the end: with a non-negative end the slice runs from `|buf| + start` to the clamped end, or is empty when that is not after it |
| ByteView.JsSliceEndFromEnd | FSOFLoader.js:64 | an end in `-|buf|..-1` counts back from the end: with a non-negative start the slice runs from the clamped start to `|buf| + end`, or is empty |
| ByteView.JsSliceBeforeStart | FSOFLoader.js:64 | a start below `-|buf|` clamps to offset 0 |
| HexFormat.Hex | FSOFLoader.js:82 | `toString(16)` of the light colour: lower-case hex digits, no leading zero, "0" for zero |
| HexFormat.HexRoundTrip | FSOFLoader.js:82 | reading the printed digits back gives the colour word: the text loses nothing |
| HexFormat.HexInjective | FSOFLoader.js:82 | different colour words print differently |
| FsofReader.ReadBlob | FSOFLoader.js:62-69 | a length-prefixed blob reads exactly when its int32 size is in the buffer, and the cursor moves by `4 + size` even when the slice is clamped |
| FsofReader.BlobValue | FSOFLoader.js:64 | a non-negative size gives the bytes after the prefix up to the size or the buffer end; a negative size whose end precedes the start gives an empty blob |
| FsofReader.ReadVertex | FSOFLoader.js:94-108 | the eight `getFloat32` reads of a vertex succeed exactly when its 32-byte record is in the buffer, and give position, texture coordinates and normal from offsets 0-8, 12-16 and 20-28 |
| FsofReader.ReadVertices | FSOFLoader.js:89-111 | the vertex loop reads `max(count, 0)` vertices, succeeds exactly when a non-positive count or all `32 * count` bytes are present, and keeps file order |
| FsofReader.RecordAt | FSOFLoader.js:92-110 | vertex `i` comes from the record at `off + 32 * i` |
| FsofReader.ReadIndices | FSOFLoader.js:113-116 | a zero index count gives an empty table; a table wholly in the buffer gives `count` words, word `j` from bytes `4j` to `4j + 3` |
| FsofReader.IndicesClamp | FSOFLoader.js:115 | a table cut short by the buffer end reads exactly when the remaining bytes are a multiple of 4, and then holds those whole words |
| FsofReader.ReadGeometry | FSOFLoader.js:86-118 | `readVerts` consumes the vertex count, `32` bytes per vertex, the index count and `4` bytes per declared index; a zero index count gives no indices |
| FsofReader.NightShape | FSOFLoader.js:71-84 | a night section that reads spans a floor blob, a wall blob and a 4-byte colour, and its light colour text denotes the colour word |
| FsofReader.ColourTextOf | FSOFLoader.js:82 | `"#" + toString(16)` of a word is text that denotes that word |
| FsofReader.ReadOptionalNight | FSOFLoader.js:71-84 | the night section is read only when the flag is non-zero; a zero flag reads nothing and leaves the cursor |
| FsofReader.ReadBody | FSOFLoader.js:55-121 | a body that reads has its six fixed fields from offsets 0 to 20, keeps version and flag, and has a night section exactly when the night flag is non-zero |
| FsofReader.Parse | FSOFLoader.js:37-123 | a buffer shorter than the header fails; a parsed document carries the int32 at 4 as version and byte 8 as compression flag |
| FsofProperties.ParseUncompressed | FSOFLoader.js:42-55 | with flag 0 the body is read from offset 9 of the buffer itself, whatever the inflater would do |
| FsofProperties.ParseCompressed | FSOFLoader.js:46-55 | with a non-zero flag, everything after byte 8 goes to the inflater; its failure is the parse's failure, otherwise the body is read from offset 0 of its output |
| FsofProperties.MagicIgnoredCompressed | FSOFLoader.js:42-53 | in a compressed file the first four bytes are never read: buffers differing only there parse alike |
| FsofProperties.MagicReadBack | FSOFLoader.js:62-68 | in an uncompressed file a floor size of -34 moves the cursor back to 0 and the wall blob's size is read from the first four bytes |
| FsofProperties.BodyCursor | FSOFLoader.js:62-69 | the floor blob is the slice after its size at 21, the wall size follows the floor's declared bytes, the night section starts after the wall's declared bytes |
| FsofProperties.BodyBlobs | FSOFLoader.js:62-68 | the two texture fields of a body that reads are the two successive blobs from offset 21 |
| FsofProperties.GeometryOrder | FSOFLoader.js:71-121 | the floor geometry starts right after the wall blob without a night section and after the whole night section with one; the wall geometry starts where the floor geometry ends |
| FsofProperties.GeometryContents | FSOFLoader.js:86-118 | vertex `i` is the record at `off + 4 + 32i`; a non-positive vertex count gives no vertices, a zero index count no indices, a table in the buffer its words in order |
| FsofLayout.ReadGeometryHolds | FSOFLoader.js:86-118 | an encoded geometry reads back as itself and the cursor stops right after it |
| FsofLayout.ReadGeometryFrom | FSOFLoader.js:89-116 | `readVerts` is its four reads in order: vertex count, vertices, index count, index table |
| FsofLayout.ReadNightHolds | FSOFLoader.js:71-84 | an encoded night section reads back as its blobs and `"#"` + hex of its colour, ending right after the colour |
| FsofLayout.ReadNightFrom | FSOFLoader.js:71-84 | the night section is its three reads in order: floor blob, wall blob, colour word |
| FsofLayout.ReadFieldsHolds | FSOFLoader.js:55-60 | the five int32 fields and the night flag read back from offsets 0 to 20 of the encoding |
| FsofLayout.ReadTexturesHolds | FSOFLoader.js:62-84 | the encoded texture blobs and night section read back in order, each ending where the next starts |
| FsofLayout.ReadBodyFrom | FSOFLoader.js:55-121 | when each read of the body gives the matching field of a document and ends where the next starts, the body reads as that document |
| FsofLayout.ReadBodyHolds | FSOFLoader.js:55-121 | an encoded body, wherever it sits in a buffer, reads back as its document and stops right after it |
| FsofLayout.ParseHeaderHolds | FSOFLoader.js:43-44 | the encoded header gives back its version and compression flag |
| FsofLayout.RoundTrip | FSOFLoader.js:37-123 | an uncompressed encoding (with any trailing bytes) parses to the encoded document, whatever the inflater |
| FsofLayout.RoundTripCompressed | FSOFLoader.js:37-123 | when the remainder inflates to the encoded body (plus any trailing bytes), parsing gives the encoded document |
| FsofLayout.DecodedInjective | FSOFLoader.js:37-123 | two layouts with the same ignored bytes that decode to the same document are the same layout: decoding loses nothing |
| SurfaceGeometry.FixNormal | FSOFLoader.js:138-140 | the fix-up keeps position and texture coordinates and leaves a first normal component that is not NaN |
| SurfaceGeometry.FixNormals | FSOFLoader.js:136-140 | the table fix-up keeps the length and fixes each vertex on its own |
| SurfaceGeometry.FixNormalExact | FSOFLoader.js:138-140 | a vertex changes exactly when its first normal component is NaN, and then its normal becomes (+0, 1, +0); NaN elsewhere in the normal is kept |
| SurfaceGeometry.FixNormalsIdempotent | FSOFLoader.js:136-140 | fixing twice is fixing once |
| SurfaceGeometry.Flatten | FSOFLoader.js:136-149 | the loop returns the fixed table and buffers of 3, 2 and 3 entries per vertex, component `k` of vertex `i` at `3i + k` (`2i + k`), normals taken after the fix-up |
| Dxt5Block.Fetch | FSOFLoader.js:222 | `data[k]` is the byte when `k` is inside the data and `undefined` otherwise |
| Dxt5Block.FetchBlock | FSOFLoader.js:222-246 | the sixteen reads of a block are the bytes at its start `at`, `at + 1`, ..., `at + 15` |
| Dxt5Block.LowBits | FSOFLoader.js:255-259 | `& (2^m - 1)` leaves a value below `2^m` |
| Dxt5Block.AlphaCode | FSOFLoader.js:253-258 | `abit` is a 3-bit code |
| Dxt5Block.ColourCode | FSOFLoader.js:259 | `cbit` is a 2-bit code |
| Dxt5Block.WordField | FSOFLoader.js:226-229 | a field of the int32 `alpha` or `col` read with `>>` and `&` is the same field of the unsigned little-endian word, whatever lies above bit 31 |
| Dxt5Block.Alpha2IsHigh | FSOFLoader.js:230-232 | `alpha2` is the 48-bit alpha table from bit 30 on |
| Dxt5Block.AlphaCodeBits | FSOFLoader.js:226-258 | alpha code `i` is bits `3i` to `3i + 2` of the 48-bit table of bytes 2 to 7, on both sides of the switch to `alpha2` at pixel 10 |
| Dxt5Block.AlphaCodeHigh | FSOFLoader.js:230-255 | the codes of pixels 10 to 15 taken from `alpha2` are the table's bits from `3i` on |
| Dxt5Block.ColourCodeBits | FSOFLoader.js:243-259 | colour code `i` is bits `2i` and `2i + 1` of the 32-bit table of bytes 12 to 15 |
| Dxt5Block.UnpackFields | FSOFLoader.js:240-241 | the unpack gives red from bits 11-15, "green" from bits 6-10 and blue from bits 0-4, all below 32 with alpha 255; bit 5 is the only bit lost |
| Dxt5Block.RoundThirds | FSOFLoader.js:207 | `Math.round(n / 3)` is `(n + 1) / 3`, within one third of `n / 3` |
| Dxt5Block.RoundSevenths | FSOFLoader.js:278 | `Math.round(n / 7)` is `(n + 3) / 7`, within three sevenths of `n / 7` |
| Dxt5Block.LerpThirds | FSOFLoader.js:205-208 | `colLerp(min, max, 2/3)` is `round((min + 2max) / 3)` and `colLerp(min, max, 1/3)` is `round((2min + max) / 3)` on each colour channel |
| Dxt5Block.LerpColourOnly | FSOFLoader.js:205-208 | `colLerp`'s colour channels depend only on the endpoints' colour channels |
| Dxt5Block.ColourValues | FSOFLoader.js:262-272 | colour code 0 shows `maxCol`, 1 `minCol`, 2 and 3 the rounded blends at two thirds and one third of the way to `maxCol` |
| Dxt5Block.AlphaValues | FSOFLoader.js:273-279 | alpha code 0 gives `maxA`, 1 `minA`, `c` from 2 to 7 the nearest integer to `(maxA(8 - c) + minA(c - 1)) / 7`, and 0 when an endpoint byte is missing |
| Dxt5Block.BlockPixels | FSOFLoader.js:248-282 | a block decodes to sixteen pixels |
| Dxt5Block.EndsAfterSlots | FSOFLoader.js:261-279 | after `n` pixels the endpoint arrays keep their colours, and each alpha slot holds the alpha of the last pixel so far that stored that array |
| Dxt5Block.CellResolves | FSOFLoader.js:261-281 | the array a pixel stores, read once the block is finished, shows the decoded pixel |
| Dxt5Block.AliasedAlpha | FSOFLoader.js:261-281 | a pixel with colour code 0 or 1 shows the alpha of the last pixel of its block with the same colour code, not its own |
| Dxt5Block.PixelBounds | FSOFLoader.js:240-279 | every colour channel stays below 32 and alpha is a byte |
| Dxt5Block.UniformBlock | FSOFLoader.js:234-279 | equal colour endpoints and all-zero alpha codes give sixteen copies of the unpacked endpoint with alpha `maxA`, whatever the colour codes |
| Dxt5Block.UniformAlpha | FSOFLoader.js:261-279 | when all alpha codes are equal every pixel shows that code's alpha, aliased pixels included |
| Dxt5Block.SameAlphaEnds | FSOFLoader.js:273-279 | equal alpha endpoints give the same alpha for every code |
| Dxt5Block.UniformEndpoints | FSOFLoader.js:222-279 | equal colour endpoints and equal alpha endpoints give sixteen copies of one pixel, the unpacked endpoint with alpha `maxA` |
| Dxt5Image.DimsOf | FSOFLoader.js:212-213 | `blockW = width >> 2` and `blockH = height >> 2` are the floors of the quarter dimensions, negative dimensions included |
| Dxt5Image.RowOffset | FSOFLoader.js:225-285 | within a row of blocks a pixel's offset from the row start stays below the stride `4 * blockW + 3 * width` |
| Dxt5Image.IdxInjective | FSOFLoader.js:225-287 | two pixels are never stored at the same index of `result` |
| Dxt5Image.IdxBounds | FSOFLoader.js:217-287 | block and pixel numbers lie below `blockW * blockH` and `16 * blockW * blockH`, and every stored index below `blockH` strides |
| Dxt5Image.Put | FSOFLoader.js:281 | `result[k] = v` makes the array at least `k + 1` long with `v` at `k` |
| Dxt5Image.PutKeeps | FSOFLoader.js:281 | a store changes no other slot, and the slots it adds past the old end are holes |
| Dxt5Image.DecodePixel | FSOFLoader.js:253-281 | one pixel stores its array at its index and advances the block's endpoint arrays by its alpha |
| Dxt5Image.DecodeLine | FSOFLoader.js:251-283 | one line of four pixels is stored at four consecutive indices from `targ2I` |
| Dxt5Image.DecodeBlock | FSOFLoader.js:248-285 | after a block's sixteen pixels its endpoint arrays are final and each pixel's array is at its index |
| Dxt5Image.DecodeRow | FSOFLoader.js:219-286 | the `bx` loop runs `blockW` times, or not at all when `blockW` is not positive: it decodes that many blocks in turn, reads `16` bytes per block and moves `targI` by 4 per block |
| Dxt5Image.DecodeImage | FSOFLoader.js:217-288 | the `by` loop decodes `blockW * blockH` blocks (none when a dimension is below 4) and stores every pixel at its index |
| Dxt5Image.NothingDecoded | FSOFLoader.js:211-215 | before the first block nothing is stored |
| Dxt5Image.ResultLength | FSOFLoader.js:281-288 | the finished array is `blockH * (4 * blockW + 3 * width)` slots long, or empty without blocks |
| Dxt5Image.PixelBytes | FSOFLoader.js:290 | a stored array flattens to four bytes and a hole to one |
| Dxt5Image.ReferenceImage | FSOFLoader.js:210-290 | the decoded picture has `blockH * (4 * blockW + 3 * width)` slots, or none without blocks |
| Dxt5Image.SlotIsReference | FSOFLoader.js:281 | each slot of the finished array shows the reference pixel of that index, the aliased arrays resolved |
| Dxt5Image.FlattenIsReference | FSOFLoader.js:290 | flattening the finished array gives the bytes of the reference image |
| Dxt5Image.Decompress | FSOFLoader.js:210-291 | `DXT5Decompress` returns the flattened reference image: slot `k` shows pixel `(x, y)` of block `(bx, by)` exactly when `k = by(4blockW + 3width) + 4bx + y width + x`, with block number `by blockW + bx`, and is a hole otherwise |
| Dxt5Layout.ChannelByte | FSOFLoader.js:290 | each channel of a decoded pixel passes the `Uint8Array` conversion unchanged |
| Dxt5Layout.ImageLength | FSOFLoader.js:290 | a picture without holes flattens to four bytes per slot |
| Dxt5Layout.ImageBytesAt | FSOFLoader.js:290 | without holes slot `j` becomes bytes `4j` to `4j + 3`, red, green, blue, alpha |
| Dxt5Layout.SlotBytes | FSOFLoader.js:290 | a byte-valued pixel in a picture without holes appears channel by channel at `4k` to `4k + 3` of the bytes |
| Dxt5Layout.SplitIndex | FSOFLoader.js:225-287 | with `width = 4 blockW`, every index below `blockH` strides is `by` strides plus `4bx + y width + x` for in-range `by`, `bx`, `y`, `x` |
| Dxt5Layout.Covered | FSOFLoader.js:217-288 | with `width = 4 blockW`, every index of the array is written by some pixel |
| Dxt5Layout.RowMajor | FSOFLoader.js:225-287 | with `width = 4 blockW`, `targ2I` is the row-major index `(4by + y) width + 4bx + x` |
| Dxt5Layout.AlignedSlots | FSOFLoader.js:217-288 | for dimensions that are positive multiples of 4 the picture has `width * height` slots and no holes |
| Dxt5Layout.AlignedIdx | FSOFLoader.js:225-287 | for such dimensions every in-range pixel is valid, stored at its row-major index, and in block `by (width / 4) + bx` |
| Dxt5Layout.ReferenceAt | FSOFLoader.js:281 | the reference picture holds each pixel at the index it is stored at |
| Dxt5Layout.AlignedSlot | FSOFLoader.js:217-288 | for such dimensions slot `(4by + y) width + 4bx + x` holds pixel `4y + x` of block `by (width / 4) + bx` |
| Dxt5Layout.AlignedLength | FSOFLoader.js:210-290 | for such dimensions the result is `4 * width * height` bytes |

## Left out

- Loading the file over the network (`FSOFLoader.prototype.load`, lines 10-30) is I/O. The model starts from the bytes.
- Gunzip (lines 49-50) is a parameter `inflate: seq<byte> -> Option<seq<byte>>`. Its inner workings are not modelled.
- `asModel`'s THREE.js construction is left out because it is rendering: buffer geometry, materials, meshes and the group (lines 150-171, 197-201).
- `loadTex` (lines 174-195) only chooses between uploading the blob and calling `DXT5Decompress`, and sets texture flags. Both are rendering.
- `getFloat32` values are kept as their 32-bit patterns. NaN is an all-ones exponent with a non-zero mantissa. A JavaScript engine may change the payload bits of a NaN it reads or stores; that is not modelled.
- The two float blends are computed on exact rationals. They are `Math.round(c1 * (1 - i) + c2 * i)` with `i` one of `2/3` and `1/3`, and `Math.round(maxA * a + minA * (1 - a))` with `a = (8 - abit) / 7`. Rounding on exact rationals matches the float result as long as the float error does not move a value across a half. Such a value is never a half for thirds and sevenths; the float error itself is not modelled.
- The NaN alpha that an `undefined` endpoint makes is stored as 0. This is what the final `Uint8Array` does with it.
- The argument-count limit of `Function.prototype.apply` in `[].concat.apply([], result)` is left out. Very large images would throw there.
- `DXT5Decompress` receives an `ArrayBuffer` in the source, and `data[k]` on an `ArrayBuffer` is always `undefined`. The model takes the blob as its bytes, as a typed array over it would give them.
- The `magic` field, which `read` always sets to `""`, is not a field of the decoded document.
- `ByteView.JsSlice`: its own contract states only the length bound. Its contents are stated by `JsSliceForward` for non-negative arguments, `JsSliceFromEnd` for a negative start, `JsSliceEndFromEnd` for a negative end and `JsSliceBeforeStart` for a start before the buffer. No lemma covers both arguments negative at once. The source never slices that way: every slice starts just after a size or count word that was read, so its start is at least 4.
- `Dxt5Block.BlockPixels`: its own contract states only the count. The pixel values are stated by `ColourValues`, `AlphaValues`, `AliasedAlpha`, `UniformBlock` and `UniformEndpoints`.
