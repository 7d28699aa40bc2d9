# RemoteFX tile encoder (FreeRDP `rfx_encode.c`), modelled in Dafny

This project models the tile encoder of FreeRDP's RemoteFX codec. The encoder takes one region
of at most 64 x 64 pixels and produces the three entropy-coded fragments of one tile. It works
in four steps:

1. `rfx_encode_format_rgb` splits the interleaved pixels into three 64 x 64 planar `sint16`
   buffers (R, G, B). It knows six pixel formats. It repeats the last pixel of each row out to
   the right edge and the last row down to the bottom edge.
2. `rfx_encode_rgb_to_ycbcr` turns the three buffers in place into Y, Cb and Cr samples. The
   samples are 11.5 fixed point, computed with shifts and adds, and clamped to [-4096, 4095].
3. `rfx_encode_component` runs the DWT, the quantizer, the differential coder on the last 64
   coefficients and the RLGR entropy coder, in that order, on one plane.
4. `rfx_encode_rgb` chains the steps above. It encodes Y, Cb and Cr in turn at the write
   position of an output stream, first making sure the stream has 4096 spare bytes.

The modules follow the program:

- `RfxTypes`: `sint16` and `uint32` as subset types, `uint8` as `bv8`, the tile geometry, and
  the three planes as a value.
- `RfxFormat`: pixel decoding per format, the region, the padded tile as a specification
  function (`ConvertTile`), and the converter as loops over three `array<Sint16>`.
- `RfxColor`: the per-sample transform and the clamp as functions, the tile transform as a
  function (`YCbCrTile`), and the in-place loop as a method.
- `RfxComponent`: the external stages. They are function-valued fields, bound only by the
  shapes they keep.
- `RfxStream`: the growable output stream, a class with a byte array and a write position.
- `RfxEncode`: the context class with its three buffers, the component encoder, and
  `rfx_encode_rgb`.

Each imperative routine is proved against a specification function:

- `EncodeFormatRgb` leaves the buffers equal to `ConvertTile(region)`.
- `RgbToYCbCr` leaves them equal to `YCbCrTile` of the old buffers.
- `EncodeRgb` leaves the stream holding `EncodeTile` of the transformed, converted region.

Lemmas then state what those functions mean: which source byte each sample comes from, the
padding, the 5-6-5 field layout, ranges, and concrete colours.

Shifts of the C code are written as multiplication and floor division by powers of two. An
arithmetic right shift of a negative value is floor division. The store of an `int` sum into
a `sint16` local keeps the low 16 bits (`ToSint16`).

Two behaviours of the code differ from the usual widening and range conventions; the model
follows the code:

- Green in the 5-6-5 formats is `g6 << 2`, with zero low bits, not the bit-replicating
  widening `(v << 2) | (v >> 4)`. Red and blue do replicate their top bits: `(v << 3) | (v >> 2)`.
  An all-ones pixel therefore decodes to green 252 (`AllOnes565`).
- White (255, 255, 255) transforms to (Y, Cb, Cr) = (4056, 5, 7), not to the top of the
  luma range, 4095.
  For 8-bit inputs the luma sum before the offset lies in [0, 8152], so no clamp ever binds
  (`PixelSampleUnclamped`, `WhiteSample`).

## Model

| member | source | states |
|---|---|---|
| RfxFormat.DecodePixel | libfreerdp-rfx/rfx_encode.c:51-101 | The per-format switch gives three samples, each in [0, 255]. |
| RfxFormat.DecodeBytes | libfreerdp-rfx/rfx_encode.c:51-84 | The 24- and 32-bit cases read one byte per channel; every sample is in [0, 255]. |
| RfxFormat.Decode565 | libfreerdp-rfx/rfx_encode.c:85-101 | The 5-6-5 cases build each sample from the two bytes of the pixel; every sample is in [0, 255]. |
| RfxFormat.ByteFormatChannel | libfreerdp-rfx/rfx_encode.c:51-84 | In a 24- or 32-bit format, channel c is the byte at offset 0, 1 or 2 of the pixel: R, G, B for RGB and RGBA, B, G, R for BGR and BGRA. The offset lies inside the pixel. |
| RfxFormat.High5Field | libfreerdp-rfx/rfx_encode.c:88 | `(hi & 0xF8) \| (hi >> 5)` is the top 5-bit field of `hi` widened as `(v << 3) \| (v >> 2)`. |
| RfxFormat.Mid6Field | libfreerdp-rfx/rfx_encode.c:89 | `((hi & 7) << 5) \| ((lo & 0xE0) >> 3)` is the 6-bit field `(hi mod 8) * 8 + lo / 32` shifted up by two. |
| RfxFormat.Low5Field | libfreerdp-rfx/rfx_encode.c:90 | `((lo & 0x1F) << 3) \| ((lo >> 2) & 7)` is the low 5-bit field of `lo` widened as `(v << 3) \| (v >> 2)`. |
| RfxFormat.TopField | libfreerdp-rfx/rfx_encode.c:88 | The high-byte expression is bits 15..11 of the little-endian word, widened. |
| RfxFormat.MiddleField | libfreerdp-rfx/rfx_encode.c:89 | The green expression is bits 10..5 of the little-endian word, times 4. |
| RfxFormat.BottomField | libfreerdp-rfx/rfx_encode.c:90 | The low-byte expression is bits 4..0 of the little-endian word, widened. |
| RfxFormat.Packed565Channels | libfreerdp-rfx/rfx_encode.c:85-101 | For a 5-6-5 pixel word w: green is `Widen6` of bits 10..5. RGB565 takes red from bits 15..11 and blue from bits 4..0. BGR565 takes them the other way round. |
| RfxFormat.WidenRanges | libfreerdp-rfx/rfx_encode.c:88-90 | 5-bit widening maps 0..31 strictly increasingly into [0, 255], from 0 to 255. 6-bit widening is strictly increasing, a multiple of 4, and at most 252. |
| RfxFormat.AllOnes565 | libfreerdp-rfx/rfx_encode.c:85-101 | The bytes FF FF decode to (255, 252, 255) in both 5-6-5 formats. |
| RfxFormat.Region.PixelAt | libfreerdp-rfx/rfx_encode.c:47-101 | The pixel at row y and column x starts at `rgb_data + y * rowstride + x * bpp`; its samples are in [0, 255]. |
| RfxFormat.PlaneSample | libfreerdp-rfx/rfx_encode.c:45-137 | Tile index i of a plane holds the region pixel at row `min(i / 64, height - 1)` and column `min(i % 64, width - 1)`; the value is in [0, 255]. |
| RfxFormat.ConvertTile | libfreerdp-rfx/rfx_encode.c:33-138 | The converted tile: three full planes of 4096 samples each. |
| RfxFormat.SampleInside | libfreerdp-rfx/rfx_encode.c:51-101 | Inside the region, plane index `y * 64 + x` holds channel c of pixel (y, x). |
| RfxFormat.SampleInsideBytes | libfreerdp-rfx/rfx_encode.c:47-84 | In a 24- or 32-bit format, plane index `y * 64 + x` holds the source byte at `y * rowstride + x * bpp + k`, with k the channel's byte offset. That byte lies inside the source. |
| RfxFormat.HorizontalPadding | libfreerdp-rfx/rfx_encode.c:106-118 | For a row y inside the region and a column x in [width, 64), the sample equals that of column `width - 1` of the same row. |
| RfxFormat.VerticalPadding | libfreerdp-rfx/rfx_encode.c:121-137 | For a row y in [height, 64) and any column x, the sample equals that of row `height - 1` in the same column. |
| RfxFormat.RowRepeatsLast | libfreerdp-rfx/rfx_encode.c:124-131 | A row below the region equals, index for index, the row at `r_buf - 64` that the fill copies from. |
| RfxFormat.StoreSample | libfreerdp-rfx/rfx_encode.c:54-56 | Storing the next three samples extends the converted prefix by one index and changes no other index. |
| RfxFormat.ConvertPixels | libfreerdp-rfx/rfx_encode.c:45-105 | The pixel loop of row y turns a converted prefix ending at the row's start into one ending at column `width` of the row. |
| RfxFormat.PadSample | libfreerdp-rfx/rfx_encode.c:112-117 | One step of the horizontal fill writes the row's last pixel and extends the converted prefix by one index. |
| RfxFormat.FillRow | libfreerdp-rfx/rfx_encode.c:106-118 | The horizontal fill completes row y, so the converted prefix reaches the start of row y + 1. |
| RfxFormat.CopyLastRow | libfreerdp-rfx/rfx_encode.c:127-136 | One `memcpy` of the vertical fill completes row y of one plane. |
| RfxFormat.RegionRow | libfreerdp-rfx/rfx_encode.c:51-101 | Channel c of row y of the region, read pixel by pixel: `width` samples. |
| RfxFormat.PaddedRow | libfreerdp-rfx/rfx_encode.c:106-118 | A region row followed by copies of its last sample: 64 samples. |
| RfxFormat.PlaneRows | libfreerdp-rfx/rfx_encode.c:45-137 | The first n rows of a plane built row by row (region rows padded on the right, rows below the region repeating the last one) have `64 * n` samples and agree with `PlaneSample` at every index. |
| RfxFormat.RowMatches | libfreerdp-rfx/rfx_encode.c:106-137 | Every index of tile row y holds the padded region row `min(y, height - 1)` at the index's column. |
| RfxFormat.RowSampleAt | libfreerdp-rfx/rfx_encode.c:106-137 | The same, for one index of row y. |
| RfxFormat.PaddedRowAt | libfreerdp-rfx/rfx_encode.c:106-118 | Column x of a padded row is channel c of pixel `(y, min(x, width - 1))`. |
| RfxFormat.PlaneRowsTile | libfreerdp-rfx/rfx_encode.c:33-138 | The converted tile is the three planes built row by row over all 64 rows. |
| RfxFormat.AllConverted | libfreerdp-rfx/rfx_encode.c:33-138 | When all 4096 indices are converted, the buffers equal `ConvertTile`. |
| RfxFormat.EncodeFormatRgb | libfreerdp-rfx/rfx_encode.c:33-138 | The three buffers end equal to `ConvertTile(region)`: every index is written, and only the three buffers change. |
| RfxColor.ToSint16 | libfreerdp-rfx/rfx_encode.c:161-173 | Storing an `int` into a `sint16` leaves values in [-32768, 32767] unchanged. |
| RfxColor.MinMax | libfreerdp-rfx/rfx_encode.c:31 | The clamp lies in [lo, hi]. It is v itself, or lo when v < lo, or hi when v > hi. |
| RfxColor.RgbToYCbCrSample | libfreerdp-rfx/rfx_encode.c:157-174 | Every output of one loop iteration lies in [-4096, 4095], whatever the three `sint16` inputs. |
| RfxColor.GroupRanges | libfreerdp-rfx/rfx_encode.c:161-173 | For inputs in [0, 255], each of the nine shift/add groups lies between 0 and its value at 255. |
| RfxColor.PixelSampleUnclamped | libfreerdp-rfx/rfx_encode.c:157-174 | For inputs in [0, 255]: luma before the offset is in [0, 8152], Cb in [-4078, 4083], Cr in [-4072, 4079]. No sum wraps and no clamp binds, so the outputs are the plain sums. |
| RfxColor.BlackSample | libfreerdp-rfx/rfx_encode.c:161-174 | Black (0, 0, 0) gives (Y, Cb, Cr) = (-4096, 0, 0). |
| RfxColor.WhiteSample | libfreerdp-rfx/rfx_encode.c:161-174 | White (255, 255, 255) gives (4056, 5, 7). |
| RfxColor.GreySample | libfreerdp-rfx/rfx_encode.c:161-174 | Grey v gives luma in [32v - 4105, 32v - 4096], Cb in [0, 5] and Cr in [0, 7]. |
| RfxColor.YCbCrTile | libfreerdp-rfx/rfx_encode.c:155-175 | The tile transform yields three full planes, every sample in [-4096, 4095]. |
| RfxColor.TileLocality | libfreerdp-rfx/rfx_encode.c:155-175 | Output index i of each plane depends only on input index i of the three planes. |
| RfxColor.TransformedStep | libfreerdp-rfx/rfx_encode.c:155-175 | An iteration at index i turns "first i transformed, rest untouched" into the same with i + 1. |
| RfxColor.TransformedAll | libfreerdp-rfx/rfx_encode.c:155-175 | When all 4096 indices are transformed, the planes equal `YCbCrTile` of the input. |
| RfxColor.TransformSample | libfreerdp-rfx/rfx_encode.c:157-174 | The loop body reads index i of the three buffers and writes the transformed triple back at index i. |
| RfxColor.RgbToYCbCr | libfreerdp-rfx/rfx_encode.c:140-176 | The three buffers end equal to `YCbCrTile` of their old contents. |
| RfxComponent.Coefficients | libfreerdp-rfx/rfx_encode.c:183-193 | A plane's coefficients have 4096 entries. The first 4032 are as the quantizer left them after the DWT. The last 64 are the differential coding of the quantizer's last 64. |
| RfxComponent.Fragment | libfreerdp-rfx/rfx_encode.c:195-197 | RLGR's output for a plane fits the capacity it is given. |
| RfxStream.Stream.Left | libfreerdp-rfx/rfx_encode.c:224 | The bytes left between the write position and the end of the buffer are never negative. |
| RfxStream.Stream.CheckSize | libfreerdp-rfx/rfx_encode.c:222 | After the call, at least n bytes are left and never fewer than before. A buffer that already had n bytes left is not replaced. The write position and the bytes already in the buffer are kept. How far the buffer grows is not promised. |
| RfxStream.Stream.Seek | libfreerdp-rfx/rfx_encode.c:225 | The write position moves forward by n and stays within the buffer. |
| RfxEncode.Reserve | libfreerdp-rfx/rfx_encode.c:222-224 | The least capacity `stream_check_size(s, 4096)` can leave a plane's encoder. It is one that `Grants` allows (at least 4096, at least what was left, and exactly what was left when that was 4096 or more), and no capacity `Grants` allows is smaller. |
| RfxEncode.EncodeTile | libfreerdp-rfx/rfx_encode.c:222-235 | Each of the Y, Cb and Cr fragments fits the capacity its encoder is handed. |
| RfxEncode.TileAppendBound | libfreerdp-rfx/rfx_encode.c:222-235 | For any capacities the three `stream_check_size` calls can leave (`TileGrants`), one tile appends exactly what the stream had left plus what it grew by, less what Cr leaves unused. The growth is never negative, and it is zero exactly when every plane step found at least 4096 bytes left. |
| RfxEncode.LeastGrowthBound | libfreerdp-rfx/rfx_encode.c:222-235 | When each `stream_check_size` grows the stream to just 4096 spare bytes, one tile appends at most what the stream had left plus 3 * 4096 bytes. |
| RfxEncode.RfxContext.EncodeComponent | libfreerdp-rfx/rfx_encode.c:178-200 | The plane becomes its coefficients (DWT, then quantization, then differential on [4032, 4096)). `size` is the length of RLGR's output for those coefficients and `buffer_size`. That output sits at the buffer's tail, and no other buffer byte changes. |
| RfxEncode.RfxContext.AppendPlane | libfreerdp-rfx/rfx_encode.c:222-225 | One plane step hands the encoder a capacity that `Grants` allows from what the stream had left, and ends with the fragment at the old write position and the position moved past it. What is left is that capacity minus the fragment. Earlier bytes are kept. |
| RfxEncode.RfxContext.AppendTile | libfreerdp-rfx/rfx_encode.c:222-235 | The capacities handed out satisfy `TileGrants`. The stream gains exactly the Y, Cb and Cr fragments of `EncodeTile` for them, in that order, at the old write position. The position ends at `start + y_size + cb_size + cr_size`. Bytes before `start` are kept. |
| RfxEncode.RfxContext.EncodeRgb | libfreerdp-rfx/rfx_encode.c:202-238 | The stream gains the three fragments of `YCbCrTile(ConvertTile(region))`, encoded into capacities that satisfy `TileGrants`, and the sizes are their lengths. The buffers hold the three planes' coefficients. Bytes before the old write position are kept. |

## Left out

- The `PROFILER_ENTER` and `PROFILER_EXIT` instrumentation measures time only and changes no result.
- The DWT, the quantizer, the differential coder and the RLGR coder are implemented outside this file. They are `Stages` function fields. The model constrains only their lengths: the DWT and the quantizer keep 4096 entries, the differential coder keeps 64, and RLGR writes no more than its capacity.
- The DWT scratch buffer (`dwt_buffer`) is not modelled; it belongs to the DWT.
- The function pointers `encode_rgb_to_ycbcr` and `dwt_2d_encode` are fixed: the first to the reference transform in this file, the second to the abstract DWT stage. Optimised variants are not part of this model.
- The `default` branch of the format switch is excluded, since `PixelFormat` has only the six recognised formats. In that branch the buffer pointers do not advance, so the later fills read before the buffers.
- RfxFormat.Region.Valid requires `1 <= width <= 64`, `1 <= height <= 64` and every row of the region inside the source. The code relies on these without checking them: a zero width or height makes the fills read before the buffers, and a width or height over 64 writes past them.
- The growth policy of `stream_check_size` is not part of this model. Its contract promises only enough room, never less than before, and no change when the room was already there; its body grows the buffer to just the requested room. The tile encoder is proved for every growth the contract allows.
- The bodies of `stream_check_size`, `stream_get_tail`, `stream_get_left` and `stream_seek` are not part of this model. They are modelled from how the encoder uses them.
- RfxEncode.RfxContext.EncodeComponent requires the plane buffer and the output buffer to be distinct. The same holds for `AppendTile` and `EncodeRgb`, which require the stream's buffer to be distinct from the three planes. The code never aliases them.
- A left shift of a negative `sint16` is modelled as multiplication by a power of two. The transform only reaches it for inputs outside [0, 255], which format conversion never produces.
- `include/freerdp/gdi/16bpp.h` holds four GDI prototypes without bodies and is unrelated to the encoder.
