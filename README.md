# celeste-converter, modelled in Dafny

celeste-converter converts between Celeste's DATA image format and PNG.

- **DATA** starts with a header: width and height as little-endian 32-bit integers, then an alpha flag byte. After the header comes one run-length record per run of equal pixels. A record is a count byte (1 to 255) followed by the pixel's channels:
  - with alpha: the alpha byte, then blue, green and red unless alpha is zero;
  - without alpha: blue, green and red.
- **`data_to_png`** decodes the records into 8-bit RGB or RGBA pixel bytes for a PNG writer.
- **`png_to_data`** scans a decoded PNG's pixels in row-major order and writes one record per run.
- **PNG to 8-bit RGB or RGBA.** In the other direction, an image's packed samples (1, 2, 4, 8 or 16 bits) are first expanded to one byte per sample (`unpack`). They are then normalised to 8-bit RGB or RGBA from any PNG colour type: indexed, grey, grey with alpha, RGB or RGBA.
- **Chunking.** For parallel conversion the image is cut into chunks in two ways:
  - a whole-image `Png` is cut into pixel runs that start on byte boundaries (`src/png.rs`);
  - a frame's packed rows are cut into bands of whole rows (`src/png_chunk.rs`).

The model consists of these modules:

| module | file | models |
|---|---|---|
| `Math` | `math.dfy` | rounding up to a multiple (`src/math.rs`) |
| `Unpack` | `unpack.dfy` | expanding packed samples (`src/unpack.rs`); the sub-byte unpacker is an array method with nested loops, proved equal to a row-by-row reference definition |
| `Normalize` | `normalize.dfy` | the ten colour conversions shared by `src/png.rs` and `src/png_chunk.rs`; these are identical in both files apart from the pixel count, so each is written once as a loop method proved equal to a specification function |
| `PngImage` | `png.dfy` | `Png::new`, `as_chunk`, `chunks`, `rgb`, `rgba` (`src/png.rs`) |
| `RowChunks` | `png_chunk.dfy` | `PngChunk::new`, `chunks`, `rgb`, `rgba` (`src/png_chunk.rs`) |
| `Convert` | `convert.dfy` | the DATA decoder and encoder, with the byte stream as a sequence and a cursor (`src/convert.rs`) |
| `PngFormat`, `Slices`, `Arith`, `Wrappers` | | colour types and bit depths, Rust's `slice::chunks`, integer facts, and `Result`/`Option` |

In contracts, `Arith.Mul(a, b)` denotes `a * b`, written as repeated addition so that proofs about row offsets stay linear; `Arith.MulIsProduct` links it to `*`. Bytes are the subset type `u8` (0 to 255).

## Model

| member | source | states |
|---|---|---|
| Math.MakeDivisibleBy | src/math.rs:1-3 | the result is a multiple of the divisor, at least the value, and less than value + divisor |
| Math.MakeDivisibleByIsLeast | src/math.rs:1-3 | no multiple of the divisor between the value and the result is smaller than the result: it is the least such multiple |
| Math.MakeDivisibleByFixesMultiples | src/math.rs:1-3 | a value that already is a multiple (zero included) comes back unchanged |
| Math.MakeDivisibleByExamples | tests/math_test.rs:6-20 | the listed test cases, e.g. 100 rounded to 75 is 150 and 991 rounded to 99 is 1089 |
| Unpack.Sample | src/unpack.rs:26-33 | sample k of a byte, read from the most significant bits, never exceeds the depth's maximum sample |
| Unpack.ExpandBytesAt | src/unpack.rs:22-35 | sample k of byte b of an expanded run sits at position b * samples-per-byte + k |
| Unpack.ExpandBytesInRange | src/unpack.rs:20-71 | every expanded sample fits the bit depth |
| Unpack.UnpackRowsPrefix | src/unpack.rs:22-37 | unpacking fewer rows yields a prefix of unpacking more rows |
| Unpack.UnpackRowsRow | src/unpack.rs:22-37 | pixel j of row `row` comes from the row's bytes at `row * line_size`, padding bits dropped |
| Unpack.UnpackRowsAt | src/unpack.rs:24-33 | pixel `row * width + b * spb + k` is sample k of data byte `row * line_size + b` |
| Unpack.UnpackRowsInRange | src/unpack.rs:20-71 | every unpacked sample fits the bit depth |
| Unpack.ExpandByteExamples | src/unpack.rs:26-33 | byte 229 expands to 1,1,1,0,0,1,0,1 at depth 1, 3,2,1,1 at depth 2 and 14,5 at depth 4 |
| Unpack.HighByteTruncates | src/unpack.rs:77-84 | keeping the high byte of a 16-bit sample is division by 256 |
| Unpack.HighByteNearProportional | src/unpack.rs:77-84 | the high byte differs from the value divided by 257 by at most 1 |
| Unpack.UnpackSubByte | src/unpack.rs:20-71 | the 1/2/4-bit unpacker (whole-line buffer, truncated to width * height) yields exactly the row-by-row reference unpacking |
| Unpack.BufferSizes | src/unpack.rs:21-37 | the buffer holds line_size * height * samples-per-byte samples and width * height are kept |
| Unpack.UnpackLine | src/unpack.rs:22-35 | after unpacking line L the buffer's first (L+1) * width samples are the reference unpacking of L+1 rows |
| Unpack.ExpandRowInto | src/unpack.rs:23-34 | writes the samples of every byte of a row at the given offset and leaves every sample before and after them untouched |
| Unpack.WriteSamples | src/unpack.rs:24-33 | writes the samples of one packed byte, MSB first, at the offset; every sample before and after them untouched |
| Unpack.UnpackSixteenBit | src/unpack.rs:77-84 | one sample per 16-bit pair: sample i is byte 2i, the high byte |
| Unpack.Unpack | src/unpack.rs:4-18 | dispatches on bit depth: 8-bit data unchanged, 16-bit high bytes, sub-byte width * height samples; every sample fits the depth |
| Normalize.GrayscaleMultiplier | src/png.rs:290-297 | multiplier times the depth's maximum sample is 255 (255, 85, 17, 1) |
| Normalize.Scale | src/png.rs:170-185 | a scaled grey is 0 exactly for sample 0 and 255 exactly for the maximum sample |
| Normalize.MultiplierFits | src/png.rs:170-185 | a scaled sample never exceeds 255, so the u8 multiplication cannot overflow |
| Normalize.ScaleMonotone | src/png.rs:170-185 | scaling keeps the order of samples strictly |
| Normalize.ScaleInverse | src/png.rs:170-185 | dividing the scaled grey by the multiplier gives back the sample: no information lost |
| Normalize.IndexedToRgbPixels | src/png.rs:133-149 | pixel p of the RGB output is palette entry input[p]; output has 3n bytes |
| Normalize.IndexedToRgbaPixels | src/png.rs:151-168 | pixel p of the RGBA output is palette entry input[p] with alpha 255 |
| Normalize.IndexedToRgb | src/png_chunk.rs:74-90 | the loop writes exactly the indexed-to-RGB specification |
| Normalize.IndexedToRgba | src/png_chunk.rs:92-109 | the loop writes exactly the indexed-to-RGBA specification |
| Normalize.GrayscaleToRgbPixels | src/png.rs:170-185 | pixel p is three equal channels holding sample p scaled |
| Normalize.GrayscaleToRgbaPixels | src/png.rs:187-203 | pixel p is three equal scaled channels and alpha 255 |
| Normalize.GrayscaleToRgb | src/png_chunk.rs:111-132 | the loop writes exactly the grey-to-RGB specification |
| Normalize.GrayscaleToRgba | src/png_chunk.rs:134-156 | the loop writes exactly the grey-to-RGBA specification |
| Normalize.GrayscaleAlphaToRgbPixels | src/png.rs:205-221 | pixel p is the scaled grey of sample 2p in three channels; alpha dropped |
| Normalize.GrayscaleAlphaToRgbaPixels | src/png.rs:223-241 | pixel p is the scaled grey of sample 2p three times, then the scaled alpha of sample 2p+1 |
| Normalize.GrayscaleAlphaToRgbaPixel | src/png.rs:223-241 | the same for one pixel p |
| Normalize.GrayscaleAlphaChannel | src/png.rs:223-241 | byte 4p + c is the scaled grey for c < 3 and the scaled alpha for c = 3 |
| Normalize.FourBytePixel | src/png.rs:223-241 | a four-byte pixel is its four bytes in order |
| Normalize.GrayscaleAlphaToRgb | src/png_chunk.rs:158-180 | the loop writes exactly the grey-alpha-to-RGB specification |
| Normalize.GrayscaleAlphaToRgba | src/png_chunk.rs:182-206 | the loop writes exactly the grey-alpha-to-RGBA specification |
| Normalize.RgbToRgbaPixels | src/png.rs:247-265 | pixel p is input pixel p with alpha 255 appended |
| Normalize.RgbaToRgbPixels | src/png.rs:267-284 | pixel p is input pixel p without its alpha |
| Normalize.RgbRoundTrip | src/png.rs:247-284 | adding alpha then dropping it gives back the RGB input |
| Normalize.OpaqueRoundTrip | src/png.rs:247-284 | dropping the alpha of fully opaque pixels and adding it again gives back the RGBA input |
| Normalize.RgbToRgba | src/png_chunk.rs:212-230 | the loop writes exactly the RGB-to-RGBA specification |
| Normalize.RgbaToRgb | src/png_chunk.rs:232-249 | the loop writes exactly the RGBA-to-RGB specification |
| Normalize.ToRgb | src/png.rs:112-120 | dispatches on colour type to the RGB specification; 3n bytes except for RGB passed through |
| Normalize.ToRgba | src/png.rs:123-131 | dispatches on colour type to the RGBA specification; 4n bytes except for RGBA passed through |
| Normalize.RgbIsRgbaWithoutAlpha | src/png.rs:112-131 | for every colour type the RGB conversion is the RGBA conversion with alpha dropped |
| Normalize.IndexedDropAlpha | src/png.rs:133-168 | indexed-to-RGB is indexed-to-RGBA with alpha dropped |
| Normalize.GrayscaleDropAlpha | src/png.rs:170-203 | grey-to-RGB is grey-to-RGBA with alpha dropped |
| Normalize.GrayscaleAlphaDropAlpha | src/png.rs:205-241 | grey-alpha-to-RGB is grey-alpha-to-RGBA with alpha dropped |
| Normalize.OpaqueUnlessAlpha | src/png.rs:123-131 | indexed, grey and RGB input give RGBA pixels whose alpha is 255 |
| PngImage.ValidCombinationAligned | src/png.rs:34 | every colour type / bit depth pair gives a pixel size that is a whole number of bytes or divides a byte |
| PngImage.DivisorFillsBytes | src/png.rs:35-43 | the divisor is at least 1, and a group of divisor pixels fills whole bytes unless it is a full row |
| PngImage.NewPng | src/png.rs:21-46 | fails exactly for an indexed image without palette; otherwise keeps every field and records bpp and divisor |
| PngImage.AsChunk | src/png.rs:66-70 | one chunk over all the data with len and span width * height |
| PngImage.RoundUpToBytes | src/png.rs:78 | rounding bits up to a multiple of 8 is rounding up to whole bytes |
| PngImage.ChunkDataLen | src/png.rs:75-79 | a chunk's bytes are len / divisor groups, each rounded up to whole bytes |
| PngImage.DataLenPositive | src/png.rs:75-79 | a positive target gives chunks of at least one pixel and one byte |
| PngImage.ChunkBytesHoldPixels | src/png.rs:75-79 | when divisor pixels fill whole bytes, a full chunk's bytes are exactly its len pixels' bits |
| PngImage.PaddedRowsChunkByRow | src/png.rs:35-43 | when rows end mid-byte the image is cut only at row starts and each chunk holds its rows' padded bytes |
| PngImage.SpanRestartsAtRows | src/png.rs:82 | a span other than len occurs only for padded rows, and then it is the width |
| PngImage.ChunksReassemble | src/png.rs:84-98 | the chunks' bytes concatenated are the image data |
| PngImage.ChunksShape | src/png.rs:84-98 | ceil(bytes / data_len) chunks; all but the last have data_len bytes and len pixels; all share the span |
| PngImage.ChunkLensCoverImage | src/png.rs:93-98 | for data of exactly height packed rows, the chunk lengths add up to width * height |
| PngImage.ChunkCountIsCeiling | src/png.rs:75-86 | for data of exactly height packed rows, the number of chunks is width * height divided by len, rounded up, both for byte-aligned and for padded rows |
| PngImage.Chunks | src/png.rs:73-100 | the loop builds exactly the specified chunks, the last with the leftover length (guarded version, see Findings) |
| PngImage.ChunksAsWritten | src/png.rs:73-100 | the code in its own statement order (loop bound before the guard, push loop, guarded last push) fails exactly when the data is empty, and otherwise returns the specified chunks |
| PngImage.NoChunksOnlyForEmptyData | src/png.rs:93 | the guarded version returns no chunks exactly when the data is empty |
| Slices.LoopBoundAsWritten | src/png.rs:89 | the bound `len() - 1` is missing exactly for a count of 0, and otherwise is one less than the count |
| PngImage.Rgb | src/png.rs:112-120 | a chunk's len pixels as 8-bit RGB, per the shared specification |
| PngImage.Rgba | src/png.rs:123-131 | a chunk's len pixels as 8-bit RGBA, per the shared specification |
| RowChunks.NewChunk | src/png_chunk.rs:16-18 | the whole frame as one chunk with the frame's width and height |
| RowChunks.ChunkHeight | src/png_chunk.rs:44 | the fewest rows holding at least the target pixel count |
| RowChunks.BandBytesPositive | src/png_chunk.rs:44-45 | a positive target and line size give bands of at least one row and one byte |
| RowChunks.Chunks | src/png_chunk.rs:40-72 | the loop builds exactly the specified bands, the last with the leftover height (guarded version, see Findings) |
| RowChunks.ChunksReassemble | src/png_chunk.rs:47-70 | the bands' bytes concatenated are the chunk's data |
| RowChunks.ChunksShape | src/png_chunk.rs:47-70 | ceil(bytes / band bytes) bands keeping frame, palette and width; all but the last hold chunk_height rows in chunk_height * line_size bytes |
| RowChunks.ChunksCoverRows | src/png_chunk.rs:61-70 | for data of exactly height rows the band heights add up to the height and the last band's bytes are its rows |
| RowChunks.LastBandBytes | src/png_chunk.rs:61-68 | the bytes left after the full bands are the last band's rows |
| RowChunks.ChunksAsWritten | src/png_chunk.rs:40-72 | the code in its own statement order (loop bound before the guard, push loop, guarded last band) fails exactly when the data is empty, and otherwise returns the specified bands |
| RowChunks.NoBandsOnlyForEmptyData | src/png_chunk.rs:61 | the guarded version returns no bands exactly when the data is empty |
| RowChunks.Rgb | src/png_chunk.rs:20-28 | unpacks the band and converts its width * height pixels to RGB |
| RowChunks.Rgba | src/png_chunk.rs:30-38 | unpacks the band and converts its width * height pixels to RGBA |
| RowChunks.SampleOfPackedByte | src/png_chunk.rs:255-263 | sample k of packed byte b in row `row` becomes pixel row * width + b * spb + k of the band |
| RowChunks.GrayscaleRgbPixel | src/png_chunk.rs:111-132 | end to end for sub-byte grey: that pixel comes out as three equal channels holding the scaled sample |
| Slices.SliceChunks | src/png.rs:84-86 | pieces are non-empty, at most n long, all but the last exactly n, and there are none only for empty data |
| Slices.SliceChunksFlatten | src/png_chunk.rs:47-49 | the pieces concatenated are the input |
| Slices.SliceChunksCount | src/png_chunk.rs:47-49 | there are ceil(len / n) pieces |
| Convert.WriteU32 | src/convert.rs:160-164 | four bytes |
| Convert.FromBytesOfWrite | src/convert.rs:142-164 | reading the little-endian bytes written for a 32-bit value gives back the value |
| Convert.WriteOfFromBytes | src/convert.rs:142-164 | any four bytes read as a 32-bit value are below 2^32 and are written back as the same bytes |
| Convert.U32RoundTrip | src/convert.rs:142-164 | a written u32 is read back at its position whatever surrounds it |
| Convert.U32BytesRoundTrip | src/convert.rs:142-146 | reading four available bytes succeeds and writing the value reproduces them |
| Convert.BoolRoundTrip | src/convert.rs:130-152 | a written flag is read back at its position whatever surrounds it |
| Convert.PixelBytes | src/convert.rs:25-43 | 3 bytes per pixel without alpha, 4 with |
| Convert.PixelsBytesAppend | src/convert.rs:44-46 | the bytes of two pixel runs are the bytes of each, concatenated |
| Convert.PixelsBytesUniform | src/convert.rs:44-46 | the bytes of n equal pixels are n copies of that pixel's bytes |
| Convert.ReadRecord | src/convert.rs:19-40 | a record read succeeds only with a count of 1..255, moves the cursor forward and yields a four-channel pixel |
| Convert.PrependTwice | src/convert.rs:44-46 | extending the output twice is extending it once by both |
| Convert.DecodeRunsNext | src/convert.rs:17-49 | one loop step: a record's count copies of its pixel bytes, then the decoding of the rest |
| Convert.DecodeRunsFails | src/convert.rs:19-40 | a failed record read fails the decoding with that error |
| Convert.ZeroCountRejected | src/convert.rs:20-22 | a count of 0 fails the decoding |
| Convert.TruncatedRejected | src/convert.rs:19 | missing record bytes fail the decoding with end of input |
| Convert.AppendRun | src/convert.rs:43-46 | the output extended by count copies of the pixel bytes |
| Convert.DataToPng | src/convert.rs:7-59 | the decoding loop yields exactly the header and pixel bytes of the decoding specification, or its error |
| Convert.RunUnique | src/convert.rs:84-104 | the run at a pixel is determined by the pixels |
| Convert.ExtendRun | src/convert.rs:84-104 | growing a run of equal pixels stops at a maximal run: cap 255, end of image or a different pixel |
| Convert.RunLength | src/convert.rs:84-104 | the count written for pixel i is a run: 1..255 equal pixels, stopped only by the cap, the end or a different pixel |
| Convert.EncodeRecord | src/convert.rs:110-122 | the record is 4 bytes without alpha, 2 for a transparent pixel and 5 otherwise, and starts with the count |
| Convert.UniformRunLength | src/convert.rs:84-104 | n equal pixels are written as records of 255 and a last one of the rest |
| Convert.RunCountsCover | src/convert.rs:77-125 | every record count is 1..255 and the counts add up to the number of pixels |
| Convert.PngToData | src/convert.rs:62-128 | the encoding loop writes exactly the encoding specification, and what it writes decodes to the header and the bytes of every pixel |
| Convert.WriteRun | src/convert.rs:79-124 | one loop step: writes the record of the run at i and advances by its length |
| Convert.WriteRecord | src/convert.rs:110-122 | the output extended by the pixel's record |
| Convert.EncodeRunsNext | src/convert.rs:110-124 | the records from i on are the record of the run at i, then the records after it |
| Convert.MeasureRun | src/convert.rs:84-104 | the look-ahead loop computes the run length |
| Convert.RecordRoundTrip | src/convert.rs:19-40 | a record the encoder writes is read back as its count, pixel and end position |
| Convert.PixelsBytesSplit | src/convert.rs:44-46 | the bytes of pixels starting with a run are the run's copies, then the rest |
| Convert.PixelsBytesAfterRun | src/convert.rs:43-46 | the run's bytes, as the decoder repeats them, are the bytes of those pixels |
| Convert.ContainsSplit | src/convert.rs:17-49 | a stream holding a + b at pos holds a at pos and b right after |
| Convert.RestOfRuns | src/convert.rs:17-49 | after the first record the stream holds the records of the remaining pixels |
| Convert.FirstRecord | src/convert.rs:19-40 | the first record read back has the run length and the pixel's channels |
| Convert.FirstRunRoundTrip | src/convert.rs:17-49 | if the rest decodes to the remaining pixels' bytes, the whole decodes to all pixels' bytes |
| Convert.RunsRoundTrip | src/convert.rs:17-49 | the records of pixels i.. decode to those pixels' bytes |
| Convert.HeaderRoundTrip | src/convert.rs:8-10 | the written header reads back, and the records start at byte 9 |
| Convert.DataRoundTrip | src/convert.rs:62-128 | decoding what png_to_data writes gives the same header and the bytes of every pixel in order |
| Convert.Copies | src/convert.rs:44-46 | n copies of one pixel |
| Convert.DecodedPixelsNext | src/convert.rs:17-49 | one step: the record's copies of its pixel, then the remaining decoded pixels |
| Convert.RecordPixelBytes | src/convert.rs:25-43 | the bytes the decoder writes for a record are the bytes of its pixel, and that pixel is normal (opaque, or transparent black) |
| Convert.DecodeRunsPixels | src/convert.rs:17-49 | the decoder's bytes are the bytes of a sequence of decoded pixels |
| Convert.RunThenRest | src/convert.rs:44-46 | the bytes of a run followed by more pixels are the run's copies, then the rest |
| Convert.DecodedPixelsNormal | src/convert.rs:25-40 | every decoded pixel is opaque without alpha and transparent black whenever its alpha is 0 |
| Convert.DecodedPixelsCover | src/convert.rs:17-48 | the decoded pixels cover the missing pixels and overshoot by less than 255 |
| Convert.PixelsBytesLength | src/convert.rs:14-15 | bytes_per_pixel bytes per pixel |
| Convert.DecodeRunsLength | src/convert.rs:14-46 | the decoder writes bytes_per_pixel bytes for every pixel its records count |
| Convert.ReadBackPixels | src/convert.rs:25-46 | normal pixels written as bytes read back as the same pixels |
| Convert.SecondConversionStable | tests/convert_test.rs:37-46 | DATA to PNG to DATA to PNG gives the same PNG: the pixels of the first PNG encode to a stream that decodes to the same header and bytes |

## Left out

- `Png::load` (src/png.rs:48-64) and the `png` and `image` libraries are left out: the PNG decoder, the PNG encoder in `data_to_png`, and `get_pixel` in `png_to_data`. The encoder takes the decoded pixels as a row-major sequence; the decoder's output is the pixel bytes handed to the PNG writer.
- Byte streams, `read_exact`/`write_all` failures other than end of input, and the `println!` lines are left out. Streams are a byte sequence and a cursor.
- `src/file.rs`, `src/main.rs`, `src/rayon.rs` and `src/log.rs` (file handling, command line, thread pool, logging) are not part of this model, and neither is the parallelism they drive. Chunks are modelled as values.
- Convert.DataToPng: the 32-bit `width * height` and `i += count` are unbounded. The loop runs to `width * height` as a mathematical product, so a product that wraps around 2^32 is not modelled.
- Convert.PngToData: the width and height of a decoded PNG are taken to be below 2^32, and `width * height` is not wrapped.
- Convert.SecondConversionStable: the PNG writer's own check, which rejects pixel data of a length other than width * height pixels, appears as a requires. A stream whose last run overshoots the pixel count is rejected by the writer, and is not covered.
- Convert.DecodedPixelsCover: the overshoot is bounded by 254 (the largest count less one), not by the last record's count less one.
- Unpack.UnpackSixteenBit: keeps the high byte of each big-endian 16-bit sample, which is what src/unpack.rs:77-84 does. It does not divide by 257 (a proportional projection); HighByteNearProportional shows that the two differ by at most 1.
- PngImage.Rgb, PngImage.Rgba: `PngChunk::unpack` in src/png.rs:299-301 calls `unpack` with four arguments (data, len, span, bit depth), which does not match the five-argument `unpack` of src/unpack.rs. The unpacked samples are therefore a parameter of these two methods, constrained only by what the conversion needs.
- Panics are modelled as requires. A zero target panics in `slice::chunks(0)`, since both byte lengths are then 0. A zero width divides by zero in src/png_chunk.rs:44. Out-of-bounds indexing is excluded by requiring that palette entries exist and that there are enough samples.
- The `rgb_to_rgb` and `rgba_to_rgba` conversions return the unpacked samples unchanged. Normalize.ToRgb and ToRgba pass them through without a length guarantee.
- tests/unpack_test.rs exercises a packed-data API that differs from src/unpack.rs. It is not part of this model.

## Findings

| source | as written | input that shows it | evidently intended | confidence | as-written member | corrected member |
|---|---|---|---|---|---|---|
| src/png.rs:89 | `0..data_chunks.len() - 1` subtracts 1 from a `usize` before the `data_chunks.len() > 0` guard at line 93 | an image with empty data and any positive target length: `len() - 1` underflows and panics | no chunks for empty data, as the guard at line 93 intends | low — not executed | PngImage.ChunksAsWritten | PngImage.Chunks, PngImage.NoChunksOnlyForEmptyData |
| src/png_chunk.rs:52 | `0..byte_chunks.len() - 1` subtracts 1 from a `usize` before the `byte_chunks.len() > 0` guard at line 61 | a chunk with empty data, positive width, line size and target | no bands for empty data, as the guard at line 61 intends | low — not executed | RowChunks.ChunksAsWritten | RowChunks.Chunks, RowChunks.NoBandsOnlyForEmptyData |
