/**
 * A band of whole image rows (`src/png_chunk.rs`): the decoder's packed row
 * bytes for `height` rows of `width` pixels, cut into bands of at least a
 * target number of pixels, each converted to 8-bit RGB or RGBA on its own.
 */
module RowChunks {
  import opened Wrappers
  import opened PngFormat
  import Arith
  import Slices
  import Unpack
  import Normalize

  /** The parts of the decoder's frame description the converter reads. */
  datatype FrameInfo = FrameInfo(width: nat, height: nat, colorType: ColorType,
                                 bitDepth: BitDepth, lineSize: nat)

  datatype RowChunk = RowChunk(data: seq<u8>, info: FrameInfo, palette: Option<seq<u8>>,
                               width: nat, height: nat)

  /** `PngChunk::new`: the whole frame as one chunk. */
  function NewChunk(data: seq<u8>, info: FrameInfo, palette: Option<seq<u8>>): (c: RowChunk)
    ensures c.data == data && c.info == info && c.palette == palette
    ensures c.width == info.width && c.height == info.height
  {
    RowChunk(data, info, palette, info.width, info.height)
  }

  // ---------------------------------------------------------------- chunking

  /** Rows per band: the fewest rows holding at least `target` pixels. */
  function ChunkHeight(width: nat, target: nat): (rows: nat)
    requires width > 0
    ensures rows * width >= target
    ensures rows > 0 ==> (rows - 1) * width < target
  {
    var rows := target / width + (if target % width > 0 then 1 else 0);
    Arith.MulSuccessor(target / width, width);
    rows
  }

  /** Rows of the last band: whatever the full bands leave over. */
  function LastHeight(height: nat, rows: nat): nat
    requires rows > 0
  {
    var remainder := height % rows;
    if remainder > 0 then remainder else rows
  }

  /** Bytes per band. */
  function BandBytes(chunk: RowChunk, target: nat): nat
    requires chunk.info.width > 0
  {
    ChunkHeight(chunk.info.width, target) * chunk.info.lineSize
  }

  /** A band has at least one byte when rows have bytes and the target is positive. */
  lemma {:induction false} BandBytesPositive(chunk: RowChunk, target: nat)
    requires chunk.info.width > 0 && chunk.info.lineSize > 0 && target > 0
    ensures ChunkHeight(chunk.info.width, target) > 0
    ensures BandBytes(chunk, target) > 0
  {
    Arith.ProductPositive(ChunkHeight(chunk.info.width, target), chunk.info.lineSize);
  }

  /** The byte pieces the chunk's data is cut into. */
  function Pieces(chunk: RowChunk, target: nat): seq<seq<u8>>
    requires chunk.info.width > 0 && chunk.info.lineSize > 0 && target > 0
  {
    BandBytesPositive(chunk, target);
    Slices.SliceChunks(chunk.data, BandBytes(chunk, target))
  }

  /** The bands `PngChunk::chunks` returns, one per byte piece. */
  function ChunksSpec(chunk: RowChunk, target: nat): seq<RowChunk>
    requires chunk.info.width > 0 && chunk.info.lineSize > 0 && target > 0
  {
    var pieces := Pieces(chunk, target);
    var rows := ChunkHeight(chunk.info.width, target);
    BandBytesPositive(chunk, target);
    seq(|pieces|, k requires 0 <= k < |pieces| =>
      RowChunk(pieces[k], chunk.info, chunk.palette, chunk.info.width,
               if k == |pieces| - 1 then LastHeight(chunk.height, rows) else rows))
  }

  /**
   * `PngChunk::chunks`: cuts the data into pieces of `chunk_height` rows and
   * wraps each in a chunk of the same frame; the last chunk's height is
   * what the full bands leave over.
   */
  method Chunks(chunk: RowChunk, target: nat) returns (bands: seq<RowChunk>)
    requires chunk.info.width > 0 && chunk.info.lineSize > 0 && target > 0
    ensures bands == ChunksSpec(chunk, target)
  {
    var width := chunk.info.width;
    var rows := ChunkHeight(width, target);
    BandBytesPositive(chunk, target);
    var byteChunks := Slices.SliceChunks(chunk.data, rows * chunk.info.lineSize);
    bands := [];
    if |byteChunks| > 0 {
      for i := 0 to |byteChunks| - 1
        invariant |bands| == i
        invariant forall k | 0 <= k < i ::
          bands[k] == RowChunk(byteChunks[k], chunk.info, chunk.palette, width, rows)
      {
        bands := bands + [RowChunk(byteChunks[i], chunk.info, chunk.palette, width, rows)];
      }
      var last := |byteChunks| - 1;
      bands := bands + [RowChunk(byteChunks[last], chunk.info, chunk.palette, width,
                                 LastHeight(chunk.height, rows))];
    }
  }

  /** The bands' bytes put back together are the chunk's data. */
  lemma {:induction false} ChunksReassemble(chunk: RowChunk, target: nat)
    requires chunk.info.width > 0 && chunk.info.lineSize > 0 && target > 0
    ensures var c := ChunksSpec(chunk, target);
      Slices.Flatten(seq(|c|, k requires 0 <= k < |c| => c[k].data)) == chunk.data
  {
    var c := ChunksSpec(chunk, target);
    BandBytesPositive(chunk, target);
    assert seq(|c|, k requires 0 <= k < |c| => c[k].data) == Pieces(chunk, target);
    Slices.SliceChunksFlatten(chunk.data, BandBytes(chunk, target));
  }

  /**
   * Every band keeps the frame, the palette and the width; all but the last
   * hold `chunk_height` rows in `chunk_height * line_size` bytes.
   */
  lemma {:induction false} ChunksShape(chunk: RowChunk, target: nat)
    requires chunk.info.width > 0 && chunk.info.lineSize > 0 && target > 0
    ensures var c, rows := ChunksSpec(chunk, target), ChunkHeight(chunk.info.width, target);
      && BandBytes(chunk, target) > 0
      && |c| == (|chunk.data| + BandBytes(chunk, target) - 1) / BandBytes(chunk, target)
      && (forall k | 0 <= k < |c| - 1 :: c[k].height == rows && |c[k].data| == BandBytes(chunk, target))
      && (forall k | 0 <= k < |c| ::
            c[k].info == chunk.info && c[k].palette == chunk.palette && c[k].width == chunk.info.width)
      && (|c| > 0 ==> c[|c| - 1].height == LastHeight(chunk.height, rows))
  {
    BandBytesPositive(chunk, target);
    Slices.SliceChunksCount(chunk.data, BandBytes(chunk, target));
  }

  /** The row counts of a sequence of bands. */
  function Heights(bands: seq<RowChunk>): seq<nat> {
    seq(|bands|, k requires 0 <= k < |bands| => bands[k].height)
  }

  /**
   * For data of exactly `height` rows, the bands' heights add up to the
   * chunk's height, and the last band's bytes are exactly its rows.
   */
  lemma {:induction false} ChunksCoverRows(chunk: RowChunk, target: nat)
    requires chunk.info.width > 0 && chunk.info.lineSize > 0 && target > 0
    requires |chunk.data| == chunk.height * chunk.info.lineSize
    ensures Arith.Sum(Heights(ChunksSpec(chunk, target))) == chunk.height
    ensures var c := ChunksSpec(chunk, target);
      |c| > 0 ==> |c[|c| - 1].data| == c[|c| - 1].height * chunk.info.lineSize
  {
    ChunksShape(chunk, target);
    var c, rows := ChunksSpec(chunk, target), ChunkHeight(chunk.info.width, target);
    var h, l := chunk.height, chunk.info.lineSize;
    Arith.CeilOfScaled(h, rows, l);
    Arith.CeilSplit(h, rows);
    if |c| > 0 {
      var last := LastHeight(h, rows);
      Arith.SumUniform(Heights(c), rows, last);
      var n := |c|;
      Slices.SliceChunksAt(chunk.data, BandBytes(chunk, target), n - 1);
      Arith.MulIsProduct(n - 1, BandBytes(chunk, target));
      LastBandBytes(h, rows, l, n, last);
    }
  }

  /** The bytes left after `n - 1` full bands of `rows` rows are the last band's rows. */
  lemma {:induction false} LastBandBytes(h: nat, rows: nat, l: nat, n: nat, last: nat)
    requires n >= 1 && (n - 1) * rows + last == h && last <= rows
    ensures (n - 1) * (rows * l) + rows * l >= h * l
    ensures h * l - (n - 1) * (rows * l) == last * l
  {
    assert (n - 1) * (rows * l) == ((n - 1) * rows) * l;
    assert h * l == ((n - 1) * rows) * l + last * l;
    Arith.MulLeft(last, rows, l);
  }

  /**
   * `PngChunk::chunks` as written: the loop bound `byte_chunks.len() - 1` is
   * evaluated before the `byte_chunks.len() > 0` guard, so empty data makes
   * the subtraction panic (`Err`); otherwise the result is the specified
   * bands.
   */
  method ChunksAsWritten(chunk: RowChunk, target: nat) returns (r: Result<seq<RowChunk>, string>)
    requires chunk.info.width > 0 && chunk.info.lineSize > 0 && target > 0
    ensures r.Err? <==> |chunk.data| == 0
    ensures r.Ok? ==> r.value == ChunksSpec(chunk, target)
  {
    var width := chunk.info.width;
    var rows := ChunkHeight(width, target);
    BandBytesPositive(chunk, target);
    var byteChunks := Slices.SliceChunks(chunk.data, rows * chunk.info.lineSize);
    var bound := Slices.LoopBoundAsWritten(|byteChunks|);
    if bound.None? {
      return Err("attempt to subtract with overflow");
    }
    var bands := [];
    for i := 0 to bound.value
      invariant |bands| == i
      invariant forall k | 0 <= k < i ::
        bands[k] == RowChunk(byteChunks[k], chunk.info, chunk.palette, width, rows)
    {
      bands := bands + [RowChunk(byteChunks[i], chunk.info, chunk.palette, width, rows)];
    }
    if |byteChunks| > 0 {
      var last := |byteChunks| - 1;
      bands := bands + [RowChunk(byteChunks[last], chunk.info, chunk.palette, width,
                                 LastHeight(chunk.height, rows))];
    }
    r := Ok(bands);
  }

  /** The guarded version returns no bands exactly when the data is empty. */
  lemma {:induction false} NoBandsOnlyForEmptyData(chunk: RowChunk, target: nat)
    requires chunk.info.width > 0 && chunk.info.lineSize > 0 && target > 0
    ensures ChunksSpec(chunk, target) == [] <==> |chunk.data| == 0
  {
    BandBytesPositive(chunk, target);
  }

  // ---------------------------------------------------------------- conversion

  /** Pixels in the chunk (`width * height`). */
  function PixelCount(chunk: RowChunk): nat {
    Arith.Mul(chunk.width, chunk.height)
  }

  /** What `unpack` needs: packed rows wide enough and data for every row. */
  predicate Unpackable(chunk: RowChunk) {
    var depth := chunk.info.bitDepth;
    depth.IsSubByte() ==>
      chunk.width <= Arith.Mul(chunk.info.lineSize, Unpack.SamplesPerByte(depth))
      && Arith.Mul(chunk.height, chunk.info.lineSize) <= |chunk.data|
  }

  /** The chunk's samples, one byte each. */
  function Samples(chunk: RowChunk): seq<u8>
    requires Unpackable(chunk)
  {
    Unpack.UnpackSpec(chunk.data, chunk.width, chunk.height, chunk.info.lineSize, chunk.info.bitDepth)
  }

  /**
   * What the conversion needs on top: every palette index has an entry and
   * there are samples for every pixel.
   */
  predicate Convertible(chunk: RowChunk, withAlpha: bool)
    requires Unpackable(chunk)
  {
    Normalize.Convertible(chunk.info.colorType, chunk.info.bitDepth, Samples(chunk),
                          chunk.palette, PixelCount(chunk), withAlpha)
  }

  /** `PngChunk::rgb`: unpacks the chunk and converts its pixels to 8-bit RGB. */
  method Rgb(chunk: RowChunk) returns (output: seq<u8>)
    requires Unpackable(chunk) && Convertible(chunk, false)
    ensures output == Normalize.ToRgbSpec(chunk.info.colorType, chunk.info.bitDepth, Samples(chunk),
                                          chunk.palette, PixelCount(chunk))
    ensures chunk.info.colorType != ColorType.Rgb ==> |output| == 3 * PixelCount(chunk)
  {
    var input := Unpack.Unpack(chunk.data, chunk.width, chunk.height, chunk.info.lineSize, chunk.info.bitDepth);
    output := Normalize.ToRgb(chunk.info.colorType, chunk.info.bitDepth, input,
                              chunk.palette, PixelCount(chunk));
  }

  /** `PngChunk::rgba`: unpacks the chunk and converts its pixels to 8-bit RGBA. */
  method Rgba(chunk: RowChunk) returns (output: seq<u8>)
    requires Unpackable(chunk) && Convertible(chunk, true)
    ensures output == Normalize.ToRgbaSpec(chunk.info.colorType, chunk.info.bitDepth, Samples(chunk),
                                           chunk.palette, PixelCount(chunk))
    ensures chunk.info.colorType != ColorType.Rgba ==> |output| == 4 * PixelCount(chunk)
  {
    var input := Unpack.Unpack(chunk.data, chunk.width, chunk.height, chunk.info.lineSize, chunk.info.bitDepth);
    output := Normalize.ToRgba(chunk.info.colorType, chunk.info.bitDepth, input,
                               chunk.palette, PixelCount(chunk));
  }

  /**
   * Sample `k` of packed byte `b` in row `row` is unpacked to pixel
   * `row * width + b * spb + k`, and every unpacked sample fits the bit depth.
   */
  lemma {:induction false} SampleOfPackedByte(chunk: RowChunk, row: nat, b: nat, k: nat)
    requires chunk.info.bitDepth.IsSubByte()
    requires Unpackable(chunk)
    requires row < chunk.height && k < Unpack.SamplesPerByte(chunk.info.bitDepth)
    requires Arith.Mul(b, Unpack.SamplesPerByte(chunk.info.bitDepth)) + k < chunk.width
    ensures Normalize.SamplesWithin(Samples(chunk), chunk.info.bitDepth, PixelCount(chunk))
    ensures var depth := chunk.info.bitDepth;
      var p := Arith.Mul(row, chunk.width) + Arith.Mul(b, Unpack.SamplesPerByte(depth)) + k;
      && Arith.Mul(row, chunk.info.lineSize) + b < |chunk.data|
      && p < PixelCount(chunk)
      && Samples(chunk)[p] == Unpack.Sample(chunk.data[Arith.Mul(row, chunk.info.lineSize) + b], depth, k)
  {
    var depth := chunk.info.bitDepth;
    Arith.MulCommutes(chunk.width, chunk.height);
    Unpack.UnpackRowsInRange(chunk.data, chunk.width, chunk.info.lineSize, depth, chunk.height);
    Unpack.UnpackRowsAt(chunk.data, chunk.width, chunk.info.lineSize, depth, chunk.height, row, b, k);
  }

  /**
   * Grey sub-byte images end to end: pixel `k` of packed byte `b` in row
   * `row` comes out as three equal channels holding that sample, scaled.
   */
  lemma {:induction false} GrayscaleRgbPixel(chunk: RowChunk, row: nat, b: nat, k: nat)
    requires chunk.info.colorType == Grayscale && chunk.info.bitDepth.IsSubByte()
    requires Unpackable(chunk)
    requires row < chunk.height && k < Unpack.SamplesPerByte(chunk.info.bitDepth)
    requires Arith.Mul(b, Unpack.SamplesPerByte(chunk.info.bitDepth)) + k < chunk.width
    ensures Convertible(chunk, false)
    ensures var depth := chunk.info.bitDepth;
      var p := Arith.Mul(row, chunk.width) + Arith.Mul(b, Unpack.SamplesPerByte(depth)) + k;
      var rgb := Normalize.ToRgbSpec(Grayscale, depth, Samples(chunk), chunk.palette, PixelCount(chunk));
      && Arith.Mul(row, chunk.info.lineSize) + b < |chunk.data|
      && p < PixelCount(chunk) && 3 * p + 3 <= |rgb|
      && var g := Normalize.Scale(Unpack.Sample(chunk.data[Arith.Mul(row, chunk.info.lineSize) + b], depth, k), depth);
         Normalize.Pixel(rgb, 3, p) == [g, g, g]
  {
    SampleOfPackedByte(chunk, row, b, k);
    Normalize.GrayscaleToRgbPixels(Samples(chunk), chunk.info.bitDepth, PixelCount(chunk));
  }
}
