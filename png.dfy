/**
 * A decoded PNG image held whole in memory (`Png`) and the pieces it is cut
 * into for parallel conversion (`PngChunk`, `src/png.rs`). A chunk is a run
 * of `len` pixels whose packed bytes start on a byte boundary; `span` is the
 * number of pixels after which unpacking restarts on a fresh byte.
 */
module PngImage {
  import opened Wrappers
  import opened PngFormat
  import Arith
  import Math
  import Slices
  import Normalize

  datatype Png = Png(
    width: nat,
    height: nat,
    colorType: ColorType,
    bitDepth: BitDepth,
    data: seq<u8>,
    palette: Option<seq<u8>>,
    bpp: nat,
    divisor: nat)

  datatype PngChunk = PngChunk(data: seq<u8>, len: nat, span: nat, png: Png)

  /**
   * Granularity, in pixels, at which the image may be cut. Full-byte pixels
   * may be cut anywhere; packed pixels in groups that fill whole bytes, or
   * only at row starts when a row does not end on a byte boundary.
   */
  function Divisor(width: nat, bpp: nat): nat
    requires bpp > 0
  {
    if bpp < 8 then
      if Arith.Mul(width, bpp) % 8 > 0 then width else 8 / bpp
    else
      1
  }

  /** Pixel sizes a PNG decoder produces: whole bytes, or 1, 2 or 4 bits. */
  predicate AlignedBpp(bpp: nat) {
    bpp > 0 && (bpp % 8 == 0 || 8 % bpp == 0)
  }

  /** Every colour type / bit depth pair a decoder delivers has an aligned pixel size. */
  lemma {:induction false} ValidCombinationAligned(ct: ColorType, bd: BitDepth)
    requires ValidCombination(ct, bd)
    ensures AlignedBpp(Bpp(ct, bd))
  {
  }

  /**
   * A group of `divisor` pixels is at least one pixel and fills whole bytes,
   * unless it is a complete row.
   */
  lemma {:induction false} DivisorFillsBytes(width: nat, bpp: nat)
    requires AlignedBpp(bpp)
    ensures Divisor(width, bpp) >= 1
    ensures Arith.Mul(Divisor(width, bpp), bpp) % 8 == 0 || Divisor(width, bpp) == width
  {
    if bpp < 8 && Arith.Mul(width, bpp) % 8 == 0 {
      assert bpp == 1 || bpp == 2 || bpp == 4;
    }
    Arith.MulIsProduct(Divisor(width, bpp), bpp);
  }

  /** What `Png::new` establishes about the image it builds. */
  predicate Valid(png: Png) {
    && AlignedBpp(png.bpp)
    && png.divisor >= 1
    && png.bpp == Bpp(png.colorType, png.bitDepth)
    && png.divisor == Divisor(png.width, png.bpp)
    && (png.colorType == Indexed ==> png.palette.Some?)
  }

  /**
   * `Png::new`: fails exactly when an indexed image comes without a palette;
   * otherwise keeps the image and records its pixel size and divisor.
   */
  function NewPng(width: nat, height: nat, ct: ColorType, bd: BitDepth,
                  data: seq<u8>, palette: Option<seq<u8>>): (r: Result<Png, string>)
    requires ValidCombination(ct, bd)
    ensures r.Err? <==> ct == Indexed && palette.None?
    ensures r.Ok? ==> Valid(r.value)
    ensures r.Ok? ==> var p := r.value;
      p.width == width && p.height == height && p.colorType == ct && p.bitDepth == bd
      && p.data == data && p.palette == palette
  {
    if ct == Indexed && palette.None? then
      Err("Image with indexed color type is missing a palette")
    else
      var bpp := Bpp(ct, bd);
      ValidCombinationAligned(ct, bd);
      Ok(Png(width, height, ct, bd, data, palette, bpp, Divisor(width, bpp)))
  }

  /** The whole image as a single chunk. */
  function AsChunk(png: Png): (c: PngChunk)
    ensures c.data == png.data && c.png == png
    ensures c.len == png.width * png.height && c.span == c.len
  {
    var len := png.width * png.height;
    PngChunk(png.data, len, len, png)
  }

  // ---------------------------------------------------------------- chunking

  /** Pixels per chunk: the target rounded up to the divisor. */
  function ChunkLen(png: Png, targetLen: nat): nat
    requires Valid(png)
  {
    DivisorFillsBytes(png.width, png.bpp);
    Math.MakeDivisibleBy(targetLen, png.divisor)
  }

  /** Bytes per chunk (`data_len`). */
  function DataLen(png: Png, targetLen: nat): nat
    requires Valid(png)
  {
    var len := ChunkLen(png, targetLen);
    var bitsDivisor := Math.MakeDivisibleBy(Arith.Mul(png.divisor, png.bpp), 8);
    Arith.Mul(len / png.divisor, bitsDivisor) / 8
  }

  /** Pixels after which unpacking restarts on a fresh byte. */
  function Span(png: Png, len: nat): nat
    requires Valid(png)
  {
    if png.bpp < 8 && png.divisor != 8 / png.bpp then png.divisor else len
  }

  /** Pixels of the last chunk: whatever the full chunks leave over. */
  function LastLen(png: Png, len: nat): nat
    requires len > 0
  {
    var remainder := Arith.Mul(png.width, png.height) % len;
    if remainder > 0 then remainder else len
  }

  /** The byte pieces the image data is cut into. */
  function Pieces(png: Png, targetLen: nat): seq<seq<u8>>
    requires Valid(png) && targetLen > 0
  {
    DataLenPositive(png, targetLen);
    Slices.SliceChunks(png.data, DataLen(png, targetLen))
  }

  /** The chunks `Png::chunks` returns, one per byte piece. */
  function ChunksSpec(png: Png, targetLen: nat): seq<PngChunk>
    requires Valid(png) && targetLen > 0
  {
    var pieces := Pieces(png, targetLen);
    var len := ChunkLen(png, targetLen);
    DataLenPositive(png, targetLen);
    seq(|pieces|, k requires 0 <= k < |pieces| =>
      PngChunk(pieces[k], if k == |pieces| - 1 then LastLen(png, len) else len,
               Span(png, len), png))
  }

  /** Rounding up to a multiple of 8 is rounding up to whole bytes. */
  lemma {:induction false} RoundUpToBytes(bits: nat)
    ensures Math.MakeDivisibleBy(bits, 8) == 8 * ((bits + 7) / 8)
  {
    var k := (bits + 7) / 8;
    Math.MakeDivisibleByIsLeast(bits, 8, 8 * k);
  }

  /**
   * A chunk holds `len / divisor` groups of `divisor` pixels, each group
   * rounded up to whole bytes.
   */
  lemma {:induction false} ChunkDataLen(png: Png, targetLen: nat)
    requires Valid(png)
    ensures DataLen(png, targetLen)
        == Arith.Mul(ChunkLen(png, targetLen) / png.divisor, (Arith.Mul(png.divisor, png.bpp) + 7) / 8)
  {
    var v := Arith.Mul(png.divisor, png.bpp);
    RoundUpToBytes(v);
    Arith.ScaleDownByEight(ChunkLen(png, targetLen) / png.divisor, (v + 7) / 8);
  }

  /** With a positive target every chunk has at least one pixel and one byte. */
  lemma {:induction false} DataLenPositive(png: Png, targetLen: nat)
    requires Valid(png) && targetLen > 0
    ensures ChunkLen(png, targetLen) > 0 && DataLen(png, targetLen) > 0
  {
    ChunkDataLen(png, targetLen);
    var len := ChunkLen(png, targetLen);
    Arith.QuotientPositive(len, png.divisor);
    Arith.MulMonoLeft(1, png.divisor, png.bpp);
    Arith.MulMonoLeft(1, len / png.divisor, (Arith.Mul(png.divisor, png.bpp) + 7) / 8);
  }

  /**
   * When a group of `divisor` pixels fills whole bytes, the bytes of a full
   * chunk are exactly its `len` pixels.
   */
  lemma {:induction false} ChunkBytesHoldPixels(png: Png, targetLen: nat)
    requires Valid(png) && Arith.Mul(png.divisor, png.bpp) % 8 == 0
    ensures DataLen(png, targetLen) * 8 == Arith.Mul(ChunkLen(png, targetLen), png.bpp)
  {
    ChunkDataLen(png, targetLen);
    var len := ChunkLen(png, targetLen);
    Arith.MultipleQuotient(len, png.divisor);
    Arith.WholeBytes(len / png.divisor, png.divisor, png.bpp);
  }

  /**
   * When rows do not end on a byte boundary the image is cut only at row
   * starts: chunks are whole rows, and each chunk holds its rows' padded bytes.
   */
  lemma {:induction false} PaddedRowsChunkByRow(png: Png, targetLen: nat)
    requires Valid(png) && Arith.Mul(png.width, png.bpp) % 8 > 0
    ensures png.divisor == png.width
    ensures ChunkLen(png, targetLen) % png.width == 0
    ensures DataLen(png, targetLen)
         == Arith.Mul(ChunkLen(png, targetLen) / png.width, LineSize(png.width, png.bpp))
  {
    if png.bpp >= 8 {
      Arith.MultipleOfEight(png.width, png.bpp);
    }
    ChunkDataLen(png, targetLen);
    Arith.MulIsProduct(png.width, png.bpp);
  }

  /** Unpacking restarts at a fresh byte mid-chunk only at row starts of padded rows. */
  lemma {:induction false} SpanRestartsAtRows(png: Png, len: nat)
    requires Valid(png)
    ensures Span(png, len) != len ==> Span(png, len) == png.width && Arith.Mul(png.width, png.bpp) % 8 > 0
  {
  }

  /** The chunks' bytes put back together are the image data. */
  lemma {:induction false} ChunksReassemble(png: Png, targetLen: nat)
    requires Valid(png) && targetLen > 0
    ensures var c := ChunksSpec(png, targetLen);
      Slices.Flatten(seq(|c|, k requires 0 <= k < |c| => c[k].data)) == png.data
  {
    var c := ChunksSpec(png, targetLen);
    DataLenPositive(png, targetLen);
    assert seq(|c|, k requires 0 <= k < |c| => c[k].data) == Pieces(png, targetLen);
    Slices.SliceChunksFlatten(png.data, DataLen(png, targetLen));
  }

  /**
   * There are `ceil(|data| / data_len)` chunks; all but the last have
   * `data_len` bytes and `len` pixels, and all share one span.
   */
  lemma {:induction false} ChunksShape(png: Png, targetLen: nat)
    requires Valid(png) && targetLen > 0
    ensures var c, len, dataLen := ChunksSpec(png, targetLen), ChunkLen(png, targetLen), DataLen(png, targetLen);
      && dataLen > 0
      && |c| == (|png.data| + dataLen - 1) / dataLen
      && (forall k | 0 <= k < |c| - 1 :: |c[k].data| == dataLen && c[k].len == len)
      && (forall k | 0 <= k < |c| :: 0 < |c[k].data| <= dataLen && c[k].span == Span(png, len) && c[k].png == png)
      && (|c| > 0 ==> c[|c| - 1].len == LastLen(png, len))
  {
    DataLenPositive(png, targetLen);
    Slices.SliceChunksCount(png.data, DataLen(png, targetLen));
  }

  /** The pixel counts of a sequence of chunks. */
  function Lens(chunks: seq<PngChunk>): seq<nat> {
    seq(|chunks|, k requires 0 <= k < |chunks| => chunks[k].len)
  }

  /**
   * For data of exactly `height` packed rows, the chunks' pixel counts add
   * up to `width * height`.
   */
  lemma {:induction false} ChunkLensCoverImage(png: Png, targetLen: nat)
    requires Valid(png) && targetLen > 0
    requires |png.data| == png.height * LineSize(png.width, png.bpp)
    ensures Arith.Sum(Lens(ChunksSpec(png, targetLen))) == Arith.Mul(png.width, png.height)
  {
    ChunksShape(png, targetLen);
    var c, len := ChunksSpec(png, targetLen), ChunkLen(png, targetLen);
    var total := Arith.Mul(png.width, png.height);
    assert |c| == (total + len - 1) / len by {
      ChunkCountIsCeiling(png, targetLen);
    }
    Arith.CeilSplit(total, len);
    if |c| > 0 {
      Arith.SumUniform(Lens(c), len, LastLen(png, len));
    }
  }

  /** For data of exactly `height` packed rows, there is one chunk per `len` pixels, rounded up. */
  lemma {:induction false} ChunkCountIsCeiling(png: Png, targetLen: nat)
    requires Valid(png) && targetLen > 0
    requires |png.data| == png.height * LineSize(png.width, png.bpp)
    ensures ChunkLen(png, targetLen) > 0
    ensures |ChunksSpec(png, targetLen)|
         == (Arith.Mul(png.width, png.height) + ChunkLen(png, targetLen) - 1) / ChunkLen(png, targetLen)
  {
    DataLenPositive(png, targetLen);
    var len, dataLen := ChunkLen(png, targetLen), DataLen(png, targetLen);
    var w, h, bpp := png.width, png.height, png.bpp;
    assert |ChunksSpec(png, targetLen)| == (|png.data| + dataLen - 1) / dataLen by {
      ChunksShape(png, targetLen);
    }
    Arith.MulIsProduct(w, h);
    if Arith.Mul(w, bpp) % 8 > 0 {
      // Padded rows: a chunk is k whole rows of line_size bytes each.
      PaddedRowsChunkByRow(png, targetLen);
      var k := len / w;
      assert k >= 1 && len == k * w by {
        Arith.QuotientPositive(len, w);
        Arith.MultipleQuotient(len, w);
        Arith.MulIsProduct(w, k);
      }
      assert dataLen == k * LineSize(w, bpp) by {
        Arith.MulIsProduct(k, LineSize(w, bpp));
      }
      assert LineSize(w, bpp) >= 1 by {
        Arith.MulIsProduct(w, bpp);
      }
      CeilOfRows(h, k, LineSize(w, bpp), w);
    } else {
      // Byte-aligned rows: a chunk's bytes are exactly its pixels' bits.
      assert dataLen * 8 == len * bpp by {
        DivisorFillsBytes(w, bpp);
        ChunkBytesHoldPixels(png, targetLen);
        Arith.MulIsProduct(len, bpp);
      }
      assert |png.data| * 8 == (w * h) * bpp by {
        Arith.MulIsProduct(w, bpp);
        Arith.CeilOfMultiple(w * bpp);
        BytesOfRows(h, LineSize(w, bpp), w, bpp);
      }
      CeilOfBytes(|png.data|, dataLen, w * h, len, bpp);
    }
  }

  /** `h` rows of `l` bytes in bands of `k` rows: one band per `k * w` pixels, rounded up. */
  lemma {:induction false} CeilOfRows(h: nat, k: nat, l: nat, w: nat)
    requires k >= 1 && l >= 1 && w >= 1
    ensures k * l >= 1 && k * w >= 1
    ensures (h * l + k * l - 1) / (k * l) == (w * h + k * w - 1) / (k * w)
  {
    Arith.CeilOfScaled(h, k, l);
    Arith.CeilOfScaled(h, k, w);
    assert w * h == h * w;
  }

  /** `h` rows of `l` bytes, each holding `w` pixels of `b` bits, hold `w * h * b` bits. */
  lemma {:induction false} BytesOfRows(h: nat, l: nat, w: nat, b: nat)
    requires l * 8 == w * b
    ensures (h * l) * 8 == (w * h) * b
  {
    assert (h * l) * 8 == h * (l * 8);
  }

  /** Counting pieces of `dl` bytes is counting chunks of `len` pixels when both measure the same bits. */
  lemma {:induction false} CeilOfBytes(d: nat, dl: nat, n: nat, len: nat, b: nat)
    requires dl >= 1 && len >= 1 && b >= 1
    requires d * 8 == n * b && dl * 8 == len * b
    ensures (d + dl - 1) / dl == (n + len - 1) / len
  {
    Arith.CeilOfScaled(d, dl, 8);
    Arith.CeilOfScaled(n, len, b);
  }

  /**
   * `Png::chunks`: cuts the data into pieces of `data_len` bytes and wraps
   * each in a chunk; every chunk but the last has `len` pixels.
   */
  method Chunks(png: Png, targetLen: nat) returns (chunks: seq<PngChunk>)
    requires Valid(png) && targetLen > 0
    ensures chunks == ChunksSpec(png, targetLen)
  {
    var len := ChunkLen(png, targetLen);
    var span := Span(png, len);
    DataLenPositive(png, targetLen);
    var dataChunks := Slices.SliceChunks(png.data, DataLen(png, targetLen));
    chunks := [];
    if |dataChunks| > 0 {
      for i := 0 to |dataChunks| - 1
        invariant |chunks| == i
        invariant forall k | 0 <= k < i :: chunks[k] == PngChunk(dataChunks[k], len, span, png)
      {
        chunks := chunks + [PngChunk(dataChunks[i], len, span, png)];
      }
      var last := |dataChunks| - 1;
      chunks := chunks + [PngChunk(dataChunks[last], LastLen(png, len), span, png)];
    }
  }

  /**
   * `Png::chunks` as written: the loop bound `data_chunks.len() - 1` is
   * evaluated before the `data_chunks.len() > 0` guard, so empty data makes
   * the subtraction panic (`Err`); otherwise the result is the specified
   * chunks.
   */
  method ChunksAsWritten(png: Png, targetLen: nat) returns (r: Result<seq<PngChunk>, string>)
    requires Valid(png) && targetLen > 0
    ensures r.Err? <==> |png.data| == 0
    ensures r.Ok? ==> r.value == ChunksSpec(png, targetLen)
  {
    var len := ChunkLen(png, targetLen);
    var span := Span(png, len);
    DataLenPositive(png, targetLen);
    var dataChunks := Slices.SliceChunks(png.data, DataLen(png, targetLen));
    var bound := Slices.LoopBoundAsWritten(|dataChunks|);
    if bound.None? {
      return Err("attempt to subtract with overflow");
    }
    var chunks := [];
    for i := 0 to bound.value
      invariant |chunks| == i
      invariant forall k | 0 <= k < i :: chunks[k] == PngChunk(dataChunks[k], len, span, png)
    {
      chunks := chunks + [PngChunk(dataChunks[i], len, span, png)];
    }
    if |dataChunks| > 0 {
      var last := |dataChunks| - 1;
      chunks := chunks + [PngChunk(dataChunks[last], LastLen(png, len), span, png)];
    }
    r := Ok(chunks);
  }

  /** The guarded version returns no chunks exactly when the data is empty. */
  lemma {:induction false} NoChunksOnlyForEmptyData(png: Png, targetLen: nat)
    requires Valid(png) && targetLen > 0
    ensures ChunksSpec(png, targetLen) == [] <==> |png.data| == 0
  {
    DataLenPositive(png, targetLen);
  }

  // ---------------------------------------------------------------- conversion

  /** What the conversion needs of a chunk's unpacked samples. */
  predicate ChunkConvertible(chunk: PngChunk, samples: seq<u8>, withAlpha: bool) {
    Normalize.Convertible(chunk.png.colorType, chunk.png.bitDepth, samples,
                          chunk.png.palette, chunk.len, withAlpha)
  }

  /** `PngChunk::rgb`: the chunk's `len` pixels as 8-bit RGB. */
  method Rgb(chunk: PngChunk, samples: seq<u8>) returns (output: seq<u8>)
    requires ChunkConvertible(chunk, samples, false)
    ensures output == Normalize.ToRgbSpec(chunk.png.colorType, chunk.png.bitDepth, samples,
                                          chunk.png.palette, chunk.len)
    ensures chunk.png.colorType != ColorType.Rgb ==> |output| == 3 * chunk.len
  {
    output := Normalize.ToRgb(chunk.png.colorType, chunk.png.bitDepth, samples,
                              chunk.png.palette, chunk.len);
  }

  /** `PngChunk::rgba`: the chunk's `len` pixels as 8-bit RGBA. */
  method Rgba(chunk: PngChunk, samples: seq<u8>) returns (output: seq<u8>)
    requires ChunkConvertible(chunk, samples, true)
    ensures output == Normalize.ToRgbaSpec(chunk.png.colorType, chunk.png.bitDepth, samples,
                                           chunk.png.palette, chunk.len)
    ensures chunk.png.colorType != ColorType.Rgba ==> |output| == 4 * chunk.len
  {
    output := Normalize.ToRgba(chunk.png.colorType, chunk.png.bitDepth, samples,
                               chunk.png.palette, chunk.len);
  }
}
