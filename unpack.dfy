/**
 * Expanding packed PNG rows to one byte per sample (`src/unpack.rs`).
 *
 * At depths 1, 2 and 4 a byte holds 8, 4 or 2 samples, read most significant
 * bits first; every image row starts on a fresh byte, `lineSize` bytes after
 * the previous one, and the padding bits that end a row are discarded.
 */
module Unpack {
  import opened PngFormat
  import opened Arith
  import Slices

  /** `b >> n`: `n` halvings, rounding down. */
  function ShiftRight(b: nat, n: nat): nat
  {
    if n == 0 then b else ShiftRight(b / 2, n - 1)
  }

  /** Samples held by one packed byte: 8, 4 or 2. */
  function SamplesPerByte(depth: BitDepth): nat
    requires depth.IsSubByte()
  {
    match depth
    case One => 8
    case Two => 4
    case _ => 2
  }

  /**
   * Sample `k` of byte `b`, counted from the most significant end:
   * `(b >> shift) & mask` with `shift = 8 - bits * (k + 1)` and `mask = 2^bits - 1`
   * (a mask of low bits keeps the remainder modulo `2^bits`).
   */
  function Sample(b: u8, depth: BitDepth, k: nat): (v: u8)
    requires depth.IsSubByte() && k < SamplesPerByte(depth)
    ensures v <= depth.MaxSample()
  {
    match depth
    case One => ShiftRight(b, 7 - k) % 2
    case Two => ShiftRight(b, 6 - 2 * k) % 4
    case _ => ShiftRight(b, 4 - 4 * k) % 16
  }

  /** The samples of one byte, in reading order. */
  function ExpandByte(b: u8, depth: BitDepth): (r: seq<u8>)
    requires depth.IsSubByte()
    ensures |r| == SamplesPerByte(depth)
  {
    seq(SamplesPerByte(depth), k requires 0 <= k < SamplesPerByte(depth) => Sample(b, depth, k))
  }

  /** The samples of a run of bytes, byte after byte. */
  function ExpandBytes(bytes: seq<u8>, depth: BitDepth): (r: seq<u8>)
    requires depth.IsSubByte()
    ensures |r| == Mul(|bytes|, SamplesPerByte(depth))
  {
    if |bytes| == 0 then []
    else ExpandBytes(bytes[..|bytes| - 1], depth) + ExpandByte(bytes[|bytes| - 1], depth)
  }

  /**
   * Reference definition of the unpacked image: the first `rows` rows, row
   * `row` being the expansion of the `lineSize` bytes at `row * lineSize`,
   * cut down to `width` samples.
   */
  function UnpackRows(data: seq<u8>, width: nat, lineSize: nat, depth: BitDepth, rows: nat): (r: seq<u8>)
    requires depth.IsSubByte()
    requires width <= Mul(lineSize, SamplesPerByte(depth))
    requires Mul(rows, lineSize) <= |data|
    ensures |r| == Mul(rows, width)
  {
    if rows == 0 then []
    else
      var start := Mul(rows - 1, lineSize);
      UnpackRows(data, width, lineSize, depth, rows - 1)
        + ExpandBytes(data[start..start + lineSize], depth)[..width]
  }

  /** What `unpack` yields for `lineSize`-byte rows of the given sample depth. */
  function UnpackSpec(data: seq<u8>, width: nat, height: nat, lineSize: nat, depth: BitDepth): seq<u8>
    requires depth.IsSubByte() ==> width <= Mul(lineSize, SamplesPerByte(depth)) && Mul(height, lineSize) <= |data|
  {
    match depth
    case Eight => data
    case Sixteen => HighBytes(data)
    case _ => UnpackRows(data, width, lineSize, depth, height)
  }

  /** The first byte of every big-endian 16-bit sample. */
  function HighBytes(data: seq<u8>): (r: seq<u8>)
  {
    seq(|data| / 2, i requires 0 <= i < |data| / 2 => data[2 * i])
  }

  // ----- properties of the reference definition -----

  /** Sample `k` of byte `b` of an expanded byte run sits at position `b * spb + k`. */
  lemma {:induction false} ExpandBytesAt(bytes: seq<u8>, depth: BitDepth, b: nat, k: nat)
    requires depth.IsSubByte() && b < |bytes| && k < SamplesPerByte(depth)
    ensures Mul(b, SamplesPerByte(depth)) + k < Mul(|bytes|, SamplesPerByte(depth))
    ensures ExpandBytes(bytes, depth)[Mul(b, SamplesPerByte(depth)) + k] == Sample(bytes[b], depth, k)
    decreases |bytes|
  {
    var n := |bytes| - 1;
    if b < n {
      ExpandBytesAt(bytes[..n], depth, b, k);
    }
  }

  /** Every sample of an expanded byte run fits the bit depth. */
  lemma {:induction false} ExpandBytesInRange(bytes: seq<u8>, depth: BitDepth)
    requires depth.IsSubByte()
    ensures forall p | 0 <= p < |ExpandBytes(bytes, depth)| :: ExpandBytes(bytes, depth)[p] <= depth.MaxSample()
    decreases |bytes|
  {
    if |bytes| > 0 {
      ExpandBytesInRange(bytes[..|bytes| - 1], depth);
    }
  }

  /** One more row appends the expansion of the next `lineSize` bytes, cut to `width`. */
  lemma {:induction false} UnpackRowsNext(data: seq<u8>, width: nat, lineSize: nat, depth: BitDepth, rows: nat)
    requires depth.IsSubByte()
    requires width <= Mul(lineSize, SamplesPerByte(depth))
    requires Mul(rows + 1, lineSize) <= |data|
    ensures Mul(rows, lineSize) + lineSize <= |data|
    ensures UnpackRows(data, width, lineSize, depth, rows + 1)
         == UnpackRows(data, width, lineSize, depth, rows)
          + ExpandBytes(data[Mul(rows, lineSize) .. Mul(rows, lineSize) + lineSize], depth)[..width]
  {
  }

  /** The first `rows'` rows are not changed by unpacking more rows. */
  lemma {:induction false} UnpackRowsPrefix(data: seq<u8>, width: nat, lineSize: nat, depth: BitDepth,
                                            rows: nat, rows': nat)
    requires depth.IsSubByte()
    requires width <= Mul(lineSize, SamplesPerByte(depth))
    requires Mul(rows, lineSize) <= |data|
    requires rows' <= rows
    ensures Mul(rows', lineSize) <= |data| && Mul(rows', width) <= Mul(rows, width)
    ensures UnpackRows(data, width, lineSize, depth, rows)[..Mul(rows', width)]
         == UnpackRows(data, width, lineSize, depth, rows')
    decreases rows
  {
    MulMonoLeft(rows', rows, lineSize);
    MulMonoLeft(rows', rows, width);
    if rows' < rows {
      var shorter := UnpackRows(data, width, lineSize, depth, rows - 1);
      assert UnpackRows(data, width, lineSize, depth, rows)[..|shorter|] == shorter;
      UnpackRowsPrefix(data, width, lineSize, depth, rows - 1, rows');
    }
  }

  /** Row `row` of the unpacked image is the expansion of its own `lineSize` bytes. */
  lemma {:induction false} UnpackRowsRow(data: seq<u8>, width: nat, lineSize: nat, depth: BitDepth, rows: nat, row: nat, j: nat)
    requires depth.IsSubByte()
    requires width <= Mul(lineSize, SamplesPerByte(depth))
    requires Mul(rows, lineSize) <= |data|
    requires row < rows && j < width
    ensures Mul(row, width) + j < Mul(rows, width)
    ensures Mul(row, lineSize) + lineSize <= |data|
    ensures UnpackRows(data, width, lineSize, depth, rows)[Mul(row, width) + j]
         == ExpandBytes(data[Mul(row, lineSize) .. Mul(row, lineSize) + lineSize], depth)[j]
  {
    UnpackRowsPrefix(data, width, lineSize, depth, rows, row + 1);
    UnpackRowsNext(data, width, lineSize, depth, row);
  }

  /**
   * Sample `k` of byte `b` of row `row` is written to position
   * `row * width + b * spb + k` of the unpacked image.
   */
  lemma {:induction false} UnpackRowsAt(data: seq<u8>, width: nat, lineSize: nat, depth: BitDepth, rows: nat,
                     row: nat, b: nat, k: nat)
    requires depth.IsSubByte()
    requires width <= Mul(lineSize, SamplesPerByte(depth))
    requires Mul(rows, lineSize) <= |data|
    requires row < rows && k < SamplesPerByte(depth) && Mul(b, SamplesPerByte(depth)) + k < width
    ensures Mul(row, width) + Mul(b, SamplesPerByte(depth)) + k < Mul(rows, width)
    ensures Mul(row, lineSize) + b < |data|
    ensures UnpackRows(data, width, lineSize, depth, rows)[Mul(row, width) + Mul(b, SamplesPerByte(depth)) + k]
         == Sample(data[Mul(row, lineSize) + b], depth, k)
  {
    var j := Mul(b, SamplesPerByte(depth)) + k;
    UnpackRowsRow(data, width, lineSize, depth, rows, row, j);
    if b >= lineSize {
      MulMonoLeft(lineSize, b, SamplesPerByte(depth));
    }
    var start := Mul(row, lineSize);
    ExpandBytesAt(data[start..start + lineSize], depth, b, k);
  }

  /** Every unpacked sample fits the source bit depth. */
  lemma {:induction false} UnpackRowsInRange(data: seq<u8>, width: nat, lineSize: nat, depth: BitDepth, rows: nat)
    requires depth.IsSubByte()
    requires width <= Mul(lineSize, SamplesPerByte(depth))
    requires Mul(rows, lineSize) <= |data|
    ensures forall p | 0 <= p < |UnpackRows(data, width, lineSize, depth, rows)| ::
      UnpackRows(data, width, lineSize, depth, rows)[p] <= depth.MaxSample()
    decreases rows
  {
    if rows > 0 {
      UnpackRowsInRange(data, width, lineSize, depth, rows - 1);
      var start := Mul(rows - 1, lineSize);
      ExpandBytesInRange(data[start..start + lineSize], depth);
    }
  }

  /** The byte 0b11100101 read at depths 1 and 2. */
  lemma {:induction false} ExpandByteExamples()
    ensures ExpandByte(229, One) == [1, 1, 1, 0, 0, 1, 0, 1]
    ensures ExpandByte(229, Two) == [3, 2, 1, 1]
    ensures ExpandByte(229, Four) == [14, 5]
  {
    var e1, e2, e4 := ExpandByte(229, One), ExpandByte(229, Two), ExpandByte(229, Four);
    assert e1[0] == 1 && e1[1] == 1 && e1[2] == 1 && e1[3] == 0;
    assert e1[4] == 0 && e1[5] == 1 && e1[6] == 0 && e1[7] == 1;
    assert e2[0] == 3 && e2[1] == 2 && e2[2] == 1 && e2[3] == 1;
    assert e4[0] == 14 && e4[1] == 5;
  }

  /** A high byte is the 16-bit sample divided by 256, rounding down. */
  lemma {:induction false} HighByteTruncates(hi: u8, lo: u8)
    ensures hi == (hi * 256 + lo) / 256
  {
    DivModUnique(hi * 256 + lo, 256, hi, lo);
  }

  /** Keeping the high byte is at most one above the proportional projection `sample / 257`. */
  lemma {:induction false} HighByteNearProportional(hi: u8, lo: u8)
    ensures 0 <= hi - (hi * 256 + lo) / 257 <= 1
  {
  }

  // ----- the unpacker -----

  /**
   * `unpack_one_bit`, `unpack_two_bit` and `unpack_four_bit`: a zeroed buffer of
   * `lineSize * height * spb` samples is filled row by row, row `line` written
   * from offset `line * width`, so the padding samples that end one row are
   * overwritten by the next; the buffer is then truncated to `width * height`.
   */
  method UnpackSubByte(data: seq<u8>, width: nat, height: nat, lineSize: nat, depth: BitDepth)
    returns (output: seq<u8>)
    requires depth.IsSubByte()
    requires width <= Mul(lineSize, SamplesPerByte(depth))
    requires Mul(height, lineSize) <= |data|
    ensures output == UnpackRows(data, width, lineSize, depth, height)
  {
    var spb := SamplesPerByte(depth);
    var bufferLength, kept := BufferSizes(width, height, lineSize, spb);
    var buffer := new u8[bufferLength];
    for line := 0 to height
      invariant Mul(line, lineSize) <= |data| && Mul(line, width) <= buffer.Length
      invariant buffer[..Mul(line, width)] == UnpackRows(data, width, lineSize, depth, line)
    {
      MulMonoLeft(line + 1, height, lineSize);
      MulMonoRight(line, width, Mul(lineSize, spb));
      MulMonoLeft(line + 1, height, Mul(lineSize, spb));
      UnpackLine(buffer, data, width, lineSize, depth, line);
    }
    output := buffer[..kept];
  }

  /** The buffer holds `height` rows of `lineSize * spb` samples, and `width * height` counts the samples kept. */
  method BufferSizes(width: nat, height: nat, lineSize: nat, spb: nat) returns (bufferLength: nat, kept: nat)
    ensures bufferLength == Mul(height, Mul(lineSize, spb))
    ensures kept == Mul(height, width)
  {
    bufferLength := lineSize * height * spb;
    kept := width * height;
    Arith.ProductOfThree(lineSize, height, spb);
    Arith.ProductSwap(width, height);
  }

  /** One pass of the row loop: row `line` is expanded at offset `line * width`. */
  method UnpackLine(buffer: array<u8>, data: seq<u8>, width: nat, lineSize: nat, depth: BitDepth, line: nat)
    requires depth.IsSubByte()
    requires width <= Mul(lineSize, SamplesPerByte(depth))
    requires Mul(line + 1, lineSize) <= |data|
    requires Mul(line, width) + Mul(lineSize, SamplesPerByte(depth)) <= buffer.Length
    requires buffer[..Mul(line, width)] == UnpackRows(data, width, lineSize, depth, line)
    modifies buffer
    ensures buffer[..Mul(line + 1, width)] == UnpackRows(data, width, lineSize, depth, line + 1)
  {
    var rowStart := Mul(line, lineSize);
    var offset := Mul(line, width);
    var rowBytes := data[rowStart..rowStart + lineSize];
    ghost var before := buffer[..offset];
    ExpandRowInto(buffer, offset, rowBytes, depth);
    Slices.TakeJoin(buffer, before, ExpandBytes(rowBytes, depth), width);
    UnpackRowsNext(data, width, lineSize, depth, line);
  }

  /**
   * The loop over the bytes of one row: byte `i` is expanded at `offset + i * spb`;
   * nothing outside the row's samples is written.
   */
  method ExpandRowInto(buffer: array<u8>, offset: nat, rowBytes: seq<u8>, depth: BitDepth)
    requires depth.IsSubByte()
    requires offset + Mul(|rowBytes|, SamplesPerByte(depth)) <= buffer.Length
    modifies buffer
    ensures forall p | 0 <= p < offset :: buffer[p] == old(buffer[p])
    ensures forall p | offset + Mul(|rowBytes|, SamplesPerByte(depth)) <= p < buffer.Length :: buffer[p] == old(buffer[p])
    ensures forall p | 0 <= p < Mul(|rowBytes|, SamplesPerByte(depth)) ::
      buffer[offset + p] == ExpandBytes(rowBytes, depth)[p]
  {
    var spb := SamplesPerByte(depth);
    for i := 0 to |rowBytes|
      invariant Mul(i, spb) <= Mul(|rowBytes|, spb)
      invariant forall p | 0 <= p < offset :: buffer[p] == old(buffer[p])
      invariant forall p | offset + Mul(|rowBytes|, spb) <= p < buffer.Length :: buffer[p] == old(buffer[p])
      invariant forall p | 0 <= p < Mul(i, spb) :: buffer[offset + p] == ExpandBytes(rowBytes, depth)[p]
    {
      var packedByte := rowBytes[i];
      var outputOffset := offset + Mul(i, spb);
      MulMonoLeft(i + 1, |rowBytes|, spb);
      WriteSamples(buffer, outputOffset, packedByte, depth);
      forall p | Mul(i, spb) <= p < Mul(i + 1, spb)
        ensures buffer[offset + p] == ExpandBytes(rowBytes, depth)[p]
      {
        var k := p - Mul(i, spb);
        ExpandBytesAt(rowBytes, depth, i, k);
        assert buffer[outputOffset + k] == Sample(packedByte, depth, k);
      }
    }
  }

  /** The innermost loop: the `spb` samples of one byte, most significant first; nothing outside them is written. */
  method WriteSamples(buffer: array<u8>, offset: nat, packedByte: u8, depth: BitDepth)
    requires depth.IsSubByte()
    requires offset + SamplesPerByte(depth) <= buffer.Length
    modifies buffer
    ensures forall p | 0 <= p < offset :: buffer[p] == old(buffer[p])
    ensures forall p | offset + SamplesPerByte(depth) <= p < buffer.Length :: buffer[p] == old(buffer[p])
    ensures forall k | 0 <= k < SamplesPerByte(depth) :: buffer[offset + k] == Sample(packedByte, depth, k)
  {
    for k := 0 to SamplesPerByte(depth)
      invariant forall p | 0 <= p < offset :: buffer[p] == old(buffer[p])
      invariant forall p | offset + SamplesPerByte(depth) <= p < buffer.Length :: buffer[p] == old(buffer[p])
      invariant forall k' | 0 <= k' < k :: buffer[offset + k'] == Sample(packedByte, depth, k')
    {
      buffer[offset + k] := Sample(packedByte, depth, k);
    }
  }

  /** `unpack_sixteen_bit`: keeps the high (first) byte of every big-endian sample. */
  method UnpackSixteenBit(data: seq<u8>) returns (result: seq<u8>)
    ensures |result| == |data| / 2
    ensures forall i | 0 <= i < |result| :: result[i] == data[2 * i]
  {
    var buffer := new u8[|data| / 2];
    for i := 0 to buffer.Length
      invariant forall j | 0 <= j < i :: buffer[j] == data[2 * j]
    {
      var offset := i * 2;
      buffer[i] := data[offset];
    }
    result := buffer[..];
  }

  /** `unpack`: dispatch on the bit depth; 8-bit data is passed through unchanged. */
  method Unpack(data: seq<u8>, width: nat, height: nat, lineSize: nat, depth: BitDepth)
    returns (samples: seq<u8>)
    requires depth.IsSubByte() ==> width <= Mul(lineSize, SamplesPerByte(depth)) && Mul(height, lineSize) <= |data|
    ensures samples == UnpackSpec(data, width, height, lineSize, depth)
    ensures depth.IsSubByte() ==> |samples| == Mul(height, width)
    ensures forall p | 0 <= p < |samples| :: samples[p] <= depth.MaxSample()
  {
    match depth
    case Eight =>
      samples := data;
    case Sixteen =>
      samples := UnpackSixteenBit(data);
    case _ =>
      samples := UnpackSubByte(data, width, height, lineSize, depth);
      UnpackRowsInRange(data, width, lineSize, depth, height);
  }
}
