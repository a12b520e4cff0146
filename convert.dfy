/**
 * The DATA format and its two converters (`src/convert.rs`).
 *
 * A DATA file is a header (width and height as little-endian 32-bit
 * integers, then an alpha flag byte) followed by one record per run of
 * equal pixels: a count byte (1..255), then, with alpha, the alpha byte and
 * (only when alpha is not zero) the blue, green and red bytes; without
 * alpha, blue, green and red. Streams are modelled as a byte sequence and a
 * cursor; the PNG reader and writer are not part of this model: decoding
 * yields the 8-bit pixel bytes handed to the PNG writer, and encoding reads
 * the decoded PNG's pixels in row-major order.
 */
module Convert {
  import opened Wrappers
  import opened PngFormat
  import Arith
  import Slices

  datatype DecodeError = UnexpectedEof | ZeroCount

  /** An 8-bit RGBA pixel as the PNG reader reports it. */
  datatype Pixel = Pixel(r: u8, g: u8, b: u8, a: u8)

  datatype Header = Header(width: nat, height: nat, hasAlpha: bool)

  /** What decoding a DATA stream yields: its header and the pixel bytes for the PNG writer. */
  datatype Decoded = Decoded(header: Header, data: seq<u8>)

  // ---------------------------------------------------------------- primitives

  function ReadU8(input: seq<u8>, pos: nat): Result<u8, DecodeError> {
    if pos < |input| then Ok(input[pos]) else Err(UnexpectedEof)
  }

  function ReadBool(input: seq<u8>, pos: nat): Result<bool, DecodeError> {
    if pos < |input| then Ok(input[pos] != 0) else Err(UnexpectedEof)
  }

  /** Little-endian: the first byte is the least significant. */
  function ReadU32(input: seq<u8>, pos: nat): Result<nat, DecodeError> {
    if pos + 4 <= |input| then
      Ok(FromBytes(input[pos], input[pos + 1], input[pos + 2], input[pos + 3]))
    else
      Err(UnexpectedEof)
  }

  function FromBytes(b0: u8, b1: u8, b2: u8, b3: u8): nat {
    b0 as nat + 0x100 * (b1 as nat + 0x100 * (b2 as nat + 0x100 * (b3 as nat)))
  }

  function WriteBool(value: bool): seq<u8> {
    [if value then 1 else 0]
  }

  function WriteU32(value: nat): (bytes: seq<u8>)
    requires value < U32_LIMIT
    ensures |bytes| == 4
  {
    var q1 := value / 0x100;
    var q2 := q1 / 0x100;
    var q3 := q2 / 0x100;
    [value % 0x100, q1 % 0x100, q2 % 0x100, q3]
  }

  /** The four bytes of a value below 2^32 recombine into it. */
  lemma {:induction false} FromBytesOfWrite(value: nat)
    requires value < U32_LIMIT
    ensures var bytes := WriteU32(value); FromBytes(bytes[0], bytes[1], bytes[2], bytes[3]) == value
  {
    var q1 := value / 0x100;
    var q2 := q1 / 0x100;
    assert value == value % 0x100 + 0x100 * q1;
    assert q1 == q1 % 0x100 + 0x100 * q2;
    assert q2 == q2 % 0x100 + 0x100 * (q2 / 0x100);
  }

  /** Four bytes recombined and split again are the same four bytes. */
  lemma {:induction false} WriteOfFromBytes(b0: u8, b1: u8, b2: u8, b3: u8)
    ensures FromBytes(b0, b1, b2, b3) < U32_LIMIT
    ensures WriteU32(FromBytes(b0, b1, b2, b3)) == [b0, b1, b2, b3]
  {
    var q2 := b2 as nat + 0x100 * (b3 as nat);
    var q1 := b1 as nat + 0x100 * q2;
    var value := FromBytes(b0, b1, b2, b3);
    Arith.DivModUnique(value, 0x100, q1, b0);
    Arith.DivModUnique(q1, 0x100, q2, b1);
    Arith.DivModUnique(q2, 0x100, b3, b2);
  }

  /** A 32-bit value written little-endian reads back unchanged, wherever it sits. */
  lemma {:induction false} U32RoundTrip(value: nat, before: seq<u8>, after: seq<u8>)
    requires value < U32_LIMIT
    ensures ReadU32(before + WriteU32(value) + after, |before|) == Ok(value)
  {
    var s := before + WriteU32(value) + after;
    var bytes := WriteU32(value);
    var p := |before|;
    assert s[p] == bytes[0] && s[p + 1] == bytes[1] && s[p + 2] == bytes[2] && s[p + 3] == bytes[3];
    FromBytesOfWrite(value);
  }

  /** Any four bytes read as a 32-bit value and written back give the same bytes. */
  lemma {:induction false} U32BytesRoundTrip(input: seq<u8>, pos: nat)
    requires pos + 4 <= |input|
    ensures ReadU32(input, pos).Ok? && ReadU32(input, pos).value < U32_LIMIT
    ensures WriteU32(ReadU32(input, pos).value) == input[pos..pos + 4]
  {
    WriteOfFromBytes(input[pos], input[pos + 1], input[pos + 2], input[pos + 3]);
  }

  /** A flag written as a byte reads back unchanged. */
  lemma {:induction false} BoolRoundTrip(value: bool, before: seq<u8>, after: seq<u8>)
    ensures ReadBool(before + WriteBool(value) + after, |before|) == Ok(value)
  {
    assert (before + WriteBool(value) + after)[|before|] == if value then 1 else 0;
  }

  // ---------------------------------------------------------------- pixel bytes

  /**
   * The bytes the decoder emits for one pixel: RGB without alpha; with
   * alpha, RGBA, except that a fully transparent pixel is all zeros.
   */
  function PixelBytes(p: Pixel, hasAlpha: bool): (bytes: seq<u8>)
    ensures |bytes| == if hasAlpha then 4 else 3
  {
    if !hasAlpha then [p.r, p.g, p.b]
    else if p.a == 0 then [0, 0, 0, 0]
    else [p.r, p.g, p.b, p.a]
  }

  /** The pixel bytes of a sequence of pixels, in order. */
  function PixelsBytes(pixels: seq<Pixel>, hasAlpha: bool): seq<u8> {
    if |pixels| == 0 then [] else PixelsBytes(pixels[..|pixels| - 1], hasAlpha) + PixelBytes(pixels[|pixels| - 1], hasAlpha)
  }

  /** `n` copies of `s`. */
  function Repeat(s: seq<u8>, n: nat): seq<u8> {
    if n == 0 then [] else Repeat(s, n - 1) + s
  }

  lemma {:induction false} PixelsBytesAppend(xs: seq<Pixel>, ys: seq<Pixel>, hasAlpha: bool)
    ensures PixelsBytes(xs + ys, hasAlpha) == PixelsBytes(xs, hasAlpha) + PixelsBytes(ys, hasAlpha)
    decreases |ys|
  {
    if |ys| > 0 {
      var ys' := ys[..|ys| - 1];
      assert (xs + ys)[..|xs + ys| - 1] == xs + ys';
      PixelsBytesAppend(xs, ys', hasAlpha);
    } else {
      assert xs + ys == xs;
    }
  }

  /** A run of equal pixels decodes to copies of one pixel's bytes. */
  lemma {:induction false} PixelsBytesUniform(pixels: seq<Pixel>, p: Pixel, hasAlpha: bool)
    requires forall j | 0 <= j < |pixels| :: pixels[j] == p
    ensures PixelsBytes(pixels, hasAlpha) == Repeat(PixelBytes(p, hasAlpha), |pixels|)
    decreases |pixels|
  {
    if |pixels| > 0 {
      PixelsBytesUniform(pixels[..|pixels| - 1], p, hasAlpha);
    }
  }

  // ---------------------------------------------------------------- decoding

  /** A record as read: the run length, the pixel as `[r, g, b, a]`, and where the next record starts. */
  datatype Record = Record(count: nat, rgba: seq<u8>, next: nat)

  /**
   * Reads the record at `pos`: the count, then with alpha the alpha byte
   * and, unless it is zero, blue, green and red; without alpha blue, green
   * and red, the alpha slot left zero.
   */
  function ReadRecord(input: seq<u8>, pos: nat, hasAlpha: bool): (r: Result<Record, DecodeError>)
    ensures r.Ok? ==> 1 <= r.value.count <= 255 && pos < r.value.next && |r.value.rgba| == 4
  {
    var count :- ReadU8(input, pos);
    if count == 0 then Err(ZeroCount)
    else if hasAlpha then
      var a :- ReadU8(input, pos + 1);
      if a != 0 then
        var b :- ReadU8(input, pos + 2);
        var g :- ReadU8(input, pos + 3);
        var r :- ReadU8(input, pos + 4);
        Ok(Record(count, [r, g, b, a], pos + 5))
      else
        Ok(Record(count, [0, 0, 0, a], pos + 2))
    else
      var b :- ReadU8(input, pos + 1);
      var g :- ReadU8(input, pos + 2);
      var r :- ReadU8(input, pos + 3);
      Ok(Record(count, [r, g, b, 0], pos + 4))
  }

  function BytesPerPixel(hasAlpha: bool): nat {
    if hasAlpha then 4 else 3
  }

  /** `prefix` in front of a successful result; errors pass through. */
  function Prepend(prefix: seq<u8>, r: Result<seq<u8>, DecodeError>): Result<seq<u8>, DecodeError> {
    match r
    case Ok(rest) => Ok(prefix + rest)
    case Err(e) => Err(e)
  }

  /**
   * The pixel bytes of the records from `pos` on, given that `done` of
   * `total` pixels are already decoded; the last run may overshoot `total`.
   */
  function DecodeRuns(input: seq<u8>, pos: nat, done: nat, total: nat, hasAlpha: bool): Result<seq<u8>, DecodeError>
    decreases total - done
  {
    if done >= total then Ok([])
    else
      var record :- ReadRecord(input, pos, hasAlpha);
      Prepend(Repeat(record.rgba[..BytesPerPixel(hasAlpha)], record.count),
              DecodeRuns(input, record.next, done + record.count, total, hasAlpha))
  }

  function ReadHeader(input: seq<u8>): Result<Header, DecodeError> {
    var width :- ReadU32(input, 0);
    var height :- ReadU32(input, 4);
    var hasAlpha :- ReadBool(input, 8);
    Ok(Header(width, height, hasAlpha))
  }

  /** What `data_to_png` hands to the PNG writer, or why it fails. */
  function DecodeData(input: seq<u8>): Result<Decoded, DecodeError> {
    var header :- ReadHeader(input);
    var data :- DecodeRuns(input, 9, 0, Arith.Mul(header.width, header.height), header.hasAlpha);
    Ok(Decoded(header, data))
  }

  lemma {:induction false} PrependNothing(r: Result<seq<u8>, DecodeError>)
    ensures Prepend([], r) == r
  {
    if r.Ok? {
      assert [] + r.value == r.value;
    }
  }

  lemma {:induction false} PrependTwice(a: seq<u8>, b: seq<u8>, r: Result<seq<u8>, DecodeError>)
    ensures Prepend(a, Prepend(b, r)) == Prepend(a + b, r)
  {
    if r.Ok? {
      assert a + (b + r.value) == a + b + r.value;
    }
  }

  /** One record is decoded: its pixel bytes come first, the remaining records follow. */
  lemma {:induction false} DecodeRunsNext(input: seq<u8>, pos: nat, done: nat, total: nat, hasAlpha: bool)
    requires done < total && ReadRecord(input, pos, hasAlpha).Ok?
    ensures var record := ReadRecord(input, pos, hasAlpha).value;
      DecodeRuns(input, pos, done, total, hasAlpha)
      == Prepend(Repeat(record.rgba[..BytesPerPixel(hasAlpha)], record.count),
                 DecodeRuns(input, record.next, done + record.count, total, hasAlpha))
  {
  }

  /** A record that cannot be read fails the whole decoding with its error. */
  lemma {:induction false} DecodeRunsFails(input: seq<u8>, pos: nat, done: nat, total: nat, hasAlpha: bool)
    requires done < total && ReadRecord(input, pos, hasAlpha).Err?
    ensures DecodeRuns(input, pos, done, total, hasAlpha) == Err(ReadRecord(input, pos, hasAlpha).error)
  {
  }

  /** A zero count is rejected wherever it appears before the image is complete. */
  lemma {:induction false} ZeroCountRejected(input: seq<u8>, pos: nat, done: nat, total: nat, hasAlpha: bool)
    requires done < total && pos < |input| && input[pos] == 0
    ensures DecodeRuns(input, pos, done, total, hasAlpha) == Err(ZeroCount)
  {
  }

  /** A stream that ends before the image is complete is rejected. */
  lemma {:induction false} TruncatedRejected(input: seq<u8>, pos: nat, done: nat, total: nat, hasAlpha: bool)
    requires done < total && pos >= |input|
    ensures DecodeRuns(input, pos, done, total, hasAlpha) == Err(UnexpectedEof)
  {
  }

  /** Appends `count` copies of one pixel's bytes, as the decoder's inner loop does. */
  method AppendRun(data: seq<u8>, pixel: seq<u8>, count: nat) returns (extended: seq<u8>)
    ensures extended == data + Repeat(pixel, count)
  {
    extended := data;
    for n := 0 to count
      invariant extended == data + Repeat(pixel, n)
    {
      extended := extended + pixel;
    }
  }

  /**
   * `data_to_png` up to the PNG writer: reads the header, then record by
   * record appends `count` copies of each pixel until `width * height`
   * pixels are covered.
   */
  method DataToPng(input: seq<u8>) returns (result: Result<Decoded, DecodeError>)
    ensures result == DecodeData(input)
  {
    var width :- ReadU32(input, 0);
    var height :- ReadU32(input, 4);
    var hasAlpha :- ReadBool(input, 8);
    var bytesPerPixel := if hasAlpha then 4 else 3;
    var total := Arith.Times(width, height);
    ghost var expected := DecodeRuns(input, 9, 0, total, hasAlpha);
    var pngData: seq<u8> := [];
    var pos := 9;
    var i := 0;
    PrependNothing(expected);
    while i < total
      invariant Prepend(pngData, DecodeRuns(input, pos, i, total, hasAlpha)) == expected
      decreases total - i
    {
      if ReadRecord(input, pos, hasAlpha).Err? {
        DecodeRunsFails(input, pos, i, total, hasAlpha);
      }
      var record :- ReadRecord(input, pos, hasAlpha);
      var rgbaSlice := record.rgba[..bytesPerPixel];
      ghost var before := pngData;
      pngData := AppendRun(pngData, rgbaSlice, record.count);
      assert Prepend(pngData, DecodeRuns(input, record.next, i + record.count, total, hasAlpha)) == expected by {
        DecodeRunsNext(input, pos, i, total, hasAlpha);
        PrependTwice(before, Repeat(rgbaSlice, record.count), DecodeRuns(input, record.next, i + record.count, total, hasAlpha));
      }
      pos, i := record.next, i + record.count;
    }
    assert pngData + [] == pngData;
    result := Ok(Decoded(Header(width, height, hasAlpha), pngData));
  }

  // ---------------------------------------------------------------- encoding

  /**
   * `count` pixels from `i` on form the run the encoder writes as one
   * record: all equal to pixel `i`, at least one and at most 255, and
   * stopped only by the cap, the end of the image or a different pixel.
   */
  predicate IsRun(pixels: seq<Pixel>, i: nat, count: nat) {
    1 <= count <= 255 && i + count <= |pixels|
    && (forall j | i <= j < i + count :: pixels[j] == pixels[i])
    && (count == 255 || i + count == |pixels| || pixels[i + count] != pixels[i])
  }

  /** The run starting at `i` is determined by the pixels. */
  lemma {:induction false} RunUnique(pixels: seq<Pixel>, i: nat, c1: nat, c2: nat)
    requires IsRun(pixels, i, c1) && IsRun(pixels, i, c2)
    ensures c1 == c2
  {
  }

  /** Grows a run of `count` equal pixels while the next pixel matches and the cap is not reached. */
  function ExtendRun(pixels: seq<Pixel>, i: nat, count: nat): (run: nat)
    requires 1 <= count <= 255 && i + count <= |pixels|
    requires forall j | i <= j < i + count :: pixels[j] == pixels[i]
    ensures IsRun(pixels, i, run) && count <= run
    decreases 255 - count
  {
    if count == 255 || i + count == |pixels| || pixels[i + count] != pixels[i] then count
    else ExtendRun(pixels, i, count + 1)
  }

  /** The length of the run the encoder writes for the pixel at `i`. */
  function RunLength(pixels: seq<Pixel>, i: nat): (count: nat)
    requires i < |pixels|
    ensures IsRun(pixels, i, count)
  {
    ExtendRun(pixels, i, 1)
  }

  /** A record: the count, then alpha and (unless transparent) blue, green, red; or blue, green, red without alpha. */
  function EncodeRecord(count: u8, p: Pixel, hasAlpha: bool): (bytes: seq<u8>)
    ensures |bytes| == (if !hasAlpha then 4 else if p.a == 0 then 2 else 5) && bytes[0] == count
  {
    if hasAlpha then
      if p.a != 0 then [count, p.a, p.b, p.g, p.r] else [count, p.a]
    else
      [count, p.b, p.g, p.r]
  }

  /** The records for the pixels from `i` on, one per run. */
  function EncodeRuns(pixels: seq<Pixel>, i: nat, hasAlpha: bool): seq<u8>
    decreases |pixels| - i
  {
    if i >= |pixels| then []
    else
      var count := RunLength(pixels, i);
      EncodeRecord(count, pixels[i], hasAlpha) + EncodeRuns(pixels, i + count, hasAlpha)
  }

  /** The whole DATA stream `png_to_data` writes. */
  function EncodeData(width: nat, height: nat, hasAlpha: bool, pixels: seq<Pixel>): seq<u8>
    requires width < U32_LIMIT && height < U32_LIMIT
  {
    WriteU32(width) + WriteU32(height) + WriteBool(hasAlpha) + EncodeRuns(pixels, 0, hasAlpha)
  }

  /** Runs of one pixel are split at 255: `n` equal pixels give records of 255 and a last one of the rest. */
  lemma {:induction false} UniformRunLength(pixels: seq<Pixel>, p: Pixel, i: nat)
    requires forall j | 0 <= j < |pixels| :: pixels[j] == p
    requires i < |pixels|
    ensures RunLength(pixels, i) == if |pixels| - i < 255 then |pixels| - i else 255
  {
    var c := if |pixels| - i < 255 then |pixels| - i else 255;
    assert IsRun(pixels, i, c);
    RunUnique(pixels, i, c, RunLength(pixels, i));
  }

  /** The counts of the records the encoder writes for the pixels from `i` on, in order. */
  function RunCounts(pixels: seq<Pixel>, i: nat): seq<nat>
    decreases |pixels| - i
  {
    if i >= |pixels| then []
    else
      var count := RunLength(pixels, i);
      [count] + RunCounts(pixels, i + count)
  }

  /** Every count is in 1..255 and together they cover exactly the pixels from `i` on. */
  lemma {:induction false} RunCountsCover(pixels: seq<Pixel>, i: nat)
    requires i <= |pixels|
    ensures forall k | 0 <= k < |RunCounts(pixels, i)| :: 1 <= RunCounts(pixels, i)[k] <= 255
    ensures Arith.Sum(RunCounts(pixels, i)) == |pixels| - i
    decreases |pixels| - i
  {
    if i < |pixels| {
      var count := RunLength(pixels, i);
      var rest := RunCounts(pixels, i + count);
      RunCountsCover(pixels, i + count);
      assert RunCounts(pixels, i) == [count] + rest;
      assert ([count] + rest)[1..] == rest;
    }
  }

  /**
   * `png_to_data` after the PNG reader: writes the header, then for each
   * run of up to 255 equal pixels (in row-major order) one record.
   */
  method PngToData(width: nat, height: nat, hasAlpha: bool, pixels: seq<Pixel>) returns (output: seq<u8>)
    requires width < U32_LIMIT && height < U32_LIMIT && |pixels| == Arith.Mul(width, height)
    ensures output == EncodeData(width, height, hasAlpha, pixels)
    ensures DecodeData(output) == Ok(Decoded(Header(width, height, hasAlpha), PixelsBytes(pixels, hasAlpha)))
  {
    output := WriteU32(width) + WriteU32(height) + WriteBool(hasAlpha);
    ghost var target := output + EncodeRuns(pixels, 0, hasAlpha);
    var total := Arith.Times(width, height);
    var i: nat := 0;
    while i < total
      invariant i <= total
      invariant output + EncodeRuns(pixels, i, hasAlpha) == target
      decreases total - i
    {
      var count;
      output, count := WriteRun(output, pixels, i, hasAlpha, target);
      i := i + count;
    }
    assert output == output + EncodeRuns(pixels, i, hasAlpha);
    DataRoundTrip(width, height, hasAlpha, pixels);
  }

  /** One pass of the encoder's loop: measures the run at `i` and writes its record. */
  method WriteRun(output: seq<u8>, pixels: seq<Pixel>, i: nat, hasAlpha: bool, ghost target: seq<u8>) returns (written: seq<u8>, count: u8)
    requires i < |pixels|
    requires output + EncodeRuns(pixels, i, hasAlpha) == target
    ensures count == RunLength(pixels, i) && i + count <= |pixels|
    ensures written + EncodeRuns(pixels, i + count, hasAlpha) == target
  {
    var rgba := pixels[i];
    count := MeasureRun(pixels, i);
    written := WriteRecord(output, count, rgba, hasAlpha);
    EncodeRunsNext(pixels, i, hasAlpha, output);
  }

  /** Writes one record as the encoder does, byte by byte. */
  method WriteRecord(output: seq<u8>, count: u8, rgba: Pixel, hasAlpha: bool) returns (written: seq<u8>)
    ensures written == output + EncodeRecord(count, rgba, hasAlpha)
  {
    written := output + [count];
    if hasAlpha {
      written := written + [rgba.a];
      if rgba.a != 0 {
        written := written + [rgba.b] + [rgba.g] + [rgba.r];
      }
    } else {
      written := written + [rgba.b] + [rgba.g] + [rgba.r];
    }
  }

  /** The records from `i` on are the record of the run at `i`, then the records after it. */
  lemma {:induction false} EncodeRunsNext(pixels: seq<Pixel>, i: nat, hasAlpha: bool, before: seq<u8>)
    requires i < |pixels|
    ensures before + EncodeRuns(pixels, i, hasAlpha)
         == (before + EncodeRecord(RunLength(pixels, i), pixels[i], hasAlpha)) + EncodeRuns(pixels, i + RunLength(pixels, i), hasAlpha)
  {
    var record := EncodeRecord(RunLength(pixels, i), pixels[i], hasAlpha);
    var rest := EncodeRuns(pixels, i + RunLength(pixels, i), hasAlpha);
    assert EncodeRuns(pixels, i, hasAlpha) == record + rest;
    Slices.AppendAssoc(before, record, rest);
  }

  /** The encoder's look-ahead: counts the pixels equal to pixel `i`, stopping at the end, a different pixel or 255. */
  method MeasureRun(pixels: seq<Pixel>, i: nat) returns (count: u8)
    requires i < |pixels|
    ensures count == RunLength(pixels, i)
  {
    var rgba := pixels[i];
    count := 1;
    while true
      invariant 1 <= count < 255 && i + count <= |pixels|
      invariant forall j | i <= j < i + count :: pixels[j] == rgba
      decreases 255 - count
    {
      if i + count >= |pixels| {
        break;
      }
      if pixels[i + count] != rgba {
        break;
      }
      count := count + 1;
      if count == 255 {
        break;
      }
    }
    RunUnique(pixels, i, count, RunLength(pixels, i));
  }

  // ---------------------------------------------------------------- round trip

  /** `bytes` occur in `input` at `pos`. */
  predicate Contains(input: seq<u8>, pos: nat, bytes: seq<u8>) {
    pos + |bytes| <= |input| && input[pos..pos + |bytes|] == bytes
  }

  /** A record written for `count` copies of `p` reads back as that count and `p`'s pixel bytes. */
  lemma {:induction false} RecordRoundTrip(count: u8, p: Pixel, hasAlpha: bool, input: seq<u8>, pos: nat)
    requires 1 <= count
    requires Contains(input, pos, EncodeRecord(count, p, hasAlpha))
    ensures var r := ReadRecord(input, pos, hasAlpha);
      r.Ok? && r.value.count == count && r.value.next == pos + |EncodeRecord(count, p, hasAlpha)|
      && r.value.rgba[..BytesPerPixel(hasAlpha)] == PixelBytes(p, hasAlpha)
  {
    var e := EncodeRecord(count, p, hasAlpha);
    forall j | 0 <= j < |e|
      ensures input[pos + j] == e[j]
    {
      assert input[pos..pos + |e|][j] == e[j];
    }
  }

  /** Pixels that start with `count` copies of `p`: their bytes are `count` copies of `p`'s, then the rest's. */
  lemma {:induction false} PixelsBytesSplit(xs: seq<Pixel>, p: Pixel, count: nat, hasAlpha: bool)
    requires count <= |xs|
    requires forall j | 0 <= j < count :: xs[j] == p
    ensures PixelsBytes(xs, hasAlpha) == Repeat(PixelBytes(p, hasAlpha), count) + PixelsBytes(xs[count..], hasAlpha)
  {
    PixelsBytesUniform(xs[..count], p, hasAlpha);
    assert xs == xs[..count] + xs[count..];
    PixelsBytesAppend(xs[..count], xs[count..], hasAlpha);
  }

  /** The bytes of the pixels from `i` on: the run at `i`, then the rest. */
  lemma {:induction false} PixelsBytesAfterRun(pixels: seq<Pixel>, i: nat, hasAlpha: bool)
    requires i < |pixels|
    ensures var count := RunLength(pixels, i);
      PixelsBytes(pixels[i..], hasAlpha)
      == Repeat(PixelBytes(pixels[i], hasAlpha), count) + PixelsBytes(pixels[i + count..], hasAlpha)
  {
    var count := RunLength(pixels, i);
    var xs := pixels[i..];
    forall j | 0 <= j < count
      ensures xs[j] == pixels[i]
    {
      assert xs[j] == pixels[i + j];
    }
    PixelsBytesSplit(xs, pixels[i], count, hasAlpha);
    assert xs[count..] == pixels[i + count..];
  }

  /** Where the records after the first run start, given the runs from `i` start at `pos`. */
  function NextRecordAt(pixels: seq<Pixel>, i: nat, hasAlpha: bool, pos: nat): nat
    requires i < |pixels|
  {
    pos + |EncodeRecord(RunLength(pixels, i), pixels[i], hasAlpha)|
  }

  /** Bytes found at `pos` that are `a` then `b`: `a` is found at `pos` and `b` right after it. */
  lemma {:induction false} ContainsSplit(input: seq<u8>, pos: nat, a: seq<u8>, b: seq<u8>)
    requires Contains(input, pos, a + b)
    ensures Contains(input, pos, a) && Contains(input, pos + |a|, b)
  {
    var w := input[pos..pos + |a + b|];
    assert input[pos..pos + |a|] == w[..|a|] == a;
    assert input[pos + |a|..pos + |a| + |b|] == w[|a|..] == b;
  }

  /** After the first record of the runs from `i`, the records of the remaining runs follow. */
  lemma {:induction false} RestOfRuns(pixels: seq<Pixel>, i: nat, hasAlpha: bool, input: seq<u8>, pos: nat)
    requires i < |pixels|
    requires Contains(input, pos, EncodeRuns(pixels, i, hasAlpha))
    ensures i + RunLength(pixels, i) <= |pixels|
    ensures Contains(input, NextRecordAt(pixels, i, hasAlpha, pos), EncodeRuns(pixels, i + RunLength(pixels, i), hasAlpha))
  {
    var count := RunLength(pixels, i);
    var record := EncodeRecord(count, pixels[i], hasAlpha);
    assert EncodeRuns(pixels, i, hasAlpha) == record + EncodeRuns(pixels, i + count, hasAlpha);
    ContainsSplit(input, pos, record, EncodeRuns(pixels, i + count, hasAlpha));
    assert NextRecordAt(pixels, i, hasAlpha, pos) == pos + |record|;
  }

  /** The first of the records for the runs from `i` reads back as the first run. */
  lemma {:induction false} FirstRecord(pixels: seq<Pixel>, i: nat, hasAlpha: bool, input: seq<u8>, pos: nat)
    requires i < |pixels|
    requires Contains(input, pos, EncodeRuns(pixels, i, hasAlpha))
    ensures var r := ReadRecord(input, pos, hasAlpha);
      r.Ok? && r.value.count == RunLength(pixels, i) && r.value.next == NextRecordAt(pixels, i, hasAlpha, pos)
      && r.value.rgba[..BytesPerPixel(hasAlpha)] == PixelBytes(pixels[i], hasAlpha)
  {
    var count := RunLength(pixels, i);
    var record := EncodeRecord(count, pixels[i], hasAlpha);
    assert EncodeRuns(pixels, i, hasAlpha) == record + EncodeRuns(pixels, i + count, hasAlpha);
    ContainsSplit(input, pos, record, EncodeRuns(pixels, i + count, hasAlpha));
    RecordRoundTrip(count, pixels[i], hasAlpha, input, pos);
  }

  /** If the records after the first run decode to the remaining pixels, all the records decode to all of them. */
  lemma {:induction false} FirstRunRoundTrip(pixels: seq<Pixel>, i: nat, hasAlpha: bool, input: seq<u8>, pos: nat)
    requires i < |pixels|
    requires Contains(input, pos, EncodeRuns(pixels, i, hasAlpha))
    requires i + RunLength(pixels, i) <= |pixels|
    requires DecodeRuns(input, NextRecordAt(pixels, i, hasAlpha, pos), i + RunLength(pixels, i), |pixels|, hasAlpha)
          == Ok(PixelsBytes(pixels[i + RunLength(pixels, i)..], hasAlpha))
    ensures DecodeRuns(input, pos, i, |pixels|, hasAlpha) == Ok(PixelsBytes(pixels[i..], hasAlpha))
  {
    FirstRecord(pixels, i, hasAlpha, input, pos);
    DecodeRunsNext(input, pos, i, |pixels|, hasAlpha);
    PixelsBytesAfterRun(pixels, i, hasAlpha);
  }

  /** The records for the pixels from `i` on, found at `pos`, decode to exactly those pixels' bytes. */
  lemma {:induction false} RunsRoundTrip(pixels: seq<Pixel>, i: nat, hasAlpha: bool, input: seq<u8>, pos: nat)
    requires i <= |pixels|
    requires Contains(input, pos, EncodeRuns(pixels, i, hasAlpha))
    ensures DecodeRuns(input, pos, i, |pixels|, hasAlpha) == Ok(PixelsBytes(pixels[i..], hasAlpha))
    decreases |pixels| - i
  {
    if i == |pixels| {
      assert pixels[i..] == [];
    } else {
      RestOfRuns(pixels, i, hasAlpha, input, pos);
      RunsRoundTrip(pixels, i + RunLength(pixels, i), hasAlpha, input, NextRecordAt(pixels, i, hasAlpha, pos));
      FirstRunRoundTrip(pixels, i, hasAlpha, input, pos);
    }
  }

  /** The header the encoder writes reads back, and whatever follows it starts at byte 9. */
  lemma {:induction false} HeaderRoundTrip(width: nat, height: nat, hasAlpha: bool, runs: seq<u8>)
    requires width < U32_LIMIT && height < U32_LIMIT
    ensures var s := WriteU32(width) + WriteU32(height) + WriteBool(hasAlpha) + runs;
      ReadHeader(s) == Ok(Header(width, height, hasAlpha)) && Contains(s, 9, runs)
  {
    var s := WriteU32(width) + WriteU32(height) + WriteBool(hasAlpha) + runs;
    assert ReadU32(s, 0) == Ok(width) by {
      U32RoundTrip(width, [], WriteU32(height) + WriteBool(hasAlpha) + runs);
      assert s == [] + WriteU32(width) + (WriteU32(height) + WriteBool(hasAlpha) + runs);
    }
    assert ReadU32(s, 4) == Ok(height) by {
      U32RoundTrip(height, WriteU32(width), WriteBool(hasAlpha) + runs);
      assert s == WriteU32(width) + WriteU32(height) + (WriteBool(hasAlpha) + runs);
    }
    assert ReadBool(s, 8) == Ok(hasAlpha) by {
      BoolRoundTrip(hasAlpha, WriteU32(width) + WriteU32(height), runs);
    }
    assert s[9..9 + |runs|] == runs;
  }

  /** Decoding what the encoder writes gives back the header and the bytes of every pixel, in order. */
  lemma {:induction false} DataRoundTrip(width: nat, height: nat, hasAlpha: bool, pixels: seq<Pixel>)
    requires width < U32_LIMIT && height < U32_LIMIT && |pixels| == Arith.Mul(width, height)
    ensures DecodeData(EncodeData(width, height, hasAlpha, pixels))
         == Ok(Decoded(Header(width, height, hasAlpha), PixelsBytes(pixels, hasAlpha)))
  {
    var s := EncodeData(width, height, hasAlpha, pixels);
    HeaderRoundTrip(width, height, hasAlpha, EncodeRuns(pixels, 0, hasAlpha));
    RunsRoundTrip(pixels, 0, hasAlpha, s, 9);
    assert pixels[0..] == pixels;
  }

  // ---------------------------------------------------------------- second conversion

  /** The pixel a record describes, as the PNG reader reports it: opaque when the image has no alpha. */
  function RecordPixel(record: Record, hasAlpha: bool): Pixel
    requires |record.rgba| == 4
  {
    Pixel(record.rgba[0], record.rgba[1], record.rgba[2], if hasAlpha then record.rgba[3] else 255)
  }

  /** `n` copies of pixel `p`. */
  function Copies(p: Pixel, n: nat): (pixels: seq<Pixel>)
    ensures |pixels| == n && forall j | 0 <= j < n :: pixels[j] == p
  {
    seq(n, _ => p)
  }

  /**
   * The pixels the records from `pos` on describe, `count` copies of each,
   * up to and including the record that reaches `total`.
   */
  function DecodedPixels(input: seq<u8>, pos: nat, done: nat, total: nat, hasAlpha: bool): seq<Pixel>
    decreases total - done
  {
    if done >= total then []
    else
      match ReadRecord(input, pos, hasAlpha)
      case Err(_) => []
      case Ok(record) =>
        Copies(RecordPixel(record, hasAlpha), record.count) + DecodedPixels(input, record.next, done + record.count, total, hasAlpha)
  }

  /** One record's pixels come first, the remaining records' pixels follow. */
  lemma {:induction false} DecodedPixelsNext(input: seq<u8>, pos: nat, done: nat, total: nat, hasAlpha: bool)
    requires done < total && ReadRecord(input, pos, hasAlpha).Ok?
    ensures var record := ReadRecord(input, pos, hasAlpha).value;
      DecodedPixels(input, pos, done, total, hasAlpha)
      == Copies(RecordPixel(record, hasAlpha), record.count) + DecodedPixels(input, record.next, done + record.count, total, hasAlpha)
  {
  }

  /** A pixel as the PNG writer stores it after decoding: transparent is all zeros; without alpha, opaque. */
  predicate Normal(p: Pixel, hasAlpha: bool) {
    if hasAlpha then p.a == 0 ==> p == Pixel(0, 0, 0, 0) else p.a == 255
  }

  /** The bytes the decoder emits for a record are its pixel's bytes, and that pixel is normal. */
  lemma {:induction false} RecordPixelBytes(input: seq<u8>, pos: nat, hasAlpha: bool)
    requires ReadRecord(input, pos, hasAlpha).Ok?
    ensures var record := ReadRecord(input, pos, hasAlpha).value;
      PixelBytes(RecordPixel(record, hasAlpha), hasAlpha) == record.rgba[..BytesPerPixel(hasAlpha)]
      && Normal(RecordPixel(record, hasAlpha), hasAlpha)
  {
  }

  /** A successful decoding emits exactly the bytes of the pixels its records describe. */
  lemma {:induction false} DecodeRunsPixels(input: seq<u8>, pos: nat, done: nat, total: nat, hasAlpha: bool)
    requires DecodeRuns(input, pos, done, total, hasAlpha).Ok?
    ensures DecodeRuns(input, pos, done, total, hasAlpha).value == PixelsBytes(DecodedPixels(input, pos, done, total, hasAlpha), hasAlpha)
    decreases total - done
  {
    if done < total {
      var record := ReadRecord(input, pos, hasAlpha).value;
      var p := RecordPixel(record, hasAlpha);
      var rest := DecodedPixels(input, record.next, done + record.count, total, hasAlpha);
      var bytes := Repeat(PixelBytes(p, hasAlpha), record.count) + PixelsBytes(rest, hasAlpha);
      assert DecodeRuns(input, pos, done, total, hasAlpha).value == bytes by {
        DecodeRunsNext(input, pos, done, total, hasAlpha);
        DecodeRunsPixels(input, record.next, done + record.count, total, hasAlpha);
        RecordPixelBytes(input, pos, hasAlpha);
      }
      assert PixelsBytes(DecodedPixels(input, pos, done, total, hasAlpha), hasAlpha) == bytes by {
        DecodedPixelsNext(input, pos, done, total, hasAlpha);
        RunThenRest(p, record.count, rest, hasAlpha);
      }
    }
  }

  /** The bytes of `count` copies of `p` and then `rest`. */
  lemma {:induction false} RunThenRest(p: Pixel, count: nat, rest: seq<Pixel>, hasAlpha: bool)
    ensures PixelsBytes(Copies(p, count) + rest, hasAlpha) == Repeat(PixelBytes(p, hasAlpha), count) + PixelsBytes(rest, hasAlpha)
  {
    PixelsBytesUniform(Copies(p, count), p, hasAlpha);
    PixelsBytesAppend(Copies(p, count), rest, hasAlpha);
  }

  /** Every pixel the records describe is normal. */
  lemma {:induction false} DecodedPixelsNormal(input: seq<u8>, pos: nat, done: nat, total: nat, hasAlpha: bool)
    ensures forall j | 0 <= j < |DecodedPixels(input, pos, done, total, hasAlpha)| ::
      Normal(DecodedPixels(input, pos, done, total, hasAlpha)[j], hasAlpha)
    decreases total - done
  {
    if done < total && ReadRecord(input, pos, hasAlpha).Ok? {
      var record := ReadRecord(input, pos, hasAlpha).value;
      var run := Copies(RecordPixel(record, hasAlpha), record.count);
      var rest := DecodedPixels(input, record.next, done + record.count, total, hasAlpha);
      DecodedPixelsNormal(input, record.next, done + record.count, total, hasAlpha);
      RecordPixelBytes(input, pos, hasAlpha);
      DecodedPixelsNext(input, pos, done, total, hasAlpha);
      forall j | 0 <= j < |run + rest|
        ensures Normal((run + rest)[j], hasAlpha)
      {
        if j < |run| {
          assert (run + rest)[j] == RecordPixel(record, hasAlpha);
        } else {
          assert (run + rest)[j] == rest[j - |run|];
        }
      }
    }
  }

  /**
   * The pixels of a successful decoding cover the `total - done` pixels
   * still missing and overshoot by at most 254, the last record's count
   * less one.
   */
  lemma {:induction false} DecodedPixelsCover(input: seq<u8>, pos: nat, done: nat, total: nat, hasAlpha: bool)
    requires DecodeRuns(input, pos, done, total, hasAlpha).Ok?
    ensures var n := |DecodedPixels(input, pos, done, total, hasAlpha)|;
      (done >= total ==> n == 0) && (done < total ==> total - done <= n < total - done + 255)
    decreases total - done
  {
    if done < total {
      var record := ReadRecord(input, pos, hasAlpha).value;
      DecodedPixelsCover(input, record.next, done + record.count, total, hasAlpha);
    }
  }

  lemma {:induction false} PixelsBytesLength(pixels: seq<Pixel>, hasAlpha: bool)
    ensures |PixelsBytes(pixels, hasAlpha)| == Arith.Mul(|pixels|, BytesPerPixel(hasAlpha))
  {
    if |pixels| > 0 {
      PixelsBytesLength(pixels[..|pixels| - 1], hasAlpha);
    }
  }

  /** The decoder emits `bytes_per_pixel` bytes per pixel its records count. */
  lemma {:induction false} DecodeRunsLength(input: seq<u8>, pos: nat, done: nat, total: nat, hasAlpha: bool)
    requires DecodeRuns(input, pos, done, total, hasAlpha).Ok?
    ensures |DecodeRuns(input, pos, done, total, hasAlpha).value|
         == Arith.Mul(|DecodedPixels(input, pos, done, total, hasAlpha)|, BytesPerPixel(hasAlpha))
  {
    DecodeRunsPixels(input, pos, done, total, hasAlpha);
    PixelsBytesLength(DecodedPixels(input, pos, done, total, hasAlpha), hasAlpha);
  }

  /**
   * The pixels a PNG reader reports for 8-bit RGB or RGBA bytes, in order:
   * without alpha every pixel is opaque; a trailing partial pixel is ignored.
   */
  function BytesPixels(bytes: seq<u8>, hasAlpha: bool): seq<Pixel>
    decreases |bytes|
  {
    var n := BytesPerPixel(hasAlpha);
    if |bytes| < n then []
    else
      var last := bytes[|bytes| - n..];
      BytesPixels(bytes[..|bytes| - n], hasAlpha)
      + [Pixel(last[0], last[1], last[2], if hasAlpha then last[3] else 255)]
  }

  /** Normal pixels written as bytes are read back as the same pixels. */
  lemma {:induction false} ReadBackPixels(pixels: seq<Pixel>, hasAlpha: bool)
    requires forall j | 0 <= j < |pixels| :: Normal(pixels[j], hasAlpha)
    ensures BytesPixels(PixelsBytes(pixels, hasAlpha), hasAlpha) == pixels
    decreases |pixels|
  {
    if |pixels| > 0 {
      var init := pixels[..|pixels| - 1];
      var last := pixels[|pixels| - 1];
      var front := PixelsBytes(init, hasAlpha);
      var tail := PixelBytes(last, hasAlpha);
      ReadBackPixels(init, hasAlpha);
      var bytes := front + tail;
      assert bytes[..|bytes| - |tail|] == front;
      assert bytes[|bytes| - |tail|..] == tail;
      assert pixels == init + [last];
    }
  }

  /**
   * A DATA file converted to PNG, read back and converted to DATA again
   * converts to the same PNG: once the PNG writer has accepted the decoded
   * bytes (exactly `width * height` pixels), the pixels it stores encode
   * to a stream that decodes to the same header and bytes.
   */
  lemma {:induction false} SecondConversionStable(input: seq<u8>, header: Header, data: seq<u8>)
    requires DecodeData(input) == Ok(Decoded(header, data))
    requires |data| == Arith.Mul(Arith.Mul(header.width, header.height), BytesPerPixel(header.hasAlpha))
    ensures header.width < U32_LIMIT && header.height < U32_LIMIT
    ensures |BytesPixels(data, header.hasAlpha)| == Arith.Mul(header.width, header.height)
    ensures DecodeData(EncodeData(header.width, header.height, header.hasAlpha, BytesPixels(data, header.hasAlpha)))
         == Ok(Decoded(header, data))
  {
    var total := Arith.Mul(header.width, header.height);
    U32BytesRoundTrip(input, 0);
    U32BytesRoundTrip(input, 4);
    var pixels := DecodedPixels(input, 9, 0, total, header.hasAlpha);
    DecodeRunsPixels(input, 9, 0, total, header.hasAlpha);
    DecodedPixelsNormal(input, 9, 0, total, header.hasAlpha);
    ReadBackPixels(pixels, header.hasAlpha);
    PixelsBytesLength(pixels, header.hasAlpha);
    Arith.MulCancel(|pixels|, total, BytesPerPixel(header.hasAlpha));
    DataRoundTrip(header.width, header.height, header.hasAlpha, pixels);
  }
}
