/**
 * The per-pixel colour conversions shared by both chunk types: each takes
 * the unpacked samples of `n` pixels (one byte per sample) and writes 8-bit
 * RGB (3 bytes per pixel) or RGBA (4 bytes per pixel) into a fresh buffer.
 *
 * Every conversion is a method that fills a zeroed array pixel by pixel, as
 * the source does, proved equal to a specification function; the lemmas
 * after each pair say what the specification means pixel by pixel.
 */
module Normalize {
  import opened Wrappers
  import opened PngFormat
  import Arith

  /** Factor that widens a grey sample of the given depth to 0..255. */
  function GrayscaleMultiplier(depth: BitDepth): (m: u8)
    ensures m * depth.MaxSample() == 255
  {
    match depth
    case One => 255
    case Two => 85
    case Four => 17
    case _ => 1
  }

  /**
   * A grey or alpha sample widened to a full byte: black stays black and
   * only the largest sample of the depth becomes white.
   */
  function Scale(v: u8, depth: BitDepth): (grey: u8)
    requires v <= depth.MaxSample()
    ensures grey == 0 <==> v == 0
    ensures grey == 255 <==> v == depth.MaxSample()
  {
    match depth
    case One => 255 * v
    case Two => 85 * v
    case Four => 17 * v
    case _ => v
  }

  /**
   * `input[pixel] * multiplier` is the scaled sample: for samples within the
   * depth the byte multiplication never overflows.
   */
  lemma {:induction false} MultiplierFits(v: u8, depth: BitDepth)
    requires v <= depth.MaxSample()
    ensures v * GrayscaleMultiplier(depth) == Scale(v, depth) <= 255
  {
    match depth
    case One =>
    case Two =>
    case Four =>
    case _ =>
  }

  /** Scaling is strictly increasing, so distinct grey levels stay distinct. */
  lemma {:induction false} ScaleMonotone(v: u8, w: u8, depth: BitDepth)
    requires v < w <= depth.MaxSample()
    ensures Scale(v, depth) < Scale(w, depth)
  {
    match depth
    case One =>
    case Two =>
    case Four =>
    case _ =>
  }

  /** Dividing by the multiplier recovers the sample. */
  lemma {:induction false} ScaleInverse(v: u8, depth: BitDepth)
    requires v <= depth.MaxSample()
    ensures Scale(v, depth) / GrayscaleMultiplier(depth) == v
  {
    match depth
    case One =>
    case Two =>
    case Four =>
    case _ =>
  }

  /** Byte `c` of pixel `p` sits at index `size * p + c`. */
  lemma {:induction false} PixelIndex(size: nat, p: nat, c: nat)
    requires c < size
    ensures (size * p + c) / size == p && (size * p + c) % size == c
  {
    Arith.DivModUnique(size * p + c, size, p, c);
  }

  /** The `size` bytes of pixel `p` in a buffer of `size`-byte pixels. */
  function Pixel(s: seq<u8>, size: nat, p: nat): seq<u8>
    requires size * p + size <= |s|
  {
    s[size * p .. size * p + size]
  }

  // ---------------------------------------------------------------- indexed

  /** Every one of the first `n` samples names a complete palette entry. */
  predicate PaletteCovers(input: seq<u8>, palette: seq<u8>, n: nat) {
    n <= |input| && forall p | 0 <= p < n :: 3 * input[p] + 3 <= |palette|
  }

  function IndexedToRgbSpec(input: seq<u8>, palette: seq<u8>, n: nat): seq<u8>
    requires PaletteCovers(input, palette, n)
  {
    seq(3 * n, i requires 0 <= i < 3 * n => palette[3 * input[i / 3] + i % 3])
  }

  function IndexedToRgbaSpec(input: seq<u8>, palette: seq<u8>, n: nat): seq<u8>
    requires PaletteCovers(input, palette, n)
  {
    seq(4 * n, i requires 0 <= i < 4 * n =>
      if i % 4 == 3 then 255 else palette[3 * input[i / 4] + i % 4])
  }

  /** Pixel `p` of the RGB output is palette entry `input[p]`. */
  lemma {:induction false} IndexedToRgbPixels(input: seq<u8>, palette: seq<u8>, n: nat)
    requires PaletteCovers(input, palette, n)
    ensures |IndexedToRgbSpec(input, palette, n)| == 3 * n
    ensures forall p | 0 <= p < n ::
      Pixel(IndexedToRgbSpec(input, palette, n), 3, p) == Pixel(palette, 3, input[p])
  {
    var r := IndexedToRgbSpec(input, palette, n);
    forall p | 0 <= p < n
      ensures Pixel(r, 3, p) == Pixel(palette, 3, input[p])
    {
      var e := 3 * (input[p] as nat);
      assert r[3 * p] == palette[e];
      assert r[3 * p + 1] == palette[e + 1];
      assert r[3 * p + 2] == palette[e + 2];
    }
  }

  /** Pixel `p` of the RGBA output is palette entry `input[p]`, fully opaque. */
  lemma {:induction false} IndexedToRgbaPixels(input: seq<u8>, palette: seq<u8>, n: nat)
    requires PaletteCovers(input, palette, n)
    ensures |IndexedToRgbaSpec(input, palette, n)| == 4 * n
    ensures forall p | 0 <= p < n ::
      Pixel(IndexedToRgbaSpec(input, palette, n), 4, p) == Pixel(palette, 3, input[p]) + [255]
  {
    var r := IndexedToRgbaSpec(input, palette, n);
    forall p | 0 <= p < n
      ensures Pixel(r, 4, p) == Pixel(palette, 3, input[p]) + [255]
    {
      var e := 3 * (input[p] as nat);
      assert r[4 * p] == palette[e];
      assert r[4 * p + 1] == palette[e + 1];
      assert r[4 * p + 2] == palette[e + 2];
      assert r[4 * p + 3] == 255;
    }
  }

  method IndexedToRgb(input: seq<u8>, palette: seq<u8>, n: nat) returns (output: seq<u8>)
    requires PaletteCovers(input, palette, n)
    ensures output == IndexedToRgbSpec(input, palette, n)
  {
    var buffer := new u8[3 * n];
    for pixel := 0 to n
      invariant forall i | 0 <= i < 3 * pixel :: buffer[i] == palette[3 * input[i / 3] + i % 3]
    {
      var paletteOffset := 3 * (input[pixel] as nat);
      var offset := 3 * pixel;
      buffer[offset] := palette[paletteOffset];
      buffer[offset + 1] := palette[paletteOffset + 1];
      buffer[offset + 2] := palette[paletteOffset + 2];
    }
    output := buffer[..];
  }

  method IndexedToRgba(input: seq<u8>, palette: seq<u8>, n: nat) returns (output: seq<u8>)
    requires PaletteCovers(input, palette, n)
    ensures output == IndexedToRgbaSpec(input, palette, n)
  {
    var buffer := new u8[4 * n];
    for pixel := 0 to n
      invariant forall i | 0 <= i < 4 * pixel ::
        buffer[i] == if i % 4 == 3 then 255 else palette[3 * input[i / 4] + i % 4]
    {
      var paletteOffset := 3 * (input[pixel] as nat);
      var offset := 4 * pixel;
      buffer[offset] := palette[paletteOffset];
      buffer[offset + 1] := palette[paletteOffset + 1];
      buffer[offset + 2] := palette[paletteOffset + 2];
      buffer[offset + 3] := 255;
    }
    output := buffer[..];
  }

  // ---------------------------------------------------------------- grey

  /** The first `count` samples are within the range of the bit depth. */
  predicate SamplesWithin(input: seq<u8>, depth: BitDepth, count: nat) {
    count <= |input| && forall i | 0 <= i < count :: input[i] <= depth.MaxSample()
  }

  function GrayscaleToRgbSpec(input: seq<u8>, depth: BitDepth, n: nat): seq<u8>
    requires SamplesWithin(input, depth, n)
  {
    seq(3 * n, i requires 0 <= i < 3 * n => Scale(input[i / 3], depth))
  }

  function GrayscaleToRgbaSpec(input: seq<u8>, depth: BitDepth, n: nat): seq<u8>
    requires SamplesWithin(input, depth, n)
  {
    seq(4 * n, i requires 0 <= i < 4 * n =>
      if i % 4 == 3 then 255 else Scale(input[i / 4], depth))
  }

  /** Pixel `p` of the RGB output is the scaled grey level in all three channels. */
  lemma {:induction false} GrayscaleToRgbPixels(input: seq<u8>, depth: BitDepth, n: nat)
    requires SamplesWithin(input, depth, n)
    ensures |GrayscaleToRgbSpec(input, depth, n)| == 3 * n
    ensures forall p | 0 <= p < n ::
      var g := Scale(input[p], depth);
      Pixel(GrayscaleToRgbSpec(input, depth, n), 3, p) == [g, g, g]
  {
    var r := GrayscaleToRgbSpec(input, depth, n);
    forall p | 0 <= p < n
      ensures Pixel(r, 3, p) == [Scale(input[p], depth), Scale(input[p], depth), Scale(input[p], depth)]
    {
      assert r[3 * p] == r[3 * p + 1] == r[3 * p + 2] == Scale(input[p], depth);
    }
  }

  /** Pixel `p` of the RGBA output is the scaled grey level, fully opaque. */
  lemma {:induction false} GrayscaleToRgbaPixels(input: seq<u8>, depth: BitDepth, n: nat)
    requires SamplesWithin(input, depth, n)
    ensures |GrayscaleToRgbaSpec(input, depth, n)| == 4 * n
    ensures forall p | 0 <= p < n ::
      var g := Scale(input[p], depth);
      Pixel(GrayscaleToRgbaSpec(input, depth, n), 4, p) == [g, g, g, 255]
  {
    var r := GrayscaleToRgbaSpec(input, depth, n);
    forall p | 0 <= p < n
      ensures Pixel(r, 4, p) == [Scale(input[p], depth), Scale(input[p], depth), Scale(input[p], depth), 255]
    {
      assert r[4 * p] == r[4 * p + 1] == r[4 * p + 2] == Scale(input[p], depth);
      assert r[4 * p + 3] == 255;
      FourBytePixel(r, p);
    }
  }

  method GrayscaleToRgb(input: seq<u8>, depth: BitDepth, n: nat) returns (output: seq<u8>)
    requires SamplesWithin(input, depth, n)
    ensures output == GrayscaleToRgbSpec(input, depth, n)
  {
    var buffer := new u8[3 * n];
    var multiplier := GrayscaleMultiplier(depth);
    for pixel := 0 to n
      invariant forall i | 0 <= i < 3 * pixel :: buffer[i] == Scale(input[i / 3], depth)
    {
      MultiplierFits(input[pixel], depth);
      var grey := input[pixel] * multiplier;
      var offset := 3 * pixel;
      buffer[offset] := grey;
      buffer[offset + 1] := grey;
      buffer[offset + 2] := grey;
    }
    output := buffer[..];
  }

  method GrayscaleToRgba(input: seq<u8>, depth: BitDepth, n: nat) returns (output: seq<u8>)
    requires SamplesWithin(input, depth, n)
    ensures output == GrayscaleToRgbaSpec(input, depth, n)
  {
    var buffer := new u8[4 * n];
    var multiplier := GrayscaleMultiplier(depth);
    for pixel := 0 to n
      invariant forall i | 0 <= i < 4 * pixel ::
        buffer[i] == if i % 4 == 3 then 255 else Scale(input[i / 4], depth)
    {
      MultiplierFits(input[pixel], depth);
      var grey := input[pixel] * multiplier;
      var offset := 4 * pixel;
      buffer[offset] := grey;
      buffer[offset + 1] := grey;
      buffer[offset + 2] := grey;
      buffer[offset + 3] := 255;
    }
    output := buffer[..];
  }

  // ---------------------------------------------------------------- grey + alpha

  function GrayscaleAlphaToRgbSpec(input: seq<u8>, depth: BitDepth, n: nat): seq<u8>
    requires SamplesWithin(input, depth, 2 * n)
  {
    seq(3 * n, i requires 0 <= i < 3 * n => Scale(input[2 * (i / 3)], depth))
  }

  /** Channel `c` of RGBA pixel `q`: the scaled grey level, or the scaled alpha for `c == 3`. */
  function GreyAlphaChannel(input: seq<u8>, depth: BitDepth, q: nat, c: nat): u8
    requires SamplesWithin(input, depth, 2 * q + 2)
  {
    if c == 3 then Scale(input[2 * q + 1], depth) else Scale(input[2 * q], depth)
  }

  function GrayscaleAlphaToRgbaSpec(input: seq<u8>, depth: BitDepth, n: nat): seq<u8>
    requires SamplesWithin(input, depth, 2 * n)
  {
    seq(4 * n, i requires 0 <= i < 4 * n => GreyAlphaChannel(input, depth, i / 4, i % 4))
  }

  /** Pixel `p` of the RGB output is its scaled grey level; the alpha sample is dropped. */
  lemma {:induction false} GrayscaleAlphaToRgbPixels(input: seq<u8>, depth: BitDepth, n: nat)
    requires SamplesWithin(input, depth, 2 * n)
    ensures |GrayscaleAlphaToRgbSpec(input, depth, n)| == 3 * n
    ensures forall p | 0 <= p < n ::
      var g := Scale(Pixel(input, 2, p)[0], depth);
      Pixel(GrayscaleAlphaToRgbSpec(input, depth, n), 3, p) == [g, g, g]
  {
    var r := GrayscaleAlphaToRgbSpec(input, depth, n);
    forall p | 0 <= p < n
      ensures var g := Scale(Pixel(input, 2, p)[0], depth); Pixel(r, 3, p) == [g, g, g]
    {
      assert r[3 * p] == r[3 * p + 1] == r[3 * p + 2] == Scale(input[2 * p], depth);
    }
  }

  /** Pixel `p` of the RGBA output is its grey level in three channels and its alpha, both scaled. */
  lemma {:induction false} GrayscaleAlphaToRgbaPixels(input: seq<u8>, depth: BitDepth, n: nat)
    requires SamplesWithin(input, depth, 2 * n)
    ensures |GrayscaleAlphaToRgbaSpec(input, depth, n)| == 4 * n
    ensures forall p | 0 <= p < n ::
      var g, a := Scale(input[2 * p], depth), Scale(input[2 * p + 1], depth);
      Pixel(GrayscaleAlphaToRgbaSpec(input, depth, n), 4, p) == [g, g, g, a]
  {
    forall p | 0 <= p < n
      ensures var g, a := Scale(input[2 * p], depth), Scale(input[2 * p + 1], depth);
              Pixel(GrayscaleAlphaToRgbaSpec(input, depth, n), 4, p) == [g, g, g, a]
    {
      GrayscaleAlphaToRgbaPixel(input, depth, n, p);
    }
  }

  lemma {:induction false} GrayscaleAlphaToRgbaPixel(input: seq<u8>, depth: BitDepth, n: nat, p: nat)
    requires SamplesWithin(input, depth, 2 * n) && p < n
    ensures var g, a := Scale(input[2 * p], depth), Scale(input[2 * p + 1], depth);
            Pixel(GrayscaleAlphaToRgbaSpec(input, depth, n), 4, p) == [g, g, g, a]
  {
    GrayscaleAlphaChannel(input, depth, n, p, 0);
    GrayscaleAlphaChannel(input, depth, n, p, 1);
    GrayscaleAlphaChannel(input, depth, n, p, 2);
    GrayscaleAlphaChannel(input, depth, n, p, 3);
    FourBytePixel(GrayscaleAlphaToRgbaSpec(input, depth, n), p);
  }

  /** Channel `c` of pixel `p`: the scaled grey level, or the scaled alpha for `c == 3`. */
  lemma {:induction false} GrayscaleAlphaChannel(input: seq<u8>, depth: BitDepth, n: nat, p: nat, c: nat)
    requires SamplesWithin(input, depth, 2 * n) && p < n && c < 4
    ensures 4 * p + c < |GrayscaleAlphaToRgbaSpec(input, depth, n)|
    ensures GrayscaleAlphaToRgbaSpec(input, depth, n)[4 * p + c]
         == if c == 3 then Scale(input[2 * p + 1], depth) else Scale(input[2 * p], depth)
  {
    PixelIndex(4, p, c);
  }

  /** A four-byte pixel is its four bytes. */
  lemma {:induction false} FourBytePixel(s: seq<u8>, p: nat)
    requires 4 * p + 4 <= |s|
    ensures Pixel(s, 4, p) == [s[4 * p], s[4 * p + 1], s[4 * p + 2], s[4 * p + 3]]
  {
  }

  method GrayscaleAlphaToRgb(input: seq<u8>, depth: BitDepth, n: nat) returns (output: seq<u8>)
    requires SamplesWithin(input, depth, 2 * n)
    ensures output == GrayscaleAlphaToRgbSpec(input, depth, n)
  {
    var buffer := new u8[3 * n];
    var multiplier := GrayscaleMultiplier(depth);
    for pixel := 0 to n
      invariant forall i | 0 <= i < 3 * pixel :: buffer[i] == Scale(input[2 * (i / 3)], depth)
    {
      var inputOffset := 2 * pixel;
      MultiplierFits(input[inputOffset], depth);
      var grey := input[inputOffset] * multiplier;
      var offset := 3 * pixel;
      buffer[offset] := grey;
      buffer[offset + 1] := grey;
      buffer[offset + 2] := grey;
    }
    output := buffer[..];
  }

  method GrayscaleAlphaToRgba(input: seq<u8>, depth: BitDepth, n: nat) returns (output: seq<u8>)
    requires SamplesWithin(input, depth, 2 * n)
    ensures output == GrayscaleAlphaToRgbaSpec(input, depth, n)
  {
    var buffer := new u8[4 * n];
    var multiplier := GrayscaleMultiplier(depth);
    for pixel := 0 to n
      invariant forall q, c | 0 <= q < pixel && 0 <= c < 4 :: buffer[4 * q + c] == GreyAlphaChannel(input, depth, q, c)
    {
      var inputOffset := 2 * pixel;
      MultiplierFits(input[inputOffset], depth);
      MultiplierFits(input[inputOffset + 1], depth);
      var grey := input[inputOffset] * multiplier;
      var alpha := input[inputOffset + 1] * multiplier;
      var offset := 4 * pixel;
      buffer[offset] := grey;
      buffer[offset + 1] := grey;
      buffer[offset + 2] := grey;
      buffer[offset + 3] := alpha;
    }
    forall i | 0 <= i < 4 * n
      ensures buffer[i] == GrayscaleAlphaToRgbaSpec(input, depth, n)[i]
    {
      assert buffer[4 * (i / 4) + i % 4] == GreyAlphaChannel(input, depth, i / 4, i % 4);
    }
    output := buffer[..];
  }

  // ---------------------------------------------------------------- true colour

  function RgbToRgbaSpec(input: seq<u8>, n: nat): seq<u8>
    requires 3 * n <= |input|
  {
    seq(4 * n, i requires 0 <= i < 4 * n =>
      if i % 4 == 3 then 255 else input[3 * (i / 4) + i % 4])
  }

  function RgbaToRgbSpec(input: seq<u8>, n: nat): seq<u8>
    requires 4 * n <= |input|
  {
    seq(3 * n, i requires 0 <= i < 3 * n => input[4 * (i / 3) + i % 3])
  }

  /** Pixel `p` of the RGBA output is RGB pixel `p` with an opaque alpha appended. */
  lemma {:induction false} RgbToRgbaPixels(input: seq<u8>, n: nat)
    requires 3 * n <= |input|
    ensures |RgbToRgbaSpec(input, n)| == 4 * n
    ensures forall p | 0 <= p < n :: Pixel(RgbToRgbaSpec(input, n), 4, p) == Pixel(input, 3, p) + [255]
  {
    var r := RgbToRgbaSpec(input, n);
    forall p | 0 <= p < n
      ensures Pixel(r, 4, p) == Pixel(input, 3, p) + [255]
    {
      assert r[4 * p] == input[3 * p];
      assert r[4 * p + 1] == input[3 * p + 1];
      assert r[4 * p + 2] == input[3 * p + 2];
      assert r[4 * p + 3] == 255;
    }
  }

  /** Pixel `p` of the RGB output is RGBA pixel `p` without its alpha. */
  lemma {:induction false} RgbaToRgbPixels(input: seq<u8>, n: nat)
    requires 4 * n <= |input|
    ensures |RgbaToRgbSpec(input, n)| == 3 * n
    ensures forall p | 0 <= p < n :: Pixel(RgbaToRgbSpec(input, n), 3, p) == Pixel(input, 4, p)[..3]
  {
    var r := RgbaToRgbSpec(input, n);
    forall p | 0 <= p < n
      ensures Pixel(r, 3, p) == Pixel(input, 4, p)[..3]
    {
      assert r[3 * p] == input[4 * p];
      assert r[3 * p + 1] == input[4 * p + 1];
      assert r[3 * p + 2] == input[4 * p + 2];
    }
  }

  /** Adding an alpha channel and dropping it again gives back the RGB pixels. */
  lemma {:induction false} RgbRoundTrip(input: seq<u8>, n: nat)
    requires 3 * n <= |input|
    ensures RgbaToRgbSpec(RgbToRgbaSpec(input, n), n) == input[..3 * n]
  {
    var r := RgbToRgbaSpec(input, n);
    var back := RgbaToRgbSpec(r, n);
    forall i | 0 <= i < 3 * n
      ensures back[i] == input[i]
    {
      var p, c := i / 3, i % 3;
      assert back[i] == r[4 * p + c];
      assert r[4 * p + c] == input[3 * p + c];
    }
  }

  /** Dropping the alpha of opaque pixels and adding it again gives back the RGBA pixels. */
  lemma {:induction false} OpaqueRoundTrip(input: seq<u8>, n: nat)
    requires 4 * n <= |input|
    requires forall p | 0 <= p < n :: Pixel(input, 4, p)[3] == 255
    ensures RgbToRgbaSpec(RgbaToRgbSpec(input, n), n) == input[..4 * n]
  {
    var r := RgbaToRgbSpec(input, n);
    var back := RgbToRgbaSpec(r, n);
    forall i | 0 <= i < 4 * n
      ensures back[i] == input[i]
    {
      var p, c := i / 4, i % 4;
      if c == 3 {
        assert Pixel(input, 4, p)[3] == input[i];
      } else {
        assert back[i] == r[3 * p + c];
        assert r[3 * p + c] == input[4 * p + c];
      }
    }
  }

  method RgbToRgba(input: seq<u8>, n: nat) returns (output: seq<u8>)
    requires 3 * n <= |input|
    ensures output == RgbToRgbaSpec(input, n)
  {
    var buffer := new u8[4 * n];
    for pixel := 0 to n
      invariant forall i | 0 <= i < 4 * pixel ::
        buffer[i] == if i % 4 == 3 then 255 else input[3 * (i / 4) + i % 4]
    {
      var inputOffset := 3 * pixel;
      var r, g, b := input[inputOffset], input[inputOffset + 1], input[inputOffset + 2];
      var offset := 4 * pixel;
      buffer[offset] := r;
      buffer[offset + 1] := g;
      buffer[offset + 2] := b;
      buffer[offset + 3] := 255;
    }
    output := buffer[..];
  }

  method RgbaToRgb(input: seq<u8>, n: nat) returns (output: seq<u8>)
    requires 4 * n <= |input|
    ensures output == RgbaToRgbSpec(input, n)
  {
    var buffer := new u8[3 * n];
    for pixel := 0 to n
      invariant forall i | 0 <= i < 3 * pixel :: buffer[i] == input[4 * (i / 3) + i % 3]
    {
      var inputOffset := 4 * pixel;
      var r, g, b := input[inputOffset], input[inputOffset + 1], input[inputOffset + 2];
      var offset := 3 * pixel;
      buffer[offset] := r;
      buffer[offset + 1] := g;
      buffer[offset + 2] := b;
    }
    output := buffer[..];
  }

  // ---------------------------------------------------------------- dispatch

  /**
   * What a conversion to RGB (`withAlpha == false`) or RGBA needs of the
   * unpacked samples of `n` pixels: a palette entry for every index, grey
   * and alpha samples within the bit depth, and enough samples to read. The
   * identity conversions (RGB to RGB, RGBA to RGBA) need nothing.
   */
  predicate Convertible(ct: ColorType, depth: BitDepth, samples: seq<u8>,
                        palette: Option<seq<u8>>, n: nat, withAlpha: bool)
  {
    match ct
    case Indexed => palette.Some? && PaletteCovers(samples, palette.value, n)
    case Grayscale => SamplesWithin(samples, depth, n)
    case GrayscaleAlpha => SamplesWithin(samples, depth, 2 * n)
    case Rgb => withAlpha ==> 3 * n <= |samples|
    case Rgba => !withAlpha ==> 4 * n <= |samples|
  }

  function ToRgbSpec(ct: ColorType, depth: BitDepth, samples: seq<u8>,
                     palette: Option<seq<u8>>, n: nat): seq<u8>
    requires Convertible(ct, depth, samples, palette, n, false)
  {
    match ct
    case Indexed => IndexedToRgbSpec(samples, palette.value, n)
    case Grayscale => GrayscaleToRgbSpec(samples, depth, n)
    case GrayscaleAlpha => GrayscaleAlphaToRgbSpec(samples, depth, n)
    case Rgb => samples
    case Rgba => RgbaToRgbSpec(samples, n)
  }

  function ToRgbaSpec(ct: ColorType, depth: BitDepth, samples: seq<u8>,
                      palette: Option<seq<u8>>, n: nat): seq<u8>
    requires Convertible(ct, depth, samples, palette, n, true)
  {
    match ct
    case Indexed => IndexedToRgbaSpec(samples, palette.value, n)
    case Grayscale => GrayscaleToRgbaSpec(samples, depth, n)
    case GrayscaleAlpha => GrayscaleAlphaToRgbaSpec(samples, depth, n)
    case Rgb => RgbToRgbaSpec(samples, n)
    case Rgba => samples
  }

  /** Converts `n` pixels to RGB, choosing the conversion by colour type. */
  method ToRgb(ct: ColorType, depth: BitDepth, samples: seq<u8>,
               palette: Option<seq<u8>>, n: nat) returns (output: seq<u8>)
    requires Convertible(ct, depth, samples, palette, n, false)
    ensures output == ToRgbSpec(ct, depth, samples, palette, n)
    ensures ct != Rgb ==> |output| == 3 * n
  {
    match ct
    case Indexed => output := IndexedToRgb(samples, palette.value, n);
    case Grayscale => output := GrayscaleToRgb(samples, depth, n);
    case GrayscaleAlpha => output := GrayscaleAlphaToRgb(samples, depth, n);
    case Rgb => output := samples;
    case Rgba => output := RgbaToRgb(samples, n);
  }

  /** Converts `n` pixels to RGBA, choosing the conversion by colour type. */
  method ToRgba(ct: ColorType, depth: BitDepth, samples: seq<u8>,
                palette: Option<seq<u8>>, n: nat) returns (output: seq<u8>)
    requires Convertible(ct, depth, samples, palette, n, true)
    ensures output == ToRgbaSpec(ct, depth, samples, palette, n)
    ensures ct != Rgba ==> |output| == 4 * n
  {
    match ct
    case Indexed => output := IndexedToRgba(samples, palette.value, n);
    case Grayscale => output := GrayscaleToRgba(samples, depth, n);
    case GrayscaleAlpha => output := GrayscaleAlphaToRgba(samples, depth, n);
    case Rgb => output := RgbToRgba(samples, n);
    case Rgba => output := samples;
  }

  /**
   * Whatever the colour type, the RGB conversion is the RGBA conversion with
   * the alpha channel dropped (for true-colour input holding exactly `n`
   * pixels, which the identity conversions pass through unchanged).
   */
  lemma {:induction false} RgbIsRgbaWithoutAlpha(ct: ColorType, depth: BitDepth, samples: seq<u8>,
                                                 palette: Option<seq<u8>>, n: nat)
    requires Convertible(ct, depth, samples, palette, n, false)
    requires Convertible(ct, depth, samples, palette, n, true)
    requires ct == Rgb ==> |samples| == 3 * n
    requires ct == Rgba ==> |samples| == 4 * n
    ensures |ToRgbaSpec(ct, depth, samples, palette, n)| == 4 * n
    ensures ToRgbSpec(ct, depth, samples, palette, n)
         == RgbaToRgbSpec(ToRgbaSpec(ct, depth, samples, palette, n), n)
  {
    match ct
    case Indexed => IndexedDropAlpha(samples, palette.value, n);
    case Grayscale => GrayscaleDropAlpha(samples, depth, n);
    case GrayscaleAlpha => GrayscaleAlphaDropAlpha(samples, depth, n);
    case Rgb =>
      RgbRoundTrip(samples, n);
      assert samples[..3 * n] == samples;
    case Rgba =>
  }

  lemma {:induction false} IndexedDropAlpha(input: seq<u8>, palette: seq<u8>, n: nat)
    requires PaletteCovers(input, palette, n)
    ensures |IndexedToRgbaSpec(input, palette, n)| == 4 * n
    ensures IndexedToRgbSpec(input, palette, n) == RgbaToRgbSpec(IndexedToRgbaSpec(input, palette, n), n)
  {
    var rgba := IndexedToRgbaSpec(input, palette, n);
    forall i | 0 <= i < 3 * n
      ensures IndexedToRgbSpec(input, palette, n)[i] == RgbaToRgbSpec(rgba, n)[i]
    {
      PixelIndex(4, i / 3, i % 3);
    }
  }

  lemma {:induction false} GrayscaleDropAlpha(input: seq<u8>, depth: BitDepth, n: nat)
    requires SamplesWithin(input, depth, n)
    ensures |GrayscaleToRgbaSpec(input, depth, n)| == 4 * n
    ensures GrayscaleToRgbSpec(input, depth, n) == RgbaToRgbSpec(GrayscaleToRgbaSpec(input, depth, n), n)
  {
    var rgba := GrayscaleToRgbaSpec(input, depth, n);
    forall i | 0 <= i < 3 * n
      ensures GrayscaleToRgbSpec(input, depth, n)[i] == RgbaToRgbSpec(rgba, n)[i]
    {
      PixelIndex(4, i / 3, i % 3);
    }
  }

  lemma {:induction false} GrayscaleAlphaDropAlpha(input: seq<u8>, depth: BitDepth, n: nat)
    requires SamplesWithin(input, depth, 2 * n)
    ensures |GrayscaleAlphaToRgbaSpec(input, depth, n)| == 4 * n
    ensures GrayscaleAlphaToRgbSpec(input, depth, n)
         == RgbaToRgbSpec(GrayscaleAlphaToRgbaSpec(input, depth, n), n)
  {
    var rgba := GrayscaleAlphaToRgbaSpec(input, depth, n);
    forall i | 0 <= i < 3 * n
      ensures GrayscaleAlphaToRgbSpec(input, depth, n)[i] == RgbaToRgbSpec(rgba, n)[i]
    {
      PixelIndex(4, i / 3, i % 3);
    }
  }

  /** Only grey-with-alpha and RGBA input produce RGBA pixels that are not fully opaque. */
  lemma {:induction false} OpaqueUnlessAlpha(ct: ColorType, depth: BitDepth, samples: seq<u8>,
                                             palette: Option<seq<u8>>, n: nat)
    requires Convertible(ct, depth, samples, palette, n, true)
    requires ct != GrayscaleAlpha && ct != Rgba
    ensures |ToRgbaSpec(ct, depth, samples, palette, n)| == 4 * n
    ensures forall p | 0 <= p < n :: Pixel(ToRgbaSpec(ct, depth, samples, palette, n), 4, p)[3] == 255
  {
    var r := ToRgbaSpec(ct, depth, samples, palette, n);
    forall p | 0 <= p < n
      ensures Pixel(r, 4, p)[3] == 255
    {
      assert r[4 * p + 3] == 255;
    }
  }
}
