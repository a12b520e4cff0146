/**
 * The vocabulary the `png` crate supplies to the converter: bytes, colour
 * types and bit depths, with the per-type sample counts of the PNG standard.
 */
module PngFormat {

  /** An unsigned 8-bit value (Rust `u8`). */
  type u8 = x: int | 0 <= x < 256

  /** Exclusive upper bound of a Rust `u32`. */
  const U32_LIMIT: nat := 0x1_0000_0000

  datatype ColorType = Indexed | Grayscale | GrayscaleAlpha | Rgb | Rgba {
    /** Samples per pixel (`ColorType::samples` of the `png` crate). */
    function Samples(): (n: nat)
      ensures 1 <= n <= 4
    {
      match this
      case Indexed => 1
      case Grayscale => 1
      case GrayscaleAlpha => 2
      case Rgb => 3
      case Rgba => 4
    }
  }

  datatype BitDepth = One | Two | Four | Eight | Sixteen {
    /** Bits per sample (`bit_depth as usize`). */
    function Bits(): (b: nat)
      ensures b in {1, 2, 4, 8, 16}
    {
      match this
      case One => 1
      case Two => 2
      case Four => 4
      case Eight => 8
      case Sixteen => 16
    }

    /** Depths whose samples are packed several to a byte. */
    predicate IsSubByte() {
      this == One || this == Two || this == Four
    }

    /** Largest value a sample of this depth takes once unpacked to one byte. */
    function MaxSample(): (m: u8)
      ensures IsSubByte() <==> m < 255
    {
      match this
      case One => 1
      case Two => 3
      case Four => 15
      case Eight => 255
      case Sixteen => 255
    }
  }

  /**
   * The colour type / bit depth pairs a PNG decoder can deliver: sub-byte
   * depths only for indexed and grey images, no 16-bit palettes.
   */
  predicate ValidCombination(ct: ColorType, bd: BitDepth) {
    match ct
    case Indexed => bd != Sixteen
    case Grayscale => true
    case _ => bd == Eight || bd == Sixteen
  }

  /** Bits per pixel. */
  function Bpp(ct: ColorType, bd: BitDepth): (bpp: nat)
    ensures 1 <= bpp <= 64
  {
    bd.Bits() * ct.Samples()
  }

  /** Bytes of one packed image row, rounded up to a whole byte (`line_size`). */
  function LineSize(width: nat, bpp: nat): nat {
    (width * bpp + 7) / 8
  }
}
