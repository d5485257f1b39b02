/**
 * The in-memory image the codec works on: what PIL's `Image.open(...).load()`
 * gives, a width x height grid of pixels, each a tuple of 8-bit channel values
 * with at least R, G and B (an alpha channel, if present, comes fourth).
 */
module Raster {
  import opened BitCodec

  /** An 8-bit channel value. */
  type Channel = bv8

  type Pixel = p: seq<Channel> | 3 <= |p| witness [0, 0, 0]

  /** `str(channel & 1)`: the least significant bit of a channel. */
  function Lsb(v: Channel): Bit {
    if v & 1 == 0 then 0 else 1
  }

  /** `channel &= 254; channel |= bit`: the LSB becomes `bit`, the upper seven bits stay. */
  function SetLsb(v: Channel, bit: Bit): (r: Channel)
    ensures Lsb(r) == bit && r & 0xFE == v & 0xFE
  {
    (v & 254) | (if bit == 0 then 0 else 1)
  }

  /**
   * The LSBs of the R, G and B channels of `pixels`, taken pixel by pixel and
   * channel by channel: the k-th bit is the LSB of channel k % 3 of pixel k / 3.
   */
  function LsbStream(pixels: seq<Pixel>): (r: seq<Bit>)
    ensures |r| == 3 * |pixels|
    ensures forall p, c :: 0 <= p < |pixels| && 0 <= c < 3 ==> r[3 * p + c] == Lsb(pixels[p][c])
  {
    seq(3 * |pixels|, k requires 0 <= k < 3 * |pixels| => Lsb(pixels[k / 3][k % 3]))
  }

  lemma LsbStreamAt(pixels: seq<Pixel>, p: nat, c: nat)
    requires p < |pixels| && c < 3
    ensures 3 * p + c < |LsbStream(pixels)| && LsbStream(pixels)[3 * p + c] == Lsb(pixels[p][c])
  {
  }

  /** Pixel (x, y) of a width x height grid laid out row by row sits at y * width + x. */
  lemma RowMajorIndex(x: nat, y: nat, width: nat, height: nat)
    requires x < width && y < height
    ensures y * width + x < width * height
  {
    assert y * width + x < (y + 1) * width;
    assert (y + 1) * width <= height * width;
  }

  /**
   * A decoded image: `width` x `height` pixels held row by row, so that
   * PIL's `pixels[x, y]` is `data[y * width + x]`.
   */
  class Image {
    const width: nat
    const height: nat
    const data: array<Pixel>

    ghost predicate Valid() {
      data.Length == width * height
    }

    /** A fresh buffer holding a copy of `pixels` (PIL's `image.copy()` when given another image's pixels). */
    constructor (width: nat, height: nat, pixels: seq<Pixel>)
      requires |pixels| == width * height
      ensures Valid() && this.width == width && this.height == height
      ensures fresh(data) && data[..] == pixels
    {
      this.width := width;
      this.height := height;
      data := new Pixel[|pixels|](i requires 0 <= i < |pixels| => pixels[i]);
    }

    /** Where pixel (x, y) is held: rows one after another, top row first. */
    function Index(x: nat, y: nat): (i: nat)
      requires Valid() && x < width && y < height
      ensures i < data.Length && i == y * width + x
    {
      RowMajorIndex(x, y, width, height);
      y * width + x
    }

    /** `pixels[x, y]`. */
    function At(x: nat, y: nat): Pixel
      requires Valid() && x < width && y < height
      reads data
    {
      data[Index(x, y)]
    }

    /** `pixels[x, y] = pixel`: only that pixel changes. */
    method Put(x: nat, y: nat, pixel: Pixel)
      requires Valid() && x < width && y < height
      modifies data
      ensures data[..] == old(data[..])[Index(x, y) := pixel]
    {
      data[Index(x, y)] := pixel;
    }
  }
}
