/**
 * The embedder of `hide_message` (steganographer.py:35-73): check that the
 * framed payload fits, copy the image, and write the payload bits into the
 * LSBs of the R, G, B channels, pixel by pixel in row-major order.
 */
module Embedder {
  import opened BitCodec
  import opened Framing
  import opened Raster

  /**
   * A pixel whose R channel is channel position `base` of the image: each of
   * its first three channels at a position still inside `payload` takes that
   * payload bit as its LSB; the other channels are as they were.
   */
  function EmbedPixel(pixel: Pixel, payload: seq<Bit>, base: nat): (r: Pixel)
    ensures |r| == |pixel|
  {
    seq(|pixel|, c requires 0 <= c < |pixel| =>
      if c < 3 && base + c < |payload| then SetLsb(pixel[c], payload[base + c]) else pixel[c])
  }

  /**
   * The pixels after embedding `payload`: the channel at row-major position k
   * (channel k % 3 of pixel k / 3) carries payload bit k in its LSB and keeps
   * its upper seven bits, for every k < |payload|; every other channel, the
   * alpha channel included, is unchanged.
   */
  function EmbedPayload(pixels: seq<Pixel>, payload: seq<Bit>): (r: seq<Pixel>)
    ensures |r| == |pixels|
    ensures forall p :: 0 <= p < |r| ==> |r[p]| == |pixels[p]|
    ensures forall p, c :: 0 <= p < |r| && 0 <= c < 3 && 3 * p + c < |payload| ==>
              Lsb(r[p][c]) == payload[3 * p + c] && r[p][c] & 0xFE == pixels[p][c] & 0xFE
    ensures forall p, c :: 0 <= p < |r| && 0 <= c < |r[p]| && (3 <= c || |payload| <= 3 * p + c) ==>
              r[p][c] == pixels[p][c]
  {
    seq(|pixels|, p requires 0 <= p < |pixels| => EmbedPixel(pixels[p], payload, 3 * p))
  }

  /**
   * The channel loop of `hide_message` for one pixel (steganographer.py:60-65):
   * with the payload cursor at `dataIndex`, R, G and B in turn take the next
   * payload bit as their LSB while bits remain.
   */
  method WritePixelBits(pixel: Pixel, payload: seq<Bit>, dataIndex: nat) returns (r: Pixel, next: nat)
    requires dataIndex <= |payload|
    ensures r == EmbedPixel(pixel, payload, dataIndex)
    ensures next == if dataIndex + 3 <= |payload| then dataIndex + 3 else |payload|
  {
    r, next := pixel, dataIndex;
    for i := 0 to 3
      invariant |r| == |pixel|
      invariant next == if dataIndex + i <= |payload| then dataIndex + i else |payload|
      invariant forall c :: 0 <= c < |r| ==>
                  r[c] == if c < i then EmbedPixel(pixel, payload, dataIndex)[c] else pixel[c]
    {
      if next < |payload| {
        r := r[i := SetLsb(r[i], payload[next])];
        next := next + 1;
      }
    }
  }

  /** `original` with its first `done` pixels given their payload bits, the rest as they were. */
  ghost function EmbeddedUpTo(original: seq<Pixel>, payload: seq<Bit>, done: nat): (r: seq<Pixel>)
    ensures |r| == |original|
  {
    seq(|original|, q requires 0 <= q < |original| =>
      if q < done then EmbedPixel(original[q], payload, 3 * q) else original[q])
  }

  /** Writing back the next pixel extends the embedded prefix by one. */
  lemma EmbeddedUpToNext(original: seq<Pixel>, payload: seq<Bit>, done: nat)
    requires done < |original|
    ensures EmbeddedUpTo(original, payload, done)[done := EmbedPixel(original[done], payload, 3 * done)]
            == EmbeddedUpTo(original, payload, done + 1)
  {
  }

  /** Once the pixels written cover the whole payload, the image is the embedded one. */
  lemma EmbeddedUpToAll(original: seq<Pixel>, payload: seq<Bit>, done: nat)
    requires |payload| <= 3 * done
    ensures EmbeddedUpTo(original, payload, done) == EmbedPayload(original, payload)
  {
    var embedded := EmbedPayload(original, payload);
    forall q | 0 <= q < |original|
      ensures EmbeddedUpTo(original, payload, done)[q] == embedded[q]
    {
      if done <= q {
        assert EmbedPixel(original[q], payload, 3 * q) == original[q];
      }
    }
  }

  /** What `hide_message` produces: the new image, or the ValueError of steganographer.py:51. */
  datatype Embedding = Embedded(image: Image) | CapacityExceeded(maxBytes: nat)

  /**
   * `hide_message` on an already loaded image. The source image is never
   * written (it is not in the frame); the result is a fresh copy with the
   * payload embedded.
   */
  method HideMessage(source: Image, message: string) returns (r: Embedding)
    requires source.Valid()
    ensures r.CapacityExceeded? <==> |Payload(message)| > MaxBits(source.width, source.height)
    ensures r.CapacityExceeded? ==> r.maxBytes == MaxBits(source.width, source.height) / 8
    ensures r.Embedded? ==> fresh(r.image) && fresh(r.image.data) && r.image.Valid()
    ensures r.Embedded? ==> r.image.width == source.width && r.image.height == source.height
    ensures r.Embedded? ==> r.image.data[..] == EmbedPayload(source.data[..], Payload(message))
    ensures source.data[..] == old(source.data[..])
  {
    var binaryMessage := TextToBinary(message) + Delimiter;
    match CheckCapacity(|binaryMessage|, source.width, source.height)
    case Exceeds(maxBytes) =>
      return CapacityExceeded(maxBytes);
    case Fits =>
      var newImage := new Image(source.width, source.height, source.data[..]);
      WritePayload(newImage, binaryMessage);
      return Embedded(newImage);
  }

  /**
   * The pixel loops of `hide_message` (steganographer.py:55-70) on the copied
   * image: pixels in row-major order (y outer, x inner), each read, given its
   * payload bits and written back, until the payload cursor reaches the end.
   */
  method WritePayload(image: Image, payload: seq<Bit>)
    requires image.Valid()
    requires 0 < |payload| <= 3 * image.data.Length
    modifies image.data
    ensures image.data[..] == EmbedPayload(old(image.data[..]), payload)
  {
    ghost var original := image.data[..];
    var dataIndex := 0;
    ghost var done := 0;  // pixels written back so far
    for y := 0 to image.height
      invariant done == y * image.width
      invariant dataIndex == 3 * done < |payload|
      invariant image.data[..] == EmbeddedUpTo(original, payload, done)
    {
      assert (y + 1) * image.width == y * image.width + image.width;
      ghost var rowStart := done;
      for x := 0 to image.width
        invariant done == rowStart + x
        invariant dataIndex == 3 * done < |payload|
        invariant image.data[..] == EmbeddedUpTo(original, payload, done)
      {
        var pixel := image.At(x, y);
        assert pixel == EmbeddedUpTo(original, payload, done)[done] == original[done];
        pixel, dataIndex := WritePixelBits(pixel, payload, dataIndex);
        EmbeddedUpToNext(original, payload, done);
        image.Put(x, y, pixel);
        done := done + 1;
        if dataIndex >= |payload| {
          break;
        }
      }
      if dataIndex >= |payload| {
        break;
      }
    }
    EmbeddedUpToAll(original, payload, done);
  }
}
