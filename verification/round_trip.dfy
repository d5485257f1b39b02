/**
 * What hiding and extracting promise together (steganographer.py:46-70 and
 * 90-97): whenever the framed payload fits, extraction from the embedded
 * image gives the hidden text back, whatever the image held before.
 */
module RoundTrip {
  import opened Wrappers
  import opened BitCodec
  import opened Framing
  import opened Raster
  import opened Embedder
  import opened Extractor

  /** The LSB stream of an embedded image starts with the payload. */
  lemma LsbStreamOfEmbedded(pixels: seq<Pixel>, payload: seq<Bit>)
    requires |payload| <= 3 * |pixels|
    ensures LsbStream(EmbedPayload(pixels, payload))[..|payload|] == payload
  {
    var embedded := EmbedPayload(pixels, payload);
    var stream := LsbStream(embedded);
    forall k | 0 <= k < |payload|
      ensures stream[k] == payload[k]
    {
      var p, c := k / 3, k % 3;
      assert 3 * p + c == k;
      LsbStreamAt(embedded, p, c);
    }
  }

  /**
   * The round trip on pixels: embedding the framed message and then reading
   * the LSB stream back yields the message, never a missing delimiter and
   * never a decoding failure.
   */
  lemma EmbedThenExtract(pixels: seq<Pixel>, message: string)
    requires |Payload(message)| <= 3 * |pixels|
    ensures ExtractFromStream(LsbStream(EmbedPayload(pixels, Payload(message)))) == Message(message)
  {
    var payload := Payload(message);
    var stream := LsbStream(EmbedPayload(pixels, payload));
    LsbStreamOfEmbedded(pixels, payload);
    var rest := stream[|payload|..];
    assert stream == payload + rest;
    FindDelimiterAfterPayload(message, rest);
    ExtractAtFoundDelimiter(stream, payload);
    BitCodecRoundTrip(message);
  }

  /**
   * `hide_message` followed by `extract_message` on the image it produced:
   * None when the message does not fit, otherwise exactly the message.
   */
  method HideThenExtract(source: Image, message: string) returns (r: Option<Extraction>)
    requires source.Valid()
    ensures r.None? <==> |Payload(message)| > MaxBits(source.width, source.height)
    ensures r.Some? ==> r.value == Message(message)
  {
    var hidden := HideMessage(source, message);
    match hidden
    case CapacityExceeded(_) =>
      return None;
    case Embedded(image) =>
      var extracted := ExtractMessage(image);
      EmbedThenExtract(source.data[..], message);
      return Some(extracted);
  }

  /**
   * An exact fit is accepted: "Hi" framed is 16 + 32 = 48 bits, all the LSBs
   * of a 4 x 4 image, and extraction gives "Hi" back.
   */
  lemma ExactFitAccepted(pixels: seq<Pixel>)
    requires |pixels| == 4 * 4
    ensures |Payload("Hi")| == MaxBits(4, 4) == 48
    ensures CheckCapacity(|Payload("Hi")|, 4, 4) == Fits
    ensures ExtractFromStream(LsbStream(EmbedPayload(pixels, Payload("Hi")))) == Message("Hi")
  {
    assert Utf8.Encode("Hi") == [0x48, 0x69];
    EmbedThenExtract(pixels, "Hi");
  }

  /** One byte too many is refused: "Hello" framed is 72 bits, and 48 bits hold 6 bytes. */
  lemma OverCapacityRefused()
    ensures |Payload("Hello")| == 72
    ensures CheckCapacity(|Payload("Hello")|, 4, 4) == Exceeds(6)
  {
    assert Utf8.Encode("Hello") == [0x48, 0x65, 0x6C, 0x6C, 0x6F];
  }

  /** An image whose channel LSBs are all 0 holds no delimiter, so extraction reports it missing. */
  lemma ZeroStreamHasNoDelimiter(bits: seq<Bit>)
    requires forall i :: 0 <= i < |bits| ==> bits[i] == 0
    ensures ExtractFromStream(bits) == DelimiterNotFound
  {
    forall n | 0 <= n <= |bits|
      ensures !EndsWithDelimiter(bits[..n])
    {
      if n >= |Delimiter| {
        assert bits[..n][n - |Delimiter|..][0] == 0 != Delimiter[0];
      }
    }
    ExtractNotFound(bits);
  }
}
