/**
 * The extractor of `extract_message` (steganographer.py:76-99): read the LSBs
 * of R, G, B pixel by pixel in the embedder's order, and stop at the first
 * point where the bits read so far end with the delimiter.
 */
module Extractor {
  import opened Wrappers
  import opened BitCodec
  import opened Framing
  import opened Raster

  /**
   * What `extract_message` returns: the hidden text, or one of the two error
   * strings (steganographer.py:99 and, through `binary_to_text`, :32).
   */
  datatype Extraction = Message(text: string) | DelimiterNotFound | DecodeFailure

  /** `binary_to_text` as seen by the extractor. */
  function Decoded(bits: seq<Bit>): Extraction {
    match BinaryToText(bits)
    case Some(text) => Message(text)
    case None => DecodeFailure
  }

  /**
   * What extraction yields for an LSB stream read in order: no result when no
   * prefix ends with the delimiter, otherwise the decoding of the bits before
   * the first delimiter.
   */
  function ExtractFromStream(bits: seq<Bit>): Extraction {
    match FindDelimiter(bits)
    case None => DelimiterNotFound
    case Some(n) => Decoded(bits[..n - |Delimiter|])
  }

  /** Extraction reports a missing delimiter exactly when no prefix of the stream ends with it. */
  lemma ExtractNotFound(bits: seq<Bit>)
    ensures ExtractFromStream(bits) == DelimiterNotFound <==>
      forall n {:trigger EndsWithDelimiter(bits[..n])} :: 0 <= n <= |bits| ==> !EndsWithDelimiter(bits[..n])
  {
    FindDelimiterIsFirst(bits);
  }

  /**
   * Extraction ends at the first delimiter: whatever follows the shortest prefix
   * ending with the delimiter is never looked at, and only the bits before that
   * delimiter are decoded.
   */
  lemma ExtractStopsAtFirstDelimiter(prefix: seq<Bit>, rest: seq<Bit>)
    requires EndsWithDelimiter(prefix)
    requires forall n :: 0 <= n < |prefix| ==> !EndsWithDelimiter(prefix[..n])
    ensures ExtractFromStream(prefix + rest) == Decoded(prefix[..|prefix| - |Delimiter|])
  {
    var bits := prefix + rest;
    var k := |prefix|;
    forall n | 0 <= n <= k
      ensures bits[..n] == prefix[..n]
    {
      PrefixOfConcat(prefix, rest, n);
    }
    assert bits[..k] == prefix;
    FindDelimiterAt(bits, k);
    ExtractAtFoundDelimiter(bits, prefix);
  }

  /**
   * One step of the extraction loop: reading channel `c` of pixel `p` extends
   * the bits read so far by the next bit of the stream, and when those bits did
   * not end with the delimiter the search goes on from one bit later.
   */
  lemma ReadNextBit(pixels: seq<Pixel>, p: nat, c: nat, read: seq<Bit>)
    requires p < |pixels| && c < 3
    requires read == LsbStream(pixels)[..3 * p + c] && !EndsWithDelimiter(read)
    requires FindDelimiter(LsbStream(pixels)) == FirstDelimiterEnd(LsbStream(pixels), |read|)
    ensures read + [Lsb(pixels[p][c])] == LsbStream(pixels)[..3 * p + c + 1]
    ensures FindDelimiter(LsbStream(pixels)) == FirstDelimiterEnd(LsbStream(pixels), |read| + 1)
  {
    var stream := LsbStream(pixels);
    LsbStreamAt(pixels, p, c);
    TakeOneMore(stream, 3 * p + c, read, Lsb(pixels[p][c]));
    SearchContinues(stream, |read|);
  }

  /** Appending the next element of `s` to its first `k` gives its first `k + 1`. */
  lemma TakeOneMore(s: seq<Bit>, k: nat, prev: seq<Bit>, next: Bit)
    requires k < |s| && prev == s[..k] && next == s[k]
    ensures prev + [next] == s[..k + 1]
  {
  }

  /** Bits read so far that end with the delimiter decide the extraction. */
  lemma StopAtDelimiter(bits: seq<Bit>, read: seq<Bit>)
    requires |read| <= |bits| && read == bits[..|read|] && EndsWithDelimiter(read)
    requires FindDelimiter(bits) == FirstDelimiterEnd(bits, |read|)
    ensures ExtractFromStream(bits) == Decoded(read[..|read| - |Delimiter|])
  {
    SearchStops(bits, read);
    ExtractAtFoundDelimiter(bits, read);
  }

  /** Once the delimiter is found at `k`, exactly the bits in front of it are decoded. */
  lemma ExtractAtFoundDelimiter(bits: seq<Bit>, prefix: seq<Bit>)
    requires FindDelimiter(bits) == Some(|prefix|) && prefix == bits[..|prefix|]
    ensures |Delimiter| <= |prefix|
    ensures ExtractFromStream(bits) == Decoded(prefix[..|prefix| - |Delimiter|])
  {
    PrefixOfPrefix(bits, |prefix|, |prefix| - |Delimiter|);
  }

  lemma PrefixOfPrefix(s: seq<Bit>, k: nat, n: nat)
    requires n <= k <= |s|
    ensures s[..k][..n] == s[..n]
  {
  }

  lemma PrefixOfConcat(s: seq<Bit>, t: seq<Bit>, n: nat)
    requires n <= |s|
    ensures (s + t)[..n] == s[..n]
  {
  }

  /**
   * `extract_message` on an already loaded image. It only reads the image
   * (the image is in no modifies frame).
   */
  method ExtractMessage(image: Image) returns (r: Extraction)
    requires image.Valid()
    ensures r == ExtractFromStream(LsbStream(image.data[..]))
  {
    ghost var pixels := image.data[..];
    ghost var stream := LsbStream(pixels);
    ghost var done := 0;  // pixels read so far
    var binaryData: seq<Bit> := [];
    assert image.height * image.width == |pixels|;
    for y := 0 to image.height
      invariant done == y * image.width && done <= |pixels|
      invariant binaryData == stream[..3 * done]
      invariant !EndsWithDelimiter(binaryData)
      invariant FindDelimiter(stream) == FirstDelimiterEnd(stream, |binaryData|)
    {
      assert (y + 1) * image.width == y * image.width + image.width;
      ghost var rowStart := done;
      for x := 0 to image.width
        invariant done == rowStart + x && done <= |pixels|
        invariant binaryData == stream[..3 * done]
        invariant !EndsWithDelimiter(binaryData)
        invariant FindDelimiter(stream) == FirstDelimiterEnd(stream, |binaryData|)
      {
        var pixel := image.At(x, y);
        assert done == image.Index(x, y) < |pixels|;
        assert pixel == pixels[done];
        for i := 0 to 3
          invariant binaryData == stream[..3 * done + i]
          invariant !EndsWithDelimiter(binaryData)
          invariant FindDelimiter(stream) == FirstDelimiterEnd(stream, |binaryData|)
        {
          var bit := Lsb(pixel[i]);
          ReadNextBit(pixels, done, i, binaryData);
          binaryData := binaryData + [bit];
          if EndsWithDelimiter(binaryData) {
            var secretData := binaryData[..|binaryData| - |Delimiter|];
            StopAtDelimiter(stream, binaryData);
            return Decoded(secretData);
          }
        }
        done := done + 1;
      }
    }
    assert done == |pixels|;
    SearchExhausted(stream, 3 * done);
    return DelimiterNotFound;
  }
}
