/**
 * Framing and capacity (steganographer.py:7, 46-51, 95): the message bits are
 * followed by a fixed 32-bit end marker, and the framed payload must fit in
 * the least significant bits of the R, G and B channels of every pixel.
 */
module Framing {
  import opened Wrappers
  import opened BitCodec

  /** `DELIMITER`: sixteen ones, then sixteen zeros. */
  const Delimiter: seq<Bit> := [1, 1, 1, 1, 1, 1, 1, 1, 1, 1, 1, 1, 1, 1, 1, 1,
                                0, 0, 0, 0, 0, 0, 0, 0, 0, 0, 0, 0, 0, 0, 0, 0]

  lemma DelimiterShape()
    ensures |Delimiter| == 32
    ensures forall i :: 0 <= i < 16 ==> Delimiter[i] == 1
    ensures forall i :: 16 <= i < 32 ==> Delimiter[i] == 0
  {
  }

  /** `text_to_binary(message) + DELIMITER` (steganographer.py:46). */
  function Payload(message: string): (r: seq<Bit>)
    ensures |r| == |TextToBinary(message)| + 32
    ensures r[..|r| - 32] == TextToBinary(message) && r[|r| - 32..] == Delimiter
  {
    TextToBinary(message) + Delimiter
  }

  /** The number of channel LSBs an image offers: three per pixel, alpha never used. */
  function MaxBits(width: nat, height: nat): nat {
    width * height * 3
  }

  datatype Capacity = Fits | Exceeds(maxBytes: nat)

  /**
   * The check of steganographer.py:49-51: a payload of `payloadBits` bits fits,
   * exact fit included, or is refused with the capacity in whole bytes.
   */
  function CheckCapacity(payloadBits: nat, width: nat, height: nat): (r: Capacity)
    ensures r.Fits? <==> payloadBits <= width * height * 3
    ensures r.Exceeds? ==> 8 * r.maxBytes <= width * height * 3 < 8 * (r.maxBytes + 1)
  {
    var maxBits := MaxBits(width, height);
    if payloadBits > maxBits then Exceeds(maxBits / 8) else Fits
  }

  /** `len(bits) >= len(DELIMITER) and bits.endswith(DELIMITER)` (steganographer.py:95). */
  predicate EndsWithDelimiter(bits: seq<Bit>) {
    |bits| >= |Delimiter| && bits[|bits| - |Delimiter|..] == Delimiter
  }

  /** The search from prefix length `from` on: the first n >= from at which bits[..n] ends with the delimiter. */
  function FirstDelimiterEnd(bits: seq<Bit>, from: nat): (r: Option<nat>)
    requires from <= |bits|
    ensures r.Some? ==> from <= r.value <= |bits| && EndsWithDelimiter(bits[..r.value])
    decreases |bits| - from
  {
    if EndsWithDelimiter(bits[..from]) then Some(from)
    else if from == |bits| then None
    else FirstDelimiterEnd(bits, from + 1)
  }

  /** The search skips no prefix: every prefix it passes over does not end with the delimiter. */
  lemma {:induction false} FirstDelimiterEndIsFirst(bits: seq<Bit>, from: nat)
    requires from <= |bits|
    ensures FirstDelimiterEnd(bits, from).Some? ==>
      forall n {:trigger EndsWithDelimiter(bits[..n])} :: from <= n < FirstDelimiterEnd(bits, from).value ==> !EndsWithDelimiter(bits[..n])
    ensures FirstDelimiterEnd(bits, from).None? ==>
      forall n {:trigger EndsWithDelimiter(bits[..n])} :: from <= n <= |bits| ==> !EndsWithDelimiter(bits[..n])
    decreases |bits| - from
  {
    if !EndsWithDelimiter(bits[..from]) && from < |bits| {
      FirstDelimiterEndIsFirst(bits, from + 1);
    }
  }

  /**
   * Where a bit stream read in order first ends with the delimiter: the length
   * of its shortest prefix that does, or None when no prefix does.
   */
  function FindDelimiter(bits: seq<Bit>): (r: Option<nat>)
    ensures r.Some? ==> |Delimiter| <= r.value <= |bits| && EndsWithDelimiter(bits[..r.value])
  {
    FirstDelimiterEnd(bits, 0)
  }

  /**
   * FindDelimiter reports the shortest prefix that ends with the delimiter, and
   * reports nothing exactly when no prefix does.
   */
  lemma FindDelimiterIsFirst(bits: seq<Bit>)
    ensures FindDelimiter(bits).Some? ==>
      forall n {:trigger EndsWithDelimiter(bits[..n])} :: 0 <= n < FindDelimiter(bits).value ==> !EndsWithDelimiter(bits[..n])
    ensures FindDelimiter(bits).None? <==>
      forall n {:trigger EndsWithDelimiter(bits[..n])} :: 0 <= n <= |bits| ==> !EndsWithDelimiter(bits[..n])
  {
    FirstDelimiterEndIsFirst(bits, 0);
  }

  /** A prefix that does not end with the delimiter lets the search move on by one. */
  lemma SearchContinues(bits: seq<Bit>, k: nat)
    requires k < |bits| && !EndsWithDelimiter(bits[..k])
    ensures FirstDelimiterEnd(bits, k) == FirstDelimiterEnd(bits, k + 1)
  {
  }

  /** The search stops at the first prefix it meets that ends with the delimiter. */
  lemma SearchStops(bits: seq<Bit>, prefix: seq<Bit>)
    requires |prefix| <= |bits| && prefix == bits[..|prefix|] && EndsWithDelimiter(prefix)
    ensures FirstDelimiterEnd(bits, |prefix|) == Some(|prefix|)
  {
  }

  /** A search that reaches the end of the stream finds nothing. */
  lemma SearchExhausted(bits: seq<Bit>, k: nat)
    requires k == |bits| && !EndsWithDelimiter(bits[..k])
    ensures FirstDelimiterEnd(bits, k) == None
  {
  }

  /** No prefix of `bits` of length at most `k` ends with the delimiter. */
  ghost predicate NoDelimiterUpTo(bits: seq<Bit>, k: nat)
    requires k <= |bits|
  {
    forall n {:trigger EndsWithDelimiter(bits[..n])} :: 0 <= n <= k ==> !EndsWithDelimiter(bits[..n])
  }

  /** The shortest prefix ending with the delimiter is the one FindDelimiter reports. */
  lemma FindDelimiterAt(bits: seq<Bit>, k: nat)
    requires 0 < k <= |bits| && NoDelimiterUpTo(bits, k - 1) && EndsWithDelimiter(bits[..k])
    ensures FindDelimiter(bits) == Some(k)
  {
    FindDelimiterIsFirst(bits);
    var found := FindDelimiter(bits);
    assert 0 <= k <= |bits| && EndsWithDelimiter(bits[..k]);
  }

  /**
   * The first delimiter in a framed payload is its own: no shorter prefix of
   * `Payload(message)` ends with the delimiter, since the message bits never
   * hold 16 ones in a row and the delimiter's own ones are followed by zeros.
   */
  lemma PayloadHasNoEarlyDelimiter(message: string, n: nat)
    requires n < |Payload(message)|
    ensures !EndsWithDelimiter(Payload(message)[..n])
  {
    var text := TextToBinary(message);
    var payload := text + Delimiter;
    var prefix := payload[..n];
    DelimiterShape();
    if n < 32 {
    } else if n - 16 <= |text| {
      // The delimiter's ones would lie wholly inside the message bits, which never hold 16 ones in a row.
      var j := TextNoSixteenOnes(message, n - 32);
      assert prefix[n - 32..][j - (n - 32)] == 0 != Delimiter[j - (n - 32)];
    } else {
      // Bit n - 16 would have to be a zero, but falls among the delimiter's own ones.
      assert prefix[n - 32..][16] == 1 != Delimiter[16];
    }
  }

  /** The framed payload, whatever follows it, is first terminated exactly at its own end. */
  lemma FindDelimiterAfterPayload(message: string, rest: seq<Bit>)
    ensures FindDelimiter(Payload(message) + rest) == Some(|Payload(message)|)
  {
    var payload := Payload(message);
    var bits := payload + rest;
    assert bits[..|payload|] == payload;
    forall n | 0 <= n <= |payload| - 1
      ensures !EndsWithDelimiter(bits[..n])
    {
      assert bits[..n] == payload[..n];
      PayloadHasNoEarlyDelimiter(message, n);
    }
    FindDelimiterAt(bits, |payload|);
  }
}
