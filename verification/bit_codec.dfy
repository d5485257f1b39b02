/**
 * The bit codec of steganographer.py: `text_to_binary` turns text into its
 * UTF-8 bytes written as 8 bits each, most significant bit first, and
 * `binary_to_text` drops a trailing partial byte, regroups the bits into
 * bytes and decodes them as UTF-8.
 */
module BitCodec {
  import opened Wrappers
  import Utf8

  type Bit = b: int | 0 <= b < 2

  function Pow2(n: nat): (r: nat)
    ensures r >= 1
  {
    if n == 0 then 1 else 2 * Pow2(n - 1)
  }

  /** The low `width` bits of `v`, most significant first; `format(v, '08b')` is `ToBits(v, 8)` for a byte. */
  function ToBits(v: nat, width: nat): (r: seq<Bit>)
    ensures |r| == width
  {
    if width == 0 then [] else ToBits(v / 2, width - 1) + [v % 2]
  }

  /** The number a string of binary digits denotes, most significant first: `int(bits, 2)`. */
  function FromBits(bits: seq<Bit>): (r: nat)
    ensures r < Pow2(|bits|)
  {
    if bits == [] then 0 else 2 * FromBits(bits[..|bits| - 1]) + bits[|bits| - 1]
  }

  /** Reading back the digits written for `v` gives `v`. */
  lemma {:induction false} FromBitsToBits(v: nat, width: nat)
    requires v < Pow2(width)
    ensures FromBits(ToBits(v, width)) == v
  {
    if width > 0 {
      FromBitsToBits(v / 2, width - 1);
      var r := ToBits(v, width);
      assert r[..|r| - 1] == ToBits(v / 2, width - 1);
    }
  }

  /** Writing the value of a digit string back in as many digits gives the same digits. */
  lemma {:induction false} ToBitsFromBits(bits: seq<Bit>)
    ensures ToBits(FromBits(bits), |bits|) == bits
  {
    if bits != [] {
      var init := bits[..|bits| - 1];
      ToBitsFromBits(init);
      assert bits == init + [bits[|bits| - 1]];
    }
  }

  /** `format(byte, '08b')`: the 8 bits of a byte, most significant first. */
  function ByteToBits(b: Utf8.Byte): (r: seq<Bit>)
    ensures |r| == 8 && FromBits(r) == b
  {
    FromBitsToBits(b, 8);
    ToBits(b, 8)
  }

  /** `int(byte, 2)` on a group of 8 bits. */
  function BitsToByte(bits: seq<Bit>): (r: Utf8.Byte)
    requires |bits| == 8
    ensures ByteToBits(r) == bits
  {
    ToBitsFromBits(bits);
    FromBits(bits)
  }

  /** The bits of a byte string, byte by byte in order, each byte most significant bit first. */
  function BytesToBits(bytes: seq<Utf8.Byte>): (r: seq<Bit>)
    ensures |r| == 8 * |bytes|
  {
    if bytes == [] then [] else ByteToBits(bytes[0]) + BytesToBits(bytes[1..])
  }

  /** Byte k's bits sit at positions 8k .. 8k+7, most significant first. */
  lemma {:induction false} BytesToBitsByte(bytes: seq<Utf8.Byte>, k: nat)
    requires k < |bytes|
    ensures BytesToBits(bytes)[8 * k .. 8 * k + 8] == ByteToBits(bytes[k])
  {
    var bits := BytesToBits(bytes);
    if k == 0 {
      assert bits[..8] == ByteToBits(bytes[0]);
    } else {
      BytesToBitsByte(bytes[1..], k - 1);
      assert bits[8..] == BytesToBits(bytes[1..]);
      assert bits[8 * k .. 8 * k + 8] == bits[8..][8 * (k - 1) .. 8 * (k - 1) + 8];
    }
  }

  /** The bytes of a bit string whose length is a multiple of 8, 8 bits to a byte (steganographer.py:24-27). */
  function BitsToBytes(bits: seq<Bit>): (r: seq<Utf8.Byte>)
    requires |bits| % 8 == 0
    ensures |r| == |bits| / 8
    decreases |bits|
  {
    if bits == [] then [] else [BitsToByte(bits[..8])] + BitsToBytes(bits[8..])
  }

  lemma {:induction false} BitsToBytesToBits(bytes: seq<Utf8.Byte>)
    ensures BitsToBytes(BytesToBits(bytes)) == bytes
  {
    if bytes != [] {
      var bits := BytesToBits(bytes);
      assert bits[..8] == ByteToBits(bytes[0]);
      assert bits[8..] == BytesToBits(bytes[1..]);
      BitsToBytesToBits(bytes[1..]);
    }
  }

  lemma {:induction false} BytesToBitsToBytes(bits: seq<Bit>)
    requires |bits| % 8 == 0
    ensures BytesToBits(BitsToBytes(bits)) == bits
    decreases |bits|
  {
    if bits != [] {
      var bytes := BitsToBytes(bits);
      assert bytes[0] == BitsToByte(bits[..8]) && bytes[1..] == BitsToBytes(bits[8..]);
      BytesToBitsToBytes(bits[8..]);
      assert bits == bits[..8] + bits[8..];
    }
  }

  /** `text_to_binary` (steganographer.py:14). */
  function TextToBinary(text: string): (r: seq<Bit>)
    ensures |r| == 8 * |Utf8.Encode(text)|
  {
    BytesToBits(Utf8.Encode(text))
  }

  /**
   * `binary_to_text` (steganographer.py:16-32): None stands for the error string
   * returned when the bytes are not valid UTF-8. What it decodes are exactly the
   * bits written for its text, up to the dropped partial byte.
   */
  function BinaryToText(bits: seq<Bit>): (r: Option<string>)
    ensures r.Some? ==> TextToBinary(r.value) == bits[..|bits| - |bits| % 8]
  {
    var whole := bits[..|bits| - |bits| % 8];
    BytesToBitsToBytes(whole);
    Utf8.Decode(BitsToBytes(whole))
  }

  /** Byte k of the UTF-8 encoding sits at bits 8k .. 8k+7 of `text_to_binary`, most significant first. */
  lemma TextToBinaryByte(text: string, k: nat)
    requires k < |Utf8.Encode(text)|
    ensures TextToBinary(text)[8 * k .. 8 * k + 8] == ByteToBits(Utf8.Encode(text)[k])
  {
    BytesToBitsByte(Utf8.Encode(text), k);
  }

  /** The bit-codec round trip: decoding the bits of any text gives the text, never the error. */
  lemma BitCodecRoundTrip(text: string)
    ensures BinaryToText(TextToBinary(text)) == Some(text)
  {
    var bits := TextToBinary(text);
    assert bits[..|bits| - |bits| % 8] == bits;
    BitsToBytesToBits(Utf8.Encode(text));
    Utf8.DecodeEncode(text);
  }

  /** Fewer than 8 trailing bits never change what `binary_to_text` returns. */
  lemma BinaryToTextDropsPartialByte(bits: seq<Bit>, tail: seq<Bit>)
    requires |bits| % 8 == 0 && |tail| < 8
    ensures BinaryToText(bits + tail) == BinaryToText(bits)
  {
    var all := bits + tail;
    assert |all| % 8 == |tail|;
    assert all[..|all| - |all| % 8] == bits;
    assert bits[..|bits| - |bits| % 8] == bits;
  }

  /** A byte whose 8 bits are all ones is 0xFF. */
  lemma {:induction false} AllOnes(bits: seq<Bit>)
    requires forall j :: 0 <= j < |bits| ==> bits[j] == 1
    ensures FromBits(bits) == Pow2(|bits|) - 1
  {
    if bits != [] {
      AllOnes(bits[..|bits| - 1]);
    }
  }

  /**
   * The bits of a byte string without 0xFF never hold 16 ones in a row: any
   * 16 consecutive bits cover one whole byte.
   */
  lemma NoSixteenOnes(bytes: seq<Utf8.Byte>, i: nat) returns (j: nat)
    requires forall k :: 0 <= k < |bytes| ==> bytes[k] != 0xFF
    requires i + 16 <= 8 * |bytes|
    ensures i <= j < i + 16 && BytesToBits(bytes)[j] == 0
  {
    var bits := BytesToBits(bytes);
    var k := (i + 7) / 8;
    var whole := ByteToBits(bytes[k]);
    if forall m :: 0 <= m < 8 ==> whole[m] == 1 {
      AllOnes(whole);
      assert false;
    }
    var m :| 0 <= m < 8 && whole[m] != 1;
    j := 8 * k + m;
    BytesToBitsByte(bytes, k);
    assert bits[j] == bits[8 * k .. 8 * k + 8][m];
  }

  /** `text_to_binary` never holds 16 consecutive ones, since UTF-8 never emits the byte 0xFF. */
  lemma TextNoSixteenOnes(text: string, i: nat) returns (j: nat)
    requires i + 16 <= |TextToBinary(text)|
    ensures i <= j < i + 16 && TextToBinary(text)[j] == 0
  {
    j := NoSixteenOnes(Utf8.Encode(text), i);
  }
}
