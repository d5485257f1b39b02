/**
 * UTF-8 as RFC 3629 defines it: the encoding form behind Python's
 * `str.encode('utf-8')` and the strict decoder behind `bytes.decode('utf-8')`.
 * A Dafny `char` is a Unicode scalar value, so every `string` is encodable.
 */
module Utf8 {
  import opened Wrappers

  type Byte = b: int | 0 <= b < 256

  /** A trailing byte of a multi-byte sequence: 10xxxxxx. */
  predicate IsContinuation(b: Byte) {
    0x80 <= b <= 0xBF
  }

  /** The one to four bytes that encode `c` (Table 3-6 of the Unicode standard, section 3 of RFC 3629). */
  function EncodeChar(c: char): (r: seq<Byte>)
    ensures 1 <= |r| <= 4
    ensures r[0] < 0x80 <==> |r| == 1
    ensures forall i :: 0 <= i < |r| ==> r[i] <= 0xF4
  {
    var v := c as int;
    if v < 0x80 then
      [v]
    else if v < 0x800 then
      [0xC0 + v / 0x40, 0x80 + v % 0x40]
    else if v < 0x1_0000 then
      var u := v / 0x40;
      [0xE0 + u / 0x40, 0x80 + u % 0x40, 0x80 + v % 0x40]
    else
      var u := v / 0x40;
      var t := u / 0x40;
      [0xF0 + t / 0x40, 0x80 + t % 0x40, 0x80 + u % 0x40, 0x80 + v % 0x40]
  }

  /** `text.encode('utf-8')`; no byte of the result is 0xF5..0xFF, in particular none is 0xFF. */
  function Encode(text: string): (r: seq<Byte>)
    ensures |r| >= |text|
    ensures forall i :: 0 <= i < |r| ==> r[i] <= 0xF4
  {
    if text == [] then [] else EncodeChar(text[0]) + Encode(text[1..])
  }

  /**
   * Decodes the character at the front of `b`, with the number of bytes it takes,
   * or None when `b` does not start with a well-formed UTF-8 sequence
   * (overlong forms, surrogates and values above U+10FFFF are all ill-formed).
   */
  function DecodeChar(b: seq<Byte>): (r: Option<(char, nat)>)
    requires |b| > 0
    ensures r.Some? ==> 1 <= r.value.1 <= |b| && b[..r.value.1] == EncodeChar(r.value.0)
  {
    var b0: int := b[0];
    if b0 < 0x80 then
      Some((b0 as char, 1))
    else if 0xC2 <= b0 <= 0xDF then
      if |b| >= 2 && IsContinuation(b[1]) then
        assert b[..2] == [b0, b[1]];
        Some((Decode2(b0, b[1]), 2))
      else None
    else if 0xE0 <= b0 <= 0xEF then
      if |b| >= 3 && IsContinuation(b[1]) && IsContinuation(b[2])
         && (b0 == 0xE0 ==> b[1] >= 0xA0) && (b0 == 0xED ==> b[1] <= 0x9F) then
        assert b[..3] == [b0, b[1], b[2]];
        Some((Decode3(b0, b[1], b[2]), 3))
      else None
    else if 0xF0 <= b0 <= 0xF4 then
      if |b| >= 4 && IsContinuation(b[1]) && IsContinuation(b[2]) && IsContinuation(b[3])
         && (b0 == 0xF0 ==> b[1] >= 0x90) && (b0 == 0xF4 ==> b[1] <= 0x8F) then
        assert b[..4] == [b0, b[1], b[2], b[3]];
        Some((Decode4(b0, b[1], b[2], b[3]), 4))
      else None
    else
      None
  }

  /** The character of a well-formed two-byte sequence 110xxxxx 10xxxxxx. */
  function Decode2(b0: Byte, b1: Byte): (c: char)
    requires 0xC2 <= b0 <= 0xDF && IsContinuation(b1)
    ensures EncodeChar(c) == [b0, b1]
  {
    var v := Join(b0 - 0xC0, b1 - 0x80);
    v as char
  }

  /** The character of a well-formed three-byte sequence 1110xxxx 10xxxxxx 10xxxxxx. */
  function Decode3(b0: Byte, b1: Byte, b2: Byte): (c: char)
    requires 0xE0 <= b0 <= 0xEF && IsContinuation(b1) && IsContinuation(b2)
    requires b0 == 0xE0 ==> b1 >= 0xA0
    requires b0 == 0xED ==> b1 <= 0x9F
    ensures EncodeChar(c) == [b0, b1, b2]
  {
    var u := Join(b0 - 0xE0, b1 - 0x80);
    var v := Join(u, b2 - 0x80);
    v as char
  }

  /** The character of a well-formed four-byte sequence 11110xxx 10xxxxxx 10xxxxxx 10xxxxxx. */
  function Decode4(b0: Byte, b1: Byte, b2: Byte, b3: Byte): (c: char)
    requires 0xF0 <= b0 <= 0xF4 && IsContinuation(b1) && IsContinuation(b2) && IsContinuation(b3)
    requires b0 == 0xF0 ==> b1 >= 0x90
    requires b0 == 0xF4 ==> b1 <= 0x8F
    ensures EncodeChar(c) == [b0, b1, b2, b3]
  {
    var t := Join(b0 - 0xF0, b1 - 0x80);
    var u := Join(t, b2 - 0x80);
    var v := Join(u, b3 - 0x80);
    v as char
  }

  /** Appends the six payload bits `y` of a continuation byte to the bits `x` decoded so far. */
  function Join(x: int, y: int): (v: int)
    requires 0 <= x && 0 <= y < 0x40
    ensures v / 0x40 == x && v % 0x40 == y
  {
    DivModSplit(x, y, 0x40);
    x * 0x40 + y
  }

  lemma DivModSplit(q: int, r: int, d: int)
    requires 0 <= r < d
    ensures (q * d + r) / d == q && (q * d + r) % d == r
  {
    var n := q * d + r;
    var k := n / d - q;
    assert d * k == r - n % d;
  }

  /** `bytes.decode('utf-8')`: the text, or None where Python raises UnicodeDecodeError. */
  function Decode(b: seq<Byte>): (r: Option<string>)
    ensures r.Some? ==> Encode(r.value) == b
    decreases |b|
  {
    if b == [] then Some([])
    else
      match DecodeChar(b)
      case None => None
      case Some((c, n)) =>
        match Decode(b[n..])
        case None => None
        case Some(rest) =>
          EncodeCons(b, n, c, rest);
          Some([c] + rest)
  }

  /** A character encoded in front of a text's encoding gives the encoding of the longer text. */
  lemma EncodeCons(b: seq<Byte>, n: nat, c: char, rest: string)
    requires n <= |b| && b[..n] == EncodeChar(c) && b[n..] == Encode(rest)
    ensures Encode([c] + rest) == b
  {
    var text := [c] + rest;
    assert text[0] == c && text[1..] == rest;
    assert b[..n] + b[n..] == b;
  }

  /** Decoding the bytes of one character, whatever follows them, gives that character back. */
  lemma DecodeEncodeChar(c: char, rest: seq<Byte>)
    ensures DecodeChar(EncodeChar(c) + rest) == Some((c, |EncodeChar(c)|))
  {
    var v := c as int;
    if v < 0x80 {
    } else if v < 0x800 {
      DecodeEncode2(c, rest);
    } else if v < 0x1_0000 {
      DecodeEncode3(c, rest);
    } else {
      DecodeEncode4(c, rest);
    }
  }

  lemma DecodeEncode2(c: char, rest: seq<Byte>)
    requires 0x80 <= c as int < 0x800
    ensures DecodeChar(EncodeChar(c) + rest) == Some((c, 2))
  {
    var v := c as int;
    var b := EncodeChar(c) + rest;
    var u := v / 0x40;
    assert b[0] == 0xC0 + u && b[1] == 0x80 + v % 0x40;
    assert Join(u, v % 0x40) == v;
  }

  lemma DecodeEncode3(c: char, rest: seq<Byte>)
    requires 0x800 <= c as int < 0x1_0000
    ensures DecodeChar(EncodeChar(c) + rest) == Some((c, 3))
  {
    var v := c as int;
    var b := EncodeChar(c) + rest;
    var u := v / 0x40;
    var t := u / 0x40;
    assert b[0] == 0xE0 + t && b[1] == 0x80 + u % 0x40 && b[2] == 0x80 + v % 0x40;
    assert Join(Join(t, u % 0x40), v % 0x40) == v;
  }

  lemma DecodeEncode4(c: char, rest: seq<Byte>)
    requires 0x1_0000 <= c as int
    ensures DecodeChar(EncodeChar(c) + rest) == Some((c, 4))
  {
    var v := c as int;
    var b := EncodeChar(c) + rest;
    var u := v / 0x40;
    var t := u / 0x40;
    assert b[0] == 0xF0 + t / 0x40 && b[1] == 0x80 + t % 0x40;
    assert b[2] == 0x80 + u % 0x40 && b[3] == 0x80 + v % 0x40;
    assert Join(Join(Join(t / 0x40, t % 0x40), u % 0x40), v % 0x40) == v;
  }

  /** Decoding undoes encoding: the decode-failure branch is never taken on encoded text. */
  lemma {:induction false} DecodeEncode(text: string)
    ensures Decode(Encode(text)) == Some(text)
  {
    if text != [] {
      var e := EncodeChar(text[0]);
      DecodeEncodeChar(text[0], Encode(text[1..]));
      DecodeEncode(text[1..]);
      assert (e + Encode(text[1..]))[|e|..] == Encode(text[1..]);
      assert [text[0]] + text[1..] == text;
    }
  }
}
