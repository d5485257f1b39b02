# LSB steganography codec, modelled in Dafny

This project models the core of `steganographer.py`, a tool that hides a text
message in the least significant bits of an image's colour channels. The
modelled core has four parts:

- **Bit codec** (`text_to_binary`, `binary_to_text`). Text becomes its UTF-8
  bytes, and each byte becomes 8 bits, most significant bit first. Decoding drops
  a trailing partial byte, regroups the bits into bytes and decodes them as UTF-8.
  Invalid UTF-8 gives a decode-failure result.
- **Framing and capacity** (`DELIMITER` and the check in `hide_message`). A fixed
  32-bit end marker follows the message bits: sixteen ones, then sixteen zeros.
  The framed payload must fit in `width * height * 3` channel LSBs. Otherwise
  embedding is refused, and the refusal reports `(width * height * 3) // 8` bytes.
- **Embedder** (the pixel loops of `hide_message`). It works on a fresh copy of
  the pixel buffer and visits pixels row by row (y outer, x inner). In each pixel
  it visits channels R, G, B. Each visited channel gets its LSB cleared and the
  next payload bit OR-ed in, until the payload runs out.
- **Extractor** (the pixel loops of `extract_message`). It reads the same LSBs in
  the same order into a growing bit string. After each bit it tests whether the
  string ends with the delimiter. On the first match it decodes the bits in front
  of the delimiter. If the image runs out first, the delimiter was not found.

The modules follow those parts:

| file | module | contents |
|---|---|---|
| `wrappers.dfy` | `Wrappers` | `Option` |
| `utf8.dfy` | `Utf8` | a UTF-8 encoder and a strict decoder (RFC 3629), and their round trip |
| `bit_codec.dfy` | `BitCodec` | bits of a byte, bits of a byte string and back, `TextToBinary`, `BinaryToText` |
| `framing.dfy` | `Framing` | `Delimiter`, `Payload`, `CheckCapacity`, the first-delimiter search |
| `raster.dfy` | `Raster` | channels (`bv8`), pixels, `Lsb`/`SetLsb`, the LSB stream, the `Image` class |
| `embedder.dfy` | `Embedder` | `HideMessage` and its loops, specified by the pure `EmbedPayload` |
| `extractor.dfy` | `Extractor` | `ExtractMessage` and its loops, specified by the pure `ExtractFromStream` |
| `round_trip.dfy` | `RoundTrip` | hide-then-extract gives the message back, plus the worked scenarios |

Text is a Dafny `string`, whose `char` is a Unicode scalar value. Bits are the
integers 0 and 1. An image is an object with a `width`, a `height` and an array
of pixels held row by row, so pixel `(x, y)` is element `y * width + x`. Each
pixel is a sequence of at least three 8-bit channels.

`HideMessage` and `ExtractMessage` are imperative, with the source's nested
loops, early `break`s and early `return`. Each is proved equal to a pure
function of the input image: `EmbedPayload` for the embedder and
`ExtractFromStream` of the `LsbStream` for the extractor. The lemmas then state
what those functions promise.

Because a UTF-8 encoding never contains the byte 0xFF, the message bits never
hold sixteen ones in a row (`BitCodec.TextNoSixteenOnes`). So the framed payload
is never cut short by an early copy of the delimiter
(`Framing.PayloadHasNoEarlyDelimiter`). The end-to-end round trip
`RoundTrip.EmbedThenExtract` therefore needs no assumption beyond capacity. The
extractor still stops at the first delimiter in any bit stream
(`Extractor.ExtractStopsAtFirstDelimiter`). A collision can only come from image
content: bits that did not come from encoding a text.

## Model

| member | source | states |
|---|---|---|
| Utf8.EncodeChar | steganographer.py:14 | one character takes 1 to 4 bytes; exactly the ASCII characters take one byte, below 0x80; no byte exceeds 0xF4 |
| Utf8.Encode | steganographer.py:14 | `text.encode('utf-8')` has at least one byte per character and no byte above 0xF4, so never 0xFF |
| Utf8.DecodeChar | steganographer.py:30 | a decoded leading character occupies 1 to 4 of the available bytes, and those bytes are exactly its encoding |
| Utf8.Decode | steganographer.py:29-32 | `bytes.decode('utf-8')`: any text it returns encodes back to exactly the input bytes (None models UnicodeDecodeError) |
| Utf8.DecodeEncodeChar | steganographer.py:30 | the bytes of one character, followed by anything, decode to that character and its byte count |
| Utf8.DecodeEncode | steganographer.py:14 | decoding the UTF-8 encoding of any text gives the text back, never the error |
| BitCodec.FromBitsToBits | steganographer.py:14 | a value below 2^width, written in `width` bits and read back, is that value |
| BitCodec.ToBitsFromBits | steganographer.py:27 | a bit string read as a number and written back in as many bits is the same bit string |
| BitCodec.ByteToBits | steganographer.py:14 | a byte becomes 8 bits that read back as the byte |
| BitCodec.BitsToByte | steganographer.py:27 | 8 bits become the byte whose 8 bits they are |
| BitCodec.BytesToBits | steganographer.py:14 | a byte string gives 8 bits per byte |
| BitCodec.BytesToBitsByte | steganographer.py:14 | bits 8k .. 8k+7 are byte k, most significant bit first |
| BitCodec.BitsToBytes | steganographer.py:24-27 | a bit string of whole bytes regroups into length/8 bytes |
| BitCodec.BitsToBytesToBits | steganographer.py:24-27 | regrouping the bits of a byte string gives that byte string back |
| BitCodec.BytesToBitsToBytes | steganographer.py:24-27 | writing out the regrouped bytes of a whole-byte bit string gives the bit string back |
| BitCodec.TextToBinary | steganographer.py:14 | `text_to_binary` has 8 bits per UTF-8 byte of the text |
| BitCodec.TextToBinaryByte | steganographer.py:14 | bits 8k .. 8k+7 of `text_to_binary(t)` are UTF-8 byte k of t, most significant first |
| BitCodec.BinaryToText | steganographer.py:16-32 | any text `binary_to_text` returns is exactly the text whose bits are the input minus its trailing partial byte |
| BitCodec.BitCodecRoundTrip | steganographer.py:14-32 | `binary_to_text(text_to_binary(t)) == t` for every text, never the decode-failure result |
| BitCodec.BinaryToTextDropsPartialByte | steganographer.py:22 | up to 7 trailing bits after whole bytes never change the result |
| BitCodec.NoSixteenOnes | steganographer.py:14 | the bits of bytes without 0xFF hold a zero among any 16 consecutive bits |
| BitCodec.TextNoSixteenOnes | steganographer.py:14 | `text_to_binary(t)` never holds 16 consecutive ones |
| Framing.DelimiterShape | steganographer.py:7 | `DELIMITER` is 32 bits: sixteen ones, then sixteen zeros |
| Framing.Payload | steganographer.py:46 | the framed payload is the message bits followed by exactly the 32 delimiter bits |
| Framing.CheckCapacity | steganographer.py:49-51 | it fits exactly when the payload has at most width*height*3 bits (an exact fit is accepted); a refusal reports the byte count m with 8m <= capacity < 8(m+1) |
| Framing.FirstDelimiterEnd | steganographer.py:90-97 | a search result n lies between the start position and the stream end, and bits[..n] ends with the delimiter |
| Framing.FirstDelimiterEndIsFirst | steganographer.py:90-97 | no prefix the search passes over ends with the delimiter; a failed search means no prefix from the start position on does |
| Framing.FindDelimiter | steganographer.py:95 | a found length is at least 32, within the stream, and that prefix ends with the delimiter |
| Framing.FindDelimiterIsFirst | steganographer.py:95 | the found prefix is the shortest one that ends with the delimiter; nothing is found exactly when no prefix does |
| Framing.FindDelimiterAt | steganographer.py:95 | if no shorter prefix ends with the delimiter and bits[..k] does, the search reports k |
| Framing.SearchContinues | steganographer.py:93-95 | a prefix without the delimiter moves the search on by one bit |
| Framing.SearchStops | steganographer.py:95-96 | a prefix ending with the delimiter stops the search there |
| Framing.SearchExhausted | steganographer.py:99 | a search at the end of the stream that sees no delimiter finds nothing |
| Framing.PayloadHasNoEarlyDelimiter | steganographer.py:46 | no proper prefix of a framed text payload ends with the delimiter |
| Framing.FindDelimiterAfterPayload | steganographer.py:95 | in a framed payload followed by anything, the first delimiter ends exactly at the payload's end |
| Raster.SetLsb | steganographer.py:63-64 | `v &= 254; v |= bit` sets the LSB to the bit and keeps the upper seven bits |
| Raster.LsbStream | steganographer.py:90-94 | the stream has 3 bits per pixel; bit 3p+c is the LSB of channel c of pixel p |
| Raster.LsbStreamAt | steganographer.py:94 | the bit read for channel c of pixel p sits at position 3p+c |
| Raster.Image.constructor | steganographer.py:53 | a fresh pixel buffer holding exactly the given pixels |
| Raster.Image.Index | steganographer.py:60 | `pixels[x, y]` is buffer element y*width+x, always inside the buffer |
| Raster.Image.Put | steganographer.py:66 | `pixels[x, y] = pixel` changes that one element of the buffer and nothing else |
| Embedder.EmbedPayload | steganographer.py:58-70 | each channel at row-major position k < len(payload) has LSB = payload bit k and its upper 7 bits unchanged; every later R/G/B channel and every channel after B (alpha) is unchanged |
| Embedder.WritePixelBits | steganographer.py:61-65 | the channel loop rewrites the pixel as EmbedPayload does and advances the cursor by min(3, bits left) |
| Embedder.EmbeddedUpToNext | steganographer.py:66 | writing back the next pixel extends the rewritten prefix by one |
| Embedder.EmbeddedUpToAll | steganographer.py:67-70 | once the pixels written cover the payload, the buffer is the embedded image |
| Embedder.WritePayload | steganographer.py:55-70 | the nested y/x/channel loops with early breaks leave exactly EmbedPayload of the copied pixels in the buffer |
| Embedder.HideMessage | steganographer.py:46-70 | capacity refused exactly when the payload exceeds width*height*3 bits, reporting that // 8; otherwise a fresh image of the same size holding EmbedPayload of the source pixels; the source image is untouched |
| Extractor.ExtractNotFound | steganographer.py:99 | extraction reports the delimiter missing exactly when no prefix of the LSB stream ends with it |
| Extractor.ExtractStopsAtFirstDelimiter | steganographer.py:95-97 | the first prefix ending with the delimiter decides the result, whatever follows it; only the bits before the delimiter are decoded |
| Extractor.ReadNextBit | steganographer.py:93-95 | reading one channel appends the next stream bit, and a miss lets the search go on one bit later |
| Extractor.StopAtDelimiter | steganographer.py:95-97 | bits read so far that end with the delimiter decide the extraction: the bits before the delimiter are decoded |
| Extractor.ExtractAtFoundDelimiter | steganographer.py:96-97 | once the search finds a prefix, its bits minus the last 32 are what gets decoded |
| Extractor.ExtractMessage | steganographer.py:86-99 | the nested loops with their early return give exactly ExtractFromStream of the image's LSB stream; the image is only read |
| RoundTrip.LsbStreamOfEmbedded | steganographer.py:58-66 | the LSB stream of an embedded image starts with the payload |
| RoundTrip.EmbedThenExtract | steganographer.py:46-97 | whenever the framed message fits, extracting from the embedded pixels gives the message, whatever the pixels held |
| RoundTrip.HideThenExtract | steganographer.py:35-99 | `hide_message` then `extract_message`: refused exactly when over capacity, otherwise exactly the message |
| RoundTrip.ExactFitAccepted | steganographer.py:49-50 | "Hi" framed is 48 bits, exactly the capacity of a 4x4 image: it is accepted and extracted back |
| RoundTrip.OverCapacityRefused | steganographer.py:50-51 | "Hello" framed is 72 bits: a 4x4 image refuses it, reporting 6 bytes |
| RoundTrip.ZeroStreamHasNoDelimiter | steganographer.py:99 | an image whose channel LSBs are all 0 gives the delimiter-not-found result |

## Left out

- Image files are not modelled. This covers `Image.open`, `image.load()`, `save(output_path, 'PNG')` and PNG encoding (steganographer.py:41, 54, 72, 82, 86). The model starts from a decoded image already in memory and returns the new image instead of writing a file. `hide_message` itself returns `True`.
- The `FileNotFoundError` paths (steganographer.py:42-43, 83-84) are file I/O and are not modelled.
- Images whose pixels are single integers (modes L and P) are not modelled. A `Pixel` has at least three channels, and a fourth channel (alpha) is carried through unchanged.
- The error texts are not modelled. The Python functions return a Korean error string (steganographer.py:32, 99) or raise a `ValueError` carrying one (steganographer.py:51). The model uses the results `DecodeFailure`, `DelimiterNotFound` and `CapacityExceeded(maxBytes)` instead. So a hidden message that happens to equal one of those error strings is not confused with the error, as it is in Python.
- Text containing a lone surrogate code point is outside the model. A Dafny `char` is a Unicode scalar value. Python's `str.encode('utf-8')` raises on such text, and that exception is not modelled.
- Bits are the integers 0 and 1, not the characters '0' and '1' of the Python bit strings. Parsing those characters back (`int(binary_message[data_index])`, `int(byte, 2)`) therefore never fails.
- `main`, its command-line parsing (steganographer.py:102-123) and the web front end are not part of this model.
- The channel loop and the pixel loops of `hide_message` are two methods, `Embedder.WritePixelBits` and `Embedder.WritePayload`, called from `Embedder.HideMessage`. Their order of writes and their early exits are those of the single Python function.
- `binary_to_text` fills a `bytearray` in a loop. It is modelled as the pure recursive `BitCodec.BitsToBytes`, which builds the same byte sequence.
- Where Python's UTF-8 decoder fails, its exception says which byte failed. The model's strict RFC 3629 decoder only says that decoding failed, which is all `binary_to_text` uses.
