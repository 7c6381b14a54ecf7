# LSB steganography: encoder and decoder

This project models the least-significant-bit packing of `Steganography_project.py`
and proves properties about it.

- **Encoder.** `encode_image` appends the end marker `chr(0)` to the message. It writes
  every character as eight bits, most significant bit first. It then walks the image
  row by row (`y` outer, `x` inner) and channel by channel (R, G, B). Each channel's low
  bit is replaced by the next payload bit until the payload runs out. Every pixel it
  visits is written into two copies of the image, `encoded` and `visible`.
- **Decoder.** `decode_image` reads the low bit of every channel of the whole image in
  the same order. It cuts the bit string into groups of eight, starting at bit 0, and
  reads each group as a binary number. The result is the characters before the first
  zero, or all of them when there is no zero.

The project has six modules:

- `Bits` (`bits.dfy`): bits, bytes and channels; `c & 1` and `(c & ~1) | bit`;
  `format(n, '0wb')` and `int(s, 2)`, with the arithmetic that relates them.
- `Serialisation` (`serialisation.dfy`): the payload (`message + chr(0)`, eight bits per
  character) and its shape.
- `Images` (`image.dfy`): an RGB image — a class holding a width, a height and an array
  of pixels in scan order — built from its pixels or by `img.copy()`.
- `Encoder` (`encoder.dfy`): the scan as pure specification functions (`Overwrite`,
  `Embed`), and the scan loops as in-place methods proved against them.
- `Decoder` (`decoder.dfy`): the bit collection loop as a method, proved against pure
  functions for the low bits (`Lsbs`), the grouping (`Group`) and the cut at the first
  zero (`SentinelCut`).
- `RoundTrip` (`roundtrip.dfy`): what the decoder recovers from the encoder's output.

The main results:

- A message with no zero character whose payload fits, `8 * (|message| + 1) <= 3 * w * h`,
  comes back unchanged (`RoundTripZeroFree`).
- An exact condition: a zero-free message comes back unchanged if and only if
  `8 * |message| <= 3 * w * h` (`RoundTripExactly`). The end marker itself need not fit
  whole: any leading bits of it that fit are zeros and read as a zero group.
- A zero-free message that does not fit comes back cut (`Truncated`). The result is its first
  `3wh / 8` characters, then the top `3wh % 8` bits of the next character read as a
  number, dropped only when that number is zero.

Messages are sequences of bytes (0 to 255). Pixel `(x, y)` sits at scan position
`y * width + x`. Channel `i` of the pixel at scan position `j` is flat channel `3 * j + i`.

**The last group.** Line 85 does not drop a last group shorter than eight bits;
`int(s, 2)` reads it as the shorter binary number it is. For example, "A" hidden in a
1 by 1 image leaves only the bits `010` of `01000001` in the image, and the decoder
returns `chr(2)`, not the empty string (`OnePixelScenario`).

## Model

| member | source | states |
|---|---|---|
| Bits.SetLsb | Steganography_project.py:33 | the new channel's low bit is the payload bit, bits 1 to 7 are unchanged (`r / 2 == c / 2`), the value moves by at most one, and a channel whose low bit already matches is unchanged |
| Bits.Lsb | Steganography_project.py:83 | `c & 1`: the low bit `r` with `c == 2 * (c / 2) + r`, so the other bits are `c / 2` |
| Bits.ToBinary | Steganography_project.py:20 | for `n < 2^width`, `format(n, '0wb')`: exactly `width` digits; its digits are fixed by `ToBinaryDigit` and it is inverted by `FromToBinary` |
| Bits.FromBinary | Steganography_project.py:85 | `int(s, 2)` of a bit string is below `2^len(s)`; it inverts `ToBinary` (`FromToBinary`) and reads prefixes as the top bits (`HighBits`) |
| Bits.ToBinaryDigit | Steganography_project.py:20 | digit `i` of the `width`-digit numeral of `n` is bit `width - 1 - i` of `n` (most significant first) |
| Bits.FromToBinary | Steganography_project.py:85 | `int(format(n, '0wb'), 2) == n` for every `n < 2^w` |
| Bits.HighBits | Steganography_project.py:85 | the first `r` digits of a `width`-digit numeral of `n` denote `n / 2^(width - r)` |
| Serialisation.ByteBits | Steganography_project.py:20 | `format(b, '08b')` has eight bits, and reading them back gives `b` |
| Serialisation.TopBits | Steganography_project.py:85 | the value of the first `r` of the eight bits of `b` |
| Serialisation.TopBitsBelow | Steganography_project.py:85 | fewer than eight leading bits of a non-zero character denote a smaller number |
| Serialisation.Serialise | Steganography_project.py:20 | the joined bit string has eight bits per character; bit by bit it is fixed by `SerialiseBit` and inverted by `Decoder.GroupSerialise` |
| Serialisation.Payload | Steganography_project.py:19-20 | the bits of `message + chr(0)`: `8 * (len(message) + 1)` of them; their values are fixed by `PayloadShape` |
| Serialisation.SerialiseBit | Steganography_project.py:20 | bit `k` of the joined bit string is bit `7 - k % 8` of character `k / 8` |
| Serialisation.SerialiseAt | Steganography_project.py:20 | bits `8i` to `8i + 7` of the joined bit string are the eight bits of character `i` |
| Serialisation.SerialisePrefix | Steganography_project.py:20 | the first `c` bits are the first `c / 8` characters whole and the leading `c % 8` bits of the next |
| Serialisation.PayloadShape | Steganography_project.py:19-20 | the payload has `8 * (len(message) + 1)` bits, each character MSB first, and its last eight bits are zero |
| Images.Image.FromPixels | Steganography_project.py:6 | the image that `Image.open(...).convert("RGB")` yields, given as `w * h` pixels in scan order: a fresh array holding exactly those pixels, with width `w` and height `h` |
| Images.Image.Copy | Steganography_project.py:15-16 | `img.copy()`: a fresh pixel array of the same size and contents |
| Encoder.Overwrite | Steganography_project.py:29-34 | one pixel as the scan leaves it, with the cursor at `start`: it has no contract of its own; `Encoder.EmbedChannels` fixes each channel (payload bit in the low bit, bits 1 to 7 kept) and `Encoder.WritePixel` is proved equal to it |
| Encoder.Embed | Steganography_project.py:23-40 | the scan's result on the pixel sequence has as many pixels as the source; channel by channel it is fixed by `EmbedChannels`, and the loops are proved equal to it (`EncodeScan`) |
| RoundTrip.ChannelAt | Steganography_project.py:29-34 | channel `i` of encoded pixel `j` is the source channel with payload bit `3j + i` written by `SetLsb` while that bit exists, and the source channel otherwise |
| RoundTrip.LsbAt | Steganography_project.py:24-83 | flat low bit `k` of the encoded image is payload bit `k` while one remains, and the source's low bit after that |
| Encoder.OverwritePast | Steganography_project.py:31 | a pixel reached after the payload has run out keeps its value |
| Encoder.EmbedAt | Steganography_project.py:24-34 | the pixel at scan position `j` is written with the payload cursor at `3 * j` |
| Encoder.EmbedChannels | Steganography_project.py:24-34 | write order and locality: flat channel `k = 3j + i < len(payload)` carries payload bit `k` in its low bit, keeps its other bits and moves by at most one; every channel from `len(payload)` on equals the source |
| Encoder.ScanComplete | Steganography_project.py:26-40 | stopping once the cursor has passed the payload or the image leaves every pixel at its final value |
| Encoder.WritePixel | Steganography_project.py:29-34 | the channel loop yields exactly the overwritten pixel and advances the cursor by `min(3, bits left)` |
| Encoder.EncodeRow | Steganography_project.py:25-37 | one row of the scan, with its early exit, keeps both copies equal and in the partly-scanned state |
| Encoder.EncodeScan | Steganography_project.py:23-40 | both nested loops leave `encoded` holding the hidden-payload image and `visible` equal to it |
| Encoder.EncodeImage | Steganography_project.py:15-40 | two fresh, distinct copies of the source's size, both holding `Embed` of the source and the payload; the source is only read |
| Decoder.Lsbs | Steganography_project.py:79-83 | `3 * len(pixels)` bits, and flat bit `k` is the low bit of channel `k % 3` of pixel `k / 3` |
| Decoder.PixelLsbs | Steganography_project.py:82-83 | the three low bits of one pixel, R, G, B |
| Decoder.Group | Steganography_project.py:85 | line 85's comprehension: one value per started group of eight bits, `ceil(len(bits) / 8)` of them; inverted by `GroupSerialise`, and a short last group is read by `GroupTail` |
| Decoder.ChunkValue | Steganography_project.py:85 | a chunk of at most eight bits reads as a byte equal to its binary value |
| Decoder.DecodeImage | Steganography_project.py:78-86 | the loop's result is the cut, grouped low bits of all pixels in scan order |
| Decoder.Decoded | Steganography_project.py:85-86 | at most `ceil(3 * len(pixels) / 8)` characters come out |
| Decoder.FirstIndex | Steganography_project.py:86 | `chars.index(x)` is the position of the first `x` |
| Decoder.SentinelCut | Steganography_project.py:86 | the result is a prefix of the characters, contains no zero, and is either all of them or followed by a zero |
| Decoder.SentinelCutUnique | Steganography_project.py:86 | those three properties determine the cut |
| Decoder.SentinelCutAppend | Steganography_project.py:86 | a zero-free prefix passes through the cut |
| Decoder.SentinelCutAfter | Steganography_project.py:86 | everything after the first zero is ignored |
| Decoder.GroupByte | Steganography_project.py:85 | eight bits at the front decode to the character they encode |
| Decoder.GroupFirst | Steganography_project.py:85 | the first group of a serialised string followed by anything is its first character |
| Decoder.GroupSerialise | Steganography_project.py:85 | grouping inverts serialisation: `Group(Serialise(m) + rest) == m + Group(rest)` |
| Decoder.GroupTail | Steganography_project.py:85 | a tail shorter than eight bits is one group, read as the shorter number; an empty tail gives no group |
| RoundTrip.LsbsEmbed | Steganography_project.py:24-83 | the low bits of the encoded image are the payload cut at the capacity, then the source's own low bits |
| RoundTrip.FitsBits | Steganography_project.py:24-83 | when the payload fits, the low bits are the payload followed by the source's remaining low bits |
| RoundTrip.RoundTripFits | Steganography_project.py:19-86 | a payload that fits decodes to the message up to its first zero |
| RoundTrip.RoundTripZeroFree | Steganography_project.py:19-86 | a zero-free message whose payload fits decodes to itself |
| RoundTrip.SentinelCutSingle | Steganography_project.py:86 | a single zero is cut, a single other character is kept |
| RoundTrip.PartialGroup | Steganography_project.py:85 | the leading `r < 8` bits of a character decode to its top `r` bits, or to nothing when `r = 0` |
| RoundTrip.PayloadPrefix | Steganography_project.py:19-20 | a prefix of `c` payload bits splits at characters as `c / 8` whole ones and `c % 8` leading bits |
| RoundTrip.TruncatedBits | Steganography_project.py:19-83 | an image too small for the payload reads back the whole characters that fit, then the leading bits of the next |
| RoundTrip.Truncated | Steganography_project.py:19-86 | a zero-free message that does not fit decodes to its first `3wh / 8` characters, then the top `3wh % 8` bits of the next one unless they are zero |
| RoundTrip.CutShortWhole | Steganography_project.py:85-86 | the cut-short result is the whole message exactly when all its characters fit |
| RoundTrip.RoundTripExactly | Steganography_project.py:19-86 | a zero-free message is decoded exactly if and only if `8 * len(message) <= 3wh` |
| RoundTrip.EncodeThenDecode | Steganography_project.py:4-86 | running the encoder and then the decoder on either output image of a loaded image gives back a zero-free message whose payload fits |
| RoundTrip.EmptyMessage | Steganography_project.py:19-86 | the empty message decodes to the empty message from an image of any size |
| RoundTrip.HiScenario | Steganography_project.py:19-86 | "Hi" in a 10 by 10 image decodes to "Hi" |
| RoundTrip.OnePixelScenario | Steganography_project.py:19-86 | "A" in a 1 by 1 image decodes to `chr(2)` |

## Left out

- Opening, converting, saving and showing images with PIL (lines 6, 58-59, 64-65, 70): the loaded image is built by `Images.Image.FromPixels` from its size and pixels, and the results are returned instead of saved.
- The exception handlers for missing or unreadable files (lines 5-12, 69-76): they only print a message and return.
- Drawing the message on `visible` and loading the font (lines 43-51): a foreign drawing library. The model's `visible` is the copy as it stands before drawing.
- The red/white colour choice (line 49): it needs `str.lower`, and nothing is drawn.
- Output paths, all printing, and the interactive `main` loop (lines 54-56, 61-62, 88, 91-123): console and file-system glue.
- Characters above code point 255: `format(ord(c), '08b')` would give more than eight bits, so messages are byte sequences.
- Encoder.EncodeScan: the two `break`s (lines 26-27, 39-40) are folded into the loop guards. This stops at the same pixel but does not model the separate exit points.
- Decoder.DecodeImage: the Python string of `'0'`/`'1'` characters is a sequence of bits, and the characters are returned rather than printed.
