# stegaimage in Dafny

This is a model of the codec at the heart of `stegaimage`, which hides a byte
message in the least-significant bits of an image's pixels. The codec is the
class `StegaImage`. It holds the image's pixels as a list of tuples
(`self.data`). Channels 0, 1 and 2 of every pixel each carry one bit in their
low bit. Together these bits form the *bit plane*.

A bit offset `o` is addressed backwards from the last pixel: pixel
`-(o + 1) // 3` (a negative Python index), channel `o % 3`. So offsets 0, 1
and 2 are channels 0, 1 and 2 of the last pixel, and offset 3 is channel 0
of the pixel before it. A message is framed in the plane like this:

- offsets 0..31: its length in bits, as a 32-bit big-endian number;
- offset 32: not used;
- offsets 33 onwards: its bytes, each most significant bit first.

The model has four modules:

- `Bits` (`bits.dfy`): powers of two, `>>` and `& 1` on non-negative
  integers, `b << k` for a bit, and big-endian bit strings with their round
  trip.
- `BitPlane` (`bitplane.dfy`): pixels as sequences of byte-valued channels,
  capacity arithmetic, the backwards addressing and its inverse, and the
  low-bit operations. It also defines `Plane`, the bit plane of a pixel
  list, and `SetBitOf`, the pure effect of setting one bit.
- `Framing` (`framing.dfy`): the error kinds and `Result`.
  - `Embed` is what writing a message does to the plane.
  - `Decode` is what reading the plane returns.
  - Lemmas prove the round trip, the ways reading can fail and the
    empty-message case.
- `Stega` (`stega.dfy`): the class `StegaImage`.
  - Its `data` field is an `array<Pixel>` that `SetBit` updates in place,
    one pixel at a time, as `_set_bit` replaces `self.data[pixel_index]`.
  - `GetBit` and `MessageWillFit` are functions that read it.
  - `Read` and its two loops are methods that do not modify it.
  - `Write` and its two loops are methods proved against `Embed`.

Python exceptions become `Err` values of `Framing.Error`:

| error | Python exception | raised by |
|---|---|---|
| `ImageTooSmall` | `ValueError` | the constructor |
| `OffsetOutOfRange(offsetMax)` | `IndexError` | `_get_bit` and `_set_bit` |
| `InvalidBitValue(value)` | `ValueError` | `_set_bit` |
| `LengthExceedsCapacity(length, limit)` | `RuntimeError` | `read` |

Where a failing call has already changed state, the model says so. `write`
of a message that does not fit stops with `OffsetOutOfRange` only after it
has written the length prefix and every payload bit that lies inside the
plane. `Write`'s postcondition covers both outcomes.

Four facts about the code that are easy to get wrong:

- Offset 0 is channel 0 of the last pixel, not the last value of a flattened
  channel sequence, and offset 3 is channel 0 of the pixel before it
  (`PixelIndex`, `BandIndex`).
- With 3 bits per pixel, 32 or more raw bits means at least 11 pixels, so no
  accepted image has a message capacity of -1: it is always at least 0
  (`CapacityOfAcceptedImage`).
- `write` does not check the capacity. A message that does not fit makes
  `_set_bit` raise `IndexError` part-way through, after the in-range bits
  have been written.
- `read` can read past the end even when the prefix is within the capacity.
  It reads `ceil(prefix / 8)` whole bytes from offset 33, so it raises
  `IndexError` exactly when `33 + 8 * ceil(prefix / 8) > 3 * pixels`. That
  can only happen when the prefix is not a multiple of 8
  (`DecodeOutcomes`, `DecodeReadsPastEnd`).

## Model

| member | source | states |
|---|---|---|
| `Stega.StegaImage.FromPixels` | stegaimage.py:32 | the codec takes over exactly the given pixel list, in a fresh array |
| `Stega.StegaImage.Open` | stegaimage.py:30-34 | construction fails with the too-small error exactly when the image has fewer than 11 pixels (fewer than 32 raw bits); otherwise the object holds the pixels and its message capacity is non-negative |
| `BitPlane.CapacityOfAcceptedImage` | stegaimage.py:84-92 | at least 32 raw bits holds exactly when there are at least 11 pixels, and then the message capacity `3 * pixels - 33` is non-negative |
| `BitPlane.NegativeIndexAddressing` | stegaimage.py:50-51 | for every in-range offset, `-(o + 1) // 3` is a valid negative index and names pixel `pixels - 1 - o / 3` |
| `BitPlane.OffsetOf` | stegaimage.py:50-52 | every (pixel, channel 0..2) pair is addressed by some in-range offset: the addressing is onto |
| `BitPlane.AddressingInjective` | stegaimage.py:71-74 | two in-range offsets that address the same pixel and channel are equal |
| `BitPlane.SetLowBit` | stegaimage.py:75-76 | or-ing 1 into a channel keeps its upper seven bits and makes its low bit 1 |
| `BitPlane.ClearLowBit` | stegaimage.py:77-78 | and-ing with ~1 keeps the channel's upper seven bits and makes its low bit 0 |
| `BitPlane.WithLsb` | stegaimage.py:75-78 | setting a channel's bit to b keeps its upper seven bits and makes its low bit b |
| `BitPlane.Plane` | stegaimage.py:46-53 | the bit plane has one bit per raw bit, and the low bit of every channel 0..2 of every pixel appears in it, at the offset that addresses that pixel and channel |
| `BitPlane.SetBitOf` | stegaimage.py:71-82 | setting bit o to b changes bit o of the plane to b and no other bit of the plane, and changes nothing but low bits of channels 0..2 (other pixels, upper bits and extra channels are kept) |
| `BitPlane.PlaneDeterminesPixels` | stegaimage.py:71-82 | two pixel lists with the same plane that differ at most in low bits are equal, so "plane plus kept upper bits" is the whole state |
| `BitPlane.SetBitIdempotent` | stegaimage.py:75-82 | setting the same bit to the same value a second time changes nothing |
| `Stega.StegaImage.GetBit` | stegaimage.py:36-53 | fails with the out-of-range error (carrying the last offset) exactly when the offset exceeds `3 * pixels - 1`; otherwise returns bit o of the plane |
| `Stega.StegaImage.SetBit` | stegaimage.py:55-82 | fails with the out-of-range error above the last offset, otherwise with the invalid-bit error for a value other than 0 or 1, and then leaves the pixels unchanged; on success the pixels become `SetBitOf` of the old pixels and reading the bit back gives the value |
| `Stega.StegaImage.MessageWillFit` | stegaimage.py:168-175 | a message fits exactly when its last payload bit, at offset `33 + 8 * len - 1`, lies within the plane |
| `Bits.Shl` | stegaimage.py:125 | `b << k` for a bit b is b times 2^k |
| `Bits.BigEndianBound` | stegaimage.py:138-142 | a w-bit big-endian field is below 2^w, so an 8-bit character is a byte |
| `Bits.BigEndianRoundTrip` | stegaimage.py:155-157 | encoding a value below 2^w in w bits MSB first and summing the bits back gives the value |
| `Bits.ShiftedSumValue` | stegaimage.py:123-125 | the running sum `sum(bit << (w - 1 - i))` after all w bits equals the big-endian value of the field |
| `Framing.ByteAt` | stegaimage.py:138-142 | the character read at a start offset is the big-endian value of the 8 bits there, and is a byte |
| `Framing.PayloadBit` | stegaimage.py:161-164 | the frame bit at offset 33 + i is bit 7 - i % 8 of byte i / 8 |
| `Framing.Embed` | stegaimage.py:154-164 | after writing, offsets 0..31 hold the bit count 8 * len MSB first, offset 32 is unchanged, offset 33 + i holds bit 7 - i % 8 of byte i / 8, and every later offset is unchanged |
| `Framing.EmbeddedByte` | stegaimage.py:159-164 | byte j of a written message is stored MSB first in offsets 33 + 8j .. 33 + 8j + 7 |
| `Framing.DecodeOutcomes` | stegaimage.py:131-143 | reading fails with the length error exactly when the prefix exceeds `3 * pixels - 33`; a whole-byte prefix within the limit decodes to prefix/8 bytes; reading runs past the end exactly when the prefix is within the limit, not a multiple of 8, and its rounded-up byte ends beyond the plane |
| `Framing.DecodeReadsPastEnd` | stegaimage.py:137-140 | a 12-pixel image whose prefix is 1 (within its capacity of 3) makes reading fail with an out-of-range offset, not the length error |
| `Framing.EmbedThenDecode` | stegaimage.py:122-164 | if the message fits and its bit count is below 2^32, reading after writing returns exactly the message |
| `Framing.EmptyMessage` | stegaimage.py:154-164 | writing the empty message stores prefix 0, keeps every bit from offset 32 on, and reads back as the empty message |
| `Stega.StegaImage.ReadLengthPrefix` | stegaimage.py:121-125 | the 32-bit loop computes the big-endian value of offsets 0..31 |
| `Stega.StegaImage.ReadChar` | stegaimage.py:138-142 | the 8-bit loop returns the byte at offsets start..start+7, and fails with the out-of-range error exactly when start + 7 is beyond the last offset |
| `Stega.StegaImage.Read` | stegaimage.py:114-145 | reading returns exactly `Decode` of the current plane (the length error, the past-the-end error, or `ceil(prefix / 8)` bytes read MSB first from offset 33), and never modifies the pixels |
| `Stega.StegaImage.WriteLength` | stegaimage.py:154-157 | the length step writes bits 31..0 of the bit count at offsets 0..31 and changes no other bit and no upper bit |
| `Stega.StegaImage.WritePayload` | stegaimage.py:159-164 | the message step fails with the out-of-range error exactly when the message does not fit, and in both outcomes leaves the plane as `Embed` of the original plane, changing no upper bit |
| `Stega.WriteStep` | stegaimage.py:156-164 | each `_set_bit` of the write loops extends the written part of the frame by one offset and keeps every upper bit |
| `Stega.StegaImage.Write` | stegaimage.py:147-166 | writing succeeds exactly when `message_will_fit` holds, otherwise fails with the out-of-range error; either way the new plane is `Embed` of the old one, the pixel count is unchanged, and no upper bit or extra channel changes |
| `Stega.StegaImage.WriteThenRead` | stegaimage.py:114-164 | on an image the message fits in, with a bit count below 2^32, `write` followed by `read` returns exactly the message and changes no upper bit |

## Left out

- Image file I/O (`Image.open`, `getdata`, `putdata`, `save`, and choosing the format from the file extension) is not part of this model. `Open` takes the decoded pixel list as given.
- The command-line layer (argparse, `write_command`, `read_command`, reading the message from a phrase, stdin or a file, printing, `exit`) is not part of this model.
- `Read` returns the message as a sequence of bytes 0..255. The Python 2 step that builds a `str` with `chr` and wraps it in a `bytearray` is not modelled.
- `Stega.StegaImage.Open` requires every pixel to have at least three channels. Images whose pixels are plain integers (grayscale) or have fewer channels are not modelled. Extra channels such as alpha are modelled and are proved never to change.
- Channel values are bytes (0..255). Modes with wider channel values are not modelled.
- Offsets are natural numbers. The code checks only the upper bound, so a negative offset would wrap around as a Python index; that is not modelled.
- `BitPlane.SetLowBit` and `BitPlane.ClearLowBit`: or-ing 1 and and-ing with ~1 are stated with arithmetic on the byte value (keep `v / 2`, set `v % 2`), not as bit-vector masks.
- `Framing.EmbedThenDecode`: requires the bit count `8 * len(message)` to be below 2^32. `Write` itself models any length: it stores bits 31..0 of the count, so higher bits are dropped, as in the code. The round trip is not claimed when that truncation happens.
