/** The codec object: an image's pixel list together with bit access by
    offset and the framed message read and write on top of it. */
module Stega {
  import opened Bits
  import opened BitPlane
  import opened Framing

  class StegaImage {
    /** The image's pixels in the image's own order; offsets 0..2 live in
        the last one. */
    var data: array<Pixel>

    /** Every pixel has channels 0..2 and the image has at least 32 raw bits. */
    ghost predicate Valid()
      reads this, data
    {
      WellFormed(data[..]) && LargeEnough(data.Length)
    }

    /** Takes over the decoded pixel list; the size check is Open's. */
    constructor FromPixels(pixels: seq<Pixel>)
      requires WellFormed(pixels)
      ensures fresh(data) && data[..] == pixels
    {
      data := new Pixel[|pixels|](i requires 0 <= i < |pixels| => pixels[i]);
    }

    /** Builds the codec over a decoded image, rejecting an image with fewer
        than 32 raw bits (fewer than 11 pixels). */
    static method Open(pixels: seq<Pixel>) returns (r: Result<StegaImage>)
      requires WellFormed(pixels)
      ensures r.Err? <==> |pixels| < 11
      ensures r.Err? ==> r.error == ImageTooSmall
      ensures r.Ok? ==> fresh(r.value) && fresh(r.value.data) && r.value.data[..] == pixels
      ensures r.Ok? ==> r.value.Valid() && MessageBitsLimit(r.value.data.Length) >= 0
    {
      var image := new StegaImage.FromPixels(pixels);
      if RawBitsLimit(image.data.Length) < 32 {
        return Err(ImageTooSmall);
      }
      return Ok(image);
    }

    /** The bit at `offset`: the low bit of channel offset % 3 of the pixel
        at Python index -(offset + 1) // 3. Fails above the last offset. */
    function GetBit(offset: nat): (r: Result<Bit>)
      reads this, data
      requires Valid()
      ensures r.Ok? <==> offset < RawBitsLimit(data.Length)
      ensures r.Err? ==> r.error == OffsetOutOfRange(RawBitsLimit(data.Length) - 1)
      ensures r.Ok? ==> r.value == Plane(data[..])[offset]
    {
      var offsetMax := RawBitsLimit(data.Length) - 1;
      if offset > offsetMax then
        Err(OffsetOutOfRange(offsetMax))
      else
        NegativeIndexAddressing(data.Length, offset);
        var pixelData := data[PyIndex(data.Length, NegativePixelIndex(offset))];
        var bandIndex := offset % 3;
        Ok(Lsb(pixelData[bandIndex]))
    }

    /** Sets the bit at `offset` to `newValue` by replacing the addressed
        pixel with a copy whose addressed channel is `v | 1` or `v & ~1`.
        Fails above the last offset, or for a value other than 0 or 1, and
        then changes nothing. */
    method SetBit(offset: nat, newValue: int) returns (r: Result<()>)
      requires Valid()
      modifies data
      ensures Valid()
      ensures r.Ok? <==> offset < RawBitsLimit(data.Length) && (newValue == 0 || newValue == 1)
      ensures offset >= RawBitsLimit(data.Length) ==>
                r == Err(OffsetOutOfRange(RawBitsLimit(data.Length) - 1))
      ensures offset < RawBitsLimit(data.Length) && newValue != 0 && newValue != 1 ==>
                r == Err(InvalidBitValue(newValue))
      ensures r.Err? ==> data[..] == old(data[..])
      ensures r.Ok? ==> data[..] == SetBitOf(old(data[..]), offset, newValue)
      ensures r.Ok? ==> GetBit(offset) == Ok(newValue)
    {
      var offsetMax := RawBitsLimit(data.Length) - 1;
      if offset > offsetMax {
        return Err(OffsetOutOfRange(offsetMax));
      }
      NegativeIndexAddressing(data.Length, offset);
      var pixelIndex := PyIndex(data.Length, NegativePixelIndex(offset));
      var pixelData := data[pixelIndex];
      var bandIndex := offset % 3;
      var channel: Channel;
      if newValue == 1 {
        channel := SetLowBit(pixelData[bandIndex]);
      } else if newValue == 0 {
        channel := ClearLowBit(pixelData[bandIndex]);
      } else {
        return Err(InvalidBitValue(newValue));
      }
      data[pixelIndex] := pixelData[bandIndex := channel];
      return Ok(());
    }

    /** Whether `message` fits: its bits end within the plane. */
    function MessageWillFit(message: seq<Byte>): (fits: bool)
      reads this
      ensures fits <==> PayloadStart + |message| * 8 <= RawBitsLimit(data.Length)
    {
      |message| * 8 <= MessageBitsLimit(data.Length)
    }

    /** The 32-bit length prefix, read bit by bit from offsets 0..31 with
        the bit at offset i weighing 2^(31-i). */
    method ReadLengthPrefix() returns (msgLength: nat)
      requires Valid()
      ensures msgLength == LengthPrefix(Plane(data[..]))
    {
      ghost var plane := Plane(data[..]);
      msgLength := 0;
      for i := 0 to 32
        invariant msgLength == ShiftedSum(plane, 0, 32, i)
      {
        var bit := GetBit(i).value;
        assert ShiftedSum(plane, 0, 32, i + 1) == msgLength + Shl(plane[i], 31 - i);
        msgLength := msgLength + Shl(bit, 31 - i);
      }
      ShiftedSumValue(plane, 0, 32, 32);
    }

    /** The byte at offsets start..start+7, most significant bit first;
        fails at the first of those offsets that lies beyond the plane. */
    method ReadChar(start: nat) returns (r: Result<Byte>)
      requires Valid()
      ensures r.Ok? <==> start + 8 <= RawBitsLimit(data.Length)
      ensures r.Ok? ==> r.value == ByteAt(Plane(data[..]), start)
      ensures r.Err? ==> r.error == OffsetOutOfRange(RawBitsLimit(data.Length) - 1)
    {
      ghost var plane := Plane(data[..]);
      var charBits := 0;
      for j := 0 to 8
        invariant j == 0 || start + j <= |plane|
        invariant charBits == ShiftedSum(plane, start, 8, j)
      {
        var bit := GetBit(start + j);
        if bit.Err? {
          return Err(bit.error);
        }
        assert bit.value == plane[start + j];
        assert ShiftedSum(plane, start, 8, j + 1) == charBits + Shl(plane[start + j], 7 - j);
        charBits := charBits + Shl(bit.value, 7 - j);
      }
      ShiftedSumValue(plane, start, 8, 8);
      assert charBits == ByteAt(plane, start);
      return Ok(charBits);
    }

    /** Reads the framed message: the length prefix, the capacity check,
        then one byte per started group of 8 prefix bits from offset 33. */
    method Read() returns (r: Result<seq<Byte>>)
      requires Valid()
      ensures r == Decode(Plane(data[..]))
    {
      ghost var plane := Plane(data[..]);
      var msgLength := ReadLengthPrefix();
      if msgLength > RawBitsLimit(data.Length) - 11 * 3 {
        return Err(LengthExceedsCapacity(msgLength, MessageBitsLimit(data.Length)));
      }
      var message: seq<Byte> := [];
      var i := PayloadStart;
      while i < PayloadStart + msgLength
        invariant i == PayloadStart + 8 * |message|
        invariant |message| <= (msgLength + 7) / 8
        invariant i <= |plane|
        invariant forall k :: 0 <= k < |message| ==> message[k] == ByteAt(plane, PayloadStart + 8 * k)
        decreases PayloadStart + msgLength - i
      {
        var byte := ReadChar(i);
        if byte.Err? {
          return Err(byte.error);
        }
        message := message + [byte.value];
        i := i + 8;
      }
      assert |message| == (msgLength + 7) / 8;
      assert message == seq(|message|, k requires 0 <= k < |message| => ByteAt(plane, PayloadStart + 8 * k));
      return Ok(message);
    }

    /** The length-encoding step of Write: `lengthInBits` as 32 bits at
        offsets 0..31, most significant first (bits above 31 are dropped). */
    method WriteLength(lengthInBits: nat, ghost message: seq<Byte>)
      requires Valid()
      requires lengthInBits == |message| * 8
      modifies data
      ensures Valid()
      ensures SameUpper(old(data[..]), data[..])
      ensures Plane(data[..]) == Overlay(old(Plane(data[..])), message, PayloadStart)
    {
      ghost var before := data[..];
      for i := 0 to 32
        invariant Valid()
        invariant SameUpper(before, data[..])
        invariant Plane(data[..]) == Overlay(Plane(before), message, i)
      {
        var bit := NthBit(lengthInBits, 31 - i);
        WriteStep(before, data[..], Plane(before), message, i, bit);
        var _ := SetBit(i, bit);
      }
      OverlayStep(Plane(before), message, 32);
    }

    /** The message-encoding step of Write: bit 7 - i % 8 of byte i / 8 at
        offset 33 + i, for every i below the message's bit count. Fails at
        the first offset beyond the plane, having written all before it.
        `original` is the plane before the length-encoding step. */
    method WritePayload(message: seq<Byte>, ghost original: seq<Bit>) returns (r: Result<()>)
      requires Valid()
      requires Plane(data[..]) == Overlay(original, message, PayloadStart)
      modifies data
      ensures Valid()
      ensures r.Ok? <==> MessageWillFit(message)
      ensures r.Err? ==> r.error == OffsetOutOfRange(RawBitsLimit(data.Length) - 1)
      ensures SameUpper(old(data[..]), data[..])
      ensures Plane(data[..]) == Embed(original, message)
    {
      ghost var before := data[..];
      var lengthInBits := |message| * 8;
      for i := 0 to lengthInBits
        invariant Valid()
        invariant SameUpper(before, data[..])
        invariant PayloadStart + i <= RawBitsLimit(data.Length)
        invariant Plane(data[..]) == Overlay(original, message, PayloadStart + i)
      {
        var byteIndex := i / 8;
        var bitOffset := 7 - i % 8;
        var bit := NthBit(message[byteIndex], bitOffset);
        if PayloadStart + i < RawBitsLimit(data.Length) {
          PayloadBit(message, i);
          WriteStep(before, data[..], original, message, PayloadStart + i, bit);
        }
        var res := SetBit(PayloadStart + i, bit);
        if res.Err? {
          OverlayComplete(original, message, PayloadStart + i);
          return res;
        }
      }
      OverlayComplete(original, message, PayloadStart + lengthInBits);
      return Ok(());
    }

    /** Writes `message`: its bit count as 32 bits at offsets 0..31, most
        significant first, then its bits from offset 33 on. A message that
        does not fit fails with an out-of-range offset after every bit that
        fits has been written. */
    method Write(message: seq<Byte>) returns (r: Result<()>)
      requires Valid()
      modifies data
      ensures Valid()
      ensures r.Ok? <==> MessageWillFit(message)
      ensures r.Err? ==> r.error == OffsetOutOfRange(RawBitsLimit(data.Length) - 1)
      ensures SameUpper(old(data[..]), data[..])
      ensures Plane(data[..]) == Embed(old(Plane(data[..])), message)
    {
      ghost var before := data[..];
      var lengthInBits := |message| * 8;
      WriteLength(lengthInBits, message);
      ghost var middle := data[..];
      r := WritePayload(message, Plane(before));
      SameUpperTransitive(before, middle, data[..]);
    }

    /** Writing a message that fits, with a bit count below 2^32, and then
        reading gives back exactly that message. */
    method WriteThenRead(message: seq<Byte>) returns (r: Result<seq<Byte>>)
      requires Valid()
      requires MessageWillFit(message) && |message| * 8 < Pow2(32)
      modifies data
      ensures Valid()
      ensures SameUpper(old(data[..]), data[..])
      ensures r == Ok(message)
    {
      ghost var plane := Plane(data[..]);
      var _ := Write(message);
      EmbedThenDecode(plane, message);
      r := Read();
    }
  }

  /** One step of writing a frame: setting the framed bit at offset `upto`
      extends the overlay of `original` by that offset, and the pixels keep
      every upper bit of `anchor`. */
  lemma WriteStep(anchor: seq<Pixel>, current: seq<Pixel>, original: seq<Bit>, message: seq<Byte>,
                  upto: nat, bit: Bit)
    requires WellFormed(anchor) && WellFormed(current)
    requires upto < RawBitsLimit(|current|)
    requires SameUpper(anchor, current)
    requires |original| == RawBitsLimit(|current|)
    requires Plane(current) == Overlay(original, message, upto)
    requires FramedBit(message, upto) == Some(bit)
    ensures var next := SetBitOf(current, upto, bit);
            SameUpper(anchor, next) && Plane(next) == Overlay(original, message, upto + 1)
  {
    var next := SetBitOf(current, upto, bit);
    SameUpperTransitive(anchor, current, next);
    OverlayStep(original, message, upto);
  }
}
