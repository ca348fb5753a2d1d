/** The message frame inside the bit plane: a 32-bit big-endian bit count at
    offsets 0..31, offset 32 left alone, and the message bytes from offset 33
    on, each most significant bit first. Embed says what writing a message
    does to the plane, Decode what reading the plane returns. */
module Framing {
  import opened Bits

  /** The failures of the codec. */
  datatype Error =
    | ImageTooSmall                                  // ValueError at construction
    | OffsetOutOfRange(offsetMax: int)               // IndexError from the bit accessors
    | InvalidBitValue(value: int)                    // ValueError from setting a bit
    | LengthExceedsCapacity(length: nat, limit: int) // RuntimeError from reading

  datatype Result<T> = Ok(value: T) | Err(error: Error)

  datatype Option<T> = None | Some(value: T)

  /** Where the payload starts: after the 32 length bits and one unused bit. */
  const PayloadStart: nat := 33

  /** The bit that writing `message` puts at `offset`, if any: bit 31-o of
      the bit count for o < 32, nothing at 32, then the message bits. */
  function FramedBit(message: seq<Byte>, offset: nat): Option<Bit>
  {
    if offset < 32 then
      Some(NthBit(|message| * 8, 31 - offset))
    else if PayloadStart <= offset < PayloadStart + |message| * 8 then
      var i := offset - PayloadStart;
      Some(NthBit(message[i / 8], 7 - i % 8))
    else
      None
  }

  /** The framed bit at offset 33 + i is bit 7 - i % 8 of byte i / 8. */
  lemma PayloadBit(message: seq<Byte>, i: nat)
    requires i < |message| * 8
    ensures FramedBit(message, PayloadStart + i) == Some(NthBit(message[i / 8], 7 - i % 8))
  {
  }

  /** `plane` with the framed bits of `message` written at the offsets below `upto`. */
  function Overlay(plane: seq<Bit>, message: seq<Byte>, upto: nat): (r: seq<Bit>)
    ensures |r| == |plane|
  {
    seq(|plane|, o requires 0 <= o < |plane| =>
      if o < upto && FramedBit(message, o).Some? then FramedBit(message, o).value else plane[o])
  }

  /** `plane` after writing `message`: every framed bit that lies inside the
      plane is written, every other offset keeps its bit. */
  function Embed(plane: seq<Bit>, message: seq<Byte>): (r: seq<Bit>)
    requires |plane| >= PayloadStart
    ensures |r| == |plane|
    ensures r[..32] == ToBigEndian(|message| * 8, 32)
    ensures r[32] == plane[32]
    ensures forall i :: 0 <= i < |message| * 8 && PayloadStart + i < |plane| ==>
              r[PayloadStart + i] == NthBit(message[i / 8], 7 - i % 8)
    ensures forall o :: PayloadStart + |message| * 8 <= o < |plane| ==> r[o] == plane[o]
  {
    var r := Overlay(plane, message, |plane|);
    assert r[..32] == ToBigEndian(|message| * 8, 32);
    r
  }

  /** Writing the framed bit at offset `upto` extends the overlay by one offset. */
  lemma OverlayStep(plane: seq<Bit>, message: seq<Byte>, upto: nat)
    requires upto < |plane|
    ensures FramedBit(message, upto).Some? ==>
      Overlay(plane, message, upto + 1) == Overlay(plane, message, upto)[upto := FramedBit(message, upto).value]
    ensures FramedBit(message, upto).None? ==>
      Overlay(plane, message, upto + 1) == Overlay(plane, message, upto)
  {
  }

  /** Once every framed offset inside the plane is written, the result is Embed. */
  lemma OverlayComplete(plane: seq<Bit>, message: seq<Byte>, upto: nat)
    requires |plane| >= PayloadStart
    requires upto >= |plane| || upto >= PayloadStart + |message| * 8
    ensures Overlay(plane, message, upto) == Embed(plane, message)
  {
  }

  /** The byte stored MSB first in the eight bits from `start`. */
  function ByteAt(plane: seq<Bit>, start: nat): (b: Byte)
    requires start + 8 <= |plane|
    ensures b == BigEndian(plane[start..start + 8])
  {
    BigEndianBound(plane[start..start + 8]);
    assert Pow2(8) == 256 by { Pow2Eight(); }
    BigEndian(plane[start..start + 8])
  }

  lemma Pow2Eight()
    ensures Pow2(8) == 256
  {
    assert Pow2(1) == 2;
    assert Pow2(2) == 4;
    assert Pow2(4) == 16;
  }

  /** The value of the 32-bit length prefix. */
  function LengthPrefix(plane: seq<Bit>): nat
    requires |plane| >= 32
  {
    BigEndian(plane[..32])
  }

  /** Reading the plane. A prefix above the capacity is rejected; otherwise
      one byte is read for every started group of 8 prefix bits, 8 bits per
      byte from offset 33 on, and reading beyond the plane fails. */
  function Decode(plane: seq<Bit>): Result<seq<Byte>>
    requires |plane| >= 32
  {
    var length := LengthPrefix(plane);
    var limit := |plane| - PayloadStart;
    if length > limit then
      Err(LengthExceedsCapacity(length, limit))
    else
      var count := (length + 7) / 8;
      if PayloadStart + 8 * count > |plane| then
        Err(OffsetOutOfRange(|plane| - 1))
      else
        Ok(seq(count, j requires 0 <= j < count => ByteAt(plane, PayloadStart + 8 * j)))
  }

  /** How Decode fails and what it returns: a prefix above the capacity is a
      length error; a prefix within the capacity that is a whole number of
      bytes always decodes, to that many bytes; only a prefix that ends in a
      partial byte can run the last byte past the end of the plane. */
  lemma DecodeOutcomes(plane: seq<Bit>)
    requires |plane| >= 32
    ensures Decode(plane).Err? && Decode(plane).error.LengthExceedsCapacity? <==>
              LengthPrefix(plane) > |plane| - PayloadStart
    ensures LengthPrefix(plane) <= |plane| - PayloadStart && LengthPrefix(plane) % 8 == 0 ==>
              Decode(plane).Ok? && |Decode(plane).value| * 8 == LengthPrefix(plane)
    ensures Decode(plane).Err? && Decode(plane).error.OffsetOutOfRange? <==>
              LengthPrefix(plane) <= |plane| - PayloadStart && LengthPrefix(plane) % 8 != 0 &&
              PayloadStart + LengthPrefix(plane) + (8 - LengthPrefix(plane) % 8) > |plane|
  {
  }

  /** A plane of 36 bits (12 pixels) whose prefix says 1 bit: the prefix is
      within the capacity of 3 bits, but the byte read for it needs offsets
      33..40, so reading fails with an out-of-range offset rather than a
      length error. */
  lemma DecodeReadsPastEnd()
    ensures var plane := ToBigEndian(1, 32) + [0, 0, 0, 0];
            LengthPrefix(plane) == 1 && Decode(plane) == Err(OffsetOutOfRange(35))
  {
    var plane := ToBigEndian(1, 32) + [0, 0, 0, 0];
    assert plane[..32] == ToBigEndian(1, 32);
    BigEndianRoundTrip(1, 32);
  }

  /** Byte j of the message sits MSB first at offsets 33+8j..33+8j+7 of the
      embedded plane. */
  lemma EmbeddedByte(plane: seq<Bit>, message: seq<Byte>, j: nat)
    requires |plane| >= PayloadStart
    requires |message| * 8 <= |plane| - PayloadStart
    requires j < |message|
    ensures ByteAt(Embed(plane, message), PayloadStart + 8 * j) == message[j]
  {
    var e := Embed(plane, message);
    var start := PayloadStart + 8 * j;
    forall t | 0 <= t < 8
      ensures e[start..start + 8][t] == ToBigEndian(message[j], 8)[t]
    {
      var i := 8 * j + t;
      assert i / 8 == j && i % 8 == t;
      assert e[start + t] == NthBit(message[i / 8], 7 - i % 8);
    }
    assert e[start..start + 8] == ToBigEndian(message[j], 8);
    Pow2Eight();
    BigEndianRoundTrip(message[j], 8);
  }

  /** Reading back what was written: on a plane with room for the message
      (and a bit count below 2^32), Decode of Embed returns the message. */
  lemma {:induction false} EmbedThenDecode(plane: seq<Bit>, message: seq<Byte>)
    requires |plane| >= PayloadStart
    requires |message| * 8 <= |plane| - PayloadStart
    requires |message| * 8 < Pow2(32)
    ensures Decode(Embed(plane, message)) == Ok(message)
  {
    var e := Embed(plane, message);
    BigEndianRoundTrip(|message| * 8, 32);
    assert LengthPrefix(e) == |message| * 8;
    assert (|message| * 8 + 7) / 8 == |message|;
    forall j | 0 <= j < |message|
      ensures ByteAt(e, PayloadStart + 8 * j) == message[j]
    {
      EmbeddedByte(plane, message, j);
    }
    var bytes := seq(|message|, j requires 0 <= j < |message| => ByteAt(e, PayloadStart + 8 * j));
    assert bytes == message;
    assert Decode(e) == Ok(bytes);
  }

  /** Writing the empty message stores a zero prefix and touches no bit from
      offset 32 on; reading it back gives the empty message. */
  lemma EmptyMessage(plane: seq<Bit>)
    requires |plane| >= PayloadStart
    ensures Embed(plane, [])[32..] == plane[32..]
    ensures LengthPrefix(Embed(plane, [])) == 0
    ensures Decode(Embed(plane, [])) == Ok([])
  {
    EmbedThenDecode(plane, []);
  }
}
