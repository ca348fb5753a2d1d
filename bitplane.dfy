/** The image as the codec sees it: a list of pixels, each a tuple of at least
    three channel values, whose channels 0..2 carry one bit each in their
    least significant bit. Those bits form the bit plane, addressed backwards
    from the last pixel. */
module BitPlane {
  import opened Bits

  type Channel = Byte

  /** One pixel: its channel values (red, green, blue and possibly more). */
  type Pixel = seq<Channel>

  /** Every pixel has the three channels the codec writes to. */
  predicate WellFormed(pixels: seq<Pixel>)
  {
    forall i :: 0 <= i < |pixels| ==> |pixels[i]| >= 3
  }

  /** The number of raw bits the image can carry: one per channel 0..2. */
  function RawBitsLimit(pixels: nat): nat
  {
    pixels * 3
  }

  /** The raw bits less the 11 pixels' worth (33 bits) reserved for the frame header. */
  function MessageBitsLimit(pixels: nat): int
  {
    RawBitsLimit(pixels) - 11 * 3
  }

  /** An image is accepted when it has at least 32 raw bits. */
  predicate LargeEnough(pixels: nat)
  {
    RawBitsLimit(pixels) >= 32
  }

  /** Images are accepted exactly when they have at least 11 pixels, and an
      accepted image has a non-negative message capacity. */
  lemma CapacityOfAcceptedImage(pixels: nat)
    ensures LargeEnough(pixels) <==> pixels >= 11
    ensures LargeEnough(pixels) ==> MessageBitsLimit(pixels) >= 0
  {
  }

  /** Python's `xs[i]` on a list of length n, for -n <= i < n: a negative
      index counts from the end. */
  function PyIndex(n: nat, i: int): (k: nat)
    requires -(n as int) <= i < n
    ensures k < n
    ensures i < 0 ==> k == n + i
    ensures i >= 0 ==> k == i
  {
    if i < 0 then n + i else i
  }

  /** The pixel that bit offset `offset` lives in: the offsets run backwards
      from the last pixel, three to a pixel. */
  function PixelIndex(pixels: nat, offset: nat): nat
    requires offset < RawBitsLimit(pixels)
  {
    pixels - 1 - offset / 3
  }

  /** The channel that bit offset `offset` lives in. */
  function BandIndex(offset: nat): nat
  {
    offset % 3
  }

  /** The pixel index as `_get_bit` and `_set_bit` compute it, `-(offset + 1) // 3`: a
      negative Python index. Dafny's `/` by a positive divisor rounds down, as
      Python's `//` does. */
  function NegativePixelIndex(offset: nat): int
  {
    (-(offset as int + 1)) / 3
  }

  /** The negative index, used as a Python index, is the pixel PixelIndex names. */
  lemma NegativeIndexAddressing(pixels: nat, offset: nat)
    requires offset < RawBitsLimit(pixels)
    ensures -(pixels as int) <= NegativePixelIndex(offset) < 0
    ensures PyIndex(pixels, NegativePixelIndex(offset)) == PixelIndex(pixels, offset)
  {
  }

  /** The offset that addresses channel `band` of pixel `pixel`: the inverse
      of (PixelIndex, BandIndex). */
  function OffsetOf(pixels: nat, pixel: nat, band: nat): (offset: nat)
    requires pixel < pixels && band < 3
    ensures offset < RawBitsLimit(pixels)
    ensures PixelIndex(pixels, offset) == pixel && BandIndex(offset) == band
  {
    3 * (pixels - 1 - pixel) + band
  }

  /** Distinct in-range offsets address distinct (pixel, channel) pairs. */
  lemma AddressingInjective(pixels: nat, o1: nat, o2: nat)
    requires o1 < RawBitsLimit(pixels) && o2 < RawBitsLimit(pixels)
    requires PixelIndex(pixels, o1) == PixelIndex(pixels, o2)
    requires BandIndex(o1) == BandIndex(o2)
    ensures o1 == o2
  {
  }

  /** `v & 1`. */
  function Lsb(v: Channel): (b: Bit)
    ensures b == 1 <==> v % 2 == 1
  {
    v % 2
  }

  /** `v | 1`: sets the low bit, keeps the seven others. */
  function SetLowBit(v: Channel): (r: Channel)
    ensures r / 2 == v / 2 && Lsb(r) == 1
  {
    if v % 2 == 1 then v else v + 1
  }

  /** `v & ~1`: clears the low bit, keeps the seven others. */
  function ClearLowBit(v: Channel): (r: Channel)
    ensures r / 2 == v / 2 && Lsb(r) == 0
  {
    if v % 2 == 1 then v - 1 else v
  }

  /** Channel value `v` with its low bit replaced by `b`. */
  function WithLsb(v: Channel, b: Bit): (r: Channel)
    ensures r / 2 == v / 2 && Lsb(r) == b
  {
    if b == 1 then SetLowBit(v) else ClearLowBit(v)
  }

  /** The part of channel `band` of a pixel that the codec never touches:
      the upper seven bits of channels 0..2, the whole value of any further
      channel (alpha). */
  function Kept(v: Channel, band: nat): int
  {
    if band < 3 then v / 2 else v
  }

  /** t differs from s at most in the low bits of channels 0..2. */
  predicate SameUpper(s: seq<Pixel>, t: seq<Pixel>)
  {
    |s| == |t| &&
    forall i :: 0 <= i < |s| ==>
      |s[i]| == |t[i]| &&
      forall c :: 0 <= c < |s[i]| ==> Kept(s[i][c], c) == Kept(t[i][c], c)
  }

  lemma SameUpperTransitive(s: seq<Pixel>, t: seq<Pixel>, u: seq<Pixel>)
    requires SameUpper(s, t) && SameUpper(t, u)
    ensures SameUpper(s, u)
  {
  }

  /** The bit at offset `offset`: the low bit of the addressed channel. */
  function LsbAt(pixels: seq<Pixel>, offset: nat): Bit
    requires WellFormed(pixels) && offset < RawBitsLimit(|pixels|)
  {
    Lsb(pixels[PixelIndex(|pixels|, offset)][BandIndex(offset)])
  }

  /** The bit plane: the bit at every in-range offset, offset 0 first. Every
      low bit of channels 0..2 of every pixel appears in it, at the offset
      OffsetOf gives. */
  function Plane(pixels: seq<Pixel>): (plane: seq<Bit>)
    requires WellFormed(pixels)
    ensures |plane| == RawBitsLimit(|pixels|)
    ensures forall o :: 0 <= o < |plane| ==> plane[o] == LsbAt(pixels, o)
    ensures forall p, c | 0 <= p < |pixels| && 0 <= c < 3 ::
              plane[OffsetOf(|pixels|, p, c)] == Lsb(pixels[p][c])
  {
    seq(RawBitsLimit(|pixels|), o requires 0 <= o < RawBitsLimit(|pixels|) => LsbAt(pixels, o))
  }

  /** The pixels after setting the bit at `offset` to `b`, by replacing the
      addressed pixel with a copy whose addressed channel has its low bit set
      to `b`. Only that bit of the plane changes, and nothing but low bits. */
  function SetBitOf(pixels: seq<Pixel>, offset: nat, b: Bit): (r: seq<Pixel>)
    requires WellFormed(pixels) && offset < RawBitsLimit(|pixels|)
    ensures WellFormed(r) && SameUpper(pixels, r)
    ensures Plane(r) == Plane(pixels)[offset := b]
  {
    var p := PixelIndex(|pixels|, offset);
    var band := BandIndex(offset);
    var pixel: Pixel := pixels[p][band := WithLsb(pixels[p][band], b)];
    var r := pixels[p := pixel];
    assert Plane(r) == Plane(pixels)[offset := b] by {
      forall o | 0 <= o < RawBitsLimit(|pixels|)
        ensures LsbAt(r, o) == Plane(pixels)[offset := b][o]
      {
        if o != offset && PixelIndex(|pixels|, o) == p && BandIndex(o) == band {
          AddressingInjective(|pixels|, o, offset);
        }
      }
    }
    r
  }

  /** The bit plane together with the untouched upper bits determine the
      pixels: two images that agree on both are equal. */
  lemma PlaneDeterminesPixels(s: seq<Pixel>, t: seq<Pixel>)
    requires WellFormed(s) && WellFormed(t)
    requires SameUpper(s, t) && Plane(s) == Plane(t)
    ensures s == t
  {
    forall i | 0 <= i < |s|
      ensures s[i] == t[i]
    {
      forall c | 0 <= c < |s[i]|
        ensures s[i][c] == t[i][c]
      {
        if c < 3 {
          var o := OffsetOf(|s|, i, c);
          assert LsbAt(s, o) == Plane(s)[o] == Plane(t)[o] == LsbAt(t, o);
        } else {
          assert Kept(s[i][c], c) == Kept(t[i][c], c);
        }
      }
    }
  }

  /** Setting a bit to the value it was just set to changes nothing. */
  lemma SetBitIdempotent(pixels: seq<Pixel>, offset: nat, b: Bit)
    requires WellFormed(pixels) && offset < RawBitsLimit(|pixels|)
    ensures SetBitOf(SetBitOf(pixels, offset, b), offset, b) == SetBitOf(pixels, offset, b)
  {
    var once := SetBitOf(pixels, offset, b);
    var twice := SetBitOf(once, offset, b);
    assert Plane(twice) == Plane(once);
    PlaneDeterminesPixels(twice, once);
  }
}
