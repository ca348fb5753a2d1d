/** Integer bit arithmetic used by the codec: powers of two, Python's `>>`
    and `& 1` on non-negative integers, and big-endian (most significant bit
    first) bit strings. */
module Bits {

  /** A value that fits in one byte: a colour channel or a message byte. */
  type Byte = x: int | 0 <= x < 256

  /** A single bit. */
  type Bit = b: int | 0 <= b < 2

  function Pow2(k: nat): (r: nat)
    ensures r >= 1
  {
    if k == 0 then 1 else 2 * Pow2(k - 1)
  }

  /** `x >> k` on a non-negative integer: k halvings, each rounding down. */
  function Shr(x: nat, k: nat): (r: nat)
    ensures r <= x
  {
    if k == 0 then x else Shr(x / 2, k - 1)
  }

  /** `(x >> k) & 1`: bit k of x, counting from the least significant. */
  function NthBit(x: nat, k: nat): Bit
  {
    Shr(x, k) % 2
  }

  /** `b << k` for a single bit b. */
  function Shl(b: Bit, k: nat): (r: nat)
    ensures r == b * Pow2(k)
  {
    if b == 1 then Pow2(k) else 0
  }

  /** The value of a big-endian bit string: bits[i] weighs 2^(|bits|-1-i),
      as in `sum(bits[i] << (|bits|-1-i))`. */
  function BigEndian(bits: seq<Bit>): nat
  {
    if bits == [] then 0 else Shl(bits[0], |bits| - 1) + BigEndian(bits[1..])
  }

  /** The w low bits of x, most significant first. */
  function ToBigEndian(x: nat, w: nat): (bits: seq<Bit>)
    ensures |bits| == w
    ensures forall i :: 0 <= i < w ==> bits[i] == NthBit(x, w - 1 - i)
  {
    seq(w, i requires 0 <= i < w => NthBit(x, w - 1 - i))
  }

  /** The first bit of a slice carries weight 2^(length-1), the rest is the shorter slice. */
  lemma BigEndianSliceHead(bits: seq<Bit>, lo: nat, hi: nat)
    requires lo < hi <= |bits|
    ensures BigEndian(bits[lo..hi]) == Shl(bits[lo], hi - lo - 1) + BigEndian(bits[lo + 1..hi])
  {
    assert bits[lo..hi][1..] == bits[lo + 1..hi];
  }

  /** The first `count` terms of `sum(bits[start + t] << (width - 1 - t))`:
      the value a loop that reads `width` bits MSB first has built after
      `count` of them. */
  function ShiftedSum(bits: seq<Bit>, start: nat, width: nat, count: nat): nat
    requires count <= width
    requires count == 0 || start + count <= |bits|
  {
    if count == 0 then 0
    else ShiftedSum(bits, start, width, count - 1) + Shl(bits[start + count - 1], width - count)
  }

  /** The partial sum plus the value of the bits not yet read is the value of
      the whole field; once all `width` bits are read it is that value. */
  lemma {:induction false} ShiftedSumValue(bits: seq<Bit>, start: nat, width: nat, count: nat)
    requires count <= width && start + width <= |bits|
    ensures ShiftedSum(bits, start, width, count) + BigEndian(bits[start + count..start + width])
            == BigEndian(bits[start..start + width])
    ensures count == width ==> ShiftedSum(bits, start, width, count) == BigEndian(bits[start..start + width])
  {
    if count > 0 {
      ShiftedSumValue(bits, start, width, count - 1);
      BigEndianSliceHead(bits, start + count - 1, start + width);
    }
    assert bits[start + width..start + width] == [];
  }

  /** A w-bit string denotes a value below 2^w. */
  lemma {:induction false} BigEndianBound(bits: seq<Bit>)
    ensures BigEndian(bits) < Pow2(|bits|)
  {
    if bits != [] {
      BigEndianBound(bits[1..]);
    }
  }

  /** Appending a bit doubles the value and adds the bit. */
  lemma {:induction false} BigEndianSnoc(bits: seq<Bit>, b: Bit)
    ensures BigEndian(bits + [b]) == 2 * BigEndian(bits) + b
  {
    if bits == [] {
      assert [] + [b] == [b];
    } else {
      var rest := bits[1..];
      assert (bits + [b])[1..] == rest + [b];
      BigEndianSnoc(rest, b);
      assert Pow2(|bits + [b]| - 1) == 2 * Pow2(|rest|);
    }
  }

  /** The w+1 low bits of x are the w low bits of x / 2 followed by x's lowest bit. */
  lemma ToBigEndianSnoc(x: nat, w: nat)
    ensures ToBigEndian(x, w + 1) == ToBigEndian(x / 2, w) + [x % 2]
  {
    var lhs, rhs := ToBigEndian(x, w + 1), ToBigEndian(x / 2, w) + [x % 2];
    forall i | 0 <= i < w + 1
      ensures lhs[i] == rhs[i]
    {
      if i < w {
        assert NthBit(x, w - i) == NthBit(x / 2, w - 1 - i);
      }
    }
  }

  /** Encoding a value below 2^w in w bits and reading it back gives it again. */
  lemma {:induction false} BigEndianRoundTrip(x: nat, w: nat)
    requires x < Pow2(w)
    ensures BigEndian(ToBigEndian(x, w)) == x
  {
    if w == 0 {
      assert ToBigEndian(x, 0) == [];
    } else {
      BigEndianRoundTrip(x / 2, w - 1);
      ToBigEndianSnoc(x, w - 1);
      BigEndianSnoc(ToBigEndian(x / 2, w - 1), x % 2);
    }
  }
}
