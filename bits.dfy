/** Single bits of a byte, and the facts about them that the packing and the header rest on. */
module Bits {

  /** Bit `p` of `b` (0 is the least significant bit), as the byte 0 or 1. */
  function Bit(b: bv8, p: nat): (r: bv8)
    requires p < 8
    ensures r <= 1
  {
    (b >> p) & 1
  }

  /** One step of the inner loop: `byte |= pixel << shift`. */
  function OrPixel(byte: bv8, pixel: bv8, shift: nat): bv8
    requires shift < 8
  {
    byte | (pixel << shift)
  }

  /** A bit of an OR is the OR of the bits. */
  lemma BitOfOr(x: bv8, y: bv8, p: nat)
    requires p < 8
    ensures Bit(x | y, p) == Bit(x, p) | Bit(y, p)
  {
    assert (x | y) >> p == (x >> p) | (y >> p);
  }

  /** A 0/1 value shifted to position `s` has no other bit set, and bit `s` is the value. */
  lemma BitOfShiftedPixel(d: bv8, s: nat, p: nat)
    requires d <= 1 && s < 8 && p < 8
    ensures Bit(d << s, p) == if p == s then d else 0
  {
    if p == s {
      assert (d << s) >> p == d;
    }
  }

  /** OR-ing a 0/1 pixel in at a clear bit `s` sets bit `s` to the pixel and keeps every other bit. */
  lemma BitOfPixelOr(x: bv8, d: bv8, s: nat, p: nat)
    requires d <= 1 && s < 8 && p < 8
    requires Bit(x, s) == 0
    ensures Bit(OrPixel(x, d, s), p) == if p == s then d else Bit(x, p)
  {
    BitOfOr(x, d << s, p);
    BitOfShiftedPixel(d, s, p);
  }

  /** Two bytes with the same eight bits are equal. */
  lemma BitsDetermineByte(x: bv8, y: bv8)
    requires forall p :: 0 <= p < 8 ==> Bit(x, p) == Bit(y, p)
    ensures x == y
  {
    assert Bit(x, 0) == Bit(y, 0) && Bit(x, 1) == Bit(y, 1);
    assert Bit(x, 2) == Bit(y, 2) && Bit(x, 3) == Bit(y, 3);
    assert Bit(x, 4) == Bit(y, 4) && Bit(x, 5) == Bit(y, 5);
    assert Bit(x, 6) == Bit(y, 6) && Bit(x, 7) == Bit(y, 7);
  }

  /** Shifting a 0/1 digit in at the bottom moves every bit up by one. */
  lemma BitOfShiftIn(x: bv8, d: bv8, p: nat)
    requires d <= 1 && p < 8
    ensures Bit((x << 1) | d, p) == if p == 0 then d else Bit(x, p - 1)
  {
    BitOfOr(x << 1, d, p);
    BitOfShiftedPixel(d, 0, p);
    BitOfDoubled(x, p);
  }

  /** Shifting left by one moves every bit up by one and clears bit 0. */
  lemma BitOfDoubled(x: bv8, p: nat)
    requires p < 8
    ensures Bit(x << 1, p) == if p == 0 then 0 else Bit(x, p - 1)
  {
  }
}
