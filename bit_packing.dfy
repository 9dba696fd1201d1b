/**
 * The logo generator's packing step (src/generator.cpp): a raster with one byte
 * per pixel is copied into a fixed-size array and packed into one bit per pixel,
 * eight pixels per byte, the first pixel of every group in the most significant bit.
 */
module BitPacking {
  import opened Bits

  /** Every pixel of the raster is 0 (off) or 1 (on). */
  predicate IsBinary(pixels: seq<bv8>) {
    forall k :: 0 <= k < |pixels| ==> pixels[k] <= 1
  }

  /** `to_array`: the C array becomes a `std::array` of the same size, element by element. */
  function ToArray(arr: seq<bv8>): (r: seq<bv8>)
    ensures |r| == |arr|
    ensures forall i :: 0 <= i < |arr| ==> r[i] == arr[i]
  {
    seq(|arr|, i requires 0 <= i < |arr| => arr[i])
  }

  /**
   * The value of an output byte after `j` passes of the inner loop of
   * `compressBinaryArray` over the eight pixels `group`: pixel `j'` is OR-ed
   * in at bit `7 - j'` for each `j' < j`.
   */
  function GroupPrefix(group: seq<bv8>, j: nat): bv8
    requires j <= 8 && j <= |group|
  {
    if j == 0 then 0 else OrPixel(GroupPrefix(group, j - 1), group[j - 1], 8 - j)
  }

  /** The pixels `8k .. 8k+7` that make up output byte `k`. */
  function Group(data: seq<bv8>, k: nat): (g: seq<bv8>)
    requires 8 * k + 8 <= |data|
    ensures |g| == 8
  {
    data[8 * k..8 * k + 8]
  }

  /** The packed bitmap: byte `k` is built from pixels `8k .. 8k+7`. */
  function Packed(data: seq<bv8>): (r: seq<bv8>)
    requires |data| % 8 == 0
    ensures |r| == |data| / 8
  {
    seq(|data| / 8, k requires 0 <= k < |data| / 8 => GroupPrefix(Group(data, k), 8))
  }

  /**
   * Reference reading of a packed bitmap: every byte gives eight pixels,
   * from its most significant bit down to its least significant bit.
   */
  function Unpack(bytes: seq<bv8>): (pixels: seq<bv8>)
    ensures |pixels| == 8 * |bytes|
    ensures IsBinary(pixels)
  {
    seq(8 * |bytes|, q requires 0 <= q < 8 * |bytes| => Bit(bytes[q / 8], 7 - q % 8))
  }

  /**
   * `compressBinaryArray`: a zero-initialised output array of `|data| / 8` bytes,
   * filled by OR-ing `data[i + j] << (7 - j)` into byte `i / 8`.
   */
  method CompressBinaryArray(data: seq<bv8>) returns (packed: seq<bv8>)
    requires |data| % 8 == 0
    requires IsBinary(data)
    ensures |packed| == |data| / 8
    ensures packed == Packed(data)
    ensures Unpack(packed) == data
  {
    var compressed := new bv8[|data| / 8](_ => 0);
    var i := 0;
    while i < |data|
      invariant 0 <= i <= |data| && i % 8 == 0
      invariant forall k :: 0 <= k < i / 8 ==> compressed[k] == GroupPrefix(Group(data, k), 8)
      invariant forall k :: i / 8 <= k < compressed.Length ==> compressed[k] == 0
    {
      assert 8 * (i / 8) == i;
      ghost var group := Group(data, i / 8);
      var j := 0;
      while j < 8
        invariant 0 <= j <= 8
        invariant compressed[i / 8] == GroupPrefix(group, j)
        invariant forall k :: 0 <= k < i / 8 ==> compressed[k] == GroupPrefix(Group(data, k), 8)
        invariant forall k :: i / 8 < k < compressed.Length ==> compressed[k] == 0
      {
        assert group[j] == data[i + j];
        compressed[i / 8] := OrPixel(compressed[i / 8], data[i + j], 7 - j);
        j := j + 1;
      }
      i := i + 8;
    }
    packed := compressed[..];
    UnpackPacked(data);
  }

  // ---------------------------------------------------------------------------
  // Properties of the packing

  /**
   * After `m` passes of the inner loop, bit `7 - j` holds pixel `j` for
   * every `j < m`, and the lower `8 - m` bits are still zero.
   */
  lemma {:induction false} GroupPrefixBits(group: seq<bv8>, m: nat)
    requires m <= 8 && m <= |group|
    requires forall k :: 0 <= k < m ==> group[k] <= 1
    ensures forall p :: 8 - m <= p < 8 ==> Bit(GroupPrefix(group, m), p) == group[7 - p]
    ensures forall p :: 0 <= p < 8 - m ==> Bit(GroupPrefix(group, m), p) == 0
  {
    if m > 0 {
      GroupPrefixBits(group, m - 1);
      var prev, d := GroupPrefix(group, m - 1), group[m - 1];
      var s: nat := 8 - m;
      assert GroupPrefix(group, m) == OrPixel(prev, d, s);
      assert Bit(prev, s) == 0;
      forall p | 0 <= p < 8
        ensures Bit(GroupPrefix(group, m), p) == if p >= s then group[7 - p] else 0
      {
        BitOfPixelOr(prev, d, s, p);
      }
    }
  }

  /** Bit `p` of packed byte `k` is pixel `8k + 7 - p`: the first pixel of a group is the MSB. */
  lemma PackedBit(data: seq<bv8>, k: nat, p: nat)
    requires |data| % 8 == 0 && IsBinary(data)
    requires k < |data| / 8 && p < 8
    ensures Bit(Packed(data)[k], p) == data[8 * k + 7 - p]
  {
    GroupPrefixBits(Group(data, k), 8);
  }

  /** Unpacking the packed bytes gives back the 0/1 raster. */
  lemma UnpackPacked(data: seq<bv8>)
    requires |data| % 8 == 0 && IsBinary(data)
    ensures Unpack(Packed(data)) == data
  {
    var u := Unpack(Packed(data));
    forall q | 0 <= q < |data|
      ensures u[q] == data[q]
    {
      PackedBit(data, q / 8, 7 - q % 8);
    }
  }

  /** Packing the unpacked pixels of any byte sequence gives back those bytes. */
  lemma PackedUnpack(bytes: seq<bv8>)
    ensures Packed(Unpack(bytes)) == bytes
  {
    var pixels := Unpack(bytes);
    forall k | 0 <= k < |bytes|
      ensures Packed(pixels)[k] == bytes[k]
    {
      GroupPrefixBits(Group(pixels, k), 8);
      forall p | 0 <= p < 8
        ensures Bit(Packed(pixels)[k], p) == Bit(bytes[k], p)
      {
        var q := 8 * k + 7 - p;
        assert q / 8 == k && q % 8 == 7 - p;
      }
      BitsDetermineByte(Packed(pixels)[k], bytes[k]);
    }
  }

  /** Output byte `k` depends only on pixels `8k .. 8k+7`. */
  lemma PackedByteLocal(d1: seq<bv8>, d2: seq<bv8>, k: nat)
    requires |d1| % 8 == 0 && |d2| % 8 == 0
    requires k < |d1| / 8 && k < |d2| / 8
    requires d1[8 * k..8 * k + 8] == d2[8 * k..8 * k + 8]
    ensures Packed(d1)[k] == Packed(d2)[k]
  {
  }

  /** An all-off raster packs to zero bytes and an all-on raster to 0xFF bytes. */
  lemma PackedUniform(data: seq<bv8>, v: bv8)
    requires |data| % 8 == 0 && v <= 1
    requires forall q :: 0 <= q < |data| ==> data[q] == v
    ensures forall k :: 0 <= k < |data| / 8 ==> Packed(data)[k] == if v == 0 then 0x00 else 0xFF
  {
    var fill: bv8 := if v == 0 then 0x00 else 0xFF;
    forall k | 0 <= k < |data| / 8
      ensures Packed(data)[k] == fill
    {
      forall p | 0 <= p < 8
        ensures Bit(Packed(data)[k], p) == Bit(fill, p)
      {
        PackedBit(data, k, p);
      }
      BitsDetermineByte(Packed(data)[k], fill);
    }
  }

  /** A pixel value of 2 is not read as "on": it sets the neighbouring bit instead. */
  lemma PixelTwoMisplaced()
    ensures Packed([0, 0, 0, 0, 0, 0, 0, 2]) == [0x02]
    ensures Unpack(Packed([0, 0, 0, 0, 0, 0, 0, 2])) == [0, 0, 0, 0, 0, 0, 1, 0]
  {
    var data: seq<bv8> := [0, 0, 0, 0, 0, 0, 0, 2];
    assert Group(data, 0) == data;
    assert GroupPrefix(data, 8) == 0x02;
  }

  /** The packing order on concrete groups: the first pixel is the most significant bit. */
  lemma PackingOrderExamples()
    ensures Packed([1, 0, 0, 0, 0, 0, 0, 0]) == [0x80]
    ensures Packed([0, 0, 0, 0, 0, 0, 0, 1]) == [0x01]
    ensures Packed([1, 1, 1, 1, 0, 0, 0, 0, 1, 0, 1, 0, 1, 0, 1, 0]) == [0xF0, 0xAA]
  {
    var a: seq<bv8> := [1, 0, 0, 0, 0, 0, 0, 0];
    var b: seq<bv8> := [0, 0, 0, 0, 0, 0, 0, 1];
    var c0: seq<bv8> := [1, 1, 1, 1, 0, 0, 0, 0];
    var c1: seq<bv8> := [1, 0, 1, 0, 1, 0, 1, 0];
    assert GroupPrefix(a, 8) == 0x80 && GroupPrefix(b, 8) == 0x01;
    assert GroupPrefix(c0, 8) == 0xF0 && GroupPrefix(c1, 8) == 0xAA;
    PackedGroups(a, []);
    assert a + [] == a;
    PackedGroups(b, []);
    assert b + [] == b;
    PackedGroups(c0, c1);
    assert c0 + c1 == [1, 1, 1, 1, 0, 0, 0, 0, 1, 0, 1, 0, 1, 0, 1, 0];
  }

  /** A raster of one or two groups packs group by group. */
  lemma PackedGroups(g0: seq<bv8>, g1: seq<bv8>)
    requires |g0| == 8 && (|g1| == 0 || |g1| == 8)
    ensures |g1| == 0 ==> Packed(g0 + g1) == [GroupPrefix(g0, 8)]
    ensures |g1| == 8 ==> Packed(g0 + g1) == [GroupPrefix(g0, 8), GroupPrefix(g1, 8)]
  {
    assert Group(g0 + g1, 0) == g0;
    if |g1| == 8 {
      assert Group(g0 + g1, 1) == g1;
    }
  }
}
