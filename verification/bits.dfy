/**
 * Bytes and bit strings. RFC 4648 defines base16, base32 and base64 on the
 * bit stream of the input bytes, most significant bit first; the codecs in
 * this model are written the same way, over the functions of this module.
 */
module Bits {

  type byte = x: nat | x < 256

  function Pow2(n: nat): (r: nat)
    ensures r >= 1
  {
    if n == 0 then 1 else 2 * Pow2(n - 1)
  }

  /** The `width` low-order bits of `v`, most significant first. */
  function ToBits(v: nat, width: nat): (bs: seq<bool>)
    ensures |bs| == width
  {
    if width == 0 then [] else ToBits(v / 2, width - 1) + [v % 2 == 1]
  }

  /** The number whose big-endian binary rendering is `bs`. */
  function FromBits(bs: seq<bool>): (v: nat)
    ensures v < Pow2(|bs|)
  {
    if bs == [] then 0 else 2 * FromBits(bs[..|bs| - 1]) + (if bs[|bs| - 1] then 1 else 0)
  }

  lemma {:induction false} FromToBits(v: nat, width: nat)
    requires v < Pow2(width)
    ensures FromBits(ToBits(v, width)) == v
  {
    if width > 0 {
      FromToBits(v / 2, width - 1);
      var bs := ToBits(v, width);
      assert bs[..width - 1] == ToBits(v / 2, width - 1);
    }
  }

  lemma {:induction false} ToFromBits(bs: seq<bool>)
    ensures ToBits(FromBits(bs), |bs|) == bs
  {
    if bs != [] {
      var init := bs[..|bs| - 1];
      ToFromBits(init);
      var v := FromBits(bs);
      assert v / 2 == FromBits(init);
      assert bs == init + [bs[|bs| - 1]];
    }
  }

  /** `width` zero bits. */
  function Zeros(width: nat): (bs: seq<bool>)
    ensures |bs| == width
    ensures forall i :: 0 <= i < width ==> !bs[i]
  {
    if width == 0 then [] else [false] + Zeros(width - 1)
  }

  /** Concatenates the `width`-bit big-endian renderings of `vs`. */
  function Flatten(vs: seq<nat>, width: nat): (bs: seq<bool>)
    ensures |bs| == |vs| * width
  {
    if vs == [] then [] else ToBits(vs[0], width) + Flatten(vs[1..], width)
  }

  /** Reads `bs` as consecutive groups of `width` bits; bits left over after
      the last whole group are ignored. */
  function Chunks(bs: seq<bool>, width: nat): (vs: seq<nat>)
    requires width > 0
    ensures forall i :: 0 <= i < |vs| ==> vs[i] < Pow2(width)
    decreases |bs|
  {
    if |bs| < width then [] else [FromBits(bs[..width])] + Chunks(bs[width..], width)
  }

  /** Cutting `n` whole groups and reassembling them gives the bits back. */
  lemma {:induction false} FlattenChunks(bs: seq<bool>, width: nat, n: nat)
    requires width > 0 && |bs| == n * width
    ensures |Chunks(bs, width)| == n
    ensures Flatten(Chunks(bs, width), width) == bs
    decreases n
  {
    if n > 0 {
      assert n * width - width == (n - 1) * width;
      FlattenChunks(bs[width..], width, n - 1);
      ToFromBits(bs[..width]);
      assert bs == bs[..width] + bs[width..];
    }
  }

  /** Rendering values that fit the width and grouping again gives the values back. */
  lemma {:induction false} ChunksFlatten(vs: seq<nat>, width: nat)
    requires width > 0
    requires forall i :: 0 <= i < |vs| ==> vs[i] < Pow2(width)
    ensures Chunks(Flatten(vs, width), width) == vs
  {
    if vs != [] {
      var bs := Flatten(vs, width);
      ChunksFlatten(vs[1..], width);
      FromToBits(vs[0], width);
      assert bs[..width] == ToBits(vs[0], width);
      assert bs[width..] == Flatten(vs[1..], width);
      assert vs == [vs[0]] + vs[1..];
    }
  }

  /** The bit stream of a byte string, eight bits per byte. */
  function BytesToBits(b: seq<byte>): (bs: seq<bool>)
    ensures |bs| == 8 * |b|
  {
    Flatten(b, 8)
  }

  /** The byte string whose bit stream is `bs`. */
  function BitsToBytes(bs: seq<bool>): (b: seq<byte>)
    requires |bs| % 8 == 0
    ensures 8 * |b| == |bs|
  {
    var vs := Chunks(bs, 8);
    FlattenChunks(bs, 8, |bs| / 8);
    assert Pow2(8) == 256;
    seq(|vs|, i requires 0 <= i < |vs| => vs[i] as byte)
  }

  lemma BytesBitsRoundTrip(b: seq<byte>)
    ensures BitsToBytes(BytesToBits(b)) == b
  {
    assert Pow2(8) == 256;
    ChunksFlatten(b, 8);
  }
}
