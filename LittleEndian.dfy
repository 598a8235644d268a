/** Unsigned little-endian integers as the .skin format stores them: a value of
    width w is w bytes, least significant byte first (struct format "<B", "<H",
    "<I"). Single-precision floats are kept as their 32-bit patterns, so they
    are u32 values here as well. */
module LittleEndian {

  type byte = x: int | 0 <= x < 0x100
  type u16 = x: int | 0 <= x < 0x1_0000
  type u32 = x: int | 0 <= x < 0x1_0000_0000

  /** 256 to the power n: one more than the largest value of n bytes. */
  function Pow256(n: nat): (p: nat)
    ensures p > 0
  {
    if n == 0 then 1 else 256 * Pow256(n - 1)
  }

  /** The value of a little-endian byte string. */
  function LeValue(bs: seq<byte>): (v: nat)
    ensures v < Pow256(|bs|)
  {
    if bs == [] then 0 else bs[0] + 256 * LeValue(bs[1..])
  }

  /** The n-byte little-endian representation of x. */
  function LeBytes(x: nat, n: nat): (bs: seq<byte>)
    requires x < Pow256(n)
    ensures |bs| == n && LeValue(bs) == x
  {
    if n == 0 then [] else [x % 256] + LeBytes(x / 256, n - 1)
  }

  /** Every byte string is the representation of its own value. */
  lemma {:induction false} LeBytesOfValue(bs: seq<byte>)
    ensures LeBytes(LeValue(bs), |bs|) == bs
  {
    if bs != [] {
      LeBytesOfValue(bs[1..]);
      var v := LeValue(bs[1..]);
      assert LeValue(bs) == bs[0] + 256 * v;
      assert (bs[0] + 256 * v) % 256 == bs[0];
      assert (bs[0] + 256 * v) / 256 == v;
      assert bs == [bs[0]] + bs[1..];
    }
  }

  /** The value of four bytes, spelled out. */
  lemma Le4(bs: seq<byte>)
    requires |bs| == 4
    ensures LeValue(bs) == bs[0] as int + 0x100 * bs[1] as int + 0x1_0000 * bs[2] as int + 0x100_0000 * bs[3] as int
  {
    assert bs[3..][1..] == [];
    assert LeValue(bs[3..]) == bs[3];
    assert bs[2..][1..] == bs[3..];
    assert LeValue(bs[2..]) == bs[2] + 0x100 * bs[3] as int;
    assert bs[1..][1..] == bs[2..];
    assert LeValue(bs[1..]) == bs[1] + 0x100 * LeValue(bs[2..]);
  }

  /** Pow256 at the two widths the format uses. */
  lemma Pow256Widths()
    ensures Pow256(1) == 0x100 && Pow256(2) == 0x1_0000 && Pow256(4) == 0x1_0000_0000
  {
  }

  /** struct.unpack("<" + code * n): the bytes cut into w-byte chunks, each read
      as a little-endian value, in order. */
  function Unpack(b: seq<byte>, w: nat): (xs: seq<nat>)
    requires (w == 2 || w == 4) && |b| % w == 0
    ensures |xs| == |b| / w
    ensures forall i :: 0 <= i < |xs| ==> xs[i] < Pow256(w)
    ensures forall i :: 0 <= i < |xs| ==> xs[i] == LeValue(b[w * i .. w * i + w])
    decreases |b|
  {
    if b == [] then []
    else
      var xs' := Unpack(b[w..], w);
      assert forall i :: 0 <= i < |xs'| ==> b[w..][w * i .. w * i + w] == b[w * (i + 1) .. w * (i + 1) + w];
      [LeValue(b[..w])] + xs'
  }

  /** struct.pack("<" + code * n): the inverse of Unpack. */
  function Pack(xs: seq<nat>, w: nat): (b: seq<byte>)
    requires forall i :: 0 <= i < |xs| ==> xs[i] < Pow256(w)
    ensures |b| == w * |xs|
  {
    if xs == [] then [] else LeBytes(xs[0], w) + Pack(xs[1..], w)
  }

  lemma {:induction false} UnpackPack(xs: seq<nat>, w: nat)
    requires w == 2 || w == 4
    requires forall i :: 0 <= i < |xs| ==> xs[i] < Pow256(w)
    ensures Unpack(Pack(xs, w), w) == xs
  {
    if xs != [] {
      var b := Pack(xs, w);
      assert b[..w] == LeBytes(xs[0], w);
      assert b[w..] == Pack(xs[1..], w);
      UnpackPack(xs[1..], w);
    }
  }

  lemma {:induction false} PackUnpack(b: seq<byte>, w: nat)
    requires (w == 2 || w == 4) && |b| % w == 0
    ensures Pack(Unpack(b, w), w) == b
    decreases |b|
  {
    if b != [] {
      var xs := Unpack(b, w);
      assert xs[1..] == Unpack(b[w..], w);
      PackUnpack(b[w..], w);
      LeBytesOfValue(b[..w]);
      assert b == b[..w] + b[w..];
    }
  }
}
