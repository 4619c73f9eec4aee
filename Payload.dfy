/** The binary payload file of `save` and `load`: a 4-byte big-endian bit
    count, then the bits packed eight to a byte, most significant bit
    first, the last byte padded with zero bits. */
module Payload {
  import opened Wrappers
  import opened Codec

  type byte = x: int | 0 <= x < 256

  function Pow2(k: nat): (r: nat)
    ensures r >= 1
  {
    if k == 0 then 1 else 2 * Pow2(k - 1)
  }

  function Pow256(k: nat): (r: nat)
    ensures r >= 1
  {
    if k == 0 then 1 else 256 * Pow256(k - 1)
  }

  /** The largest bit count the 4-byte prefix can hold is one less than this. */
  const PREFIX_LIMIT: nat := 0x1_0000_0000

  lemma PrefixLimitIsPow256()
    ensures Pow256(4) == PREFIX_LIMIT
  {
  }

  /** `n.to_bytes(k, byteorder='big')`, for an `n` that fits in `k` bytes. */
  function ToBigEndian(n: nat, k: nat): (r: seq<byte>)
    requires n < Pow256(k)
    ensures |r| == k
    ensures FromBigEndian(r) == n
  {
    if k == 0 then []
    else
      var high := ToBigEndian(n / 256, k - 1);
      var r := high + [n % 256];
      assert r[..k - 1] == high;
      r
  }

  /** `int.from_bytes(s, byteorder='big')`. */
  function FromBigEndian(s: seq<byte>): (n: nat)
    ensures n < Pow256(|s|)
  {
    if s == [] then 0 else FromBigEndian(s[..|s| - 1]) * 256 + s[|s| - 1]
  }

  /** The value of a group of bits read most significant first. */
  function ValueOf(b: Bits): (v: nat)
    ensures v < Pow2(|b|)
  {
    if b == [] then 0 else ValueOf(b[..|b| - 1]) * 2 + (if b[|b| - 1] then 1 else 0)
  }

  /** The `k` low bits of `x`, most significant first. */
  function BitsOf(x: nat, k: nat): (b: Bits)
    ensures |b| == k
  {
    if k == 0 then [] else BitsOf(x / 2, k - 1) + [x % 2 == 1]
  }

  lemma {:induction false} BitsOfValueOf(b: Bits)
    ensures BitsOf(ValueOf(b), |b|) == b
  {
    if b != [] {
      BitsOfValueOf(b[..|b| - 1]);
      assert b == b[..|b| - 1] + [b[|b| - 1]];
    }
  }

  function Zeros(k: nat): (z: Bits)
    ensures |z| == k && forall i :: 0 <= i < k ==> !z[i]
  {
    seq(k, i => false)
  }

  /** How many zero bits fill up the last byte of `n` bits. */
  function Padding(n: nat): nat
  {
    if n % 8 == 0 then 0 else 8 - n % 8
  }

  lemma PaddingShort(n: nat)
    requires 0 < n < 8
    ensures Padding(n) == 8 - n
  {
    assert n % 8 == n;
  }

  lemma PaddingStep(n: nat)
    requires n >= 8
    ensures Padding(n - 8) == Padding(n)
  {
    assert n % 8 == (n - 8) % 8;
  }

  /** `bitarray.tobytes()`. */
  function Pack(bits: Bits): (r: seq<byte>)
    ensures |r| == (|bits| + 7) / 8
    decreases |bits|
  {
    if |bits| == 0 then []
    else if |bits| < 8 then
      var full := bits + Zeros(8 - |bits|);
      ByteValue(full);
      [ValueOf(full)]
    else
      ByteValue(bits[..8]);
      [ValueOf(bits[..8])] + Pack(bits[8..])
  }

  /** Eight bits make a byte. */
  lemma ByteValue(b: Bits)
    requires |b| == 8
    ensures ValueOf(b) < 256
  {
    assert Pow2(8) == 256 by {
      assert Pow2(4) == 16;
    }
  }

  /** `bitarray.frombytes(data)` on an empty bit array. */
  function Unpack(data: seq<byte>): (r: Bits)
    ensures |r| == 8 * |data|
  {
    if data == [] then [] else BitsOf(data[0], 8) + Unpack(data[1..])
  }

  /** Unpacking packed bits restores them, followed by the zero padding. */
  lemma {:induction false} UnpackPack(bits: Bits)
    ensures Unpack(Pack(bits)) == bits + Zeros(Padding(|bits|))
    decreases |bits|
  {
    if |bits| == 0 {
      assert Zeros(0) == [];
    } else if |bits| < 8 {
      UnpackLastByte(bits);
    } else {
      var head, tail := bits[..8], bits[8..];
      UnpackPack(tail);
      UnpackFullByte(bits);
      PaddingStep(|bits|);
      assert bits == head + tail;
    }
  }

  lemma UnpackLastByte(bits: Bits)
    requires 0 < |bits| < 8
    ensures Unpack(Pack(bits)) == bits + Zeros(Padding(|bits|))
  {
    PackShort(bits);
    PaddingShort(|bits|);
  }

  /** A last, partial byte is the bits followed by zeros. */
  lemma PackShort(bits: Bits)
    requires 0 < |bits| < 8
    ensures Unpack(Pack(bits)) == bits + Zeros(8 - |bits|)
  {
    var full := bits + Zeros(8 - |bits|);
    UnpackByte(full);
    assert Pack(bits) == [ValueOf(full)];
  }

  /** Eight bits packed into a byte unpack to themselves. */
  lemma UnpackByte(full: Bits)
    requires |full| == 8
    ensures ValueOf(full) < 256
    ensures Unpack([ValueOf(full)]) == full
  {
    ByteValue(full);
    UnpackOne(ValueOf(full));
    BitsOfValueOf(full);
  }

  lemma UnpackOne(x: byte)
    ensures Unpack([x]) == BitsOf(x, 8)
  {
    assert [x][1..] == [];
  }

  lemma UnpackFullByte(bits: Bits)
    requires |bits| >= 8
    ensures Unpack(Pack(bits)) == bits[..8] + Unpack(Pack(bits[8..]))
  {
    BitsOfValueOf(bits[..8]);
    var p := Pack(bits);
    assert p == [ValueOf(bits[..8])] + Pack(bits[8..]);
    assert p[1..] == Pack(bits[8..]);
  }

  /** The payload `save` writes; an overlong bit array makes `to_bytes`
      raise, which is `LengthOverflow` here. */
  function SavePayload(bits: Bits): (r: Result<seq<byte>>)
    ensures r.Failure? <==> |bits| >= PREFIX_LIMIT
    ensures r.Success? ==> |r.value| == 4 + (|bits| + 7) / 8
  {
    PrefixLimitIsPow256();
    if |bits| < PREFIX_LIMIT then Success(ToBigEndian(|bits|, 4) + Pack(bits)) else Failure(LengthOverflow)
  }

  /** The bits `load` returns: read up to four bytes of length, unpack the
      rest and cut it to that many bits. */
  function LoadPayload(data: seq<byte>): (bits: Bits)
    ensures |bits| <= 8 * |data|
    ensures |data| >= 4 ==> |bits| <= FromBigEndian(data[..4])
  {
    var n := if |data| < 4 then |data| else 4;
    var length := FromBigEndian(data[..n]);
    var all := Unpack(data[n..]);
    if length < |all| then all[..length] else all
  }

  /** Saving and loading the payload returns exactly the encoded bits,
      with the padding of the last byte cut off by the length prefix. */
  lemma PayloadRoundTrip(bits: Bits)
    requires |bits| < PREFIX_LIMIT
    ensures SavePayload(bits).Success?
    ensures LoadPayload(SavePayload(bits).value) == bits
  {
    PrefixLimitIsPow256();
    var data := SavePayload(bits).value;
    assert data[..4] == ToBigEndian(|bits|, 4);
    assert data[4..] == Pack(bits);
    UnpackPack(bits);
  }
}
