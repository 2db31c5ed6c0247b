/** Bytes and the big-endian integers the ticket format and the hash conversion use. */
module Bytes {
  import opened Arith

  type byte = b: int | 0 <= b < 256

  function Pow256(k: nat): (r: nat)
    ensures r >= 1
  {
    if k == 0 then 1 else 256 * Pow256(k - 1)
  }

  /** The unsigned big-endian value of a byte string: the first byte is the most significant. */
  function BigEndian(bs: seq<byte>): nat
  {
    if |bs| == 0 then 0 else BigEndian(bs[..|bs| - 1]) * 256 + bs[|bs| - 1]
  }

  /** The len-byte big-endian encoding of v, keeping its low 8 len bits. */
  function ToBigEndian(v: nat, len: nat): (bs: seq<byte>)
    ensures |bs| == len
  {
    if len == 0 then [] else ToBigEndian(v / 256, len - 1) + [v % 256]
  }

  /** A k-byte big-endian value is below 256^k. */
  lemma {:induction false} BigEndianBound(bs: seq<byte>)
    ensures BigEndian(bs) < Pow256(|bs|)
  {
    if |bs| > 0 {
      BigEndianBound(bs[..|bs| - 1]);
    }
  }

  /** Decoding the encoding of a value that fits gives the value back. */
  lemma {:induction false} DecodeEncode(v: nat, len: nat)
    requires v < Pow256(len)
    ensures BigEndian(ToBigEndian(v, len)) == v
  {
    if len > 0 {
      var bs := ToBigEndian(v, len);
      assert bs[..len - 1] == ToBigEndian(v / 256, len - 1);
      DecodeEncode(v / 256, len - 1);
    }
  }

  /** Encoding a decoded byte string at its own width gives the bytes back. */
  lemma {:induction false} EncodeDecode(bs: seq<byte>)
    ensures ToBigEndian(BigEndian(bs), |bs|) == bs
  {
    if |bs| > 0 {
      var init := bs[..|bs| - 1];
      var v := BigEndian(bs);
      assert v / 256 == BigEndian(init) && v % 256 == bs[|bs| - 1];
      EncodeDecode(init);
      assert bs == init + [bs[|bs| - 1]];
    }
  }

  lemma {:induction false} Pow256IsPow2(k: nat)
    ensures Pow256(k) == Pow2(8 * k)
  {
    if k > 0 {
      Pow256IsPow2(k - 1);
      Pow2Add(8, 8 * (k - 1));
      assert Pow2(8) == 256;
      assert 8 + 8 * (k - 1) == 8 * k;
    }
  }

  /** A k-byte big-endian value has at most 8 k bits. */
  lemma BigEndianBitLength(bs: seq<byte>)
    ensures BitLength(BigEndian(bs)) <= 8 * |bs|
  {
    BigEndianBound(bs);
    Pow256IsPow2(|bs|);
    BitLengthAtMost(BigEndian(bs), 8 * |bs|);
  }
}
