/** Bytes and network-order integers (`muduo/net/Endian.h` as `muduo/net/Buffer.h` uses it). */
module Bytes {
  import opened Division

  type byte = x: int | 0 <= x < 256

  function Power(k: nat): (p: nat)
    ensures p >= 1
  {
    if k == 0 then 1 else 256 * Power(k - 1)
  }

  /** The low `k` bytes of a number, most significant first. */
  function ToBytes(k: nat, x: nat): (bs: seq<byte>)
    ensures |bs| == k
  {
    if k == 0 then [] else ToBytes(k - 1, x / 256) + [x % 256]
  }

  function FromBytes(bs: seq<byte>): (x: nat) {
    if bs == [] then 0 else 256 * FromBytes(bs[..|bs| - 1]) + bs[|bs| - 1]
  }

  lemma {:induction false} FromToBytes(k: nat, x: nat)
    requires x < Power(k)
    ensures FromBytes(ToBytes(k, x)) == x
  {
    if k > 0 {
      FromToBytes(k - 1, x / 256);
      assert ToBytes(k, x)[..k - 1] == ToBytes(k - 1, x / 256);
    }
  }

  lemma {:induction false} ToFromBytes(bs: seq<byte>)
    ensures FromBytes(bs) < Power(|bs|) && ToBytes(|bs|, FromBytes(bs)) == bs
  {
    if bs != [] {
      var init := bs[..|bs| - 1];
      ToFromBytes(init);
      assert FromBytes(bs) / 256 == FromBytes(init) && FromBytes(bs) % 256 == bs[|bs| - 1];
      assert bs == init + [bs[|bs| - 1]];
    }
  }

  // ----- which byte is which

  /** The most significant byte comes first: byte `i` of `k` counts the multiples of 256 to the `k - 1 - i`. */
  lemma {:induction false} ToBytesAt(k: nat, x: nat, i: nat)
    requires i < k
    ensures ToBytes(k, x)[i] == x / Power(k - 1 - i) % 256
    decreases k
  {
    if i < k - 1 {
      ToBytesAt(k - 1, x / 256, i);
      DivideTwice(x, 256, Power(k - 2 - i));
      assert Power(k - 1 - i) == 256 * Power(k - 2 - i);
    } else {
      assert Power(0) == 1;
    }
  }

  /** The sum of the bytes, each times its power of 256. */
  ghost function PlaceSum(bs: seq<byte>): (n: nat) {
    if bs == [] then 0 else bs[0] * Power(|bs| - 1) + PlaceSum(bs[1..])
  }

  lemma {:induction false} PlaceSumSnoc(bs: seq<byte>, b: byte)
    ensures PlaceSum(bs + [b]) == 256 * PlaceSum(bs) + b
  {
    if bs == [] {
      assert [b][1..] == [] && Power(0) == 1;
    } else {
      PlaceSumSnoc(bs[1..], b);
      assert (bs + [b])[1..] == bs[1..] + [b];
      assert bs[0] * Power(|bs|) == 256 * (bs[0] * Power(|bs| - 1)) by {
        assert Power(|bs|) == 256 * Power(|bs| - 1);
      }
    }
  }

  lemma {:induction false} FromBytesSum(bs: seq<byte>)
    ensures FromBytes(bs) == PlaceSum(bs)
  {
    if bs != [] {
      var init, last := bs[..|bs| - 1], bs[|bs| - 1];
      FromBytesSum(init);
      PlaceSumSnoc(init, last);
      assert bs == init + [last];
    }
  }

  // ----- signed integers, in two's complement

  predicate FitsIn(k: nat, x: int) {
    0 <= 2 * x + Power(k) && 2 * x < Power(k)
  }

  function EncodeInt(k: nat, x: int): (bs: seq<byte>)
    requires FitsIn(k, x)
    ensures |bs| == k
  {
    ToBytes(k, if x < 0 then x + Power(k) else x)
  }

  function DecodeInt(bs: seq<byte>): (x: int) {
    var n := FromBytes(bs);
    if 2 * n < Power(|bs|) then n else n - Power(|bs|)
  }

  /** An integer written in network order reads back as it was written. */
  lemma DecodeEncodeInt(k: nat, x: int)
    requires FitsIn(k, x)
    ensures DecodeInt(EncodeInt(k, x)) == x
  {
    FromToBytes(k, if x < 0 then x + Power(k) else x);
  }

  /** And any bytes that are read as an integer are how that integer is written. */
  lemma EncodeDecodeInt(bs: seq<byte>)
    ensures FitsIn(|bs|, DecodeInt(bs)) && EncodeInt(|bs|, DecodeInt(bs)) == bs
  {
    ToFromBytes(bs);
  }

  lemma {:induction false} PowerSum(i: nat, j: nat)
    ensures Power(i + j) == Power(i) * Power(j)
    decreases i
  {
    if i > 0 {
      PowerSum(i - 1, j);
      assert 256 * (Power(i - 1) * Power(j)) == (256 * Power(i - 1)) * Power(j);
    }
  }

  /** So is every integer written, a negative one too: the division rounds down. */
  lemma EncodeIntAt(k: nat, x: int, i: nat)
    requires FitsIn(k, x) && i < k
    ensures EncodeInt(k, x)[i] == x / Power(k - 1 - i) % 256
  {
    var p := Power(k - 1 - i);
    ToBytesAt(k, if x < 0 then x + Power(k) else x, i);
    if x < 0 {
      PowerSum(i + 1, k - 1 - i);
      DivideShifted(x, p, Power(i + 1));
      assert Power(i + 1) == Power(i) * 256;
      DivideShifted(x / p, 256, Power(i));
    }
  }

  /** And so it is read: the top bit of the first byte is the sign. */
  lemma DecodeIntAt(bs: seq<byte>)
    ensures DecodeInt(bs) == PlaceSum(bs) - if bs != [] && bs[0] >= 128 then Power(|bs|) else 0
  {
    FromBytesSum(bs);
    if bs == [] {
      assert Power(0) == 1;
    } else {
      FromBytesSum(bs[1..]);
      ToFromBytes(bs[1..]);
      TopBit(bs[0], Power(|bs| - 1), PlaceSum(bs[1..]));
    }
  }

  lemma TopBit(b: byte, p: nat, rest: nat)
    requires rest < p
    ensures 2 * (b * p + rest) < 256 * p <==> b < 128
  {
    assert (b < 128 ==> b * p <= 127 * p) && (b >= 128 ==> b * p >= 128 * p);
  }
}
