/** Bytes and the fixed-width big-endian unsigned integers that MessagePack
    uses for its length and integer fields. */
module Bytes {

  type byte = x: int | 0 <= x < 256

  /** 256 to the power `k`: one more than the largest `k`-byte unsigned integer. */
  function Pow256(k: nat): (r: nat)
    ensures r >= 1
  {
    if k == 0 then 1 else 256 * Pow256(k - 1)
  }

  /** The `width`-byte big-endian representation of `n`, most significant byte first. */
  function ToBigEndian(n: nat, width: nat): (r: seq<byte>)
    requires n < Pow256(width)
    ensures |r| == width
    decreases width
  {
    if width == 0 then []
    else
      assert n / 256 < Pow256(width - 1);
      ToBigEndian(n / 256, width - 1) + [n % 256]
  }

  /** The unsigned integer whose big-endian representation is `s`. */
  function FromBigEndian(s: seq<byte>): (n: nat)
    ensures n < Pow256(|s|)
    decreases |s|
  {
    if |s| == 0 then 0
    else FromBigEndian(s[..|s| - 1]) * 256 + s[|s| - 1]
  }

  /** Reading back a written integer yields that integer. */
  lemma {:induction false} FromToBigEndian(n: nat, width: nat)
    requires n < Pow256(width)
    ensures FromBigEndian(ToBigEndian(n, width)) == n
    decreases width
  {
    if width > 0 {
      var s := ToBigEndian(n, width);
      assert s[..width - 1] == ToBigEndian(n / 256, width - 1);
      FromToBigEndian(n / 256, width - 1);
    }
  }

  /** Writing back a read integer at the same width reproduces the bytes. */
  lemma {:induction false} ToFromBigEndian(s: seq<byte>)
    ensures ToBigEndian(FromBigEndian(s), |s|) == s
    decreases |s|
  {
    if |s| > 0 {
      var init := s[..|s| - 1];
      var n := FromBigEndian(s);
      assert n / 256 == FromBigEndian(init) && n % 256 == s[|s| - 1];
      ToFromBigEndian(init);
      assert s == init + [s[|s| - 1]];
    }
  }

  /** The widths MessagePack uses, as literal bounds. */
  lemma Pow256Widths()
    ensures Pow256(1) == 0x100
    ensures Pow256(2) == 0x1_0000
    ensures Pow256(4) == 0x1_0000_0000
    ensures Pow256(8) == 0x1_0000_0000_0000_0000
  {
  }
}
