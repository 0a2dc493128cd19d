/** Bytes and the little-endian integers that the on-disk structures are made of. */
module Bytes {

  type byte = b: int | 0 <= b < 256

  /** 256 to the power n: the number of values an n-byte word can hold. */
  function WordValues(n: nat): (p: nat)
    ensures p > 0
  {
    if n == 0 then 1 else 256 * WordValues(n - 1)
  }

  /** The n-byte little-endian image of v; higher bits are dropped, as a C cast would. */
  function ToBytes(n: nat, v: nat): (s: seq<byte>)
    ensures |s| == n
  {
    if n == 0 then [] else [v % 256] + ToBytes(n - 1, v / 256)
  }

  /** The value of a little-endian word. */
  function FromBytes(s: seq<byte>): nat {
    if s == [] then 0 else s[0] + 256 * FromBytes(s[1..])
  }

  lemma {:induction false} FromToBytes(n: nat, v: nat)
    requires v < WordValues(n)
    ensures FromBytes(ToBytes(n, v)) == v
  {
    if n == 0 {
    } else {
      FromToBytes(n - 1, v / 256);
      assert ToBytes(n, v)[1..] == ToBytes(n - 1, v / 256);
    }
  }

  lemma {:induction false} ToFromBytes(s: seq<byte>)
    ensures FromBytes(s) < WordValues(|s|)
    ensures ToBytes(|s|, FromBytes(s)) == s
  {
    if s == [] {
    } else {
      ToFromBytes(s[1..]);
      assert FromBytes(s) % 256 == s[0] && FromBytes(s) / 256 == FromBytes(s[1..]);
    }
  }

  lemma {:induction false} WordSizes()
    ensures WordValues(4) == 0x1_0000_0000
    ensures WordValues(8) == 0x1_0000_0000_0000_0000
  {
    assert WordValues(1) == 256;
    assert WordValues(2) == 0x1_0000;
    assert WordValues(3) == 0x100_0000;
    assert WordValues(4) == 0x1_0000_0000;
    assert WordValues(5) == 0x100_0000_0000;
    assert WordValues(6) == 0x1_0000_0000_0000;
    assert WordValues(7) == 0x100_0000_0000_0000;
  }
}
