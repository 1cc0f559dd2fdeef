/** Bytes and the numbers they stand for. */
module Bits {
  import opened Arithmetic

  type Bytes = seq<bv8>

  // The n binary digits of x, most significant first.
  function BinaryDigits(x: nat, n: nat): (bits: seq<bool>)
    ensures |bits| == n
  {
    if n == 0 then [] else BinaryDigits(x / 2, n - 1) + [x % 2 == 1]
  }

  function FromBits(b: seq<bool>): bv8
    requires |b| == 8
  {
    (if b[0] then 0x80 else 0) | (if b[1] then 0x40 else 0) | (if b[2] then 0x20 else 0) | (if b[3] then 0x10 else 0)
    | (if b[4] then 0x08 else 0) | (if b[5] then 0x04 else 0) | (if b[6] then 0x02 else 0) | (if b[7] then 0x01 else 0)
  }

  // The byte whose binary digits are those of x.
  function Byte(x: nat): bv8
    requires x < 256
  {
    FromBits(BinaryDigits(x, 8))
  }

  lemma {:induction false} BinaryDigitsDetermine(x: nat, y: nat, n: nat)
    requires x < Pow2(n) && y < Pow2(n) && BinaryDigits(x, n) == BinaryDigits(y, n)
    ensures x == y
  {
    if n > 0 {
      var a, b := BinaryDigits(x, n), BinaryDigits(y, n);
      assert a[..n - 1] == BinaryDigits(x / 2, n - 1) && b[..n - 1] == BinaryDigits(y / 2, n - 1);
      assert a[n - 1] == (x % 2 == 1) && b[n - 1] == (y % 2 == 1);
      BinaryDigitsDetermine(x / 2, y / 2, n - 1);
    }
  }

  lemma FromBitsIsInjective(a: seq<bool>, b: seq<bool>)
    requires |a| == |b| == 8 && FromBits(a) == FromBits(b)
    ensures a == b
  {}

  lemma ByteIsInjective(x: nat, y: nat)
    requires x < 256 && y < 256 && Byte(x) == Byte(y)
    ensures x == y
  {
    FromBitsIsInjective(BinaryDigits(x, 8), BinaryDigits(y, 8));
    assert Pow2(8) == 256;
    BinaryDigitsDetermine(x, y, 8);
  }
}
