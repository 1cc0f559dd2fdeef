/** Properties of the padding. */
module Sha256Padding {
  import opened Sha256Spec
  import opened Arithmetic
  import opened Bits

  // FIPS 180-4 hashes messages of fewer than 2^64 bits.
  const MAX_BYTES: nat := 0x2000_0000_0000_0000

  predicate LeavesRoomForLength(length: nat, zeros: nat) {
    (length + 1 + zeros) % 64 == 56
  }

  // The zero bytes are the fewest that make the length end a block.
  lemma ZerosAreFewest(length: nat)
    ensures LeavesRoomForLength(length, Zeros(length))
    ensures forall z: nat :: LeavesRoomForLength(length, z) ==> z >= Zeros(length)
  {}

  function Value(digits: seq<nat>): nat {
    if digits == [] then 0 else 256 * Value(digits[..|digits| - 1]) + digits[|digits| - 1]
  }

  function Pow256(n: nat): (p: nat)
    ensures p >= 1
  {
    if n == 0 then 1 else 256 * Pow256(n - 1)
  }

  lemma U64IsPow256()
    ensures Pow256(8) == U64
  {}

  // The digits determine the number, as long as it fits.
  lemma {:induction false} DigitsHoldValue(x: nat, n: nat)
    requires x < Pow256(n)
    ensures Value(Digits(x, n)) == x
  {
    if n > 0 {
      DigitsHoldValue(x / 256, n - 1);
      assert Digits(x, n)[..n - 1] == Digits(x / 256, n - 1);
    }
  }

  lemma WrapThenDivide(x: nat, p: nat)
    requires p > 0
    ensures x % (256 * p) / 256 == x / 256 % p
    ensures x % (256 * p) % 256 == x % 256
  {
    var q, r := x / (256 * p), x % (256 * p);
    assert x == 256 * p * q + r;
    var t := p * q;
    assert 256 * p * q == 256 * t;
    assert x / 256 == t + r / 256 && x % 256 == r % 256;
    DivisionIsUnique(x / 256, p, q, r / 256);
  }

  // Wrapping a number does not change the digits that fit.
  lemma {:induction false} DigitsIgnoreWrap(x: nat, n: nat)
    ensures Digits(x % Pow256(n), n) == Digits(x, n)
  {
    if n > 0 {
      WrapThenDivide(x, Pow256(n - 1));
      DigitsIgnoreWrap(x / 256, n - 1);
    }
  }

  lemma BitCountMayWrap(length: nat)
    ensures Digits(length * 8 % U64, 8) == Digits(8 * length, 8)
  {
    U64IsPow256();
    DigitsIgnoreWrap(8 * length, 8);
  }

  lemma ToBytesIsInjective(a: seq<nat>, b: seq<nat>)
    requires |a| == |b| && forall i :: 0 <= i < |a| ==> a[i] < 256 && b[i] < 256
    requires ToBytes(a) == ToBytes(b)
    ensures a == b
  {
    forall i | 0 <= i < |a| ensures a[i] == b[i] {
      assert ToBytes(a)[i] == ToBytes(b)[i];
      ByteIsInjective(a[i], b[i]);
    }
  }

  lemma LengthBytesHoldLength(n1: nat, n2: nat)
    requires n1 < MAX_BYTES && n2 < MAX_BYTES && LengthBytes(n1) == LengthBytes(n2)
    ensures n1 == n2
  {
    U64IsPow256();
    ToBytesIsInjective(Digits(8 * n1, 8), Digits(8 * n2, 8));
    DigitsHoldValue(8 * n1, 8);
    DigitsHoldValue(8 * n2, 8);
  }

  lemma PadEndsInLength(m: Bytes)
    ensures var p := Pad(m);
      |p| >= |m| + 8 && p[..|m|] == m && p[|p| - 8..] == LengthBytes(|m|)
  {}

  // No two messages below the limit have the same padding.
  lemma PadIsInjective(m1: Bytes, m2: Bytes)
    requires |m1| < MAX_BYTES && |m2| < MAX_BYTES
    requires Pad(m1) == Pad(m2)
    ensures m1 == m2
  {
    PadEndsInLength(m1);
    PadEndsInLength(m2);
    LengthBytesHoldLength(|m1|, |m2|);
  }
}
