/** SHA-256 as FIPS 180-4 defines it: the functions of section 4.1.2, the padding of section
  * 5.1.1 for messages of whole bytes, and the hash computation of section 6.2.2. */
module Sha256Spec {
  import opened Bits
  import opened BlockFold

  // Section 4.2.2, in four rows.
  const K0: seq<bv32> := [
    0x428a2f98, 0x71374491, 0xb5c0fbcf, 0xe9b5dba5, 0x3956c25b, 0x59f111f1, 0x923f82a4, 0xab1c5ed5,
    0xd807aa98, 0x12835b01, 0x243185be, 0x550c7dc3, 0x72be5d74, 0x80deb1fe, 0x9bdc06a7, 0xc19bf174]
  const K16: seq<bv32> := [
    0xe49b69c1, 0xefbe4786, 0x0fc19dc6, 0x240ca1cc, 0x2de92c6f, 0x4a7484aa, 0x5cb0a9dc, 0x76f988da,
    0x983e5152, 0xa831c66d, 0xb00327c8, 0xbf597fc7, 0xc6e00bf3, 0xd5a79147, 0x06ca6351, 0x14292967]
  const K32: seq<bv32> := [
    0x27b70a85, 0x2e1b2138, 0x4d2c6dfc, 0x53380d13, 0x650a7354, 0x766a0abb, 0x81c2c92e, 0x92722c85,
    0xa2bfe8a1, 0xa81a664b, 0xc24b8b70, 0xc76c51a3, 0xd192e819, 0xd6990624, 0xf40e3585, 0x106aa070]
  const K48: seq<bv32> := [
    0x19a4c116, 0x1e376c08, 0x2748774c, 0x34b0bcb5, 0x391c0cb3, 0x4ed8aa4a, 0x5b9cca4f, 0x682e6ff3,
    0x748f82ee, 0x78a5636f, 0x84c87814, 0x8cc70208, 0x90befffa, 0xa4506ceb, 0xbef9a3f7, 0xc67178f2]
  const K: seq<bv32> := (K0 + K16) + (K32 + K48)

  // Addition modulo 2^32.
  function Plus(x: bv32, y: bv32): bv32 { x + y }
  function Plus4(x: bv32, y: bv32, z: bv32, u: bv32): bv32 { x + y + z + u }
  function Plus5(x: bv32, y: bv32, z: bv32, u: bv32, v: bv32): bv32 { x + y + z + u + v }

  // Section 4.1.2, with the rotations written as two shifts.
  function Ch(x: bv32, y: bv32, z: bv32): bv32 { (x & y) ^ (!x & z) }
  function Maj(x: bv32, y: bv32, z: bv32): bv32 { (x & y) ^ (x & z) ^ (y & z) }
  function BigSigma0(x: bv32): bv32 { ((x >> 2) | (x << 30)) ^ ((x >> 13) | (x << 19)) ^ ((x >> 22) | (x << 10)) }
  function BigSigma1(x: bv32): bv32 { ((x >> 6) | (x << 26)) ^ ((x >> 11) | (x << 21)) ^ ((x >> 25) | (x << 7)) }
  function SmallSigma0(x: bv32): bv32 { ((x >> 7) | (x << 25)) ^ ((x >> 18) | (x << 14)) ^ (x >> 3) }
  function SmallSigma1(x: bv32): bv32 { ((x >> 17) | (x << 15)) ^ ((x >> 19) | (x << 13)) ^ (x >> 10) }

  // A hash value, and the eight working variables.
  datatype Words = Words(a: bv32, b: bv32, c: bv32, d: bv32, e: bv32, f: bv32, g: bv32, h: bv32)

  // Section 5.3.3.
  const H0: Words := Words(
    0x6a09e667, 0xbb67ae85, 0x3c6ef372, 0xa54ff53a, 0x510e527f, 0x9b05688c, 0x1f83d9ab, 0x5be0cd19)

  function WordAt(block: Bytes, t: nat): bv32
    requires 4 * t + 3 < |block|
  {
    ((block[4 * t] as bv32) << 24) | ((block[4 * t + 1] as bv32) << 16)
    | ((block[4 * t + 2] as bv32) << 8) | (block[4 * t + 3] as bv32)
  }

  // Section 6.2.2, step 1: the message schedule.
  function W(block: Bytes, t: nat): bv32
    requires |block| == 64 && t < 64
  {
    if t < 16 then WordAt(block, t)
    else Plus4(SmallSigma1(W(block, t - 2)), W(block, t - 7), SmallSigma0(W(block, t - 15)), W(block, t - 16))
  }

  // Step 3: one round on the working variables.
  function Round(v: Words, k: bv32, w: bv32): Words {
    var t1 := Plus5(v.h, BigSigma1(v.e), Ch(v.e, v.f, v.g), k, w);
    var t2 := Plus(BigSigma0(v.a), Maj(v.a, v.b, v.c));
    Words(Plus(t1, t2), v.a, v.b, v.c, Plus(v.d, t1), v.e, v.f, v.g)
  }

  function Rounds(v: Words, block: Bytes, t: nat): Words
    requires |block| == 64 && t <= 64
  {
    if t == 0 then v else Round(Rounds(v, block, t - 1), K[t - 1], W(block, t - 1))
  }

  // Step 4: the intermediate hash value. Only blocks of 64 bytes are ever compressed.
  function Compress(h: Words, block: Bytes): Words {
    if |block| != 64 then h
    else
      var v := Rounds(h, block, 64);
      Words(Plus(h.a, v.a), Plus(h.b, v.b), Plus(h.c, v.c), Plus(h.d, v.d),
            Plus(h.e, v.e), Plus(h.f, v.f), Plus(h.g, v.g), Plus(h.h, v.h))
  }

  // The hash value after the first n blocks.
  function HashBlocks(h: Words, m: Bytes, n: nat): Words
    requires 64 * n <= |m|
  {
    Fold(Compress, h, m, n)
  }

  function BigEndian(w: bv32): Bytes {
    [((w >> 24) & 0xFF) as bv8, ((w >> 16) & 0xFF) as bv8, ((w >> 8) & 0xFF) as bv8, (w & 0xFF) as bv8]
  }

  function WordsToBytes(words: seq<bv32>): (bytes: Bytes)
    ensures |bytes| == 4 * |words|
  {
    if words == [] then []
    else
      var n := |words| - 1;
      WordsToBytes(words[..n]) + BigEndian(words[n])
  }

  function Digest(h: Words): (d: Bytes)
    ensures |d| == 32
  {
    WordsToBytes([h.a, h.b, h.c, h.d, h.e, h.f, h.g, h.h])
  }

  // Section 5.1.1: a one bit, then the fewest zero bits that leave room for the length to end a
  // block, then the length in bits as a 64-bit number.
  function Zeros(length: nat): (zeros: nat)
    ensures (length + 1 + zeros + 8) % 64 == 0
  {
    (119 - length % 64) % 64
  }

  // The n digits of a number to the base 256, most significant first.
  function Digits(x: nat, n: nat): (digits: seq<nat>)
    ensures |digits| == n
    ensures forall i :: 0 <= i < n ==> digits[i] < 256
  {
    if n == 0 then [] else Digits(x / 256, n - 1) + [x % 256]
  }

  function ToBytes(digits: seq<nat>): (bytes: Bytes)
    requires forall i :: 0 <= i < |digits| ==> digits[i] < 256
    ensures |bytes| == |digits|
    ensures forall i :: 0 <= i < |digits| ==> bytes[i] == Byte(digits[i])
  {
    seq(|digits|, i requires 0 <= i < |digits| => Byte(digits[i]))
  }

  function LengthBytes(length: nat): (bytes: Bytes)
    ensures |bytes| == 8
  {
    ToBytes(Digits(8 * length, 8))
  }

  function Padding(length: nat): (padding: Bytes)
    ensures |padding| == 1 + Zeros(length) + 8
  {
    [0x80] + seq(Zeros(length), _ => 0) + LengthBytes(length)
  }

  function Pad(m: Bytes): (p: Bytes)
    ensures |p| % 64 == 0
  {
    m + Padding(|m|)
  }

  function Sha256(m: Bytes): (d: Bytes)
    ensures |d| == 32
  {
    Digest(HashBlocks(H0, Pad(m), |Pad(m)| / 64))
  }
}
