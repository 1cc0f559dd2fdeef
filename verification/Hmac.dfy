/** HMAC-SHA-256 as RFC 2104 defines it in section 2, its in-place computation, and what the
  * block structure of the hash makes of it. */
module Hmac {
  import opened Bits
  import opened BlockFold
  import opened Sha256Spec
  import Sha256

  const IPAD: bv8 := 0x36
  const OPAD: bv8 := 0x5c

  function ZeroPad(b: Bytes): (r: Bytes)
    requires |b| <= 64
    ensures |r| == 64
  {
    b + seq(64 - |b|, _ => 0)
  }

  // The key as one block: long keys are hashed first, then zeros are appended.
  function Normalise(key: Bytes): (r: Bytes)
    ensures |r| == 64
  {
    ZeroPad(if |key| > 64 then Sha256Spec.Sha256(key) else key)
  }

  function XorEach(block: Bytes, pad: bv8): (r: Bytes)
    ensures |r| == |block|
  {
    seq(|block|, i requires 0 <= i < |block| => block[i] ^ pad)
  }

  function HmacOfBlock(block: Bytes, message: Bytes): (mac: Bytes)
    ensures |mac| == 32
  {
    Sha256Spec.Sha256(XorEach(block, OPAD) + Sha256Spec.Sha256(XorEach(block, IPAD) + message))
  }

  function HmacSha256(key: Bytes, message: Bytes): (mac: Bytes)
    ensures |mac| == 32
  {
    HmacOfBlock(Normalise(key), message)
  }

  method Compute(key: Bytes, message: Bytes) returns (mac: Bytes)
    ensures mac == HmacSha256(key, message)
  {
    var paddedKey := PadKey(key);
    var iKeyPad, oKeyPad := KeyPads(paddedKey);
    var innerHash := Sha256.Hash(iKeyPad[..] + message);
    mac := Sha256.Hash(oKeyPad[..] + innerHash);
  }

  method PadKey(key: Bytes) returns (paddedKey: array<bv8>)
    ensures fresh(paddedKey) && paddedKey[..] == Normalise(key)
  {
    paddedKey := new bv8[64](_ => 0);
    var source := key;
    if |key| > 64 {
      source := Sha256.Hash(key);
    }
    CopyInto(source, paddedKey);
  }

  // `copy_from_slice` into the front of an array.
  method CopyInto(source: Bytes, target: array<bv8>)
    requires |source| <= target.Length
    modifies target
    ensures target[..] == source + old(target[|source|..])
  {
    for i := 0 to |source|
      invariant forall k :: 0 <= k < i ==> target[k] == source[k]
      invariant forall k :: i <= k < target.Length ==> target[k] == old(target[k])
    {
      target[i] := source[i];
    }
  }

  method KeyPads(key: array<bv8>) returns (i: array<bv8>, o: array<bv8>)
    requires key.Length == 64
    ensures fresh(i) && fresh(o)
    ensures i[..] == XorEach(key[..], IPAD) && o[..] == XorEach(key[..], OPAD)
  {
    i, o := new bv8[64](_ => IPAD), new bv8[64](_ => OPAD);
    for n := 0 to 64
      invariant fresh(i) && fresh(o) && i != o && i.Length == o.Length == 64
      invariant forall k :: 0 <= k < n ==> i[k] == key[k] ^ IPAD && o[k] == key[k] ^ OPAD
      invariant forall k :: n <= k < 64 ==> i[k] == IPAD && o[k] == OPAD
    {
      i[n] := i[n] ^ key[n];
      o[n] := o[n] ^ key[n];
    }
  }

  // Section 2 of RFC 2104 in its own terms: the key, hashed when longer than a block and followed
  // by zeros, is xored with 0x36 bytes for the inner hash and with 0x5c bytes for the outer one.
  lemma HmacIsRfc2104(key: Bytes, m: Bytes, block: Bytes, inner: Bytes, outer: Bytes)
    requires |block| == |inner| == |outer| == 64
    requires var short := if |key| > 64 then Sha256Spec.Sha256(key) else key;
      forall i :: 0 <= i < 64 ==> block[i] == if i < |short| then short[i] else 0
    requires forall i :: 0 <= i < 64 ==> inner[i] == block[i] ^ 0x36 && outer[i] == block[i] ^ 0x5c
    ensures HmacSha256(key, m) == Sha256Spec.Sha256(outer + Sha256Spec.Sha256(inner + m))
  {
    assert Normalise(key) == block;
    assert XorEach(block, IPAD) == inner && XorEach(block, OPAD) == outer;
  }

  lemma PadBehindBlock(block: Bytes, m: Bytes)
    requires |block| == 64
    ensures var rest := m + Padding(64 + |m|);
      Pad(block + m) == block + rest && |rest| % 64 == 0 && |Pad(block + m)| / 64 == 1 + |rest| / 64
  {
    var n := 64 + |m|;
    assert |block + m| == n;
    assert (block + m) + Padding(n) == block + (m + Padding(n));
  }

  // Hashing a message behind one whole block resumes from the state after that block; the
  // padding counts the block.
  lemma HashResumesAfterBlock(block: Bytes, m: Bytes)
    requires |block| == 64
    ensures var rest := m + Padding(64 + |m|);
      && |rest| % 64 == 0
      && Sha256Spec.Sha256(block + m) == Digest(HashBlocks(Compress(H0, block), rest, |rest| / 64))
  {
    var rest := m + Padding(64 + |m|);
    PadBehindBlock(block, m);
    FoldComposes(Compress, H0, block, rest, 1, |rest| / 64);
    FoldOfOneBlock(Compress, H0, block);
  }

  lemma FoldOfOneBlock<S>(step: (S, Bytes) -> S, s: S, block: Bytes)
    requires |block| == 64
    ensures Fold(step, s, block, 1) == step(s, block)
  {
    assert Block(block, 0) == block;
    assert Fold(step, s, block, 0) == s;
  }

  // HMAC resumes both hashes from the states after the two key blocks, which depend only on the
  // normalised key.
  lemma HmacResumesFromKeyStates(key: Bytes, m: Bytes)
    ensures var block := Normalise(key);
      var inner := m + Padding(64 + |m|);
      var innerHash := Digest(HashBlocks(Compress(H0, XorEach(block, IPAD)), inner, |inner| / 64));
      var outer := innerHash + Padding(96);
      HmacSha256(key, m) == Digest(HashBlocks(Compress(H0, XorEach(block, OPAD)), outer, |outer| / 64))
  {
    var block := Normalise(key);
    HashResumesAfterBlock(XorEach(block, IPAD), m);
    HashResumesAfterBlock(XorEach(block, OPAD), Sha256Spec.Sha256(XorEach(block, IPAD) + m));
  }

  // Two keys of at most one block are the same key to HMAC exactly when one is the other followed
  // by zero bytes.
  lemma NormalisedKeysAgree(k1: Bytes, k2: Bytes)
    requires |k1| <= |k2| <= 64
    ensures Normalise(k1) == Normalise(k2) <==> k2 == k1 + seq(|k2| - |k1|, _ => 0)
  {
    var n1, n2 := Normalise(k1), Normalise(k2);
    if k2 == k1 + seq(|k2| - |k1|, _ => 0) {
      assert n1 == n2;
    }
    if n1 == n2 {
      assert n1[..|k2|] == k1 + seq(|k2| - |k1|, _ => 0);
      assert n2[..|k2|] == k2;
    }
  }
}
