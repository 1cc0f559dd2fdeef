/** The SHA-256 of the identity crate: loops that fill the padding, the 64-entry schedule, the
  * eight rotating registers and the running hash in place. It computes what FIPS 180-4 defines. */
module Sha256 {
  import opened Arithmetic
  import opened Bits
  import opened BlockFold
  import opened Sha256Spec
  import Padding = Sha256Padding

  // The rotations of the code are the rotations of the standard.
  lemma RotationsAgree(x: bv32)
    ensures x.RotateRight(7) ^ x.RotateRight(18) ^ (x >> 3) == SmallSigma0(x)
    ensures x.RotateRight(17) ^ x.RotateRight(19) ^ (x >> 10) == SmallSigma1(x)
    ensures x.RotateRight(2) ^ x.RotateRight(13) ^ x.RotateRight(22) == BigSigma0(x)
    ensures x.RotateRight(6) ^ x.RotateRight(11) ^ x.RotateRight(25) == BigSigma1(x)
  {}

  // The schedule adds its four terms in another order than the standard.
  lemma SumsAgree(s1: bv32, w7: bv32, s0: bv32, w16: bv32)
    ensures Plus4(w16, s0, w7, s1) == Plus4(s1, w7, s0, w16)
  {}

  // The first sixteen entries of the schedule: the words of the block.
  method LoadWords(chunk: Bytes, w: array<bv32>)
    requires |chunk| == 64 && w.Length == 64
    modifies w
    ensures forall t :: 0 <= t < 16 ==> w[t] == W(chunk, t)
  {
    var i := 0;
    while i < 16
      invariant 0 <= i <= 16
      invariant forall t :: 0 <= t < i ==> w[t] == W(chunk, t)
    {
      w[i] := ((chunk[i * 4] as bv32) << 24) | ((chunk[i * 4 + 1] as bv32) << 16)
              | ((chunk[i * 4 + 2] as bv32) << 8) | (chunk[i * 4 + 3] as bv32);
      i := i + 1;
    }
  }

  // One of the other entries, from four earlier ones.
  method NextWord(ghost chunk: Bytes, w: array<bv32>, i: nat) returns (x: bv32)
    requires |chunk| == 64 && w.Length == 64 && 16 <= i < 64
    requires forall t :: 0 <= t < i ==> w[t] == W(chunk, t)
    ensures x == W(chunk, i)
  {
    var w16, w15, w7, w2 := w[i - 16], w[i - 15], w[i - 7], w[i - 2];
    var s0 := w15.RotateRight(7) ^ w15.RotateRight(18) ^ (w15 >> 3);
    var s1 := w2.RotateRight(17) ^ w2.RotateRight(19) ^ (w2 >> 10);
    x := Plus4(w16, s0, w7, s1);
    RotationsAgree(w15);
    RotationsAgree(w2);
    SumsAgree(s1, w7, s0, w16);
  }

  method ExtendWords(ghost chunk: Bytes, w: array<bv32>)
    requires |chunk| == 64 && w.Length == 64
    requires forall t :: 0 <= t < 16 ==> w[t] == W(chunk, t)
    modifies w
    ensures forall t :: 0 <= t < 64 ==> w[t] == W(chunk, t)
  {
    var i := 16;
    while i < 64
      invariant 16 <= i <= 64
      invariant forall t :: 0 <= t < i ==> w[t] == W(chunk, t)
    {
      w[i] := NextWord(chunk, w, i);
      i := i + 1;
    }
  }

  ghost function Value(h: array<bv32>): Words
    requires h.Length == 8
    reads h
  {
    Words(h[0], h[1], h[2], h[3], h[4], h[5], h[6], h[7])
  }

  // The 64 rounds of one block on the eight registers.
  method RunRounds(h: array<bv32>, w: array<bv32>, ghost chunk: Bytes) returns (v: Words)
    requires h.Length == 8 && w.Length == 64 && |chunk| == 64
    requires forall t :: 0 <= t < 64 ==> w[t] == W(chunk, t)
    ensures v == Rounds(Value(h), chunk, 64)
  {
    var a, b, c, d, e, f, g, hh := h[0], h[1], h[2], h[3], h[4], h[5], h[6], h[7];
    var i := 0;
    while i < 64
      invariant 0 <= i <= 64
      invariant Words(a, b, c, d, e, f, g, hh) == Rounds(Value(h), chunk, i)
    {
      RotationsAgree(e);
      RotationsAgree(a);
      var s1 := e.RotateRight(6) ^ e.RotateRight(11) ^ e.RotateRight(25);
      var ch := (e & f) ^ (!e & g);
      var temp1 := Plus5(hh, s1, ch, K[i], w[i]);
      var s0 := a.RotateRight(2) ^ a.RotateRight(13) ^ a.RotateRight(22);
      var maj := (a & b) ^ (a & c) ^ (b & c);
      var temp2 := Plus(s0, maj);
      hh := g;
      g := f;
      f := e;
      e := Plus(d, temp1);
      d := c;
      c := b;
      b := a;
      a := Plus(temp1, temp2);
      i := i + 1;
    }
    v := Words(a, b, c, d, e, f, g, hh);
  }

  // The update of the hash value after the rounds.
  method AddInPlace(h: array<bv32>, v: Words)
    requires h.Length == 8
    modifies h
    ensures var u := old(Value(h));
      Value(h) == Words(Plus(u.a, v.a), Plus(u.b, v.b), Plus(u.c, v.c), Plus(u.d, v.d),
                        Plus(u.e, v.e), Plus(u.f, v.f), Plus(u.g, v.g), Plus(u.h, v.h))
  {
    h[0] := Plus(h[0], v.a);
    h[1] := Plus(h[1], v.b);
    h[2] := Plus(h[2], v.c);
    h[3] := Plus(h[3], v.d);
    h[4] := Plus(h[4], v.e);
    h[5] := Plus(h[5], v.f);
    h[6] := Plus(h[6], v.g);
    h[7] := Plus(h[7], v.h);
  }

  method ProcessChunk(h: array<bv32>, chunk: Bytes)
    requires h.Length == 8 && |chunk| == 64
    modifies h
    ensures Value(h) == Compress(old(Value(h)), chunk)
  {
    var w := new bv32[64](_ => 0);
    LoadWords(chunk, w);
    ExtendWords(chunk, w);
    var v := RunRounds(h, w, chunk);
    AddInPlace(h, v);
  }

  // The zero-fill loop: it ends at the first length that leaves eight bytes to the block.
  method FillZeros(start: Bytes) returns (padded: Bytes)
    requires start != []
    ensures padded == start + seq(Zeros(|start| - 1), _ => 0)
  {
    var length := |start| - 1;
    Padding.ZerosAreFewest(length);
    padded := start;
    while |padded| % 64 != 56
      invariant |start| <= |padded| <= |start| + Zeros(length)
      invariant padded == start + seq(|padded| - |start|, _ => 0)
      decreases |start| + Zeros(length) - |padded|
    {
      assert |padded| != |start| + Zeros(length);
      padded := padded + [0];
    }
    assert Padding.LeavesRoomForLength(length, |padded| - |start|);
  }

  // The padded message. The bit count is a 64-bit product, which wraps.
  method PadMessage(data: Bytes) returns (padded: Bytes)
    ensures padded == Pad(data)
  {
    var bitLen := |data| * 8 % U64;
    padded := FillZeros(data + [0x80]);
    var length := ToBeBytes(bitLen);
    Padding.BitCountMayWrap(|data|);
    padded := padded + length;
  }

  // `u64::to_be_bytes`.
  method ToBeBytes(x: nat) returns (bytes: Bytes)
    requires x < U64
    ensures bytes == ToBytes(Digits(x, 8))
  {
    ghost var digits: seq<nat> := [];
    bytes := [];
    var rest := x;
    for i := 0 to 8
      invariant |digits| == i && forall k :: 0 <= k < i ==> digits[k] < 256
      invariant Digits(x, 8) == Digits(rest, 8 - i) + digits
      invariant bytes == ToBytes(digits)
    {
      digits := [rest % 256] + digits;
      bytes := [Byte(rest % 256)] + bytes;
      rest := rest / 256;
    }
  }

  // One compression per chunk of 64 bytes.
  method HashChunks(padded: Bytes) returns (h: array<bv32>)
    ensures fresh(h) && h.Length == 8
    ensures Value(h) == HashBlocks(H0, padded, |padded| / 64)
  {
    h := new bv32[] [0x6a09e667, 0xbb67ae85, 0x3c6ef372, 0xa54ff53a, 0x510e527f, 0x9b05688c, 0x1f83d9ab, 0x5be0cd19];
    for i := 0 to |padded| / 64
      invariant fresh(h) && h.Length == 8
      invariant Value(h) == HashBlocks(H0, padded, i)
    {
      ProcessChunk(h, Block(padded, i));
    }
  }

  // The hash of a message.
  method Hash(data: Bytes) returns (result: Bytes)
    ensures result == Sha256Spec.Sha256(data)
  {
    var padded := PadMessage(data);
    var h := HashChunks(padded);
    result := WriteDigest(h);
  }

  // The hash value as 32 bytes, word by word.
  method WriteDigest(h: array<bv32>) returns (result: Bytes)
    requires h.Length == 8
    ensures result == Digest(Value(h))
  {
    result := [];
    var i := 0;
    while i < 8
      invariant 0 <= i <= 8
      invariant result == WordsToBytes(h[..i])
    {
      assert h[..i + 1][..i] == h[..i];
      result := result + BigEndian(h[i]);
      i := i + 1;
    }
    assert h[..8] == [h[0], h[1], h[2], h[3], h[4], h[5], h[6], h[7]];
  }
}
