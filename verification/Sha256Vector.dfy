/** A known answer: the definition of SHA-256 hashes `hello` as the crate's own vector says. Each
  * lemma takes the schedule or the working variables a few steps further. */
module Sha256Vector {
  import opened Bits
  import opened BlockFold
  import opened Sha256Spec

  const HELLO: Bytes := [0x68, 0x65, 0x6c, 0x6c, 0x6f]

  // A block that holds the padded message.
  predicate IsPadded(b: Bytes) {
    && |b| == 64 && b[0] == 0x68 && b[1] == 0x65 && b[2] == 0x6c && b[3] == 0x6c && b[4] == 0x6f && b[5] == 0x80
    && (forall i :: 6 <= i < 63 ==> b[i] == 0) && b[63] == 0x28
  }

  predicate Entries(b: Bytes, t: nat, w0: bv32, w1: bv32, w2: bv32, w3: bv32)
    requires |b| == 64 && t + 3 < 64
  {
    W(b, t) == w0 && W(b, t + 1) == w1 && W(b, t + 2) == w2 && W(b, t + 3) == w3
  }

  lemma Entries0(b: Bytes)
    requires IsPadded(b)
    ensures Entries(b, 0, 0x68656c6c, 0x6f800000, 0x00000000, 0x00000000)
    ensures Entries(b, 4, 0x00000000, 0x00000000, 0x00000000, 0x00000000)
    ensures Entries(b, 8, 0x00000000, 0x00000000, 0x00000000, 0x00000000)
    ensures Entries(b, 12, 0x00000000, 0x00000000, 0x00000000, 0x00000028)
  {}

  lemma Entries16(b: Bytes)
    requires IsPadded(b)
    ensures Entries(b, 16, 0x7594884c, 0x6f910000, 0xd532d15a, 0xa01bde7a)
    ensures Entries(b, 20, 0x32b37c8b, 0x94da02f9, 0xd1d853f8, 0xb69b56c2)
  {
    Entries0(b);
  }

  lemma Entries24(b: Bytes)
    requires IsPadded(b)
    ensures Entries(b, 24, 0x934804c3, 0x96c77ca5, 0xa2f94846, 0x849744ef)
    ensures Entries(b, 28, 0x21dd3e6a, 0x1ca36b00, 0x3f957a61, 0x2079cf86)
  {
    Entries0(b);
    Entries16(b);
  }

  lemma Entries32(b: Bytes)
    requires IsPadded(b)
    ensures Entries(b, 32, 0x6bfc7c3b, 0x0c209d4b, 0x2228225c, 0xee1ad25b)
    ensures Entries(b, 36, 0xc5d09850, 0x07331882, 0x977423c5, 0xa667d6f9)
  {
    Entries16(b);
    Entries24(b);
  }

  lemma Entries40(b: Bytes)
    requires IsPadded(b)
    ensures Entries(b, 40, 0xbc044b46, 0x95859031, 0x5c98ca62, 0x64860c1b)
    ensures Entries(b, 44, 0x7ee7c777, 0x16c55872, 0x7cf67d29, 0x4857c138)
  {
    Entries24(b);
    Entries32(b);
  }

  lemma Entries48(b: Bytes)
    requires IsPadded(b)
    ensures Entries(b, 48, 0xa37f4a81, 0x35f8fd03, 0xf16ffce2, 0x6d549f9c)
    ensures Entries(b, 52, 0xa12ff314, 0xf1818db4, 0xf9cad136, 0xc960d70c)
  {
    Entries32(b);
    Entries40(b);
  }

  lemma Entries56(b: Bytes)
    requires IsPadded(b)
    ensures Entries(b, 56, 0x3a18f5f8, 0xf5fdf2ba, 0xe79a1b2a, 0x5dea4345)
    ensures Entries(b, 60, 0x701cc2f2, 0x3c9b25e2, 0xc9670b22, 0x3e3cb561)
  {
    Entries40(b);
    Entries48(b);
  }

  lemma FourRounds(b: Bytes, t: nat, w0: bv32, w1: bv32, w2: bv32, w3: bv32)
    requires |b| == 64 && t + 4 <= 64 && Entries(b, t, w0, w1, w2, w3)
    ensures var v := Rounds(H0, b, t);
      Rounds(H0, b, t + 4) == Round(Round(Round(Round(v, K[t], w0), K[t + 1], w1), K[t + 2], w2), K[t + 3], w3)
  {
    assert Rounds(H0, b, t + 2) == Round(Rounds(H0, b, t + 1), K[t + 1], w1);
    assert Rounds(H0, b, t + 3) == Round(Rounds(H0, b, t + 2), K[t + 2], w2);
  }

  lemma Constants0()
    ensures K[0] == 0x428a2f98 && K[1] == 0x71374491 && K[2] == 0xb5c0fbcf && K[3] == 0xe9b5dba5
    ensures K[4] == 0x3956c25b && K[5] == 0x59f111f1 && K[6] == 0x923f82a4 && K[7] == 0xab1c5ed5
    ensures K[8] == 0xd807aa98 && K[9] == 0x12835b01 && K[10] == 0x243185be && K[11] == 0x550c7dc3
    ensures K[12] == 0x72be5d74 && K[13] == 0x80deb1fe && K[14] == 0x9bdc06a7 && K[15] == 0xc19bf174
  {}

  lemma Constants16()
    ensures K[16] == 0xe49b69c1 && K[17] == 0xefbe4786 && K[18] == 0x0fc19dc6 && K[19] == 0x240ca1cc
    ensures K[20] == 0x2de92c6f && K[21] == 0x4a7484aa && K[22] == 0x5cb0a9dc && K[23] == 0x76f988da
    ensures K[24] == 0x983e5152 && K[25] == 0xa831c66d && K[26] == 0xb00327c8 && K[27] == 0xbf597fc7
    ensures K[28] == 0xc6e00bf3 && K[29] == 0xd5a79147 && K[30] == 0x06ca6351 && K[31] == 0x14292967
  {}

  lemma Constants32()
    ensures K[32] == 0x27b70a85 && K[33] == 0x2e1b2138 && K[34] == 0x4d2c6dfc && K[35] == 0x53380d13
    ensures K[36] == 0x650a7354 && K[37] == 0x766a0abb && K[38] == 0x81c2c92e && K[39] == 0x92722c85
    ensures K[40] == 0xa2bfe8a1 && K[41] == 0xa81a664b && K[42] == 0xc24b8b70 && K[43] == 0xc76c51a3
    ensures K[44] == 0xd192e819 && K[45] == 0xd6990624 && K[46] == 0xf40e3585 && K[47] == 0x106aa070
  {}

  lemma Constants48()
    ensures K[48] == 0x19a4c116 && K[49] == 0x1e376c08 && K[50] == 0x2748774c && K[51] == 0x34b0bcb5
    ensures K[52] == 0x391c0cb3 && K[53] == 0x4ed8aa4a && K[54] == 0x5b9cca4f && K[55] == 0x682e6ff3
    ensures K[56] == 0x748f82ee && K[57] == 0x78a5636f && K[58] == 0x84c87814 && K[59] == 0x8cc70208
    ensures K[60] == 0x90befffa && K[61] == 0xa4506ceb && K[62] == 0xbef9a3f7 && K[63] == 0xc67178f2
  {}

  lemma Rounds4(b: Bytes)
    requires IsPadded(b)
    ensures Rounds(H0, b, 4)
         == Words(0xa9531869, 0x46a5c0f7, 0xa01b3ad4, 0x646df4b9,
                  0x6e1e75d2, 0x0fbadb9b, 0x27198bd1, 0x012d4f0e)
  {
    Entries0(b);
    Constants0();
    FourRounds(b, 0, 0x68656c6c, 0x6f800000, 0x00000000, 0x00000000);
  }

  lemma Rounds8(b: Bytes)
    requires IsPadded(b)
    ensures Rounds(H0, b, 8)
         == Words(0x5619fea2, 0x42d8c3cf, 0x3b4760cd, 0xcbfa8346,
                  0x05cf37fe, 0x88f04d94, 0xcca93710, 0xaadd34e3)
  {
    Rounds4(b);
    Entries0(b);
    Constants0();
    FourRounds(b, 4, 0x00000000, 0x00000000, 0x00000000, 0x00000000);
  }

  lemma Rounds16(b: Bytes)
    requires IsPadded(b)
    ensures Rounds(H0, b, 16)
         == Words(0x55bd9162, 0x8d786e86, 0x99449713, 0x38f5bce3,
                  0xede948a5, 0x87538883, 0x611ea7ce, 0xbc76d585)
  {
    Rounds8(b);
    Entries0(b);
    Constants0();
    FourRounds(b, 8, 0x00000000, 0x00000000, 0x00000000, 0x00000000);
    FourRounds(b, 12, 0x00000000, 0x00000000, 0x00000000, 0x00000028);
  }

  lemma Rounds24(b: Bytes)
    requires IsPadded(b)
    ensures Rounds(H0, b, 24)
         == Words(0x159a7e81, 0xbdf9ec82, 0xb5e00e53, 0xa00f40bf,
                  0x29ae19ff, 0x59db6c49, 0x579fcc6d, 0xafc7fe0b)
  {
    Rounds16(b);
    Entries16(b);
    Constants16();
    FourRounds(b, 16, 0x7594884c, 0x6f910000, 0xd532d15a, 0xa01bde7a);
    FourRounds(b, 20, 0x32b37c8b, 0x94da02f9, 0xd1d853f8, 0xb69b56c2);
  }

  lemma Rounds32(b: Bytes)
    requires IsPadded(b)
    ensures Rounds(H0, b, 32)
         == Words(0x033c17ef, 0xc44c9f98, 0x0d94f00c, 0xc4b9f5b9,
                  0x3fb4bb4e, 0xae95a0dc, 0x163acf8e, 0x9a0b4446)
  {
    Rounds24(b);
    Entries24(b);
    Constants16();
    FourRounds(b, 24, 0x934804c3, 0x96c77ca5, 0xa2f94846, 0x849744ef);
    FourRounds(b, 28, 0x21dd3e6a, 0x1ca36b00, 0x3f957a61, 0x2079cf86);
  }

  lemma Rounds40(b: Bytes)
    requires IsPadded(b)
    ensures Rounds(H0, b, 40)
         == Words(0x4b80a310, 0xa3c3854f, 0xcccf6cff, 0x9b547889,
                  0xef774739, 0x5ac4daea, 0x976eecaf, 0xaa2c9ad1)
  {
    Rounds32(b);
    Entries32(b);
    Constants32();
    FourRounds(b, 32, 0x6bfc7c3b, 0x0c209d4b, 0x2228225c, 0xee1ad25b);
    FourRounds(b, 36, 0xc5d09850, 0x07331882, 0x977423c5, 0xa667d6f9);
  }

  lemma Rounds48(b: Bytes)
    requires IsPadded(b)
    ensures Rounds(H0, b, 48)
         == Words(0x92aaef10, 0xf5e75fc1, 0xb7182ef2, 0xda1b95a3,
                  0x88ea2409, 0x6042168a, 0x15ac92b5, 0x3050bcb4)
  {
    Rounds40(b);
    Entries40(b);
    Constants32();
    FourRounds(b, 40, 0xbc044b46, 0x95859031, 0x5c98ca62, 0x64860c1b);
    FourRounds(b, 44, 0x7ee7c777, 0x16c55872, 0x7cf67d29, 0x4857c138);
  }

  lemma Rounds56(b: Bytes)
    requires IsPadded(b)
    ensures Rounds(H0, b, 56)
         == Words(0x335e273d, 0xa87fa1ef, 0x5ae0dba6, 0x952fe02e,
                  0x4da8becd, 0x5f5572ee, 0x0301100e, 0xcc6948ea)
  {
    Rounds48(b);
    Entries48(b);
    Constants48();
    FourRounds(b, 48, 0xa37f4a81, 0x35f8fd03, 0xf16ffce2, 0x6d549f9c);
    FourRounds(b, 52, 0xa12ff314, 0xf1818db4, 0xf9cad136, 0xc960d70c);
  }

  lemma Rounds64(b: Bytes)
    requires IsPadded(b)
    ensures Rounds(H0, b, 64)
         == Words(0xc2e86753, 0xa448f489, 0xea7947b8, 0x2069ed64,
                  0xca07cbdd, 0x84a1d9d2, 0x538059b7, 0x37aacb0b)
  {
    Rounds56(b);
    Entries56(b);
    Constants48();
    FourRounds(b, 56, 0x3a18f5f8, 0xf5fdf2ba, 0xe79a1b2a, 0x5dea4345);
    FourRounds(b, 60, 0x701cc2f2, 0x3c9b25e2, 0xc9670b22, 0x3e3cb561);
  }

  lemma LengthOfHello()
    ensures LengthBytes(5) == [0, 0, 0, 0, 0, 0, 0, 0x28]
  {
    assert Digits(40, 8) == [0, 0, 0, 0, 0, 0, 0, 40] by {
      assert Digits(0, 2) == [0, 0] && Digits(0, 4) == [0, 0, 0, 0] && Digits(0, 6) == [0, 0, 0, 0, 0, 0];
      assert Digits(0, 7) == [0, 0, 0, 0, 0, 0, 0];
    }
    ByteOf40();
  }

  lemma ByteOf40()
    ensures Byte(0) == 0 && Byte(40) == 0x28
  {
    assert BinaryDigits(0, 2) == [false, false] && BinaryDigits(0, 4) == [false, false, false, false];
    assert BinaryDigits(0, 6) == [false, false, false, false, false, false];
    assert BinaryDigits(0, 8) == [false, false, false, false, false, false, false, false];
    assert BinaryDigits(1, 3) == [false, false, true] && BinaryDigits(5, 5) == [false, false, true, false, true];
    assert BinaryDigits(20, 7) == [false, false, true, false, true, false, false];
    assert BinaryDigits(40, 8) == [false, false, true, false, true, false, false, false];
  }

  lemma FiftyZeros()
    ensures Padding(5) == [0x80] + seq(50, _ => 0) + LengthBytes(5)
  {
    assert Zeros(5) == 50;
  }

  lemma PaddedMessage(padding: Bytes)
    requires padding == [0x80] + seq(50, _ => 0) + [0, 0, 0, 0, 0, 0, 0, 0x28]
    ensures IsPadded(HELLO + padding)
  {
    assert |padding| == 59 && padding[58] == 0x28 && forall i :: 1 <= i < 58 ==> padding[i] == 0;
  }

  // The message, a one bit, fifty zero bytes, and its forty bits.
  lemma PadIsOneBlock()
    ensures IsPadded(Pad(HELLO))
  {
    LengthOfHello();
    FiftyZeros();
    PaddedMessage(Padding(5));
  }

  // Each word of a digest stands in its four bytes, big-endian.
  lemma {:induction false} WordInBytes(words: seq<bv32>, i: nat)
    requires i < |words|
    ensures WordsToBytes(words)[4 * i..4 * i + 4] == BigEndian(words[i])
  {
    var n := |words| - 1;
    if i < n {
      WordInBytes(words[..n], i);
      assert WordsToBytes(words)[4 * i..4 * i + 4] == WordsToBytes(words[..n])[4 * i..4 * i + 4];
    }
  }

  lemma BigEndianByExample()
    ensures BigEndian(0x2cf24dba) == [0x2c, 0xf2, 0x4d, 0xba]
  {}

  // The digest of `hello`, by its words.
  lemma HashOfHello()
    ensures Sha256(HELLO) == Digest(Words(0x2cf24dba, 0x5fb0a30e, 0x26e83b2a, 0xc5b9e29e,
                                          0x1b161e5c, 0x1fa7425e, 0x73043362, 0x938b9824))
  {
    var p := Pad(HELLO);
    PadIsOneBlock();
    Rounds64(p);
    assert Block(p, 0) == p;
    assert Fold(Compress, H0, p, 0) == H0;
    assert HashBlocks(H0, p, 1) == Compress(H0, p);
    assert Compress(H0, p) == Words(0x2cf24dba, 0x5fb0a30e, 0x26e83b2a, 0xc5b9e29e,
                                    0x1b161e5c, 0x1fa7425e, 0x73043362, 0x938b9824);
  }
}
