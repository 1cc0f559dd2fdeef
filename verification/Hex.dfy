/** Hexadecimal text and the comparison used on it. Text is its UTF-8 bytes. */
module Hex {
  import opened Bits
  import opened Wrappers

  function Digit(v: bv8): bv8 {
    if v < 10 then 0x30 + v else 0x61 + (v - 10)
  }

  function Pair(b: bv8): Bytes {
    [Digit(b >> 4), Digit(b & 0x0F)]
  }

  function Encode(data: Bytes): (text: Bytes)
    ensures |text| == 2 * |data|
  {
    if data == [] then [] else Pair(data[0]) + Encode(data[1..])
  }

  // A hexadecimal digit of either case.
  function DigitValue(c: bv8): Option<bv8> {
    if 0x30 <= c <= 0x39 then Some(c - 0x30)
    else if 0x61 <= c <= 0x66 then Some(c - 0x61 + 10)
    else if 0x41 <= c <= 0x46 then Some(c - 0x41 + 10)
    else None
  }

  // `u8::from_str_radix(.., 16)` on two characters: a leading plus sign is accepted.
  function PairValue(c0: bv8, c1: bv8): Option<bv8> {
    match (if c0 == 0x2B then Some(0) else DigitValue(c0), DigitValue(c1))
    case (Some(h), Some(l)) => Some((h << 4) | l)
    case _ => None
  }

  // Slicing the text inside a multi-byte character panics.
  datatype Decoded = Decoded(bytes: Bytes) | Rejected | Panicked

  predicate IsContinuation(c: bv8) {
    c & 0xC0 == 0x80
  }

  function Prepend(front: Bytes, rest: Decoded): Decoded {
    if rest.Decoded? then Decoded(front + rest.bytes) else rest
  }

  function DecodePairs(text: Bytes): Decoded {
    if |text| < 2 then Decoded([])
    else if |text| > 2 && IsContinuation(text[2]) then Panicked
    else
      match PairValue(text[0], text[1])
      case None => Rejected
      case Some(b) => Prepend([b], DecodePairs(text[2..]))
  }

  function Decode(text: Bytes): Decoded {
    if |text| % 2 != 0 then Rejected else DecodePairs(text)
  }

  lemma EncodeOneMore(data: Bytes, i: nat, out: Bytes)
    requires i < |data|
    ensures out + Encode(data[i..]) == out + Pair(data[i]) + Encode(data[i + 1..])
  {
    assert data[i..][1..] == data[i + 1..];
  }

  method HexEncode(data: Bytes) returns (out: Bytes)
    ensures out == Encode(data)
  {
    out := [];
    for i := 0 to |data|
      invariant out + Encode(data[i..]) == Encode(data)
    {
      EncodeOneMore(data, i, out);
      out := out + [Digit(data[i] >> 4), Digit(data[i] & 0x0F)];
    }
    assert data[|data|..] == [];
  }

  method HexDecode(text: Bytes) returns (result: Decoded)
    ensures result == Decode(text)
  {
    if |text| % 2 != 0 {
      return Rejected;
    }
    var bytes: Bytes := [];
    var i := 0;
    while i < |text|
      invariant 0 <= i <= |text| && i % 2 == 0
      invariant Decode(text) == Prepend(bytes, DecodePairs(text[i..]))
    {
      ghost var rest := text[i..];
      if i + 2 < |text| && IsContinuation(text[i + 2]) {
        return Panicked;
      }
      var pair := PairValue(text[i], text[i + 1]);
      if pair == None {
        return Rejected;
      }
      assert rest[2..] == text[i + 2..];
      PrependTwice(bytes, [pair.value], DecodePairs(rest[2..]));
      bytes := bytes + [pair.value];
      i := i + 2;
    }
    result := Decoded(bytes);
  }

  lemma PrependTwice(a: Bytes, b: Bytes, rest: Decoded)
    ensures Prepend(a, Prepend(b, rest)) == Prepend(a + b, rest)
  {
    if rest.Decoded? {
      assert a + (b + rest.bytes) == (a + b) + rest.bytes;
    }
  }

  lemma PairOfDigits(b: bv8)
    ensures PairValue(Digit(b >> 4), Digit(b & 0x0F)) == Some(b)
    ensures !IsContinuation(Digit(b >> 4))
  {}

  lemma EncodeStartsWithDigit(data: Bytes)
    requires data != []
    ensures !IsContinuation(Encode(data)[0])
    ensures PairValue(Encode(data)[0], Encode(data)[1]) == Some(data[0])
    ensures Encode(data)[2..] == Encode(data[1..])
  {
    PairOfDigits(data[0]);
  }

  lemma DecodePairsStep(text: Bytes, b: bv8)
    requires |text| >= 2 && (|text| > 2 ==> !IsContinuation(text[2]))
    requires PairValue(text[0], text[1]) == Some(b)
    ensures DecodePairs(text) == Prepend([b], DecodePairs(text[2..]))
  {}

  lemma {:induction false} DecodeInvertsEncode(data: Bytes)
    ensures Decode(Encode(data)) == Decoded(data)
  {
    if data != [] {
      var text, rest := Encode(data), data[1..];
      DecodeInvertsEncode(rest);
      EncodeStartsWithDigit(data);
      if rest != [] {
        EncodeStartsWithDigit(rest);
        assert text[2] == text[2..][0];
      }
      DecodePairsStep(text, data[0]);
      assert [data[0]] + rest == data;
    }
  }

  // ---- what the decoder accepts ----

  predicate IsDigit(c: bv8) {
    0x30 <= c <= 0x39 || 0x41 <= c <= 0x46 || 0x61 <= c <= 0x66
  }

  // The pair at an even position: a digit or a plus sign, and a digit.
  predicate PairFits(text: Bytes, i: nat)
    requires i + 1 < |text|
  {
    (IsDigit(text[i]) || text[i] == 0x2B) && IsDigit(text[i + 1])
  }

  // The slice that ends after the pair at i ends inside a character.
  predicate SliceTears(text: Bytes, i: nat) {
    i + 2 < |text| && IsContinuation(text[i + 2])
  }

  lemma PairValueExactly(c0: bv8, c1: bv8)
    ensures PairValue(c0, c1).Some? <==> (IsDigit(c0) || c0 == 0x2B) && IsDigit(c1)
    ensures IsDigit(c0) || c0 == 0x2B ==> !IsContinuation(c0)
  {}

  // Every pair of the text fits: no slice can then tear, since what fits is ASCII.
  predicate AllFit(text: Bytes) {
    forall i :: 0 <= i < |text| - 1 && i % 2 == 0 ==> PairFits(text, i)
  }

  // The first slice that tears comes after fitting pairs only.
  predicate Tears(text: Bytes) {
    exists i :: 0 <= i < |text| - 1 && i % 2 == 0 && TearsAt(text, i)
  }

  predicate TearsAt(text: Bytes, i: nat) {
    && SliceTears(text, i)
    && forall j :: 0 <= j < i && j % 2 == 0 ==> PairFits(text, j)
  }

  lemma FitFromRest(text: Bytes)
    requires |text| >= 2 && |text| % 2 == 0
    ensures AllFit(text) <==> PairFits(text, 0) && AllFit(text[2..])
    ensures Tears(text) <==> SliceTears(text, 0) || (PairFits(text, 0) && Tears(text[2..]))
  {
    var rest := text[2..];
    assert forall i :: 0 <= i < |rest| - 1 ==> rest[i] == text[i + 2] && PairFits(rest, i) == PairFits(text, i + 2);
    assert forall i :: 0 <= i ==> SliceTears(rest, i) == SliceTears(text, i + 2);
    if AllFit(rest) && PairFits(text, 0) {
      forall i | 0 <= i < |text| - 1 && i % 2 == 0 ensures PairFits(text, i) {
        if i > 0 { assert PairFits(rest, i - 2); }
      }
    }
    if AllFit(text) {
      forall i | 0 <= i < |rest| - 1 && i % 2 == 0 ensures PairFits(rest, i) {
        assert PairFits(text, i + 2);
      }
    }
    TearsFromRest(text);
  }

  lemma TearsFromRest(text: Bytes)
    requires |text| >= 2 && |text| % 2 == 0
    ensures Tears(text) <==> SliceTears(text, 0) || (PairFits(text, 0) && Tears(text[2..]))
  {
    var rest := text[2..];
    if SliceTears(text, 0) {
      assert TearsAt(text, 0);
    }
    if PairFits(text, 0) && Tears(rest) {
      var i :| 0 <= i < |rest| - 1 && i % 2 == 0 && TearsAt(rest, i);
      forall j | 0 <= j < i + 2 && j % 2 == 0 ensures PairFits(text, j) {
        if j > 0 { assert PairFits(rest, j - 2); }
      }
      assert TearsAt(text, i + 2);
    }
    if Tears(text) && !SliceTears(text, 0) {
      var i :| 0 <= i < |text| - 1 && i % 2 == 0 && TearsAt(text, i);
      assert PairFits(text, 0);
      forall j | 0 <= j < i - 2 && j % 2 == 0 ensures PairFits(rest, j) {
        assert PairFits(text, j + 2);
      }
      assert TearsAt(rest, i - 2);
    }
  }

  // A text is accepted exactly when its length is even and every pair is two digits, the first of
  // which may be a plus sign; decoding panics exactly when, after fitting pairs only, a slice ends
  // inside a multi-byte character.
  lemma {:induction false} DecodesExactly(text: Bytes)
    ensures Decode(text).Decoded? <==> |text| % 2 == 0 && AllFit(text)
    ensures Decode(text).Panicked? <==> |text| % 2 == 0 && Tears(text)
  {
    if |text| % 2 == 0 && text != [] {
      DecodesExactly(text[2..]);
      FitFromRest(text);
      PairValueExactly(text[0], text[1]);
      if AllFit(text) {
        FittingDoesNotTear(text);
      }
    }
  }

  lemma FittingDoesNotTear(text: Bytes)
    requires |text| % 2 == 0 && AllFit(text)
    ensures !SliceTears(text, 0)
  {
    if 2 < |text| {
      assert PairFits(text, 2);
      PairValueExactly(text[2], text[3]);
    }
  }

  // The bytes de, ad, be and ef are written as they are named.
  lemma VectorOfTheCrate()
    ensures Encode([0xde, 0xad, 0xbe, 0xef]) == [0x64, 0x65, 0x61, 0x64, 0x62, 0x65, 0x65, 0x66]
    ensures forall v: bv8 :: v < 16 ==> Digit(v) == if v < 10 then 0x30 + v else 0x61 + (v - 10)
  {
    var all: Bytes := [0xde, 0xad, 0xbe, 0xef];
    assert all[1..] == [0xad, 0xbe, 0xef] && all[1..][1..] == [0xbe, 0xef] && all[1..][1..][1..] == [0xef];
    assert all[1..][1..][1..][1..] == [];
    assert Pair(0xde) == [0x64, 0x65] && Pair(0xad) == [0x61, 0x64] && Pair(0xbe) == [0x62, 0x65];
    assert Pair(0xef) == [0x65, 0x66];
    assert Encode(all[1..][1..][1..]) == Pair(0xef) + [];
    assert Encode(all[1..][1..]) == Pair(0xbe) + Encode(all[1..][1..][1..]);
    assert Encode(all[1..]) == Pair(0xad) + Encode(all[1..][1..]);
  }

  // ---- upper case and plus signs ----

  function LowerCase(c: bv8): bv8 {
    if 0x41 <= c <= 0x5A then c + 0x20 else c
  }

  function Lower(text: Bytes): Bytes {
    seq(|text|, i requires 0 <= i < |text| => LowerCase(text[i]))
  }

  // The text with a zero for each plus sign that starts a pair.
  function Unsigned(text: Bytes): Bytes {
    seq(|text|, i requires 0 <= i < |text| => if i % 2 == 0 && text[i] == 0x2B then 0x30 else text[i])
  }

  lemma LowerCaseCounts(c0: bv8, c1: bv8)
    ensures PairValue(LowerCase(c0), LowerCase(c1)) == PairValue(c0, c1)
    ensures IsContinuation(LowerCase(c0)) <==> IsContinuation(c0)
  {}

  lemma PlusCountsAsZero(c0: bv8, c1: bv8)
    ensures PairValue(if c0 == 0x2B then 0x30 else c0, c1) == PairValue(c0, c1)
    ensures IsContinuation(if c0 == 0x2B then 0x30 else c0) <==> IsContinuation(c0)
  {}

  // Upper case decodes as lower case does.
  lemma {:induction false} CaseDoesNotMatter(text: Bytes)
    ensures DecodePairs(Lower(text)) == DecodePairs(text) && Decode(Lower(text)) == Decode(text)
  {
    if |text| >= 2 {
      CaseDoesNotMatter(text[2..]);
      LowerCaseCounts(text[0], text[1]);
      assert Lower(text)[2..] == Lower(text[2..]);
      if |text| > 2 {
        LowerCaseCounts(text[2], 0);
      }
    }
  }

  // A leading plus sign counts as a zero.
  lemma {:induction false} PlusDoesNotMatter(text: Bytes)
    ensures DecodePairs(Unsigned(text)) == DecodePairs(text) && Decode(Unsigned(text)) == Decode(text)
  {
    if |text| >= 2 {
      PlusDoesNotMatter(text[2..]);
      PlusCountsAsZero(text[0], text[1]);
      assert Unsigned(text)[2..] == Unsigned(text[2..]);
      if |text| > 2 {
        PlusCountsAsZero(text[2], 0);
      }
    }
  }

  // ---- encoding inverts decoding on lower-case text ----

  predicate IsCanonicalDigit(c: bv8) {
    0x30 <= c <= 0x39 || 0x61 <= c <= 0x66
  }

  predicate AllCanonical(text: Bytes) {
    forall i :: 0 <= i < |text| ==> IsCanonicalDigit(text[i])
  }

  lemma CanonicalFromRest(text: Bytes)
    requires |text| >= 2
    ensures AllCanonical(text) <==> IsCanonicalDigit(text[0]) && IsCanonicalDigit(text[1]) && AllCanonical(text[2..])
  {
    assert text == [text[0], text[1]] + text[2..];
  }

  lemma DigitsOfPair(c0: bv8, c1: bv8, b: bv8)
    requires PairValue(c0, c1) == Some(b)
    ensures Digit(b >> 4) == c0 && Digit(b & 0x0F) == c1 <==> IsCanonicalDigit(c0) && IsCanonicalDigit(c1)
  {}

  // The decoder takes upper case and plus signs; encoding gives the text back exactly when it
  // consists of lower-case digits.
  lemma {:induction false} EncodeInvertsDecode(text: Bytes, data: Bytes)
    requires Decode(text) == Decoded(data)
    ensures Encode(data) == text <==> AllCanonical(text)
  {
    if text != [] {
      var c0, c1, rest := text[0], text[1], text[2..];
      var b := PairValue(c0, c1).value;
      DigitsOfPair(c0, c1, b);
      EncodeInvertsDecode(rest, data[1..]);
      CanonicalFromRest(text);
      assert text == [c0, c1] + rest;
      assert Encode(data) == Pair(b) + Encode(data[1..]);
    }
  }

  // The accumulated difference of two byte strings of one length.
  lemma DifferenceGrows(diff: bv8, x: bv8, y: bv8)
    ensures diff | (x ^ y) == 0 <==> diff == 0 && x == y
  {}

  // The OR of XORs is zero exactly on equal byte strings.
  method ConstantTimeEq(a: Bytes, b: Bytes) returns (equal: bool)
    ensures equal <==> a == b
  {
    if |a| != |b| {
      return false;
    }
    var diff: bv8 := 0;
    for i := 0 to |a|
      invariant diff == 0 <==> a[..i] == b[..i]
    {
      DifferenceGrows(diff, a[i], b[i]);
      assert a[..i + 1] == a[..i] + [a[i]] && b[..i + 1] == b[..i] + [b[i]];
      diff := diff | (a[i] ^ b[i]);
    }
    assert a[..|a|] == a && b[..|b|] == b;
    equal := diff == 0;
  }
}
