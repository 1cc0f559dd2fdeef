/** The base64 of the identity crate. Text is its bytes; the shifts and masks are those of the code.
  * RFC 4648 describes the alphabet and the padding in section 4 and canonical text in section 3.5. */
module Base64 {
  import opened Bits
  import opened Wrappers

  const PAD: bv8 := 0x3D

  // The alphabet: `A`-`Z`, `a`-`z`, `0`-`9`, `+`, `/`.
  function Symbol(v: bv32): bv8
    requires v < 64
  {
    var b := v as bv8;
    if b < 26 then 0x41 + b
    else if b < 52 then 0x61 + (b - 26)
    else if b < 62 then 0x30 + (b - 52)
    else if b == 62 then 0x2B else 0x2F
  }

  function SymbolValue(c: bv8): Option<bv8> {
    if 0x41 <= c <= 0x5A then Some(c - 0x41)
    else if 0x61 <= c <= 0x7A then Some(c - 0x61 + 26)
    else if 0x30 <= c <= 0x39 then Some(c - 0x30 + 52)
    else if c == 0x2B then Some(62)
    else if c == 0x2F then Some(63)
    else None
  }

  function Triple(b0: bv8, b1: bv8, b2: bv8): bv32 {
    ((b0 as bv32) << 16) | ((b1 as bv32) << 8) | (b2 as bv32)
  }

  // The bytes of a chunk, with zeros for those it does not have.
  function ChunkTriple(chunk: Bytes): bv32
    requires 1 <= |chunk| <= 3
  {
    Triple(chunk[0], if |chunk| > 1 then chunk[1] else 0, if |chunk| > 2 then chunk[2] else 0)
  }

  // The four sextets of a triple.
  function Cut(t: bv32): (v: (bv32, bv32, bv32, bv32))
    ensures v.0 < 64 && v.1 < 64 && v.2 < 64 && v.3 < 64
  {
    ((t >> 18) & 0x3F, (t >> 12) & 0x3F, (t >> 6) & 0x3F, t & 0x3F)
  }

  // Two to four sextets as text, padded to a quantum.
  function Quantum(v0: bv32, v1: bv32, v2: bv32, v3: bv32, n: nat): (quantum: Bytes)
    requires v0 < 64 && v1 < 64 && v2 < 64 && v3 < 64
    ensures |quantum| == 4
  {
    [Symbol(v0), Symbol(v1), if n > 2 then Symbol(v2) else PAD, if n > 3 then Symbol(v3) else PAD]
  }

  // The four characters of a chunk of one to three bytes.
  function EncodeChunk(chunk: Bytes): (quantum: Bytes)
    requires 1 <= |chunk| <= 3
    ensures |quantum| == 4
  {
    var v := Cut(ChunkTriple(chunk));
    Quantum(v.0, v.1, v.2, v.3, |chunk| + 1)
  }

  function Encode(data: Bytes): Bytes {
    if data == [] then []
    else if |data| <= 3 then EncodeChunk(data)
    else EncodeChunk(data[..3]) + Encode(data[3..])
  }

  datatype Error = InvalidLength | InvalidCharacter(c: bv8)

  // The characters of a quantum that are not padding.
  function Unpadded(quantum: Bytes): Bytes {
    if quantum == [] then []
    else (if quantum[0] == PAD then [] else [quantum[0]]) + Unpadded(quantum[1..])
  }

  function Values(text: Bytes): (values: Result<Bytes, Error>)
    ensures values.Ok? ==> |values.value| == |text|
  {
    if text == [] then Ok([])
    else
      match SymbolValue(text[0])
      case None => Err(InvalidCharacter(text[0]))
      case Some(v) =>
        match Values(text[1..])
        case Err(e) => Err(e)
        case Ok(rest) => Ok([v] + rest)
  }

  function ValueAt(values: Bytes, i: nat): bv32 {
    if i < |values| then values[i] as bv32 else 0
  }

  // The three bytes of four sextets.
  function JoinSextets(v0: bv32, v1: bv32, v2: bv32, v3: bv32): (bv8, bv8, bv8) {
    var t := (v0 << 18) | (v1 << 12) | (v2 << 6) | v3;
    (((t >> 16) & 0xFF) as bv8, ((t >> 8) & 0xFF) as bv8, (t & 0xFF) as bv8)
  }

  // The bytes of up to four sextets, missing ones counting as zero.
  function Join(values: Bytes): Bytes {
    var bytes := JoinSextets(ValueAt(values, 0), ValueAt(values, 1), ValueAt(values, 2), ValueAt(values, 3));
    [bytes.0] + (if |values| >= 3 then [bytes.1] else []) + (if |values| >= 4 then [bytes.2] else [])
  }

  // Padding may stand anywhere in a quantum: it is taken out and counted.
  function DecodeQuantum(quantum: Bytes): Result<Bytes, Error>
    requires |quantum| == 4
  {
    match Values(Unpadded(quantum))
    case Err(e) => Err(e)
    case Ok(values) => Ok(Join(values))
  }

  function Decode(text: Bytes): Result<Bytes, Error> {
    if text == [] then Ok([])
    else if |text| < 4 then Err(InvalidLength)
    else
      match DecodeQuantum(text[..4])
      case Err(e) => Err(e)
      case Ok(bytes) =>
        match Decode(text[4..])
        case Err(e) => Err(e)
        case Ok(rest) => Ok(bytes + rest)
  }

  // ---- what the decoder accepts ----

  predicate IsSymbol(c: bv8) {
    0x41 <= c <= 0x5A || 0x61 <= c <= 0x7A || 0x30 <= c <= 0x39 || c == 0x2B || c == 0x2F
  }

  lemma {:induction false} ValuesAcceptSymbols(text: Bytes)
    ensures Values(text).Ok? <==> forall c :: c in text ==> IsSymbol(c)
  {
    if text != [] {
      ValuesAcceptSymbols(text[1..]);
      assert text[0] in text && text == [text[0]] + text[1..];
      assert forall c :: c in text[1..] ==> c in text;
    }
  }

  lemma {:induction false} UnpaddedKeepsOthers(text: Bytes)
    ensures |Unpadded(text)| <= |text|
    ensures forall c :: c in Unpadded(text) <==> c in text && c != PAD
  {
    if text != [] {
      UnpaddedKeepsOthers(text[1..]);
      assert text == [text[0]] + text[1..];
    }
  }

  predicate Acceptable(text: Bytes) {
    |text| % 4 == 0 && forall c :: c in text ==> IsSymbol(c) || c == PAD
  }

  // Exactly the texts of whole quanta over the alphabet and the padding are accepted.
  lemma {:induction false} DecodeAccepts(text: Bytes)
    ensures Decode(text).Ok? <==> Acceptable(text)
  {
    if |text| >= 4 {
      ValuesAcceptSymbols(Unpadded(text[..4]));
      UnpaddedKeepsOthers(text[..4]);
      DecodeAccepts(text[4..]);
      assert text == text[..4] + text[4..];
    }
  }

  // The first character that is neither of the alphabet nor padding.
  function FirstForeign(text: Bytes): Option<bv8> {
    if text == [] then None
    else if !IsSymbol(text[0]) && text[0] != PAD then Some(text[0])
    else FirstForeign(text[1..])
  }

  lemma {:induction false} ForeignStopsValues(text: Bytes)
    ensures match FirstForeign(text)
      case Some(c) => Values(Unpadded(text)) == Err(InvalidCharacter(c))
      case None => Values(Unpadded(text)).Ok?
  {
    if text != [] {
      ForeignStopsValues(text[1..]);
      var rest := Unpadded(text[1..]);
      assert text[0] != PAD ==> Unpadded(text) == [text[0]] + rest && ([text[0]] + rest)[1..] == rest;
      assert text[0] == PAD ==> Unpadded(text) == [] + rest && [] + rest == rest;
    }
  }

  lemma {:induction false} FirstForeignOfConcat(a: Bytes, b: Bytes)
    ensures FirstForeign(a + b) == if FirstForeign(a).Some? then FirstForeign(a) else FirstForeign(b)
  {
    if a == [] {
      assert a + b == b;
    } else {
      FirstForeignOfConcat(a[1..], b);
      assert (a + b)[1..] == a[1..] + b;
    }
  }

  // The quanta of a text that are complete.
  function Complete(text: Bytes): Bytes {
    text[..|text| / 4 * 4]
  }

  // Which error a rejected text gets: the first foreign character of its complete quanta, or else
  // that the last quantum is incomplete.
  lemma {:induction false} DecodeErrorExactly(text: Bytes)
    ensures match FirstForeign(Complete(text))
      case Some(c) => Decode(text) == Err(InvalidCharacter(c))
      case None => if |text| % 4 != 0 then Decode(text) == Err(InvalidLength) else Decode(text).Ok?
  {
    if |text| < 4 {
      assert Complete(text) == [];
    } else {
      DecodeErrorExactly(text[4..]);
      ForeignStopsValues(text[..4]);
      FirstForeignOfConcat(text[..4], Complete(text[4..]));
      assert Complete(text) == text[..4] + Complete(text[4..]);
    }
  }

  // ---- the bytes of accepted text, canonical or not ----

  function PrependTo(front: Bytes, rest: Result<Bytes, Error>): Result<Bytes, Error> {
    if rest.Ok? then Ok(front + rest.value) else rest
  }

  lemma PrependTwice(a: Bytes, b: Bytes, rest: Result<Bytes, Error>)
    ensures PrependTo(a, PrependTo(b, rest)) == PrependTo(a + b, rest) && PrependTo([], rest) == rest
  {
    if rest.Ok? {
      assert a + (b + rest.value) == (a + b) + rest.value && [] + rest.value == rest.value;
    }
  }

  // The bytes of four sextets, each put together from the two it overlaps.
  lemma JoinedBytewise(v0: bv32, v1: bv32, v2: bv32, v3: bv32)
    requires v0 < 64 && v1 < 64 && v2 < 64 && v3 < 64
    ensures JoinSextets(v0, v1, v2, v3)
         == (((v0 as bv8) << 2) | ((v1 as bv8) >> 4),
             (((v1 as bv8) & 0x0F) << 4) | ((v2 as bv8) >> 2),
             (((v2 as bv8) & 0x03) << 6) | (v3 as bv8))
  {}

  // The sextet of the i-th character that is not padding, zero when there is none.
  function SextetAt(quantum: Bytes, i: nat): bv8 {
    var rest := Unpadded(quantum);
    if i < |rest| && SymbolValue(rest[i]).Some? then SymbolValue(rest[i]).value else 0
  }

  lemma {:induction false} ValuesAreSymbolValues(text: Bytes)
    requires Values(text).Ok?
    ensures forall i :: 0 <= i < |text| ==> SymbolValue(text[i]) == Some(Values(text).value[i])
  {
    if text != [] {
      ValuesAreSymbolValues(text[1..]);
    }
  }

  lemma SymbolValueIsSextet(c: bv8)
    ensures SymbolValue(c).Some? ==> SymbolValue(c).value < 64
  {}

  // Where the padding stands does not matter: its number tells how many bytes a quantum gives, at
  // least one, and the other characters in order give their bits. Bits left over are lost.
  lemma QuantumBytes(quantum: Bytes)
    requires |quantum| == 4 && DecodeQuantum(quantum).Ok?
    ensures var v0, v1 := SextetAt(quantum, 0), SextetAt(quantum, 1);
      var v2, v3 := SextetAt(quantum, 2), SextetAt(quantum, 3);
      DecodeQuantum(quantum) == Ok(
        [(v0 << 2) | (v1 >> 4)]
        + (if |Unpadded(quantum)| >= 3 then [((v1 & 0x0F) << 4) | (v2 >> 2)] else [])
        + (if |Unpadded(quantum)| >= 4 then [((v2 & 0x03) << 6) | v3] else []))
  {
    var rest := Unpadded(quantum);
    var values := Values(rest).value;
    ValuesAreSymbolValues(rest);
    forall i: nat ensures ValueAt(values, i) == SextetAt(quantum, i) as bv32 && SextetAt(quantum, i) < 64 {
      if i < |rest| {
        SymbolValueIsSextet(rest[i]);
      }
    }
    JoinedBytewise(ValueAt(values, 0), ValueAt(values, 1), ValueAt(values, 2), ValueAt(values, 3));
    BytesOfSextets(SextetAt(quantum, 0), SextetAt(quantum, 1), SextetAt(quantum, 2), SextetAt(quantum, 3));
  }

  // Widening and narrowing a sextet returns it.
  lemma BytesOfSextets(v0: bv8, v1: bv8, v2: bv8, v3: bv8)
    ensures (v0 as bv32) as bv8 == v0 && (v1 as bv32) as bv8 == v1
    ensures (v2 as bv32) as bv8 == v2 && (v3 as bv32) as bv8 == v3
  {}

  // Quanta decode one after the other.
  lemma {:induction false} DecodeOfQuanta(front: Bytes, rest: Bytes)
    requires |front| % 4 == 0 && Decode(front).Ok?
    ensures Decode(front + rest) == PrependTo(Decode(front).value, Decode(rest))
  {
    if front == [] {
      assert front + rest == rest;
      PrependTwice([], [], Decode(rest));
    } else {
      var first := DecodeQuantum(front[..4]).value;
      DecodeOfQuanta(front[4..], rest);
      assert (front + rest)[..4] == front[..4] && (front + rest)[4..] == front[4..] + rest;
      PrependTwice(first, Decode(front[4..]).value, Decode(rest));
    }
  }

  // The alphabet of section 4, by ranges, and the vectors `f`, `fo`, `foo` and `foobar` of section
  // 10 of RFC 4648.
  lemma AlphabetOfTheStandard(v: bv32)
    requires v < 64
    ensures v < 26 ==> Symbol(v) == 0x41 + v as bv8
    ensures 26 <= v < 52 ==> Symbol(v) == 0x61 + (v - 26) as bv8
    ensures 52 <= v < 62 ==> Symbol(v) == 0x30 + (v - 52) as bv8
    ensures v == 62 ==> Symbol(v) == 0x2B
    ensures v == 63 ==> Symbol(v) == 0x2F
  {}

  lemma VectorsOfTheStandard()
    ensures Encode([0x66]) == [0x5A, 0x67, 0x3D, 0x3D]
    ensures Encode([0x66, 0x6F]) == [0x5A, 0x6D, 0x38, 0x3D]
    ensures Encode([0x66, 0x6F, 0x6F, 0x62, 0x61, 0x72]) == [0x5A, 0x6D, 0x39, 0x76, 0x59, 0x6D, 0x46, 0x79]
  {
    var foobar: Bytes := [0x66, 0x6F, 0x6F, 0x62, 0x61, 0x72];
    assert foobar[..3] == [0x66, 0x6F, 0x6F] && foobar[3..] == [0x62, 0x61, 0x72];
    assert EncodeChunk([0x66, 0x6F, 0x6F]) == [0x5A, 0x6D, 0x39, 0x76];
    assert EncodeChunk([0x62, 0x61, 0x72]) == [0x59, 0x6D, 0x46, 0x79];
    assert Encode(foobar[3..]) == EncodeChunk(foobar[3..]);
  }

  // ---- decoding inverts encoding ----

  lemma SymbolsSurvive(v: bv32)
    requires v < 64
    ensures SymbolValue(Symbol(v)) == Some(v as bv8)
    ensures Symbol(v) != PAD && IsSymbol(Symbol(v))
  {}

  // Cutting three bytes into sextets and joining them again.
  lemma SextetsJoin(b0: bv8, b1: bv8, b2: bv8)
    ensures var v := Cut(Triple(b0, b1, b2)); JoinSextets(v.0, v.1, v.2, v.3) == (b0, b1, b2)
  {}

  function Sextets(v0: bv32, v1: bv32, v2: bv32, v3: bv32, n: nat): Bytes
    requires v0 < 64 && v1 < 64 && v2 < 64 && v3 < 64
  {
    [v0 as bv8, v1 as bv8] + (if n > 2 then [v2 as bv8] else []) + (if n > 3 then [v3 as bv8] else [])
  }

  lemma SextetIsRead(values: Bytes, i: nat, v: bv32)
    requires v < 64
    requires if i < |values| then values[i] == v as bv8 else v == 0
    ensures ValueAt(values, i) == v
  {}

  // Missing sextets are read as zero.
  lemma JoinOfSextets(v0: bv32, v1: bv32, v2: bv32, v3: bv32, n: nat, b0: bv8, b1: bv8, b2: bv8)
    requires v0 < 64 && v1 < 64 && v2 < 64 && v3 < 64 && 2 <= n <= 4
    requires (n <= 2 ==> v2 == 0) && (n <= 3 ==> v3 == 0)
    requires JoinSextets(v0, v1, v2, v3) == (b0, b1, b2)
    ensures Join(Sextets(v0, v1, v2, v3, n)) == [b0] + (if n > 2 then [b1] else []) + (if n > 3 then [b2] else [])
  {
    var values := Sextets(v0, v1, v2, v3, n);
    SextetsAreRead(v0, v1, v2, v3, n);
    assert JoinSextets(ValueAt(values, 0), ValueAt(values, 1), ValueAt(values, 2), ValueAt(values, 3)) == (b0, b1, b2);
  }

  lemma SextetsAreRead(v0: bv32, v1: bv32, v2: bv32, v3: bv32, n: nat)
    requires v0 < 64 && v1 < 64 && v2 < 64 && v3 < 64 && 2 <= n <= 4
    requires (n <= 2 ==> v2 == 0) && (n <= 3 ==> v3 == 0)
    ensures var values := Sextets(v0, v1, v2, v3, n);
      && |values| == n
      && ValueAt(values, 0) == v0 && ValueAt(values, 1) == v1 && ValueAt(values, 2) == v2 && ValueAt(values, 3) == v3
  {
    var values := Sextets(v0, v1, v2, v3, n);
    SextetIsRead(values, 0, v0);
    SextetIsRead(values, 1, v1);
    SextetIsRead(values, 2, v2);
    SextetIsRead(values, 3, v3);
  }

  // The last sextets of a short chunk are zero.
  lemma ShortChunksEndInZeros(chunk: Bytes)
    requires 1 <= |chunk| <= 3
    ensures var v := Cut(ChunkTriple(chunk)); (|chunk| <= 1 ==> v.2 == 0) && (|chunk| <= 2 ==> v.3 == 0)
  {}

  lemma UnpaddedOfFour(a: bv8, b: bv8, c: bv8, d: bv8)
    requires a != PAD && b != PAD && (c == PAD ==> d == PAD)
    ensures Unpadded([a, b, c, d]) == [a, b] + (if c == PAD then [] else [c]) + (if d == PAD then [] else [d])
  {
    assert [a, b, c, d][1..] == [b, c, d] && [b, c, d][1..] == [c, d] && [c, d][1..] == [d] && [d][1..] == [];
    assert Unpadded([d]) == if d == PAD then [] else [d];
    assert Unpadded([c, d]) == (if c == PAD then [] else [c]) + Unpadded([d]);
    assert Unpadded([b, c, d]) == [b] + Unpadded([c, d]);
    assert Unpadded([a, b, c, d]) == [a] + Unpadded([b, c, d]);
  }

  // Symbols that stand for given sextets decode to them.
  lemma {:induction false} ValuesOfSymbols(text: Bytes, values: Bytes)
    requires |text| == |values| && forall i :: 0 <= i < |text| ==> SymbolValue(text[i]) == Some(values[i])
    ensures Values(text) == Ok(values)
  {
    if text != [] {
      ValuesOfSymbols(text[1..], values[1..]);
      assert values == [values[0]] + values[1..];
    }
  }

  // A quantum written from two to four sextets decodes to them.
  lemma ValuesOfQuantum(v0: bv32, v1: bv32, v2: bv32, v3: bv32, n: nat)
    requires v0 < 64 && v1 < 64 && v2 < 64 && v3 < 64 && 2 <= n <= 4
    ensures Values(Unpadded(Quantum(v0, v1, v2, v3, n))) == Ok(Sextets(v0, v1, v2, v3, n))
  {
    SymbolsSurvive(v0);
    SymbolsSurvive(v1);
    SymbolsSurvive(v2);
    SymbolsSurvive(v3);
    UnpaddedOfFour(Symbol(v0), Symbol(v1), if n > 2 then Symbol(v2) else PAD, if n > 3 then Symbol(v3) else PAD);
    ValuesOfSymbols(Unpadded(Quantum(v0, v1, v2, v3, n)), Sextets(v0, v1, v2, v3, n));
  }

  lemma DecodeOfValues(quantum: Bytes, values: Bytes)
    requires |quantum| == 4 && Values(Unpadded(quantum)) == Ok(values)
    ensures DecodeQuantum(quantum) == Ok(Join(values))
  {}

  lemma ChunkInParts(chunk: Bytes, b1: bv8, b2: bv8)
    requires 1 <= |chunk| <= 3 && (|chunk| > 1 ==> b1 == chunk[1]) && (|chunk| > 2 ==> b2 == chunk[2])
    ensures chunk == [chunk[0]] + (if |chunk| > 1 then [b1] else []) + (if |chunk| > 2 then [b2] else [])
  {}

  lemma DecodeWrittenQuantum(v0: bv32, v1: bv32, v2: bv32, v3: bv32, chunk: Bytes, b1: bv8, b2: bv8)
    requires v0 < 64 && v1 < 64 && v2 < 64 && v3 < 64 && 1 <= |chunk| <= 3
    requires (|chunk| <= 1 ==> v2 == 0) && (|chunk| <= 2 ==> v3 == 0)
    requires (|chunk| > 1 ==> b1 == chunk[1]) && (|chunk| > 2 ==> b2 == chunk[2])
    requires JoinSextets(v0, v1, v2, v3) == (chunk[0], b1, b2)
    ensures DecodeQuantum(Quantum(v0, v1, v2, v3, |chunk| + 1)) == Ok(chunk)
  {
    var n := |chunk| + 1;
    ValuesOfQuantum(v0, v1, v2, v3, n);
    DecodeOfValues(Quantum(v0, v1, v2, v3, n), Sextets(v0, v1, v2, v3, n));
    JoinOfSextets(v0, v1, v2, v3, n, chunk[0], b1, b2);
    ChunkInParts(chunk, b1, b2);
  }

  lemma DecodeChunk(chunk: Bytes)
    requires 1 <= |chunk| <= 3
    ensures DecodeQuantum(EncodeChunk(chunk)) == Ok(chunk)
  {
    var b1, b2 := if |chunk| > 1 then chunk[1] else 0, if |chunk| > 2 then chunk[2] else 0;
    var v := Cut(ChunkTriple(chunk));
    ShortChunksEndInZeros(chunk);
    SextetsJoin(chunk[0], b1, b2);
    DecodeWrittenQuantum(v.0, v.1, v.2, v.3, chunk, b1, b2);
  }

  lemma {:induction false} DecodeInvertsEncode(data: Bytes)
    ensures Decode(Encode(data)) == Ok(data)
  {
    if data != [] {
      var chunk := if |data| <= 3 then data else data[..3];
      var rest := data[|chunk|..];
      DecodeChunk(chunk);
      DecodeInvertsEncode(rest);
      assert Encode(data) == EncodeChunk(chunk) + Encode(rest);
      assert Encode(data)[..4] == EncodeChunk(chunk) && Encode(data)[4..] == Encode(rest);
      assert chunk + rest == data;
    }
  }

  // ---- encoding inverts decoding on canonical text ----

  // A quantum without padding, or a last quantum whose padding is at the end and whose unused
  // bits are zero.
  predicate CanonicalQuantum(q: Bytes, last: bool)
    requires |q| == 4
  {
    && IsSymbol(q[0]) && IsSymbol(q[1])
    && (|| (IsSymbol(q[2]) && IsSymbol(q[3]))
        || (last && IsSymbol(q[2]) && q[3] == PAD && SymbolValue(q[2]).value & 0x03 == 0)
        || (last && q[2] == PAD && q[3] == PAD && SymbolValue(q[1]).value & 0x0F == 0))
  }

  predicate Canonical(text: Bytes) {
    text == [] || (|text| >= 4 && CanonicalQuantum(text[..4], |text| == 4) && Canonical(text[4..]))
  }

  lemma SymbolsReturn(c: bv8)
    requires IsSymbol(c)
    ensures SymbolValue(c).value < 64 && Symbol(SymbolValue(c).value as bv32) == c && c != PAD
  {}

  // Joining four sextets and cutting them again; zero bits at the end leave zero bytes.
  lemma JoinedAreCut(v0: bv32, v1: bv32, v2: bv32, v3: bv32)
    requires v0 < 64 && v1 < 64 && v2 < 64 && v3 < 64
    ensures var b := JoinSextets(v0, v1, v2, v3);
      && Cut(Triple(b.0, b.1, b.2)) == (v0, v1, v2, v3)
      && (v3 == 0 && v2 & 0x03 == 0 ==> b.2 == 0)
      && (v2 == 0 && v3 == 0 && v1 & 0x0F == 0 ==> b.1 == 0)
  {}

  // The sextets a canonical quantum stands for, and how many.
  function Sextet(q: Bytes, i: nat): bv32
    requires i < |q|
  {
    match SymbolValue(q[i])
    case Some(v) => v as bv32
    case None => 0
  }

  function Count(q: Bytes): nat
    requires |q| == 4
  {
    if q[2] == PAD then 2 else if q[3] == PAD then 3 else 4
  }

  lemma CanonicalQuantumIsWritten(q: Bytes, last: bool)
    requires |q| == 4 && CanonicalQuantum(q, last)
    ensures forall i :: 0 <= i < 4 ==> Sextet(q, i) < 64
    ensures q == Quantum(Sextet(q, 0), Sextet(q, 1), Sextet(q, 2), Sextet(q, 3), Count(q))
    ensures Count(q) <= 3 ==> Sextet(q, 3) == 0
    ensures Count(q) <= 2 ==> Sextet(q, 2) == 0
  {
    SymbolsReturn(q[0]);
    SymbolsReturn(q[1]);
    if IsSymbol(q[2]) { SymbolsReturn(q[2]); }
    if IsSymbol(q[3]) { SymbolsReturn(q[3]); }
  }

  // The bytes of a canonical quantum encode to it.
  lemma CanonicalQuantumReturns(q: Bytes, last: bool) returns (chunk: Bytes)
    requires |q| == 4 && CanonicalQuantum(q, last)
    ensures 1 <= |chunk| <= 3 && (!last ==> |chunk| == 3)
    ensures DecodeQuantum(q) == Ok(chunk) && EncodeChunk(chunk) == q
  {
    var v0, v1, v2, v3, n := Sextet(q, 0), Sextet(q, 1), Sextet(q, 2), Sextet(q, 3), Count(q);
    CanonicalQuantumIsWritten(q, last);
    JoinedAreCut(v0, v1, v2, v3);
    var b := JoinSextets(v0, v1, v2, v3);
    chunk := [b.0, b.1, b.2][..n - 1];
    UnusedBitsAreZero(q, last);
    DecodeWrittenQuantum(v0, v1, v2, v3, chunk, b.1, b.2);
    assert ChunkTriple(chunk) == Triple(b.0, b.1, b.2);
  }

  lemma UnusedBitsAreZero(q: Bytes, last: bool)
    requires |q| == 4 && CanonicalQuantum(q, last)
    ensures Count(q) == 3 ==> Sextet(q, 2) & 0x03 == 0
    ensures Count(q) == 2 ==> Sextet(q, 1) & 0x0F == 0
  {}

  lemma {:induction false} CanonicalTextReturns(text: Bytes) returns (data: Bytes)
    requires Canonical(text)
    ensures Decode(text) == Ok(data) && Encode(data) == text
    ensures text != [] ==> data != []
  {
    if text == [] {
      data := [];
    } else {
      var chunk := CanonicalQuantumReturns(text[..4], |text| == 4);
      var rest := CanonicalTextReturns(text[4..]);
      data := chunk + rest;
      if rest == [] {
        assert text == text[..4] && data == chunk;
      } else {
        assert data[..3] == chunk && data[3..] == rest;
        assert text == text[..4] + text[4..];
      }
    }
  }

  lemma EncodedChunkIsCanonical(chunk: Bytes)
    requires 1 <= |chunk| <= 3
    ensures CanonicalQuantum(EncodeChunk(chunk), |chunk| < 3)
  {
    var v := Cut(ChunkTriple(chunk));
    SymbolsSurvive(v.0);
    SymbolsSurvive(v.1);
    SymbolsSurvive(v.2);
    SymbolsSurvive(v.3);
    ShortChunksLeaveBits(chunk);
  }

  lemma ShortChunksLeaveBits(chunk: Bytes)
    requires 1 <= |chunk| <= 3
    ensures |chunk| == 2 ==> (Cut(ChunkTriple(chunk)).2 as bv8) & 0x03 == 0
    ensures |chunk| == 1 ==> (Cut(ChunkTriple(chunk)).1 as bv8) & 0x0F == 0
  {}

  lemma {:induction false} EncodeIsCanonical(data: Bytes)
    ensures Canonical(Encode(data))
  {
    if data != [] {
      var chunk := if |data| <= 3 then data else data[..3];
      var rest := data[|chunk|..];
      EncodedChunkIsCanonical(chunk);
      EncodeIsCanonical(rest);
      assert Encode(data) == EncodeChunk(chunk) + Encode(rest);
      assert Encode(data)[..4] == EncodeChunk(chunk) && Encode(data)[4..] == Encode(rest);
    }
  }

  // Of the texts the decoder accepts, encoding gives back exactly the canonical ones.
  lemma EncodeInvertsDecode(text: Bytes, data: Bytes)
    requires Decode(text) == Ok(data)
    ensures Encode(data) == text <==> Canonical(text)
  {
    if Canonical(text) {
      var d := CanonicalTextReturns(text);
    }
    EncodeIsCanonical(data);
  }

  // No encoded text contains a full stop.
  lemma {:induction false} EncodeAvoidsStop(data: Bytes)
    ensures forall c :: c in Encode(data) ==> IsSymbol(c) || c == PAD
    ensures 0x2E !in Encode(data)
  {
    DecodeInvertsEncode(data);
    DecodeAccepts(Encode(data));
  }

  // ---- the loops ----

  method Base64Encode(data: Bytes) returns (out: Bytes)
    ensures out == Encode(data)
  {
    out := [];
    var pos := 0;
    while pos < |data|
      invariant 0 <= pos <= |data|
      invariant out + Encode(data[pos..]) == Encode(data)
    {
      var chunk := if pos + 3 <= |data| then data[pos..pos + 3] else data[pos..];
      assert data[pos..] == chunk + data[pos + |chunk|..];
      EncodeSplits(chunk, data[pos + |chunk|..]);
      out := out + EncodeChunk(chunk);
      pos := pos + |chunk|;
    }
    assert data[pos..] == [];
  }

  lemma EncodeSplits(chunk: Bytes, rest: Bytes)
    requires |chunk| == 3 || (1 <= |chunk| <= 3 && rest == [])
    ensures Encode(chunk + rest) == EncodeChunk(chunk) + Encode(rest)
  {
    if rest == [] {
      assert chunk + rest == chunk;
    } else {
      assert (chunk + rest)[..3] == chunk && (chunk + rest)[3..] == rest;
    }
  }

  // Decoding from a position on: it fails there, or the quantum's bytes come first.
  lemma DecodeFrom(text: Bytes, pos: nat)
    requires pos < |text|
    ensures pos + 4 > |text| ==> Decode(text[pos..]) == Err(InvalidLength)
    ensures pos + 4 <= |text| ==>
      match DecodeQuantum(text[pos..pos + 4])
      case Err(e) => Decode(text[pos..]) == Err(e)
      case Ok(bytes) => Decode(text[pos..]) == PrependTo(bytes, Decode(text[pos + 4..]))
  {
    var rest := text[pos..];
    if pos + 4 <= |text| {
      assert rest[..4] == text[pos..pos + 4] && rest[4..] == text[pos + 4..];
    }
  }

  method Base64Decode(text: Bytes) returns (result: Result<Bytes, Error>)
    ensures result == Decode(text)
  {
    var out: Bytes := [];
    var pos := 0;
    assert text[0..] == text;
    PrependTwice([], [], Decode(text));
    while pos < |text|
      invariant 0 <= pos <= |text|
      invariant Decode(text) == PrependTo(out, Decode(text[pos..]))
    {
      DecodeFrom(text, pos);
      if pos + 4 > |text| {
        return Err(InvalidLength);
      }
      var bytes := DecodeQuantum(text[pos..pos + 4]);
      if bytes.Err? {
        return bytes;
      }
      PrependTwice(out, bytes.value, Decode(text[pos + 4..]));
      out := out + bytes.value;
      pos := pos + 4;
    }
    assert text[pos..] == [] && out + [] == out;
    result := Ok(out);
  }
}
