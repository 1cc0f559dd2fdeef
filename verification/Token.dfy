/** Signed identity tokens: base64 payload, a full stop, and the hexadecimal HMAC of the payload
  * text. JSON is a pair of functions given as parameters. */
module Token {
  import opened Bits
  import opened Wrappers
  import Hex
  import Base64
  import Hmac

  const STOP: bv8 := 0x2E

  datatype Token<C> = Token(raw: Bytes, claims: C)

  datatype Error =
    | NotSerialisable | MissingSeparator | BadSignature | BadPayload(error: Base64.Error) | BadClaims

  function Signature(key: Bytes, encoded: Bytes): Bytes {
    Hex.Encode(Hmac.HmacSha256(key, encoded))
  }

  function Signed(key: Bytes, encoded: Bytes): Bytes {
    encoded + [STOP] + Signature(key, encoded)
  }

  function IssueSigned<C>(claims: C, key: Bytes, toJson: C -> Option<Bytes>): Result<Token<C>, Error> {
    match toJson(claims)
    case None => Err(NotSerialisable)
    case Some(json) => Ok(Token(Signed(key, Base64.Encode(json)), claims))
  }

  // `rsplit_once('.')`.
  function SplitAtLastStop(raw: Bytes): Option<(Bytes, Bytes)> {
    if raw == [] then None
    else
      var n := |raw| - 1;
      if raw[n] == STOP then Some((raw[..n], []))
      else
        match SplitAtLastStop(raw[..n])
        case None => None
        case Some(parts) => Some((parts.0, parts.1 + [raw[n]]))
  }

  function DecodePayload<C>(raw: Bytes, encoded: Bytes, fromJson: Bytes -> Option<C>): Result<Token<C>, Error> {
    match Base64.Decode(encoded)
    case Err(e) => Err(BadPayload(e))
    case Ok(json) =>
      match fromJson(json)
      case None => Err(BadClaims)
      case Some(claims) => Ok(Token(raw, claims))
  }

  function DecodeSigned<C>(raw: Bytes, key: Bytes, fromJson: Bytes -> Option<C>): Result<Token<C>, Error> {
    match SplitAtLastStop(raw)
    case None => Err(MissingSeparator)
    case Some((encoded, signature)) =>
      if signature != Signature(key, encoded) then Err(BadSignature) else DecodePayload(raw, encoded, fromJson)
  }

  // The same with the loops of the crate: HMAC, hex, the constant-time comparison and base64.
  method Verify<C>(raw: Bytes, key: Bytes, fromJson: Bytes -> Option<C>) returns (result: Result<Token<C>, Error>)
    ensures result == DecodeSigned(raw, key, fromJson)
    ensures result.Ok? <==> exists encoded :: SignedForm(raw, key, encoded, fromJson)
  {
    AcceptedExactly(raw, key, fromJson);
    match SplitAtLastStop(raw)
    case None =>
      result := Err(MissingSeparator);
    case Some((encoded, signature)) =>
      var expectedMac := Hmac.Compute(key, encoded);
      var expectedHex := Hex.HexEncode(expectedMac);
      var equal := Hex.ConstantTimeEq(signature, expectedHex);
      if !equal {
        return Err(BadSignature);
      }
      var json := Base64.Base64Decode(encoded);
      if json.Err? {
        return Err(BadPayload(json.error));
      }
      var claims := fromJson(json.value);
      result := if claims.None? then Err(BadClaims) else Ok(Token(raw, claims.value));
  }

  method Sign<C>(claims: C, key: Bytes, toJson: C -> Option<Bytes>) returns (result: Result<Token<C>, Error>)
    ensures result == IssueSigned(claims, key, toJson)
    ensures toJson(claims).None? ==> result == Err(NotSerialisable)
    ensures toJson(claims).Some? ==>
      var encoded := Base64.Encode(toJson(claims).value);
      result == Ok(Token(encoded + [0x2E] + Hex.Encode(Hmac.HmacSha256(key, encoded)), claims))
  {
    var json := toJson(claims);
    if json.None? {
      return Err(NotSerialisable);
    }
    var encoded := Base64.Base64Encode(json.value);
    var mac := Hmac.Compute(key, encoded);
    var signature := Hex.HexEncode(mac);
    result := Ok(Token(encoded + [STOP] + signature, claims));
  }

  lemma {:induction false} HexAvoidsStop(data: Bytes)
    ensures STOP !in Hex.Encode(data)
  {
    if data != [] {
      HexAvoidsStop(data[1..]);
      DigitsAvoidStop(data[0]);
    }
  }

  lemma DigitsAvoidStop(b: bv8)
    ensures Hex.Digit(b >> 4) != STOP && Hex.Digit(b & 0x0F) != STOP
  {}

  lemma {:induction false} SplitJoins(encoded: Bytes, signature: Bytes)
    requires STOP !in signature
    ensures SplitAtLastStop(encoded + [STOP] + signature) == Some((encoded, signature))
  {
    var raw := encoded + [STOP] + signature;
    if signature == [] {
      assert raw[..|raw| - 1] == encoded;
    } else {
      var n := |signature| - 1;
      assert raw[..|raw| - 1] == encoded + [STOP] + signature[..n];
      SplitJoins(encoded, signature[..n]);
      assert signature == signature[..n] + [signature[n]];
    }
  }

  lemma {:induction false} SplitSplits(raw: Bytes)
    requires SplitAtLastStop(raw).Some?
    ensures var (encoded, signature) := SplitAtLastStop(raw).value;
      raw == encoded + [STOP] + signature && STOP !in signature
  {
    var n := |raw| - 1;
    assert raw == raw[..n] + [raw[n]];
    if raw[n] != STOP {
      SplitSplits(raw[..n]);
    }
  }

  // The payload text, a full stop, and the hexadecimal HMAC of the payload text under the key; and
  // the payload text decodes to JSON that parses.
  ghost predicate SignedForm<C>(raw: Bytes, key: Bytes, encoded: Bytes, fromJson: Bytes -> Option<C>) {
    && raw == encoded + [0x2E] + Hex.Encode(Hmac.HmacSha256(key, encoded))
    && Base64.Decode(encoded).Ok? && fromJson(Base64.Decode(encoded).value).Some?
  }

  // A token is accepted under a key exactly when it has that form, and then with those claims.
  lemma AcceptedExactly<C>(raw: Bytes, key: Bytes, fromJson: Bytes -> Option<C>)
    ensures DecodeSigned(raw, key, fromJson).Ok? <==> exists encoded :: SignedForm(raw, key, encoded, fromJson)
    ensures forall encoded :: SignedForm(raw, key, encoded, fromJson) ==>
      DecodeSigned(raw, key, fromJson) == Ok(Token(raw, fromJson(Base64.Decode(encoded).value).value))
  {
    if DecodeSigned(raw, key, fromJson).Ok? {
      SplitSplits(raw);
      assert SignedForm(raw, key, SplitAtLastStop(raw).value.0, fromJson);
    }
    forall encoded | SignedForm(raw, key, encoded, fromJson)
      ensures DecodeSigned(raw, key, fromJson) == Ok(Token(raw, fromJson(Base64.Decode(encoded).value).value))
    {
      HexAvoidsStop(Hmac.HmacSha256(key, encoded));
      SplitJoins(encoded, Hex.Encode(Hmac.HmacSha256(key, encoded)));
    }
  }

  lemma {:induction false} SplitsWhenStopped(raw: Bytes)
    ensures SplitAtLastStop(raw).Some? <==> STOP in raw
  {
    if raw != [] {
      SplitsWhenStopped(raw[..|raw| - 1]);
      assert raw == raw[..|raw| - 1] + [raw[|raw| - 1]];
    }
  }

  // Which error a rejected token gets. What stands before and after its last full stop decides:
  // the signature is compared first, then the payload is decoded, then its JSON is parsed.
  lemma RejectedExactly<C>(raw: Bytes, key: Bytes, before: Bytes, after: Bytes, fromJson: Bytes -> Option<C>)
    ensures DecodeSigned(raw, key, fromJson) == Err(MissingSeparator) <==> 0x2E !in raw
    ensures raw == before + [0x2E] + after && 0x2E !in after ==>
      var result := DecodeSigned(raw, key, fromJson);
      if after != Hex.Encode(Hmac.HmacSha256(key, before)) then result == Err(BadSignature)
      else
        match Base64.Decode(before)
        case Err(e) => result == Err(BadPayload(e))
        case Ok(json) => if fromJson(json).None? then result == Err(BadClaims) else result.Ok?
  {
    SplitsWhenStopped(raw);
    if raw == before + [0x2E] + after && 0x2E !in after {
      SplitJoins(before, after);
    }
  }

  // What was issued under a key is accepted under it, with the same claims.
  lemma DecodeInvertsIssue<C>(claims: C, key: Bytes, toJson: C -> Option<Bytes>, fromJson: Bytes -> Option<C>)
    requires toJson(claims).Some? && fromJson(toJson(claims).value) == Some(claims)
    ensures var token := IssueSigned(claims, key, toJson);
      token.Ok? && DecodeSigned(token.value.raw, key, fromJson) == token
  {
    var encoded := Base64.Encode(toJson(claims).value);
    Base64.DecodeInvertsEncode(toJson(claims).value);
    AcceptedExactly(Signed(key, encoded), key, fromJson);
    assert SignedForm(Signed(key, encoded), key, encoded, fromJson);
  }

  // Accepted tokens with the same payload text and key are the same token.
  lemma PayloadDeterminesToken<C>(raw1: Bytes, raw2: Bytes, key: Bytes, fromJson: Bytes -> Option<C>)
    requires DecodeSigned(raw1, key, fromJson).Ok? && DecodeSigned(raw2, key, fromJson).Ok?
    requires SplitAtLastStop(raw1).value.0 == SplitAtLastStop(raw2).value.0
    ensures raw1 == raw2
  {
    SplitSplits(raw1);
    SplitSplits(raw2);
  }

  // The unsigned form carries the payload alone.
  lemma DecodeInvertsUnsignedIssue<C>(claims: C, toJson: C -> Option<Bytes>, fromJson: Bytes -> Option<C>)
    requires toJson(claims).Some? && fromJson(toJson(claims).value) == Some(claims)
    ensures var raw := Base64.Encode(toJson(claims).value);
      DecodePayload(raw, raw, fromJson) == Ok(Token(raw, claims))
  {
    Base64.DecodeInvertsEncode(toJson(claims).value);
  }
}
