/** Signing with a key that a PKCS#11 token keeps, and verifying the result in software and by the token. */
module TokenSigning {
  import opened Prelude
  import opened Certificates
  import opened ModularArithmetic
  import opened EllipticGroup
  import opened Ecdsa
  import opened BigEndian

  /** signECDSA of the PKCS#11 provider, after the token has answered with the raw signature `raw`. */
  method SignWithToken(codec: Codec, curve: Curve, raw: Bytes) returns (sig: Result<Bytes, SignatureError>)
    ensures sig == TokenSignature(codec, curve, raw)
  {
    var r := FromBytes(raw[..|raw| / 2]);
    var s := new BigInt(FromBytes(raw[|raw| / 2..]));
    if Order(curve).None? {
      return Err(CurveNotRecognized);
    }
    var halfOrder := Order(curve).value / 2;
    if s.value > halfOrder {
      s.value := Order(curve).value - s.value;
    }
    return Ok(codec.marshal(r, s.value));
  }

  function TokenSignature(codec: Codec, curve: Curve, raw: Bytes): Result<Bytes, SignatureError> {
    if Order(curve).None? then Err(CurveNotRecognized)
    else Ok(codec.marshal(Halves(raw).0, LowS(Order(curve).value, Halves(raw).1)))
  }

  /** The form that the PKCS#11 standard gives raw signatures is read back, for any width that holds both integers. */
  lemma {:induction false} HalvesOfFixedWidth(r: nat, s: nat, w: nat)
    requires |BytesOf(r)| <= w && |BytesOf(s)| <= w
    ensures Halves(FixedWidth(r, w) + FixedWidth(s, w)) == (r, s)
  {
    var raw := FixedWidth(r, w) + FixedWidth(s, w);
    assert raw[..w] == FixedWidth(r, w) && raw[w..] == FixedWidth(s, w);
    FixedWidthRoundTrip(r, w);
    FixedWidthRoundTrip(s, w);
  }

  /** The token signs with private key d: its raw signature holds what the primitive may return. */
  ghost predicate TokenSigns<P(!new)>(g: Group<P>, d: nat, e: nat, raw: Bytes)
    requires g.order > 0
  {
    MaySign(g, d, e, Halves(raw).0, Halves(raw).1)
  }

  /**
   Whatever the provider signs with the token verifies in software, and by the token exactly when r
   fits in the byte size of the curve; otherwise the provider panics on its own signature, which
   happens on P-521 only.
   */
  lemma {:induction false} TokenSignThenVerify<P(!new)>(g: Group<P>, codec: Codec, curve: Curve, primitive: (int, int) -> bool,
                                                        token: Bytes -> bool, d: nat, e: nat, raw: Bytes)
    requires Lawful(g) && IsPrime(g.order) && Order(curve) == Some(g.order)
    requires Faithful(codec)
    requires forall a, b :: primitive(a, b) <==> Verifies(g, Mul(g, d, g.base), e, a, b)
    requires forall sig :: token(sig) == primitive(Halves(sig).0, Halves(sig).1)
    requires TokenSigns(g, d, e, raw)
    ensures TokenSignature(codec, curve, raw).Ok?
    ensures VerifySignature(codec, curve, primitive, TokenSignature(codec, curve, raw).value) == Ok(true)
    ensures TokenVerification(codec, curve, token, TokenSignature(codec, curve, raw).value) ==
            if Halves(raw).0 < Pow256(ByteSize(curve)) then Some(Ok(true)) else None
    ensures curve != P521 ==> Halves(raw).0 < Pow256(ByteSize(curve))
  {
    var (r, s) := Halves(raw);
    SignThenVerify(g, codec, curve, primitive, d, e, r, s);
    var k, v :| IsSignature(g, d, e, k, v, r, s);
    LowSCanonical(g.order, s, s);
    SameAnswer(codec, curve, primitive, token, codec.marshal(r, LowS(g.order, s)), r, LowS(g.order, s));
    FitsOnCurve(curve);
  }

  /** For a signature that software accepts, the token's verification is the software's if r fits. */
  lemma {:induction false} SameAnswer(codec: Codec, curve: Curve, primitive: (int, int) -> bool, token: Bytes -> bool,
                                      signature: Bytes, r: nat, s: nat)
    requires Unmarshal(codec, signature) == Some((r, s)) && VerifySignature(codec, curve, primitive, signature).Ok?
    requires forall sig :: token(sig) == primitive(Halves(sig).0, Halves(sig).1)
    ensures TokenVerification(codec, curve, token, signature) ==
            if r < Pow256(ByteSize(curve)) then Some(VerifySignature(codec, curve, primitive, signature)) else None
  {
    TokenAgreesIff(curve, primitive, token, r, s);
  }
}
