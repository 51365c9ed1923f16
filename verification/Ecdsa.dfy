/** ECDSA signatures in low-S form: signing, verifying, and why both agree. */
module Ecdsa {
  import opened Prelude
  import opened Certificates
  import opened ModularArithmetic
  import opened EllipticGroup

  /** The group orders behind curveHalfOrders; other curves are not recognized. */
  function Order(curve: Curve): (n: Option<nat>)
    ensures n.None? <==> curve == OtherCurve
    ensures n.Some? ==> n.value > 1 && n.value % 2 == 1
  {
    match curve
    case P224 => Some(0xffffffffffffffffffffffffffff16a2e0b8f03e13dd29455c5c2a3d)
    case P256 => Some(0xffffffff00000000ffffffffffffffffbce6faada7179e84f3b9cac2fc632551)
    case P384 => Some(0xffffffffffffffffffffffffffffffffffffffffffffffffc7634d81f4372ddf581a0db248b0a77aecec196accc52973)
    case P521 => Some(0x1fffffffffffffffffffffffffffffffffffffffffffffffffffffffffffffffffa51868783bf2f966b7fcc0148f709a5d03bb5c9b8899c47aebb6fb71e91386409)
    case OtherCurve => None
  }

  // ---------------------------------------------------------------------------------------------
  // Low S.

  /** The representative of s that ToLowS leaves behind, for group order n. */
  function LowS(n: nat, s: int): int {
    if s <= n / 2 then s else n - s
  }

  /** Of s and n - s, LowS picks the one at most half the order, and there is only one. */
  lemma {:induction false} LowSCanonical(n: nat, s: int, t: int)
    requires n % 2 == 1 && 0 < s < n
    ensures (t == s || t == n - s) && t <= n / 2 <==> t == LowS(n, s)
    ensures 0 < LowS(n, s) < n
    ensures LowS(n, LowS(n, s)) == LowS(n, s)
    ensures LowS(n, n - s) == LowS(n, s)
  {
  }

  /** A big integer, updated in place by its owner. */
  class BigInt {
    var value: int

    constructor (v: int)
      ensures value == v
    {
      value := v;
    }
  }

  method IsLowS(curve: Curve, s: BigInt) returns (low: Option<bool>)
    ensures low.None? <==> Order(curve).None?
    ensures low.Some? ==> (low.value <==> LowS(Order(curve).value, s.value) == s.value)
  {
    if Order(curve).None? {
      return None;
    }
    var halfOrder := Order(curve).value / 2;
    low := Some(s.value <= halfOrder);
  }

  /** Overwrites s; says whether it changed. None: the curve is not recognized. */
  method ToLowS(curve: Curve, s: BigInt) returns (modified: Option<bool>)
    modifies s
    ensures modified.None? <==> Order(curve).None?
    ensures modified.None? ==> s.value == old(s.value)
    ensures modified.Some? ==> s.value == LowS(Order(curve).value, old(s.value))
    ensures modified.Some? ==> (modified.value <==> s.value != old(s.value))
  {
    var lowS := IsLowS(curve, s);
    if lowS.None? {
      return None;
    }
    if !lowS.value {
      s.value := Order(curve).value - s.value;
      return Some(true);
    }
    return Some(false);
  }

  // ---------------------------------------------------------------------------------------------
  // Encoded signatures.

  /** The ASN.1 encoding of a pair (r, s); decoding may accept more than encoding produces. */
  datatype Codec = Codec(marshal: (int, int) -> Bytes, unmarshal: Bytes -> Option<(int, int)>)

  ghost predicate Faithful(codec: Codec) {
    forall r, s :: codec.unmarshal(codec.marshal(r, s)) == Some((r, s))
  }

  /** UnmarshalECDSASignature: both integers must be positive. */
  function Unmarshal(codec: Codec, raw: Bytes): Option<(int, int)> {
    match codec.unmarshal(raw)
    case None => None
    case Some((r, s)) => if r <= 0 || s <= 0 then None else Some((r, s))
  }

  datatype SignatureError = BadEncoding | CurveNotRecognized | HighS

  /** signECDSA after the primitive has produced (r, s). */
  method FinishSignature(codec: Codec, curve: Curve, r: int, s: BigInt) returns (sig: Result<Bytes, SignatureError>)
    modifies s
    ensures sig.Ok? <==> Order(curve).Some?
    ensures s.value == if sig.Ok? then LowS(Order(curve).value, old(s.value)) else old(s.value)
    ensures sig.Ok? ==> sig.value == codec.marshal(r, s.value)
  {
    var modified := ToLowS(curve, s);
    if modified.None? {
      return Err(CurveNotRecognized);
    }
    return Ok(codec.marshal(r, s.value));
  }

  /** verifyECDSA; `primitive` is ecdsa.Verify on the key and digest at hand. */
  function VerifySignature(codec: Codec, curve: Curve, primitive: (int, int) -> bool, sig: Bytes):
    Result<bool, SignatureError>
  {
    match Unmarshal(codec, sig)
    case None => Err(BadEncoding)
    case Some((r, s)) =>
      if Order(curve).None? then Err(CurveNotRecognized)
      else if s > Order(curve).value / 2 then Err(HighS)
      else Ok(primitive(r, s))
  }

  /** SignatureToLowS: re-encodes only what is not low. */
  method SignatureToLowS(codec: Codec, curve: Curve, signature: Bytes) returns (out: Option<Bytes>)
    ensures out == LowSSignature(codec, curve, signature)
  {
    var pair := Unmarshal(codec, signature);
    if pair.None? {
      return None;
    }
    var s := new BigInt(pair.value.1);
    var modified := ToLowS(curve, s);
    if modified.None? {
      return None;
    }
    if modified.value {
      return Some(codec.marshal(pair.value.0, s.value));
    }
    return Some(signature);
  }

  function LowSSignature(codec: Codec, curve: Curve, signature: Bytes): Option<Bytes> {
    match Unmarshal(codec, signature)
    case None => None
    case Some((r, s)) =>
      match Order(curve)
      case None => None
      case Some(n) => if LowS(n, s) == s then Some(signature) else Some(codec.marshal(r, LowS(n, s)))
  }

  // ---------------------------------------------------------------------------------------------
  // The verification equation, section 4.1.4 of SEC 1.

  /** The point computed from the signature, with w the inverse of s. */
  ghost function VerifyPoint<P(!new)>(g: Group<P>, q: P, e: nat, r: nat, w: nat): P
    requires g.order > 0
  {
    g.add(Mul(g, (e * w) % g.order, g.base), Mul(g, (r * w) % g.order, q))
  }

  ghost predicate VerifiesWith<P(!new)>(g: Group<P>, q: P, e: nat, r: nat, s: nat, w: nat)
    requires g.order > 0
  {
    && 0 < w < g.order && (s * w) % g.order == 1
    && VerifyPoint(g, q, e, r, w) != g.zero
    && g.x(VerifyPoint(g, q, e, r, w)) % g.order == r
  }

  ghost predicate Verifies<P(!new)>(g: Group<P>, q: P, e: nat, r: int, s: int)
    requires g.order > 0
  {
    0 < r < g.order && 0 < s < g.order && exists w :: VerifiesWith(g, q, e, r, s, w)
  }

  /** The multiple of the base that the point is, for a public key d times the base. */
  function VerifyScalar(n: nat, d: nat, e: nat, r: nat, w: nat): nat
    requires n > 0
  {
    (e * w) % n + ((r * w) % n) * d
  }

  lemma {:induction false} VerifyPointScalar<P(!new)>(g: Group<P>, d: nat, e: nat, r: nat, w: nat)
    requires Lawful(g)
    ensures VerifyPoint(g, Mul(g, d, g.base), e, r, w) == Mul(g, VerifyScalar(g.order, d, e, r, w), g.base)
  {
    var a, b := (e * w) % g.order, (r * w) % g.order;
    MulMul(g, b, d, g.base);
    MulAdd(g, a, b * d, g.base);
  }

  lemma {:induction false} ScalarResidue(n: nat, d: nat, e: nat, r: nat, w: nat)
    requires n > 0
    ensures VerifyScalar(n, d, e, r, w) % n == (w * (e + r * d)) % n
  {
    var b := ((r * w) % n) * d;
    AddMod(e * w, b, n);
    MulMod(r * w, d, n);
    AddMod(b, e * w, n);
    AddMod(r * w * d, e * w, n);
    assert e * w + r * w * d == w * (e + r * d) by {
      assert w * (e + r * d) == w * e + w * (r * d);
      assert w * (r * d) == r * w * d;
    }
  }

  /** Flipping s negates the inverse. */
  lemma {:induction false} FlippedInverse(n: nat, s: nat, w: nat)
    requires 0 < s < n && 0 < w < n && (s * w) % n == 1
    ensures ((n - s) * (n - w)) % n == 1
  {
    assert (n - s) * (n - w) == s * w + (n - s - w) * n;
    SameRemainder((n - s) * (n - w), s * w, n - s - w, n);
  }

  /** The scalars for w and n - w cancel. */
  lemma {:induction false} FlippedScalars(n: nat, d: nat, e: nat, r: nat, w: nat)
    requires 0 < w < n
    ensures (VerifyScalar(n, d, e, r, w) + VerifyScalar(n, d, e, r, n - w)) % n == 0
  {
    var a, b, t := VerifyScalar(n, d, e, r, w), VerifyScalar(n, d, e, r, n - w), e + r * d;
    ScalarResidue(n, d, e, r, w);
    ScalarResidue(n, d, e, r, n - w);
    AddMod(a, b, n);
    AddMod(w * t, b, n);
    AddMod(b, w * t, n);
    AddMod((n - w) * t, w * t, n);
    assert (n - w) * t + w * t == 0 + t * n;
    SameRemainder((n - w) * t + w * t, 0, t, n);
  }

  /** The points for w and n - w are negatives of each other. */
  lemma {:induction false} FlippedPoint<P(!new)>(g: Group<P>, d: nat, e: nat, r: nat, w: nat)
    requires Lawful(g) && 0 < w < g.order
    ensures VerifyPoint(g, Mul(g, d, g.base), e, r, g.order - w) == g.neg(VerifyPoint(g, Mul(g, d, g.base), e, r, w))
  {
    var n, q := g.order, Mul(g, d, g.base);
    var a, b := VerifyScalar(n, d, e, r, w), VerifyScalar(n, d, e, r, n - w);
    VerifyPointScalar(g, d, e, r, w);
    VerifyPointScalar(g, d, e, r, n - w);
    FlippedScalars(n, d, e, r, w);
    MulAdd(g, a, b, g.base);
    MulIsZero(g, a + b);
    NegUnique(g, VerifyPoint(g, q, e, r, w), VerifyPoint(g, q, e, r, n - w));
  }

  lemma {:induction false} FlipVerifies<P(!new)>(g: Group<P>, d: nat, e: nat, r: int, s: int)
    requires Lawful(g)
    ensures Verifies(g, Mul(g, d, g.base), e, r, s) ==> Verifies(g, Mul(g, d, g.base), e, r, g.order - s)
  {
    var q := Mul(g, d, g.base);
    if Verifies(g, q, e, r, s) {
      var w :| VerifiesWith(g, q, e, r, s, w);
      FlippedInverse(g.order, s, w);
      FlippedPoint(g, d, e, r, w);
      var p := VerifyPoint(g, q, e, r, w);
      assert g.neg(p) != g.zero by {
        assert g.add(p, g.neg(p)) == g.zero && g.add(p, g.zero) == p;
      }
      assert VerifiesWith(g, q, e, r, g.order - s, g.order - w);
    }
  }

  /** A signature verifies exactly when its low-S form does. */
  lemma {:induction false} LowSPreservesVerification<P(!new)>(g: Group<P>, d: nat, e: nat, r: int, s: int)
    requires Lawful(g) && 0 < s < g.order
    ensures Verifies(g, Mul(g, d, g.base), e, r, s) <==>
            Verifies(g, Mul(g, d, g.base), e, r, LowS(g.order, s))
  {
    if LowS(g.order, s) != s {
      FlipVerifies(g, d, e, r, s);
      FlipVerifies(g, d, e, r, g.order - s);
    }
  }

  // ---------------------------------------------------------------------------------------------
  // Signing and verifying.

  /** (r, s) is the primitive's signature of digest e by private key d with nonce k and its inverse v. */
  ghost predicate IsSignature<P(!new)>(g: Group<P>, d: nat, e: nat, k: nat, v: nat, r: nat, s: nat)
    requires g.order > 0
  {
    && 0 < k < g.order && (k * v) % g.order == 1
    && r == g.x(Mul(g, k, g.base)) % g.order && r != 0
    && s == (v * (e + r * d)) % g.order && s != 0
  }

  /** With w the inverse of s, w (e + r d) is the nonce again. */
  lemma {:induction false} NonceRecovered(n: nat, t: nat, k: nat, v: nat, s: nat, w: nat)
    requires 0 < k < n && (k * v) % n == 1
    requires s == (v * t) % n && (s * w) % n == 1
    ensures (w * t) % n == k
  {
    // w t = w (s k) = (s w) k = k
    NonceTimes(n, t, k, v, s);
    MulMod(w, t, n);
    MulMod(w, s * k, n);
    assert w * (s * k) == (s * w) * k;
    MulMod(s * w, k, n);
    Remainder(k, 0, k, n);
  }

  /** s k = v t k = t. */
  lemma {:induction false} NonceTimes(n: nat, t: nat, k: nat, v: nat, s: nat)
    requires n > 0 && (k * v) % n == 1 && s == (v * t) % n
    ensures (s * k) % n == t % n
  {
    MulMod(v * t, k, n);
    assert v * t * k == (k * v) * t by { assert v * t * k == k * (v * t); }
    MulMod(k * v, t, n);
  }

  /** Every signature of the primitive verifies under the signer's public key. */
  lemma {:induction false} PrimitiveVerifies<P(!new)>(g: Group<P>, d: nat, e: nat, k: nat, v: nat, r: nat, s: nat)
    requires Lawful(g) && IsPrime(g.order)
    requires IsSignature(g, d, e, k, v, r, s)
    ensures Verifies(g, Mul(g, d, g.base), e, r, s)
  {
    var n := g.order;
    var w := InverseExists(s, n);
    VerifyPointScalar(g, d, e, r, w);
    ScalarResidue(n, d, e, r, w);
    NonceRecovered(n, e + r * d, k, v, s, w);
    MulResidue(g, VerifyScalar(n, d, e, r, w));
    assert VerifiesWith(g, Mul(g, d, g.base), e, r, s, w);
  }

  /** With k = w t, the inverse v of k gives back s = v t. */
  lemma {:induction false} SignatureRecovered(n: nat, t: nat, k: nat, v: nat, s: nat, w: nat)
    requires 0 < s < n && (s * w) % n == 1 && k == (w * t) % n && (k * v) % n == 1
    ensures s == (v * t) % n
  {
    NonceFor(n, t, k, s, w);
    SolveFor(n, t, k, v, s);
  }

  /** s k = s (w t) = (s w) t = t. */
  lemma {:induction false} NonceFor(n: nat, t: nat, k: nat, s: nat, w: nat)
    requires n > 0 && (s * w) % n == 1 && k == (w * t) % n
    ensures (s * k) % n == t % n
  {
    MulMod(s, w * t, n);
    assert s * (w * t) == (s * w) * t;
    MulMod(s * w, t, n);
  }

  /** v t = v (s k) = (k v) s = s. */
  lemma {:induction false} SolveFor(n: nat, t: nat, k: nat, v: nat, s: nat)
    requires 0 < s < n && (s * k) % n == t % n && (k * v) % n == 1
    ensures s == (v * t) % n
  {
    MulMod(v, t, n);
    MulMod(v, s * k, n);
    assert v * (s * k) == (k * v) * s;
    MulMod(k * v, s, n);
    Remainder(s, 0, s, n);
  }

  /** The primitive may return (r, s), with some nonce. */
  ghost predicate MaySign<P(!new)>(g: Group<P>, d: nat, e: nat, r: nat, s: nat)
    requires g.order > 0
  {
    exists k, v :: IsSignature(g, d, e, k, v, r, s)
  }

  /** Verification accepts exactly what the primitive may return under the key. */
  lemma {:induction false} VerifiesIff<P(!new)>(g: Group<P>, d: nat, e: nat, r: nat, s: nat)
    requires Lawful(g) && IsPrime(g.order)
    ensures Verifies(g, Mul(g, d, g.base), e, r, s) <==> MaySign(g, d, e, r, s)
  {
    var n, q := g.order, Mul(g, d, g.base);
    if MaySign(g, d, e, r, s) {
      var k, v :| IsSignature(g, d, e, k, v, r, s);
      PrimitiveVerifies(g, d, e, k, v, r, s);
    }
    if Verifies(g, q, e, r, s) {
      var w :| VerifiesWith(g, q, e, r, s, w);
      VerifiedIsSigned(g, d, e, r, s, w);
    }
  }

  lemma {:induction false} VerifiedIsSigned<P(!new)>(g: Group<P>, d: nat, e: nat, r: nat, s: nat, w: nat)
    requires Lawful(g) && IsPrime(g.order)
    requires 0 < r < g.order && 0 < s < g.order && VerifiesWith(g, Mul(g, d, g.base), e, r, s, w)
    ensures MaySign(g, d, e, r, s)
  {
    var n, t := g.order, e + r * d;
    var k := (w * t) % n;
    VerifyPointScalar(g, d, e, r, w);
    ScalarResidue(n, d, e, r, w);
    MulResidue(g, VerifyScalar(n, d, e, r, w));
    assert VerifyPoint(g, Mul(g, d, g.base), e, r, w) == Mul(g, k, g.base);
    var v := InverseExists(k, n);
    SignatureRecovered(n, t, k, v, s, w);
    assert IsSignature(g, d, e, k, v, r, s);
  }

  /** The answers of verifyECDSA: which encodings, curves and s it refuses, and what it says of the others. */
  lemma {:induction false} VerifySignatureExact(codec: Codec, curve: Curve, primitive: (int, int) -> bool, sig: Bytes, r: int, s: int)
    ensures codec.unmarshal(sig).None? ==> VerifySignature(codec, curve, primitive, sig) == Err(BadEncoding)
    ensures codec.unmarshal(sig) == Some((r, s)) ==>
              VerifySignature(codec, curve, primitive, sig) ==
              if r < 1 || s < 1 then Err(BadEncoding)
              else if curve == OtherCurve then Err(CurveNotRecognized)
              else if 2 * s > Order(curve).value then Err(HighS)
              else Ok(primitive(r, s))
  {
  }

  /** What signECDSA returns passes verifyECDSA: never malformed, never high, always valid. */
  lemma {:induction false} SignThenVerify<P(!new)>(g: Group<P>, codec: Codec, curve: Curve, primitive: (int, int) -> bool,
                                d: nat, e: nat, r: nat, s: nat)
    requires Lawful(g) && IsPrime(g.order) && Order(curve) == Some(g.order)
    requires Faithful(codec)
    requires forall a, b :: primitive(a, b) <==> Verifies(g, Mul(g, d, g.base), e, a, b)
    ensures MaySign(g, d, e, r, s) ==> VerifySignature(codec, curve, primitive, codec.marshal(r, LowS(g.order, s))) == Ok(true)
  {
    if MaySign(g, d, e, r, s) {
      var k, v :| IsSignature(g, d, e, k, v, r, s);
      PrimitiveVerifies(g, d, e, k, v, r, s);
      LowSPreservesVerification(g, d, e, r, s);
      LowSCanonical(g.order, s, s);
    }
  }

  /** Of a signature and its flip, verifyECDSA accepts exactly one, and it is the low one. */
  lemma {:induction false} NoMalleability<P(!new)>(g: Group<P>, codec: Codec, curve: Curve, primitive: (int, int) -> bool,
                                d: nat, e: nat, r: nat, s: nat)
    requires Lawful(g) && Order(curve) == Some(g.order) && Faithful(codec)
    requires forall a, b :: primitive(a, b) <==> Verifies(g, Mul(g, d, g.base), e, a, b)
    ensures Verifies(g, Mul(g, d, g.base), e, r, s) ==>
              && VerifySignature(codec, curve, primitive, codec.marshal(r, s)) ==
                 (if LowS(g.order, s) == s then Ok(true) else Err(HighS))
              && VerifySignature(codec, curve, primitive, codec.marshal(r, g.order - s)) ==
                 (if LowS(g.order, s) == s then Err(HighS) else Ok(true))
  {
    if Verifies(g, Mul(g, d, g.base), e, r, s) {
      FlipVerifies(g, d, e, r, s);
      LowSCanonical(g.order, s, s);
      LowSCanonical(g.order, g.order - s, s);
    }
  }
}
