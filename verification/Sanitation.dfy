/** Rewriting a certificate so that its ECDSA signature is in low-S form. */
module Sanitation {
  import opened Prelude
  import opened Certificates
  import opened Ecdsa

  /** The certificate that sanitation yields; None where it fails or the parent's key is not an ECDSA key. */
  function Sanitized(codec: Codec, cert: Certificate, parent: Certificate): Option<Certificate> {
    if !parent.publicKey.EcKey? then None
    else
      match LowSSignature(codec, parent.publicKey.curve, cert.signature)
      case None => None
      case Some(sig) => Some(cert.(signature := sig))
  }

  /** How sanitation goes wrong. */
  datatype Trouble = Panic | Failure

  function Answer(r: Result<Certificate, Trouble>): Option<Certificate> {
    if r.Ok? then Some(r.value) else None
  }

  /** sanitizeECDSASignedCert: rebuilds the certificate only if its signature has to change. */
  method SanitizeSignedCert(codec: Codec, cert: Certificate, parent: Certificate) returns (r: Result<Certificate, Trouble>)
    ensures Answer(r) == Sanitized(codec, cert, parent)
    ensures r == Err(Panic) <==> !parent.publicKey.EcKey?
  {
    if !parent.publicKey.EcKey? {
      return Err(Panic);
    }
    var expected := SignatureToLowS(codec, parent.publicKey.curve, cert.signature);
    if expected.None? {
      return Err(Failure);
    }
    if cert.signature == expected.value {
      return Ok(cert);
    }
    var newCert := cert;
    newCert := newCert.(signature := expected.value);
    return Ok(newCert);
  }

  /** The signature of `cert` decodes to (r, s), under a parent key of recognized order n. */
  ghost predicate SignedAs(codec: Codec, cert: Certificate, parent: Certificate, r: int, s: int, n: nat) {
    && parent.publicKey.EcKey?
    && Order(parent.publicKey.curve) == Some(n)
    && Unmarshal(codec, cert.signature) == Some((r, s))
  }

  /** Sanitation changes the signature and nothing else, and to the low form of the same pair. */
  lemma {:induction false} SanitationKeepsCertificate(codec: Codec, cert: Certificate, parent: Certificate, r: int, s: int, n: nat)
    requires Faithful(codec) && SignedAs(codec, cert, parent, r, s, n)
    ensures var c := Sanitized(codec, cert, parent);
            && c.Some?
            && SameButSignature(c.value, cert)
            && codec.unmarshal(c.value.signature) == Some((r, LowS(n, s)))
  {
  }

  /** A second sanitation changes nothing, exactly when s was below the order; otherwise it fails. */
  lemma {:induction false} SanitationIdempotentIff(codec: Codec, cert: Certificate, parent: Certificate, r: int, s: int, n: nat)
    requires Faithful(codec) && SignedAs(codec, cert, parent, r, s, n)
    ensures var c := Sanitized(codec, cert, parent);
            c.Some? && Sanitized(codec, c.value, parent) == if s < n then c else None
  {
    SanitationKeepsCertificate(codec, cert, parent, r, s, n);
    if 0 < s < n {
      LowSCanonical(n, s, s);
    }
  }

  /**
   Two certificates that differ only by s against n - s are sanitized to the same certificate exactly
   when the one that is already low carries the canonical encoding.
   */
  lemma {:induction false} TwinsSanitizedIff(codec: Codec, a: Certificate, b: Certificate, parent: Certificate, r: int, s: int, n: nat)
    requires Faithful(codec)
    requires SameButSignature(a, b)
    requires SignedAs(codec, a, parent, r, s, n) && SignedAs(codec, b, parent, r, n - s, n)
    ensures Sanitized(codec, a, parent).Some? && Sanitized(codec, b, parent).Some?
    ensures Sanitized(codec, a, parent) == Sanitized(codec, b, parent) <==>
            (if LowS(n, s) == s then a else b).signature == codec.marshal(r, LowS(n, s))
  {
    assert 0 < s < n;
    LowSCanonical(n, s, s);
    LowSCanonical(n, n - s, s);
  }
}
