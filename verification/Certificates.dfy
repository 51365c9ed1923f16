/** X.509 certificates and revocation lists, as far as an MSP looks at them. */
module Certificates {
  import opened Prelude

  datatype Curve = P224 | P256 | P384 | P521 | OtherCurve

  datatype PublicKey = EcKey(curve: Curve, point: Bytes) | OtherKey(key: Bytes)

  /**
   A parsed certificate. Its fields and its signature stand for the raw encoding: two certificates
   have the same raw bytes exactly when they are equal.
   */
  datatype Certificate = Certificate(
    serial: int,
    subject: string,
    publicKey: PublicKey,
    isCA: bool,
    ski: Option<Bytes>,           // subject key identifier; None if missing or undecodable
    units: seq<string>,           // organizational units of the subject
    notBefore: int,               // seconds
    notAfter: int,
    maxPathLen: Option<nat>,
    serverAuth: bool,             // no extended key usage restriction, or one that allows server authentication
    ecdsaSigned: bool,            // the signature algorithm is one of the four ECDSA ones
    signature: Bytes)

  datatype RevocationList = RevocationList(
    aki: Option<Bytes>,           // authority key identifier; None if missing or undecodable
    revoked: seq<int>,
    content: Bytes)

  /** The cryptography behind certificates. */
  datatype Authority = Authority(
    issues: (Certificate, Certificate) -> bool,             // parent, child
    signsList: (Certificate, RevocationList) -> bool,       // CheckCRLSignature
    digest: seq<Certificate> -> Bytes)                      // hash of the concatenated raw bytes

  /** isCACert. */
  predicate IsProperCA(c: Certificate) {
    c.ski.Some? && c.isCA
  }

  /** The same certificate but for the signature. */
  predicate SameButSignature(a: Certificate, b: Certificate) {
    a == b.(signature := a.signature)
  }
}
