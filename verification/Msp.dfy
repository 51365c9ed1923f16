/**
 A membership service provider: what set-up computes from a configuration, and what the state it
 leaves behind accepts. The functions here are the specification; the class in MspProvider works on
 fields and is proved against them.
 */
module Msp {
  import opened Prelude
  import opened Certificates
  import opened CertificateChains
  import opened Ecdsa
  import opened Sanitation
  import opened SignaturePolicies

  /** A configured organizational unit and its certifier; None where a certificate does not parse. */
  datatype UnitConfig = UnitConfig(certificate: Option<Certificate>, ou: string)

  datatype MspConfig = MspConfig(
    name: string,
    roots: seq<Option<Certificate>>,
    intermediates: seq<Option<Certificate>>,
    admins: seq<Option<Certificate>>,
    revocationLists: seq<Option<RevocationList>>,
    units: seq<UnitConfig>)

  /** The authorities: as configured, as verify options, and which of them certify other authorities. */
  datatype CertificationTree = CertificationTree(
    rootCerts: seq<Certificate>,
    intermediateCerts: seq<Certificate>,
    pools: Pools,
    internalNodes: set<Certificate>)

  datatype MspState = MspState(
    name: string,
    tree: CertificationTree,
    admins: seq<Certificate>,
    revocationLists: seq<RevocationList>,
    ouIdentifiers: map<string, seq<Bytes>>)

  /** The crypto that an MSP calls: issuance and hashing, and the encoding of signatures. */
  datatype Crypto = Crypto(auth: Authority, codec: Codec)

  // ---------------------------------------------------------------------------------------------
  // Reading the state.

  /** sanitizeCert: needs the unique chain of an ECDSA-signed certificate, to know the key that signed it. */
  function SanitizeCert(crypto: Crypto, pools: Pools, cert: Certificate): Option<Certificate> {
    if !cert.ecdsaSigned then Some(cert)
    else
      match UniqueChain(crypto.auth, pools, cert)
      case None => None
      case Some(chain) =>
        if |chain| >= 2 then Sanitized(crypto.codec, cert, chain[1])
        else if cert.isCA then Sanitized(crypto.codec, cert, cert)
        else None  // chain[1] does not exist
  }

  /** Where sanitizeCert panics: on a missing chain[1], and on a parent whose key is not an ECDSA key. */
  ghost predicate SanitizePanics(crypto: Crypto, pools: Pools, cert: Certificate) {
    && cert.ecdsaSigned
    && UniqueChain(crypto.auth, pools, cert).Some?
    && var chain := UniqueChain(crypto.auth, pools, cert).value;
       if |chain| >= 2 then !chain[1].publicKey.EcKey? else !cert.isCA || !cert.publicKey.EcKey?
  }

  /** getValidationChain; `parentAt` is 0 for the chain of an intermediate, 1 for that of an identity. */
  function ValidationChain(crypto: Crypto, t: CertificationTree, cert: Certificate, parentAt: nat): Option<seq<Certificate>>
    requires parentAt <= 1
  {
    match UniqueChain(crypto.auth, t.pools, cert)
    case None => None
    case Some(chain) =>
      if |chain| < 2 then None
      else if chain[parentAt] in t.internalNodes then None
      else Some(chain)
  }

  /** getCertificationChain: CA certificates are not identities. */
  function CertificationChain(crypto: Crypto, t: CertificationTree, cert: Certificate): (r: Option<seq<Certificate>>)
    ensures r.Some? ==> |r.value| >= 2
  {
    if cert.isCA then None else ValidationChain(crypto, t, cert, 1)
  }

  /** No revocation list of the issuer lists the certificate, and the lists can be told apart. */
  ghost predicate NotRevoked(auth: Authority, lists: seq<RevocationList>, cert: Certificate, issuer: Certificate) {
    && issuer.ski.Some?
    && (forall l :: l in lists ==> l.aki.Some?)
    && (forall l :: l in lists && l.aki == issuer.ski && auth.signsList(issuer, l) ==> cert.serial !in l.revoked)
  }

  /** The certifiers identifier of an identity: the hash of its chain without itself. */
  function CertifiersIdentifier(crypto: Crypto, t: CertificationTree, cert: Certificate): Option<Bytes> {
    match CertificationChain(crypto, t, cert)
    case None => None
    case Some(chain) => Some(crypto.auth.digest(chain[1..]))
  }

  function Tagged(units: seq<string>, id: Bytes): (r: seq<(string, Bytes)>)
    ensures |r| == |units| && forall i :: 0 <= i < |r| ==> r[i] == (units[i], id)
  {
    seq(|units|, i requires 0 <= i < |units| => (units[i], id))
  }

  /** GetOrganizationalUnits: each unit of the certificate, with the identifier of its certifiers. */
  function OrganizationalUnits(crypto: Crypto, t: CertificationTree, cert: Certificate): seq<(string, Bytes)> {
    match CertifiersIdentifier(crypto, t, cert)
    case None => []
    case Some(id) => Tagged(cert.units, id)
  }

  ghost predicate Registered(m: map<string, seq<Bytes>>, ou: string, id: Bytes) {
    ou in m && id in m[ou]
  }

  /** validateIdentityOUs: some unit of the identity is registered, if any is. */
  ghost predicate UnitsAccepted(crypto: Crypto, s: MspState, cert: Certificate) {
    s.ouIdentifiers == map[] ||
    exists u :: u in OrganizationalUnits(crypto, s.tree, cert) && Registered(s.ouIdentifiers, u.0, u.1)
  }

  /** Validate. */
  ghost predicate Accepts(crypto: Crypto, s: MspState, cert: Certificate) {
    && CertificationChain(crypto, s.tree, cert).Some?
    && NotRevoked(crypto.auth, s.revocationLists, cert, CertificationChain(crypto, s.tree, cert).value[1])
    && UnitsAccepted(crypto, s, cert)
  }

  /** How serialized identities decode: an MSP identifier, and a certificate if there is one. */
  type Decoder = Bytes -> Option<(string, Option<Certificate>)>

  /** DeserializeIdentity: the sanitized certificate of the identity. */
  function Deserialize(crypto: Crypto, decode: Decoder, s: MspState, serialized: Bytes): Option<Certificate> {
    match decode(serialized)
    case None => None
    case Some((mspId, cert)) =>
      if mspId != s.name || cert.None? then None else SanitizeCert(crypto, s.tree.pools, cert.value)
  }

  /** SatisfiesPrincipal, for an identity of this MSP with certificate `cert`. */
  ghost predicate SatisfiesPrincipal(crypto: Crypto, decode: Decoder, s: MspState, cert: Certificate, p: Principal) {
    match p
    case RolePrincipal(role, msp) =>
      msp == s.name &&
      (match role
       case Member => Accepts(crypto, s, cert)
       case Admin => cert in s.admins
       case OtherRole(_) => false)
    case UnitPrincipal(msp, ou, certifiers) =>
      && msp == s.name
      && Accepts(crypto, s, cert)
      && (ou, certifiers) in OrganizationalUnits(crypto, s.tree, cert)
    case IdentityPrincipal(serialized) =>
      (match Deserialize(crypto, decode, s, serialized)
       case None => false
       case Some(other) => cert == other && Accepts(crypto, s, other))
    case MalformedPrincipal => false
    case UnknownPrincipal(_) => false
  }

  // ---------------------------------------------------------------------------------------------
  // Set-up.

  function AllParsed<T>(items: seq<Option<T>>): Option<seq<T>> {
    if items == [] then Some([])
    else
      match (AllParsed(items[..|items| - 1]), items[|items| - 1])
      case (Some(rest), Some(x)) => Some(rest + [x])
      case _ => None
  }

  /** Loads configured certificates as identities, which sanitizes them. */
  function LoadAll(crypto: Crypto, pools: Pools, certs: seq<Option<Certificate>>): Option<seq<Certificate>> {
    if certs == [] then Some([])
    else
      match (LoadAll(crypto, pools, certs[..|certs| - 1]), certs[|certs| - 1])
      case (Some(rest), Some(c)) =>
        (match SanitizeCert(crypto, pools, c)
         case None => None
         case Some(x) => Some(rest + [x]))
      case _ => None
  }

  /** validateCAIdentity and the checks before it. */
  ghost predicate ProperAuthority(crypto: Crypto, pools: Pools, lists: seq<RevocationList>, c: Certificate) {
    && IsProperCA(c)
    && UniqueChain(crypto.auth, pools, c).Some?
    && var chain := UniqueChain(crypto.auth, pools, c).value;
       |chain| >= 2 ==> NotRevoked(crypto.auth, lists, c, chain[1])
  }

  /** The certificates above c on its chain. */
  function Above(crypto: Crypto, pools: Pools, c: Certificate): set<Certificate> {
    match UniqueChain(crypto.auth, pools, c)
    case None => {}
    case Some(chain) => if chain == [] then {} else Elements(chain[1..])
  }

  function Ancestors(crypto: Crypto, pools: Pools, certs: seq<Certificate>): set<Certificate> {
    set c, x | c in certs && x in Above(crypto, pools, c) :: x
  }

  /** The certifiers identifier of a configured unit; None rejects the configuration. */
  function CertifierOf(crypto: Crypto, t: CertificationTree, u: UnitConfig): Option<Bytes> {
    if u.certificate.None? then None
    else
      match SanitizeCert(crypto, t.pools, u.certificate.value)
      case None => None
      case Some(c) =>
        if c in t.rootCerts then Some(crypto.auth.digest([c]))
        else if c in t.intermediateCerts then
          (match ValidationChain(crypto, t, c, 0)
           case None => None
           case Some(chain) => Some(crypto.auth.digest(chain)))
        else None
  }

  function AddIdentifier(m: map<string, seq<Bytes>>, ou: string, id: Bytes): map<string, seq<Bytes>> {
    if ou !in m then m[ou := [id]] else if id in m[ou] then m else m[ou := m[ou] + [id]]
  }

  /** Registers each unit under the identifier that `certifier` gives it. */
  function Register(certifier: UnitConfig -> Option<Bytes>, units: seq<UnitConfig>): Option<map<string, seq<Bytes>>> {
    if units == [] then Some(map[])
    else
      var last := units[|units| - 1];
      match (Register(certifier, units[..|units| - 1]), certifier(last))
      case (Some(m), Some(id)) => Some(AddIdentifier(m, last.ou, id))
      case _ => None
  }

  function RegisterUnits(crypto: Crypto, t: CertificationTree, units: seq<UnitConfig>): Option<map<string, seq<Bytes>>> {
    Register(u => CertifierOf(crypto, t, u), units)
  }

  /** setupCAs: the authorities are sanitized with the help of pools made of the unsanitized ones. */
  function LoadAuthorities(crypto: Crypto, conf: MspConfig): (r: Option<(seq<Certificate>, seq<Certificate>)>) {
    if conf.roots == [] then None
    else
      match (AllParsed(conf.roots), AllParsed(conf.intermediates))
      case (Some(roots), Some(intermediates)) =>
        var unsanitized := Pools(PoolOf(roots), PoolOf(intermediates));
        (match (LoadAll(crypto, unsanitized, conf.roots), LoadAll(crypto, unsanitized, conf.intermediates))
         case (Some(rs), Some(cas)) => Some((rs, cas))
         case _ => None)
      case _ => None
  }

  /** The tree over the sanitized authorities. */
  function TreeOver(crypto: Crypto, rootCerts: seq<Certificate>, intermediateCerts: seq<Certificate>): CertificationTree {
    var pools := Pools(PoolOf(rootCerts), PoolOf(intermediateCerts));
    CertificationTree(rootCerts, intermediateCerts, pools, Ancestors(crypto, pools, intermediateCerts))
  }

  /** finalizeSetupCAs accepts the tree. */
  ghost predicate ProperTree(crypto: Crypto, t: CertificationTree, lists: seq<RevocationList>) {
    forall c :: c in t.rootCerts + t.intermediateCerts ==> ProperAuthority(crypto, t.pools, lists, c)
  }

  /** Everything but the final check of the administrators. */
  ghost function Configure(crypto: Crypto, conf: MspConfig): Option<MspState> {
    match LoadAuthorities(crypto, conf)
    case None => None
    case Some((rs, cas)) =>
      var t := TreeOver(crypto, rs, cas);
      match (LoadAll(crypto, t.pools, conf.admins), AllParsed(conf.revocationLists), RegisterUnits(crypto, t, conf.units))
      case (Some(admins), Some(lists), Some(m)) =>
        if ProperTree(crypto, t, lists) then Some(MspState(conf.name, t, admins, lists, m)) else None
      case _ => None
  }

  /** The state that a successful Setup establishes; None if Setup fails. */
  ghost function Established(crypto: Crypto, conf: MspConfig): Option<MspState> {
    match Configure(crypto, conf)
    case None => None
    case Some(s) => if forall a :: a in s.admins ==> Accepts(crypto, s, a) then Some(s) else None
  }
}
