/**
 Sanitized identities. Certificates that differ by s against N - s are one identity after sanitation,
 and sanitation is stable, as long as the issuer is the only authority that can have signed them.
 */
module MspSanitation {
  import opened Prelude
  import opened Certificates
  import opened CertificateChains
  import opened EllipticGroup
  import opened Ecdsa
  import opened Sanitation
  import opened SignaturePolicies
  import opened Msp
  import opened MspTheorems

  // ---------------------------------------------------------------------------------------------
  // Issuance by ECDSA.

  /** The certificate without its signature. */
  function Unsigned(c: Certificate): Certificate {
    c.(signature := [])
  }

  /** What issuance consists of: the group and the secret of a key, the digest of a certificate, and every other check. */
  datatype Issuance<!P> = Issuance(
    group: PublicKey -> Group<P>,
    scalar: PublicKey -> nat,
    digest: Certificate -> nat,
    admits: (Certificate, Certificate) -> bool)

  function OrderOf<P>(how: Issuance<P>, p: Certificate): nat {
    how.group(p.publicKey).order
  }

  /** The verification equation, under the parent's key. */
  ghost predicate Signs<P(!new)>(how: Issuance<P>, p: Certificate, c: Certificate, r: int, s: int)
    requires OrderOf(how, p) > 0
  {
    var g := how.group(p.publicKey);
    Verifies(g, Mul(g, how.scalar(p.publicKey), g.base), how.digest(Unsigned(c)), r, s)
  }

  /**
   An ECDSA-signed certificate is issued by a parent with an ECDSA key, on whatever curve, that is
   admitted by everything but the signatures and whose key verifies the signature.
   */
  ghost predicate IssuesByEcdsa<P(!new)>(crypto: Crypto, how: Issuance<P>) {
    && (forall k :: Lawful(how.group(k)))
    && (forall k: PublicKey :: k.EcKey? && Order(k.curve).Some? ==> how.group(k).order == Order(k.curve).value)
    && forall p: Certificate, c: Certificate | c.ecdsaSigned :: crypto.auth.issues(p, c) <==>
         && p.publicKey.EcKey?
         && how.admits(Unsigned(p), Unsigned(c))
         && Unmarshal(crypto.codec, c.signature).Some?
         && Signs(how, p, c, Unmarshal(crypto.codec, c.signature).value.0, Unmarshal(crypto.codec, c.signature).value.1)
  }

  /** The same certificate but for the signature, which is (r, s) on one and (r, n - s) on the other. */
  ghost predicate Twins(codec: Codec, a: Certificate, b: Certificate, r: int, s: int, n: nat) {
    && SameButSignature(a, b)
    && a.ecdsaSigned
    && Unmarshal(codec, a.signature) == Some((r, s))
    && Unmarshal(codec, b.signature) == Some((r, n - s))
  }

  /** A parent whose key has order n does not tell the twins apart. */
  lemma {:induction false} EcdsaTwins<P(!new)>(crypto: Crypto, how: Issuance<P>, a: Certificate, b: Certificate,
                                               r: int, s: int, n: nat, p: Certificate)
    requires IssuesByEcdsa(crypto, how) && Twins(crypto.codec, a, b, r, s, n)
    requires OrderOf(how, p) == n
    ensures crypto.auth.issues(p, a) == crypto.auth.issues(p, b)
  {
    assert Unsigned(a) == Unsigned(b);
    var g, d, e := how.group(p.publicKey), how.scalar(p.publicKey), how.digest(Unsigned(a));
    FlipVerifies(g, d, e, r, s);
    FlipVerifies(g, d, e, r, n - s);
  }

  // ---------------------------------------------------------------------------------------------
  // Chains of twins.

  ghost predicate OutsidePools(pools: Pools, c: Certificate) {
    c !in pools.roots && c !in pools.intermediates
  }

  /** The same chain, but for the certificate itself. */
  function Rebased(b: Certificate, chain: seq<Certificate>): seq<Certificate>
    requires chain != []
  {
    [b] + chain[1..]
  }

  /** A chain of one certificate outside the pools is one of another that its issuer certifies as well. */
  lemma {:induction false} RebasedChain(crypto: Crypto, pools: Pools, a: Certificate, b: Certificate, chain: seq<Certificate>)
    requires SameButSignature(a, b) && OutsidePools(pools, a) && OutsidePools(pools, b)
    requires Certifies(crypto.auth, pools, a, chain)
    requires |chain| >= 2 && (crypto.auth.issues(chain[1], a) ==> crypto.auth.issues(chain[1], b))
    ensures Certifies(crypto.auth, pools, b, Rebased(b, chain))
  {
    var other := Rebased(b, chain);
    var now := TimeFor(a);
    forall k | 1 <= k < |other| - 1 ensures IntermediateAt(crypto.auth, pools, now, other, k) {
      assert IntermediateAt(crypto.auth, pools, now, chain, k);
      RebasedPrefix(b, chain, k);
    }
    RebasedPrefix(b, chain, |chain| - 1);
    assert UsageOk(other) by {
      forall c | c in other ensures c.serverAuth {
        assert c == b || c in chain[1..];
        assert chain[0] in chain;
      }
    }
  }

  lemma {:induction false} RebasedPrefix(b: Certificate, chain: seq<Certificate>, k: nat)
    requires 1 <= k < |chain|
    ensures Rebased(b, chain)[k] == chain[k]
    ensures k > 1 ==> Rebased(b, chain)[..k][k - 1] == chain[..k][k - 1]
    ensures Rebased(b, chain)[..1] == [b] && chain[..1] == [chain[0]]
    ensures forall x :: x in Rebased(b, chain)[..k] ==> x == b || x in chain[..k]
  {
    forall j | 1 <= j < k ensures Rebased(b, chain)[j] == chain[..k][j] {
    }
  }

  /** Outside the roots a chain has an issuer, from the pools, who issued the certificate. */
  lemma {:induction false} ChainIssuer(crypto: Crypto, pools: Pools, c: Certificate, chain: seq<Certificate>)
    requires Certifies(crypto.auth, pools, c, chain) && c !in pools.roots
    ensures |chain| >= 2 && crypto.auth.issues(chain[1], c)
    ensures chain[1] in pools.roots || chain[1] in pools.intermediates
  {
    assert chain[..1] == [c];
    if |chain| > 2 {
      assert IntermediateAt(crypto.auth, pools, TimeFor(c), chain, 1);
    }
  }

  /** Some chain of the certificate begins with an authority whose key has another order than n. */
  ghost predicate OtherOrder<P>(crypto: Crypto, pools: Pools, how: Issuance<P>, c: Certificate, n: nat) {
    exists chain :: Certifies(crypto.auth, pools, c, chain) && |chain| >= 2 && OrderOf(how, chain[1]) != n
  }

  /** That takes an authority that everything but the signature admits, so it is excluded where these share one order. */
  lemma {:induction false} OneOrderSuffices<P(!new)>(crypto: Crypto, pools: Pools, how: Issuance<P>, c: Certificate, n: nat)
    requires IssuesByEcdsa(crypto, how) && c.ecdsaSigned && c !in pools.roots
    requires forall p | p in pools.roots || p in pools.intermediates ::
               p.publicKey.EcKey? && how.admits(Unsigned(p), Unsigned(c)) ==> OrderOf(how, p) == n
    ensures !OtherOrder(crypto, pools, how, c, n)
  {
    forall chain | Certifies(crypto.auth, pools, c, chain) && |chain| >= 2 ensures OrderOf(how, chain[1]) == n {
      ChainIssuer(crypto, pools, c, chain);
    }
  }

  /** A chain of one twin under a key of that order is one of the other. */
  lemma {:induction false} TwinChainBack<P(!new)>(crypto: Crypto, pools: Pools, how: Issuance<P>, a: Certificate, b: Certificate,
                                                  chain: seq<Certificate>, r: int, s: int, n: nat)
    requires IssuesByEcdsa(crypto, how) && Twins(crypto.codec, a, b, r, s, n)
    requires OutsidePools(pools, a) && OutsidePools(pools, b)
    requires Certifies(crypto.auth, pools, b, chain) && !OtherOrder(crypto, pools, how, b, n)
    ensures chain != [] && Certifies(crypto.auth, pools, a, Rebased(a, chain)) && chain == Rebased(b, Rebased(a, chain))
  {
    ChainIssuer(crypto, pools, b, chain);
    EcdsaTwins(crypto, how, a, b, r, s, n, chain[1]);
    RebasedChain(crypto, pools, b, a, chain);
    assert Rebased(a, chain)[1..] == chain[1..];
  }

  /** Of two twins outside the pools, if one has a unique chain then so has the other, or it has one of another order. */
  lemma {:induction false} TwinUniqueChain<P(!new)>(crypto: Crypto, pools: Pools, how: Issuance<P>, a: Certificate, b: Certificate,
                                                    chain: seq<Certificate>, r: int, s: int, n: nat)
    requires ProperPools(pools) && IssuesByEcdsa(crypto, how) && Twins(crypto.codec, a, b, r, s, n)
    requires OutsidePools(pools, a) && OutsidePools(pools, b)
    requires UniqueChain(crypto.auth, pools, a) == Some(chain) && |chain| >= 2 && OrderOf(how, chain[1]) == n
    ensures UniqueChain(crypto.auth, pools, b) ==
            if OtherOrder(crypto, pools, how, b, n) then None else Some(Rebased(b, chain))
  {
    UniqueChainExact(crypto.auth, pools, a, chain);
    EcdsaTwins(crypto, how, a, b, r, s, n, chain[1]);
    RebasedChain(crypto, pools, a, b, chain);
    if OtherOrder(crypto, pools, how, b, n) {
      TwoChains(crypto, pools, b, Rebased(b, chain));
    } else {
      forall other | Certifies(crypto.auth, pools, b, other) ensures other == Rebased(b, chain) {
        TwinChainBack(crypto, pools, how, a, b, other, r, s, n);
      }
      UniqueChainExact(crypto.auth, pools, b, Rebased(b, chain));
    }
  }

  lemma {:induction false} TwoChains(crypto: Crypto, pools: Pools, c: Certificate, chain: seq<Certificate>)
    requires ProperPools(pools) && Certifies(crypto.auth, pools, c, chain)
    requires exists other :: Certifies(crypto.auth, pools, c, other) && other != chain
    ensures UniqueChain(crypto.auth, pools, c) == None
  {
    if UniqueChain(crypto.auth, pools, c).Some? {
      UniqueChainExact(crypto.auth, pools, c, UniqueChain(crypto.auth, pools, c).value);
    }
  }

  // ---------------------------------------------------------------------------------------------
  // Identities.

  /** Set-up leaves only CA certificates in the pools. */
  lemma {:induction false} IdentityOutsidePools(crypto: Crypto, conf: MspConfig, s: MspState, c: Certificate)
    requires Established(crypto, conf) == Some(s) && !c.isCA
    ensures ProperPools(s.tree.pools) && OutsidePools(s.tree.pools, c)
  {
    SetupConfigures(crypto, conf, s);
    forall x | x in s.tree.rootCerts + s.tree.intermediateCerts ensures x.isCA {
      assert ProperAuthority(crypto, s.tree.pools, s.revocationLists, x);
    }
  }

  /** The signature of the certificate that is low, of the twins, is the canonical encoding. */
  ghost predicate LowIsCanonical(codec: Codec, a: Certificate, b: Certificate, r: int, s: int, n: nat) {
    (if LowS(n, s) == s then a else b).signature == codec.marshal(r, LowS(n, s))
  }

  /**
   Identities whose certificates differ by s against n - s become one identity, exactly when the low
   one is canonically encoded and the second one has no chain of another order.
   */
  lemma {:induction false} TwinIdentitiesIff<P(!new)>(crypto: Crypto, conf: MspConfig, st: MspState, how: Issuance<P>,
                                                      a: Certificate, b: Certificate, chain: seq<Certificate>,
                                                      r: int, s: int, n: nat)
    requires Established(crypto, conf) == Some(st) && !a.isCA
    requires Faithful(crypto.codec) && IssuesByEcdsa(crypto, how) && Twins(crypto.codec, a, b, r, s, n)
    requires UniqueChain(crypto.auth, st.tree.pools, a) == Some(chain) && |chain| >= 2
    requires chain[1].publicKey.EcKey? && Order(chain[1].publicKey.curve) == Some(n)
    ensures SanitizeCert(crypto, st.tree.pools, a).Some?
    ensures SanitizeCert(crypto, st.tree.pools, a) == SanitizeCert(crypto, st.tree.pools, b) <==>
            LowIsCanonical(crypto.codec, a, b, r, s, n) && !OtherOrder(crypto, st.tree.pools, how, b, n)
  {
    IdentityOutsidePools(crypto, conf, st, a);
    IdentityOutsidePools(crypto, conf, st, b);
    TwinUniqueChain(crypto, st.tree.pools, how, a, b, chain, r, s, n);
    TwinsSanitizedIff(crypto.codec, a, b, chain[1], r, s, n);
  }

  /** Every identity satisfies both IDENTITY principals or neither. */
  ghost predicate SamePrincipal(crypto: Crypto, decode: Decoder, s: MspState, x: Bytes, y: Bytes) {
    forall cert :: SatisfiesPrincipal(crypto, decode, s, cert, IdentityPrincipal(x)) <==>
                   SatisfiesPrincipal(crypto, decode, s, cert, IdentityPrincipal(y))
  }

  /** IDENTITY principals made from two serialized identities, the first one valid, mean the same exactly if both are sanitized alike. */
  lemma {:induction false} SamePrincipalIff(crypto: Crypto, decode: Decoder, s: MspState, x: Bytes, y: Bytes)
    requires Deserialize(crypto, decode, s, x).Some? && Accepts(crypto, s, Deserialize(crypto, decode, s, x).value)
    ensures SamePrincipal(crypto, decode, s, x, y) <==> Deserialize(crypto, decode, s, x) == Deserialize(crypto, decode, s, y)
  {
    var cert := Deserialize(crypto, decode, s, x).value;
    assert SatisfiesPrincipal(crypto, decode, s, cert, IdentityPrincipal(x));
  }

  /** So a principal made from a valid identity admits the holder of its twin under exactly that condition. */
  lemma {:induction false} TwinPrincipalsIff<P(!new)>(crypto: Crypto, conf: MspConfig, st: MspState, how: Issuance<P>, decode: Decoder,
                                                      x: Bytes, y: Bytes, a: Certificate, b: Certificate,
                                                      chain: seq<Certificate>, r: int, s: int, n: nat, c: Certificate)
    requires Established(crypto, conf) == Some(st) && !a.isCA
    requires Faithful(crypto.codec) && IssuesByEcdsa(crypto, how) && Twins(crypto.codec, a, b, r, s, n)
    requires UniqueChain(crypto.auth, st.tree.pools, a) == Some(chain) && |chain| >= 2
    requires chain[1].publicKey.EcKey? && Order(chain[1].publicKey.curve) == Some(n)
    requires decode(x) == Some((st.name, Some(a))) && decode(y) == Some((st.name, Some(b)))
    requires SanitizeCert(crypto, st.tree.pools, a) == Some(c) && Accepts(crypto, st, c)
    ensures SamePrincipal(crypto, decode, st, x, y) <==>
            LowIsCanonical(crypto.codec, a, b, r, s, n) && !OtherOrder(crypto, st.tree.pools, how, b, n)
  {
    TwinIdentitiesIff(crypto, conf, st, how, a, b, chain, r, s, n);
    SamePrincipalIff(crypto, decode, st, x, y);
  }

  /** An issued certificate that sanitation changes becomes its twin. */
  lemma {:induction false} SanitizedTwin<P(!new)>(crypto: Crypto, how: Issuance<P>, cert: Certificate, parent: Certificate, c: Certificate)
    returns (r: int, s: int)
    requires Faithful(crypto.codec) && IssuesByEcdsa(crypto, how)
    requires cert.ecdsaSigned && crypto.auth.issues(parent, cert)
    requires Sanitized(crypto.codec, cert, parent) == Some(c)
    ensures SignedAs(crypto.codec, cert, parent, r, s, OrderOf(how, parent)) && 0 < s < OrderOf(how, parent)
    ensures c == cert || Twins(crypto.codec, cert, c, r, s, OrderOf(how, parent))
    ensures Sanitized(crypto.codec, c, parent) == Some(c)
  {
    r, s := Unmarshal(crypto.codec, cert.signature).value.0, Unmarshal(crypto.codec, cert.signature).value.1;
    assert Signs(how, parent, cert, r, s);
    SanitationKeepsCertificate(crypto.codec, cert, parent, r, s, OrderOf(how, parent));
    SanitationIdempotentIff(crypto.codec, cert, parent, r, s, OrderOf(how, parent));
  }

  /**
   Sanitizing an identity a second time, as signing identities do, yields it again exactly when the
   sanitized certificate has no chain of another order; otherwise it fails.
   */
  lemma {:induction false} SanitizeCertIdempotentIff<P(!new)>(crypto: Crypto, conf: MspConfig, st: MspState, how: Issuance<P>,
                                                              cert: Certificate, chain: seq<Certificate>, c: Certificate)
    requires Established(crypto, conf) == Some(st) && !cert.isCA && cert.ecdsaSigned
    requires Faithful(crypto.codec) && IssuesByEcdsa(crypto, how)
    requires UniqueChain(crypto.auth, st.tree.pools, cert) == Some(chain)
    requires SanitizeCert(crypto, st.tree.pools, cert) == Some(c)
    ensures |chain| >= 2
    ensures SanitizeCert(crypto, st.tree.pools, c) ==
            if OtherOrder(crypto, st.tree.pools, how, c, OrderOf(how, chain[1])) then None else Some(c)
  {
    IdentityOutsidePools(crypto, conf, st, cert);
    UniqueChainExact(crypto.auth, st.tree.pools, cert, chain);
    ChainIssuer(crypto, st.tree.pools, cert, chain);
    var r, s := SanitizedTwin(crypto, how, cert, chain[1], c);
    if c != cert {
      IdentityOutsidePools(crypto, conf, st, c);
      TwinUniqueChain(crypto, st.tree.pools, how, cert, c, chain, r, s, OrderOf(how, chain[1]));
    }
  }

  // ---------------------------------------------------------------------------------------------
  // Where sanitation panics.

  /** With ECDSA issuance, sanitation panics exactly on a usable root that is no CA or has no ECDSA key. */
  lemma {:induction false} SanitizePanicsIff<P(!new)>(crypto: Crypto, pools: Pools, how: Issuance<P>, cert: Certificate)
    requires ProperPools(pools) && IssuesByEcdsa(crypto, how)
    ensures SanitizePanics(crypto, pools, cert) <==>
            && cert in pools.roots && cert.ecdsaSigned
            && cert.serverAuth && ValidAt(cert, TimeFor(cert))
            && !(cert.isCA && cert.publicKey.EcKey?)
  {
    if cert in pools.roots {
      RootChain(crypto.auth, pools, cert);
    }
    var chain := UniqueChain(crypto.auth, pools, cert);
    if chain.Some? {
      UniqueChainExact(crypto.auth, pools, cert, chain.value);
      if cert !in pools.roots {
        ChainIssuer(crypto, pools, cert, chain.value);
      }
    }
  }

  /** So a pool with such a root makes sanitation of the root panic. */
  lemma {:induction false} RootPanics(crypto: Crypto, c: Certificate)
    requires c.ecdsaSigned && c.serverAuth && ValidAt(c, TimeFor(c)) && !(c.isCA && c.publicKey.EcKey?)
    ensures SanitizePanics(crypto, Pools([c], []), c)
  {
    RootChain(crypto.auth, Pools([c], []), c);
  }

  /** Every loaded certificate is the sanitized form of a configured one. */
  lemma {:induction false} LoadedFrom(crypto: Crypto, pools: Pools, certs: seq<Option<Certificate>>, loaded: seq<Certificate>,
                                      c: Certificate) returns (raw: Certificate)
    requires LoadAll(crypto, pools, certs) == Some(loaded) && c in loaded
    ensures Some(raw) in certs && SanitizeCert(crypto, pools, raw) == Some(c)
  {
    var last := |certs| - 1;
    var rest := LoadAll(crypto, pools, certs[..last]).value;
    raw := certs[last].value;
    if SanitizeCert(crypto, pools, raw) != Some(c) {
      raw := LoadedFrom(crypto, pools, certs[..last], rest, c);
    }
  }

  lemma {:induction false} ParsedIn<T>(items: seq<Option<T>>, parsed: seq<T>, x: T)
    requires AllParsed(items) == Some(parsed)
    ensures Some(x) in items <==> x in parsed
  {
    if items != [] {
      var last := |items| - 1;
      ParsedIn(items[..last], AllParsed(items[..last]).value, x);
      assert items == items[..last] + [items[last]];
    }
  }

  /** An ECDSA-signed root that set-up has loaded has an ECDSA key. */
  lemma {:induction false} RootHasEcdsaKey(crypto: Crypto, conf: MspConfig, s: MspState, c: Certificate)
    requires Established(crypto, conf) == Some(s) && c in s.tree.rootCerts && c.ecdsaSigned
    ensures c.publicKey.EcKey?
  {
    var roots := AllParsed(conf.roots).value;
    var unsanitized := Pools(PoolOf(roots), PoolOf(AllParsed(conf.intermediates).value));
    var raw := LoadedFrom(crypto, unsanitized, conf.roots, s.tree.rootCerts, c);
    ParsedIn(conf.roots, roots, raw);
    assert raw in unsanitized.roots;
    RootChain(crypto.auth, unsanitized, raw);
  }

  /** Once set-up has succeeded, sanitation panics on no certificate. */
  lemma {:induction false} EstablishedNeverPanics<P(!new)>(crypto: Crypto, conf: MspConfig, s: MspState, how: Issuance<P>, cert: Certificate)
    requires Established(crypto, conf) == Some(s) && IssuesByEcdsa(crypto, how)
    ensures !SanitizePanics(crypto, s.tree.pools, cert)
  {
    SetupConfigures(crypto, conf, s);
    SanitizePanicsIff(crypto, s.tree.pools, how, cert);
    if cert in s.tree.rootCerts && cert.ecdsaSigned {
      RootHasEcdsaKey(crypto, conf, s, cert);
      assert ProperAuthority(crypto, s.tree.pools, s.revocationLists, cert);
    }
  }
}
