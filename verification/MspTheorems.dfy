/** What holds in every MSP that set-up has accepted. */
module MspTheorems {
  import opened Prelude
  import opened Certificates
  import opened CertificateChains
  import opened SignaturePolicies
  import opened Msp

  // ---------------------------------------------------------------------------------------------
  // The certification tree.

  /** x stands above c on a validation chain. */
  ghost predicate StandsAbove(auth: Authority, pools: Pools, c: Certificate, x: Certificate) {
    exists chain :: Certifies(auth, pools, c, chain) && x in chain[1..]
  }

  lemma {:induction false} AboveExact(crypto: Crypto, pools: Pools, c: Certificate, x: Certificate)
    requires ProperPools(pools) && UniqueChain(crypto.auth, pools, c).Some?
    ensures x in Above(crypto, pools, c) <==> StandsAbove(crypto.auth, pools, c, x)
  {
    var chain := UniqueChain(crypto.auth, pools, c).value;
    UniqueChainExact(crypto.auth, pools, c, chain);
  }

  /** x stands above some configured intermediate. */
  ghost predicate StrictAncestor(crypto: Crypto, t: CertificationTree, x: Certificate) {
    exists c :: c in t.intermediateCerts && StandsAbove(crypto.auth, t.pools, c, x)
  }

  /** What the stages of set-up leave behind, each in terms of the others. */
  ghost predicate Configured(crypto: Crypto, conf: MspConfig, s: MspState) {
    && s.tree == TreeOver(crypto, s.tree.rootCerts, s.tree.intermediateCerts)
    && ProperTree(crypto, s.tree, s.revocationLists)
    && RegisterUnits(crypto, s.tree, conf.units) == Some(s.ouIdentifiers)
  }

  lemma {:induction false} SetupConfigures(crypto: Crypto, conf: MspConfig, s: MspState)
    requires Established(crypto, conf) == Some(s)
    ensures Configured(crypto, conf, s)
  {
  }

  lemma {:induction false} ParsedAll<T>(items: seq<T>, options: seq<Option<T>>)
    requires |options| == |items| && forall i :: 0 <= i < |items| ==> options[i] == Some(items[i])
    ensures AllParsed(options) == Some(items)
  {
    if items != [] {
      var last := |items| - 1;
      ParsedAll(items[..last], options[..last]);
      assert items == items[..last] + [items[last]];
    }
  }

  /** Certificates without ECDSA signatures are loaded as they are. */
  lemma {:induction false} LoadedAll(crypto: Crypto, pools: Pools, certs: seq<Certificate>, options: seq<Option<Certificate>>)
    requires |options| == |certs| && forall i :: 0 <= i < |certs| ==> options[i] == Some(certs[i]) && !certs[i].ecdsaSigned
    ensures LoadAll(crypto, pools, options) == Some(certs)
  {
    if certs != [] {
      var last := |certs| - 1;
      LoadedAll(crypto, pools, certs[..last], options[..last]);
      assert certs == certs[..last] + [certs[last]];
    }
  }

  /** The internal nodes are exactly the strict ancestors of the configured intermediates. */
  lemma {:induction false} InternalNodesExact(crypto: Crypto, conf: MspConfig, s: MspState, x: Certificate)
    requires Established(crypto, conf) == Some(s)
    ensures x in s.tree.internalNodes <==> StrictAncestor(crypto, s.tree, x)
  {
    SetupConfigures(crypto, conf, s);
    forall c | c in s.tree.intermediateCerts
      ensures x in Above(crypto, s.tree.pools, c) <==> StandsAbove(crypto.auth, s.tree.pools, c, x)
    {
      assert ProperAuthority(crypto, s.tree.pools, s.revocationLists, c);
      AboveExact(crypto, s.tree.pools, c, x);
    }
  }

  /** An accepted identity is certified by a leaf of the certification tree, along its only chain. */
  lemma {:induction false} AcceptedUnderLeaf(crypto: Crypto, conf: MspConfig, s: MspState, cert: Certificate) returns (chain: seq<Certificate>)
    requires Established(crypto, conf) == Some(s)
    requires Accepts(crypto, s, cert)
    ensures !cert.isCA && |chain| >= 2
    ensures Certifies(crypto.auth, s.tree.pools, cert, chain)
    ensures forall other :: Certifies(crypto.auth, s.tree.pools, cert, other) ==> other == chain
    ensures !StrictAncestor(crypto, s.tree, chain[1])
  {
    SetupConfigures(crypto, conf, s);
    chain := CertificationChain(crypto, s.tree, cert).value;
    UniqueChainExact(crypto.auth, s.tree.pools, cert, chain);
    InternalNodesExact(crypto, conf, s, chain[1]);
  }

  // ---------------------------------------------------------------------------------------------
  // The chain of an identity and the chain of its issuer.

  /** Every certificate above the identity is valid at the time at which its issuer is verified. */
  ghost predicate ValidWithIssuer(chain: seq<Certificate>)
    requires |chain| >= 2
  {
    forall c :: c in chain[1..] ==> ValidAt(c, TimeFor(chain[1]))
  }

  /** An identity issued by a root has the two-element chain. */
  lemma {:induction false} IssuedByRoot(crypto: Crypto, pools: Pools, cert: Certificate, chain: seq<Certificate>)
    requires ProperPools(pools)
    requires UniqueChain(crypto.auth, pools, cert) == Some(chain)
    requires |chain| >= 2 && chain[1] in pools.roots
    ensures chain[1..] == [chain[1]]
  {
    UniqueChainExact(crypto.auth, pools, cert, chain);
    var short := [cert, chain[1]];
    assert CanExtend(crypto.auth, chain[1], chain[..1], TimeFor(cert)) by {
      if |chain| > 2 {
        assert IntermediateAt(crypto.auth, pools, TimeFor(cert), chain, 1);
      }
    }
    assert short[..1] == chain[..1];
    assert UsageOk(short) by {
      assert forall c :: c in short ==> c == chain[0] || c == chain[1];
    }
    assert Certifies(crypto.auth, pools, cert, short);
  }

  /** A position of the shortened path is as good as it was in the full one, if it is valid at the new time. */
  lemma {:induction false} ShortenedStep(crypto: Crypto, pools: Pools, now: int, chain: seq<Certificate>, k: nat, now': int)
    requires 1 <= k && k + 1 < |chain|
    requires IntermediateAt(crypto.auth, pools, now, chain, k + 1) && ValidAt(chain[k + 1], now')
    ensures IntermediateAt(crypto.auth, pools, now', chain[1..], k)
  {
    var up := chain[1..];
    assert up[k] == chain[k + 1] && up[..k][k - 1] == chain[..k + 1][k];
    assert forall x :: x in up[..k] ==> x in chain[..k + 1];
  }

  /** Dropping the identity from its chain leaves a chain of its issuer, when the dates allow it. */
  lemma {:induction false} IssuerChain(crypto: Crypto, pools: Pools, cert: Certificate, chain: seq<Certificate>)
    requires Certifies(crypto.auth, pools, cert, chain)
    requires |chain| >= 2 && chain[1] !in pools.roots
    requires ValidWithIssuer(chain)
    ensures |chain| >= 3 && Certifies(crypto.auth, pools, chain[1], chain[1..])
  {
    var up, now := chain[1..], TimeFor(chain[1]);
    forall k | 1 <= k < |up| - 1 ensures IntermediateAt(crypto.auth, pools, now, up, k) {
      assert IntermediateAt(crypto.auth, pools, TimeFor(cert), chain, k + 1);
      assert up[k] in chain[1..];
      ShortenedStep(crypto, pools, TimeFor(cert), chain, k, now);
    }
    var last := |up| - 1;
    assert up[last] == chain[last + 1] && up[..last][last - 1] == chain[..last + 1][last];
    assert up[last] in chain[1..] && up[0] in chain[1..];
    assert UsageOk(up);
  }

  /** And only then. */
  lemma {:induction false} ChainIsValidNow(crypto: Crypto, pools: Pools, c: Certificate, chain: seq<Certificate>)
    requires Certifies(crypto.auth, pools, c, chain)
    ensures forall x :: x in chain ==> ValidAt(x, TimeFor(c))
  {
    forall k | 0 <= k < |chain| ensures ValidAt(chain[k], TimeFor(c)) {
      if 0 < k < |chain| - 1 {
        assert IntermediateAt(crypto.auth, pools, TimeFor(c), chain, k);
      }
    }
  }

  /** The issuer's own chain is the rest of the identity's, exactly when the dates of the latter allow it. */
  lemma {:induction false} IssuerChainIff(crypto: Crypto, pools: Pools, cert: Certificate, chain: seq<Certificate>)
    requires ProperPools(pools)
    requires UniqueChain(crypto.auth, pools, cert) == Some(chain)
    requires |chain| >= 2 && chain[1] !in pools.roots && UniqueChain(crypto.auth, pools, chain[1]).Some?
    ensures |chain| >= 3
    ensures UniqueChain(crypto.auth, pools, chain[1]) == Some(chain[1..]) <==> ValidWithIssuer(chain)
  {
    UniqueChainExact(crypto.auth, pools, cert, chain);
    var own := UniqueChain(crypto.auth, pools, chain[1]).value;
    UniqueChainExact(crypto.auth, pools, chain[1], own);
    if ValidWithIssuer(chain) {
      IssuerChain(crypto, pools, cert, chain);
    }
    if own == chain[1..] {
      ChainIsValidNow(crypto, pools, chain[1], own);
    }
  }

  // ---------------------------------------------------------------------------------------------
  // Organizational units.

  /** A configured unit with this name and certifiers identifier. */
  ghost predicate ConfiguredUnit(certifier: UnitConfig -> Option<Bytes>, units: seq<UnitConfig>, ou: string, id: Bytes) {
    exists k :: 0 <= k < |units| && units[k].ou == ou && certifier(units[k]) == Some(id)
  }

  lemma {:induction false} AddIdentifierExact(m: map<string, seq<Bytes>>, x: string, y: Bytes, ou: string, id: Bytes)
    ensures Registered(AddIdentifier(m, x, y), ou, id) <==> Registered(m, ou, id) || (ou == x && id == y)
    ensures AddIdentifier(m, x, y) != map[]
  {
    assert x in AddIdentifier(m, x, y);
  }

  /** The register holds exactly the identifiers of the configured units. */
  lemma {:induction false} RegisteredExact(certifier: UnitConfig -> Option<Bytes>, units: seq<UnitConfig>,
                                           m: map<string, seq<Bytes>>, ou: string, id: Bytes)
    requires Register(certifier, units) == Some(m)
    ensures Registered(m, ou, id) <==> ConfiguredUnit(certifier, units, ou, id)
    ensures m == map[] <==> units == []
  {
    if units != [] {
      var init, last := units[..|units| - 1], units[|units| - 1];
      var m', y := Register(certifier, init).value, certifier(last).value;
      RegisteredExact(certifier, init, m', ou, id);
      AddIdentifierExact(m', last.ou, y, ou, id);
      if ConfiguredUnit(certifier, init, ou, id) {
        var k :| 0 <= k < |init| && init[k].ou == ou && certifier(init[k]) == Some(id);
        assert units[k] == init[k];
      }
      if k :| 0 <= k < |units| && units[k].ou == ou && certifier(units[k]) == Some(id) {
        assert k < |init| ==> init[k] == units[k];
      }
    }
  }

  /** The configured unit names the identity's direct issuer, and the dates of the chain agree with it. */
  ghost predicate CertifiesUnit(crypto: Crypto, s: MspState, chain: seq<Certificate>, u: UnitConfig)
    requires |chain| >= 2
  {
    && u.certificate.Some?
    && SanitizeCert(crypto, s.tree.pools, u.certificate.value) == Some(chain[1])
    && (chain[1] in s.tree.rootCerts || ValidWithIssuer(chain))
  }

  /** The issuer of an identity is a proper authority with its own unique chain. */
  lemma {:induction false} IssuerIsAuthority(crypto: Crypto, conf: MspConfig, s: MspState, cert: Certificate, chain: seq<Certificate>)
    requires Configured(crypto, conf, s)
    requires CertificationChain(crypto, s.tree, cert) == Some(chain)
    ensures UniqueChain(crypto.auth, s.tree.pools, chain[1]).Some?
    ensures chain[1] in s.tree.rootCerts || chain[1] in s.tree.intermediateCerts
  {
    UniqueChainExact(crypto.auth, s.tree.pools, cert, chain);
    if |chain| > 2 {
      assert IntermediateAt(crypto.auth, s.tree.pools, TimeFor(cert), chain, 1);
    }
    assert ProperAuthority(crypto, s.tree.pools, s.revocationLists, chain[1]);
  }

  /** Then the identifier registered for the unit is the one computed for the identity. */
  lemma {:induction false} CertifierAgrees(crypto: Crypto, conf: MspConfig, s: MspState, cert: Certificate, chain: seq<Certificate>, u: UnitConfig)
    requires Configured(crypto, conf, s)
    requires CertificationChain(crypto, s.tree, cert) == Some(chain)
    requires CertifiesUnit(crypto, s, chain, u)
    ensures CertifierOf(crypto, s.tree, u) == Some(crypto.auth.digest(chain[1..]))
  {
    IssuerIsAuthority(crypto, conf, s, cert, chain);
    if chain[1] in s.tree.rootCerts {
      IssuedByRoot(crypto, s.tree.pools, cert, chain);
    } else {
      IssuerChainIff(crypto, s.tree.pools, cert, chain);
    }
  }

  /** Conversely, only such a unit has the identity's identifier, as long as hashes do not collide. */
  lemma {:induction false} CertifierAgreesOnly(crypto: Crypto, conf: MspConfig, s: MspState, cert: Certificate, chain: seq<Certificate>, u: UnitConfig)
    requires Configured(crypto, conf, s)
    requires CertificationChain(crypto, s.tree, cert) == Some(chain)
    requires forall a, b :: crypto.auth.digest(a) == crypto.auth.digest(b) ==> a == b
    requires CertifierOf(crypto, s.tree, u) == Some(crypto.auth.digest(chain[1..]))
    ensures CertifiesUnit(crypto, s, chain, u)
  {
    IssuerIsAuthority(crypto, conf, s, cert, chain);
    var c := SanitizeCert(crypto, s.tree.pools, u.certificate.value).value;
    if c in s.tree.rootCerts {
      assert [c] == chain[1..];
    } else {
      var own := UniqueChain(crypto.auth, s.tree.pools, c).value;
      assert own == chain[1..];
      UniqueChainExact(crypto.auth, s.tree.pools, c, own);
      assert c == chain[1];
      IssuerChainIff(crypto, s.tree.pools, cert, chain);
    }
  }

  /** An identity that carries a unit configured with its direct issuer passes the unit check. */
  lemma {:induction false} UnitAgreement(crypto: Crypto, conf: MspConfig, s: MspState, cert: Certificate, chain: seq<Certificate>, k: nat)
    requires Established(crypto, conf) == Some(s)
    requires CertificationChain(crypto, s.tree, cert) == Some(chain)
    requires k < |conf.units| && conf.units[k].ou in cert.units
    requires CertifiesUnit(crypto, s, chain, conf.units[k])
    ensures UnitsAccepted(crypto, s, cert)
  {
    SetupConfigures(crypto, conf, s);
    CertifierAgrees(crypto, conf, s, cert, chain, conf.units[k]);
    RegisteredExact(u => CertifierOf(crypto, s.tree, u), conf.units, s.ouIdentifiers, conf.units[k].ou, crypto.auth.digest(chain[1..]));
    assert (conf.units[k].ou, crypto.auth.digest(chain[1..])) in OrganizationalUnits(crypto, s.tree, cert);
  }

  /** Exactly those pass, when any unit is configured and hashes do not collide. */
  lemma {:induction false} UnitsAcceptedIff(crypto: Crypto, conf: MspConfig, s: MspState, cert: Certificate, chain: seq<Certificate>)
    requires Established(crypto, conf) == Some(s)
    requires CertificationChain(crypto, s.tree, cert) == Some(chain)
    requires forall a, b :: crypto.auth.digest(a) == crypto.auth.digest(b) ==> a == b
    ensures UnitsAccepted(crypto, s, cert) <==>
            conf.units == [] ||
            exists k :: 0 <= k < |conf.units| && conf.units[k].ou in cert.units &&
                        CertifiesUnit(crypto, s, chain, conf.units[k])
  {
    SetupConfigures(crypto, conf, s);
    var id := crypto.auth.digest(chain[1..]);
    RegisteredExact(u => CertifierOf(crypto, s.tree, u), conf.units, s.ouIdentifiers, "", []);
    if UnitsAccepted(crypto, s, cert) && conf.units != [] {
      var u :| u in OrganizationalUnits(crypto, s.tree, cert) && Registered(s.ouIdentifiers, u.0, u.1);
      RegisteredExact(u => CertifierOf(crypto, s.tree, u), conf.units, s.ouIdentifiers, u.0, id);
      var k :| 0 <= k < |conf.units| && conf.units[k].ou == u.0 && CertifierOf(crypto, s.tree, conf.units[k]) == Some(id);
      CertifierAgreesOnly(crypto, conf, s, cert, chain, conf.units[k]);
    }
    if k :| 0 <= k < |conf.units| && conf.units[k].ou in cert.units && CertifiesUnit(crypto, s, chain, conf.units[k]) {
      UnitAgreement(crypto, conf, s, cert, chain, k);
    }
  }

  /** Where units are configured, an identity under an intermediate whose chain is not valid at the issuer's time is rejected. */
  lemma {:induction false} DatesReject(crypto: Crypto, conf: MspConfig, s: MspState, cert: Certificate, chain: seq<Certificate>)
    requires Established(crypto, conf) == Some(s) && conf.units != []
    requires CertificationChain(crypto, s.tree, cert) == Some(chain)
    requires chain[1] !in s.tree.rootCerts && !ValidWithIssuer(chain)
    requires forall a, b :: crypto.auth.digest(a) == crypto.auth.digest(b) ==> a == b
    ensures !Accepts(crypto, s, cert)
  {
    UnitsAcceptedIff(crypto, conf, s, cert, chain);
  }

  // ---------------------------------------------------------------------------------------------
  // Principals.

  /** Whatever principal an identity satisfies, it is a valid member; in particular every administrator is. */
  lemma {:induction false} PrincipalImpliesMember(crypto: Crypto, decode: Decoder, conf: MspConfig, s: MspState, cert: Certificate, p: Principal)
    requires Established(crypto, conf) == Some(s)
    requires SatisfiesPrincipal(crypto, decode, s, cert, p)
    ensures Accepts(crypto, s, cert)
  {
  }
}
