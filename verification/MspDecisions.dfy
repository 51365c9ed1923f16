/**
 What a provider decides, in terms of its configuration: when set-up succeeds and what it leaves
 behind, which identities are valid, who satisfies a principal. Chains are described by Certifies; the
 functions that the provider computes with do not occur on the describing side.
 */
module MspDecisions {
  import opened Prelude
  import opened Certificates
  import opened CertificateChains
  import opened Ecdsa
  import opened Sanitation
  import opened SignaturePolicies
  import opened Msp
  import opened MspTheorems

  // ---------------------------------------------------------------------------------------------
  // Sanitation.

  /** The only chain of a certificate. */
  ghost predicate OnlyChain(auth: Authority, pools: Pools, cert: Certificate, chain: seq<Certificate>) {
    Certifies(auth, pools, cert, chain) && forall other :: Certifies(auth, pools, cert, other) ==> other == chain
  }

  /** The signature that replaces `sig`, made with a key of order n: itself if it is low, else with n - s. */
  ghost predicate Lowered(codec: Codec, n: nat, sig: Bytes, low: Bytes) {
    && codec.unmarshal(sig).Some?
    && var (r, s) := codec.unmarshal(sig).value;
       r >= 1 && s >= 1 && (if 2 * s <= n then low == sig else low == codec.marshal(r, n - s))
  }

  /**
   The sanitized form of a certificate: itself, unless it is signed by ECDSA; then the same certificate
   with a low signature, under the key of its issuer on the only chain, or its own if it is a CA alone
   on that chain.
   */
  lemma {:induction false} SanitizeCertExact(crypto: Crypto, pools: Pools, cert: Certificate, c: Certificate)
    requires ProperPools(pools)
    ensures SanitizeCert(crypto, pools, cert) == Some(c) <==>
            && SameButSignature(c, cert)
            && if !cert.ecdsaSigned then c == cert
               else exists chain :: OnlyChain(crypto.auth, pools, cert, chain) && (|chain| >= 2 || cert.isCA) &&
                      var key := (if |chain| >= 2 then chain[1] else cert).publicKey;
                      key.EcKey? && key.curve != OtherCurve && Lowered(crypto.codec, Order(key.curve).value, cert.signature, c.signature)
  {
    forall chain ensures UniqueChain(crypto.auth, pools, cert) == Some(chain) <==> OnlyChain(crypto.auth, pools, cert, chain) {
      UniqueChainExact(crypto.auth, pools, cert, chain);
    }
    if UniqueChain(crypto.auth, pools, cert).Some? {
      var chain := UniqueChain(crypto.auth, pools, cert).value;
      assert OnlyChain(crypto.auth, pools, cert, chain) && chain != [];
      SanitizedExact(crypto.codec, cert, if |chain| >= 2 then chain[1] else cert, c);
    }
  }

  lemma {:induction false} SanitizedExact(codec: Codec, cert: Certificate, parent: Certificate, c: Certificate)
    ensures Sanitized(codec, cert, parent) == Some(c) <==>
            && SameButSignature(c, cert) && parent.publicKey.EcKey? && parent.publicKey.curve != OtherCurve
            && Lowered(codec, Order(parent.publicKey.curve).value, cert.signature, c.signature)
  {
  }

  // ---------------------------------------------------------------------------------------------
  // Configured items, by position.

  lemma {:induction false} AllParsedIff<T>(items: seq<Option<T>>, parsed: seq<T>)
    ensures AllParsed(items) == Some(parsed) <==>
            |parsed| == |items| && forall i :: 0 <= i < |items| ==> items[i] == Some(parsed[i])
  {
    if items != [] {
      var last := |items| - 1;
      if AllParsed(items[..last]).Some? {
        AllParsedIff(items[..last], AllParsed(items[..last]).value);
      }
      if |parsed| == |items| {
        AllParsedIff(items[..last], parsed[..last]);
        assert parsed == parsed[..last] + [parsed[last]];
      }
    }
  }

  /** The loaded certificate i is the sanitized form of configured certificate i. */
  ghost predicate LoadedAs(crypto: Crypto, pools: Pools, certs: seq<Option<Certificate>>, loaded: seq<Certificate>) {
    && |loaded| == |certs|
    && forall i :: 0 <= i < |certs| ==> certs[i].Some? && SanitizeCert(crypto, pools, certs[i].value) == Some(loaded[i])
  }

  lemma {:induction false} LoadedAsLast(crypto: Crypto, pools: Pools, certs: seq<Option<Certificate>>, loaded: seq<Certificate>)
    requires certs != [] && |loaded| == |certs|
    ensures var last := |certs| - 1;
            LoadedAs(crypto, pools, certs, loaded) <==>
            && LoadedAs(crypto, pools, certs[..last], loaded[..last])
            && certs[last].Some? && SanitizeCert(crypto, pools, certs[last].value) == Some(loaded[last])
  {
    var last := |certs| - 1;
    assert forall i :: 0 <= i < last ==> certs[..last][i] == certs[i] && loaded[..last][i] == loaded[i];
  }

  lemma {:induction false} LoadAllIff(crypto: Crypto, pools: Pools, certs: seq<Option<Certificate>>, loaded: seq<Certificate>)
    ensures LoadAll(crypto, pools, certs) == Some(loaded) <==> LoadedAs(crypto, pools, certs, loaded)
    decreases |certs|
  {
    if certs != [] {
      var last := |certs| - 1;
      var init := LoadAll(crypto, pools, certs[..last]);
      if init.Some? {
        LoadAllIff(crypto, pools, certs[..last], init.value);
      }
      if |loaded| == |certs| {
        LoadedAsLast(crypto, pools, certs, loaded);
        LoadAllIff(crypto, pools, certs[..last], loaded[..last]);
        assert loaded == loaded[..last] + [loaded[last]];
      }
    }
  }

  // ---------------------------------------------------------------------------------------------
  // Revocation.

  /** The lists can be told apart, and none of the issuer's lists has the serial number. */
  ghost predicate Unrevoked(auth: Authority, lists: seq<Option<RevocationList>>, serial: int, issuer: Certificate) {
    && issuer.ski.Some?
    && (forall i :: 0 <= i < |lists| ==> lists[i].Some? && lists[i].value.aki.Some?)
    && (forall i :: 0 <= i < |lists| && lists[i].value.aki == issuer.ski && auth.signsList(issuer, lists[i].value) ==>
          serial !in lists[i].value.revoked)
  }

  ghost predicate ParsedAs<T(!new)>(items: seq<Option<T>>, parsed: seq<T>) {
    |parsed| == |items| && forall i :: 0 <= i < |items| ==> items[i] == Some(parsed[i])
  }

  lemma {:induction false} UnrevokedIff(auth: Authority, lists: seq<Option<RevocationList>>, parsed: seq<RevocationList>,
                                        cert: Certificate, issuer: Certificate)
    requires ParsedAs(lists, parsed)
    ensures NotRevoked(auth, parsed, cert, issuer) <==> Unrevoked(auth, lists, cert.serial, issuer)
  {
    if NotRevoked(auth, parsed, cert, issuer) {
      forall i | 0 <= i < |lists|
        ensures lists[i].Some? && lists[i].value.aki.Some?
        ensures lists[i].value.aki == issuer.ski && auth.signsList(issuer, lists[i].value) ==> cert.serial !in lists[i].value.revoked
      {
        assert parsed[i] in parsed;
      }
    }
    if Unrevoked(auth, lists, cert.serial, issuer) {
      forall l | l in parsed
        ensures l.aki.Some?
        ensures l.aki == issuer.ski && auth.signsList(issuer, l) ==> cert.serial !in l.revoked
      {
        var i :| 0 <= i < |parsed| && parsed[i] == l;
        assert lists[i] == Some(l);
      }
    }
  }

  // ---------------------------------------------------------------------------------------------
  // Set-up.

  /** A CA certificate with a key identifier and one chain, not revoked by the issuer there. */
  ghost predicate SoundAuthority(auth: Authority, pools: Pools, lists: seq<Option<RevocationList>>, c: Certificate) {
    && c.isCA && c.ski.Some?
    && exists chain :: OnlyChain(auth, pools, c, chain) && (|chain| >= 2 ==> Unrevoked(auth, lists, c.serial, chain[1]))
  }

  /** The authority that a configured unit is certified by: a root, or an intermediate that certifies no other. */
  ghost predicate UnitCertifier(crypto: Crypto, s: MspState, u: UnitConfig, c: Certificate) {
    && u.certificate.Some?
    && SanitizeCert(crypto, s.tree.pools, u.certificate.value) == Some(c)
    && (c in s.tree.rootCerts || (c in s.tree.intermediateCerts && !StrictAncestor(crypto, s.tree, c)))
  }

  ghost predicate HasCertifier(crypto: Crypto, s: MspState, u: UnitConfig) {
    exists c :: UnitCertifier(crypto, s, u, c)
  }

  /** The identifier registered for it: the hash of its chain, of itself for a root. */
  ghost predicate UnitIdentifier(crypto: Crypto, s: MspState, u: UnitConfig, id: Bytes) {
    exists c, chain :: UnitCertifier(crypto, s, u, c) && OnlyChain(crypto.auth, s.tree.pools, c, chain) && id == crypto.auth.digest(chain)
  }

  /** The tree: sanitized authorities, by position, the pools made of them, and their strict ancestors. */
  ghost predicate DescribesTree(crypto: Crypto, conf: MspConfig, roots: seq<Certificate>, intermediates: seq<Certificate>, s: MspState) {
    && conf.roots != [] && ParsedAs(conf.roots, roots) && ParsedAs(conf.intermediates, intermediates)
    && LoadedAs(crypto, Pools(PoolOf(roots), PoolOf(intermediates)), conf.roots, s.tree.rootCerts)
    && LoadedAs(crypto, Pools(PoolOf(roots), PoolOf(intermediates)), conf.intermediates, s.tree.intermediateCerts)
    && s.tree.pools == Pools(PoolOf(s.tree.rootCerts), PoolOf(s.tree.intermediateCerts))
    && (forall x :: x in s.tree.internalNodes <==> StrictAncestor(crypto, s.tree, x))
    && (forall c :: c in s.tree.rootCerts + s.tree.intermediateCerts ==>
          SoundAuthority(crypto.auth, s.tree.pools, conf.revocationLists, c))
  }

  /** Some configured unit of that name has that identifier. */
  ghost predicate ConfiguredFor(crypto: Crypto, conf: MspConfig, s: MspState, ou: string, id: Bytes) {
    exists k :: 0 <= k < |conf.units| && conf.units[k].ou == ou && UnitIdentifier(crypto, s, conf.units[k], id)
  }

  /** The register: exactly the identifiers of the configured units, each once. */
  ghost predicate DescribesUnits(crypto: Crypto, conf: MspConfig, s: MspState) {
    && (forall k :: 0 <= k < |conf.units| ==> HasCertifier(crypto, s, conf.units[k]))
    && (s.ouIdentifiers == map[] <==> conf.units == [])
    && (forall ou, id :: Registered(s.ouIdentifiers, ou, id) <==> ConfiguredFor(crypto, conf, s, ou, id))
    && (forall ou :: ou in s.ouIdentifiers ==> Distinct(s.ouIdentifiers[ou]))
  }

  /** The state that belongs to a configuration. */
  ghost predicate Describes(crypto: Crypto, conf: MspConfig, roots: seq<Certificate>, intermediates: seq<Certificate>, s: MspState) {
    && s.name == conf.name
    && DescribesTree(crypto, conf, roots, intermediates, s)
    && LoadedAs(crypto, s.tree.pools, conf.admins, s.admins)
    && ParsedAs(conf.revocationLists, s.revocationLists)
    && DescribesUnits(crypto, conf, s)
    && (forall a :: a in s.admins ==> Accepts(crypto, s, a))
  }

  lemma {:induction false} SoundIff(crypto: Crypto, pools: Pools, lists: seq<Option<RevocationList>>, parsed: seq<RevocationList>, c: Certificate)
    requires ProperPools(pools) && ParsedAs(lists, parsed)
    ensures ProperAuthority(crypto, pools, parsed, c) <==> SoundAuthority(crypto.auth, pools, lists, c)
  {
    forall chain
      ensures UniqueChain(crypto.auth, pools, c) == Some(chain) <==> OnlyChain(crypto.auth, pools, c, chain)
      ensures |chain| >= 2 ==> (NotRevoked(crypto.auth, parsed, c, chain[1]) <==> Unrevoked(crypto.auth, lists, c.serial, chain[1]))
    {
      UniqueChainExact(crypto.auth, pools, c, chain);
      if |chain| >= 2 {
        UnrevokedIff(crypto.auth, lists, parsed, c, chain[1]);
      }
    }
    if ProperAuthority(crypto, pools, parsed, c) {
      assert OnlyChain(crypto.auth, pools, c, UniqueChain(crypto.auth, pools, c).value);
    }
  }

  /** Where every intermediate has one chain, the marked nodes are the strict ancestors. */
  lemma {:induction false} AncestorsExact(crypto: Crypto, t: CertificationTree, x: Certificate)
    requires ProperPools(t.pools)
    requires forall c :: c in t.intermediateCerts ==> UniqueChain(crypto.auth, t.pools, c).Some?
    ensures x in Ancestors(crypto, t.pools, t.intermediateCerts) <==> StrictAncestor(crypto, t, x)
  {
    forall c | c in t.intermediateCerts
      ensures x in Above(crypto, t.pools, c) <==> StandsAbove(crypto.auth, t.pools, c, x)
    {
      AboveExact(crypto, t.pools, c, x);
    }
  }

  /** The identifier that set-up computes for a unit. */
  lemma {:induction false} CertifierIff(crypto: Crypto, s: MspState, u: UnitConfig, id: Bytes)
    requires ProperPools(s.tree.pools)
    requires forall c :: c in s.tree.pools.roots <==> c in s.tree.rootCerts
    requires forall c :: c in s.tree.rootCerts + s.tree.intermediateCerts ==> UniqueChain(crypto.auth, s.tree.pools, c).Some?
    requires forall x :: x in s.tree.internalNodes <==> StrictAncestor(crypto, s.tree, x)
    ensures CertifierOf(crypto, s.tree, u) == Some(id) <==> UnitIdentifier(crypto, s, u, id)
    ensures CertifierOf(crypto, s.tree, u).Some? <==> HasCertifier(crypto, s, u)
  {
    var auth, pools := crypto.auth, s.tree.pools;
    if u.certificate.Some? && SanitizeCert(crypto, pools, u.certificate.value).Some? {
      var c := SanitizeCert(crypto, pools, u.certificate.value).value;
      if c in s.tree.rootCerts + s.tree.intermediateCerts {
        var chain := UniqueChain(auth, pools, c).value;
        UniqueChainExact(auth, pools, c, chain);
        assert OnlyChain(auth, pools, c, chain) && chain[0] == c;
        assert c in pools.roots ==> chain == [c];
        assert UnitCertifier(crypto, s, u, c) <==> c in s.tree.rootCerts || !StrictAncestor(crypto, s.tree, c);
      }
    }
  }

  lemma {:induction false} RegisterOnce(certifier: UnitConfig -> Option<Bytes>, units: seq<UnitConfig>)
    ensures Register(certifier, units).Some? <==> forall k :: 0 <= k < |units| ==> certifier(units[k]).Some?
    ensures Register(certifier, units).Some? ==>
              forall ou :: ou in Register(certifier, units).value ==> Distinct(Register(certifier, units).value[ou])
  {
    if units != [] {
      var last := |units| - 1;
      RegisterOnce(certifier, units[..last]);
      assert forall k :: 0 <= k < last ==> units[..last][k] == units[k];
    }
  }

  /** What every part of the description needs of the tree. */
  ghost predicate TreeFacts(crypto: Crypto, s: MspState) {
    && ProperPools(s.tree.pools)
    && (forall c :: c in s.tree.pools.roots <==> c in s.tree.rootCerts)
    && (forall c :: c in s.tree.rootCerts + s.tree.intermediateCerts ==> UniqueChain(crypto.auth, s.tree.pools, c).Some?)
    && (forall x :: x in s.tree.internalNodes <==> StrictAncestor(crypto, s.tree, x))
  }

  lemma {:induction false} SetupTree(crypto: Crypto, conf: MspConfig, s: MspState) returns (roots: seq<Certificate>, intermediates: seq<Certificate>)
    requires Established(crypto, conf) == Some(s)
    ensures DescribesTree(crypto, conf, roots, intermediates, s)
    ensures ParsedAs(conf.revocationLists, s.revocationLists) && LoadedAs(crypto, s.tree.pools, conf.admins, s.admins)
    ensures TreeFacts(crypto, s)
  {
    SetupConfigures(crypto, conf, s);
    roots, intermediates := AllParsed(conf.roots).value, AllParsed(conf.intermediates).value;
    AllParsedIff(conf.roots, roots);
    AllParsedIff(conf.intermediates, intermediates);
    AllParsedIff(conf.revocationLists, s.revocationLists);
    var raw := Pools(PoolOf(roots), PoolOf(intermediates));
    LoadAllIff(crypto, raw, conf.roots, s.tree.rootCerts);
    LoadAllIff(crypto, raw, conf.intermediates, s.tree.intermediateCerts);
    LoadAllIff(crypto, s.tree.pools, conf.admins, s.admins);
    forall x { InternalNodesExact(crypto, conf, s, x); }
    forall c | c in s.tree.rootCerts + s.tree.intermediateCerts
      ensures SoundAuthority(crypto.auth, s.tree.pools, conf.revocationLists, c) && UniqueChain(crypto.auth, s.tree.pools, c).Some?
    {
      assert ProperAuthority(crypto, s.tree.pools, s.revocationLists, c);
      SoundIff(crypto, s.tree.pools, conf.revocationLists, s.revocationLists, c);
    }
  }

  lemma {:induction false} RegistersExactly(crypto: Crypto, conf: MspConfig, s: MspState, m: map<string, seq<Bytes>>, ou: string, id: Bytes)
    requires RegisterUnits(crypto, s.tree, conf.units) == Some(m) && TreeFacts(crypto, s)
    ensures Registered(m, ou, id) <==> ConfiguredFor(crypto, conf, s, ou, id)
    ensures m == map[] <==> conf.units == []
  {
    var certifier := u => CertifierOf(crypto, s.tree, u);
    RegisteredExact(certifier, conf.units, m, ou, id);
    forall k | 0 <= k < |conf.units| ensures certifier(conf.units[k]) == Some(id) <==> UnitIdentifier(crypto, s, conf.units[k], id) {
      CertifierIff(crypto, s, conf.units[k], id);
    }
  }

  /** Set-up can register the units exactly if each has a certifier, and registers nothing twice. */
  lemma {:induction false} RegistersOnce(crypto: Crypto, conf: MspConfig, s: MspState)
    requires TreeFacts(crypto, s)
    ensures RegisterUnits(crypto, s.tree, conf.units).Some? <==>
            forall k :: 0 <= k < |conf.units| ==> HasCertifier(crypto, s, conf.units[k])
    ensures RegisterUnits(crypto, s.tree, conf.units).Some? ==>
              var m := RegisterUnits(crypto, s.tree, conf.units).value; forall ou :: ou in m ==> Distinct(m[ou])
  {
    var certifier := u => CertifierOf(crypto, s.tree, u);
    RegisterOnce(certifier, conf.units);
    forall k | 0 <= k < |conf.units|
      ensures certifier(conf.units[k]).Some? <==> HasCertifier(crypto, s, conf.units[k])
    {
      CertifierIff(crypto, s, conf.units[k], []);
    }
  }

  lemma {:induction false} SetupUnits(crypto: Crypto, conf: MspConfig, s: MspState)
    requires RegisterUnits(crypto, s.tree, conf.units) == Some(s.ouIdentifiers) && TreeFacts(crypto, s)
    ensures DescribesUnits(crypto, conf, s)
  {
    RegistersOnce(crypto, conf, s);
    RegistersExactly(crypto, conf, s, s.ouIdentifiers, "", []);
    forall ou, id ensures Registered(s.ouIdentifiers, ou, id) <==> ConfiguredFor(crypto, conf, s, ou, id) {
      RegistersExactly(crypto, conf, s, s.ouIdentifiers, ou, id);
    }
  }

  /** A successful set-up leaves behind the state that belongs to the configuration. */
  lemma {:induction false} SetupDescribes(crypto: Crypto, conf: MspConfig, s: MspState) returns (roots: seq<Certificate>, intermediates: seq<Certificate>)
    requires Established(crypto, conf) == Some(s)
    ensures Describes(crypto, conf, roots, intermediates, s)
  {
    SetupEnds(crypto, conf, s);
    SetupConfigures(crypto, conf, s);
    roots, intermediates := SetupTree(crypto, conf, s);
    SetupUnits(crypto, conf, s);
  }

  lemma {:induction false} SetupEnds(crypto: Crypto, conf: MspConfig, s: MspState)
    requires Established(crypto, conf) == Some(s)
    ensures s.name == conf.name && forall a :: a in s.admins ==> Accepts(crypto, s, a)
  {
  }

  /** Two states that differ in the register only, and register the same, accept the same. */
  lemma {:induction false} SameRegister(crypto: Crypto, s: MspState, m: map<string, seq<Bytes>>, cert: Certificate)
    requires m == map[] <==> s.ouIdentifiers == map[]
    requires forall ou, id :: Registered(m, ou, id) <==> Registered(s.ouIdentifiers, ou, id)
    requires Accepts(crypto, s, cert)
    ensures Accepts(crypto, s.(ouIdentifiers := m), cert)
  {
  }

  lemma {:induction false} DescribedTree(crypto: Crypto, conf: MspConfig, roots: seq<Certificate>, intermediates: seq<Certificate>, s: MspState)
    requires DescribesTree(crypto, conf, roots, intermediates, s) && ParsedAs(conf.revocationLists, s.revocationLists)
    ensures LoadAuthorities(crypto, conf) == Some((s.tree.rootCerts, s.tree.intermediateCerts))
    ensures s.tree == TreeOver(crypto, s.tree.rootCerts, s.tree.intermediateCerts)
    ensures ProperTree(crypto, s.tree, s.revocationLists) && TreeFacts(crypto, s)
  {
    AllParsedIff(conf.roots, roots);
    AllParsedIff(conf.intermediates, intermediates);
    var raw := Pools(PoolOf(roots), PoolOf(intermediates));
    LoadAllIff(crypto, raw, conf.roots, s.tree.rootCerts);
    LoadAllIff(crypto, raw, conf.intermediates, s.tree.intermediateCerts);
    forall c | c in s.tree.rootCerts + s.tree.intermediateCerts
      ensures ProperAuthority(crypto, s.tree.pools, s.revocationLists, c)
    {
      SoundIff(crypto, s.tree.pools, conf.revocationLists, s.revocationLists, c);
    }
    forall c | c in s.tree.intermediateCerts ensures UniqueChain(crypto.auth, s.tree.pools, c).Some? {
      assert c in s.tree.rootCerts + s.tree.intermediateCerts;
    }
    forall x ensures x in Ancestors(crypto, s.tree.pools, s.tree.intermediateCerts) <==> x in s.tree.internalNodes {
      AncestorsExact(crypto, s.tree, x);
    }
  }

  lemma {:induction false} DescribedUnits(crypto: Crypto, conf: MspConfig, s: MspState) returns (m: map<string, seq<Bytes>>)
    requires DescribesUnits(crypto, conf, s) && TreeFacts(crypto, s)
    ensures RegisterUnits(crypto, s.tree, conf.units) == Some(m)
    ensures m == map[] <==> s.ouIdentifiers == map[]
    ensures forall ou, id :: Registered(m, ou, id) <==> Registered(s.ouIdentifiers, ou, id)
  {
    RegistersOnce(crypto, conf, s);
    m := RegisterUnits(crypto, s.tree, conf.units).value;
    RegistersExactly(crypto, conf, s, m, "", []);
    forall ou, id ensures Registered(m, ou, id) <==> Registered(s.ouIdentifiers, ou, id) {
      RegistersExactly(crypto, conf, s, m, ou, id);
    }
  }

  /** And set-up succeeds wherever there is such a state. */
  lemma {:induction false} DescribedSetsUp(crypto: Crypto, conf: MspConfig, roots: seq<Certificate>, intermediates: seq<Certificate>, s: MspState)
    requires Describes(crypto, conf, roots, intermediates, s)
    ensures Established(crypto, conf).Some?
  {
    DescribedTree(crypto, conf, roots, intermediates, s);
    LoadAllIff(crypto, s.tree.pools, conf.admins, s.admins);
    AllParsedIff(conf.revocationLists, s.revocationLists);
    var m := DescribedUnits(crypto, conf, s);
    assert Configure(crypto, conf) == Some(s.(ouIdentifiers := m));
    forall a | a in s.admins ensures Accepts(crypto, s.(ouIdentifiers := m), a) {
      SameRegister(crypto, s, m, a);
    }
  }

  // ---------------------------------------------------------------------------------------------
  // Valid identities.

  /** An identity that is no CA, with one chain, issued by a leaf of the tree that has not revoked it. */
  ghost predicate IssuedThrough(crypto: Crypto, conf: MspConfig, s: MspState, cert: Certificate, chain: seq<Certificate>) {
    && !cert.isCA
    && OnlyChain(crypto.auth, s.tree.pools, cert, chain) && |chain| >= 2
    && !StrictAncestor(crypto, s.tree, chain[1])
    && Unrevoked(crypto.auth, conf.revocationLists, cert.serial, chain[1])
  }

  /** Some unit of the identity is configured with its issuer, and the dates agree, if any unit is configured. */
  ghost predicate UnitConfigured(crypto: Crypto, conf: MspConfig, s: MspState, cert: Certificate, chain: seq<Certificate>)
    requires |chain| >= 2
  {
    conf.units == [] || exists k :: 0 <= k < |conf.units| && conf.units[k].ou in cert.units && CertifiesUnit(crypto, s, chain, conf.units[k])
  }

  lemma {:induction false} ChainIff(crypto: Crypto, conf: MspConfig, s: MspState, cert: Certificate, chain: seq<Certificate>)
    requires TreeFacts(crypto, s) && ParsedAs(conf.revocationLists, s.revocationLists)
    ensures IssuedThrough(crypto, conf, s, cert, chain) <==>
            CertificationChain(crypto, s.tree, cert) == Some(chain) && NotRevoked(crypto.auth, s.revocationLists, cert, chain[1])
  {
    UniqueChainExact(crypto.auth, s.tree.pools, cert, chain);
    if |chain| >= 2 {
      UnrevokedIff(crypto.auth, conf.revocationLists, s.revocationLists, cert, chain[1]);
    }
  }

  /** Whoever is accepted has been issued like that. */
  lemma {:induction false} AcceptedIsIssued(crypto: Crypto, conf: MspConfig, s: MspState, cert: Certificate) returns (chain: seq<Certificate>)
    requires Established(crypto, conf) == Some(s) && Accepts(crypto, s, cert)
    ensures IssuedThrough(crypto, conf, s, cert, chain)
  {
    var roots, intermediates := SetupTree(crypto, conf, s);
    chain := CertificationChain(crypto, s.tree, cert).value;
    ChainIff(crypto, conf, s, cert, chain);
  }

  /**
   The accepted identities: those that a leaf of the tree has issued along their only chain and not
   revoked, with a configured unit if there are any; as long as hashes do not collide.
   */
  lemma {:induction false} AcceptsIff(crypto: Crypto, conf: MspConfig, s: MspState, cert: Certificate)
    requires Established(crypto, conf) == Some(s)
    requires forall a, b :: crypto.auth.digest(a) == crypto.auth.digest(b) ==> a == b
    ensures Accepts(crypto, s, cert) <==>
            exists chain :: IssuedThrough(crypto, conf, s, cert, chain) && UnitConfigured(crypto, conf, s, cert, chain)
  {
    var roots, intermediates := SetupTree(crypto, conf, s);
    if Accepts(crypto, s, cert) {
      var chain := CertificationChain(crypto, s.tree, cert).value;
      ChainIff(crypto, conf, s, cert, chain);
      UnitsAcceptedIff(crypto, conf, s, cert, chain);
      assert IssuedThrough(crypto, conf, s, cert, chain) && UnitConfigured(crypto, conf, s, cert, chain);
    }
    if chain :| IssuedThrough(crypto, conf, s, cert, chain) && UnitConfigured(crypto, conf, s, cert, chain) {
      ChainIff(crypto, conf, s, cert, chain);
      UnitsAcceptedIff(crypto, conf, s, cert, chain);
    }
  }

  // ---------------------------------------------------------------------------------------------
  // Principals.

  /** The serialized identity names the MSP, and its certificate is sanitized to c. */
  ghost predicate Presents(crypto: Crypto, decode: Decoder, conf: MspConfig, s: MspState, serialized: Bytes, c: Certificate) {
    exists raw :: decode(serialized) == Some((conf.name, Some(raw))) && SanitizeCert(crypto, s.tree.pools, raw) == Some(c)
  }

  lemma {:induction false} PresentsIff(crypto: Crypto, decode: Decoder, conf: MspConfig, s: MspState, serialized: Bytes, c: Certificate)
    requires s.name == conf.name
    ensures Deserialize(crypto, decode, s, serialized) == Some(c) <==> Presents(crypto, decode, conf, s, serialized, c)
  {
  }

  /** The certificate is one of the configured administrators', sanitized. */
  ghost predicate ConfiguredAdmin(crypto: Crypto, conf: MspConfig, s: MspState, cert: Certificate) {
    exists i :: 0 <= i < |conf.admins| && conf.admins[i].Some? && SanitizeCert(crypto, s.tree.pools, conf.admins[i].value) == Some(cert)
  }

  /** Who satisfies which principal. */
  lemma {:induction false} PrincipalIff(crypto: Crypto, decode: Decoder, conf: MspConfig, s: MspState, cert: Certificate, p: Principal)
    requires Established(crypto, conf) == Some(s)
    ensures SatisfiesPrincipal(crypto, decode, s, cert, p) <==>
            match p
            case RolePrincipal(Member, msp) => msp == conf.name && Accepts(crypto, s, cert)
            case RolePrincipal(Admin, msp) => msp == conf.name && ConfiguredAdmin(crypto, conf, s, cert)
            case UnitPrincipal(msp, ou, certifiers) =>
              && msp == conf.name && Accepts(crypto, s, cert) && ou in cert.units
              && exists chain :: OnlyChain(crypto.auth, s.tree.pools, cert, chain) && |chain| >= 2 &&
                                 certifiers == crypto.auth.digest(chain[1..])
            case IdentityPrincipal(serialized) => Presents(crypto, decode, conf, s, serialized, cert) && Accepts(crypto, s, cert)
            case _ => false
  {
    var roots, intermediates := SetupTree(crypto, conf, s);
    match p
    case RolePrincipal(role, msp) => AdminsIff(crypto, conf, s, cert);
    case IdentityPrincipal(serialized) => PresentsIff(crypto, decode, conf, s, serialized, cert);
    case UnitPrincipal(_, ou, certifiers) =>
      if Accepts(crypto, s, cert) {
        UnitsIff(crypto, s, cert, ou, certifiers);
      }
    case _ =>
  }

  lemma {:induction false} AdminsIff(crypto: Crypto, conf: MspConfig, s: MspState, cert: Certificate)
    requires LoadedAs(crypto, s.tree.pools, conf.admins, s.admins)
    ensures cert in s.admins <==> ConfiguredAdmin(crypto, conf, s, cert)
  {
    if cert in s.admins {
      var i :| 0 <= i < |s.admins| && s.admins[i] == cert;
      assert conf.admins[i].Some? && SanitizeCert(crypto, s.tree.pools, conf.admins[i].value) == Some(cert);
    }
    if i :| 0 <= i < |conf.admins| && conf.admins[i].Some? && SanitizeCert(crypto, s.tree.pools, conf.admins[i].value) == Some(cert) {
      assert s.admins[i] == cert;
    }
  }

  lemma {:induction false} UnitsIff(crypto: Crypto, s: MspState, cert: Certificate, ou: string, id: Bytes)
    requires ProperPools(s.tree.pools) && CertificationChain(crypto, s.tree, cert).Some?
    ensures (ou, id) in OrganizationalUnits(crypto, s.tree, cert) <==>
            && ou in cert.units
            && exists chain :: OnlyChain(crypto.auth, s.tree.pools, cert, chain) && |chain| >= 2 && id == crypto.auth.digest(chain[1..])
  {
    var chain := CertificationChain(crypto, s.tree, cert).value;
    UniqueChainExact(crypto.auth, s.tree.pools, cert, chain);
    assert OnlyChain(crypto.auth, s.tree.pools, cert, chain);
    var units := OrganizationalUnits(crypto, s.tree, cert);
    if ou in cert.units {
      var i :| 0 <= i < |cert.units| && cert.units[i] == ou;
      assert units[i] == (ou, crypto.auth.digest(chain[1..]));
    }
  }

  /** Whoever presents the certificate of a configured administrator satisfies the ADMIN principal, and is a valid member. */
  lemma {:induction false} AdministratorsAre(crypto: Crypto, decode: Decoder, conf: MspConfig, s: MspState, serialized: Bytes, i: nat)
    requires Established(crypto, conf) == Some(s) && i < |conf.admins|
    requires decode(serialized) == Some((conf.name, conf.admins[i]))
    ensures Deserialize(crypto, decode, s, serialized).Some?
    ensures var cert := Deserialize(crypto, decode, s, serialized).value;
            SatisfiesPrincipal(crypto, decode, s, cert, RolePrincipal(Admin, conf.name)) && Accepts(crypto, s, cert)
  {
    var roots, intermediates := SetupTree(crypto, conf, s);
    assert conf.admins[i].Some? && SanitizeCert(crypto, s.tree.pools, conf.admins[i].value) == Some(s.admins[i]);
    var cert := Deserialize(crypto, decode, s, serialized).value;
    PrincipalIff(crypto, decode, conf, s, cert, RolePrincipal(Admin, conf.name));
    PrincipalImpliesMember(crypto, decode, conf, s, cert, RolePrincipal(Admin, conf.name));
  }
}
