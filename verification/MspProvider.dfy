/** The MSP object: fields filled stage by stage by Setup, and read by validation. */
module MspProvider {
  import opened Prelude
  import opened Certificates
  import opened CertificateChains
  import opened Sanitation
  import opened SignaturePolicies
  import opened Msp

  class BccspMsp {
    const crypto: Crypto

    var name: string
    var opts: Option<Pools>
    var rootCerts: seq<Certificate>
    var intermediateCerts: seq<Certificate>
    var internalNodes: set<Certificate>
    var admins: seq<Certificate>
    var revocationLists: seq<RevocationList>
    var ouIdentifiers: map<string, seq<Bytes>>

    constructor (crypto: Crypto)
      ensures this.crypto == crypto && opts.None?
    {
      this.crypto := crypto;
      name, opts, rootCerts, intermediateCerts := "", None, [], [];
      internalNodes, admins, revocationLists, ouIdentifiers := {}, [], [], map[];
    }

    ghost function Tree(): CertificationTree
      reads this
      requires opts.Some?
    {
      CertificationTree(rootCerts, intermediateCerts, opts.value, internalNodes)
    }

    ghost function State(): MspState
      reads this
      requires opts.Some?
    {
      MspState(name, Tree(), admins, revocationLists, ouIdentifiers)
    }

    // -------------------------------------------------------------------------------------------
    // Validation.

    method GetUniqueValidationChain(cert: Certificate) returns (r: Option<seq<Certificate>>)
      ensures r.Some? ==> opts.Some?
      ensures opts.Some? ==> r == UniqueChain(crypto.auth, opts.value, cert)
    {
      if opts.None? {
        return None;
      }
      var validationChains := Verify(crypto.auth, opts.value, cert);
      if |validationChains| != 1 {
        return None;
      }
      return Some(validationChains[0]);
    }

    method GetValidationChain(cert: Certificate, isIntermediateChain: bool) returns (r: Option<seq<Certificate>>)
      ensures r.Some? ==> opts.Some?
      ensures opts.Some? ==> r == ValidationChain(crypto, Tree(), cert, if isIntermediateChain then 0 else 1)
    {
      var chain := GetUniqueValidationChain(cert);
      if chain.None? || |chain.value| < 2 {
        return None;
      }
      var parentPosition := 1;
      if isIntermediateChain {
        parentPosition := 0;
      }
      if chain.value[parentPosition] in internalNodes {
        return None;
      }
      return chain;
    }

    method GetCertificationChain(cert: Certificate) returns (r: Option<seq<Certificate>>)
      ensures r.Some? ==> opts.Some? && |r.value| >= 2
      ensures opts.Some? ==> r == CertificationChain(crypto, Tree(), cert)
    {
      if cert.isCA {
        return None;
      }
      r := GetValidationChain(cert, false);
    }

    method SanitizeCertificate(cert: Certificate) returns (r: Result<Certificate, Trouble>)
      requires opts.Some?
      ensures Answer(r) == SanitizeCert(crypto, opts.value, cert)
      ensures r == Err(Panic) <==> SanitizePanics(crypto, opts.value, cert)
    {
      if !cert.ecdsaSigned {
        return Ok(cert);
      }
      var chain := GetUniqueValidationChain(cert);
      if chain.None? {
        return Err(Failure);
      }
      var parent;
      if |chain.value| >= 2 {
        parent := chain.value[1];
      } else if cert.isCA {
        parent := cert;
      } else {
        return Err(Panic);
      }
      r := SanitizeSignedCert(crypto.codec, cert, parent);
    }

    /** validateCertAgainstChain: searches every matching list for the serial number. */
    method ValidateCertAgainstChain(cert: Certificate, issuer: Certificate) returns (ok: bool)
      ensures ok <==> NotRevoked(crypto.auth, revocationLists, cert, issuer)
    {
      if issuer.ski.None? {
        return false;
      }
      for i := 0 to |revocationLists|
        invariant forall j :: 0 <= j < i ==> revocationLists[j].aki.Some?
        invariant forall j | 0 <= j < i ::
                    revocationLists[j].aki == issuer.ski && crypto.auth.signsList(issuer, revocationLists[j])
                    ==> cert.serial !in revocationLists[j].revoked
      {
        var crl := revocationLists[i];
        if crl.aki.None? {
          return false;
        }
        if crl.aki.value == issuer.ski.value {
          for k := 0 to |crl.revoked|
            invariant crypto.auth.signsList(issuer, crl) ==> cert.serial !in crl.revoked[..k]
          {
            if crl.revoked[k] == cert.serial && crypto.auth.signsList(issuer, crl) {
              return false;
            }
            assert crl.revoked[..k + 1] == crl.revoked[..k] + [crl.revoked[k]];
          }
          assert crl.revoked[..|crl.revoked|] == crl.revoked;
        }
      }
      return true;
    }

    method GetOrganizationalUnits(cert: Certificate) returns (units: seq<(string, Bytes)>)
      ensures opts.None? ==> units == []
      ensures opts.Some? ==> units == OrganizationalUnits(crypto, Tree(), cert)
    {
      var chain := GetCertificationChain(cert);
      if chain.None? {
        return [];
      }
      var cid := crypto.auth.digest(chain.value[1..]);
      units := [];
      for i := 0 to |cert.units|
        invariant |units| == i && forall j :: 0 <= j < i ==> units[j] == (cert.units[j], cid)
      {
        units := units + [(cert.units[i], cid)];
      }
      assert units == Tagged(cert.units, cid);
    }

    method IsRegistered(ou: string, id: Bytes) returns (found: bool)
      ensures found <==> Registered(ouIdentifiers, ou, id)
    {
      if ou !in ouIdentifiers {
        return false;
      }
      var certificationIDs := ouIdentifiers[ou];
      for k := 0 to |certificationIDs|
        invariant forall j :: 0 <= j < k ==> certificationIDs[j] != id
      {
        if certificationIDs[k] == id {
          return true;
        }
      }
      return false;
    }

    method ValidateIdentityOUs(cert: Certificate) returns (ok: bool)
      requires opts.Some?
      ensures ok <==> UnitsAccepted(crypto, State(), cert)
    {
      if |ouIdentifiers| == 0 {
        return true;
      }
      var found := false;
      var units := GetOrganizationalUnits(cert);
      for i := 0 to |units|
        invariant found <==> exists j :: 0 <= j < i && Registered(ouIdentifiers, units[j].0, units[j].1)
      {
        var here := IsRegistered(units[i].0, units[i].1);
        found := found || here;
      }
      ok := found;
    }

    method Validate(cert: Certificate) returns (ok: bool)
      ensures ok <==> opts.Some? && Accepts(crypto, State(), cert)
    {
      var chain := GetCertificationChain(cert);
      if chain.None? {
        return false;
      }
      ok := ValidateCertAgainstChain(cert, chain.value[1]);
      if ok {
        ok := ValidateIdentityOUs(cert);
      }
    }

    /** DeserializeIdentity: an identity of this MSP, whose certificate is sanitized. */
    method DeserializeIdentity(decode: Decoder, serialized: Bytes) returns (r: Option<Certificate>)
      requires opts.Some?
      ensures r == Deserialize(crypto, decode, State(), serialized)
    {
      var decoded := decode(serialized);
      if decoded.None? || decoded.value.0 != name || decoded.value.1.None? {
        return None;
      }
      var sanitized := SanitizeCertificate(decoded.value.1.value);
      return Answer(sanitized);
    }

    /** SatisfiesPrincipal; the administrators are searched one by one. */
    method Satisfies(decode: Decoder, cert: Certificate, p: Principal) returns (ok: bool)
      requires opts.Some?
      ensures ok <==> SatisfiesPrincipal(crypto, decode, State(), cert, p)
    {
      match p
      case RolePrincipal(role, msp) =>
        if msp != name {
          return false;
        }
        match role {
          case Member =>
            ok := Validate(cert);
          case Admin =>
            for i := 0 to |admins|
              invariant cert !in admins[..i]
            {
              if cert == admins[i] {
                return true;
              }
              assert admins[..i + 1] == admins[..i] + [admins[i]];
            }
            assert admins[..|admins|] == admins;
            return false;
          case OtherRole(_) =>
            return false;
        }
      case IdentityPrincipal(serialized) =>
        var principalId := DeserializeIdentity(decode, serialized);
        if principalId.None? || cert != principalId.value {
          return false;
        }
        ok := Validate(principalId.value);
      case UnitPrincipal(msp, ou, certifiers) =>
        if msp != name {
          return false;
        }
        ok := Validate(cert);
        if !ok {
          return false;
        }
        var units := GetOrganizationalUnits(cert);
        for i := 0 to |units|
          invariant (ou, certifiers) !in units[..i]
        {
          if units[i].0 == ou && units[i].1 == certifiers {
            return true;
          }
          assert units[..i + 1] == units[..i] + [units[i]];
        }
        assert units[..|units|] == units;
        return false;
      case MalformedPrincipal =>
        return false;
      case UnknownPrincipal(_) =>
        return false;
    }

    // -------------------------------------------------------------------------------------------
    // Set-up.

    /** Makes an identity of each configured certificate, which sanitizes it against the current options. */
    method LoadIdentities(certs: seq<Option<Certificate>>) returns (r: Option<seq<Certificate>>)
      requires opts.Some?
      ensures r == LoadAll(crypto, opts.value, certs)
    {
      var ids := [];
      for i := 0 to |certs|
        invariant LoadAll(crypto, opts.value, certs[..i]) == Some(ids)
      {
        assert certs[..i + 1][..i] == certs[..i];
        var id: Option<Certificate> := None;
        if certs[i].Some? {
          var sanitized := SanitizeCertificate(certs[i].value);
          id := Answer(sanitized);
        }
        if id.None? {
          LoadFails(certs, i + 1);
          return None;
        }
        ids := ids + [id.value];
      }
      assert certs[..|certs|] == certs;
      return Some(ids);
    }

    lemma {:induction false} LoadFails(certs: seq<Option<Certificate>>, i: nat)
      requires opts.Some? && i <= |certs|
      requires LoadAll(crypto, opts.value, certs[..i]).None?
      ensures LoadAll(crypto, opts.value, certs).None?
      decreases |certs| - i
    {
      if i < |certs| {
        assert certs[..i + 1][..i] == certs[..i];
        LoadFails(certs, i + 1);
      } else {
        assert certs[..i] == certs;
      }
    }

    /** setupCAs: first with the certificates as configured, then again with the sanitized ones. */
    method SetupCAs(conf: MspConfig) returns (ok: bool)
      modifies this
      ensures name == old(name) && internalNodes == old(internalNodes)
      ensures ok <==> LoadAuthorities(crypto, conf).Some?
      ensures ok ==> LoadAuthorities(crypto, conf) == Some((rootCerts, intermediateCerts))
      ensures ok ==> opts == Some(Pools(PoolOf(rootCerts), PoolOf(intermediateCerts)))
    {
      if |conf.roots| == 0 {
        return false;
      }
      var roots, intermediates := AllParsed(conf.roots), AllParsed(conf.intermediates);
      if roots.None? || intermediates.None? {
        return false;
      }
      opts := Some(Pools(PoolOf(roots.value), PoolOf(intermediates.value)));
      var rs := LoadIdentities(conf.roots);
      if rs.None? {
        return false;
      }
      rootCerts := rs.value;
      var cas := LoadIdentities(conf.intermediates);
      if cas.None? {
        return false;
      }
      intermediateCerts := cas.value;
      opts := Some(Pools(PoolOf(rootCerts), PoolOf(intermediateCerts)));
      return true;
    }

    method ValidateCA(c: Certificate) returns (ok: bool)
      requires opts.Some?
      ensures ok <==> ProperAuthority(crypto, opts.value, revocationLists, c)
    {
      if !IsProperCA(c) {
        return false;
      }
      var chain := GetUniqueValidationChain(c);
      if chain.None? {
        return false;
      }
      if |chain.value| < 2 {
        return true;
      }
      ok := ValidateCertAgainstChain(c, chain.value[1]);
    }

    method ValidateAuthorities() returns (ok: bool)
      requires opts.Some?
      ensures ok <==> forall c :: c in rootCerts + intermediateCerts ==>
                        ProperAuthority(crypto, opts.value, revocationLists, c)
    {
      var all := rootCerts + intermediateCerts;
      for i := 0 to |all|
        invariant forall j :: 0 <= j < i ==> ProperAuthority(crypto, opts.value, revocationLists, all[j])
      {
        var valid := ValidateCA(all[i]);
        if !valid {
          assert all[i] in all;
          return false;
        }
      }
      return true;
    }

    /** Marks what stands above c; c has a unique chain. */
    method MarkAbove(c: Certificate)
      requires opts.Some? && UniqueChain(crypto.auth, opts.value, c).Some?
      modifies this`internalNodes
      ensures internalNodes == old(internalNodes) + Above(crypto, opts.value, c)
    {
      var found := GetUniqueValidationChain(c);
      var chain := found.value;
      if |chain| > 0 {
        for i := 1 to |chain|
          invariant internalNodes == old(internalNodes) + Elements(chain[1..i])
        {
          assert chain[1..i + 1] == chain[1..i] + [chain[i]];
          internalNodes := internalNodes + {chain[i]};
        }
        assert chain[1..|chain|] == chain[1..];
      }
    }

    lemma {:induction false} AncestorsNext(pools: Pools, certs: seq<Certificate>, i: nat)
      requires i < |certs|
      ensures Ancestors(crypto, pools, certs[..i + 1]) == Ancestors(crypto, pools, certs[..i]) + Above(crypto, pools, certs[i])
    {
      assert certs[..i + 1] == certs[..i] + [certs[i]];
    }

    method MarkInternalNodes()
      requires opts.Some?
      requires forall c :: c in intermediateCerts ==> UniqueChain(crypto.auth, opts.value, c).Some?
      modifies this`internalNodes
      ensures internalNodes == Ancestors(crypto, opts.value, intermediateCerts)
    {
      internalNodes := {};
      for i := 0 to |intermediateCerts|
        invariant internalNodes == Ancestors(crypto, opts.value, intermediateCerts[..i])
      {
        AncestorsNext(opts.value, intermediateCerts, i);
        MarkAbove(intermediateCerts[i]);
      }
      assert intermediateCerts[..|intermediateCerts|] == intermediateCerts;
    }

    /** finalizeSetupCAs: validates every authority, then marks the internal nodes of the tree. */
    method FinalizeSetupCAs() returns (ok: bool)
      requires opts == Some(Pools(PoolOf(rootCerts), PoolOf(intermediateCerts)))
      modifies this`internalNodes
      ensures ok <==> ProperTree(crypto, TreeOver(crypto, rootCerts, intermediateCerts), revocationLists)
      ensures ok ==> Tree() == TreeOver(crypto, rootCerts, intermediateCerts)
    {
      ok := ValidateAuthorities();
      if !ok {
        return false;
      }
      forall c | c in intermediateCerts ensures UniqueChain(crypto.auth, opts.value, c).Some? {
        assert c in rootCerts + intermediateCerts && ProperAuthority(crypto, opts.value, revocationLists, c);
      }
      MarkInternalNodes();
      return true;
    }

    method AddUnit(ou: string, id: Bytes)
      modifies this`ouIdentifiers
      ensures ouIdentifiers == AddIdentifier(old(ouIdentifiers), ou, id)
    {
      var found := IsRegistered(ou, id);
      if !found {
        var ids := if ou in ouIdentifiers then ouIdentifiers[ou] else [];
        assert ids == [] ==> ids + [id] == [id];
        ouIdentifiers := ouIdentifiers[ou := ids + [id]];
      }
    }

    /** setupOUs: each unit is registered once under the identifier of its certifier's chain. */
    method SetupOUs(units: seq<UnitConfig>) returns (ok: bool)
      requires opts.Some?
      modifies this`ouIdentifiers
      ensures ok <==> RegisterUnits(crypto, Tree(), units).Some?
      ensures ok ==> ouIdentifiers == RegisterUnits(crypto, Tree(), units).value
    {
      ghost var t := Tree();
      ghost var certifier := u => CertifierOf(crypto, t, u);
      ouIdentifiers := map[];
      for i := 0 to |units|
        invariant Tree() == t
        invariant Register(certifier, units[..i]) == Some(ouIdentifiers)
      {
        assert units[..i + 1][..i] == units[..i];
        var id := CertifiersOf(units[i]);
        assert id == certifier(units[i]);
        if id.None? {
          RegisterFails(certifier, units, i + 1);
          return false;
        }
        AddUnit(units[i].ou, id.value);
      }
      assert units[..|units|] == units;
      return true;
    }

    method CertifiersOf(u: UnitConfig) returns (id: Option<Bytes>)
      requires opts.Some?
      ensures id == CertifierOf(crypto, Tree(), u)
    {
      if u.certificate.None? {
        return None;
      }
      var cert := SanitizeCertificate(u.certificate.value);
      if cert.Err? {
        return None;
      }
      if cert.value in rootCerts {
        return Some(crypto.auth.digest([cert.value]));
      }
      if cert.value !in intermediateCerts {
        return None;
      }
      var chain := GetValidationChain(cert.value, true);
      if chain.None? {
        return None;
      }
      return Some(crypto.auth.digest(chain.value));
    }

    method SetupAdmins(conf: MspConfig) returns (ok: bool)
      requires opts.Some?
      modifies this`admins
      ensures ok <==> LoadAll(crypto, opts.value, conf.admins).Some?
      ensures ok ==> admins == LoadAll(crypto, opts.value, conf.admins).value
    {
      var ids := LoadIdentities(conf.admins);
      if ids.None? {
        return false;
      }
      admins := ids.value;
      return true;
    }

    method SetupCRLs(conf: MspConfig) returns (ok: bool)
      modifies this`revocationLists
      ensures ok <==> AllParsed(conf.revocationLists).Some?
      ensures ok ==> revocationLists == AllParsed(conf.revocationLists).value
    {
      var lists := AllParsed(conf.revocationLists);
      if lists.None? {
        return false;
      }
      revocationLists := lists.value;
      return true;
    }

    /** The stages of Setup before the administrators are validated. */
    method ConfigureFrom(conf: MspConfig) returns (ok: bool)
      modifies this
      ensures ok <==> Configure(crypto, conf).Some?
      ensures ok ==> opts.Some? && Configure(crypto, conf) == Some(State())
    {
      name := conf.name;
      ok := SetupCAs(conf);
      if !ok {
        return false;
      }
      ok := SetupAdmins(conf);
      if !ok {
        return false;
      }
      ok := SetupCRLs(conf);
      if !ok {
        return false;
      }
      ok := FinalizeSetupCAs();
      if !ok {
        return false;
      }
      ok := SetupOUs(conf.units);
    }

    method ValidateAdmins() returns (ok: bool)
      requires opts.Some?
      ensures ok <==> forall a :: a in admins ==> Accepts(crypto, State(), a)
    {
      for i := 0 to |admins|
        invariant forall j :: 0 <= j < i ==> Accepts(crypto, State(), admins[j])
      {
        ok := Validate(admins[i]);
        if !ok {
          assert admins[i] in admins;
          return false;
        }
      }
      return true;
    }

    /** Setup, without signing identity and TLS authorities. */
    method Setup(conf: Option<MspConfig>) returns (ok: bool)
      modifies this
      ensures ok <==> conf.Some? && Established(crypto, conf.value).Some?
      ensures ok ==> opts.Some? && Established(crypto, conf.value) == Some(State())
    {
      if conf.None? {
        return false;
      }
      ok := ConfigureFrom(conf.value);
      if ok {
        ok := ValidateAdmins();
      }
    }
  }

  lemma {:induction false} RegisterFails(certifier: UnitConfig -> Option<Bytes>, units: seq<UnitConfig>, i: nat)
    requires i <= |units|
    requires Register(certifier, units[..i]).None?
    ensures Register(certifier, units).None?
    decreases |units| - i
  {
    if i < |units| {
      assert units[..i + 1][..i] == units[..i];
      RegisterFails(certifier, units, i + 1);
    } else {
      assert units[..i] == units;
    }
  }
}
