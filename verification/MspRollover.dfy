/**
 A root certificate that is replaced while an intermediate lives on: the intermediate is verified at
 its own time, under the old root, an identity that it certifies later under the new one. The
 organizational unit registered with the intermediate is then not recognized in the identity.
 */
module MspRollover {
  import opened Prelude
  import opened Certificates
  import opened CertificateChains
  import opened Msp
  import opened MspTheorems

  const OldRoot := NewAuthority(1, 0, 100)
  const NewRoot := NewAuthority(2, 100, 1000)
  const Between := NewAuthority(3, 50, 1000)
  const Holder := NewAuthority(4, 500, 1000).(isCA := false, units := ["sales"])

  function NewAuthority(serial: Byte, notBefore: int, notAfter: int): Certificate {
    Certificate(serial, "", OtherKey([]), true, Some([serial]), [], notBefore, notAfter, None, true, false, [])
  }

  /** Both roots certify the intermediate, which certifies the holder. */
  predicate Issues(parent: Certificate, child: Certificate) {
    (child == Between && (parent == OldRoot || parent == NewRoot)) || (child == Holder && parent == Between)
  }

  const Configuration := MspConfig("org", [Some(OldRoot), Some(NewRoot)], [Some(Between)], [], [],
                                   [UnitConfig(Some(Between), "sales")])

  const Trusted := Pools([OldRoot, NewRoot], [Between])

  lemma {:induction false} PoolsAreTrusted()
    ensures PoolOf([OldRoot, NewRoot]) == Trusted.roots && PoolOf([Between]) == Trusted.intermediates
    ensures ProperPools(Trusted)
  {
    var roots := [OldRoot, NewRoot];
    assert roots[..1] == [OldRoot] && roots[..1][..0] == [];
    assert PoolOf(roots[..1]) == [OldRoot];
    assert [Between][..0] == [];
  }

  /** In these pools a chain holds the intermediate at position 1, or ends there. */
  lemma {:induction false} ShortChains(crypto: Crypto, c: Certificate, chain: seq<Certificate>)
    requires c == Between || c == Holder
    requires Certifies(crypto.auth, Trusted, c, chain)
    ensures |chain| == 2 || (|chain| == 3 && c == Holder && chain[1] == Between)
  {
    forall k | 1 <= k < |chain| - 1 ensures chain[k] == Between && chain[k] !in chain[..k] {
      assert IntermediateAt(crypto.auth, Trusted, TimeFor(c), chain, k);
    }
    assert |chain| > 2 ==> chain[..1][0] == chain[0];
  }

  lemma {:induction false} IntermediateChain(crypto: Crypto)
    requires forall p, c :: crypto.auth.issues(p, c) == Issues(p, c)
    ensures UniqueChain(crypto.auth, Trusted, Between) == Some([Between, OldRoot])
  {
    PoolsAreTrusted();
    var chain := [Between, OldRoot];
    assert chain[..1] == [Between];
    assert Certifies(crypto.auth, Trusted, Between, chain);
    forall other | Certifies(crypto.auth, Trusted, Between, other) ensures other == chain {
      ShortChains(crypto, Between, other);
      assert other[..1] == [Between];
      assert !ValidAt(NewRoot, TimeFor(Between));
    }
    UniqueChainExact(crypto.auth, Trusted, Between, chain);
  }

  lemma {:induction false} HolderChain(crypto: Crypto)
    requires forall p, c :: crypto.auth.issues(p, c) == Issues(p, c)
    ensures UniqueChain(crypto.auth, Trusted, Holder) == Some([Holder, Between, NewRoot])
  {
    PoolsAreTrusted();
    var chain := [Holder, Between, NewRoot];
    assert chain[..1] == [Holder] && chain[..2] == [Holder, Between];
    assert IntermediateAt(crypto.auth, Trusted, TimeFor(Holder), chain, 1);
    assert Certifies(crypto.auth, Trusted, Holder, chain);
    forall other | Certifies(crypto.auth, Trusted, Holder, other) ensures other == chain {
      ShortChains(crypto, Holder, other);
      assert other[..|other| - 1][|other| - 2] == other[|other| - 2];
      assert !ValidAt(OldRoot, TimeFor(Holder));
    }
    UniqueChainExact(crypto.auth, Trusted, Holder, chain);
  }

  lemma {:induction false} AllLoaded(crypto: Crypto)
    ensures LoadAuthorities(crypto, Configuration) == Some((Trusted.roots, Trusted.intermediates))
  {
    PoolsAreTrusted();
    RootsLoaded(crypto);
    IntermediatesLoaded(crypto);
  }

  lemma {:induction false} RootsLoaded(crypto: Crypto)
    ensures AllParsed(Configuration.roots) == Some(Trusted.roots)
    ensures LoadAll(crypto, Trusted, Configuration.roots) == Some(Trusted.roots)
  {
    ParsedAll(Trusted.roots, Configuration.roots);
    LoadedAll(crypto, Trusted, Trusted.roots, Configuration.roots);
  }

  lemma {:induction false} IntermediatesLoaded(crypto: Crypto)
    ensures AllParsed(Configuration.intermediates) == Some(Trusted.intermediates)
    ensures LoadAll(crypto, Trusted, Configuration.intermediates) == Some(Trusted.intermediates)
  {
    ParsedAll(Trusted.intermediates, Configuration.intermediates);
    LoadedAll(crypto, Trusted, Trusted.intermediates, Configuration.intermediates);
  }

  lemma {:induction false} OldRootIsAbove(crypto: Crypto)
    requires forall p, c :: crypto.auth.issues(p, c) == Issues(p, c)
    ensures Above(crypto, Trusted, Between) == {OldRoot}
  {
    IntermediateChain(crypto);
    assert [Between, OldRoot][1..] == [OldRoot];
  }

  lemma {:induction false} AuthorityIsProper(crypto: Crypto, c: Certificate)
    requires forall p, c :: crypto.auth.issues(p, c) == Issues(p, c)
    requires c == OldRoot || c == NewRoot || c == Between
    ensures ProperAuthority(crypto, Trusted, [], c)
  {
    if c == Between {
      IntermediateChain(crypto);
    } else {
      PoolsAreTrusted();
      RootChain(crypto.auth, Trusted, c);
    }
  }

  lemma {:induction false} TreeIsProper(crypto: Crypto) returns (t: CertificationTree)
    requires forall p, c :: crypto.auth.issues(p, c) == Issues(p, c)
    ensures t == TreeOver(crypto, Trusted.roots, Trusted.intermediates)
    ensures t.pools == Trusted && t.internalNodes == {OldRoot}
    ensures ProperTree(crypto, t, [])
  {
    PoolsAreTrusted();
    OldRootIsAbove(crypto);
    t := TreeOver(crypto, Trusted.roots, Trusted.intermediates);
    forall c | c in t.rootCerts + t.intermediateCerts ensures ProperAuthority(crypto, t.pools, [], c) {
      AuthorityIsProper(crypto, c);
    }
  }

  lemma {:induction false} UnitIsRegistered(crypto: Crypto, t: CertificationTree)
    requires forall p, c :: crypto.auth.issues(p, c) == Issues(p, c)
    requires t.pools == Trusted && t.internalNodes == {OldRoot}
    requires t.rootCerts == Trusted.roots && t.intermediateCerts == Trusted.intermediates
    ensures RegisterUnits(crypto, t, Configuration.units).Some?
  {
    IntermediateChain(crypto);
    var units := Configuration.units;
    var certifier := u => CertifierOf(crypto, t, u);
    assert certifier(units[0]).Some?;
    assert Register(certifier, units[..0]).Some?;
    assert units[..|units| - 1] == units[..0];
  }

  lemma {:induction false} SetupSucceeds(crypto: Crypto) returns (s: MspState)
    requires forall p, c :: crypto.auth.issues(p, c) == Issues(p, c)
    ensures Established(crypto, Configuration) == Some(s)
    ensures s.tree.pools == Trusted && s.tree.internalNodes == {OldRoot}
    ensures s.tree.rootCerts == Trusted.roots
  {
    AllLoaded(crypto);
    var t := TreeIsProper(crypto);
    UnitIsRegistered(crypto, t);
    s := Configure(crypto, Configuration).value;
  }

  /** The chain of the holder goes through an intermediate, and is not valid at its time. */
  lemma {:induction false} DatesDisagree()
    ensures [Holder, Between, NewRoot][1] !in Trusted.roots && !ValidWithIssuer([Holder, Between, NewRoot])
  {
    var chain := [Holder, Between, NewRoot];
    assert chain[1..] == [Between, NewRoot];
    assert NewRoot in chain[1..] && !ValidAt(NewRoot, TimeFor(Between));
  }

  lemma {:induction false} HolderCarriesUnit()
    ensures Configuration.units[0] == UnitConfig(Some(Between), "sales") && "sales" in Holder.units
  {
  }

  lemma {:induction false} HolderIsCertified(crypto: Crypto, t: CertificationTree)
    requires forall p, c :: crypto.auth.issues(p, c) == Issues(p, c)
    requires t.pools == Trusted && t.internalNodes == {OldRoot}
    ensures CertificationChain(crypto, t, Holder) == Some([Holder, Between, NewRoot])
  {
    HolderChain(crypto);
    assert Between.serial != OldRoot.serial;
  }

  /** Set-up succeeds, the holder carries the unit that is configured with its direct issuer, and is rejected. */
  lemma {:induction false} RolloverRejected(crypto: Crypto) returns (s: MspState)
    requires forall p, c :: crypto.auth.issues(p, c) == Issues(p, c)
    requires forall a, b :: crypto.auth.digest(a) == crypto.auth.digest(b) ==> a == b
    ensures Established(crypto, Configuration) == Some(s)
    ensures CertificationChain(crypto, s.tree, Holder) == Some([Holder, Between, NewRoot])
    ensures Configuration.units[0] == UnitConfig(Some(Between), "sales") && "sales" in Holder.units
    ensures !Accepts(crypto, s, Holder)
  {
    s := SetupSucceeds(crypto);
    var chain := [Holder, Between, NewRoot];
    HolderIsCertified(crypto, s.tree);
    DatesDisagree();
    HolderCarriesUnit();
    DatesReject(crypto, Configuration, s, Holder, chain);
  }
}
