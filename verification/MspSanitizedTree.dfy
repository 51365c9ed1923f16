/**
 The two passes of set-up over the authorities: chains among the certificates as configured sanitize
 them, and the pools are then rebuilt from the result. The sanitized authorities have the sanitized chains.
 */
module MspSanitizedTree {
  import opened Prelude
  import opened Certificates
  import opened CertificateChains
  import opened ChainRenaming
  import opened Ecdsa
  import opened Sanitation
  import opened Msp
  import opened MspTheorems
  import opened MspSanitation

  /** The sanitized form of an authority, where there is one. */
  function Clean(crypto: Crypto, raw: Pools, c: Certificate): Certificate {
    match SanitizeCert(crypto, raw, c)
    case None => c
    case Some(x) => x
  }

  /** Sanitation changes nothing but the signature. */
  lemma {:induction false} CleanKeeps(crypto: Crypto, raw: Pools, c: Certificate)
    ensures SameButSignature(Clean(crypto, raw, c), c)
    ensures Unsigned(Clean(crypto, raw, c)) == Unsigned(c)
  {
  }

  /** No check of what a certificate issued looks at its own signature. */
  ghost predicate BlindToParentSignature(auth: Authority) {
    forall p, q, c :: Unsigned(p) == Unsigned(q) ==> auth.issues(p, c) == auth.issues(q, c)
  }

  /** The certificate whose key sanitation takes: the issuer on the unique chain, or the certificate itself. */
  function KeyHolder(crypto: Crypto, raw: Pools, c: Certificate): Certificate {
    match UniqueChain(crypto.auth, raw, c)
    case None => c
    case Some(chain) => if |chain| >= 2 then chain[1] else c
  }

  /** A certificate and its sanitized form have the same issuers among the keys of the order that sanitation takes. */
  lemma {:induction false} SanitizedIssuers<P(!new)>(crypto: Crypto, how: Issuance<P>, c: Certificate, parent: Certificate,
                                                     c': Certificate, p: Certificate)
    requires Faithful(crypto.codec) && IssuesByEcdsa(crypto, how)
    requires c.ecdsaSigned && Sanitized(crypto.codec, c, parent) == Some(c') && OrderOf(how, p) == OrderOf(how, parent)
    ensures crypto.auth.issues(p, c') == crypto.auth.issues(p, c)
  {
    var n := OrderOf(how, parent);
    var (r, s) := Unmarshal(crypto.codec, c.signature).value;
    if c' != c {
      assert Unsigned(c') == Unsigned(c) && crypto.codec.unmarshal(c'.signature) == Some((r, n - s));
      if s < n {
        EcdsaTwins(crypto, how, c, c', r, s, n, p);
      } else {
        assert !Signs(how, p, c, r, s);
      }
    }
  }

  lemma {:induction false} CleanIssuers<P(!new)>(crypto: Crypto, how: Issuance<P>, raw: Pools, p: Certificate, c: Certificate)
    requires Faithful(crypto.codec) && IssuesByEcdsa(crypto, how) && BlindToParentSignature(crypto.auth)
    requires SanitizeCert(crypto, raw, c).Some?
    ensures crypto.auth.issues(Clean(crypto, raw, p), Clean(crypto, raw, c)) == crypto.auth.issues(p, Clean(crypto, raw, c))
    ensures !c.ecdsaSigned || OrderOf(how, p) == OrderOf(how, KeyHolder(crypto, raw, c)) ==>
              crypto.auth.issues(p, Clean(crypto, raw, c)) == crypto.auth.issues(p, c)
  {
    CleanKeeps(crypto, raw, p);
    if c.ecdsaSigned && OrderOf(how, p) == OrderOf(how, KeyHolder(crypto, raw, c)) {
      SanitizedIssuers(crypto, how, c, KeyHolder(crypto, raw, c), Clean(crypto, raw, c), p);
    }
  }

  /** Whether p's key agrees on the intermediate c before and after, if its order is another one. */
  ghost predicate AgreesOn<P>(crypto: Crypto, how: Issuance<P>, raw: Pools, p: Certificate, c: Certificate) {
    c.ecdsaSigned && OrderOf(how, p) != OrderOf(how, KeyHolder(crypto, raw, c)) ==>
      crypto.auth.issues(p, Clean(crypto, raw, c)) == crypto.auth.issues(p, c)
  }

  /** Keys of another order than the one that sanitation takes say the same of every intermediate before and after. */
  ghost predicate OtherOrdersAgree<P>(crypto: Crypto, how: Issuance<P>, raw: Pools) {
    forall p, c :: InPools(raw, p) && c in raw.intermediates ==> AgreesOn(crypto, how, raw, p, c)
  }

  /** The conditions under which issuance is compared before and after. */
  ghost predicate Comparable<P(!new)>(crypto: Crypto, how: Issuance<P>, raw: Pools) {
    && Faithful(crypto.codec) && IssuesByEcdsa(crypto, how) && BlindToParentSignature(crypto.auth)
    && forall c :: InPools(raw, c) ==> SanitizeCert(crypto, raw, c).Some?
  }

  lemma {:induction false} KeepsIssuerIff<P(!new)>(crypto: Crypto, how: Issuance<P>, raw: Pools, f: Renaming, p: Certificate, c: Certificate)
    requires Comparable(crypto, how, raw) && c in raw.intermediates
    requires f(p) == Clean(crypto, raw, p) && f(c) == Clean(crypto, raw, c)
    ensures crypto.auth.issues(f(p), f(c)) == crypto.auth.issues(p, c) <==> AgreesOn(crypto, how, raw, p, c)
  {
    assert InPools(raw, c);
    CleanIssuers(crypto, how, raw, p, c);
  }

  /** Two ways of saying it of every pair. */
  lemma {:induction false} KeepsIf(auth: Authority, raw: Pools, f: Renaming, agrees: (Certificate, Certificate) -> bool)
    requires forall p, c {:trigger agrees(p, c)} :: InPools(raw, p) && c in raw.intermediates ==>
               (agrees(p, c) <==> auth.issues(f(p), f(c)) == auth.issues(p, c))
    ensures KeepsIssuers(auth, raw, f) <==>
            forall p, c {:trigger agrees(p, c)} :: InPools(raw, p) && c in raw.intermediates ==> agrees(p, c)
  {
    if forall p, c {:trigger agrees(p, c)} :: InPools(raw, p) && c in raw.intermediates ==> agrees(p, c) {
      forall p, c | InPools(raw, p) && c in raw.intermediates ensures auth.issues(f(p), f(c)) == auth.issues(p, c) {
        assert agrees(p, c);
      }
    }
  }

  /** Sanitation keeps the issuers of every intermediate exactly if keys of other orders agree. */
  lemma {:induction false} KeepsIssuersIff<P(!new)>(crypto: Crypto, how: Issuance<P>, raw: Pools, f: Renaming)
    requires Comparable(crypto, how, raw) && forall c :: f(c) == Clean(crypto, raw, c)
    ensures KeepsIssuers(crypto.auth, raw, f) <==> OtherOrdersAgree(crypto, how, raw)
  {
    var agrees: (Certificate, Certificate) -> bool := (p, c) => AgreesOn(crypto, how, raw, p, c);
    forall p, c {:trigger agrees(p, c)} | InPools(raw, p) && c in raw.intermediates
      ensures agrees(p, c) <==> crypto.auth.issues(f(p), f(c)) == crypto.auth.issues(p, c)
    {
      KeepsIssuerIff(crypto, how, raw, f, p, c);
    }
    KeepsIf(crypto.auth, raw, f, agrees);
    assert forall p, c :: agrees(p, c) <==> AgreesOn(crypto, how, raw, p, c);
  }

  /** So it does where all that everything but the signature admits as issuers of an intermediate have keys of that order. */
  lemma {:induction false} OneOrderEachSuffices<P(!new)>(crypto: Crypto, how: Issuance<P>, raw: Pools)
    requires IssuesByEcdsa(crypto, how)
    requires forall p, c | InPools(raw, p) && c in raw.intermediates && c.ecdsaSigned ::
               p.publicKey.EcKey? && how.admits(Unsigned(p), Unsigned(c)) ==> OrderOf(how, p) == OrderOf(how, KeyHolder(crypto, raw, c))
    ensures OtherOrdersAgree(crypto, how, raw)
  {
    forall p, c | InPools(raw, p) && c in raw.intermediates ensures AgreesOn(crypto, how, raw, p, c) {
      CleanKeeps(crypto, raw, c);
    }
  }

  // ---------------------------------------------------------------------------------------------
  // Set-up.

  /** The pools that setupCAs makes of the certificates as configured. */
  ghost function RawPools(conf: MspConfig): Pools
    requires AllParsed(conf.roots).Some? && AllParsed(conf.intermediates).Some?
  {
    Pools(PoolOf(AllParsed(conf.roots).value), PoolOf(AllParsed(conf.intermediates).value))
  }

  lemma {:induction false} LoadedIsClean(crypto: Crypto, raw: Pools, certs: seq<Option<Certificate>>, parsed: seq<Certificate>,
                                         loaded: seq<Certificate>)
    requires AllParsed(certs) == Some(parsed) && LoadAll(crypto, raw, certs) == Some(loaded)
    ensures forall c :: c in parsed ==> SanitizeCert(crypto, raw, c).Some?
    ensures ImageOf(c => Clean(crypto, raw, c), parsed, loaded)
  {
    if certs != [] {
      var last := |certs| - 1;
      var p, l := AllParsed(certs[..last]).value, LoadAll(crypto, raw, certs[..last]).value;
      LoadedIsClean(crypto, raw, certs[..last], p, l);
      var c := certs[last].value;
      assert parsed == p + [c] && loaded == l + [Clean(crypto, raw, c)];
      assert c in parsed;
    }
  }

  lemma {:induction false} ImageOfPools(f: Renaming, parsed: seq<Certificate>, loaded: seq<Certificate>)
    requires ImageOf(f, parsed, loaded)
    ensures ImageOf(f, PoolOf(parsed), PoolOf(loaded))
  {
  }

  /** The second pools are made of the sanitized certificates of the first. */
  lemma {:induction false} SetupRebuilds(crypto: Crypto, conf: MspConfig, s: MspState)
    requires Established(crypto, conf) == Some(s)
    ensures AllParsed(conf.roots).Some? && AllParsed(conf.intermediates).Some?
    ensures ProperPools(RawPools(conf)) && ProperPools(s.tree.pools)
    ensures forall c :: InPools(RawPools(conf), c) ==> SanitizeCert(crypto, RawPools(conf), c).Some?
    ensures var raw := RawPools(conf); var f := c => Clean(crypto, raw, c);
            ImageOf(f, raw.roots, s.tree.pools.roots) && ImageOf(f, raw.intermediates, s.tree.pools.intermediates)
  {
    var roots, intermediates := AllParsed(conf.roots).value, AllParsed(conf.intermediates).value;
    var raw := RawPools(conf);
    SetupConfigures(crypto, conf, s);
    LoadedIsClean(crypto, raw, conf.roots, roots, s.tree.rootCerts);
    LoadedIsClean(crypto, raw, conf.intermediates, intermediates, s.tree.intermediateCerts);
    ImageOfPools(c => Clean(crypto, raw, c), roots, s.tree.rootCerts);
    ImageOfPools(c => Clean(crypto, raw, c), intermediates, s.tree.intermediateCerts);
  }

  /**
   In every provider that set-up has accepted, if sanitation keeps the issuers of the intermediates: a
   configured authority with a unique chain has, once sanitized, the chain of the sanitized certificates
   as its only one, exactly if it is a root or is not sanitized to one.
   */
  lemma {:induction false} SetupMapsChainsIff(crypto: Crypto, conf: MspConfig, s: MspState, f: Renaming, c: Certificate, chain: seq<Certificate>)
    requires Established(crypto, conf) == Some(s)
    requires AllParsed(conf.roots).Some? && AllParsed(conf.intermediates).Some?
    requires f == (x => Clean(crypto, RawPools(conf), x)) && KeepsIssuers(crypto.auth, RawPools(conf), f)
    requires InPools(RawPools(conf), c) && UniqueChain(crypto.auth, RawPools(conf), c) == Some(chain)
    ensures SanitizeCert(crypto, RawPools(conf), c) == Some(f(c))
    ensures UniqueChain(crypto.auth, s.tree.pools, f(c)) == Some(Mapped(f, chain)) <==>
            c in RawPools(conf).roots || f(c) !in s.tree.pools.roots
  {
    SetupRebuilds(crypto, conf, s);
    forall x ensures SameButSignature(f(x), x) { CleanKeeps(crypto, RawPools(conf), x); }
    ChainsAreMappedIff(crypto.auth, RawPools(conf), s.tree.pools, f, c, chain);
  }
}
