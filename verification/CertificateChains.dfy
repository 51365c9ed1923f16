/**
 Certificate path building: every issuer path from a certificate through the intermediate pool to a
 root, at the time one second after the certificate becomes valid. No intermediate repeats an earlier
 certificate of its path; the root at the end may.
 */
module CertificateChains {
  import opened Prelude
  import opened Certificates

  datatype Pools = Pools(roots: seq<Certificate>, intermediates: seq<Certificate>)

  ghost predicate ProperPools(pools: Pools) {
    Distinct(pools.roots) && Distinct(pools.intermediates)
  }

  /** CertPool.AddCert. */
  function AddCert(pool: seq<Certificate>, c: Certificate): seq<Certificate> {
    if c in pool then pool else pool + [c]
  }

  function PoolOf(certs: seq<Certificate>): (pool: seq<Certificate>)
    ensures Distinct(pool)
    ensures forall c :: c in pool <==> c in certs
  {
    if certs == [] then []
    else
      var last := |certs| - 1;
      assert certs == certs[..last] + [certs[last]];
      AddCert(PoolOf(certs[..last]), certs[last])
  }

  predicate ValidAt(c: Certificate, now: int) {
    c.notBefore <= now <= c.notAfter
  }

  /** `parent` may certify the last certificate of the path built so far. */
  predicate CanExtend(auth: Authority, parent: Certificate, path: seq<Certificate>, now: int)
    requires path != []
  {
    && auth.issues(parent, path[|path| - 1])
    && ValidAt(parent, now)
    && (parent.maxPathLen.Some? ==> |path| - 1 <= parent.maxPathLen.value)
  }

  /** The intermediates not on the path yet. */
  ghost function Unvisited(pools: Pools, path: seq<Certificate>): set<Certificate> {
    Elements(pools.intermediates) - Elements(path)
  }

  /** All completions of `path`, which starts at the certificate to verify. */
  function ChainsFrom(auth: Authority, pools: Pools, path: seq<Certificate>, now: int): seq<seq<Certificate>>
    requires path != []
    decreases Unvisited(pools, path), |pools.intermediates| + 1
  {
    AtRoots(auth, pools.roots, path, now) + ThroughIntermediates(auth, pools, pools.intermediates, path, now)
  }

  function AtRoots(auth: Authority, roots: seq<Certificate>, path: seq<Certificate>, now: int): seq<seq<Certificate>>
    requires path != []
  {
    if roots == [] then []
    else
      var rest := AtRoots(auth, roots[1..], path, now);
      if CanExtend(auth, roots[0], path, now) then [path + [roots[0]]] + rest else rest
  }

  function ThroughIntermediates(auth: Authority, pools: Pools, candidates: seq<Certificate>,
                                path: seq<Certificate>, now: int): seq<seq<Certificate>>
    requires path != []
    requires forall c :: c in candidates ==> c in pools.intermediates
    decreases Unvisited(pools, path), |candidates|
  {
    if candidates == [] then []
    else
      var c := candidates[0];
      var rest := ThroughIntermediates(auth, pools, candidates[1..], path, now);
      if c !in path && c.isCA && CanExtend(auth, c, path, now) then
        assert c in Unvisited(pools, path) && c !in Unvisited(pools, path + [c]);
        assert Unvisited(pools, path + [c]) < Unvisited(pools, path);
        ChainsFrom(auth, pools, path + [c], now) + rest
      else rest
  }

  /** Position k of the path is an intermediate that certifies position k - 1. */
  ghost predicate IntermediateAt(auth: Authority, pools: Pools, now: int, path: seq<Certificate>, k: nat)
    requires 0 < k < |path|
  {
    && path[k] in pools.intermediates
    && path[k] !in path[..k]
    && path[k].isCA
    && CanExtend(auth, path[k], path[..k], now)
  }

  /** From position `from` on, `path` climbs through intermediates and ends at a root. */
  ghost predicate ClimbsToRoot(auth: Authority, pools: Pools, now: int, path: seq<Certificate>, from: nat) {
    && 0 < from < |path|
    && (forall k :: from <= k < |path| - 1 ==> IntermediateAt(auth, pools, now, path, k))
    && path[|path| - 1] in pools.roots
    && CanExtend(auth, path[|path| - 1], path[..|path| - 1], now)
  }

  lemma {:induction false} ClimbStep(auth: Authority, pools: Pools, now: int, path: seq<Certificate>, from: nat)
    requires 0 < from && from + 1 < |path|
    ensures ClimbsToRoot(auth, pools, now, path, from) <==>
            IntermediateAt(auth, pools, now, path, from) && ClimbsToRoot(auth, pools, now, path, from + 1)
  {
  }

  lemma {:induction false} AtRootsExact(auth: Authority, roots: seq<Certificate>, path: seq<Certificate>, now: int,
                                        chain: seq<Certificate>)
    requires path != []
    ensures chain in AtRoots(auth, roots, path, now) <==>
            |chain| == |path| + 1 && path <= chain && chain[|path|] in roots && CanExtend(auth, chain[|path|], path, now)
  {
    if roots != [] {
      AtRootsExact(auth, roots[1..], path, now, chain);
      if |chain| == |path| + 1 && path <= chain && chain[|path|] == roots[0] {
        assert chain == path + [roots[0]];
      }
    }
  }

  /** Path building finds exactly the climbing paths. */
  lemma {:induction false} ChainsFromExact(auth: Authority, pools: Pools, path: seq<Certificate>, now: int,
                                           chain: seq<Certificate>)
    requires path != []
    ensures chain in ChainsFrom(auth, pools, path, now) <==>
            path <= chain && ClimbsToRoot(auth, pools, now, chain, |path|)
    decreases Unvisited(pools, path), |pools.intermediates| + 1
  {
    AtRootsExact(auth, pools.roots, path, now, chain);
    ThroughIntermediatesExact(auth, pools, pools.intermediates, path, now, chain);
    if path <= chain && |chain| == |path| + 1 {
      assert chain[..|path|] == path && chain[|chain| - 1] == chain[|path|];
    } else if path <= chain && |chain| > |path| + 1 && ClimbsToRoot(auth, pools, now, chain, |path|) {
      ClimbStep(auth, pools, now, chain, |path|);
    }
  }

  lemma {:induction false} ThroughIntermediatesExact(auth: Authority, pools: Pools, candidates: seq<Certificate>,
                                                     path: seq<Certificate>, now: int, chain: seq<Certificate>)
    requires path != []
    requires forall c :: c in candidates ==> c in pools.intermediates
    ensures chain in ThroughIntermediates(auth, pools, candidates, path, now) <==>
            path <= chain && |chain| > |path| + 1 && chain[|path|] in candidates &&
            ClimbsToRoot(auth, pools, now, chain, |path|)
    decreases Unvisited(pools, path), |candidates|
  {
    if candidates != [] {
      var c := candidates[0];
      ThroughIntermediatesExact(auth, pools, candidates[1..], path, now, chain);
      if path <= chain && |chain| > |path| + 1 {
        assert chain[..|path|] == path;
        ClimbStep(auth, pools, now, chain, |path|);
      }
      if c !in path && c.isCA && CanExtend(auth, c, path, now) {
        assert c in Unvisited(pools, path) && c !in Unvisited(pools, path + [c]);
        assert Unvisited(pools, path + [c]) < Unvisited(pools, path);
        ChainsFromExact(auth, pools, path + [c], now, chain);
        assert path + [c] <= chain <==> path <= chain && |chain| > |path| && chain[|path|] == c;
      }
    }
  }

  ghost predicate AllDistinct(a: seq<seq<Certificate>>, b: seq<seq<Certificate>>) {
    forall x :: !(x in a && x in b)
  }

  lemma {:induction false} DistinctConcat(a: seq<seq<Certificate>>, b: seq<seq<Certificate>>)
    requires Distinct(a) && Distinct(b) && AllDistinct(a, b)
    ensures Distinct(a + b)
  {
    forall i, j | 0 <= i < j < |a + b| ensures (a + b)[i] != (a + b)[j] {
      if i < |a| <= j {
        assert a[i] in a && b[j - |a|] in b;
      }
    }
  }

  lemma {:induction false} AtRootsDistinct(auth: Authority, roots: seq<Certificate>, path: seq<Certificate>, now: int)
    requires path != [] && Distinct(roots)
    ensures Distinct(AtRoots(auth, roots, path, now))
  {
    if roots != [] {
      AtRootsDistinct(auth, roots[1..], path, now);
      AtRootsExact(auth, roots[1..], path, now, path + [roots[0]]);
    }
  }

  /** Path building lists no path twice. */
  lemma {:induction false} ChainsFromDistinct(auth: Authority, pools: Pools, path: seq<Certificate>, now: int)
    requires path != [] && ProperPools(pools)
    ensures Distinct(ChainsFrom(auth, pools, path, now))
    decreases Unvisited(pools, path), |pools.intermediates| + 1
  {
    var a := AtRoots(auth, pools.roots, path, now);
    var b := ThroughIntermediates(auth, pools, pools.intermediates, path, now);
    AtRootsDistinct(auth, pools.roots, path, now);
    ThroughIntermediatesDistinct(auth, pools, pools.intermediates, path, now);
    forall x ensures !(x in a && x in b) {
      AtRootsExact(auth, pools.roots, path, now, x);
      ThroughIntermediatesExact(auth, pools, pools.intermediates, path, now, x);
    }
    DistinctConcat(a, b);
  }

  lemma {:induction false} ThroughIntermediatesDistinct(auth: Authority, pools: Pools, candidates: seq<Certificate>,
                                                        path: seq<Certificate>, now: int)
    requires path != [] && ProperPools(pools) && Distinct(candidates)
    requires forall c :: c in candidates ==> c in pools.intermediates
    ensures Distinct(ThroughIntermediates(auth, pools, candidates, path, now))
    decreases Unvisited(pools, path), |candidates|
  {
    if candidates != [] {
      var c := candidates[0];
      var b := ThroughIntermediates(auth, pools, candidates[1..], path, now);
      ThroughIntermediatesDistinct(auth, pools, candidates[1..], path, now);
      if c !in path && c.isCA && CanExtend(auth, c, path, now) {
        assert c in Unvisited(pools, path) && c !in Unvisited(pools, path + [c]);
        assert Unvisited(pools, path + [c]) < Unvisited(pools, path);
        ChainsFromDistinct(auth, pools, path + [c], now);
        var a := ChainsFrom(auth, pools, path + [c], now);
        forall x ensures !(x in a && x in b) {
          ChainsFromExact(auth, pools, path + [c], now, x);
          ThroughIntermediatesExact(auth, pools, candidates[1..], path, now, x);
        }
        DistinctConcat(a, b);
      }
    }
  }

  // ---------------------------------------------------------------------------------------------
  // Certificate.Verify with the options of getValidityOptsForCert.

  predicate UsageOk(chain: seq<Certificate>) {
    forall c :: c in chain ==> c.serverAuth
  }

  /** The clock is set to just after the certificate becomes valid. */
  function TimeFor(c: Certificate): int {
    c.notBefore + 1
  }

  function Usable(chains: seq<seq<Certificate>>): seq<seq<Certificate>> {
    if chains == [] then []
    else if UsageOk(chains[0]) then [chains[0]] + Usable(chains[1..])
    else Usable(chains[1..])
  }

  function Verify(auth: Authority, pools: Pools, c: Certificate): seq<seq<Certificate>> {
    if !ValidAt(c, TimeFor(c)) then []
    else Usable(if c in pools.roots then [[c]] else ChainsFrom(auth, pools, [c], TimeFor(c)))
  }

  /** What it is for `chain` to be a validation chain of c. */
  ghost predicate Certifies(auth: Authority, pools: Pools, c: Certificate, chain: seq<Certificate>) {
    && chain != [] && chain[0] == c
    && ValidAt(c, TimeFor(c))
    && UsageOk(chain)
    && if c in pools.roots then chain == [c] else ClimbsToRoot(auth, pools, TimeFor(c), chain, 1)
  }

  lemma {:induction false} UsableExact(chains: seq<seq<Certificate>>)
    ensures forall x :: x in Usable(chains) <==> x in chains && UsageOk(x)
    ensures Distinct(chains) ==> Distinct(Usable(chains))
  {
    if chains != [] {
      UsableExact(chains[1..]);
    }
  }

  /** Verify returns exactly the validation chains, each once. */
  lemma {:induction false} VerifyExact(auth: Authority, pools: Pools, c: Certificate)
    requires ProperPools(pools)
    ensures forall chain :: chain in Verify(auth, pools, c) <==> Certifies(auth, pools, c, chain)
    ensures Distinct(Verify(auth, pools, c))
  {
    if ValidAt(c, TimeFor(c)) {
      var all := if c in pools.roots then [[c]] else ChainsFrom(auth, pools, [c], TimeFor(c));
      UsableExact(all);
      if c !in pools.roots {
        ChainsFromDistinct(auth, pools, [c], TimeFor(c));
        forall chain ensures chain in all <==> chain != [] && chain[0] == c && ClimbsToRoot(auth, pools, TimeFor(c), chain, 1) {
          ChainsFromExact(auth, pools, [c], TimeFor(c), chain);
        }
      }
    }
  }

  /**
   Position k of a chain, by its fields: it has issued the certificate before, is valid at the time,
   and allows the certificates strictly between it and the first (section 4.2.1.9 of RFC 5280).
   */
  ghost predicate IssuerAt(auth: Authority, chain: seq<Certificate>, k: nat, now: int)
    requires 1 <= k < |chain|
  {
    && auth.issues(chain[k], chain[k - 1])
    && chain[k].notBefore <= now <= chain[k].notAfter
    && (chain[k].maxPathLen.Some? ==> |chain[1..k]| <= chain[k].maxPathLen.value)
  }

  lemma {:induction false} IssuerAtExact(auth: Authority, pools: Pools, chain: seq<Certificate>, k: nat, now: int)
    requires 1 <= k < |chain|
    ensures CanExtend(auth, chain[k], chain[..k], now) <==> IssuerAt(auth, chain, k, now)
    ensures IntermediateAt(auth, pools, now, chain, k) <==>
            && IssuerAt(auth, chain, k, now) && chain[k] in pools.intermediates && chain[k].isCA
            && chain[k] !in chain[..k]
  {
    var path := chain[..k];
    assert path[|path| - 1] == chain[k - 1] && |chain[1..k]| == k - 1;
  }

  lemma {:induction false} ClimbsByPositions(auth: Authority, pools: Pools, chain: seq<Certificate>, now: int)
    requires |chain| >= 2
    ensures ClimbsToRoot(auth, pools, now, chain, 1) <==>
            && chain[|chain| - 1] in pools.roots
            && (forall k :: 1 <= k < |chain| ==> IssuerAt(auth, chain, k, now))
            && (forall k :: 1 <= k < |chain| - 1 ==> chain[k] in pools.intermediates && chain[k].isCA && chain[k] !in chain[..k])
  {
    var last := |chain| - 1;
    forall k | 1 <= k < |chain| {
      IssuerAtExact(auth, pools, chain, k, now);
    }
    if ClimbsToRoot(auth, pools, now, chain, 1) {
      forall k | 1 <= k < |chain| ensures IssuerAt(auth, chain, k, now) {
        IssuerAtExact(auth, pools, chain, k, now);
        assert k < last ==> IntermediateAt(auth, pools, now, chain, k);
      }
      forall k | 1 <= k < last ensures chain[k] in pools.intermediates && chain[k].isCA && chain[k] !in chain[..k] {
        assert IntermediateAt(auth, pools, now, chain, k);
      }
    }
    if forall k :: 1 <= k < |chain| ==> IssuerAt(auth, chain, k, now) {
      IssuerAtExact(auth, pools, chain, last, now);
      assert IssuerAt(auth, chain, last, now);
    }
  }

  /** The same, position by position: who issued whom, at which time, and above how many others. */
  lemma {:induction false} VerifyByPositions(auth: Authority, pools: Pools, c: Certificate, chain: seq<Certificate>)
    requires ProperPools(pools)
    ensures chain in Verify(auth, pools, c) <==> Certifies(auth, pools, c, chain)
    ensures var now := c.notBefore + 1;
            Certifies(auth, pools, c, chain) <==>
            && chain != [] && chain[0] == c
            && (if c in pools.roots then |chain| == 1 else |chain| >= 2 && chain[|chain| - 1] in pools.roots)
            && now <= c.notAfter
            && (forall x :: x in chain ==> x.serverAuth)
            && (forall k :: 1 <= k < |chain| ==> IssuerAt(auth, chain, k, now))
            && (forall k :: 1 <= k < |chain| - 1 ==> chain[k] in pools.intermediates && chain[k].isCA && chain[k] !in chain[..k])
  {
    VerifyExact(auth, pools, c);
    if |chain| >= 2 {
      ClimbsByPositions(auth, pools, chain, c.notBefore + 1);
    }
  }

  /** getUniqueValidationChain: more than one chain is as bad as none. */
  function UniqueChain(auth: Authority, pools: Pools, c: Certificate): Option<seq<Certificate>> {
    var chains := Verify(auth, pools, c);
    if |chains| == 1 then Some(chains[0]) else None
  }

  /** It yields a chain exactly when that is the only validation chain there is. */
  lemma {:induction false} UniqueChainExact(auth: Authority, pools: Pools, c: Certificate, chain: seq<Certificate>)
    requires ProperPools(pools)
    ensures UniqueChain(auth, pools, c) == Some(chain) <==>
            Certifies(auth, pools, c, chain) && forall other :: Certifies(auth, pools, c, other) ==> other == chain
  {
    VerifyExact(auth, pools, c);
    var chains := Verify(auth, pools, c);
    if |chains| == 1 {
      assert forall other :: other in chains <==> other == chains[0];
    } else if |chains| > 1 {
      assert chains[0] in chains && chains[1] in chains && chains[0] != chains[1];
    }
  }

  /** A root is its own chain, or has none. */
  lemma {:induction false} RootChain(auth: Authority, pools: Pools, c: Certificate)
    requires ProperPools(pools) && c in pools.roots
    ensures UniqueChain(auth, pools, c) == if c.serverAuth && ValidAt(c, TimeFor(c)) then Some([c]) else None
  {
    UniqueChainExact(auth, pools, c, [c]);
    if UniqueChain(auth, pools, c).Some? {
      var chain := UniqueChain(auth, pools, c).value;
      UniqueChainExact(auth, pools, c, chain);
      assert c in chain;
    }
  }
}
