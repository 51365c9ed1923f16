/**
 Replacing every certificate of the pools by another one with the same fields and the same issuers:
 the unique chain of each certificate becomes the chain of the replacements.
 */
module ChainRenaming {
  import opened Prelude
  import opened Certificates
  import opened CertificateChains

  type Renaming = Certificate -> Certificate

  predicate InPools(pools: Pools, c: Certificate) {
    c in pools.roots || c in pools.intermediates
  }

  ghost predicate ImageOf(f: Renaming, from: seq<Certificate>, to: seq<Certificate>) {
    forall x :: x in to <==> exists c :: c in from && x == f(c)
  }

  /** Who has issued an intermediate is the same before and after. */
  ghost predicate KeepsIssuers(auth: Authority, raw: Pools, f: Renaming) {
    forall p, c {:trigger auth.issues(f(p), f(c))} ::
      InPools(raw, p) && c in raw.intermediates ==> auth.issues(f(p), f(c)) == auth.issues(p, c)
  }

  /** f replaces the first pools by the second: it changes signatures only, and keeps who issued which intermediate. */
  ghost predicate Renames(auth: Authority, raw: Pools, clean: Pools, f: Renaming) {
    && ProperPools(raw) && ProperPools(clean)
    && ImageOf(f, raw.roots, clean.roots)
    && ImageOf(f, raw.intermediates, clean.intermediates)
    && (forall c :: InPools(raw, c) ==> SameButSignature(f(c), c))
    && KeepsIssuers(auth, raw, f)
  }

  function Mapped(f: Renaming, chain: seq<Certificate>): (r: seq<Certificate>)
    ensures |r| == |chain| && forall i :: 0 <= i < |chain| ==> r[i] == f(chain[i])
  {
    seq(|chain|, i requires 0 <= i < |chain| => f(chain[i]))
  }

  // ---------------------------------------------------------------------------------------------
  // Chains that could be shortened are not unique.

  function Shortened(chain: seq<Certificate>, j: nat, k: nat): (r: seq<Certificate>)
    requires j < k < |chain|
    ensures |r| == |chain| - (k - j)
    ensures forall i :: 0 <= i <= j ==> r[i] == chain[i]
    ensures forall i :: j < i < |r| ==> r[i] == chain[i + (k - j)]
  {
    chain[..j + 1] + chain[k + 1..]
  }

  lemma {:induction false} ShortenedPrefix(chain: seq<Certificate>, j: nat, k: nat, i: nat, at: nat)
    requires j < k < |chain| && 0 < i < |Shortened(chain, j, k)| && at == (if i <= j then i else i + (k - j))
    ensures forall x :: x in Shortened(chain, j, k)[..i] ==> x in chain[..at]
  {
    var short := Shortened(chain, j, k);
    forall m | 0 <= m < i ensures short[m] in chain[..at] {
      assert short[m] == chain[..at][if m <= j then m else m + (k - j)];
    }
  }

  /** A position of the shortened chain can extend what is before it. */
  lemma {:induction false} ShortenedExtends(auth: Authority, now: int, chain: seq<Certificate>, j: nat, k: nat, i: nat, at: nat)
    requires j < k < |chain| - 1 && auth.issues(chain[k + 1], chain[j])
    requires 0 < i < |Shortened(chain, j, k)| && at == (if i <= j then i else i + (k - j))
    requires CanExtend(auth, chain[at], chain[..at], now)
    ensures CanExtend(auth, Shortened(chain, j, k)[i], Shortened(chain, j, k)[..i], now)
  {
    var short := Shortened(chain, j, k);
    assert short[..i][i - 1] == short[i - 1] && chain[..at][at - 1] == chain[at - 1];
  }

  lemma {:induction false} ShortenedIntermediate(auth: Authority, pools: Pools, now: int, chain: seq<Certificate>, j: nat, k: nat,
                                                 i: nat, at: nat)
    requires j < k < |chain| - 1 && auth.issues(chain[k + 1], chain[j])
    requires 0 < i < |Shortened(chain, j, k)| && at == (if i <= j then i else i + (k - j))
    requires IntermediateAt(auth, pools, now, chain, at)
    ensures IntermediateAt(auth, pools, now, Shortened(chain, j, k), i)
  {
    ShortenedPrefix(chain, j, k, i, at);
    ShortenedExtends(auth, now, chain, j, k, i, at);
  }

  lemma {:induction false} ShortenedChain(auth: Authority, pools: Pools, c: Certificate, chain: seq<Certificate>, j: nat, k: nat)
    requires Certifies(auth, pools, c, chain) && c !in pools.roots
    requires j < k < |chain| - 1 && auth.issues(chain[k + 1], chain[j])
    ensures Certifies(auth, pools, c, Shortened(chain, j, k))
  {
    var short, now := Shortened(chain, j, k), TimeFor(c);
    forall i | 1 <= i < |short| - 1 ensures IntermediateAt(auth, pools, now, short, i) {
      assert IntermediateAt(auth, pools, now, chain, if i <= j then i else i + (k - j));
      ShortenedIntermediate(auth, pools, now, chain, j, k, i, if i <= j then i else i + (k - j));
    }
    ShortenedExtends(auth, now, chain, j, k, |short| - 1, |chain| - 1);
    assert UsageOk(short) by {
      assert forall x :: x in short ==> x in chain;
    }
  }

  /** Each link of a chain: an intermediate, and the next certificate, which is in the pools and extends the path. */
  lemma {:induction false} LinkInPools(auth: Authority, pools: Pools, c: Certificate, chain: seq<Certificate>, k: nat)
    requires Certifies(auth, pools, c, chain) && c !in pools.roots && c in pools.intermediates && 0 < k < |chain|
    ensures chain[k - 1] in pools.intermediates && InPools(pools, chain[k])
    ensures CanExtend(auth, chain[k], chain[..k], TimeFor(c)) && chain[..k][k - 1] == chain[k - 1]
  {
    if k > 1 {
      assert IntermediateAt(auth, pools, TimeFor(c), chain, k - 1);
    }
    if k < |chain| - 1 {
      assert IntermediateAt(auth, pools, TimeFor(c), chain, k);
    }
  }

  /** Certificates below the root with the same replacement have the same issuers, so the chain can be shortened. */
  lemma {:induction false} RepetitionShortens(auth: Authority, raw: Pools, clean: Pools, f: Renaming, c: Certificate,
                                              chain: seq<Certificate>, j: nat, k: nat)
    requires Renames(auth, raw, clean, f) && c in raw.intermediates && c !in raw.roots
    requires Certifies(auth, raw, c, chain) && j < k < |chain| - 1 && f(chain[j]) == f(chain[k])
    ensures auth.issues(chain[k + 1], chain[j])
  {
    var p, x, y := chain[k + 1], chain[j], chain[k];
    LinkInPools(auth, raw, c, chain, j + 1);
    LinkInPools(auth, raw, c, chain, k + 1);
    assert auth.issues(f(p), f(x)) == auth.issues(p, x) && auth.issues(f(p), f(y)) == auth.issues(p, y);
  }

  /** On a unique chain no two certificates below the root get the same replacement. */
  lemma {:induction false} NoRepetition(auth: Authority, raw: Pools, clean: Pools, f: Renaming, c: Certificate,
                                        chain: seq<Certificate>, j: nat, k: nat)
    requires Renames(auth, raw, clean, f) && c in raw.intermediates && c !in raw.roots
    requires UniqueChain(auth, raw, c) == Some(chain) && j < k < |chain| - 1
    ensures f(chain[j]) != f(chain[k])
  {
    UniqueChainExact(auth, raw, c, chain);
    if f(chain[j]) == f(chain[k]) {
      RepetitionShortens(auth, raw, clean, f, c, chain, j, k);
      ShortenedChain(auth, raw, c, chain, j, k);
    }
  }

  // ---------------------------------------------------------------------------------------------
  // Replacing a chain, and undoing it.

  /** A certificate extends a path of authorities exactly when its replacement extends the replaced path. */
  lemma {:induction false} ExtendsAlike(auth: Authority, raw: Pools, clean: Pools, f: Renaming, chain: seq<Certificate>, k: nat, now: int)
    requires Renames(auth, raw, clean, f) && 0 < k < |chain|
    requires chain[k - 1] in raw.intermediates && InPools(raw, chain[k])
    ensures CanExtend(auth, Mapped(f, chain)[k], Mapped(f, chain)[..k], now) <==> CanExtend(auth, chain[k], chain[..k], now)
    ensures Mapped(f, chain)[k].isCA == chain[k].isCA
  {
    var mapped := Mapped(f, chain);
    assert mapped[..k][k - 1] == f(chain[k - 1]) && chain[..k][k - 1] == chain[k - 1];
    assert SameButSignature(f(chain[k]), chain[k]);
    assert auth.issues(f(chain[k]), f(chain[k - 1])) == auth.issues(chain[k], chain[k - 1]);
  }

  lemma {:induction false} UsableAlike(f: Renaming, chain: seq<Certificate>)
    requires forall c :: c in chain ==> SameButSignature(f(c), c)
    ensures UsageOk(Mapped(f, chain)) <==> UsageOk(chain)
  {
    var mapped := Mapped(f, chain);
    forall i | 0 <= i < |chain| ensures mapped[i] in mapped && chain[i] in chain && mapped[i].serverAuth == chain[i].serverAuth {
      assert chain[i] in chain;
    }
  }

  lemma {:induction false} MappedIntermediate(auth: Authority, raw: Pools, clean: Pools, f: Renaming, c: Certificate,
                                              chain: seq<Certificate>, k: nat)
    requires Renames(auth, raw, clean, f) && c in raw.intermediates && c !in raw.roots
    requires UniqueChain(auth, raw, c) == Some(chain) && Certifies(auth, raw, c, chain) && 1 <= k < |chain| - 1
    ensures IntermediateAt(auth, clean, TimeFor(c), Mapped(f, chain), k)
  {
    var mapped := Mapped(f, chain);
    LinkInPools(auth, raw, c, chain, k);
    LinkInPools(auth, raw, c, chain, k + 1);
    ExtendsAlike(auth, raw, clean, f, chain, k, TimeFor(c));
    assert IntermediateAt(auth, raw, TimeFor(c), chain, k);
    forall j | 0 <= j < k ensures mapped[j] != mapped[k] {
      NoRepetition(auth, raw, clean, f, c, chain, j, k);
    }
  }

  lemma {:induction false} MappedClimb(auth: Authority, raw: Pools, clean: Pools, f: Renaming, c: Certificate, chain: seq<Certificate>)
    requires Renames(auth, raw, clean, f) && c in raw.intermediates && c !in raw.roots
    requires UniqueChain(auth, raw, c) == Some(chain) && Certifies(auth, raw, c, chain)
    ensures ClimbsToRoot(auth, clean, TimeFor(c), Mapped(f, chain), 1)
  {
    forall k | 1 <= k < |chain| - 1 ensures IntermediateAt(auth, clean, TimeFor(c), Mapped(f, chain), k) {
      MappedIntermediate(auth, raw, clean, f, c, chain, k);
    }
    LinkInPools(auth, raw, c, chain, |chain| - 1);
    ExtendsAlike(auth, raw, clean, f, chain, |chain| - 1, TimeFor(c));
  }

  lemma {:induction false} MappedUsage(auth: Authority, raw: Pools, clean: Pools, f: Renaming, c: Certificate, chain: seq<Certificate>)
    requires Renames(auth, raw, clean, f) && c in raw.intermediates && c !in raw.roots
    requires Certifies(auth, raw, c, chain)
    ensures UsageOk(Mapped(f, chain))
  {
    ChainInPools(auth, raw, c, chain);
    UsableAlike(f, chain);
  }

  /** The replaced chain of an intermediate is a chain in the second pools. */
  lemma {:induction false} MappedCertifies(auth: Authority, raw: Pools, clean: Pools, f: Renaming, c: Certificate, chain: seq<Certificate>)
    requires Renames(auth, raw, clean, f) && c in raw.intermediates && c !in raw.roots
    requires UniqueChain(auth, raw, c) == Some(chain) && Certifies(auth, raw, c, chain) && f(c) !in clean.roots
    ensures Certifies(auth, clean, f(c), Mapped(f, chain))
  {
    MappedClimb(auth, raw, clean, f, c, chain);
    MappedUsage(auth, raw, clean, f, c, chain);
    assert SameButSignature(f(c), c);
  }

  lemma {:induction false} ChainInPools(auth: Authority, pools: Pools, c: Certificate, chain: seq<Certificate>)
    requires Certifies(auth, pools, c, chain) && c !in pools.roots && c in pools.intermediates
    ensures forall x :: x in chain ==> InPools(pools, x)
  {
    forall k | 0 < k < |chain| ensures InPools(pools, chain[k]) {
      LinkInPools(auth, pools, c, chain, k);
    }
  }

  /** What is replaced by x. */
  ghost function Origin(f: Renaming, from: seq<Certificate>, x: Certificate): (c: Certificate)
    requires exists c :: c in from && x == f(c)
    ensures c in from && x == f(c)
  {
    var c :| c in from && x == f(c);
    c
  }

  /** Intermediates below a root. */
  ghost predicate Stacked(raw: Pools, chain: seq<Certificate>) {
    && |chain| >= 2 && chain[|chain| - 1] in raw.roots
    && forall i :: 0 <= i < |chain| - 1 ==> chain[i] in raw.intermediates
  }

  lemma {:induction false} BelowRoot(auth: Authority, pools: Pools, c: Certificate, chain: seq<Certificate>)
    requires Certifies(auth, pools, c, chain) && c !in pools.roots
    ensures |chain| >= 2 && chain[|chain| - 1] in pools.roots
    ensures forall i :: 0 < i < |chain| - 1 ==> chain[i] in pools.intermediates
  {
    forall i | 0 < i < |chain| - 1 ensures chain[i] in pools.intermediates {
      assert IntermediateAt(auth, pools, TimeFor(c), chain, i);
    }
  }

  /** What the certificates of a chain replace: intermediates below a root. */
  lemma {:induction false} Origins(auth: Authority, raw: Pools, clean: Pools, f: Renaming, c: Certificate, other: seq<Certificate>)
    returns (chain: seq<Certificate>)
    requires Renames(auth, raw, clean, f) && c in raw.intermediates && f(c) !in clean.roots
    requires Certifies(auth, clean, f(c), other)
    ensures Mapped(f, chain) == other && Stacked(raw, chain) && chain[0] == c
  {
    var last := |other| - 1;
    BelowRoot(auth, clean, f(c), other);
    chain := seq(|other|, i requires 0 <= i < |other| =>
      if i == 0 then c
      else if i < last then Origin(f, raw.intermediates, other[i]) else Origin(f, raw.roots, other[i]));
  }

  lemma {:induction false} LiftedIntermediate(auth: Authority, raw: Pools, clean: Pools, f: Renaming, chain: seq<Certificate>, k: nat, now: int)
    requires Renames(auth, raw, clean, f) && 0 < k < |chain|
    requires chain[k - 1] in raw.intermediates && chain[k] in raw.intermediates
    requires IntermediateAt(auth, clean, now, Mapped(f, chain), k)
    ensures IntermediateAt(auth, raw, now, chain, k)
  {
    var mapped := Mapped(f, chain);
    ExtendsAlike(auth, raw, clean, f, chain, k, now);
    forall m | 0 <= m < k ensures chain[m] != chain[k] {
      assert mapped[m] == mapped[..k][m];
    }
  }

  lemma {:induction false} LiftedClimb(auth: Authority, raw: Pools, clean: Pools, f: Renaming, chain: seq<Certificate>, now: int)
    requires Renames(auth, raw, clean, f) && Stacked(raw, chain)
    requires ClimbsToRoot(auth, clean, now, Mapped(f, chain), 1)
    ensures ClimbsToRoot(auth, raw, now, chain, 1)
  {
    forall k | 1 <= k < |chain| - 1 ensures IntermediateAt(auth, raw, now, chain, k) {
      LiftedIntermediate(auth, raw, clean, f, chain, k, now);
    }
    ExtendsAlike(auth, raw, clean, f, chain, |chain| - 1, now);
  }

  lemma {:induction false} LiftedUsage(auth: Authority, raw: Pools, clean: Pools, f: Renaming, chain: seq<Certificate>)
    requires Renames(auth, raw, clean, f) && Stacked(raw, chain) && UsageOk(Mapped(f, chain))
    ensures UsageOk(chain)
  {
    UsableAlike(f, chain);
  }

  /** Every chain of the replacement comes from one of the certificate. */
  lemma {:induction false} Lifted(auth: Authority, raw: Pools, clean: Pools, f: Renaming, c: Certificate,
                                  other: seq<Certificate>) returns (chain: seq<Certificate>)
    requires Renames(auth, raw, clean, f) && c in raw.intermediates && c !in raw.roots && f(c) !in clean.roots
    requires Certifies(auth, clean, f(c), other)
    ensures Certifies(auth, raw, c, chain) && Mapped(f, chain) == other
  {
    chain := Origins(auth, raw, clean, f, c, other);
    assert SameButSignature(f(c), c);
    LiftedClimb(auth, raw, clean, f, chain, TimeFor(c));
    LiftedUsage(auth, raw, clean, f, chain);
  }

  /** An intermediate that is not replaced by a root keeps its chain. */
  lemma {:induction false} IntermediateIsMapped(auth: Authority, raw: Pools, clean: Pools, f: Renaming, c: Certificate,
                                                chain: seq<Certificate>)
    requires Renames(auth, raw, clean, f) && c in raw.intermediates && c !in raw.roots && f(c) !in clean.roots
    requires UniqueChain(auth, raw, c) == Some(chain)
    ensures UniqueChain(auth, clean, f(c)) == Some(Mapped(f, chain))
  {
    UniqueChainExact(auth, raw, c, chain);
    MappedCertifies(auth, raw, clean, f, c, chain);
    forall other | Certifies(auth, clean, f(c), other) ensures other == Mapped(f, chain) {
      var lifted := Lifted(auth, raw, clean, f, c, other);
    }
    UniqueChainExact(auth, clean, f(c), Mapped(f, chain));
  }

  /**
   The unique chain of an authority becomes the unique chain of its replacement, exactly when the
   authority is a root or its replacement is none.
   */
  lemma {:induction false} ChainsAreMappedIff(auth: Authority, raw: Pools, clean: Pools, f: Renaming, c: Certificate, chain: seq<Certificate>)
    requires Renames(auth, raw, clean, f) && InPools(raw, c)
    requires UniqueChain(auth, raw, c) == Some(chain)
    ensures UniqueChain(auth, clean, f(c)) == Some(Mapped(f, chain)) <==> c in raw.roots || f(c) !in clean.roots
  {
    if c in raw.roots {
      assert SameButSignature(f(c), c);
      RootChain(auth, raw, c);
      RootChain(auth, clean, f(c));
      assert Mapped(f, [c]) == [f(c)];
    } else if f(c) in clean.roots {
      UniqueChainExact(auth, raw, c, chain);
      BelowRoot(auth, raw, c, chain);
      RootChain(auth, clean, f(c));
    } else {
      IntermediateIsMapped(auth, raw, clean, f, c, chain);
    }
  }
}
