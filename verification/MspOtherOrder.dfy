/**
 Where sanitation goes wrong although set-up succeeds, over groups that are turns of a circle: a
 certificate whose low-S form a key of another order verifies as well, and an intermediate that is
 sanitized to a root.
 */
module MspOtherOrder {
  import opened Prelude
  import opened Certificates
  import opened CertificateChains
  import opened ChainRenaming
  import opened EllipticGroup
  import opened Ecdsa
  import opened Sanitation
  import opened Msp
  import opened MspTheorems
  import opened MspSanitation

  // ---------------------------------------------------------------------------------------------
  // The circle, in turns: 1 / n generates a subgroup of order n.

  type Turn = t: real | 0.0 <= t < 1.0

  function AddTurns(a: Turn, b: Turn): Turn {
    if a + b < 1.0 then a + b else a + b - 1.0
  }

  function Opposite(a: Turn): Turn {
    if a == 0.0 then 0.0 else 1.0 - a
  }

  function Fraction(k: nat, n: nat): Turn
    requires k < n
  {
    k as real / n as real
  }

  function Circle(n: nat): Group<Turn>
    requires n > 1
  {
    Group(n, Fraction(1, n), 0.0, (a, b) => AddTurns(a, b), a => Opposite(a), _ => 1)
  }

  lemma {:induction false} FractionStep(k: nat, n: nat)
    requires k < n && n > 1
    ensures AddTurns(Fraction(k, n), Fraction(1, n)) == if k + 1 < n then Fraction(k + 1, n) else 0.0
  {
    var x, y := k as real, n as real;
    assert x / y + 1.0 / y == (x + 1.0) / y;
    if k + 1 == n {
      assert (x + 1.0) / y == 1.0;
    } else {
      assert (x + 1.0) / y < 1.0;
    }
  }

  lemma {:induction false} MulCircle(n: nat, k: nat)
    requires n > 1 && k <= n
    ensures Mul(Circle(n), k, Circle(n).base) == if k < n then Fraction(k, n) else 0.0
  {
    if k > 0 {
      MulCircle(n, k - 1);
      FractionStep(k - 1, n);
    }
  }

  lemma {:induction false} CircleLawful(n: nat)
    requires n > 1
    ensures Lawful(Circle(n))
  {
    MulCircle(n, n);
    forall k: nat | 0 < k < n ensures Mul(Circle(n), k, Circle(n).base) != Circle(n).zero {
      MulCircle(n, k);
      assert k as real / n as real > 0.0;
    }
  }

  lemma {:induction false} CirclePoint(n: nat, w: nat)
    requires n > 1 && 0 < w < n
    ensures VerifyPoint(Circle(n), Mul(Circle(n), 0, Circle(n).base), 1, 1, w) == Fraction(w, n) != 0.0
  {
    var k := 1 * w;
    assert k % n == w;
    CircleLawful(n);
    MulZeroPoint(Circle(n), w);
    MulCircle(n, w);
    assert w as real / n as real > 0.0;
  }

  lemma {:induction false} VerifiesBy(g: Group<Turn>, q: Turn, e: nat, r: nat, s: nat, w: nat, point: Turn)
    requires 0 < r < g.order && 0 < s < g.order && 0 < w < g.order
    ensures (s * w) % g.order == 1 && point == VerifyPoint(g, q, e, r, w) && point != g.zero && g.x(point) % g.order == r ==>
              Verifies(g, q, e, r, s)
  {
    if (s * w) % g.order == 1 && point == VerifyPoint(g, q, e, r, w) && point != g.zero && g.x(point) % g.order == r {
      assert VerifiesWith(g, q, e, r, s, w);
    }
  }

  /** With digest 1 and secret 0, the pairs (1, 1) and (1, n - 1) verify. */
  lemma {:induction false} CircleSigns(n: nat, s: nat)
    requires n > 2 && (s == 1 || s == n - 1)
    ensures Verifies(Circle(n), Mul(Circle(n), 0, Circle(n).base), 1, 1, s)
  {
    FlippedInverse(n, 1, 1);
    CirclePoint(n, s);
    assert 1 % n == 1;
    VerifiesBy(Circle(n), Mul(Circle(n), 0, Circle(n).base), 1, 1, s, s, Fraction(s, n));
  }

  // ---------------------------------------------------------------------------------------------
  // Issuance over these groups.

  function GroupOf(k: PublicKey): Group<Turn> {
    if k.EcKey? && Order(k.curve).Some? then Circle(Order(k.curve).value) else Circle(2)
  }

  function How(admits: (Certificate, Certificate) -> bool): Issuance<Turn> {
    Issuance(k => GroupOf(k), _ => 0, _ => 1, admits)
  }

  ghost predicate Issues(codec: Codec, admits: (Certificate, Certificate) -> bool, p: Certificate, c: Certificate) {
    && c.ecdsaSigned
    && p.publicKey.EcKey?
    && admits(Unsigned(p), Unsigned(c))
    && Unmarshal(codec, c.signature).Some?
    && Signs(How(admits), p, c, Unmarshal(codec, c.signature).value.0, Unmarshal(codec, c.signature).value.1)
  }

  ghost function Cryptography(codec: Codec, admits: (Certificate, Certificate) -> bool): Crypto {
    Crypto(Authority((p, c) => Issues(codec, admits, p, c), (_, _) => false, _ => []), codec)
  }

  lemma {:induction false} IssuesLawfully(codec: Codec, admits: (Certificate, Certificate) -> bool)
    ensures IssuesByEcdsa(Cryptography(codec, admits), How(admits))
  {
    forall k: PublicKey ensures Lawful(How(admits).group(k)) {
      CircleLawful(GroupOf(k).order);
    }
  }

  /** A key of the curve verifies (1, s) for s = 1 and s = n - 1, and nothing from its order on. */
  lemma {:induction false} IssuesPair(codec: Codec, admits: (Certificate, Certificate) -> bool, p: Certificate, c: Certificate,
                                      s: nat, n: nat)
    requires Faithful(codec) && c.ecdsaSigned && c.signature == codec.marshal(1, s) && s > 0
    requires p.publicKey.EcKey? && Order(p.publicKey.curve) == Some(n) && n > 2 && admits(Unsigned(p), Unsigned(c))
    ensures s == 1 || s == n - 1 ==> Cryptography(codec, admits).auth.issues(p, c)
    ensures s >= n ==> !Cryptography(codec, admits).auth.issues(p, c)
  {
    if s == 1 || s == n - 1 {
      CircleSigns(n, s);
    }
  }

  // ---------------------------------------------------------------------------------------------
  // Two roots of one name, with keys of different orders.

  function NewRoot(serial: Byte, curve: Curve): Certificate {
    Certificate(serial, "", EcKey(curve, []), true, Some([serial]), [], 0, 1000, None, true, false, [])
  }

  const First := NewRoot(1, P256)
  const Second := NewRoot(2, P224)

  function Holder(signature: Bytes): Certificate {
    Certificate(3, "", EcKey(P256, []), false, None, [], 500, 1000, None, true, true, signature)
  }

  /** Either root can have issued the holder's certificate, by everything but the signature. */
  predicate EitherRoot(p: Certificate, c: Certificate) {
    c == Holder([]) && (p == Unsigned(First) || p == Unsigned(Second))
  }

  ghost function World(codec: Codec): Crypto {
    Cryptography(codec, (p, c) => EitherRoot(p, c))
  }

  const Large: nat := Order(P256).value
  const Small: nat := Order(P224).value

  lemma {:induction false} Orders()
    ensures 2 < Small < Large && Large % 2 == 1
  {
  }

  /** The first root has issued the holder with s = n - 1 alone, both have issued it with s = 1. */
  lemma {:induction false} WhoIssued(codec: Codec)
    requires Faithful(codec)
    ensures var high, low := Holder(codec.marshal(1, Large - 1)), Holder(codec.marshal(1, 1));
            && World(codec).auth.issues(First, high) && !World(codec).auth.issues(Second, high)
            && World(codec).auth.issues(First, low) && World(codec).auth.issues(Second, low)
  {
    Orders();
    var admits := (p, c) => EitherRoot(p, c);
    var high, low := Holder(codec.marshal(1, Large - 1)), Holder(codec.marshal(1, 1));
    IssuesPair(codec, admits, First, high, Large - 1, Large);
    IssuesPair(codec, admits, Second, high, Large - 1, Small);
    IssuesPair(codec, admits, First, low, 1, Large);
    IssuesPair(codec, admits, Second, low, 1, Small);
  }

  const BothRoots := Pools([First, Second], [])

  lemma {:induction false} HolderChain(auth: Authority, sig: Bytes, root: Certificate)
    requires (root == First || root == Second) && auth.issues(root, Holder(sig))
    ensures Certifies(auth, BothRoots, Holder(sig), [Holder(sig), root])
  {
    var chain := [Holder(sig), root];
    assert chain[..1] == [Holder(sig)];
  }

  /** Without intermediates, a chain of the holder ends with its issuer. */
  lemma {:induction false} HolderChainsOnly(auth: Authority, sig: Bytes, chain: seq<Certificate>)
    requires Certifies(auth, BothRoots, Holder(sig), chain)
    ensures |chain| == 2 && chain == [Holder(sig), chain[1]]
    ensures (chain[1] == First || chain[1] == Second) && auth.issues(chain[1], Holder(sig))
  {
    BelowRoot(auth, BothRoots, Holder(sig), chain);
    var issuer := chain[1];
    assert |chain| == 2 && chain[..1] == [Holder(sig)];
  }

  lemma {:induction false} OneIssuer(auth: Authority, sig: Bytes)
    requires auth.issues(First, Holder(sig)) && !auth.issues(Second, Holder(sig))
    ensures UniqueChain(auth, BothRoots, Holder(sig)) == Some([Holder(sig), First])
  {
    HolderChain(auth, sig, First);
    forall chain | Certifies(auth, BothRoots, Holder(sig), chain) ensures chain == [Holder(sig), First] {
      HolderChainsOnly(auth, sig, chain);
    }
    UniqueChainExact(auth, BothRoots, Holder(sig), [Holder(sig), First]);
  }

  lemma {:induction false} TwoIssuers(crypto: Crypto, sig: Bytes)
    requires crypto.auth.issues(First, Holder(sig)) && crypto.auth.issues(Second, Holder(sig))
    ensures UniqueChain(crypto.auth, BothRoots, Holder(sig)) == None
    ensures Certifies(crypto.auth, BothRoots, Holder(sig), [Holder(sig), Second])
  {
    HolderChain(crypto.auth, sig, First);
    HolderChain(crypto.auth, sig, Second);
    assert [Holder(sig), First][1].serial != [Holder(sig), Second][1].serial;
    TwoChains(crypto, BothRoots, Holder(sig), [Holder(sig), First]);
  }

  /** The first root's key brings n - 1 to 1. */
  lemma {:induction false} HighIsLowered(codec: Codec)
    requires Faithful(codec)
    ensures Sanitized(codec, Holder(codec.marshal(1, Large - 1)), First) == Some(Holder(codec.marshal(1, 1)))
  {
    Orders();
  }

  lemma {:induction false} SecondIsSmall(crypto: Crypto, sig: Bytes)
    requires Certifies(crypto.auth, BothRoots, Holder(sig), [Holder(sig), Second])
    ensures OtherOrder(crypto, BothRoots, How((p, c) => EitherRoot(p, c)), Holder(sig), Large)
  {
    Orders();
    assert OrderOf(How((p, c) => EitherRoot(p, c)), [Holder(sig), Second][1]) == Small;
  }

  const Configuration := MspConfig("org", [Some(First), Some(Second)], [], [], [], [])

  lemma {:induction false} TwoRootPools()
    ensures PoolOf([First, Second]) == BothRoots.roots && ProperPools(BothRoots)
  {
    var roots := [First, Second];
    assert roots[..1] == [First] && roots[..1][..0] == [];
    assert PoolOf(roots[..1]) == [First];
    assert First.serial != Second.serial;
  }

  lemma {:induction false} RootsAreProper(crypto: Crypto)
    ensures ProperTree(crypto, CertificationTree(BothRoots.roots, [], BothRoots, {}), [])
  {
    TwoRootPools();
    RootChain(crypto.auth, BothRoots, First);
    RootChain(crypto.auth, BothRoots, Second);
  }

  lemma {:induction false} RootsParsed(crypto: Crypto)
    ensures AllParsed(Configuration.roots) == Some(BothRoots.roots)
    ensures LoadAll(crypto, BothRoots, Configuration.roots) == Some(BothRoots.roots)
  {
    ParsedAll(BothRoots.roots, Configuration.roots);
    LoadedAll(crypto, BothRoots, BothRoots.roots, Configuration.roots);
  }

  lemma {:induction false} RootsAreLoaded(crypto: Crypto)
    ensures LoadAuthorities(crypto, Configuration) == Some((BothRoots.roots, []))
  {
    TwoRootPools();
    RootsParsed(crypto);
  }

  lemma {:induction false} SetupSucceeds(crypto: Crypto) returns (st: MspState)
    ensures Established(crypto, Configuration) == Some(st) && st.tree.pools == BothRoots
  {
    TwoRootPools();
    RootsAreLoaded(crypto);
    RootsAreProper(crypto);
    assert Ancestors(crypto, BothRoots, []) == {};
    st := Configure(crypto, Configuration).value;
  }

  /**
   In a provider that set-up accepts, the high form has one chain, and sanitation yields the low form;
   that one has a second chain, of another order, and sanitizing it fails.
   */
  lemma {:induction false} SecondPassFails(codec: Codec) returns (st: MspState)
    requires Faithful(codec)
    ensures IssuesByEcdsa(World(codec), How((p, c) => EitherRoot(p, c)))
    ensures Established(World(codec), Configuration) == Some(st)
    ensures SanitizeCert(World(codec), st.tree.pools, Holder(codec.marshal(1, Large - 1))) == Some(Holder(codec.marshal(1, 1)))
    ensures OtherOrder(World(codec), st.tree.pools, How((p, c) => EitherRoot(p, c)), Holder(codec.marshal(1, 1)), Large)
    ensures SanitizeCert(World(codec), st.tree.pools, Holder(codec.marshal(1, 1))) == None
  {
    st := SetupSucceeds(World(codec));
    IssuesLawfully(codec, (p, c) => EitherRoot(p, c));
    WhoIssued(codec);
    OneIssuer(World(codec).auth, codec.marshal(1, Large - 1));
    TwoIssuers(World(codec), codec.marshal(1, 1));
    HighIsLowered(codec);
    SecondIsSmall(World(codec), codec.marshal(1, 1));
  }

  // ---------------------------------------------------------------------------------------------
  // A root, and its twin as an intermediate.

  function SelfSigned(signature: Bytes): Certificate {
    Certificate(1, "", EcKey(P256, []), true, Some([1]), [], 0, 1000, None, true, true, signature)
  }

  predicate Itself(p: Certificate, c: Certificate) {
    p == c == SelfSigned([])
  }

  ghost function SelfSigning(codec: Codec): Crypto {
    Cryptography(codec, (p, c) => Itself(p, c))
  }

  /** Below a root, its twin has one chain. */
  lemma {:induction false} TwinChain(auth: Authority, root: Certificate, twin: Certificate)
    requires SameButSignature(twin, root) && twin != root && auth.issues(root, twin)
    requires root.serverAuth && ValidAt(root, TimeFor(root)) && root.maxPathLen.None?
    ensures UniqueChain(auth, Pools([root], [twin]), twin) == Some([twin, root])
  {
    var pools, chain := Pools([root], [twin]), [twin, root];
    assert chain[..1] == [twin];
    assert Certifies(auth, pools, twin, chain);
    forall other | Certifies(auth, pools, twin, other) ensures other == chain {
      TwinChainsOnly(auth, pools, twin, other);
    }
    UniqueChainExact(auth, pools, twin, chain);
  }

  lemma {:induction false} TwinChainsOnly(auth: Authority, pools: Pools, twin: Certificate, other: seq<Certificate>)
    requires Certifies(auth, pools, twin, other) && twin !in pools.roots && pools.intermediates == [twin]
    ensures |other| == 2 && other == [twin, other[1]] && other[1] in pools.roots
  {
    assert other[..1] == [twin];
    assert |other| > 2 ==> IntermediateAt(auth, pools, TimeFor(twin), other, 1);
  }

  /** The twin is sanitized to the root, whose chain is another one. */
  lemma {:induction false} IntermediateBecomesRoot(codec: Codec)
    requires Faithful(codec)
    ensures IssuesByEcdsa(SelfSigning(codec), How((p, c) => Itself(p, c)))
    ensures var root, twin := SelfSigned(codec.marshal(1, 1)), SelfSigned(codec.marshal(1, Large - 1));
            var raw, crypto := Pools([root], [twin]), SelfSigning(codec);
            && UniqueChain(crypto.auth, raw, twin) == Some([twin, root])
            && SanitizeCert(crypto, raw, root) == Some(root)
            && SanitizeCert(crypto, raw, twin) == Some(root)
            && UniqueChain(crypto.auth, Pools([root], [root]), root) == Some([root])
  {
    Orders();
    var root, twin := SelfSigned(codec.marshal(1, 1)), SelfSigned(codec.marshal(1, Large - 1));
    var crypto := SelfSigning(codec);
    IssuesLawfully(codec, (p, c) => Itself(p, c));
    IssuesPair(codec, (p, c) => Itself(p, c), root, twin, Large - 1, Large);
    assert codec.unmarshal(root.signature) != codec.unmarshal(twin.signature);
    TwinChain(crypto.auth, root, twin);
    RootChain(crypto.auth, Pools([root], [twin]), root);
    RootChain(crypto.auth, Pools([root], [root]), root);
    TwinsLowered(codec);
  }

  lemma {:induction false} TwinsLowered(codec: Codec)
    requires Faithful(codec)
    ensures var root, twin := SelfSigned(codec.marshal(1, 1)), SelfSigned(codec.marshal(1, Large - 1));
            Sanitized(codec, root, root) == Some(root) && Sanitized(codec, twin, root) == Some(root)
  {
    Orders();
  }
}
