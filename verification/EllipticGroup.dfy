/**
 The group that ECDSA works in: a cyclic group of order N with a distinguished generator. Scalar
 multiplication is repeated addition; that it respects sums, products and residues is proved here.
 */
module EllipticGroup {
  datatype Group<!P> = Group(
    order: nat,
    base: P,
    zero: P,                  // the point at infinity, written (0, 0)
    add: (P, P) -> P,
    neg: P -> P,
    x: P -> nat)              // first coordinate

  /** k times p. */
  function Mul<P>(g: Group<P>, k: nat, p: P): P {
    if k == 0 then g.zero else g.add(Mul(g, k - 1, p), p)
  }

  /** A name for the pair and triple that a law is about, so that it is used only where asked for. */
  ghost predicate Pair<P>(a: P, b: P) { true }
  ghost predicate Triple<P>(a: P, b: P, c: P) { true }

  ghost predicate Associative<P(!new)>(g: Group<P>) {
    forall a, b, c {:trigger Triple(a, b, c)} :: Triple(a, b, c) ==> g.add(g.add(a, b), c) == g.add(a, g.add(b, c))
  }

  ghost predicate Commutative<P(!new)>(g: Group<P>) {
    forall a, b {:trigger Pair(a, b)} :: Pair(a, b) ==> g.add(a, b) == g.add(b, a)
  }

  ghost predicate Lawful<P(!new)>(g: Group<P>) {
    && g.order > 1
    && Associative(g)
    && Commutative(g)
    && (forall a :: g.add(a, g.zero) == a)
    && (forall a :: g.add(a, g.neg(a)) == g.zero)
    && (forall a :: g.x(g.neg(a)) == g.x(a))
    && Mul(g, g.order, g.base) == g.zero
    && (forall k: nat :: 0 < k < g.order ==> Mul(g, k, g.base) != g.zero)
  }

  lemma {:induction false} Assoc<P(!new)>(g: Group<P>, a: P, b: P, c: P)
    requires Lawful(g)
    ensures g.add(g.add(a, b), c) == g.add(a, g.add(b, c))
  {
    assert Triple(a, b, c);
  }

  lemma {:induction false} Comm<P(!new)>(g: Group<P>, a: P, b: P)
    requires Lawful(g)
    ensures g.add(a, b) == g.add(b, a)
  {
    assert Pair(a, b);
  }

  /** Scalar multiplication is a homomorphism from addition. */
  lemma {:induction false} MulAdd<P(!new)>(g: Group<P>, a: nat, b: nat, p: P)
    requires Lawful(g)
    ensures Mul(g, a + b, p) == g.add(Mul(g, a, p), Mul(g, b, p))
  {
    if b == 0 {
    } else {
      MulAdd(g, a, b - 1, p);
      Assoc(g, Mul(g, a, p), Mul(g, b - 1, p), p);
    }
  }

  lemma {:induction false} MulZeroPoint<P(!new)>(g: Group<P>, a: nat)
    requires Lawful(g)
    ensures Mul(g, a, g.zero) == g.zero
  {
    if a > 0 {
      MulZeroPoint(g, a - 1);
    }
  }

  /** And from multiplication to composition. */
  lemma {:induction false} MulMul<P(!new)>(g: Group<P>, a: nat, b: nat, p: P)
    requires Lawful(g)
    ensures Mul(g, a * b, p) == Mul(g, a, Mul(g, b, p))
  {
    if a == 0 {
      assert a * b == 0;
    } else {
      MulMul(g, a - 1, b, p);
      assert a * b == (a - 1) * b + b;
      MulAdd(g, (a - 1) * b, b, p);
    }
  }

  /** Scalars act through their residue modulo the order. */
  lemma {:induction false} MulResidue<P(!new)>(g: Group<P>, a: nat)
    requires Lawful(g)
    ensures Mul(g, a % g.order, g.base) == Mul(g, a, g.base)
  {
    var q, r := a / g.order, a % g.order;
    assert a == q * g.order + r;
    MulAdd(g, q * g.order, r, g.base);
    MulMul(g, q, g.order, g.base);
    MulZeroPoint(g, q);
    Comm(g, g.zero, Mul(g, r, g.base));
  }

  /** A multiple of the base is the point at infinity exactly when the order divides the scalar. */
  lemma {:induction false} MulIsZero<P(!new)>(g: Group<P>, a: nat)
    requires Lawful(g)
    ensures Mul(g, a, g.base) == g.zero <==> a % g.order == 0
  {
    MulResidue(g, a);
  }

  /** Negatives are unique. */
  lemma {:induction false} NegUnique<P(!new)>(g: Group<P>, a: P, b: P)
    requires Lawful(g) && g.add(a, b) == g.zero
    ensures b == g.neg(a)
  {
    var n := g.neg(a);
    Comm(g, a, n);
    Assoc(g, n, a, b);
    Comm(g, g.zero, b);
  }
}
