/**
 Re-randomisation of ECDSA keys, in the software provider and in the PKCS#11 provider. Each method is
 specified against the key pair it belongs to: the ghost scalar d, with public point d times the base.
 */
module KeyDerivation {
  import opened Prelude
  import opened ModularArithmetic
  import opened EllipticGroup
  import opened BigEndian

  datatype PrivateKey<!P> = PrivateKey(d: nat, pub: P)

  /** The public point of scalar a. */
  function Public<P>(g: Group<P>, a: nat): P {
    Mul(g, a, g.base)
  }

  /** The scalar taken from an expansion value: its residue modulo N - 1, plus one. */
  function Blinding(order: nat, expansion: Bytes): (k: nat)
    requires order > 1
    ensures 1 <= k <= order - 1
  {
    FromBytes(expansion) % (order - 1) + 1
  }

  /** It is congruent to the expansion value plus one, modulo N - 1. */
  lemma {:induction false} BlindingExact(order: nat, expansion: Bytes) returns (q: nat)
    requires order > 1
    ensures FromBytes(expansion) + 1 == q * (order - 1) + Blinding(order, expansion)
  {
    q := Quotient(FromBytes(expansion), order - 1);
  }

  lemma {:induction false} Quotient(a: nat, n: nat) returns (q: nat)
    requires n > 0
    ensures a == q * n + a % n
  {
    q := a / n;
  }

  /** The scalar of the derived key. */
  function DerivedScalar(order: nat, d: nat, expansion: Bytes): nat
    requires order > 1
  {
    (d + Blinding(order, expansion)) % order
  }

  /** It is congruent modulo N to d, one and the expansion value reduced modulo N - 1. */
  lemma {:induction false} DerivedScalarExact(order: nat, d: nat, expansion: Bytes) returns (p: nat, q: nat, k: nat)
    requires order > 1
    ensures DerivedScalar(order, d, expansion) < order && 1 <= k < order
    ensures FromBytes(expansion) + 1 == q * (order - 1) + k
    ensures d + k == p * order + DerivedScalar(order, d, expansion)
  {
    k := Blinding(order, expansion);
    q := BlindingExact(order, expansion);
    p := Quotient(d + k, order);
  }

  /** Adding the blinding point moves to the public point of the derived scalar. */
  lemma {:induction false} BlindedPoint<P(!new)>(g: Group<P>, d: nat, k: nat)
    requires Lawful(g)
    ensures g.add(Public(g, d), Mul(g, k, g.base)) == Public(g, (d + k) % g.order)
    ensures Public(g, (d + k) % g.order) == g.zero <==> (d + k) % g.order == 0
  {
    MulAdd(g, d, k, g.base);
    MulResidue(g, d + k);
    MulIsZero(g, d + k);
  }

  /** ecdsaPublicKeyKeyDeriver, and the public-key branch of the PKCS#11 provider. */
  method DerivePublic<P(==, !new)>(g: Group<P>, pub: P, expansion: Bytes, ghost d: nat) returns (r: Option<P>)
    requires Lawful(g) && pub == Public(g, d)
    ensures r.None? <==> DerivedScalar(g.order, d, expansion) == 0
    ensures r.Some? ==> r.value == Public(g, DerivedScalar(g.order, d, expansion))
  {
    var k := FromBytes(expansion);
    var one := 1;
    var n := g.order - one;
    k := k % n;
    k := k + one;
    var temp := g.add(pub, Mul(g, k, g.base));
    BlindedPoint(g, d, k);
    var isOn := temp != g.zero;
    if !isOn {
      return None;
    }
    return Some(temp);
  }

  /** ecdsaPrivateKeyKeyDeriver: adds the blinding to the scalar, and its point to the public key. */
  method DerivePrivate<P(==, !new)>(g: Group<P>, key: PrivateKey<P>, expansion: Bytes)
    returns (r: Option<PrivateKey<P>>)
    requires Lawful(g) && key.pub == Public(g, key.d)
    ensures r.None? <==> DerivedScalar(g.order, key.d, expansion) == 0
    ensures r.Some? ==> r.value.d == DerivedScalar(g.order, key.d, expansion)
    ensures r.Some? ==> r.value.pub == Public(g, r.value.d)
  {
    var k := FromBytes(expansion);
    var one := 1;
    var n := g.order - one;
    k := k % n;
    k := k + one;
    var tempD := key.d + k;
    tempD := tempD % g.order;
    var temp := g.add(key.pub, Mul(g, k, g.base));
    BlindedPoint(g, key.d, k);
    var isOn := temp != g.zero;
    if !isOn {
      return None;
    }
    return Some(PrivateKey(tempD, temp));
  }

  /** The private-key branch of the PKCS#11 provider: multiplies the base by the derived scalar. */
  method DeriveOnToken<P(==, !new)>(g: Group<P>, secret: Bytes, expansion: Bytes)
    returns (r: Option<PrivateKey<P>>)
    requires Lawful(g)
    ensures r.None? <==> DerivedScalar(g.order, FromBytes(secret), expansion) == 0
    ensures r.Some? ==> r.value.d == DerivedScalar(g.order, FromBytes(secret), expansion)
    ensures r.Some? ==> r.value.pub == Public(g, r.value.d)
  {
    var bigSecret := FromBytes(secret);
    var k := FromBytes(expansion);
    var one := 1;
    var n := g.order - one;
    k := k % n;
    k := k + one;
    var tempD := bigSecret + k;
    tempD := tempD % g.order;
    var temp := Mul(g, tempD, g.base);
    BlindedPoint(g, bigSecret, k);
    var isOn := temp != g.zero;
    if !isOn {
      return None;
    }
    return Some(PrivateKey(tempD, temp));
  }

  /** Both providers, from the private and from the public key, reach one key or refuse together. */
  method DeriveEverywhere<P(==, !new)>(g: Group<P>, secret: Bytes, expansion: Bytes)
    returns (fromPublic: Option<P>, fromPrivate: Option<PrivateKey<P>>, fromToken: Option<PrivateKey<P>>)
    requires Lawful(g)
    ensures fromPrivate == fromToken
    ensures fromPublic.Some? <==> fromPrivate.Some?
    ensures fromPublic.Some? ==> fromPublic.value == fromPrivate.value.pub
    ensures fromPublic.None? <==> (FromBytes(secret) + Blinding(g.order, expansion)) % g.order == 0
  {
    var d := FromBytes(secret);
    var pub := Public(g, d);
    fromPublic := DerivePublic(g, pub, expansion, d);
    fromPrivate := DerivePrivate(g, PrivateKey(d, pub), expansion);
    fromToken := DeriveOnToken(g, secret, expansion);
  }

  /** Two multiples of the base are equal only if the scalars agree modulo the order. */
  lemma {:induction false} PublicInjective<P(!new)>(g: Group<P>, a: nat, b: nat)
    requires Lawful(g) && a < g.order && b < g.order
    ensures Public(g, a) == Public(g, b) <==> a == b
  {
    var hi, lo := if a >= b then a else b, if a >= b then b else a;
    MulAdd(g, lo, g.order - hi, g.base);
    MulAdd(g, hi, g.order - hi, g.base);
    MulIsZero(g, lo + (g.order - hi));
    MulIsZero(g, hi + (g.order - hi));
    if hi > lo {
      Remainder(lo + (g.order - hi), 0, lo + (g.order - hi), g.order);
    }
  }

  /** A derived key is never the key it was derived from. */
  lemma {:induction false} DerivedKeyIsNew<P(!new)>(g: Group<P>, d: nat, expansion: Bytes)
    requires Lawful(g) && d < g.order
    ensures Public(g, DerivedScalar(g.order, d, expansion)) != Public(g, d)
  {
    var k := Blinding(g.order, expansion);
    var a := (d + k) % g.order;
    if d + k < g.order {
      Remainder(d + k, 0, d + k, g.order);
    } else {
      Remainder(d + k, 1, d + k - g.order, g.order);
    }
    PublicInjective(g, a, d);
  }

  /** Derivations commute: the order of the expansion values does not matter. */
  lemma {:induction false} DerivationsCommute(order: nat, d: nat, e1: Bytes, e2: Bytes)
    requires order > 1
    ensures DerivedScalar(order, DerivedScalar(order, d, e1), e2) == DerivedScalar(order, DerivedScalar(order, d, e2), e1)
  {
    var k1, k2 := Blinding(order, e1), Blinding(order, e2);
    AddMod(d + k1, k2, order);
    AddMod(d + k2, k1, order);
  }
}
