/**
 The exact condition for a tree of And and Or over different principals never to be revoked: no rule
 of an And but the last has an And below an Or.
 */
module PolicyRevocationExact {
  import opened Prelude
  import opened SignaturePolicies
  import opened PolicyEvaluator
  import opened PolicyStability
  import opened PolicyRevocation
  import opened PolicyRevoked

  // ---------------------------------------------------------------------------------------------
  // From numbers back to principals.

  /** The oracle says of the first principals what the numbers say of the second. */
  ghost predicate Relabels(ok: Oracle, ps: seq<Principal>, qs: seq<Principal>, sds: seq<SignedData>) {
    && |ps| == |qs|
    && forall k, i {:trigger ok(ps[k], sds[i])} :: 0 <= k < |ps| && 0 <= i < |sds| ==> ok(ps[k], sds[i]) == ByNumber(qs[k], sds[i])
  }

  lemma {:induction false} RelabelsConcat(ok: Oracle, ps: seq<Principal>, psRest: seq<Principal>, qs: seq<Principal>, qsRest: seq<Principal>,
                                          sds: seq<SignedData>)
    requires |ps| == |qs| && Relabels(ok, ps + psRest, qs + qsRest, sds)
    ensures Relabels(ok, ps, qs, sds) && Relabels(ok, psRest, qsRest, sds)
  {
    var p, q := ps + psRest, qs + qsRest;
    forall k, i | 0 <= k < |ps| && 0 <= i < |sds| ensures ok(ps[k], sds[i]) == ByNumber(qs[k], sds[i]) {
      assert ok(p[k], sds[i]) == ByNumber(q[k], sds[i]);
    }
    forall k, i | 0 <= k < |psRest| && 0 <= i < |sds| ensures ok(psRest[k], sds[i]) == ByNumber(qsRest[k], sds[i]) {
      assert ok(p[|ps| + k], sds[i]) == ByNumber(q[|ps| + k], sds[i]);
    }
  }

  lemma {:induction false} ShapeLeaves(e: Evaluator, x: Evaluator)
    requires SameShape(e, x)
    ensures |Principals(e)| == |Principals(x)|
    decreases e, 1
  {
    if e.Gate? {
      ShapeLeavesAll(e.policies, x.policies);
    }
  }

  lemma {:induction false} ShapeLeavesAll(es: seq<Evaluator>, xs: seq<Evaluator>)
    requires SameShapes(es, xs)
    ensures |PrincipalsAll(es)| == |PrincipalsAll(xs)|
    decreases es, 0
  {
    if es != [] {
      ShapeLeaves(es[0], xs[0]);
      ShapeLeavesAll(es[1..], xs[1..]);
    }
  }

  /** Trees of one shape, with leaves that mean the same, evaluate alike. */
  lemma {:induction false} RelabelledEval(ok: Oracle, e: Evaluator, x: Evaluator, sds: seq<SignedData>, used: seq<bool>)
    requires SameShape(e, x) && |sds| <= |used| && Relabels(ok, Principals(e), Principals(x), sds)
    ensures Eval(ok, e, sds, used) == Eval(ByNumber, x, sds, used)
    decreases e, 1
  {
    match e
    case Leaf(p) => RelabelledLeaf(ok, p, x.principal, sds, used);
    case Gate(_, policies) => RelabelledCount(ok, policies, x.policies, sds, used);
  }

  lemma {:induction false} RelabelledLeaf(ok: Oracle, p: Principal, q: Principal, sds: seq<SignedData>, used: seq<bool>)
    requires |sds| <= |used| && Relabels(ok, [p], [q], sds)
    ensures Eval(ok, Leaf(p), sds, used) == Eval(ByNumber, Leaf(q), sds, used)
  {
    assert forall i :: 0 <= i < |sds| ==> ok([p][0], sds[i]) == ByNumber([q][0], sds[i]);
    FirstAcceptedUnique(ok, p, sds, used, FirstAccepted(ByNumber, q, sds, used, 0));
  }

  lemma {:induction false} RelabelledCount(ok: Oracle, es: seq<Evaluator>, xs: seq<Evaluator>, sds: seq<SignedData>, used: seq<bool>)
    requires SameShapes(es, xs) && |sds| <= |used| && Relabels(ok, PrincipalsAll(es), PrincipalsAll(xs), sds)
    ensures Count(ok, es, sds, used) == Count(ByNumber, xs, sds, used)
    decreases es, 0
  {
    if es != [] {
      ShapeLeaves(es[0], xs[0]);
      RelabelsConcat(ok, Principals(es[0]), PrincipalsAll(es[1..]), Principals(xs[0]), PrincipalsAll(xs[1..]), sds);
      RelabelledEval(ok, es[0], xs[0], sds, used);
      var r := Eval(ok, es[0], sds, used);
      RelabelledCount(ok, es[1..], xs[1..], sds, if r.accepted then r.used else used);
    }
  }

  /** Different principals can mean anything. */
  lemma {:induction false} SomeOracle(ps: seq<Principal>, qs: seq<Principal>, sds: seq<SignedData>) returns (ok: Oracle)
    requires |ps| == |qs| && Distinct(ps)
    ensures Relabels(ok, ps, qs, sds)
  {
    ok := (p, sd) => exists k :: 0 <= k < |ps| && ps[k] == p && ByNumber(qs[k], sd);
  }

  // ---------------------------------------------------------------------------------------------
  // The exact condition.

  lemma {:induction false} NumbersDiffer(count: nat)
    ensures DistinctIdentities(Data(count)) && DistinctIdentities(Data(count + 1)[1..])
    ensures !HasIdentity(Data(count + 1)[1..], Datum(0).identity)
  {
    var more := Data(count + 1)[1..];
    forall i: nat, j: nat | i != j ensures Datum(i).identity != Datum(j).identity { DatumInjective(i, j); }
    assert forall i :: 0 <= i < count ==> more[i] == Datum(i + 1);
  }

  /** Evaluation of the numbered data, all of them and all but the first. */
  lemma {:induction false} EvaluateNumbers(ok: Oracle, e: Evaluator, count: nat)
    ensures Evaluation(ok, e, Data(count)).accepted == Eval(ok, e, Data(count), NoneUsed(count)).accepted
  {
    NumbersDiffer(count);
    DistinctIsKept(Data(count));
  }

  lemma {:induction false} EvaluateRest(ok: Oracle, e: Evaluator, count: nat)
    ensures Evaluation(ok, e, Data(count + 1)[1..]).accepted ==
            Eval(ok, e, Data(count + 1), Insert(NoneUsed(count), 0, true)).accepted
  {
    var sds := Data(count + 1);
    var rest := sds[1..];
    NumbersDiffer(count);
    DistinctIsKept(rest);
    WithoutIsUsed(ok, e, rest, count, 0, sds[0]);
    assert Insert(rest, 0, sds[0]) == sds;
  }

  lemma {:induction false} ZeroRevokes(ok: Oracle, e: Evaluator, x: Evaluator, w: nat, count: nat)
    requires SameShape(e, x) && Relabels(ok, Principals(e), Principals(x), Data(count + 1))
    requires 2 <= w <= count + 1 && Revokes(x, w, w, count + 1)
    ensures Eval(ok, e, Data(count + 1), Insert(NoneUsed(count), 0, true)).accepted
    ensures !Eval(ok, e, Data(count + 1), NoneUsed(count + 1)).accepted
  {
    var u, v := Insert(NoneUsed(count), 0, true), NoneUsed(count + 1);
    RelabelledEval(ok, e, x, Data(count + 1), u);
    RelabelledEval(ok, e, x, Data(count + 1), v);
    assert Ready(u, w, w, count + 1) && Ready(v, w, w, count + 1);
    assert RevokesAt(x, u) && RevokesAt(x, v);
  }

  lemma {:induction false} RevokedNow(ok: Oracle, e: Evaluator, signatureSet: seq<SignedData>, j: nat, x: SignedData, more: seq<SignedData>)
    requires j <= |signatureSet| && !HasIdentity(signatureSet, x.identity) && more == Insert(signatureSet, j, x)
    requires Evaluation(ok, e, signatureSet).accepted && !Evaluation(ok, e, more).accepted
    ensures !NeverRevoked(e)
  {
    assert !Evaluation(ok, e, Insert(signatureSet, j, x)).accepted;
  }

  lemma {:induction false} RevokedUnder(ok: Oracle, e: Evaluator, x: Evaluator, w: nat, count: nat)
    requires SameShape(e, x) && Relabels(ok, Principals(e), Principals(x), Data(count + 1))
    requires 2 <= w <= count + 1 && Revokes(x, w, w, count + 1)
    ensures Evaluation(ok, e, Data(count + 1)[1..]).accepted && !Evaluation(ok, e, Data(count + 1)).accepted
  {
    ZeroRevokes(ok, e, x, w, count);
    EvaluateRest(ok, e, count);
    EvaluateNumbers(ok, e, count + 1);
  }

  /** A tree that signature 0 revokes is revoked under some oracle of its principals. */
  lemma {:induction false} RevokedByZero(e: Evaluator, x: Evaluator, w: nat, count: nat)
    requires SameShape(e, x) && Distinct(Principals(e)) && 2 <= w <= count + 1 && Revokes(x, w, w, count + 1)
    ensures !NeverRevoked(e)
  {
    ShapeLeaves(e, x);
    var sds := Data(count + 1);
    var ok := SomeOracle(Principals(e), Principals(x), sds);
    RevokedUnder(ok, e, x, w, count);
    NumbersDiffer(count);
    assert sds == Insert(sds[1..], 0, sds[0]);
    RevokedNow(ok, e, sds[1..], 0, sds[0], sds);
  }

  // Steadiness of such trees, by their shape.

  predicate HasAnd(e: Evaluator) {
    e.Gate? && (e.n != 1 || exists k :: 0 <= k < |e.policies| && HasAnd(e.policies[k]))
  }

  predicate AndBelowOr(e: Evaluator) {
    e.Gate? && exists k :: 0 <= k < |e.policies| && (if e.n == 1 then HasAnd(e.policies[k]) else AndBelowOr(e.policies[k]))
  }

  /** No rule of an And but the last has an And below an Or. */
  predicate AndsInOrder(e: Evaluator) {
    e.Leaf? || forall k :: 0 <= k < |e.policies| ==>
      AndsInOrder(e.policies[k]) && (e.n == 1 || k == |e.policies| - 1 || !AndBelowOr(e.policies[k]))
  }

  lemma {:induction false} ShapeOfRollback(e: Evaluator)
    requires AndOr(e)
    ensures NoRollback(e) <==> !HasAnd(e)
    decreases e
  {
    if e.Gate? {
      forall k | 0 <= k < |e.policies| ensures NoRollback(e.policies[k]) <==> !HasAnd(e.policies[k]) {
        ShapeOfRollback(e.policies[k]);
      }
    }
  }

  lemma {:induction false} ShapeOfFirm(e: Evaluator)
    requires AndOr(e)
    ensures Firm(e) <==> !AndBelowOr(e)
    decreases e
  {
    ShapeOfRollback(e);
    if e.Gate? {
      forall k | 0 <= k < |e.policies|
        ensures NoRollback(e.policies[k]) <==> !HasAnd(e.policies[k])
        ensures Firm(e.policies[k]) <==> !AndBelowOr(e.policies[k])
      {
        ShapeOfRollback(e.policies[k]);
        ShapeOfFirm(e.policies[k]);
      }
    }
  }

  lemma {:induction false} ShapeOfSteady(e: Evaluator)
    requires AndOr(e)
    ensures Steady(e) <==> AndsInOrder(e)
    decreases e
  {
    if e.Gate? {
      forall k | 0 <= k < |e.policies|
        ensures Steady(e.policies[k]) <==> AndsInOrder(e.policies[k])
        ensures Firm(e.policies[k]) <==> !AndBelowOr(e.policies[k])
      {
        ShapeOfSteady(e.policies[k]);
        ShapeOfFirm(e.policies[k]);
      }
    }
  }

  /** A tree of And and Or over different principals is never revoked exactly if its Ands are in order. */
  lemma {:induction false} NeverRevokedIff(e: Evaluator)
    requires AndOr(e) && Distinct(Principals(e))
    ensures NeverRevoked(e) <==> AndsInOrder(e)
  {
    ShapeOfSteady(e);
    if Steady(e) {
      SteadyNeverRevoked(e);
    } else {
      var w := Size(e) + 2;
      var x, g := MakeRevoke(e, w, w);
      RevokedByZero(e, x, w, g - 1);
    }
  }
}
